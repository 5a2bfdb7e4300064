/** A whole call: the client's stub, the transaction code, the server's arm, the service and
    the reply, put together. */
module RoundTrips {
  import opened Wire
  import opened ArrayWire
  import opened Parcels
  import opened Stable
  import opened Versions
  import opened Generated
  import opened TransactionCodes
  import opened Calls

  datatype Signature = Signature(args: seq<Arg>, ret: Option<Arg>)

  /** What the service gives back: the return value, and the arguments as it leaves them. */
  datatype Reaction = Reaction(value: Value, outs: seq<Value>)

  type Service = (nat, seq<Value>) -> Reaction

  /** Both sides know the parcelables of the signature, in both directions. */
  ghost predicate Understood(c: Schema, s: Schema, sig: Signature) {
    && Shared(c, s, sig.args) && Shared(s, c, sig.args)
    && (sig.ret.Some? ==> NameShared(s, c, sig.ret.value.ty))
  }

  /** The service answers every method with values of the declared types. */
  ghost predicate Proper(s: Schema, sigs: seq<Signature>, serve: Service) {
    forall j, handed | 0 <= j < |sigs| && |handed| == |sigs[j].args| :: WellAnswered(s, sigs[j], serve(j, handed))
  }

  ghost predicate WellAnswered(s: Schema, sig: Signature, a: Reaction) {
    AllTyped(s, sig.args, a.outs) && (sig.ret.Some? ==> Typed(s, sig.ret.value.ty, a.value))
  }

  /** The request fits a parcel and nothing in it nests too deep. */
  ghost predicate Sendable(c: Schema, s: Schema, sig: Signature, vals: seq<Value>)
    requires Understood(c, s, sig) && AllTyped(c, sig.args, vals)
  {
    |RequestFrom(c, sig.args, vals, 0)| <= I32_MAX && Shallow(c, s, sig.args, vals, 0)
  }

  ghost predicate Returnable(c: Schema, s: Schema, sig: Signature, a: Reaction)
    requires Understood(c, s, sig) && WellAnswered(s, sig, a)
  {
    && |Reply(s, sig.ret, a.value, sig.args, a.outs)| <= I32_MAX
    && ShallowReturn(s, c, sig.ret, a.value) && ShallowOuts(s, c, sig.args, a.outs, Backward(sig.args, 0))
  }

  /** What the client has after the call. */
  ghost predicate Delivered(c: Schema, s: Schema, sig: Signature, vals: seq<Value>, a: Reaction, r: Response)
    requires Understood(c, s, sig) && |vals| == |a.outs| == |sig.args|
  {
    && r.Returned? && |r.vals| == |vals|
    && (sig.ret.Some? ==> r.value == Project(s, c, sig.ret.value.ty, a.value))
    && (forall j :: 0 <= j < |vals| ==>
          r.vals[j] == if GoesBack(sig.args[j]) then Merged(s, c, sig.args[j].ty, a.outs[j], vals[j]) else vals[j])
    && (c == s ==>
          && (sig.ret.Some? ==> r.value == a.value)
          && forall j :: 0 <= j < |vals| ==> r.vals[j] == if GoesBack(sig.args[j]) then a.outs[j] else vals[j])
  }

  /** An ordinary method is always reached by its own code. */
  lemma MethodArrives(methods: Methods, version: bool, hash: bool, i: nat)
    requires WellCoded(methods) && i < |methods|
    ensures Dispatch(methods, version, hash, CodeOf(methods, i), 0) == Method(i)
  {
    hide CodeOf, WellCoded;
    DispatchFirst(methods, version, hash, CodeOf(methods, i), 0);
    var t := Dispatch(methods, version, hash, CodeOf(methods, i), 0);
    if t.Method? && t.index != i {
      CodesDistinct(methods, t.index, i);
    }
  }

  // ----- whole words -----

  /** Every value takes a whole number of words, so none ends on the last byte a parcel may have. */
  lemma {:induction false} EncWhole(s: Schema, ty: FieldType, v: Value)
    requires Typed(s, ty, v)
    ensures |Enc(s, ty, v)| % 4 == 0
    decreases v, 1
  {
    hide EncI32, EncText, Padded, TypedAll, EncArray, EncSeq;
    match ty
    case Pods(w, _) =>
      ArrayWhole(Plain(w, if v.Null? then None else Some(v.items)));
    case Nested(name, _) =>
      if v.Record? {
        SeqWhole(s, TypesOf(s.types[name]), v.fields);
      }
    case Structs(name, _) =>
      if v.Many? {
        SeqWhole(s, Repeat(Nested(name, false), |v.elems|), v.elems);
      }
    case _ =>
  }

  lemma ArrayWhole(v: ArrayValue)
    requires v.Valid() && v.Plain?
    ensures |EncArray(v)| % 4 == 0
  {
    hide EncI32, Padded, Flatten;
  }

  lemma {:induction false} SeqWhole(s: Schema, tys: seq<FieldType>, vs: seq<Value>)
    requires TypedAll(s, tys, vs)
    ensures |EncSeq(s, tys, vs)| % 4 == 0
    decreases vs, 0
  {
    hide Enc, Typed;
    if vs != [] {
      EncWhole(s, tys[0], vs[0]);
      SeqWhole(s, tys[1..], vs[1..]);
    }
  }

  lemma {:induction false} RequestWhole(s: Schema, args: seq<Arg>, vals: seq<Value>, i: nat)
    requires AllTyped(s, args, vals) && i <= |args|
    ensures |RequestFrom(s, args, vals, i)| % 4 == 0
    decreases |args| - i
  {
    hide Enc, EncI32, Typed, RequestFrom;
    if i == |args| {
      RequestNothing(s, args, vals);
    } else {
      RequestSplit(s, args, vals, i);
      EncWhole(s, args[i].ty, vals[i]);
      RequestWhole(s, args, vals, i + 1);
    }
  }

  lemma {:induction false} OutsWhole(s: Schema, args: seq<Arg>, outs: seq<Value>, back: seq<nat>)
    requires AllTyped(s, args, outs) && Indices(back, |args|)
    ensures |OutBytes(s, args, outs, back)| % 4 == 0
    decreases back
  {
    hide Enc, Typed;
    if back != [] {
      EncWhole(s, args[back[0]].ty, outs[back[0]]);
      OutsWhole(s, args, outs, back[1..]);
    }
  }

  lemma ReplyWhole(s: Schema, sig: Signature, a: Reaction)
    requires WellAnswered(s, sig, a)
    ensures |Reply(s, sig.ret, a.value, sig.args, a.outs)| % 4 == 0
  {
    hide Enc, EncI32, Typed, OutBytes;
    if sig.ret.Some? {
      EncWhole(s, sig.ret.value.ty, a.value);
    }
    OutsWhole(s, sig.args, a.outs, Backward(sig.args, 0));
  }

  /** A parcel that holds just `e`. */
  lemma AloneHolds(e: seq<byte>)
    requires |e| % 4 == 0 && |e| <= I32_MAX
    ensures Overlay([], 0, e) == e && Holds(e, 0, e)
  {
    assert Overlay([], 0, e)[0..|e|] == e;
  }

  // ----- the call -----

  lemma SelfShared(s: Schema, sig: Signature)
    requires Understood(s, s, sig)
    ensures Shared(s, s, sig.args)
  {
  }

  /** Within one version the service is handed the very values sent. */
  lemma HandedSame(s: Schema, args: seq<Arg>, vals: seq<Value>)
    requires Compatible(s, s) && AllTyped(s, args, vals) && Shared(s, s, args)
    ensures forall j :: 0 <= j < |args| && !args[j].dir.Out? ==> HandedFrom(s, s, args, vals, 0)[j] == vals[j]
  {
    hide Compatible, Project, Typed, NameShared;
    forall j | 0 <= j < |args| && !args[j].dir.Out?
      ensures HandedFrom(s, s, args, vals, 0)[j] == vals[j]
    {
      ProjectSelf(s, args[j].ty, vals[j]);
    }
  }

  /** The client's statements, and the server's on the parcel they leave. */
  method Ask(c: Schema, s: Schema, sig: Signature, vals: seq<Value>) returns (r: Result<seq<Value>>)
    requires Compatible(c, s) && Understood(c, s, sig) && AllTyped(c, sig.args, vals)
    ensures r == if Sendable(c, s, sig, vals) then Ok(HandedFrom(c, s, sig.args, vals, 0)) else Err(BadValue)
  {
    hide Overlay, Contents, Holds, Request, Compatible, RunDecls, Shallow, Handed;
    var writes, decls, replies, readOnto := MakeFnMember(sig.args);
    WriteFuncsFit(c, sig.args, vals, 0);
    DeclsFit(sig.args, 0);
    var p := new Parcel();
    ghost var e := RequestFrom(c, sig.args, vals, 0);
    var sent := BuildParcel(p, c, sig.args, vals, writes);
    if sent.Err? {
      return Err(sent.status);
    }
    RequestWhole(c, sig.args, vals, 0);
    AloneHolds(e);
    p.SetDataPosition(0);
    var vars := seq(|sig.args|, _ => Null);
    RequestBack(c, s, sig.args, vals, p.Bytes(), 0, vars, 0);
    assert vars[..0] + HandedFrom(c, s, sig.args, vals, 0) == HandedFrom(c, s, sig.args, vals, 0);
    r := ReadArguments(p, s, sig.args, vars, decls);
  }

  /** The server's reply, and what the client reads from it. */
  method Respond(c: Schema, s: Schema, sig: Signature, vals: seq<Value>, a: Reaction) returns (r: Result<Response>)
    requires Compatible(s, c) && Understood(c, s, sig) && WellAnswered(s, sig, a) && |vals| == |sig.args|
    ensures if Returnable(c, s, sig, a) then r.Ok? && Delivered(c, s, sig, vals, a, r.value) else r == Err(BadValue)
  {
    hide Overlay, Contents, Holds, Reply, Compatible, ReadResponse, ShallowReturn, ShallowOuts, Merged;
    var p := new Parcel();
    var sent := WriteReply(p, s, sig.ret, a.value, sig.args, a.outs);
    if sent.Err? {
      return Err(sent.status);
    }
    ReplyWhole(s, sig, a);
    AloneHolds(Reply(s, sig.ret, a.value, sig.args, a.outs));
    p.SetDataPosition(0);
    ReplyRecovered(s, c, sig.ret, a.value, sig.args, a.outs, vals, p.Bytes(), 0);
    r := ReadReply(p, c, sig.ret, sig.args, vals);
  }

  /** A call to method `i`.  The service runs once, as method `i`, on the values sent; or not
      at all when they cannot be sent. The client ends with the service's answer. */
  method Transact(c: Schema, s: Schema, methods: Methods, version: bool, hash: bool, sigs: seq<Signature>,
                  serve: Service, i: nat, vals: seq<Value>) returns (r: Result<Response>, served: seq<(nat, seq<Value>)>)
    requires |methods| == |sigs| && i < |sigs| && WellCoded(methods) && Proper(s, sigs, serve)
    requires Compatible(c, s) && Compatible(s, c) && Understood(c, s, sigs[i]) && AllTyped(c, sigs[i].args, vals)
    ensures served == if Sendable(c, s, sigs[i], vals) then [(i, HandedFrom(c, s, sigs[i].args, vals, 0))] else []
    ensures c == s && served != [] ==>
              forall j :: 0 <= j < |vals| && !sigs[i].args[j].dir.Out? ==> served[0].1[j] == vals[j]
    ensures if !Sendable(c, s, sigs[i], vals) then r == Err(BadValue)
            else
              var a := serve(i, HandedFrom(c, s, sigs[i].args, vals, 0));
              if Returnable(c, s, sigs[i], a) then r.Ok? && Delivered(c, s, sigs[i], vals, a, r.value) else r == Err(BadValue)
  {
    hide Sendable, Returnable, Delivered, Compatible, Understood, WellAnswered, Typed, CodeOf, WellCoded, Dispatch;
    var code := CodeOf(methods, i);
    MethodArrives(methods, version, hash, i);
    var arm := Dispatch(methods, version, hash, code, 0).index;
    var handed := Ask(c, s, sigs[arm], vals);
    if handed.Err? {
      return Err(handed.status), [];
    }
    var a := serve(arm, handed.value);
    served := [(arm, handed.value)];
    if c == s {
      SelfShared(s, sigs[i]);
      HandedSame(s, sigs[i].args, vals);
    }
    r := Respond(c, s, sigs[i], vals, a);
  }
}
