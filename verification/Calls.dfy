/** One call through generated code: the statements emitted for a method's arguments,
    what they write and read, and why both sides end up with the same values. */
module Calls {
  import opened Wire
  import opened ArrayWire
  import opened Objects
  import opened Parcels
  import opened Stable
  import opened Versions
  import opened Generated

  datatype Direction = In | Out | Inout | Unspecified

  datatype Arg = Arg(ty: FieldType, dir: Direction)

  predicate VariableArray(ty: FieldType) {
    ty.Pods? || ty.Structs?
  }

  // ----- the statements -----

  datatype ClientStep = WriteArg(arg: nat) | WriteSliceSize(arg: nat)

  datatype ServerStep = ReadArg(arg: nat) | DefaultArg(arg: nat) | ResizeArg(arg: nat)

  function ClientSteps(a: Arg, i: nat): seq<ClientStep> {
    if !a.dir.Out? then [WriteArg(i)] else if VariableArray(a.ty) then [WriteSliceSize(i)] else []
  }

  function ServerSteps(a: Arg, i: nat): seq<ServerStep> {
    if !a.dir.Out? then [ReadArg(i)]
    else if VariableArray(a.ty) then [DefaultArg(i), ResizeArg(i)]
    else [DefaultArg(i)]
  }

  function WriteFuncs(args: seq<Arg>, i: nat): seq<ClientStep>
    requires i <= |args|
    decreases |args| - i
  {
    if i == |args| then [] else ClientSteps(args[i], i) + WriteFuncs(args, i + 1)
  }

  function TransactionDecls(args: seq<Arg>, i: nat): seq<ServerStep>
    requires i <= |args|
    decreases |args| - i
  {
    if i == |args| then [] else ServerSteps(args[i], i) + TransactionDecls(args, i + 1)
  }

  predicate Indices(s: seq<nat>, n: nat) {
    forall k :: 0 <= k < |s| ==> s[k] < n
  }

  predicate GoesBack(a: Arg) {
    a.dir.Out? || a.dir.Inout?
  }

  /** The arguments that travel back, in order. */
  function Backward(args: seq<Arg>, i: nat): (s: seq<nat>)
    requires i <= |args|
    ensures Indices(s, |args|)
    decreases |args| - i
  {
    if i == |args| then []
    else (if GoesBack(args[i]) then [i] else []) + Backward(args, i + 1)
  }

  lemma Pairwise<T>(a: seq<T>, b: seq<T>)
    ensures |b| == 2 ==> a + b == a + [b[0]] + [b[1]]
  {
  }

  /** `make_fn_member`: one pass over the arguments fills all four lists. */
  method MakeFnMember(args: seq<Arg>) returns (writes: seq<ClientStep>, decls: seq<ServerStep>, replies: seq<nat>, readOnto: seq<nat>)
    ensures writes == WriteFuncs(args, 0) && decls == TransactionDecls(args, 0)
    ensures replies == readOnto == Backward(args, 0)
    ensures GoBackInOrder(args, replies)
  {
    writes, decls, replies, readOnto := [], [], [], [];
    for i := 0 to |args|
      invariant writes + WriteFuncs(args, i) == WriteFuncs(args, 0)
      invariant decls + TransactionDecls(args, i) == TransactionDecls(args, 0)
      invariant replies == readOnto && replies + Backward(args, i) == Backward(args, 0)
    {
      Regroup(writes, ClientSteps(args[i], i), WriteFuncs(args, i + 1));
      Regroup(decls, ServerSteps(args[i], i), TransactionDecls(args, i + 1));
      Pairwise(decls, ServerSteps(args[i], i));
      Regroup(replies, if GoesBack(args[i]) then [i] else [], Backward(args, i + 1));
      if !args[i].dir.Out? {
        writes := writes + [WriteArg(i)];
        decls := decls + [ReadArg(i)];
      } else {
        if VariableArray(args[i].ty) {
          writes := writes + [WriteSliceSize(i)];
        }
        decls := decls + [DefaultArg(i)];
        if VariableArray(args[i].ty) {
          decls := decls + [ResizeArg(i)];
        }
      }
      if GoesBack(args[i]) {
        replies := replies + [i];
        readOnto := readOnto + [i];
      }
    }
    BackwardAscends(args, 0);
    forall i | 0 <= i < |args|
      ensures i in replies <==> GoesBack(args[i])
    {
      BackwardHas(args, 0, i);
    }
  }

  /** Exactly the out and inout arguments, in order. */
  ghost predicate GoBackInOrder(args: seq<Arg>, s: seq<nat>) {
    Ascending(s) && forall i :: 0 <= i < |args| ==> (i in s <==> args[i].dir.Out? || args[i].dir.Inout?)
  }

  predicate Ascending(s: seq<nat>) {
    forall i, j :: 0 <= i < j < |s| ==> s[i] < s[j]
  }

  /** What goes back goes in the order of the arguments. */
  lemma {:induction false} BackwardAscends(args: seq<Arg>, i: nat)
    requires i <= |args|
    ensures Ascending(Backward(args, i))
    decreases |args| - i
  {
    if i < |args| {
      BackwardAscends(args, i + 1);
      BackwardAbove(args, i + 1);
      var rest := Backward(args, i + 1);
      assert forall j :: 0 <= j < |rest| ==> rest[j] in rest;
    }
  }

  // ----- the request -----

  ghost predicate AllTyped(s: Schema, args: seq<Arg>, vals: seq<Value>) {
    |args| == |vals| && forall i :: 0 <= i < |args| ==> Typed(s, args[i].ty, vals[i])
  }

  /** Both sides know the parcelables of the signature, each in its own version. */
  ghost predicate Shared(w: Schema, r: Schema, args: seq<Arg>) {
    forall i :: 0 <= i < |args| ==> NameShared(w, r, args[i].ty)
  }

  /** What `write_slice_size` sends of an array. */
  function SliceSize(v: Value): int {
    match v
    case Array(items) => |items|
    case Many(elems) => |elems|
    case _ => -1
  }

  ghost predicate StepFits(s: Schema, args: seq<Arg>, vals: seq<Value>, step: ClientStep) {
    AllTyped(s, args, vals) && step.arg < |args| && (step.WriteSliceSize? ==> VariableArray(args[step.arg].ty))
  }

  ghost function StepBytes(s: Schema, args: seq<Arg>, vals: seq<Value>, step: ClientStep): (e: seq<byte>)
    requires StepFits(s, args, vals, step)
  {
    var i := step.arg;
    if step.WriteArg? then Enc(s, args[i].ty, vals[i]) else EncI32(SliceSize(vals[i]))
  }

  ghost function Request(s: Schema, args: seq<Arg>, vals: seq<Value>, steps: seq<ClientStep>): (e: seq<byte>)
    requires forall step <- steps :: StepFits(s, args, vals, step)
  {
    if steps == [] then [] else StepBytes(s, args, vals, steps[0]) + Request(s, args, vals, steps[1..])
  }

  lemma {:induction false} WriteFuncsFit(s: Schema, args: seq<Arg>, vals: seq<Value>, i: nat)
    requires AllTyped(s, args, vals) && i <= |args|
    ensures forall step <- WriteFuncs(args, i) :: StepFits(s, args, vals, step)
    decreases |args| - i
  {
    hide AllTyped;
    if i < |args| {
      WriteFuncsFit(s, args, vals, i + 1);
    }
  }

  // ----- the server -----

  function DefaultValue(s: Schema, ty: FieldType): Value {
    match ty
    case Pod(w) => Scalar(Zeros(w))
    case Pods(_, n) => if n then Null else Array([])
    case Text(n) => if n then Null else Str([])
    case Nested(name, n) => if n then Null else Blank(s, name)
    case Structs(_, n) => if n then Null else Many([])
  }

  function Blank(s: Schema, name: string): Value {
    Record(if name in s.types then Defaults(s.types[name]) else [])
  }

  /** An array of `n` default elements. */
  function Resized(s: Schema, ty: FieldType, n: nat): Value
    requires VariableArray(ty)
  {
    if ty.Pods? then Array(seq(n, _ => Zeros(ty.width))) else Many(seq(n, _ => Blank(s, ty.name)))
  }

  predicate DeclFits(args: seq<Arg>, step: ServerStep) {
    step.arg < |args| && (step.ResizeArg? ==> VariableArray(args[step.arg].ty))
  }

  /** One statement of the arm, on the server's variables and cursor. */
  function RunDecl(s: Schema, args: seq<Arg>, data: seq<byte>, pos: nat, vars: seq<Value>, step: ServerStep): (r: Result<(seq<Value>, nat)>)
    requires |vars| == |args| && DeclFits(args, step)
    ensures r.Ok? ==> |r.value.0| == |args|
  {
    var ty := args[step.arg].ty;
    match step
    case ReadArg(i) =>
      var (v, next) :- Read(s, ty, data, pos, 0);
      Ok((vars[i := v], next))
    case DefaultArg(i) => Ok((vars[i := DefaultValue(s, ty)], pos))
    case ResizeArg(i) =>
      var len :- ReadI32(data, pos);
      if len < 0 then if ty.nullable then Ok((vars[i := Null], pos + 4)) else Err(UnexpectedNull)
      else if len > s.usizeMax then Err(BadValue)
      else Ok((vars[i := Resized(s, ty, len)], pos + 4))
  }

  function RunDecls(s: Schema, args: seq<Arg>, data: seq<byte>, pos: nat, vars: seq<Value>, steps: seq<ServerStep>): (r: Result<(seq<Value>, nat)>)
    requires |vars| == |args| && forall step <- steps :: DeclFits(args, step)
    decreases steps
  {
    if steps == [] then Ok((vars, pos))
    else
      var (v, next) :- RunDecl(s, args, data, pos, vars, steps[0]);
      RunDecls(s, args, data, next, v, steps[1..])
  }

  lemma {:induction false} DeclsFit(args: seq<Arg>, i: nat)
    requires i <= |args|
    ensures forall step <- TransactionDecls(args, i) :: DeclFits(args, step)
    decreases |args| - i
  {
    if i < |args| {
      DeclsFit(args, i + 1);
    }
  }

  /** What the service is handed: the values sent, as its version sees them, arrays of the
      sizes sent, and defaults. */
  ghost function Handed(c: Schema, s: Schema, a: Arg, v: Value): Value
    requires NameShared(c, s, a.ty)
  {
    if !a.dir.Out? then Project(c, s, a.ty, v)
    else if !VariableArray(a.ty) then DefaultValue(s, a.ty)
    else if v.Null? then Null
    else Resized(s, a.ty, if SliceSize(v) < 0 then 0 else SliceSize(v))
  }

  /** Nothing has been put into `v` yet: null, zero, empty, or a parcelable of declared defaults. */
  ghost predicate Unset(s: Schema, ty: FieldType, v: Value) {
    match ty
    case Pod(w) => v.Scalar? && |v.bytes| == w && forall b <- v.bytes :: b == 0
    case Pods(_, n) => if n then v.Null? else v == Array([])
    case Text(n) => if n then v.Null? else v == Str([])
    case Nested(name, n) => if n then v.Null? else UnsetRecord(s, name, v)
    case Structs(_, n) => if n then v.Null? else v == Many([])
  }

  ghost predicate UnsetRecord(s: Schema, name: string, v: Value) {
    v.Record? && (name in s.types ==>
                    |v.fields| == |s.types[name]| && forall i :: 0 <= i < |v.fields| ==> v.fields[i] == s.types[name][i].default)
  }

  /** An array of `n` elements none of which has been set. */
  ghost predicate UnsetArray(s: Schema, ty: FieldType, v: Value, n: nat) {
    || (ty.Pods? && v.Array? && |v.items| == n && forall item <- v.items :: |item| == ty.width && forall b <- item :: b == 0)
    || (ty.Structs? && v.Many? && |v.elems| == n && forall e <- v.elems :: UnsetRecord(s, ty.name, e))
  }

  lemma HandedUnset(c: Schema, s: Schema, a: Arg, v: Value)
    requires NameShared(c, s, a.ty) && Typed(c, a.ty, v) && a.dir.Out?
    ensures match a.ty
            case Pods(_, _) =>
              if v.Null? then Handed(c, s, a, v) == Null else v.Array? && UnsetArray(s, a.ty, Handed(c, s, a, v), |v.items|)
            case Structs(_, _) =>
              if v.Null? then Handed(c, s, a, v) == Null else v.Many? && UnsetArray(s, a.ty, Handed(c, s, a, v), |v.elems|)
            case ty => Unset(s, ty, Handed(c, s, a, v))
  {
    hide Typed;
    ArrayOrNull(c, a.ty, v);
  }

  lemma ArrayOrNull(c: Schema, ty: FieldType, v: Value)
    requires Typed(c, ty, v)
    ensures ty.Pods? ==> v.Null? || v.Array?
    ensures ty.Structs? ==> v.Null? || v.Many?
  {
  }

  ghost function HandedFrom(c: Schema, s: Schema, args: seq<Arg>, vals: seq<Value>, i: nat): (h: seq<Value>)
    requires i <= |args| == |vals| && Shared(c, s, args)
    ensures |h| == |args| - i && forall j :: 0 <= j < |h| ==> h[j] == Handed(c, s, args[i + j], vals[i + j])
  {
    seq(|args| - i, j requires 0 <= j < |args| - i => Handed(c, s, args[i + j], vals[i + j]))
  }

  /** No value sent from argument `i` on nests deeper than the reader allows. */
  ghost predicate Shallow(c: Schema, s: Schema, args: seq<Arg>, vals: seq<Value>, i: nat)
    requires |args| == |vals| && Shared(c, s, args)
  {
    forall j :: i <= j < |args| && !args[j].dir.Out? ==> Need(c, s, args[j].ty, vals[j]) <= MAX_NESTED_READ_DEPTH
  }

  // ----- one argument -----

  ghost function ArgBytes(s: Schema, a: Arg, v: Value): (e: seq<byte>)
    requires Typed(s, a.ty, v)
  {
    if !a.dir.Out? then Enc(s, a.ty, v)
    else if VariableArray(a.ty) then EncI32(SliceSize(v))
    else []
  }

  /** The bytes of the arguments from `i` on. */
  ghost function RequestFrom(s: Schema, args: seq<Arg>, vals: seq<Value>, i: nat): (e: seq<byte>)
    requires AllTyped(s, args, vals) && i <= |args|
  {
    WriteFuncsFit(s, args, vals, i);
    Request(s, args, vals, WriteFuncs(args, i))
  }

  lemma RequestSplit(s: Schema, args: seq<Arg>, vals: seq<Value>, i: nat)
    requires AllTyped(s, args, vals) && i < |args|
    ensures RequestFrom(s, args, vals, i) == ArgBytes(s, args[i], vals[i]) + RequestFrom(s, args, vals, i + 1)
  {
    hide Enc, EncI32;
    WriteFuncsFit(s, args, vals, i);
    var steps, rest := ClientSteps(args[i], i), WriteFuncs(args, i + 1);
    if |steps| == 1 {
      assert (steps + rest)[0] == steps[0] && (steps + rest)[1..] == rest;
    } else {
      assert steps + rest == rest;
    }
  }

  function RunFrom(s: Schema, args: seq<Arg>, data: seq<byte>, pos: nat, vars: seq<Value>, i: nat): (r: Result<(seq<Value>, nat)>)
    requires |vars| == |args| && i <= |args|
  {
    DeclsFit(args, i);
    RunDecls(s, args, data, pos, vars, TransactionDecls(args, i))
  }

  function RunArg(s: Schema, args: seq<Arg>, data: seq<byte>, pos: nat, vars: seq<Value>, i: nat): (r: Result<(seq<Value>, nat)>)
    requires |vars| == |args| && i < |args|
    ensures r.Ok? ==> |r.value.0| == |args|
  {
    if !args[i].dir.Out? then RunDecl(s, args, data, pos, vars, ReadArg(i))
    else
      var (blank, next) :- RunDecl(s, args, data, pos, vars, DefaultArg(i));
      if VariableArray(args[i].ty) then RunDecl(s, args, data, next, blank, ResizeArg(i)) else Ok((blank, next))
  }

  lemma RunSplit(s: Schema, args: seq<Arg>, data: seq<byte>, pos: nat, vars: seq<Value>, i: nat)
    requires |vars| == |args| && i < |args|
    ensures RunFrom(s, args, data, pos, vars, i) ==
            match RunArg(s, args, data, pos, vars, i)
            case Ok((v, next)) => RunFrom(s, args, data, next, v, i + 1)
            case Err(e) => Err(e)
  {
    hide RunDecl;
    DeclsFit(args, i);
    DeclsFit(args, i + 1);
    var steps, rest := ServerSteps(args[i], i), TransactionDecls(args, i + 1);
    var all := steps + rest;
    assert all[0] == steps[0];
    if |steps| == 1 {
      assert all[1..] == rest;
    } else {
      var tail := all[1..];
      assert tail[0] == steps[1] && tail[1..] == rest;
      var blank := RunDecl(s, args, data, pos, vars, steps[0]);
      if blank.Ok? {
        assert RunDecls(s, args, data, blank.value.1, blank.value.0, tail) ==
               match RunDecl(s, args, data, blank.value.1, blank.value.0, steps[1])
               case Ok((v, next)) => RunDecls(s, args, data, next, v, rest)
               case Err(e) => Err(e);
      }
    }
  }

  lemma ArgBack(c: Schema, s: Schema, args: seq<Arg>, vals: seq<Value>, data: seq<byte>, pos: nat, vars: seq<Value>, i: nat)
    requires Compatible(c, s) && AllTyped(c, args, vals) && Shared(c, s, args) && i < |args| == |vars|
    requires Holds(data, pos, ArgBytes(c, args[i], vals[i]))
    ensures RunArg(s, args, data, pos, vars, i) ==
            if args[i].dir.Out? || Need(c, s, args[i].ty, vals[i]) <= MAX_NESTED_READ_DEPTH
            then Ok((vars[i := Handed(c, s, args[i], vals[i])], pos + |ArgBytes(c, args[i], vals[i])|))
            else Err(BadValue)
  {
    hide Enc, EncI32, Compatible, Read, Need, Project, DefaultValue, ReadI32;
    var a, v := args[i], vals[i];
    if !a.dir.Out? {
      ValueBack(c, s, a.ty, v, data, pos, 0);
    } else if VariableArray(a.ty) {
      ReadWord(data, pos, SliceSize(v));
      CompatibleWords(c, s);
      assert vars[i := DefaultValue(s, a.ty)][i := Handed(c, s, a, v)] == vars[i := Handed(c, s, a, v)];
    }
  }

  lemma {:induction false} RequestBack(c: Schema, s: Schema, args: seq<Arg>, vals: seq<Value>, data: seq<byte>, pos: nat, vars: seq<Value>, i: nat)
    requires Compatible(c, s) && AllTyped(c, args, vals) && Shared(c, s, args) && i <= |args| == |vars|
    requires Holds(data, pos, RequestFrom(c, args, vals, i))
    ensures RunFrom(s, args, data, pos, vars, i) ==
            if Shallow(c, s, args, vals, i) then Ok((vars[..i] + HandedFrom(c, s, args, vals, i), pos + |RequestFrom(c, args, vals, i)|))
            else Err(BadValue)
    decreases |args| - i
  {
    hide RunFrom, RunArg, Handed, ArgBytes, Compatible, Need, Holds, Typed, RequestFrom, NameShared;
    if i == |args| {
      RunNothing(s, args, data, pos, vars);
      RequestNothing(c, args, vals);
      assert vars[..i] + HandedFrom(c, s, args, vals, i) == vars;
    } else {
      var e := ArgBytes(c, args[i], vals[i]);
      RequestSplit(c, args, vals, i);
      HoldsSplit(data, pos, e, RequestFrom(c, args, vals, i + 1));
      RunSplit(s, args, data, pos, vars, i);
      ArgBack(c, s, args, vals, data, pos, vars, i);
      var here := Handed(c, s, args[i], vals[i]);
      var vars' := vars[i := here];
      RequestBack(c, s, args, vals, data, pos + |e|, vars', i + 1);
      assert vars'[..i + 1] + HandedFrom(c, s, args, vals, i + 1) == vars[..i] + HandedFrom(c, s, args, vals, i);
    }
  }

  lemma RunNothing(s: Schema, args: seq<Arg>, data: seq<byte>, pos: nat, vars: seq<Value>)
    requires |vars| == |args|
    ensures RunFrom(s, args, data, pos, vars, |args|) == Ok((vars, pos))
  {
  }

  lemma RequestNothing(s: Schema, args: seq<Arg>, vals: seq<Value>)
    requires AllTyped(s, args, vals)
    ensures RequestFrom(s, args, vals, |args|) == []
  {
  }

  /** The server recovers every in and inout value, as its version of the parcelables sees
      it, and every out-array length, whatever its variables held before, and stops right
      after the request; a value nested beyond the bound is the only thing that can go wrong.
      Within one version the values are those sent. */
  lemma RequestRecovered(c: Schema, s: Schema, args: seq<Arg>, vals: seq<Value>, data: seq<byte>, pos: nat, vars: seq<Value>)
    requires Compatible(c, s) && AllTyped(c, args, vals) && Shared(c, s, args) && |vars| == |args|
    requires Holds(data, pos, RequestFrom(c, args, vals, 0))
    ensures match RunFrom(s, args, data, pos, vars, 0)
            case Ok((handed, next)) =>
              && Shallow(c, s, args, vals, 0) && next == pos + |RequestFrom(c, args, vals, 0)| && |handed| == |args|
              && (forall i :: 0 <= i < |args| && !args[i].dir.Out? ==>
                    handed[i] == Project(c, s, args[i].ty, vals[i]) && (c == s ==> handed[i] == vals[i]))
              && (forall i :: 0 <= i < |args| && args[i].dir.Out? ==>
                    match args[i].ty
                    case Pods(_, _) => if vals[i].Null? then handed[i] == Null else UnsetArray(s, args[i].ty, handed[i], |vals[i].items|)
                    case Structs(_, _) => if vals[i].Null? then handed[i] == Null else UnsetArray(s, args[i].ty, handed[i], |vals[i].elems|)
                    case ty => Unset(s, ty, handed[i]))
            case Err(e) => e == BadValue && !Shallow(c, s, args, vals, 0)
  {
    hide RunFrom, Compatible, Need, Holds, RequestFrom, DefaultValue, Project, Unset, UnsetArray, Resized, Typed;
    RequestBack(c, s, args, vals, data, pos, vars, 0);
    assert vars[..0] + HandedFrom(c, s, args, vals, 0) == HandedFrom(c, s, args, vals, 0);
    forall i | 0 <= i < |args|
      ensures args[i].dir.Out? ==>
                match args[i].ty
                case Pods(_, _) =>
                  if vals[i].Null? then Handed(c, s, args[i], vals[i]) == Null
                  else vals[i].Array? && UnsetArray(s, args[i].ty, Handed(c, s, args[i], vals[i]), |vals[i].items|)
                case Structs(_, _) =>
                  if vals[i].Null? then Handed(c, s, args[i], vals[i]) == Null
                  else vals[i].Many? && UnsetArray(s, args[i].ty, Handed(c, s, args[i], vals[i]), |vals[i].elems|)
                case ty => Unset(s, ty, Handed(c, s, args[i], vals[i]))
      ensures !args[i].dir.Out? ==> Handed(c, s, args[i], vals[i]) == Project(c, s, args[i].ty, vals[i])
      ensures c == s ==> Project(c, s, args[i].ty, vals[i]) == vals[i]
    {
      assert Typed(c, args[i].ty, vals[i]);
      if args[i].dir.Out? {
        HandedUnset(c, s, args[i], vals[i]);
      }
      if c == s {
        ProjectSelf(s, args[i].ty, vals[i]);
      }
    }
  }

  // ----- the reply -----

  ghost function OutBytes(s: Schema, args: seq<Arg>, outs: seq<Value>, back: seq<nat>): (e: seq<byte>)
    requires AllTyped(s, args, outs) && Indices(back, |args|)
  {
    if back == [] then [] else Enc(s, args[back[0]].ty, outs[back[0]]) + OutBytes(s, args, outs, back[1..])
  }

  ghost function ReturnBytes(s: Schema, ret: Option<Arg>, v: Value): (e: seq<byte>)
    requires ret.Some? ==> Typed(s, ret.value.ty, v)
  {
    if ret.Some? then Enc(s, ret.value.ty, v) else []
  }

  /** A successful reply: the status word, the return value, the out and inout values. */
  ghost function Reply(s: Schema, ret: Option<Arg>, v: Value, args: seq<Arg>, outs: seq<Value>): (e: seq<byte>)
    requires AllTyped(s, args, outs) && (ret.Some? ==> Typed(s, ret.value.ty, v))
  {
    EncI32(0) + ReturnBytes(s, ret, v) + OutBytes(s, args, outs, Backward(args, 0))
  }

  /** The values that travel back are laid down in the order of the arguments. */
  lemma OutsInOrder(s: Schema, args: seq<Arg>, outs: seq<Value>, i: nat)
    requires AllTyped(s, args, outs) && i < |args|
    ensures OutBytes(s, args, outs, Backward(args, i)) ==
            (if GoesBack(args[i]) then Enc(s, args[i].ty, outs[i]) else []) + OutBytes(s, args, outs, Backward(args, i + 1))
  {
    hide Enc, Typed;
    var rest := Backward(args, i + 1);
    if GoesBack(args[i]) {
      assert ([i] + rest)[1..] == rest;
    } else {
      assert [] + rest == rest;
    }
  }

  /** The fields a parcelable argument has before it is read onto; a null one is created. */
  function HeldFields(s: Schema, name: string, held: Value): (vs: seq<Value>)
    ensures name in s.types ==> |vs| == |s.types[name]|
  {
    if held.Record? && name in s.types && |held.fields| == |s.types[name]| then held.fields else NewFields(s, name)
  }

  /** `read_onto`: a parcelable keeps the fields a short block does not bring. */
  function ReadOver(s: Schema, ty: FieldType, held: Value, data: seq<byte>, pos: nat): (r: Result<(Value, nat)>)
  {
    if !ty.Nested? then Read(s, ty, data, pos, 0)
    else
      var flag :- ReadI32(data, pos);
      if flag == 0 then if ty.nullable then Ok((Null, pos + 4)) else Err(UnexpectedNull)
      else if flag == 1 then ReadBlockOnto(s, ty.name, HeldFields(s, ty.name, held), data, pos + 4, 0)
      else Err(UnexpectedNull)
  }

  function ReadOuts(s: Schema, args: seq<Arg>, data: seq<byte>, pos: nat, vals: seq<Value>, back: seq<nat>): (r: Result<(seq<Value>, nat)>)
    requires |vals| == |args| && Indices(back, |args|)
    decreases back
  {
    if back == [] then Ok((vals, pos))
    else
      var i := back[0];
      var (v, next) :- ReadOver(s, args[i].ty, vals[i], data, pos);
      ReadOuts(s, args, data, next, vals[i := v], back[1..])
  }

  /** The client's view of a call: refused by a status, or returned. */
  datatype Response = Refused(exception: i32) | Returned(value: Value, vals: seq<Value>, next: nat)

  /** `read_response`, from the status on. */
  function ReadResponse(s: Schema, ret: Option<Arg>, args: seq<Arg>, data: seq<byte>, pos: nat, vals: seq<Value>): (r: Result<Response>)
    requires |vals| == |args|
  {
    var status :- ReadI32(data, pos);
    if status != 0 then Ok(Refused(status))
    else
      var (v, next) :- if ret.Some? then Read(s, ret.value.ty, data, pos + 4, 0) else Ok((Null, pos + 4));
      var (outs, end) :- ReadOuts(s, args, data, next, vals, Backward(args, 0));
      Ok(Returned(v, outs, end))
  }

  /** What an argument becomes: the value sent back, as the client's version sees it, with the
      fields the server did not know left as they were. */
  ghost function Merged(s: Schema, c: Schema, ty: FieldType, v: Value, held: Value): Value
    requires NameShared(s, c, ty)
  {
    if ty.Nested? && v.Record? then Record(ProjectOnto(s, c, c.types[ty.name], HeldFields(c, ty.name, held), v.fields))
    else Project(s, c, ty, v)
  }

  /** What a read onto an argument leaves: shared fields as sent, the fields the sender does not
      know as they were, and defaults only where there was nothing to keep. */
  lemma MergedExact(s: Schema, c: Schema, ty: FieldType, v: Value, held: Value, i: nat)
    requires NameShared(s, c, ty) && ty.Nested? && v.Record? && i < |c.types[ty.name]|
    ensures var m := Merged(s, c, ty, v, held);
            && m.Record? && |m.fields| == |c.types[ty.name]|
            && m.fields[i] ==
               var f := c.types[ty.name][i];
               if i < |v.fields| then if NameShared(s, c, f.ty) then Project(s, c, f.ty, v.fields[i]) else v.fields[i]
               else if held.Record? && |held.fields| == |c.types[ty.name]| then held.fields[i]
               else f.default
  {
    hide ProjectOnto, Project;
    ProjectOntoAt(s, c, c.types[ty.name], HeldFields(c, ty.name, held), v.fields, i);
  }

  lemma MergedSelf(s: Schema, ty: FieldType, v: Value, held: Value)
    requires Compatible(s, s) && NameShared(s, s, ty) && Typed(s, ty, v)
    ensures Merged(s, s, ty, v, held) == v
  {
    hide ProjectOnto, Project, HeldFields, TypedAll, SharePrefix;
    if ty.Nested? && v.Record? {
      ProjectOntoSelf(s, s.types[ty.name], HeldFields(s, ty.name, held), v.fields);
    } else {
      ProjectSelf(s, ty, v);
    }
  }

  lemma OverBack(s: Schema, c: Schema, ty: FieldType, v: Value, held: Value, data: seq<byte>, pos: nat)
    requires Compatible(s, c) && NameShared(s, c, ty) && Typed(s, ty, v) && Holds(data, pos, Enc(s, ty, v))
    ensures ReadOver(c, ty, held, data, pos) ==
            Expected(0, Need(s, c, ty, v), (Merged(s, c, ty, v, held), pos + |Enc(s, ty, v)|))
  {
    hide EncI32, DecI32, EncBlock, ReadBlockOnto, ProjectOnto, NeedFields, Compatible, HeldFields, Read, Holds;
    if !ty.Nested? {
      ValueBack(s, c, ty, v, data, pos, 0);
    } else if v.Null? {
      ReadWord(data, pos, 0);
    } else {
      var block := EncBlock(s, TypesOf(s.types[ty.name]), v.fields);
      HoldsSplit(data, pos, EncI32(1), block);
      ReadWord(data, pos, 1);
      BlockOntoBack(s, c, ty.name, HeldFields(c, ty.name, held), v.fields, data, pos + 4, 0);
    }
  }

  ghost function Overwritten(s: Schema, c: Schema, args: seq<Arg>, vals: seq<Value>, outs: seq<Value>, back: seq<nat>): (r: seq<Value>)
    requires |vals| == |outs| == |args| && Indices(back, |args|) && Shared(s, c, args)
    ensures |r| == |vals|
    decreases back
  {
    if back == [] then vals
    else
      var i := back[0];
      Overwritten(s, c, args, vals[i := Merged(s, c, args[i].ty, outs[i], vals[i])], outs, back[1..])
  }

  predicate Once(back: seq<nat>) {
    forall i, j :: 0 <= i < j < |back| ==> back[i] != back[j]
  }

  lemma {:induction false} OverwrittenAt(s: Schema, c: Schema, args: seq<Arg>, vals: seq<Value>, outs: seq<Value>, back: seq<nat>, j: nat)
    requires |vals| == |outs| == |args| && Indices(back, |args|) && Shared(s, c, args) && Once(back) && j < |vals|
    ensures Overwritten(s, c, args, vals, outs, back)[j] ==
            if j in back then Merged(s, c, args[j].ty, outs[j], vals[j]) else vals[j]
    decreases back
  {
    hide Merged, NameShared;
    if back != [] {
      var i := back[0];
      OverwrittenAt(s, c, args, vals[i := Merged(s, c, args[i].ty, outs[i], vals[i])], outs, back[1..], j);
      assert i !in back[1..];
    }
  }

  lemma {:induction false} BackwardAbove(args: seq<Arg>, i: nat)
    requires i <= |args|
    ensures forall j <- Backward(args, i) :: i <= j
    decreases |args| - i
  {
    if i < |args| {
      BackwardAbove(args, i + 1);
    }
  }

  lemma {:induction false} BackwardOnce(args: seq<Arg>, i: nat)
    requires i <= |args|
    ensures Once(Backward(args, i))
    decreases |args| - i
  {
    if i < |args| {
      BackwardOnce(args, i + 1);
      BackwardAbove(args, i + 1);
      var rest := Backward(args, i + 1);
      OnceCons(i, rest);
      assert [] + rest == rest;
    }
  }

  lemma OnceCons(i: nat, rest: seq<nat>)
    requires Once(rest) && forall j <- rest :: i < j
    ensures Once([i] + rest)
  {
    var all := [i] + rest;
    forall a, b | 0 <= a < b < |all|
      ensures all[a] != all[b]
    {
      assert all[b] == rest[b - 1] && rest[b - 1] in rest;
      if a > 0 {
        assert all[a] == rest[a - 1];
      }
    }
  }

  lemma {:induction false} BackwardHas(args: seq<Arg>, i: nat, j: nat)
    requires i <= j < |args|
    ensures j in Backward(args, i) <==> GoesBack(args[j])
    decreases |args| - i
  {
    BackwardAbove(args, i + 1);
    if i < j {
      BackwardHas(args, i + 1, j);
    }
  }

  ghost predicate ShallowOuts(s: Schema, c: Schema, args: seq<Arg>, outs: seq<Value>, back: seq<nat>)
    requires |args| == |outs| && Shared(s, c, args) && Indices(back, |args|)
  {
    forall k :: 0 <= k < |back| ==> Need(s, c, args[back[k]].ty, outs[back[k]]) <= MAX_NESTED_READ_DEPTH
  }

  lemma {:induction false} OutsBack(s: Schema, c: Schema, args: seq<Arg>, outs: seq<Value>, data: seq<byte>, pos: nat, vals: seq<Value>, back: seq<nat>)
    requires Compatible(s, c) && AllTyped(s, args, outs) && Shared(s, c, args) && |vals| == |args| && Indices(back, |args|)
    requires Holds(data, pos, OutBytes(s, args, outs, back))
    ensures ReadOuts(c, args, data, pos, vals, back) ==
            if ShallowOuts(s, c, args, outs, back)
            then Ok((Overwritten(s, c, args, vals, outs, back), pos + |OutBytes(s, args, outs, back)|))
            else Err(BadValue)
    decreases back
  {
    hide Enc, Compatible, ReadOver, Need, Merged, Holds, Typed, NameShared;
    if back != [] {
      var i := back[0];
      var e := Enc(s, args[i].ty, outs[i]);
      HoldsSplit(data, pos, e, OutBytes(s, args, outs, back[1..]));
      OverBack(s, c, args[i].ty, outs[i], vals[i], data, pos);
      OutsBack(s, c, args, outs, data, pos + |e|, vals[i := Merged(s, c, args[i].ty, outs[i], vals[i])], back[1..]);
      assert back == [i] + back[1..];
    }
  }

  ghost predicate ReturnTyped(s: Schema, c: Schema, ret: Option<Arg>, v: Value) {
    ret.Some? ==> NameShared(s, c, ret.value.ty) && Typed(s, ret.value.ty, v)
  }

  ghost predicate ShallowReturn(s: Schema, c: Schema, ret: Option<Arg>, v: Value)
    requires ReturnTyped(s, c, ret, v)
  {
    ret.Some? ==> Need(s, c, ret.value.ty, v) <= MAX_NESTED_READ_DEPTH
  }

  lemma ReturnBack(s: Schema, c: Schema, ret: Option<Arg>, v: Value, data: seq<byte>, pos: nat)
    requires Compatible(s, c) && ret.Some? && ReturnTyped(s, c, ret, v) && Holds(data, pos, ReturnBytes(s, ret, v))
    ensures Read(c, ret.value.ty, data, pos, 0) ==
            if ShallowReturn(s, c, ret, v) then Ok((Project(s, c, ret.value.ty, v), pos + |ReturnBytes(s, ret, v)|)) else Err(BadValue)
  {
    hide Enc, Compatible, Read, Need, Project, Holds;
    ValueBack(s, c, ret.value.ty, v, data, pos, 0);
  }

  /** The client recovers the return value and every out and inout value, as its version sees
      them: fields the server does not know keep what the client had in them, and its in
      values stay. It stops right after the reply, unless a value nests too deep. Within one
      version the values are those the server sent. */
  lemma ReplyRecovered(s: Schema, c: Schema, ret: Option<Arg>, v: Value, args: seq<Arg>, outs: seq<Value>,
                       vals: seq<Value>, data: seq<byte>, pos: nat)
    requires Compatible(s, c) && AllTyped(s, args, outs) && Shared(s, c, args) && |vals| == |args| && ReturnTyped(s, c, ret, v)
    requires Holds(data, pos, Reply(s, ret, v, args, outs))
    ensures match ReadResponse(c, ret, args, data, pos, vals)
            case Ok(Returned(value, got, next)) =>
              && ShallowReturn(s, c, ret, v) && ShallowOuts(s, c, args, outs, Backward(args, 0))
              && (ret.Some? ==> value == Project(s, c, ret.value.ty, v) && (s == c ==> value == v))
              && next == pos + |Reply(s, ret, v, args, outs)| && |got| == |args|
              && (forall i :: 0 <= i < |args| ==>
                    got[i] == if args[i].dir.Out? || args[i].dir.Inout? then Merged(s, c, args[i].ty, outs[i], vals[i]) else vals[i])
              && (s == c ==> forall i :: 0 <= i < |args| ==>
                    got[i] == if args[i].dir.Out? || args[i].dir.Inout? then outs[i] else vals[i])
            case Ok(Refused(_)) => false
            case Err(e) => e == BadValue && !(ShallowReturn(s, c, ret, v) && ShallowOuts(s, c, args, outs, Backward(args, 0)))
  {
    hide EncI32, Compatible, Read, Holds, OutBytes, ReturnBytes, ReadOuts, ShallowOuts, ShallowReturn, Overwritten, Merged, Project, Typed, NameShared;
    var back := Backward(args, 0);
    var x, y, z := EncI32(0), ReturnBytes(s, ret, v), OutBytes(s, args, outs, back);
    HoldsSplit(data, pos, x + y, z);
    HoldsSplit(data, pos, x, y);
    ReadWord(data, pos, 0);
    if ret.Some? {
      ReturnBack(s, c, ret, v, data, pos + 4);
    } else {
      NoReturn(s, c, ret, v);
    }
    OutsBack(s, c, args, outs, data, pos + 4 + |y|, vals, back);
    BackwardOnce(args, 0);
    forall i | 0 <= i < |args|
      ensures Overwritten(s, c, args, vals, outs, back)[i] ==
              if GoesBack(args[i]) then Merged(s, c, args[i].ty, outs[i], vals[i]) else vals[i]
    {
      OverwrittenAt(s, c, args, vals, outs, back, i);
      BackwardHas(args, 0, i);
    }
    if s == c {
      SameVersion(s, ret, v, args, outs, vals);
    }
  }

  lemma SameVersion(s: Schema, ret: Option<Arg>, v: Value, args: seq<Arg>, outs: seq<Value>, vals: seq<Value>)
    requires Compatible(s, s) && AllTyped(s, args, outs) && Shared(s, s, args) && |vals| == |args| && ReturnTyped(s, s, ret, v)
    ensures ret.Some? ==> Project(s, s, ret.value.ty, v) == v
    ensures forall i :: 0 <= i < |args| ==> Merged(s, s, args[i].ty, outs[i], vals[i]) == outs[i]
  {
    hide Compatible, Merged, Project, Typed;
    if ret.Some? {
      ProjectSelf(s, ret.value.ty, v);
    }
    forall i | 0 <= i < |args|
      ensures Merged(s, s, args[i].ty, outs[i], vals[i]) == outs[i]
    {
      MergedSelf(s, args[i].ty, outs[i], vals[i]);
    }
  }

  lemma NoReturn(s: Schema, c: Schema, ret: Option<Arg>, v: Value)
    requires ret.None?
    ensures ReturnBytes(s, ret, v) == [] && ShallowReturn(s, c, ret, v)
  {
  }

  // ----- the same on parcels -----

  /** `build_parcel`, after the header. */
  method BuildParcel(p: Parcel, s: Schema, args: seq<Arg>, vals: seq<Value>, steps: seq<ClientStep>) returns (r: Result<()>)
    requires p.Valid() && p.pos <= p.len && p.pos <= I32_MAX && forall step <- steps :: StepFits(s, args, vals, step)
    modifies p`mem, p`len, p`pos
    ensures p.Valid() && (r.Err? ==> r.status == BadValue)
    ensures r.Ok? <==> old(p.pos) + |Request(s, args, vals, steps)| <= I32_MAX
    ensures r.Ok? ==> p.Bytes() == Overlay(old(p.Bytes()), old(p.pos), Request(s, args, vals, steps)) &&
                      p.pos == old(p.pos) + |Request(s, args, vals, steps)|
    decreases steps
  {
    hide Overlay, Contents, StepBytes, AllTyped;
    if steps == [] {
      NothingOver(p.Bytes(), p.pos);
      return Ok(());
    }
    assert StepFits(s, args, vals, steps[0]);
    r := WriteStep(p, s, args, vals, steps[0]);
    if r.Err? {
      return;
    }
    OverlayAppend(old(p.Bytes()), old(p.pos), StepBytes(s, args, vals, steps[0]), Request(s, args, vals, steps[1..]));
    r := BuildParcel(p, s, args, vals, steps[1..]);
  }

  method WriteStep(p: Parcel, s: Schema, args: seq<Arg>, vals: seq<Value>, step: ClientStep) returns (r: Result<()>)
    requires p.Valid() && StepFits(s, args, vals, step)
    modifies p`mem, p`len, p`pos
    ensures p.Valid() && (r.Err? ==> r.status == BadValue)
    ensures r.Ok? <==> old(p.pos) + |StepBytes(s, args, vals, step)| <= I32_MAX
    ensures r.Ok? ==> p.Bytes() == Overlay(old(p.Bytes()), old(p.pos), StepBytes(s, args, vals, step)) &&
                      p.pos == old(p.pos) + |StepBytes(s, args, vals, step)| <= p.len
  {
    hide Overlay, Contents, Enc, EncI32, Typed;
    var i := step.arg;
    assert Typed(s, args[i].ty, vals[i]);
    if step.WriteArg? {
      r := WriteValue(p, s, args[i].ty, vals[i]);
    } else {
      SliceSizeFits(s, args[i].ty, vals[i]);
      r := p.WriteI32(SliceSize(vals[i]));
    }
  }

  lemma SliceSizeFits(s: Schema, ty: FieldType, v: Value)
    requires Typed(s, ty, v) && VariableArray(ty)
    ensures -1 <= SliceSize(v) <= I32_MAX
  {
  }

  /** The declarations at the top of an `on_transact` arm. */
  method ReadArguments(p: Parcel, s: Schema, args: seq<Arg>, vars: seq<Value>, steps: seq<ServerStep>) returns (r: Result<seq<Value>>)
    requires p.Valid() && p.depth == 0 && |vars| == |args| && forall step <- steps :: DeclFits(args, step)
    modifies p`pos, p`boundary, p`depth
    ensures p.Valid() && p.boundary == old(p.boundary) && p.depth == 0
    ensures match RunDecls(s, args, p.Bytes(), old(p.pos), vars, steps)
            case Ok((v, next)) => r == Ok(v) && p.pos == next
            case Err(e) => r == Err(e)
    decreases steps
  {
    hide Contents, DecI32, Read, DefaultValue, Resized;
    if steps == [] {
      return Ok(vars);
    }
    assert steps[0] in steps;
    var i, ty := steps[0].arg, args[steps[0].arg].ty;
    var next: seq<Value>;
    match steps[0] {
      case ReadArg(_) =>
        var v := ReadValue(p, s, ty);
        if v.Err? {
          return Err(v.status);
        }
        next := vars[i := v.value];
      case DefaultArg(_) =>
        next := vars[i := DefaultValue(s, ty)];
      case ResizeArg(_) =>
        var v := ResizeOut(p, s, ty);
        if v.Err? {
          return Err(v.status);
        }
        next := vars[i := v.value];
    }
    r := ReadArguments(p, s, args, next, steps[1..]);
  }

  /** `resize_out_vec` and `resize_nullable_out_vec` */
  method ResizeOut(p: Parcel, s: Schema, ty: FieldType) returns (r: Result<Value>)
    requires p.Valid() && VariableArray(ty)
    modifies p`pos
    ensures p.Valid()
    ensures match ReadI32(p.Bytes(), old(p.pos))
            case Err(e) => r == Err(e)
            case Ok(len) =>
              && p.pos == old(p.pos) + 4
              && r == (if len < 0 then if ty.nullable then Ok(Null) else Err(UnexpectedNull)
                       else if len > s.usizeMax then Err(BadValue)
                       else Ok(Resized(s, ty, len)))
  {
    hide Contents, DecI32, Resized;
    var len := p.ReadI32();
    if len.Err? {
      return Err(len.status);
    }
    if len.value < 0 {
      return if ty.nullable then Ok(Null) else Err(UnexpectedNull);
    }
    if len.value > s.usizeMax {
      return Err(BadValue);
    }
    r := Ok(Resized(s, ty, len.value));
  }

  /** The end of an arm whose service call succeeded. */
  method WriteReply(p: Parcel, s: Schema, ret: Option<Arg>, v: Value, args: seq<Arg>, outs: seq<Value>) returns (r: Result<()>)
    requires p.Valid() && p.pos <= p.len && p.pos <= I32_MAX
    requires AllTyped(s, args, outs) && (ret.Some? ==> Typed(s, ret.value.ty, v))
    modifies p`mem, p`len, p`pos
    ensures p.Valid() && (r.Err? ==> r.status == BadValue)
    ensures r.Ok? <==> old(p.pos) + |Reply(s, ret, v, args, outs)| <= I32_MAX
    ensures r.Ok? ==> p.Bytes() == Overlay(old(p.Bytes()), old(p.pos), Reply(s, ret, v, args, outs)) &&
                      p.pos == old(p.pos) + |Reply(s, ret, v, args, outs)|
  {
    hide Overlay, Contents, Enc, EncI32, Typed, OutBytes;
    ghost var before, start, back := p.Bytes(), p.pos, Backward(args, 0);
    r := WriteReturn(p, s, ret, v);
    if r.Err? {
      return;
    }
    OverlayAppend(before, start, EncI32(0) + ReturnBytes(s, ret, v), OutBytes(s, args, outs, back));
    r := WriteOuts(p, s, args, outs, Backward(args, 0));
  }

  method WriteReturn(p: Parcel, s: Schema, ret: Option<Arg>, v: Value) returns (r: Result<()>)
    requires p.Valid() && p.pos <= p.len && p.pos <= I32_MAX && (ret.Some? ==> Typed(s, ret.value.ty, v))
    modifies p`mem, p`len, p`pos
    ensures p.Valid() && (r.Err? ==> r.status == BadValue)
    ensures var e := EncI32(0) + ReturnBytes(s, ret, v);
            && (r.Ok? <==> old(p.pos) + |e| <= I32_MAX)
            && (r.Ok? ==> p.Bytes() == Overlay(old(p.Bytes()), old(p.pos), e) && p.pos == old(p.pos) + |e| <= p.len)
  {
    hide Overlay, Contents, Enc, EncI32, Typed;
    r := p.WriteI32(0);
    if r.Err? {
      return;
    }
    if ret.Some? {
      OverlayAppend(old(p.Bytes()), old(p.pos), EncI32(0), ReturnBytes(s, ret, v));
      r := WriteValue(p, s, ret.value.ty, v);
    } else {
      assert EncI32(0) + ReturnBytes(s, ret, v) == EncI32(0);
    }
  }

  method WriteOuts(p: Parcel, s: Schema, args: seq<Arg>, outs: seq<Value>, back: seq<nat>) returns (r: Result<()>)
    requires p.Valid() && p.pos <= p.len && p.pos <= I32_MAX
    requires AllTyped(s, args, outs) && Indices(back, |args|)
    modifies p`mem, p`len, p`pos
    ensures p.Valid() && (r.Err? ==> r.status == BadValue)
    ensures r.Ok? <==> old(p.pos) + |OutBytes(s, args, outs, back)| <= I32_MAX
    ensures r.Ok? ==> p.Bytes() == Overlay(old(p.Bytes()), old(p.pos), OutBytes(s, args, outs, back)) &&
                      p.pos == old(p.pos) + |OutBytes(s, args, outs, back)|
    decreases back
  {
    hide Overlay, Contents, Enc, EncI32, Typed;
    if back == [] {
      NothingOver(p.Bytes(), p.pos);
      return Ok(());
    }
    var i := back[0];
    assert Typed(s, args[i].ty, outs[i]);
    r := WriteValue(p, s, args[i].ty, outs[i]);
    if r.Err? {
      return;
    }
    OverlayAppend(old(p.Bytes()), old(p.pos), Enc(s, args[i].ty, outs[i]), OutBytes(s, args, outs, back[1..]));
    r := WriteOuts(p, s, args, outs, back[1..]);
  }

  /** `read_response` on a reply parcel. */
  method ReadReply(p: Parcel, s: Schema, ret: Option<Arg>, args: seq<Arg>, vals: seq<Value>) returns (r: Result<Response>)
    requires p.Valid() && p.depth == 0 && |vals| == |args|
    modifies p`pos, p`boundary, p`depth
    ensures p.Valid() && p.boundary == old(p.boundary) && p.depth == 0
    ensures r == ReadResponse(s, ret, args, p.Bytes(), old(p.pos), vals)
    ensures match ReadI32(p.Bytes(), old(p.pos))
            case Err(e) => r == Err(e)
            case Ok(status) => (r.Ok? && r.value.Refused? <==> status != 0) && (status != 0 ==> r == Ok(Refused(status)))
    ensures r.Ok? && r.value.Returned? ==> p.pos == r.value.next
  {
    hide Contents, DecI32, Read, ReadOuts;
    var status := p.ReadI32();
    if status.Err? {
      return Err(status.status);
    }
    if status.value != 0 {
      return Ok(Refused(status.value));
    }
    var v := Null;
    if ret.Some? {
      var got := ReadValue(p, s, ret.value.ty);
      if got.Err? {
        return Err(got.status);
      }
      v := got.value;
    }
    var outs := ReadOnto(p, s, args, vals, Backward(args, 0));
    if outs.Err? {
      return Err(outs.status);
    }
    r := Ok(Returned(v, outs.value, p.pos));
  }

  method ReadOnto(p: Parcel, s: Schema, args: seq<Arg>, vals: seq<Value>, back: seq<nat>) returns (r: Result<seq<Value>>)
    requires p.Valid() && p.depth == 0 && |vals| == |args| && Indices(back, |args|)
    modifies p`pos, p`boundary, p`depth
    ensures p.Valid() && p.boundary == old(p.boundary) && p.depth == 0
    ensures match ReadOuts(s, args, p.Bytes(), old(p.pos), vals, back)
            case Ok((v, next)) => r == Ok(v) && p.pos == next
            case Err(e) => r == Err(e)
    decreases back
  {
    hide Contents, ReadOver;
    if back == [] {
      return Ok(vals);
    }
    var i := back[0];
    var v := ReadOnce(p, s, args[i].ty, vals[i]);
    if v.Err? {
      return Err(v.status);
    }
    r := ReadOnto(p, s, args, vals[i := v.value], back[1..]);
  }

  /** `read_onto` for one argument. */
  method ReadOnce(p: Parcel, s: Schema, ty: FieldType, held: Value) returns (r: Result<Value>)
    requires p.Valid() && p.depth == 0
    modifies p`pos, p`boundary, p`depth
    ensures p.Valid() && p.boundary == old(p.boundary) && p.depth == 0
    ensures match ReadOver(s, ty, held, p.Bytes(), old(p.pos))
            case Ok((v, next)) => r == Ok(v) && p.pos == next
            case Err(e) => r == Err(e)
    ensures ty.Nested? ==>
              match ReadI32(p.Bytes(), old(p.pos))
              case Err(e) => r == Err(e)
              case Ok(flag) =>
                && (flag == 0 ==> r == if ty.nullable then Ok(Null) else Err(UnexpectedNull))
                && (flag != 0 && flag != 1 ==> r == Err(UnexpectedNull))
                && (flag == 1 && r.Ok? ==> r.value.Record?)
  {
    hide Contents, DecI32, Read, ReadBlockOnto, HeldFields;
    if !ty.Nested? {
      r := ReadValue(p, s, ty);
      return;
    }
    var flag := p.ReadI32();
    if flag.Err? {
      return Err(flag.status);
    }
    if flag.value == 0 {
      return if ty.nullable then Ok(Null) else Err(UnexpectedNull);
    }
    if flag.value != 1 {
      return Err(UnexpectedNull);
    }
    r := ReadBlockValueOnto(p, s, ty.name, HeldFields(s, ty.name, held));
  }
}
