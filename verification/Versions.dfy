/** Version compatibility: bytes from one version's writer, read by another
    version's reader. */
module Versions {
  import opened Wire
  import opened ArrayWire
  import opened Parcels
  import opened Stable

  /** `e` lies in the buffer at `pos`, and the buffer is small enough to be read. */
  ghost predicate Holds(data: seq<byte>, pos: nat, e: seq<byte>) {
    pos + |e| <= |data| && data[pos..pos + |e|] == e && |data| - pos < I32_MAX
  }

  lemma HoldsSplit(data: seq<byte>, pos: nat, a: seq<byte>, b: seq<byte>)
    requires Holds(data, pos, a + b)
    ensures Holds(data, pos, a) && Holds(data, pos + |a|, b)
  {
    assert data[pos..pos + |a|] == (a + b)[..|a|];
    assert data[pos + |a|..pos + |a| + |b|] == (a + b)[|a|..];
  }

  lemma ReadWord(data: seq<byte>, pos: nat, v: i32)
    requires Holds(data, pos, EncI32(v))
    ensures ReadI32(data, pos) == Ok(v)
  {
    hide EncI32, DecI32;
  }

  lemma ReadTextBack(usizeMax: nat, data: seq<byte>, pos: nat, units: seq<nat>)
    requires usizeMax >= 0xffff_ffff && ValidUtf16(units) && |units| < I32_MAX
    requires Holds(data, pos, EncText(units))
    ensures ReadText(usizeMax, data, pos) == Ok((Some(units), pos + |EncText(units)|))
  {
    hide EncI32, DecI32, EncUnits, DecUnits, ValidUtf16;
    var raw := EncUnits(units) + [0, 0];
    HoldsSplit(data, pos, EncI32(|units|), Padded(raw));
    ReadWord(data, pos, |units|);
    assert data[pos + 4..pos + 4 + |raw|] == data[pos + 4..pos + 4 + |Padded(raw)|][..|raw|] == raw;
    assert raw[..2 * |units|] == EncUnits(units);
    ValidUnitsSmall(units);
    DecEncUnits(units);
  }

  /** What the reader must return: the projected value and the cursor after the bytes,
      or `BadValue` exactly when the nesting bound is exceeded. */
  ghost function Expected<T>(depth: nat, need: nat, value: T): Result<T> {
    if depth + need <= MAX_NESTED_READ_DEPTH then Ok(value) else Err(BadValue)
  }

  lemma LeafBack(w: Schema, r: Schema, ty: FieldType, v: Value, data: seq<byte>, pos: nat, depth: nat)
    requires Compatible(w, r) && Typed(w, ty, v) && (ty.Pod? || ty.Pods? || ty.Text?)
    requires depth <= MAX_NESTED_READ_DEPTH && Holds(data, pos, Enc(w, ty, v))
    ensures Read(r, ty, data, pos, depth) == Ok((v, pos + |Enc(w, ty, v)|))
  {
    hide EncI32, DecI32, ValidUtf16, EncText, ReadText, EncArray, ReadLike, Compatible;
    match ty
    case Pod(n) =>
      assert data[pos..pos + n] == data[pos..pos + |Padded(v.bytes)|][..n];
    case Pods(n, _) =>
      var a := Plain(n, if v.Null? then None else Some(v.items));
      assert r.usizeMax >= 0xffff_ffff by { CompatibleWords(w, r); }
      ReadBack(r.usizeMax, data, pos, a);
      SameShape(r.usizeMax, data, pos, a);
    case Text(_) =>
      assert r.usizeMax >= 0xffff_ffff by { CompatibleWords(w, r); }
      if v.Null? {
        ReadNullText(r.usizeMax, data, pos);
      } else {
        ReadTextBack(r.usizeMax, data, pos, v.units);
      }
  }

  lemma CompatibleWords(w: Schema, r: Schema)
    requires Compatible(w, r)
    ensures r.usizeMax >= 0xffff_ffff
  {
  }

  lemma SameShape(usizeMax: nat, data: seq<byte>, pos: nat, a: ArrayValue)
    requires a.Plain?
    ensures ReadLike(usizeMax, data, pos, a) == ReadLike(usizeMax, data, pos, Plain(a.width, None))
  {
  }

  lemma ReadNullText(usizeMax: nat, data: seq<byte>, pos: nat)
    requires Holds(data, pos, EncI32(-1))
    ensures ReadText(usizeMax, data, pos) == Ok((None, pos + 4))
  {
    ReadWord(data, pos, -1);
  }

  /** Nested and listed parcelables, field by field. */
  lemma {:induction false} ValueBack(w: Schema, r: Schema, ty: FieldType, v: Value, data: seq<byte>, pos: nat, depth: nat)
    requires Compatible(w, r) && NameShared(w, r, ty) && Typed(w, ty, v)
    requires depth <= MAX_NESTED_READ_DEPTH && Holds(data, pos, Enc(w, ty, v))
    ensures Read(r, ty, data, pos, depth) ==
            Expected(depth, Need(w, r, ty, v), (Project(w, r, ty, v), pos + |Enc(w, ty, v)|))
    decreases v, 2
  {
    hide EncI32, DecI32, Compatible, Project, Need, ReadNested, ReadList;
    match ty
    case Nested(name, n) =>
      NestedBack(w, r, name, n, v, data, pos, depth);
    case Structs(name, _) =>
      ListBack(w, r, ty, v, data, pos, depth);
    case _ =>
      LeafBack(w, r, ty, v, data, pos, depth);
      LeafProject(w, r, ty, v);
  }

  lemma LeafProject(w: Schema, r: Schema, ty: FieldType, v: Value)
    requires ty.Pod? || ty.Pods? || ty.Text?
    ensures Project(w, r, ty, v) == v && Need(w, r, ty, v) == 0
  {
  }

  lemma {:induction false} NestedBack(w: Schema, r: Schema, name: string, nullable: bool, v: Value, data: seq<byte>, pos: nat, depth: nat)
    requires Compatible(w, r) && NameShared(w, r, Nested(name, nullable)) && Typed(w, Nested(name, nullable), v)
    requires depth <= MAX_NESTED_READ_DEPTH && Holds(data, pos, Enc(w, Nested(name, nullable), v))
    ensures var ty := Nested(name, nullable);
            ReadNested(r, name, nullable, data, pos, depth) ==
            Expected(depth, Need(w, r, ty, v), (Project(w, r, ty, v), pos + |Enc(w, ty, v)|))
    decreases v, 1
  {
    hide EncI32, DecI32, EncBlock, ReadBlock, ProjectFields, NeedFields, Compatible;
    if v.Null? {
      ReadWord(data, pos, 0);
    } else {
      var block := EncBlock(w, TypesOf(w.types[name]), v.fields);
      HoldsSplit(data, pos, EncI32(1), block);
      ReadWord(data, pos, 1);
      BlockBack(w, r, name, v.fields, data, pos + 4, depth);
    }
  }

  /** The heart of it: one size-delimited block written by `w` and read by `r`. */
  lemma {:induction false} BlockBack(w: Schema, r: Schema, name: string, vs: seq<Value>, data: seq<byte>, pos: nat, depth: nat)
    requires Compatible(w, r) && name in w.types && name in r.types && TypedAll(w, TypesOf(w.types[name]), vs)
    requires depth <= MAX_NESTED_READ_DEPTH && Holds(data, pos, EncBlock(w, TypesOf(w.types[name]), vs))
    ensures ReadBlock(r, name, data, pos, depth) ==
            Expected(depth, 1 + NeedFields(w, r, r.types[name], vs),
                     (Record(ProjectFields(w, r, r.types[name], vs)), pos + |EncBlock(w, TypesOf(w.types[name]), vs)|))
    decreases vs, 2
  {
    hide ReadBlockOnto, ProjectOnto, NeedFields, TypedAll, EncBlock, Compatible;
    BlockOntoBack(w, r, name, NewFields(r, name), vs, data, pos, depth);
  }

  /** The same read onto a value that is there already: fields the writer did not know stay. */
  lemma {:induction false} BlockOntoBack(w: Schema, r: Schema, name: string, held: seq<Value>, vs: seq<Value>, data: seq<byte>, pos: nat, depth: nat)
    requires Compatible(w, r) && name in w.types && name in r.types && TypedAll(w, TypesOf(w.types[name]), vs)
    requires |held| == |r.types[name]|
    requires depth <= MAX_NESTED_READ_DEPTH && Holds(data, pos, EncBlock(w, TypesOf(w.types[name]), vs))
    ensures ReadBlockOnto(r, name, held, data, pos, depth) ==
            Expected(depth, 1 + NeedFields(w, r, r.types[name], vs),
                     (Record(ProjectOnto(w, r, r.types[name], held, vs)), pos + |EncBlock(w, TypesOf(w.types[name]), vs)|))
    decreases vs, 1
  {
    hide EncI32, DecI32, EncSeq, ReadFields, ProjectOnto, NeedFields, TypedAll;
    var tys := TypesOf(w.types[name]);
    var body := EncSeq(w, tys, vs);
    HoldsSplit(data, pos, Word(4 + |body|), body);
    ReadWord(data, pos, 4 + |body|);
    if depth < MAX_NESTED_READ_DEPTH {
      FieldsBack(w, r, tys, r.types[name], held, vs, data, pos + 4, depth + 1);
    }
  }

  lemma TailTypes(w: Schema, r: Schema, tys: seq<FieldType>, fields: seq<Field>)
    requires SharePrefix(w, r, tys, TypesOf(fields)) && tys != [] && fields != []
    ensures SharePrefix(w, r, tys[1..], TypesOf(fields[1..]))
    ensures tys[0] == fields[0].ty && NameShared(w, r, tys[0])
  {
    var a, b := tys[1..], TypesOf(fields[1..]);
    assert TypesOf(fields)[0] == fields[0].ty;
    forall i | 0 <= i < |a| && i < |b|
      ensures a[i] == b[i] && NameShared(w, r, a[i])
    {
      assert a[i] == tys[i + 1] && b[i] == TypesOf(fields)[i + 1];
    }
  }

  lemma {:induction false} FieldsBack(w: Schema, r: Schema, tys: seq<FieldType>, fields: seq<Field>, held: seq<Value>, vs: seq<Value>,
                                      data: seq<byte>, pos: nat, depth: nat)
    requires Compatible(w, r) && TypedAll(w, tys, vs) && SharePrefix(w, r, tys, TypesOf(fields)) && |held| == |fields|
    requires depth <= MAX_NESTED_READ_DEPTH && Holds(data, pos, EncSeq(w, tys, vs))
    ensures ReadFields(r, fields, held, data, pos, pos + |EncSeq(w, tys, vs)|, depth) ==
            Expected(depth, NeedFields(w, r, fields, vs), ProjectOnto(w, r, fields, held, vs))
    decreases vs, 0
  {
    hide Compatible, SharePrefix, Read, Enc, Project, Need, Typed;
    if vs != [] && fields != [] {
      var a, b := Enc(w, tys[0], vs[0]), EncSeq(w, tys[1..], vs[1..]);
      HoldsSplit(data, pos, a, b);
      TailTypes(w, r, tys, fields);
      ValueBack(w, r, tys[0], vs[0], data, pos, depth);
      FieldsBack(w, r, tys[1..], fields[1..], held[1..], vs[1..], data, pos + |a|, depth);
    }
  }

  lemma {:induction false} ListBack(w: Schema, r: Schema, ty: FieldType, v: Value, data: seq<byte>, pos: nat, depth: nat)
    requires ty.Structs? && Compatible(w, r) && NameShared(w, r, ty) && Typed(w, ty, v)
    requires depth <= MAX_NESTED_READ_DEPTH && Holds(data, pos, Enc(w, ty, v))
    ensures Read(r, ty, data, pos, depth) ==
            Expected(depth, Need(w, r, ty, v), (Project(w, r, ty, v), pos + |Enc(w, ty, v)|))
    decreases v, 1
  {
    hide EncI32, DecI32, Compatible, EncSeq, ReadList, ProjectList, NeedList;
    if v.Null? {
      ReadWord(data, pos, -1);
    } else {
      var n := |v.elems|;
      HoldsSplit(data, pos, EncI32(n), EncSeq(w, Repeat(Nested(ty.name, false), n), v.elems));
      ReadWord(data, pos, n);
      ElemsBack(w, r, ty.name, v.elems, data, pos + 4, depth);
    }
  }

  lemma {:induction false} ElemsBack(w: Schema, r: Schema, name: string, vs: seq<Value>, data: seq<byte>, pos: nat, depth: nat)
    requires Compatible(w, r) && name in w.types && name in r.types
    requires TypedAll(w, Repeat(Nested(name, false), |vs|), vs)
    requires depth <= MAX_NESTED_READ_DEPTH && Holds(data, pos, EncSeq(w, Repeat(Nested(name, false), |vs|), vs))
    ensures ReadList(r, name, |vs|, data, pos, depth) ==
            Expected(depth, NeedList(w, r, name, vs),
                     (ProjectList(w, r, name, vs), pos + |EncSeq(w, Repeat(Nested(name, false), |vs|), vs)|))
    decreases vs, 0
  {
    hide Compatible, ReadNested, Enc, Project, Need, Typed;
    if vs != [] {
      var tys := Repeat(Nested(name, false), |vs|);
      assert tys[1..] == Repeat(Nested(name, false), |vs| - 1);
      var a, b := Enc(w, tys[0], vs[0]), EncSeq(w, tys[1..], vs[1..]);
      HoldsSplit(data, pos, a, b);
      NestedBack(w, r, name, false, vs[0], data, pos, depth);
      ElemsBack(w, r, name, vs[1..], data, pos + |a|, depth);
    }
  }

  /** The projected fields one by one. */
  lemma {:induction false} ProjectOntoAt(w: Schema, r: Schema, fields: seq<Field>, held: seq<Value>, vs: seq<Value>, i: nat)
    requires i < |fields| == |held|
    ensures ProjectOnto(w, r, fields, held, vs)[i] ==
            if i >= |vs| then held[i]
            else if NameShared(w, r, fields[i].ty) then Project(w, r, fields[i].ty, vs[i]) else vs[i]
    decreases vs
  {
    hide Project, NameShared;
    if fields != [] && vs != [] {
      if i > 0 {
        ProjectOntoAt(w, r, fields[1..], held[1..], vs[1..], i - 1);
      }
    }
  }

  /** Version compatibility of one parcelable: whatever each version appended to the
      common fields, the reader gets the shared fields, keeps its defaults for fields the
      writer did not know, skips the writer's extra fields, and stops at the block end;
      and it fails only when the nesting bound is exceeded. */
  lemma VersionCompatible(w: Schema, r: Schema, name: string, vs: seq<Value>, data: seq<byte>, pos: nat, depth: nat)
    requires Compatible(w, r) && name in w.types && name in r.types && TypedAll(w, TypesOf(w.types[name]), vs)
    requires depth <= MAX_NESTED_READ_DEPTH && Holds(data, pos, EncBlock(w, TypesOf(w.types[name]), vs))
    ensures var fields := r.types[name];
            match ReadBlock(r, name, data, pos, depth)
            case Ok((v, next)) =>
              && depth + 1 + NeedFields(w, r, fields, vs) <= MAX_NESTED_READ_DEPTH
              && next == pos + |EncBlock(w, TypesOf(w.types[name]), vs)|
              && v.Record? && |v.fields| == |fields|
              && (forall i :: 0 <= i < |fields| && i < |vs| && NameShared(w, r, fields[i].ty) ==>
                    v.fields[i] == Project(w, r, fields[i].ty, vs[i]))
              && (forall i :: |vs| <= i < |fields| ==> v.fields[i] == fields[i].default)
            case Err(e) =>
              e == BadValue && depth + 1 + NeedFields(w, r, fields, vs) > MAX_NESTED_READ_DEPTH
  {
    hide ReadBlock, EncBlock, Compatible, ProjectOnto, NeedFields, TypedAll, Project, NameShared;
    BlockBack(w, r, name, vs, data, pos, depth);
    var fields := r.types[name];
    forall i | 0 <= i < |fields|
      ensures ProjectFields(w, r, fields, vs)[i] ==
              if i >= |vs| then fields[i].default
              else if NameShared(w, r, fields[i].ty) then Project(w, r, fields[i].ty, vs[i]) else vs[i]
    {
      ProjectOntoAt(w, r, fields, Defaults(fields), vs, i);
    }
  }

  // ----- one version -----

  /** Within one version nothing is lost. */
  lemma {:induction false} ProjectSelf(s: Schema, ty: FieldType, v: Value)
    requires Compatible(s, s) && NameShared(s, s, ty) && Typed(s, ty, v)
    ensures Project(s, s, ty, v) == v
    decreases v, 1
  {
    match ty
    case Nested(name, _) =>
      if v.Record? {
        ProjectOntoSelf(s, s.types[name], Defaults(s.types[name]), v.fields);
      }
    case Structs(name, _) =>
      if v.Many? {
        ProjectListSelf(s, name, v.elems);
      }
    case _ =>
  }

  /** Then nothing of what was held before is left either. */
  lemma {:induction false} ProjectOntoSelf(s: Schema, fields: seq<Field>, held: seq<Value>, vs: seq<Value>)
    requires Compatible(s, s) && TypedAll(s, TypesOf(fields), vs) && SharePrefix(s, s, TypesOf(fields), TypesOf(fields)) && |held| == |fields|
    ensures ProjectOnto(s, s, fields, held, vs) == vs
    decreases vs, 0
  {
    hide Compatible, Typed, Project, SharePrefix;
    if vs != [] {
      TailTypes(s, s, TypesOf(fields), fields);
      assert TypesOf(fields)[1..] == TypesOf(fields[1..]);
      ProjectSelf(s, fields[0].ty, vs[0]);
      ProjectOntoSelf(s, fields[1..], held[1..], vs[1..]);
    }
  }

  lemma {:induction false} ProjectListSelf(s: Schema, name: string, vs: seq<Value>)
    requires Compatible(s, s) && name in s.types && TypedAll(s, Repeat(Nested(name, false), |vs|), vs)
    ensures ProjectList(s, s, name, vs) == vs
    decreases vs, 0
  {
    hide Compatible, Typed, Project;
    if vs != [] {
      var tys := Repeat(Nested(name, false), |vs|);
      assert tys[1..] == Repeat(Nested(name, false), |vs| - 1);
      ProjectSelf(s, Nested(name, false), vs[0]);
      ProjectListSelf(s, name, vs[1..]);
    }
  }

  // ----- the nesting bound -----

  /** `parcelable RecursiveList { @nullable RecursiveList next; }` */
  function Recursive(usizeMax: nat): Schema {
    Schema(map["RecursiveList" := [Field(Nested("RecursiveList", true), Null)]], usizeMax)
  }

  function Chain(n: nat): Value
    requires n > 0
  {
    Record([if n == 1 then Null else Chain(n - 1)])
  }

  lemma OneTyped(s: Schema, ty: FieldType, v: Value)
    requires Typed(s, ty, v)
    ensures TypedAll(s, [ty], [v])
  {
    assert [ty][1..] == [] && [v][1..] == [];
    assert TypedAll(s, [ty][1..], [v][1..]);
  }

  lemma OneNeeds(s: Schema, f: Field, v: Value)
    requires NameShared(s, s, f.ty)
    ensures NeedFields(s, s, [f], [v]) == Need(s, s, f.ty, v)
  {
    assert [f][1..] == [] && [v][1..] == [];
    assert NeedFields(s, s, [f][1..], [v][1..]) == 0;
  }

  lemma {:induction false} ChainTyped(n: nat, s: Schema)
    requires n > 0 && s == Recursive(s.usizeMax)
    ensures Typed(s, Nested("RecursiveList", true), Chain(n)) && Need(s, s, Nested("RecursiveList", true), Chain(n)) == n
  {
    var ty := Nested("RecursiveList", true);
    var fields := s.types["RecursiveList"];
    var c := if n == 1 then Null else Chain(n - 1);
    if n > 1 {
      ChainTyped(n - 1, s);
    }
    assert TypesOf(fields) == [ty] && fields == [Field(ty, Null)];
    OneTyped(s, ty, c);
    OneNeeds(s, Field(ty, Null), c);
  }

  ghost function ChainBytes(n: nat, s: Schema): seq<byte>
    requires n > 0 && s == Recursive(s.usizeMax)
  {
    ChainTyped(n, s);
    Enc(s, Nested("RecursiveList", true), Chain(n))
  }

  /** A well-formed chain of `n` nested blocks is accepted exactly when `n <= 1000`. */
  lemma ChainAccepted(n: nat, s: Schema, data: seq<byte>, pos: nat)
    requires n > 0 && s == Recursive(s.usizeMax) && s.usizeMax >= 0xffff_ffff
    requires Holds(data, pos, ChainBytes(n, s))
    ensures Read(s, Nested("RecursiveList", true), data, pos, 0) ==
            if n <= MAX_NESTED_READ_DEPTH then Ok((Chain(n), pos + |ChainBytes(n, s)|)) else Err(BadValue)
  {
    hide Read, Enc;
    var ty := Nested("RecursiveList", true);
    ChainTyped(n, s);
    ValueBack(s, s, ty, Chain(n), data, pos, 0);
    ProjectSelf(s, ty, Chain(n));
  }
}
