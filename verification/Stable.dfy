/** Structured parcelables: the bytes a generated writer produces and what the
    guarded, size-delimited generated reader makes of bytes from another version. */
module Stable {
  import opened Wire
  import opened ArrayWire
  import opened Parcels

  datatype FieldType =
    | Pod(width: nat)
    | Pods(width: nat, nullable: bool)
    | Text(nullable: bool)
    | Nested(name: string, nullable: bool)
    | Structs(name: string, nullable: bool)

  datatype Value =
    | Null
    | Scalar(bytes: seq<byte>)
    | Array(items: Elements)
    | Str(units: seq<nat>)
    | Record(fields: seq<Value>)
    | Many(elems: seq<Value>)

  datatype Field = Field(ty: FieldType, default: Value)

  /** One version of a set of parcelables, on a target whose largest `usize` is `usizeMax`. */
  datatype Schema = Schema(types: map<string, seq<Field>>, usizeMax: nat)

  function TypesOf(fields: seq<Field>): (tys: seq<FieldType>)
    ensures |tys| == |fields| && forall i :: 0 <= i < |tys| ==> tys[i] == fields[i].ty
  {
    seq(|fields|, i requires 0 <= i < |fields| => fields[i].ty)
  }

  function Repeat(ty: FieldType, n: nat): (tys: seq<FieldType>)
    ensures |tys| == n && forall i :: 0 <= i < n ==> tys[i] == ty
  {
    seq(n, _ => ty)
  }

  function Defaults(fields: seq<Field>): (vs: seq<Value>)
    ensures |vs| == |fields| && forall i :: 0 <= i < |vs| ==> vs[i] == fields[i].default
  {
    seq(|fields|, i requires 0 <= i < |fields| => fields[i].default)
  }

  // ----- strings -----

  predicate ValidUtf16(units: seq<nat>) {
    units == [] ||
    (if 0xd800 <= units[0] < 0xdc00
     then |units| > 1 && 0xdc00 <= units[1] < 0xe000 && ValidUtf16(units[2..])
     else units[0] < 0x1_0000 && !(0xdc00 <= units[0] < 0xe000) && ValidUtf16(units[1..]))
  }

  function EncUnits(units: seq<nat>): (s: seq<byte>)
    ensures |s| == 2 * |units|
  {
    if units == [] then [] else ToLE(units[0], 2) + EncUnits(units[1..])
  }

  function DecUnits(s: seq<byte>, n: nat): (units: seq<nat>)
    requires |s| == 2 * n
    ensures |units| == n
  {
    if n == 0 then [] else [FromLE(s[..2])] + DecUnits(s[2..], n - 1)
  }

  lemma {:induction false} ValidUnitsSmall(units: seq<nat>)
    requires ValidUtf16(units)
    ensures forall i :: 0 <= i < |units| ==> units[i] < 0x1_0000
  {
    if units != [] {
      if 0xd800 <= units[0] < 0xdc00 {
        ValidUnitsSmall(units[2..]);
        assert forall i :: 2 <= i < |units| ==> units[i] == units[2..][i - 2];
      } else {
        ValidUnitsSmall(units[1..]);
        assert forall i :: 1 <= i < |units| ==> units[i] == units[1..][i - 1];
      }
    }
  }

  lemma {:induction false} DecEncUnits(units: seq<nat>)
    requires forall i :: 0 <= i < |units| ==> units[i] < 0x1_0000
    ensures DecUnits(EncUnits(units), |units|) == units
  {
    if units != [] {
      assert Pow256(2) == 0x1_0000;
      FromToLE(units[0], 2);
      DecEncUnits(units[1..]);
      assert EncUnits(units)[..2] == ToLE(units[0], 2) && EncUnits(units)[2..] == EncUnits(units[1..]);
    }
  }

  /** A string: its length in code units, then the units and a terminator, padded. */
  function EncText(units: seq<nat>): (s: seq<byte>)
    requires |units| < I32_MAX
    ensures |s| == 4 + PadSize(2 * |units| + 2)
  {
    EncI32(|units|) + Padded(EncUnits(units) + [0, 0])
  }

  function ReadText(usizeMax: nat, data: seq<byte>, pos: nat): (r: Result<(Option<seq<nat>>, nat)>)
  {
    var len :- ReadI32(data, pos);
    if len == -1 then Ok((None, pos + 4))
    else if len < 0 || len == I32_MAX then Err(UnexpectedNull)
    else
      var (size, padded) :- CheckedLayout(usizeMax, len + 1, 2);
      var raw :- ReadAligned(data, pos + 4, size);
      var units := DecUnits(raw[..2 * len], len);
      if ValidUtf16(units) then Ok((Some(units), pos + 4 + padded)) else Err(BadValue)
  }

  // ----- values of a type, and their bytes -----

  ghost predicate Typed(s: Schema, ty: FieldType, v: Value)
    decreases v, 1
  {
    match ty
    case Pod(w) => v.Scalar? && |v.bytes| == w > 0
    case Pods(w, n) => (v.Null? && n) || (v.Array? && w > 0 && AllOf(v.items, w) && |v.items| <= I32_MAX)
    case Text(n) => (v.Null? && n) || (v.Str? && ValidUtf16(v.units) && |v.units| < I32_MAX)
    case Nested(name, n) =>
      (v.Null? && n) ||
      (v.Record? && name in s.types && TypedAll(s, TypesOf(s.types[name]), v.fields))
    case Structs(name, n) =>
      (v.Null? && n) ||
      (v.Many? && |v.elems| <= I32_MAX && TypedAll(s, Repeat(Nested(name, false), |v.elems|), v.elems))
  }

  ghost predicate TypedAll(s: Schema, tys: seq<FieldType>, vs: seq<Value>)
    decreases vs, 0
  {
    |tys| == |vs| &&
    (vs == [] || (Typed(s, tys[0], vs[0]) && TypedAll(s, tys[1..], vs[1..])))
  }

  /** A length word; a block too long for it is never completed by the writer. */
  function Word(n: nat): (s: seq<byte>)
    ensures |s| == 4 && (n <= I32_MAX ==> s == EncI32(n))
  {
    EncI32(if n <= I32_MAX then n else 0)
  }

  ghost function Enc(s: Schema, ty: FieldType, v: Value): (e: seq<byte>)
    requires Typed(s, ty, v)
    ensures |e| >= 4
    decreases v, 1
  {
    match ty
    case Pod(_) => Padded(v.bytes)
    case Pods(w, _) => EncArray(Plain(w, if v.Null? then None else Some(v.items)))
    case Text(_) => if v.Null? then EncI32(-1) else EncText(v.units)
    case Nested(name, _) => if v.Null? then EncI32(0) else EncI32(1) + EncBlock(s, TypesOf(s.types[name]), v.fields)
    case Structs(name, _) =>
      if v.Null? then EncI32(-1)
      else EncI32(|v.elems|) + EncSeq(s, Repeat(Nested(name, false), |v.elems|), v.elems)
  }

  ghost function EncSeq(s: Schema, tys: seq<FieldType>, vs: seq<Value>): (e: seq<byte>)
    requires TypedAll(s, tys, vs)
    decreases vs, 0
  {
    if vs == [] then [] else Enc(s, tys[0], vs[0]) + EncSeq(s, tys[1..], vs[1..])
  }

  /** What `sized_write` leaves: the size of the whole block, then its fields. */
  ghost function EncBlock(s: Schema, tys: seq<FieldType>, vs: seq<Value>): (e: seq<byte>)
    requires TypedAll(s, tys, vs)
    ensures |e| == 4 + |EncSeq(s, tys, vs)|
    decreases vs, 1
  {
    var body := EncSeq(s, tys, vs);
    Word(4 + |body|) + body
  }

  // ----- the generated reader -----

  function Read(s: Schema, ty: FieldType, data: seq<byte>, pos: nat, depth: nat): (r: Result<(Value, nat)>)
    requires depth <= MAX_NESTED_READ_DEPTH
    decreases MAX_NESTED_READ_DEPTH - depth, 2, 0
  {
    match ty
    case Pod(w) =>
      var b :- ReadAligned(data, pos, w);
      Ok((Scalar(b), pos + PadSize(w)))
    case Pods(w, n) =>
      var (a, next) :- ReadLike(s.usizeMax, data, pos, Plain(w, None));
      if a.items.Some? then Ok((Array(a.items.value), next))
      else if n then Ok((Null, next)) else Err(UnexpectedNull)
    case Text(n) =>
      var (t, next) :- ReadText(s.usizeMax, data, pos);
      if t.Some? then Ok((Str(t.value), next))
      else if n then Ok((Null, next)) else Err(UnexpectedNull)
    case Nested(name, n) => ReadNested(s, name, n, data, pos, depth)
    case Structs(name, n) =>
      var len :- ReadI32(data, pos);
      if len < -1 then Err(UnexpectedNull)
      else if len == -1 then if n then Ok((Null, pos + 4)) else Err(UnexpectedNull)
      else
        var (vs, next) :- ReadList(s, name, len, data, pos + 4, depth);
        Ok((Many(vs), next))
  }

  function ReadList(s: Schema, name: string, n: nat, data: seq<byte>, pos: nat, depth: nat): (r: Result<(seq<Value>, nat)>)
    requires depth <= MAX_NESTED_READ_DEPTH
    decreases MAX_NESTED_READ_DEPTH - depth, 1, n
  {
    if n == 0 then Ok(([], pos))
    else
      var (v, p) :- ReadNested(s, name, false, data, pos, depth);
      var (vs, q) :- ReadList(s, name, n - 1, data, p, depth);
      Ok(([v] + vs, q))
  }

  /** The null flag, then the block. */
  function ReadNested(s: Schema, name: string, nullable: bool, data: seq<byte>, pos: nat, depth: nat): (r: Result<(Value, nat)>)
    requires depth <= MAX_NESTED_READ_DEPTH
    decreases MAX_NESTED_READ_DEPTH - depth, 0, 2
  {
    var flag :- ReadI32(data, pos);
    if flag == 0 then if nullable then Ok((Null, pos + 4)) else Err(UnexpectedNull)
    else if flag == 1 then ReadBlock(s, name, data, pos + 4, depth)
    else Err(UnexpectedNull)
  }

  /** The fields of a new value. */
  function NewFields(s: Schema, name: string): (vs: seq<Value>)
    ensures name in s.types ==> |vs| == |s.types[name]|
  {
    if name in s.types then Defaults(s.types[name]) else []
  }

  function ReadBlock(s: Schema, name: string, data: seq<byte>, pos: nat, depth: nat): (r: Result<(Value, nat)>)
    requires depth <= MAX_NESTED_READ_DEPTH
    ensures r.Ok? ==> r.value.0.Record? && pos + 4 <= r.value.1 <= |data| && r.value.1 == pos + DecI32(data[pos..pos + 4])
    decreases MAX_NESTED_READ_DEPTH - depth, 0, 1
  {
    ReadBlockOnto(s, name, NewFields(s, name), data, pos, depth)
  }

  /** `read_from_parcel` onto a value with the fields `held`: a `sized_read` whose closure
      reads the fields. */
  function ReadBlockOnto(s: Schema, name: string, held: seq<Value>, data: seq<byte>, pos: nat, depth: nat): (r: Result<(Value, nat)>)
    requires depth <= MAX_NESTED_READ_DEPTH && (name in s.types ==> |held| == |s.types[name]|)
    ensures r.Ok? ==> r.value.0.Record? && pos + 4 <= r.value.1 <= |data| && r.value.1 == pos + DecI32(data[pos..pos + 4])
    decreases MAX_NESTED_READ_DEPTH - depth, 0, 0
  {
    var size :- ReadI32(data, pos);
    if size < 4 then Err(BadValue)
    else if pos + size > |data| then Err(NotEnoughData)
    else if depth >= MAX_NESTED_READ_DEPTH then Err(BadValue)
    else if name !in s.types then Err(BadType)
    else
      var vs :- ReadFields(s, s.types[name], held, data, pos + 4, pos + size, depth + 1);
      Ok((Record(vs), pos + size))
  }

  /** Each field is read only while `has_more_data`; the others stay as they were. */
  function ReadFields(s: Schema, fields: seq<Field>, held: seq<Value>, data: seq<byte>, pos: nat, end: nat, depth: nat): (r: Result<seq<Value>>)
    requires depth <= MAX_NESTED_READ_DEPTH && |held| == |fields|
    decreases MAX_NESTED_READ_DEPTH - depth, 3, |fields|
  {
    if fields == [] || pos >= end then Ok(held)
    else
      var (v, p) :- Read(s, fields[0].ty, data, pos, depth);
      var vs :- ReadFields(s, fields[1..], held[1..], data, p, end, depth);
      Ok([v] + vs)
  }

  // ----- what another version makes of a value -----

  ghost predicate NameShared(w: Schema, r: Schema, ty: FieldType) {
    ty.Nested? || ty.Structs? ==> ty.name in w.types && ty.name in r.types
  }

  /** Field lists of one parcelable in two versions: equal types as long as both go on. */
  ghost predicate SharePrefix(w: Schema, r: Schema, a: seq<FieldType>, b: seq<FieldType>) {
    forall i :: 0 <= i < |a| && i < |b| ==> a[i] == b[i] && NameShared(w, r, a[i])
  }

  ghost predicate Compatible(w: Schema, r: Schema) {
    && r.usizeMax >= 0xffff_ffff
    && forall name :: name in w.types && name in r.types ==>
         SharePrefix(w, r, TypesOf(w.types[name]), TypesOf(r.types[name]))
  }

  /** The value as the reader's version sees it: shared fields converted, missing
      trailing fields at the reader's defaults, extra fields dropped. */
  ghost function Project(w: Schema, r: Schema, ty: FieldType, v: Value): Value
    requires NameShared(w, r, ty)
    decreases v, 1
  {
    match ty
    case Nested(name, _) => if v.Record? then Record(ProjectFields(w, r, r.types[name], v.fields)) else v
    case Structs(name, _) => if v.Many? then Many(ProjectList(w, r, name, v.elems)) else v
    case _ => v
  }

  ghost function ProjectFields(w: Schema, r: Schema, fields: seq<Field>, vs: seq<Value>): (p: seq<Value>)
    ensures |p| == |fields|
    decreases vs, 1
  {
    ProjectOnto(w, r, fields, Defaults(fields), vs)
  }

  /** The fields `held` after the shared ones of `vs` have been read onto them. */
  ghost function ProjectOnto(w: Schema, r: Schema, fields: seq<Field>, held: seq<Value>, vs: seq<Value>): (p: seq<Value>)
    requires |held| == |fields|
    ensures |p| == |fields|
    decreases vs, 0
  {
    if fields == [] || vs == [] then held
    else
      (if NameShared(w, r, fields[0].ty) then [Project(w, r, fields[0].ty, vs[0])] else [vs[0]]) +
      ProjectOnto(w, r, fields[1..], held[1..], vs[1..])
  }

  ghost function ProjectList(w: Schema, r: Schema, name: string, vs: seq<Value>): seq<Value>
    requires name in w.types && name in r.types
    decreases vs, 0
  {
    if vs == [] then [] else [Project(w, r, Nested(name, false), vs[0])] + ProjectList(w, r, name, vs[1..])
  }

  function Max(a: nat, b: nat): nat {
    if a > b then a else b
  }

  /** How many nested blocks the reader opens on the way to the deepest shared field. */
  ghost function Need(w: Schema, r: Schema, ty: FieldType, v: Value): nat
    requires NameShared(w, r, ty)
    decreases v, 1
  {
    match ty
    case Nested(name, _) => if v.Record? then 1 + NeedFields(w, r, r.types[name], v.fields) else 0
    case Structs(name, _) => if v.Many? then NeedList(w, r, name, v.elems) else 0
    case _ => 0
  }

  ghost function NeedFields(w: Schema, r: Schema, fields: seq<Field>, vs: seq<Value>): nat
    decreases vs, 0
  {
    if fields == [] || vs == [] then 0
    else
      Max(if NameShared(w, r, fields[0].ty) then Need(w, r, fields[0].ty, vs[0]) else 0,
          NeedFields(w, r, fields[1..], vs[1..]))
  }

  ghost function NeedList(w: Schema, r: Schema, name: string, vs: seq<Value>): nat
    requires name in w.types && name in r.types
    decreases vs, 0
  {
    if vs == [] then 0 else Max(Need(w, r, Nested(name, false), vs[0]), NeedList(w, r, name, vs[1..]))
  }
}
