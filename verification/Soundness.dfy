/** Reading arbitrary bytes: whatever a generated reader accepts is a value of the declared
    type, taken from inside the buffer. */
module Soundness {
  import opened Wire
  import opened ArrayWire
  import opened Parcels
  import opened Stable

  /** Fixed-size elements have a size, and every default is a value of its field's type. */
  ghost predicate SoundSchema(s: Schema) {
    forall name <- s.types, f <- s.types[name] :: SizedType(f.ty) && Typed(s, f.ty, f.default)
  }

  predicate SizedType(ty: FieldType) {
    ty.Pod? || ty.Pods? ==> ty.width > 0
  }

  lemma PodsSound(s: Schema, w: nat, nullable: bool, data: seq<byte>, pos: nat)
    requires w > 0 && Read(s, Pods(w, nullable), data, pos, 0).Ok?
    ensures var (v, next) := Read(s, Pods(w, nullable), data, pos, 0).value;
            Typed(s, Pods(w, nullable), v) && Headed(Pods(w, nullable), data, pos, v) && pos < next <= |data|
  {
    hide Chunks, DecI32;
  }

  lemma TextSound(s: Schema, nullable: bool, data: seq<byte>, pos: nat)
    requires Read(s, Text(nullable), data, pos, 0).Ok?
    ensures var (v, next) := Read(s, Text(nullable), data, pos, 0).value;
            Typed(s, Text(nullable), v) && Headed(Text(nullable), data, pos, v) && pos < next <= |data|
  {
    hide ValidUtf16, DecUnits, DecI32;
  }

  /** The word in front says what was read: a length, a flag, or that there is nothing. */
  ghost predicate Headed(ty: FieldType, data: seq<byte>, pos: nat, v: Value) {
    match ty
    case Pod(w) => v.Scalar? && pos + w <= |data| && v.bytes == data[pos..pos + w]
    case Pods(_, _) => ReadI32(data, pos) == Ok(if v.Array? && |v.items| <= I32_MAX then |v.items| else -1)
    case Text(_) => ReadI32(data, pos) == Ok(if v.Str? && |v.units| <= I32_MAX then |v.units| else -1)
    case Nested(_, _) => ReadI32(data, pos) == Ok(if v.Record? then 1 else 0)
    case Structs(_, _) => ReadI32(data, pos) == Ok(if v.Many? && |v.elems| <= I32_MAX then |v.elems| else -1)
  }

  /** The readers of one value ignore the depth unless they open a block. */
  lemma FlatDepth(s: Schema, ty: FieldType, data: seq<byte>, pos: nat, depth: nat)
    requires depth <= MAX_NESTED_READ_DEPTH && !ty.Nested? && !ty.Structs?
    ensures Read(s, ty, data, pos, depth) == Read(s, ty, data, pos, 0)
  {
    hide ReadLike, ReadText;
  }

  /** A value read from arbitrary bytes has the declared type, null only where that is allowed,
      and the cursor stays inside the buffer. */
  lemma {:induction false} ReadSound(s: Schema, ty: FieldType, data: seq<byte>, pos: nat, depth: nat)
    requires SoundSchema(s) && SizedType(ty) && depth <= MAX_NESTED_READ_DEPTH && Read(s, ty, data, pos, depth).Ok?
    ensures var (v, next) := Read(s, ty, data, pos, depth).value;
            Typed(s, ty, v) && Headed(ty, data, pos, v) && pos < next <= |data|
    decreases MAX_NESTED_READ_DEPTH - depth, 2, 0
  {
    hide SoundSchema, ReadLike, ReadText, ReadNested, ReadList, ValidUtf16, TypedAll, DecI32;
    match ty
    case Pod(_) =>
    case Pods(w, n) =>
      FlatDepth(s, ty, data, pos, depth);
      PodsSound(s, w, n, data, pos);
    case Text(n) =>
      FlatDepth(s, ty, data, pos, depth);
      TextSound(s, n, data, pos);
    case Nested(name, n) => NestedSound(s, name, n, data, pos, depth);
    case Structs(name, n) =>
      var len := ReadI32(data, pos).value;
      if len >= 0 {
        ListSound(s, name, len, data, pos + 4, depth);
      }
  }

  lemma {:induction false} NestedSound(s: Schema, name: string, nullable: bool, data: seq<byte>, pos: nat, depth: nat)
    requires SoundSchema(s) && depth <= MAX_NESTED_READ_DEPTH && ReadNested(s, name, nullable, data, pos, depth).Ok?
    ensures var (v, next) := ReadNested(s, name, nullable, data, pos, depth).value;
            Typed(s, Nested(name, nullable), v) && Headed(Nested(name, nullable), data, pos, v) && pos < next <= |data|
    decreases MAX_NESTED_READ_DEPTH - depth, 0, 2
  {
    hide SoundSchema, ReadBlockOnto, TypedAll, DecI32;
    if ReadI32(data, pos) == Ok(1) {
      BlockSound(s, name, NewFields(s, name), data, pos + 4, depth);
    }
  }

  lemma {:induction false} ListSound(s: Schema, name: string, n: nat, data: seq<byte>, pos: nat, depth: nat)
    requires SoundSchema(s) && depth <= MAX_NESTED_READ_DEPTH && ReadList(s, name, n, data, pos, depth).Ok? && pos <= |data|
    ensures var (vs, next) := ReadList(s, name, n, data, pos, depth).value;
            |vs| == n && TypedAll(s, Repeat(Nested(name, false), n), vs) && pos <= next <= |data|
    decreases MAX_NESTED_READ_DEPTH - depth, 1, n
  {
    hide SoundSchema, ReadNested, Typed;
    if n > 0 {
      NestedSound(s, name, false, data, pos, depth);
      var (v, p) := ReadNested(s, name, false, data, pos, depth).value;
      ListSound(s, name, n - 1, data, p, depth);
      assert Repeat(Nested(name, false), n)[1..] == Repeat(Nested(name, false), n - 1);
    }
  }

  /** Onto a value of the right type, a block leaves a value of the right type. */
  lemma {:induction false} BlockSound(s: Schema, name: string, held: seq<Value>, data: seq<byte>, pos: nat, depth: nat)
    requires SoundSchema(s) && depth <= MAX_NESTED_READ_DEPTH && (name in s.types ==> |held| == |s.types[name]|)
    requires name in s.types ==> TypedAll(s, TypesOf(s.types[name]), held) || held == Defaults(s.types[name])
    requires ReadBlockOnto(s, name, held, data, pos, depth).Ok?
    ensures name in s.types && TypedAll(s, TypesOf(s.types[name]), ReadBlockOnto(s, name, held, data, pos, depth).value.0.fields)
    decreases MAX_NESTED_READ_DEPTH - depth, 0, 0
  {
    hide SoundSchema, ReadFields, TypedAll, DecI32;
    DefaultsTyped(s, name);
    var size := ReadI32(data, pos).value;
    FieldsSound(s, s.types[name], held, data, pos + 4, pos + size, depth + 1, name, 0);
  }

  lemma DefaultsTyped(s: Schema, name: string)
    requires SoundSchema(s)
    ensures name in s.types ==> TypedAll(s, TypesOf(s.types[name]), Defaults(s.types[name]))
  {
    hide Typed, TypedAll;
    if name in s.types {
      SuffixTyped(s, name, 0);
      assert s.types[name][0..] == s.types[name];
    }
  }

  lemma {:induction false} SuffixTyped(s: Schema, name: string, i: nat)
    requires SoundSchema(s) && name in s.types && i <= |s.types[name]|
    ensures TypedAll(s, TypesOf(s.types[name][i..]), Defaults(s.types[name][i..]))
    decreases |s.types[name]| - i
  {
    hide Typed;
    var fs := s.types[name];
    if i < |fs| {
      SuffixTyped(s, name, i + 1);
      assert fs[i] in fs;
      assert TypesOf(fs[i..])[1..] == TypesOf(fs[i + 1..]) && Defaults(fs[i..])[1..] == Defaults(fs[i + 1..]);
    }
  }

  lemma {:induction false} FieldsSound(s: Schema, fields: seq<Field>, held: seq<Value>, data: seq<byte>, pos: nat, end: nat, depth: nat, name: string, i: nat)
    requires SoundSchema(s) && depth <= MAX_NESTED_READ_DEPTH && |held| == |fields|
    requires name in s.types && i <= |s.types[name]| && fields == s.types[name][i..]
    requires TypedAll(s, TypesOf(fields), held) && ReadFields(s, fields, held, data, pos, end, depth).Ok?
    ensures TypedAll(s, TypesOf(fields), ReadFields(s, fields, held, data, pos, end, depth).value)
    decreases MAX_NESTED_READ_DEPTH - depth, 3, |fields|
  {
    hide Read, Typed;
    if fields != [] && pos < end {
      assert fields[0] in s.types[name];
      ReadSound(s, fields[0].ty, data, pos, depth);
      var (v, p) := Read(s, fields[0].ty, data, pos, depth).value;
      assert TypesOf(fields)[1..] == TypesOf(fields[1..]);
      FieldsSound(s, fields[1..], held[1..], data, p, end, depth, name, i + 1);
    }
  }

  // ----- what is refused -----

  predicate Nullable(ty: FieldType) {
    !ty.Pod? && ty.nullable
  }

  /** Null where it is not allowed, a length below the null marker and a flag that is none are
      unexpected; null where it is allowed is read as such. */
  lemma WordRefusals(s: Schema, ty: FieldType, data: seq<byte>, pos: nat, depth: nat, word: i32)
    requires depth <= MAX_NESTED_READ_DEPTH && !ty.Pod? && ReadI32(data, pos) == Ok(word)
    requires if ty.Nested? then word != 1 else word < 0
    ensures Read(s, ty, data, pos, depth) ==
            if Nullable(ty) && word == (if ty.Nested? then 0 else -1) then Ok((Null, pos + 4)) else Err(UnexpectedNull)
  {
    hide DecI32, ReadI32, Chunks, CheckedLayout;
  }

  /** A block whose size does not cover its own word, runs past the buffer or nests too deep. */
  lemma BlockRefusals(s: Schema, name: string, data: seq<byte>, pos: nat, depth: nat, size: i32)
    requires depth <= MAX_NESTED_READ_DEPTH && ReadI32(data, pos) == Ok(size)
    ensures size < 4 ==> ReadBlock(s, name, data, pos, depth) == Err(BadValue)
    ensures size >= 4 && pos + size > |data| ==> ReadBlock(s, name, data, pos, depth) == Err(NotEnoughData)
    ensures size >= 4 && pos + size <= |data| && depth == MAX_NESTED_READ_DEPTH ==> ReadBlock(s, name, data, pos, depth) == Err(BadValue)
  {
    hide DecI32, ReadI32, ReadFields;
  }

  /** A string that is not UTF-16 is refused, whatever its length word says. */
  lemma TextRefusals(usizeMax: nat, data: seq<byte>, pos: nat, len: nat)
    requires ReadI32(data, pos) == Ok(len) && len < I32_MAX && usizeMax >= 0xffff_ffff && |data| < I32_MAX
    requires pos + 4 + PadSize(2 * len + 2) <= |data|
    ensures var units := DecUnits(data[pos + 4..pos + 4 + 2 * len], len);
            ReadText(usizeMax, data, pos) ==
            if ValidUtf16(units) then Ok((Some(units), pos + 4 + PadSize(2 * len + 2))) else Err(BadValue)
  {
    hide DecI32, ReadI32, DecUnits, ValidUtf16;
    assert data[pos + 4..pos + 4 + (2 * len + 2)][..2 * len] == data[pos + 4..pos + 4 + 2 * len];
  }
}
