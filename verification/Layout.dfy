/** The wire format byte by byte: where each part of an encoding lies and what it holds. */
module Layout {
  import opened Wire
  import opened ArrayWire
  import opened Objects
  import opened Stable
  import opened Versions
  import opened Holders
  import opened FileDescriptors

  /** Four bytes, least significant first. */
  function Low32(s: seq<byte>): int
    requires |s| >= 4
  {
    var (a: int, b: int, c: int, d: int) := (s[0], s[1], s[2], s[3]);
    a + 0x100 * b + 0x1_0000 * c + 0x100_0000 * d
  }

  lemma LittleEndian(v: nat, width: nat)
    requires width >= 4
    ensures var high := v / 256 / 256 / 256 / 256;
            v == Low32(ToLE(v, width)) + 0x1_0000_0000 * high && ToLE(v, width)[4..] == ToLE(high, width - 4)
  {
    var v1, v2, v3 := v / 256, v / 256 / 256, v / 256 / 256 / 256;
    assert ToLE(v, width)[1..] == ToLE(v1, width - 1);
    assert ToLE(v1, width - 1)[1..] == ToLE(v2, width - 2);
    assert ToLE(v2, width - 2)[1..] == ToLE(v3, width - 3);
  }

  lemma FourBytes(v: nat)
    requires v < U32
    ensures Low32(ToLE(v, 4)) == v
  {
    LittleEndian(v, 4);
  }

  lemma EightBytes(v: nat)
    requires v < U64
    ensures Low32(ToLE(v, 8)) + U32 * Low32(ToLE(v, 8)[4..]) == v
  {
    hide ToLE;
    LittleEndian(v, 8);
    FourBytes(v / 256 / 256 / 256 / 256);
  }

  /** A word: four bytes, least significant first, of the two's complement. */
  lemma WordLayout(v: i32)
    ensures Low32(EncI32(v)) == if v < 0 then v + 0x1_0000_0000 else v
  {
    FourBytes(if v < 0 then v + 0x1_0000_0000 else v);
  }

  /** A flattened object: type and flags in four bytes each, pointer and cookie in eight. */
  lemma FlatLayout(f: Flat)
    requires f.Fits()
    ensures var s := EncFlat(f);
            && Low32(s) == f.kind && Low32(s[4..]) == f.flags
            && Low32(s[8..]) + U32 * Low32(s[12..]) == f.binder
            && Low32(s[16..]) + U32 * Low32(s[20..]) == f.cookie
  {
    hide ToLE;
    FourBytes(f.kind);
    FourBytes(f.flags);
    EightBytes(f.binder);
    EightBytes(f.cookie);
  }

  /** A string: its length in units, the units, and zeros to the end, at least two of them. */
  lemma TextLayout(units: seq<nat>, i: nat)
    requires |units| < I32_MAX && forall u <- units :: u < 0x1_0000
    ensures var e := EncText(units);
            && DecI32(e[..4]) == |units|
            && (i < |units| ==> e[4 + 2 * i] == units[i] % 256 && e[5 + 2 * i] == units[i] / 256)
            && (4 + 2 * |units| <= i < |e| ==> e[i] == 0)
            && |e| >= 6 + 2 * |units|
  {
    hide EncI32, DecI32, EncUnits;
    var e := EncText(units);
    assert e[..4] == EncI32(|units|);
    if i < |units| {
      UnitsLayout(units, i);
      assert units[i] in units;
    }
  }

  lemma {:induction false} UnitsLayout(units: seq<nat>, i: nat)
    requires i < |units|
    ensures EncUnits(units)[2 * i] == units[i] % 256 && EncUnits(units)[2 * i + 1] == units[i] / 256 % 256
    decreases units
  {
    if i == 0 {
      assert ToLE(units[0], 2)[1] == units[0] / 256 % 256;
    } else {
      UnitsLayout(units[1..], i - 1);
    }
  }

  /** A plain array: its length, the elements back to back, and zeros to a multiple of four;
      a null one is the word -1. */
  lemma PlainLayout(width: nat, items: Elements, i: nat)
    requires width > 0 && AllOf(items, width) && |items| <= I32_MAX
    ensures EncArray(ArrayValue.Plain(width, None)) == EncI32(-1)
    ensures var e := EncArray(ArrayValue.Plain(width, Some(items)));
            && DecI32(e[..4]) == |items|
            && |e| == 4 + PadSize(|items| * width)
            && (i < |items| ==> 0 <= i * width <= (i + 1) * width && 4 + (i + 1) * width <= |e| && e[4 + i * width..4 + (i + 1) * width] == items[i])
            && (4 + |items| * width <= i < |e| ==> e[i] == 0)
  {
    hide EncI32, DecI32, Flatten;
    var e := EncArray(ArrayValue.Plain(width, Some(items)));
    assert e[..4] == EncI32(|items|);
    FlattenLength(items, width);
    if i < |items| {
      ElementLayout(items, width, i);
      var from, to := i * width, (i + 1) * width;
      assert e[4 + from..4 + to] == Flatten(items)[from..to];
    }
  }

  lemma {:induction false} ElementLayout(items: Elements, width: nat, i: nat)
    requires AllOf(items, width) && i < |items|
    ensures 0 <= i * width <= (i + 1) * width <= |Flatten(items)| && Flatten(items)[i * width..(i + 1) * width] == items[i]
    decreases items
  {
    FlattenLength(items, width);
    if i > 0 {
      ElementLayout(items[1..], width, i - 1);
      var from, to := (i - 1) * width, i * width;
      assert i * width == from + width && (i + 1) * width == to + width;
      assert Flatten(items)[from + width..to + width] == Flatten(items[1..])[from..to];
    }
  }

  /** A character array: its length, then one word for each character. */
  lemma CharsLayout(signed: bool, cs: seq<i32>, i: nat)
    requires Chars(signed, Some(cs)).Valid()
    ensures EncArray(Chars(signed, None)) == EncI32(-1)
    ensures var e := EncArray(Chars(signed, Some(cs)));
            && DecI32(e[..4]) == |cs| && |e| == 4 + 4 * |cs|
            && (i < |cs| ==> DecI32(e[4 + 4 * i..8 + 4 * i]) == cs[i])
  {
    hide EncI32, DecI32, EncWords, Narrow;
    var e := EncArray(Chars(signed, Some(cs)));
    assert e[..4] == EncI32(|cs|);
    if i < |cs| {
      WordsLayout(cs, i);
      assert e[4 + 4 * i..8 + 4 * i] == EncWords(cs)[4 * i..4 * i + 4];
    }
  }

  lemma {:induction false} WordsLayout(cs: seq<i32>, i: nat)
    requires i < |cs|
    ensures EncWords(cs)[4 * i..4 * i + 4] == EncI32(cs[i])
    decreases cs
  {
    hide EncI32;
    if i > 0 {
      WordsLayout(cs[1..], i - 1);
      assert EncWords(cs)[4 * i..4 * i + 4] == EncWords(cs[1..])[4 * i - 4..4 * i];
    }
  }

  /** A character read from any word is the one of its 16 bits. */
  lemma NarrowExact(signed: bool, v: i32)
    ensures (v - Narrow(signed, v)) % 0x1_0000 == 0
    ensures if signed then -0x8000 <= Narrow(signed, v) < 0x8000 else 0 <= Narrow(signed, v) < 0x1_0000
  {
  }

  // ----- parcelables -----

  /** Values in a row: each starts where the one before it ends. */
  lemma {:induction false} RowLayout(s: Schema, tys: seq<FieldType>, vs: seq<Value>, i: nat)
    requires TypedAll(s, tys, vs) && i < |vs|
    ensures TypedAll(s, tys[..i], vs[..i]) && Typed(s, tys[i], vs[i])
    ensures var at := |EncSeq(s, tys[..i], vs[..i])|;
            Slice(EncSeq(s, tys, vs), at, Enc(s, tys[i], vs[i]))
    decreases vs
  {
    hide Enc, Typed;
    if i > 0 {
      RowLayout(s, tys[1..], vs[1..], i - 1);
      assert tys[..i][1..] == tys[1..][..i - 1] && vs[..i][1..] == vs[1..][..i - 1];
      SliceAfter(Enc(s, tys[0], vs[0]), EncSeq(s, tys[1..], vs[1..]), |EncSeq(s, tys[1..][..i - 1], vs[1..][..i - 1])|, Enc(s, tys[i], vs[i]));
    }
  }

  predicate Slice(s: seq<byte>, at: nat, e: seq<byte>) {
    at + |e| <= |s| && s[at..at + |e|] == e
  }

  lemma SliceAfter(a: seq<byte>, b: seq<byte>, at: nat, e: seq<byte>)
    requires Slice(b, at, e)
    ensures Slice(a + b, |a| + at, e)
  {
    assert (a + b)[|a| + at..|a| + at + |e|] == b[at..at + |e|];
  }

  /** A block: the size of the whole, then its fields in order. */
  lemma BlockLayout(s: Schema, tys: seq<FieldType>, vs: seq<Value>, i: nat)
    requires TypedAll(s, tys, vs) && |EncBlock(s, tys, vs)| <= I32_MAX
    ensures DecI32(EncBlock(s, tys, vs)[..4]) == |EncBlock(s, tys, vs)|
    ensures i < |vs| ==>
              && TypedAll(s, tys[..i], vs[..i]) && Typed(s, tys[i], vs[i])
              && Slice(EncBlock(s, tys, vs), 4 + |EncSeq(s, tys[..i], vs[..i])|, Enc(s, tys[i], vs[i]))
  {
    hide Enc, EncSeq, EncI32, DecI32, Typed, TypedAll;
    var body := EncSeq(s, tys, vs);
    assert EncBlock(s, tys, vs)[..4] == EncI32(4 + |body|);
    if i < |vs| {
      SameCount(s, tys, vs);
      RowLayout(s, tys, vs, i);
      SliceAfter(Word(4 + |body|), body, |EncSeq(s, tys[..i], vs[..i])|, Enc(s, tys[i], vs[i]));
    }
  }

  lemma SameCount(s: Schema, tys: seq<FieldType>, vs: seq<Value>)
    requires TypedAll(s, tys, vs)
    ensures |tys| == |vs|
  {
  }

  /** A nested parcelable is a flag and its block, a list its length and its elements; null is
      the flag 0 or the length -1. */
  lemma ValueLayout(s: Schema, ty: FieldType, v: Value)
    requires Typed(s, ty, v)
    ensures ty.Nested? ==>
              if v.Null? then Enc(s, ty, v) == EncI32(0)
              else Enc(s, ty, v) == EncI32(1) + EncBlock(s, TypesOf(s.types[ty.name]), v.fields)
    ensures ty.Structs? ==>
              if v.Null? then Enc(s, ty, v) == EncI32(-1)
              else DecI32(Enc(s, ty, v)[..4]) == |v.elems|
    ensures ty.Pod? ==> Slice(Enc(s, ty, v), 0, v.bytes) && |Enc(s, ty, v)| == PadSize(ty.width)
  {
    hide EncI32, DecI32, EncBlock, EncSeq;
    if ty.Structs? && v.Many? {
      assert Enc(s, ty, v)[..4] == EncI32(|v.elems|);
    }
  }

  /** A holder: its stability, the size of its payload, and the payload; a live payload is the
      descriptor and the block. */
  lemma HolderLayout(s: Schema, level: Stability, c: Holding)
    requires WellTyped(s, c) && |Payload(s, c)| <= I32_MAX
    ensures var e := EncHolder(s, level.Repr(), c);
            && DecI32(e[..4]) == (if level.Vintf? then 1 else 0)
            && DecI32(e[4..8]) == |Payload(s, c)|
            && e[8..] == Payload(s, c)
    ensures c.Empty? ==> Payload(s, c) == []
    ensures c.Live? ==> Slice(Payload(s, c), 0, EncText(c.ty.descriptor))
  {
    hide EncI32, DecI32, EncText, EncBlock;
    var p := Payload(s, c);
    var e := EncHolder(s, level.Repr(), c);
    assert e[..4] == EncI32(level.Repr());
    assert e[4..8] == EncI32(|p|);
  }

  /** A descriptor sent out of band: present, then, where positions are recorded, no second
      channel and the type, and last its index. */
  lemma FdBodyLayout(record: bool, index: i32)
    ensures var e := FdBody(record, index);
            && DecI32(e[..4]) == 1 && DecI32(e[|e| - 4..]) == index
            && (record ==> DecI32(e[4..8]) == 0 && DecI32(e[8..12]) == 2)
  {
    hide EncI32, DecI32;
    var e := FdBody(record, index);
    assert e[..4] == EncI32(1) && e[|e| - 4..] == EncI32(index);
    if record {
      assert e[4..8] == EncI32(0) && e[8..12] == EncI32(2);
    }
  }

  // ----- well-formed strings -----

  predicate HighSurrogate(u: nat) {
    0xd800 <= u < 0xdc00
  }

  predicate LowSurrogate(u: nat) {
    0xdc00 <= u < 0xe000
  }

  /** Every unit is 16 bits, and surrogates come in pairs, the high one first. */
  ghost predicate Paired(units: seq<nat>) {
    && (forall i :: 0 <= i < |units| ==> units[i] < 0x1_0000)
    && (forall i :: 0 <= i < |units| && HighSurrogate(units[i]) ==> i + 1 < |units| && LowSurrogate(units[i + 1]))
    && (forall i :: 0 <= i < |units| && LowSurrogate(units[i]) ==> i > 0 && HighSurrogate(units[i - 1]))
  }

  lemma {:induction false} Utf16Exact(units: seq<nat>)
    ensures ValidUtf16(units) <==> Paired(units)
    decreases units
  {
    if units != [] {
      if HighSurrogate(units[0]) && |units| > 1 && LowSurrogate(units[1]) {
        Utf16Exact(units[2..]);
        PairedSkip(units, 2);
      } else if units[0] < 0x1_0000 && !HighSurrogate(units[0]) && !LowSurrogate(units[0]) {
        Utf16Exact(units[1..]);
        PairedSkip(units, 1);
      }
    }
  }

  lemma PairedSkip(units: seq<nat>, n: nat)
    requires 0 < n <= |units| && !HighSurrogate(units[n - 1]) && Paired(units[..n])
    ensures Paired(units) <==> Paired(units[n..])
  {
    if Paired(units[n..]) {
      forall i | 0 <= i < |units|
        ensures units[i] < 0x1_0000
        ensures HighSurrogate(units[i]) ==> i + 1 < |units| && LowSurrogate(units[i + 1])
        ensures LowSurrogate(units[i]) ==> i > 0 && HighSurrogate(units[i - 1])
      {
        if i < n {
          assert units[..n][i] == units[i];
        } else {
          assert units[n..][i - n] == units[i];
        }
      }
    }
    if Paired(units) {
      forall i | 0 <= i < |units| - n
        ensures units[n..][i] < 0x1_0000
        ensures HighSurrogate(units[n..][i]) ==> i + 1 < |units| - n && LowSurrogate(units[n..][i + 1])
        ensures LowSurrogate(units[n..][i]) ==> i > 0 && HighSurrogate(units[n..][i - 1])
      {
        assert units[n..][i] == units[n + i];
      }
    }
  }
}
