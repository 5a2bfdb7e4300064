/** Arrays on the wire: a length word, then the elements back to back and padded,
    or one word per element for character arrays.  `-1` is the null array. */
module ArrayWire {
  import opened Wire

  type Elements = seq<seq<byte>>

  predicate AllOf(items: Elements, width: nat) {
    forall i :: 0 <= i < |items| ==> |items[i]| == width
  }

  function Flatten(items: Elements): (s: seq<byte>)
  {
    if items == [] then [] else items[0] + Flatten(items[1..])
  }

  /** Cut `n` elements of `width` bytes off the front of `s`. */
  function Chunks(s: seq<byte>, width: nat, n: nat): (items: Elements)
    requires |s| == n * width
    ensures |items| == n && AllOf(items, width)
    decreases n
  {
    if n == 0 then []
    else
      Product(n, width);
      [s[..width]] + Chunks(s[width..], width, n - 1)
  }

  lemma Product(n: nat, width: nat)
    requires n > 0
    ensures n * width == (n - 1) * width + width && 0 <= (n - 1) * width
  {
  }

  lemma {:induction false} FlattenLength(items: Elements, width: nat)
    requires AllOf(items, width)
    ensures |Flatten(items)| == |items| * width
  {
    if items != [] {
      FlattenLength(items[1..], width);
      Product(|items|, width);
    }
  }

  lemma {:induction false} ChunksFlatten(items: Elements, width: nat)
    requires AllOf(items, width)
    ensures |Flatten(items)| == |items| * width && Chunks(Flatten(items), width, |items|) == items
  {
    FlattenLength(items, width);
    if items != [] {
      ChunksFlatten(items[1..], width);
      Product(|items|, width);
      assert Flatten(items)[width..] == Flatten(items[1..]);
    }
  }

  lemma {:induction false} FlattenChunks(s: seq<byte>, width: nat, n: nat)
    requires |s| == n * width
    ensures Flatten(Chunks(s, width, n)) == s
    decreases n
  {
    if n > 0 {
      Product(n, width);
      FlattenChunks(s[width..], width, n - 1);
    }
  }

  // ----- what is written -----

  /** An array argument: plain elements of one width, or 16-bit characters. */
  datatype ArrayValue =
    | Plain(width: nat, items: Option<Elements>)
    | Chars(signed: bool, chars: Option<seq<i32>>)
  {
    /** Elements have the declared width, characters are in range, and the count fits its word. */
    predicate Valid() {
      match this
      case Plain(w, Some(items)) => w > 0 && AllOf(items, w) && |items| <= I32_MAX
      case Chars(s, Some(cs)) => |cs| <= I32_MAX && forall c <- cs :: Narrow(s, c) == c
      case _ => true
    }
  }

  /** `CharType::from`: the low 16 bits of a word, as `i16` or `u16`. */
  function Narrow(signed: bool, v: i32): (c: i32)
  {
    var low := v % 0x1_0000;
    if signed && low >= 0x8000 then low - 0x1_0000 else low
  }

  function EncWords(cs: seq<i32>): (s: seq<byte>)
    ensures |s| == 4 * |cs|
  {
    if cs == [] then [] else EncI32(cs[0]) + EncWords(cs[1..])
  }

  function EncArray(v: ArrayValue): (s: seq<byte>)
    requires v.Valid()
  {
    match v
    case Plain(_, Some(items)) => EncI32(|items|) + Padded(Flatten(items))
    case Chars(_, Some(cs)) => EncI32(|cs|) + EncWords(cs)
    case _ => EncI32(-1)
  }

  // ----- what is read -----

  /** `checked_array_layout` for a `usize` whose largest value is `usizeMax`. */
  function CheckedLayout(usizeMax: nat, len: nat, elemSize: nat): (r: Result<(nat, nat)>)
    ensures r.Ok? ==> r.value == (len * elemSize, PadSize(len * elemSize)) && len * elemSize + 3 <= usizeMax
    ensures r.Err? ==> r.status == BadValue && len * elemSize + 3 > usizeMax
  {
    var size := len * elemSize;
    if size > usizeMax then Err(BadValue)
    else if size + 3 > usizeMax then Err(BadValue)
    else Ok((size, (size + 3) / 4 * 4))
  }

  /** The part `read_array` and `read_array_char` share: the length word, the layout
      check and the raw element bytes, with the cursor after the padding. */
  function ReadRaw(usizeMax: nat, data: seq<byte>, pos: nat, elemSize: nat): (r: Result<(Option<(nat, seq<byte>)>, nat)>)
    ensures r.Ok? && r.value.0.None? ==> r.value.1 == pos + 4 <= |data|
    ensures r.Ok? && r.value.0.Some? ==>
              var (n, raw) := r.value.0.value;
              && |raw| == n * elemSize
              && (n > 0 ==> |raw| + 3 <= usizeMax)
              && r.value.1 == pos + 4 + PadSize(|raw|) <= |data|
              && raw == data[pos + 4..pos + 4 + |raw|]
              && DecI32(data[pos..pos + 4]) == n
  {
    var len :- ReadI32(data, pos);
    if len < -1 then Err(UnexpectedNull)
    else if len == -1 then Ok((None, pos + 4))
    else if len == 0 then Ok((Some((0, [])), pos + 4))
    else
      var (size, padded) :- CheckedLayout(usizeMax, len, elemSize);
      var avail :- DataAvail(|data|, pos + 4);
      if padded > avail then Err(NotEnoughData)
      else Ok((Some((len, data[pos + 4..pos + 4 + size])), pos + 4 + padded))
  }

  function DecWords(s: seq<byte>, n: nat): (cs: seq<i32>)
    requires |s| == 4 * n
    ensures |cs| == n
  {
    if n == 0 then [] else [DecI32(s[..4])] + DecWords(s[4..], n - 1)
  }

  function NarrowAll(signed: bool, cs: seq<i32>): (r: seq<i32>)
    ensures |r| == |cs|
  {
    seq(|cs|, i requires 0 <= i < |cs| => Narrow(signed, cs[i]))
  }

  /** Read an array of the same shape as `like`. */
  function ReadLike(usizeMax: nat, data: seq<byte>, pos: nat, like: ArrayValue): (r: Result<(ArrayValue, nat)>)
  {
    match like
    case Plain(w, _) =>
      var (raw, next) :- ReadRaw(usizeMax, data, pos, w);
      Ok((Plain(w, if raw.None? then None else Some(Chunks(raw.value.1, w, raw.value.0))), next))
    case Chars(s, _) =>
      var (raw, next) :- ReadRaw(usizeMax, data, pos, 4);
      Ok((Chars(s, if raw.None? then None else Some(NarrowAll(s, DecWords(raw.value.1, raw.value.0)))), next))
  }

  // ----- round trips -----

  lemma {:induction false} DecEncWords(cs: seq<i32>)
    ensures DecWords(EncWords(cs), |cs|) == cs
  {
    if cs != [] {
      DecEncWords(cs[1..]);
      assert EncWords(cs)[..4] == EncI32(cs[0]) && EncWords(cs)[4..] == EncWords(cs[1..]);
    }
  }

  /** Reading back a length word and `raw` bytes of elements. */
  lemma ReadRawBack(usizeMax: nat, data: seq<byte>, pos: nat, elemSize: nat, n: nat, raw: seq<byte>)
    requires usizeMax >= |data| - pos && n <= I32_MAX && |raw| == n * elemSize
    requires pos + 4 + PadSize(|raw|) <= |data| && |data| - pos < I32_MAX
    requires data[pos..pos + 4] == EncI32(n) && data[pos + 4..pos + 4 + |raw|] == raw
    ensures ReadRaw(usizeMax, data, pos, elemSize) == Ok((Some((n, raw)), pos + 4 + PadSize(|raw|)))
  {
    hide EncI32, DecI32, CheckedLayout;
    if n == 0 {
      assert raw == [];
    } else {
      assert CheckedLayout(usizeMax, n, elemSize) == Ok((|raw|, PadSize(|raw|)));
    }
  }

  lemma HeadAndRest(data: seq<byte>, pos: nat, a: seq<byte>, b: seq<byte>)
    requires pos + |a| + |b| <= |data| && data[pos..pos + |a + b|] == a + b
    ensures data[pos..pos + |a|] == a && data[pos + |a|..pos + |a| + |b|] == b
  {
    assert data[pos..pos + |a|] == data[pos..pos + |a + b|][..|a|];
    assert data[pos + |a|..pos + |a| + |b|] == data[pos..pos + |a + b|][|a|..];
  }

  lemma ReadPlainBack(usizeMax: nat, data: seq<byte>, pos: nat, w: nat, items: Elements)
    requires Plain(w, Some(items)).Valid() && |data| - pos <= usizeMax && |data| - pos < I32_MAX
    requires var enc := EncI32(|items|) + Padded(Flatten(items));
             pos + |enc| <= |data| && data[pos..pos + |enc|] == enc
    ensures ReadLike(usizeMax, data, pos, Plain(w, None)) ==
            Ok((Plain(w, Some(items)), pos + 4 + PadSize(|Flatten(items)|)))
  {
    hide EncI32, DecI32, ReadRaw, Flatten, Chunks, Padded;
    var raw, enc := Flatten(items), EncI32(|items|) + Padded(Flatten(items));
    ChunksFlatten(items, w);
    HeadAndRest(data, pos, EncI32(|items|), Padded(raw));
    assert data[pos + 4..pos + 4 + |raw|] == data[pos + 4..pos + |enc|][..|raw|];
    ReadRawBack(usizeMax, data, pos, w, |items|, raw);
  }

  lemma ReadCharsBack(usizeMax: nat, data: seq<byte>, pos: nat, signed: bool, cs: seq<i32>)
    requires Chars(signed, Some(cs)).Valid() && |data| - pos <= usizeMax && |data| - pos < I32_MAX
    requires var enc := EncI32(|cs|) + EncWords(cs);
             pos + |enc| <= |data| && data[pos..pos + |enc|] == enc
    ensures ReadLike(usizeMax, data, pos, Chars(signed, None)) ==
            Ok((Chars(signed, Some(cs)), pos + 4 + |EncWords(cs)|))
  {
    hide EncI32, DecI32, ReadRaw, EncWords, DecWords;
    var raw, enc := EncWords(cs), EncI32(|cs|) + EncWords(cs);
    DecEncWords(cs);
    HeadAndRest(data, pos, EncI32(|cs|), raw);
    ReadRawBack(usizeMax, data, pos, 4, |cs|, raw);
    assert NarrowAll(signed, cs) == cs;
  }

  lemma ReadBack(usizeMax: nat, data: seq<byte>, pos: nat, v: ArrayValue)
    requires v.Valid() && |data| - pos <= usizeMax && |data| - pos < I32_MAX
    requires pos + |EncArray(v)| <= |data| && data[pos..pos + |EncArray(v)|] == EncArray(v)
    ensures ReadLike(usizeMax, data, pos, v) == Ok((v, pos + |EncArray(v)|))
  {
    hide EncI32, DecI32, EncWords, DecWords, Chunks, Flatten, Padded;
    match v
    case Plain(w, Some(items)) => ReadPlainBack(usizeMax, data, pos, w, items);
    case Chars(s, Some(cs)) => ReadCharsBack(usizeMax, data, pos, s, cs);
    case _ => assert DecI32(data[pos..pos + 4]) == -1;
  }

  /** The other way round: on arbitrary bytes, what a successful read returns encodes to the
      bytes it took, up to the pad. */
  lemma ReadReencodes(usizeMax: nat, data: seq<byte>, pos: nat, w: nat)
    requires w > 0 && ReadLike(usizeMax, data, pos, Plain(w, None)).Ok?
    ensures var (v, next) := ReadLike(usizeMax, data, pos, Plain(w, None)).value;
            && v.Plain? && v.Valid() && pos + |EncArray(v)| == next <= |data|
            && match v.items
               case None => data[pos..next] == EncArray(v)
               case Some(items) =>
                 var size := |Flatten(items)|;
                 next - (pos + 4 + size) < 4 && data[pos..pos + 4 + size] == EncArray(v)[..4 + size]
  {
    hide DecI32, EncI32, Flatten, Chunks, Padded;
    var (raw, next) := ReadRaw(usizeMax, data, pos, w).value;
    EncDecI32(data[pos..pos + 4]);
    if raw.Some? {
      var (n, bytes) := raw.value;
      FlattenChunks(bytes, w, n);
      var enc := EncI32(n) + Padded(bytes);
      assert enc[..4 + |bytes|] == EncI32(n) + bytes by {
        assert enc[4..4 + |bytes|] == Padded(bytes)[..|bytes|];
      }
      assert data[pos..pos + 4 + |bytes|] == data[pos..pos + 4] + data[pos + 4..pos + 4 + |bytes|];
    }
  }

  function EncAll(vs: seq<ArrayValue>): (s: seq<byte>)
    requires forall v <- vs :: v.Valid()
  {
    if vs == [] then [] else EncArray(vs[0]) + EncAll(vs[1..])
  }

  function ReadAllLike(usizeMax: nat, data: seq<byte>, pos: nat, likes: seq<ArrayValue>): (r: Result<(seq<ArrayValue>, nat)>)
    decreases likes
  {
    if likes == [] then Ok(([], pos))
    else
      var (v, p) :- ReadLike(usizeMax, data, pos, likes[0]);
      var (vs, q) :- ReadAllLike(usizeMax, data, p, likes[1..]);
      Ok(([v] + vs, q))
  }

  /** At any word size that can hold the buffer: any sequence of plain and character arrays,
      null and empty ones included, reads back equal, and the reader stops exactly where
      the writer stopped. */
  lemma {:induction false} ArraysRoundTrip(usizeMax: nat, data: seq<byte>, pos: nat, vs: seq<ArrayValue>)
    requires (forall v <- vs :: v.Valid()) && |data| - pos <= usizeMax && |data| - pos < I32_MAX
    requires pos + |EncAll(vs)| <= |data| && data[pos..pos + |EncAll(vs)|] == EncAll(vs)
    ensures ReadAllLike(usizeMax, data, pos, vs) == Ok((vs, pos + |EncAll(vs)|))
    decreases vs
  {
    hide EncArray, ReadLike, ArrayValue.Valid;
    if vs != [] {
      var a, b := EncArray(vs[0]), EncAll(vs[1..]);
      assert data[pos..pos + |a|] == data[pos..pos + |a| + |b|][..|a|];
      assert data[pos + |a|..pos + |a| + |b|] == data[pos..pos + |a| + |b|][|a|..];
      ReadBack(usizeMax, data, pos, vs[0]);
      ArraysRoundTrip(usizeMax, data, pos + |a|, vs[1..]);
      assert [vs[0]] + vs[1..] == vs;
    }
  }
}
