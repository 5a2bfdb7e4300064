/** The byte level of the wire: status codes, little-endian words, four-byte
    padding, and the effect of writing a run of bytes at a cursor. */
module Wire {

  type byte = b: int | 0 <= b < 256
  const I32_MIN: int := -0x8000_0000
  const I32_MAX: nat := 0x7fff_ffff
  type i32 = v: int | I32_MIN <= v <= I32_MAX witness 0

  /** Truncation to `i32`: the representative of `v` modulo 2^32. */
  function Wrap32(v: int): (r: i32)
  {
    (v - I32_MIN) % 0x1_0000_0000 + I32_MIN
  }

  /** The status codes the modelled operations return.  `Panicked` stands for a
      failed `assert!`, so that no input has to be excluded. */
  datatype StatusCode =
    | BadValue
    | NotEnoughData
    | UnexpectedNull
    | BadType
    | InvalidOperation
    | OsError
    | Panicked

  datatype Option<+T> = None | Some(value: T)

  datatype Result<+T> = Ok(value: T) | Err(status: StatusCode) {
    predicate IsFailure() {
      Err?
    }

    function PropagateFailure<U>(): Result<U>
      requires Err?
    {
      Err(status)
    }

    function Extract(): T
      requires Ok?
    {
      value
    }
  }

  // ----- little-endian words -----

  function Pow256(n: nat): (p: nat)
    ensures p >= 1
  {
    if n == 0 then 1 else 256 * Pow256(n - 1)
  }

  function ToLE(v: nat, width: nat): (s: seq<byte>)
    ensures |s| == width
  {
    if width == 0 then [] else [v % 256] + ToLE(v / 256, width - 1)
  }

  function FromLE(s: seq<byte>): (v: nat)
  {
    if s == [] then 0 else s[0] + 256 * FromLE(s[1..])
  }

  lemma {:induction false} FromToLE(v: nat, width: nat)
    requires v < Pow256(width)
    ensures FromLE(ToLE(v, width)) == v
  {
    if width > 0 {
      FromToLE(v / 256, width - 1);
      assert ToLE(v, width)[1..] == ToLE(v / 256, width - 1);
    }
  }

  lemma {:induction false} ToFromLE(s: seq<byte>)
    ensures FromLE(s) < Pow256(|s|)
    ensures ToLE(FromLE(s), |s|) == s
  {
    if s != [] {
      ToFromLE(s[1..]);
      assert FromLE(s) / 256 == FromLE(s[1..]);
    }
  }

  function EncI32(v: i32): (s: seq<byte>)
    ensures |s| == 4
    ensures DecI32(s) == v
  {
    var u: nat := if v < 0 then v + 0x1_0000_0000 else v;
    assert Pow256(4) == 0x1_0000_0000;
    FromToLE(u, 4);
    ToLE(u, 4)
  }

  function DecI32(s: seq<byte>): (v: i32)
    requires |s| == 4
  {
    assert Pow256(4) == 0x1_0000_0000;
    ToFromLE(s);
    var u := FromLE(s);
    if u > I32_MAX then u - 0x1_0000_0000 else u
  }

  lemma EncDecI32(s: seq<byte>)
    requires |s| == 4
    ensures EncI32(DecI32(s)) == s
  {
    assert Pow256(4) == 0x1_0000_0000;
    ToFromLE(s);
  }

  // ----- padding and overlays -----

  /** `pad_size`: the next multiple of four. */
  function PadSize(n: nat): (p: nat)
    ensures n <= p < n + 4 && p % 4 == 0
  {
    (n + 3) / 4 * 4
  }

  function Zeros(n: nat): (s: seq<byte>)
    ensures |s| == n && forall i :: 0 <= i < n ==> s[i] == 0
  {
    seq(n, _ => 0)
  }

  function Padded(d: seq<byte>): (s: seq<byte>)
    ensures |s| == PadSize(|d|) && s[..|d|] == d
  {
    d + Zeros(PadSize(|d|) - |d|)
  }

  /** What buffer `s` becomes when `d` is written at `pos`: a gap between the old
      end and the cursor reads as zeros, and nothing outside `d` is touched. */
  function Overlay(s: seq<byte>, pos: nat, d: seq<byte>): (r: seq<byte>)
    ensures |r| == if pos + |d| > |s| then pos + |d| else |s|
    ensures r[pos..pos + |d|] == d
    ensures forall i :: 0 <= i < pos && i < |s| ==> r[i] == s[i]
    ensures forall i :: |s| <= i < pos ==> r[i] == 0
    ensures forall i :: pos + |d| <= i < |s| ==> r[i] == s[i]
  {
    var base := if pos > |s| then s + Zeros(pos - |s|) else s;
    base[..pos] + d + if pos + |d| < |base| then base[pos + |d|..] else []
  }

  lemma OverlayAppend(s: seq<byte>, pos: nat, a: seq<byte>, b: seq<byte>)
    ensures Overlay(Overlay(s, pos, a), pos + |a|, b) == Overlay(s, pos, a + b)
  {
    var l, r := Overlay(Overlay(s, pos, a), pos + |a|, b), Overlay(s, pos, a + b);
    forall i | 0 <= i < |r|
      ensures l[i] == r[i]
    {
      if pos <= i < pos + |a| + |b| {
        assert r[i] == r[pos..pos + |a + b|][i - pos];
        if i < pos + |a| {
          assert Overlay(s, pos, a)[i] == Overlay(s, pos, a)[pos..pos + |a|][i - pos];
        } else {
          assert l[i] == l[pos + |a|..pos + |a| + |b|][i - pos - |a|];
        }
      }
    }
  }

  /** Back-patching the head of a written run is the same as having written the
      right head in the first place. */
  lemma OverlayPatch(s: seq<byte>, pos: nat, a: seq<byte>, b: seq<byte>, a': seq<byte>)
    requires |a| == |a'|
    ensures Overlay(Overlay(s, pos, a + b), pos, a') == Overlay(s, pos, a' + b)
  {
    var m, l, r := Overlay(s, pos, a + b), Overlay(Overlay(s, pos, a + b), pos, a'), Overlay(s, pos, a' + b);
    forall i | 0 <= i < |r|
      ensures l[i] == r[i]
    {
      if pos <= i < pos + |a| + |b| {
        assert r[i] == r[pos..pos + |a' + b|][i - pos];
        assert m[i] == m[pos..pos + |a + b|][i - pos];
        if i < pos + |a| {
          assert l[i] == l[pos..pos + |a'|][i - pos];
        }
      }
    }
  }

  // ----- pure readers over a byte buffer and a cursor -----

  /** `data_avail`, with its size assertion. */
  function DataAvail(n: nat, pos: nat): (r: Result<nat>)
  {
    var avail := if pos < n then n - pos else 0;
    if avail < I32_MAX then Ok(avail) else Err(Panicked)
  }

  /** `read_aligned_data`: `len` bytes at the cursor; the cursor then moves by the padded size. */
  function ReadAligned(data: seq<byte>, pos: nat, len: nat): (r: Result<seq<byte>>)
    ensures r.Ok? ==> |r.value| == len && pos + PadSize(len) <= |data| && r.value == data[pos..pos + len]
  {
    var avail :- DataAvail(|data|, pos);
    if PadSize(len) > avail then Err(NotEnoughData)
    else if pos > |data| then Err(Panicked)  // slicing past the end of the buffer
    else Ok(data[pos..pos + len])
  }

  function ReadI32(data: seq<byte>, pos: nat): (r: Result<i32>)
    ensures r.Ok? ==> pos + 4 <= |data|
  {
    var b :- ReadAligned(data, pos, 4);
    Ok(DecI32(b))
  }

  lemma Regroup<T>(a: seq<T>, b: seq<T>, c: seq<T>)
    ensures a + (b + c) == a + b + c
    ensures b == [] ==> a + b == a
  {
  }
}
