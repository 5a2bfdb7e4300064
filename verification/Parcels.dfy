/** The parcel: a growable buffer with a cursor, an object table and the
    boundary and depth that sized reads maintain. */
module Parcels {
  import opened Wire
  import opened ArrayWire
  import opened Objects
  import opened Rpc

  const MAX_NESTED_READ_DEPTH: nat := 1000

  /** One byte of reserved capacity, which need not have been written yet. */
  datatype Cell = Uninit | Init(b: byte)

  /** `copy_nonoverlapping` into reserved memory. */
  function Blit(mem: seq<Cell>, at: nat, d: seq<byte>): (m: seq<Cell>)
    requires at + |d| <= |mem|
    ensures |m| == |mem|
    ensures forall i :: at <= i < at + |d| ==> m[i] == Init(d[i - at])
    ensures forall i :: 0 <= i < |mem| && !(at <= i < at + |d|) ==> m[i] == mem[i]
  {
    seq(|mem|, i requires 0 <= i < |mem| => if at <= i < at + |d| then Init(d[i - at]) else mem[i])
  }

  ghost predicate Ready(mem: seq<Cell>, len: nat) {
    len <= |mem| && forall i :: 0 <= i < len ==> mem[i].Init?
  }

  function Contents(mem: seq<Cell>, len: nat): (s: seq<byte>)
    requires Ready(mem, len)
    ensures |s| == len && forall i :: 0 <= i < len ==> mem[i] == Init(s[i])
  {
    seq(len, i requires 0 <= i < len && Ready(mem, len) => mem[i].b)
  }

  /** Zero the gap, copy, zero the padding: what the cells below `end` then hold. */
  lemma CopyMeaning(mem: seq<Cell>, len: nat, pos: nat, d: seq<byte>, padded: nat, mem': seq<Cell>)
    requires Ready(mem, len) && |d| <= padded && pos + padded <= |mem| == |mem'|
    requires forall i :: pos <= i < pos + |d| ==> mem'[i] == Init(d[i - pos])
    requires forall i :: pos + |d| <= i < pos + padded ==> mem'[i] == Init(0)
    requires forall i :: len <= i < pos ==> mem'[i] == Init(0)
    requires forall i :: 0 <= i < len && !(pos <= i < pos + padded) ==> mem'[i] == mem[i]
    ensures var len' := if pos + padded > len then pos + padded else len;
            Ready(mem', len') &&
            Contents(mem', len') == Overlay(Contents(mem, len), pos, d + Zeros(padded - |d|))
  {
    var e := d + Zeros(padded - |d|);
    var o := Overlay(Contents(mem, len), pos, e);
    var len' := if pos + padded > len then pos + padded else len;
    forall i | 0 <= i < len'
      ensures mem'[i] == Init(o[i])
    {
      if pos <= i < pos + padded {
        assert o[i] == o[pos..pos + |e|][i - pos];
      }
    }
  }

  /** The scan of `append_from` after `i` entries: `first..last` are the entries inside
      the range, and the entry after them, once seen, ends outside it. */
  ghost predicate Scanned(objects: seq<nat>, i: nat, offset: nat, size: nat, first: int, last: int) {
    && i <= |objects|
    && ((first == -1 && last == -2) || 0 <= first <= last < i)
    && Selected(objects[..i], offset, size) == (if first == -1 then [] else objects[first..last + 1])
    && (first != -1 ==> offset <= objects[first])
    && (first != -1 && last + 1 < i ==> offset + size < objects[last + 1] + FLAT_SIZE)
  }

  lemma SelectedSnoc(objects: seq<nat>, i: nat, offset: nat, size: nat)
    requires i < |objects|
    ensures Selected(objects[..i + 1], offset, size) ==
            Selected(objects[..i], offset, size) + if Inside(objects[i], offset, size) then [objects[i]] else []
  {
    assert objects[..i + 1][..i] == objects[..i];
  }

  lemma ScanStep(objects: seq<nat>, i: nat, offset: nat, size: nat, first: int, last: int)
    requires i < |objects| && Spaced(objects) && Scanned(objects, i, offset, size, first, last)
    ensures if Inside(objects[i], offset, size)
            then Scanned(objects, i + 1, offset, size, if first == -1 then i else first, i)
            else Scanned(objects, i + 1, offset, size, first, last)
  {
    hide Selected, Scanned, Spaced;
    if Inside(objects[i], offset, size) {
      ScanInside(objects, i, offset, size, first, last);
    } else {
      ScanOutside(objects, i, offset, size, first, last);
    }
  }

  lemma ScanOutside(objects: seq<nat>, i: nat, offset: nat, size: nat, first: int, last: int)
    requires i < |objects| && Spaced(objects) && Scanned(objects, i, offset, size, first, last)
    requires !Inside(objects[i], offset, size)
    ensures Scanned(objects, i + 1, offset, size, first, last)
  {
    hide Selected;
    SelectedSnoc(objects, i, offset, size);
    if first != -1 {
      assert objects[first] + FLAT_SIZE <= objects[i];
    }
  }

  lemma ScanInside(objects: seq<nat>, i: nat, offset: nat, size: nat, first: int, last: int)
    requires i < |objects| && Spaced(objects) && Scanned(objects, i, offset, size, first, last)
    requires Inside(objects[i], offset, size)
    ensures Scanned(objects, i + 1, offset, size, if first == -1 then i else first, i)
  {
    hide Selected;
    SelectedSnoc(objects, i, offset, size);
    if first != -1 {
      assert last == i - 1;
      assert objects[first..i + 1] == objects[first..i] + [objects[i]];
    } else {
      assert objects[i..i + 1] == [objects[i]];
    }
  }

  lemma ScanEnds(objects: seq<nat>, i: nat, offset: nat, size: nat, first: int, last: int)
    ensures Scanned(objects, 0, offset, size, -1, -2)
    ensures i == |objects| && Scanned(objects, i, offset, size, first, last) ==>
              && ((first == -1 && last == -2) || 0 <= first <= last < |objects|)
              && Selected(objects, offset, size) == if first == -1 then [] else objects[first..last + 1]
  {
    assert objects[..|objects|] == objects;
  }

  lemma AdoptNothing(p: State, offset: nat, start: nat, answers: seq<Answer>, l: Ledger)
    ensures answers == [] ==> Adopt(p, Relocated([], offset, start), answers, l) == Effect(p, l, Ok(()))
  {
  }

  /** One step of a read closure, as generated readers and their callers write them. */
  datatype ReadStep =
    | Take(n: nat)
    | Jump(pos: nat)
    | StopAtEnd
    | Block(body: seq<ReadStep>)
    | Fail(status: StatusCode)

  /** Where `sized_read` around `body` leaves the cursor. */
  function BlockEnd(data: seq<byte>, pos: nat, depth: nat, body: seq<ReadStep>): (r: Result<nat>)
    ensures r.Ok? ==>
              && depth < MAX_NESTED_READ_DEPTH && pos + 4 <= |data|
              && var size := DecI32(data[pos..pos + 4]);
                 size >= 4 && r.value == pos + size <= |data|
    decreases body, 1
  {
    var size :- Wire.ReadI32(data, pos);
    if size < 4 then Err(BadValue)
    else if pos + size > |data| then Err(NotEnoughData)
    else if depth >= MAX_NESTED_READ_DEPTH then Err(BadValue)
    else
      var _ :- StepsEnd(data, pos + 4, Some(pos + size), depth + 1, body);
      Ok(pos + size)
  }

  /** Where the reads of one closure leave it. */
  function StepsEnd(data: seq<byte>, pos: nat, boundary: Option<nat>, depth: nat, steps: seq<ReadStep>): (r: Result<nat>)
    decreases steps, 0
  {
    if steps == [] then Ok(pos)
    else
      match steps[0]
      case Take(n) =>
        var b :- ReadAligned(data, pos, n);
        StepsEnd(data, pos + PadSize(n), boundary, depth, steps[1..])
      case Jump(p) => StepsEnd(data, p, boundary, depth, steps[1..])
      case StopAtEnd =>
        if pos < (if boundary.Some? then boundary.value else |data|) then StepsEnd(data, pos, boundary, depth, steps[1..])
        else Ok(pos)
      case Block(body) =>
        var end :- BlockEnd(data, pos, depth, body);
        StepsEnd(data, end, boundary, depth, steps[1..])
      case Fail(s) => Err(s)
  }

  /** A guard ends the closure, cursor in place, exactly at or past the end of the innermost
      block, or of the buffer outside any. */
  lemma GuardStops(data: seq<byte>, pos: nat, boundary: Option<nat>, depth: nat, rest: seq<ReadStep>)
    ensures var end := if boundary.Some? then boundary.value else |data|;
            StepsEnd(data, pos, boundary, depth, [StopAtEnd] + rest) ==
            if pos >= end then Ok(pos) else StepsEnd(data, pos, boundary, depth, rest)
  {
    assert ([StopAtEnd] + rest)[1..] == rest;
  }

  /** Blocks within blocks: a chain of `n` is read to its end exactly when the depth allows. */
  function Nest(n: nat): seq<ReadStep> {
    if n == 0 then [] else [Block(Nest(n - 1))]
  }

  /** Every size word of the chain is sound: it covers itself and stays in the buffer. */
  predicate NestedWords(data: seq<byte>, pos: nat, n: nat)
    decreases n
  {
    n == 0 ||
    (&& pos + 4 <= |data|
     && var size := DecI32(data[pos..pos + 4]);
        4 <= size && pos + size <= |data| && |data| - pos < I32_MAX && NestedWords(data, pos + 4, n - 1))
  }

  lemma {:induction false} NestAccepted(data: seq<byte>, pos: nat, boundary: Option<nat>, depth: nat, n: nat)
    requires n > 0 && depth <= MAX_NESTED_READ_DEPTH && NestedWords(data, pos, n)
    ensures StepsEnd(data, pos, boundary, depth, Nest(n)) ==
            if depth + n <= MAX_NESTED_READ_DEPTH then Ok(pos + DecI32(data[pos..pos + 4])) else Err(BadValue)
    decreases n
  {
    hide DecI32;
    var size := DecI32(data[pos..pos + 4]);
    assert Wire.ReadI32(data, pos) == Ok(size);
    assert Nest(n)[1..] == [];
    if n > 1 && depth < MAX_NESTED_READ_DEPTH {
      NestAccepted(data, pos + 4, Some(pos + size), depth + 1, n - 1);
    }
    assert BlockEnd(data, pos, depth, Nest(n - 1)) ==
           if depth + n <= MAX_NESTED_READ_DEPTH then Ok(pos + size) else Err(BadValue);
  }

  lemma {:induction false} Fewer(items: Elements, width: nat)
    requires width > 0 && AllOf(items, width)
    ensures |items| <= |Flatten(items)|
  {
    if items != [] {
      Fewer(items[1..], width);
    }
  }

  lemma EmptyArray(width: nat, items: Elements)
    requires width > 0 && items == []
    ensures EncArray(Plain(width, Some(items))) == EncI32(0)
  {
    assert Padded(Flatten([])) == [];
  }

  lemma NothingOver(s: seq<byte>, pos: nat)
    requires pos <= |s|
    ensures Overlay(s, pos, []) == s
  {
  }

  lemma NoWords(head: seq<byte>, cs: seq<i32>)
    ensures head + EncWords(cs[..0]) == head
  {
    assert cs[..0] == [];
  }

  lemma {:induction false} EncWordsSnoc(head: seq<byte>, cs: seq<i32>, i: nat)
    requires i < |cs|
    ensures head + EncWords(cs[..i]) + EncI32(cs[i]) == head + EncWords(cs[..i + 1])
    decreases i
  {
    hide EncI32;
    WordsSnoc(cs, i);
  }

  lemma {:induction false} WordsSnoc(cs: seq<i32>, i: nat)
    requires i < |cs|
    ensures EncWords(cs[..i + 1]) == EncWords(cs[..i]) + EncI32(cs[i])
    decreases i
  {
    hide EncI32;
    if i == 0 {
      assert cs[..1] == [cs[0]] && cs[..1][1..] == [] && cs[..0] == [];
    } else {
      WordsSnoc(cs[1..], i - 1);
      assert cs[..i + 1][1..] == cs[1..][..i] && cs[..i][1..] == cs[1..][..i - 1];
    }
  }

  /** The process-wide counters and descriptors. */
  class Process {
    var ledger: Ledger

    constructor (ledger: Ledger)
      ensures this.ledger == ledger
    {
      this.ledger := ledger;
    }

    method Acquire(f: Flat, a: Answer) returns (r: Result<()>)
      modifies this
      ensures match Objects.Acquire(f, a, old(ledger))
              case Ok(l) => r == Ok(()) && ledger == l
              case Err(s) => r == Err(s) && ledger == old(ledger)
      ensures ledger == if f.kind == BINDER_TYPE_BINDER && f.binder != 0 then old(ledger).Add(multiset{Publish(f.binder)}) else old(ledger)
    {
      if f.kind == BINDER_TYPE_BINDER {
        if f.binder != 0 {
          ledger := ledger.Add(multiset{Publish(f.binder)});
        }
        r := Ok(());
      } else if f.kind == BINDER_TYPE_HANDLE {
        r := if a.proxy then Ok(()) else Err(OsError);
      } else if f.kind == BINDER_TYPE_FD {
        r := Ok(());
      } else {
        r := Err(InvalidOperation);
      }
    }

    method Release(f: Flat)
      modifies this
      ensures ledger == old(ledger).Remove(f.Held())
      ensures ledger == if f.kind == BINDER_TYPE_BINDER && f.binder != 0 then old(ledger).Remove(multiset{Publish(f.binder)})
                        else if f.kind == BINDER_TYPE_FD && f.cookie != 0 then old(ledger).Remove(multiset{Fd(f.binder % U32)})
                        else old(ledger)
    {
      if f.kind == BINDER_TYPE_BINDER {
        if f.binder != 0 {
          ledger := ledger.Remove(multiset{Publish(f.binder)});
        }
      } else if f.kind == BINDER_TYPE_FD {
        if f.cookie != 0 {
          ledger := ledger.Remove(multiset{Fd(f.Handle())});
        }
      }
    }
  }

  class Parcel {
    var mem: seq<Cell>
    var len: nat
    var pos: nat
    var objects: seq<nat>
    var hint: nat
    var boundary: Option<nat>
    var depth: nat
    var rpc: RpcFields?

    /** Every byte below the length has been initialised, and the nesting bound holds. */
    ghost predicate Valid()
      reads this`mem, this`len, this`depth
    {
      Ready(mem, len) && depth <= MAX_NESTED_READ_DEPTH
    }

    function Bytes(): (s: seq<byte>)
      requires Valid()
      reads this`mem, this`len, this`depth
      ensures |s| == len
    {
      Contents(mem, len)
    }

    ghost function View(): State
      requires Valid()
      reads this
    {
      State(Bytes(), pos, objects)
    }

    constructor ()
      ensures Valid() && Bytes() == [] && pos == 0 && objects == [] && hint == 0
      ensures boundary == None && depth == 0 && rpc == null
    {
      mem, len, pos := seq(256, _ => Uninit), 0, 0;
      objects, hint, boundary, depth, rpc := [], 0, None, 0, null;
    }

    // ----- raw writes -----

    /** `Vec::reserve`: room for `additional` more bytes, contents unknown. */
    method Reserve(additional: nat)
      requires Valid()
      modifies this`mem
      ensures Valid() && len + additional <= |mem| && Bytes() == old(Bytes())
    {
      if |mem| - len < additional {
        mem := mem + seq(len + additional - |mem|, _ => Uninit);
      }
    }

    /** The copy that `write_aligned_data`, `write_array` and `append_from` share: zero
        the gap up to the cursor, copy, zero the padding, then expose the new length. */
    method CopyIn(d: seq<byte>, padded: nat)
      requires Valid() && |d| <= padded
      modifies this`mem, this`len, this`pos
      ensures Valid() && pos == old(pos) + padded
      ensures Bytes() == Overlay(old(Bytes()), old(pos), d + Zeros(padded - |d|))
    {
      hide Blit, Ready, Contents, Overlay;
      var end := pos + padded;
      Reserve(end);
      ghost var before := mem;
      if pos > len {
        mem := Blit(mem, len, Zeros(pos - len));
      }
      mem := Blit(mem, pos, d);
      if padded > |d| {
        mem := Blit(mem, pos + |d|, Zeros(padded - |d|));
      }
      CopyMeaning(before, len, pos, d, padded, mem);
      if end > len {
        len := end;
      }
      pos := end;
    }

    method WriteAlignedData(d: seq<byte>) returns (r: Result<()>)
      requires Valid()
      modifies this`mem, this`len, this`pos
      ensures Valid()
      ensures match Write(old(View()), d)
              case Ok(v) => r == Ok(()) && View() == v
              case Err(s) => r == Err(s) && View() == old(View()) && mem == old(mem)
    {
      if pos + PadSize(|d|) > I32_MAX {
        return Err(BadValue);
      }
      CopyIn(d, PadSize(|d|));
      r := Ok(());
    }

    method WriteI32(v: i32) returns (r: Result<()>)
      requires Valid()
      modifies this`mem, this`len, this`pos
      ensures Valid()
      ensures r.Ok? <==> old(pos) + 4 <= I32_MAX
      ensures r.Ok? ==> Bytes() == Overlay(old(Bytes()), old(pos), EncI32(v)) && pos == old(pos) + 4
      ensures r.Err? ==> r.status == BadValue && View() == old(View())
    {
      assert Padded(EncI32(v)) == EncI32(v);
      r := WriteAlignedData(EncI32(v));
    }

    method SetDataPosition(p: nat)
      modifies this`pos
      ensures pos == p
    {
      pos := p;
    }

    // ----- raw reads -----

    function DataSize(): nat
      reads this
    {
      if len > pos then len else pos
    }

    method ReadAlignedData(n: nat) returns (r: Result<seq<byte>>)
      requires Valid()
      modifies this`pos
      ensures r == ReadAligned(Bytes(), old(pos), n)
      ensures pos == if r.Ok? then old(pos) + PadSize(n) else old(pos)
      ensures len < old(pos) + I32_MAX ==>
                && (r.Ok? <==> old(pos) + PadSize(n) <= len)
                && (r.Ok? ==> r.value == Bytes()[old(pos)..old(pos) + n])
                && (r.Err? && n > 0 ==> r == Err(NotEnoughData))
    {
      var avail := if pos < len then len - pos else 0;
      if avail >= I32_MAX {
        return Err(Panicked);
      }
      var aligned := PadSize(n);
      if aligned > avail {
        return Err(NotEnoughData);
      }
      if pos > len {
        return Err(Panicked);  // slicing past the end of the buffer
      }
      r := Ok(Bytes()[pos..pos + n]);
      pos := pos + aligned;
    }

    method ReadI32() returns (r: Result<i32>)
      requires Valid()
      modifies this`pos
      ensures r == Wire.ReadI32(Bytes(), old(pos))
      ensures pos == if r.Ok? then old(pos) + 4 else old(pos)
    {
      var b := ReadAlignedData(4);
      r := if b.Ok? then Ok(DecI32(b.value)) else Err(b.status);
    }

    // ----- arrays -----

    /** `write_array`.  The length word is out before the size of the rest is checked. */
    method WriteArray(items: Elements, width: nat) returns (r: Result<()>)
      requires Valid() && width > 0 && AllOf(items, width)
      modifies this`mem, this`len, this`pos
      ensures Valid()
      ensures r.Ok? ==> |items| <= I32_MAX && pos == old(pos) + |EncArray(Plain(width, Some(items)))| <= I32_MAX &&
                        Bytes() == Overlay(old(Bytes()), old(pos), EncArray(Plain(width, Some(items))))
      ensures r.Err? ==> r.status == BadValue && old(pos) + 4 + PadSize(|Flatten(items)|) > I32_MAX
      ensures r.Err? ==> View() == old(View()) ||
                         (|items| <= I32_MAX && pos == old(pos) + 4 && Bytes() == Overlay(old(Bytes()), old(pos), EncI32(|items|)))
    {
      hide Overlay, Contents, Flatten, EncI32, AllOf, Padded;
      Fewer(items, width);
      if |items| > I32_MAX {
        return Err(BadValue);
      }
      r := WriteI32(|items|);
      if r.Err? {
        return;
      }
      if |items| == 0 {
        EmptyArray(width, items);
        return;
      }
      var d := Flatten(items);
      OverlayAppend(old(Bytes()), old(pos), EncI32(|items|), Padded(d));
      r := WriteElements(d);
    }

    /** The elements and their padding, unless they would pass the largest position. */
    method WriteElements(d: seq<byte>) returns (r: Result<()>)
      requires Valid()
      modifies this`mem, this`len, this`pos
      ensures Valid() && (r.Ok? <==> old(pos) + PadSize(|d|) <= I32_MAX)
      ensures r.Ok? ==> Bytes() == Overlay(old(Bytes()), old(pos), Padded(d)) && pos == old(pos) + PadSize(|d|)
      ensures r.Err? ==> r.status == BadValue && View() == old(View())
    {
      hide Overlay, Contents;
      if pos + PadSize(|d|) > I32_MAX {
        return Err(BadValue);
      }
      CopyIn(d, PadSize(|d|));
      r := Ok(());
    }

    /** `write_array_char`: one word per character. */
    method WriteArrayChar(signed: bool, cs: seq<i32>) returns (r: Result<()>)
      requires Valid() && forall c <- cs :: Narrow(signed, c) == c
      modifies this`mem, this`len, this`pos
      ensures Valid()
      ensures r.Ok? <==> old(pos) + 4 + 4 * |cs| <= I32_MAX
      ensures r.Ok? ==> pos == old(pos) + |EncArray(Chars(signed, Some(cs)))| &&
                        Bytes() == Overlay(old(Bytes()), old(pos), EncArray(Chars(signed, Some(cs))))
      ensures r.Err? ==> r.status == BadValue
      ensures r.Err? ==> View() == old(View()) ||
                         (|cs| <= I32_MAX && pos == old(pos) + 4 && Bytes() == Overlay(old(Bytes()), old(pos), EncI32(|cs|)))
    {
      hide Overlay, Contents, EncWords, EncI32;
      if |cs| > I32_MAX {
        return Err(BadValue);
      }
      r := WriteI32(|cs|);
      if r.Err? {
        return;
      }
      if pos + 4 * |cs| > I32_MAX {
        return Err(BadValue);
      }
      WriteWords(cs);
      OverlayAppend(old(Bytes()), old(pos), EncI32(|cs|), EncWords(cs));
    }

    /** One word for each character; there is room for all of them. */
    method WriteWords(cs: seq<i32>)
      requires Valid() && pos <= len && pos + 4 * |cs| <= I32_MAX
      modifies this`mem, this`len, this`pos
      ensures Valid() && pos == old(pos) + 4 * |cs|
      ensures Bytes() == Overlay(old(Bytes()), old(pos), EncWords(cs))
    {
      hide Contents, EncWords, EncI32, Overlay, Write;
      NothingOver(Bytes(), pos);
      NoWords([], cs);
      for i := 0 to |cs|
        invariant Valid() && pos == old(pos) + 4 * i
        invariant Bytes() == Overlay(old(Bytes()), old(pos), [] + EncWords(cs[..i]))
      {
        OverlayAppend(old(Bytes()), old(pos), [] + EncWords(cs[..i]), EncI32(cs[i]));
        EncWordsSnoc([], cs, i);
        var r := WriteI32(cs[i]);
      }
      assert cs[..|cs|] == cs && [] + EncWords(cs) == EncWords(cs);
    }

    /** `read_array` for elements of `width` bytes. */
    method ReadArray(usizeMax: nat, width: nat) returns (r: Result<Option<Elements>>)
      requires Valid()
      modifies this`pos
      ensures old(pos) <= len ==> pos <= len
      ensures match ReadLike(usizeMax, Bytes(), old(pos), Plain(width, None))
              case Ok((v, next)) => r == Ok(v.items) && pos == next
              case Err(s) => r == Err(s)
    {
      hide Contents, DecI32, Chunks, CheckedLayout, Wire.ReadI32, PadSize;
      var len := ReadI32();
      if len.Err? {
        return Err(len.status);
      }
      if len.value < -1 {
        return Err(UnexpectedNull);
      }
      if len.value == -1 {
        return Ok(None);
      }
      if len.value == 0 {
        return Ok(Some([]));
      }
      var layout := CheckedLayout(usizeMax, len.value, width);
      var avail := DataAvail(this.len, pos);
      if layout.Err? {
        return Err(layout.status);
      }
      var (size, padded) := layout.value;
      if avail.Err? {
        return Err(avail.status);
      }
      if padded > avail.value {
        return Err(NotEnoughData);
      }
      assert size <= padded && size == len.value * width;
      var raw := Bytes()[pos..pos + size];
      assert ReadRaw(usizeMax, Bytes(), old(pos), width) == Ok((Some((len.value as nat, raw)), pos + padded));
      r := Ok(Some(Chunks(raw, width, len.value)));
      SetDataPosition(pos + padded);
    }

    /** `read_array_char`: the low half of one word per character. */
    method ReadArrayChar(usizeMax: nat, signed: bool) returns (r: Result<Option<seq<i32>>>)
      requires Valid()
      modifies this`pos
      ensures old(pos) <= len ==> pos <= len
      ensures match ReadLike(usizeMax, Bytes(), old(pos), Chars(signed, None))
              case Ok((v, next)) => r == Ok(v.chars) && pos == next
              case Err(s) => r == Err(s)
    {
      hide Contents, DecI32, DecWords;
      var len := ReadI32();
      if len.Err? {
        return Err(len.status);
      }
      if len.value < -1 {
        return Err(UnexpectedNull);
      }
      if len.value == -1 {
        return Ok(None);
      }
      if len.value == 0 {
        assert DecWords([], 0) == [] && NarrowAll(signed, []) == [];
        return Ok(Some([]));
      }
      var layout := CheckedLayout(usizeMax, len.value, 4);
      var avail := DataAvail(this.len, pos);
      if layout.Err? {
        return Err(layout.status);
      }
      var (size, padded) := layout.value;
      if avail.Err? {
        return Err(avail.status);
      }
      if padded > avail.value {
        return Err(NotEnoughData);
      }
      r := Ok(Some(NarrowAll(signed, DecWords(Bytes()[pos..pos + size], len.value))));
      SetDataPosition(pos + padded);
    }

    // ----- sized reads -----

    /** `sized_read` around the reads `body`.  Boundary and depth are put back whether the
        body succeeds or fails, and a block that succeeds ends where its size word says. */
    method SizedRead(body: seq<ReadStep>) returns (r: Result<()>)
      requires Valid()
      modifies this`pos, this`boundary, this`depth
      ensures Valid() && boundary == old(boundary) && depth == old(depth)
      ensures match BlockEnd(Bytes(), old(pos), old(depth), body)
              case Ok(end) => r.Ok? && pos == end
              case Err(s) => r == Err(s)
      ensures match Wire.ReadI32(Bytes(), old(pos))
              case Err(s) => r == Err(s)
              case Ok(size) =>
                && (size < 4 ==> r == Err(BadValue))
                && (size >= 4 && old(pos) + size > len ==> r == Err(NotEnoughData))
                && (size >= 4 && old(pos) + size <= len && depth >= MAX_NESTED_READ_DEPTH ==> r == Err(BadValue))
                && (r.Ok? ==> pos == old(pos) + size)
      decreases body, 1
    {
      hide Contents, DecI32, StepsEnd;
      var start := pos;
      var size := ReadI32();
      if size.Err? {
        return Err(size.status);
      }
      if size.value < 4 {
        return Err(BadValue);
      }
      var end := start + size.value;
      if end > DataSize() {
        return Err(NotEnoughData);
      }
      if depth >= MAX_NESTED_READ_DEPTH {
        return Err(BadValue);
      }
      var prev := boundary;
      depth := depth + 1;
      boundary := Some(end);
      r := RunReads(body);
      boundary := prev;
      depth := depth - 1;
      if r.Err? {
        return;
      }
      SetDataPosition(end);
    }

    /** The reads of one closure, in order, stopping at the first failure. */
    method RunReads(steps: seq<ReadStep>) returns (r: Result<()>)
      requires Valid()
      modifies this`pos, this`boundary, this`depth
      ensures Valid() && boundary == old(boundary) && depth == old(depth)
      ensures match StepsEnd(Bytes(), old(pos), boundary, depth, steps)
              case Ok(end) => r.Ok? && pos == end
              case Err(s) => r == Err(s)
      decreases steps, 0
    {
      hide Contents, DecI32, BlockEnd;
      r := Ok(());
      assert steps[0..] == steps;
      for i := 0 to |steps|
        invariant Valid() && boundary == old(boundary) && depth == old(depth) && r.Ok?
        invariant StepsEnd(Bytes(), old(pos), boundary, depth, steps) == StepsEnd(Bytes(), pos, boundary, depth, steps[i..])
      {
        assert steps[i..][0] == steps[i] && steps[i..][1..] == steps[i + 1..];
        match steps[i]
        case Take(n) =>
          var b := ReadAlignedData(n);
          if b.Err? {
            return Err(b.status);
          }
        case Jump(p) =>
          SetDataPosition(p);
        case StopAtEnd =>
          if !HasMoreData() {
            return Ok(());
          }
        case Block(body) =>
          r := SizedRead(body);
          if r.Err? {
            return;
          }
        case Fail(s) =>
          return Err(s);
      }
    }

    /** `has_more_data`: before the end of the innermost block, or of the buffer. */
    predicate HasMoreData()
      reads this
    {
      pos < if boundary.Some? then boundary.value else DataSize()
    }

    // ----- objects -----

    /** `read_object`: scan the offset table from the hint, forwards then backwards. */
    method ReadObject(nullMeta: bool) returns (r: Result<Flat>)
      requires Valid()
      modifies this`pos, this`hint
      ensures rpc != null ==> r == Err(BadType)
      ensures rpc == null ==>
        match ReadAligned(Bytes(), old(pos), FLAT_SIZE)
        case Err(s) => r == Err(s) && pos == old(pos)
        case Ok(b) =>
          var exempt := !nullMeta && DecFlat(b).cookie == 0 && DecFlat(b).binder == 0;
          && pos == old(pos) + FLAT_SIZE
          && (r == Ok(DecFlat(b)) || r == Err(BadType))
          && (r.Ok? ==> exempt || old(pos) in objects)
          && (exempt || (Sorted(objects) && old(pos) in objects) ==> r.Ok?)
      ensures hint == old(hint) || hint <= |objects|
    {
      if rpc != null {
        return Err(BadType);
      }
      var at := pos;
      var b := ReadAlignedData(FLAT_SIZE);
      if b.Err? {
        return Err(b.status);
      }
      var obj := DecFlat(b.value);
      if !nullMeta && obj.cookie == 0 && obj.binder == 0 {
        return Ok(obj);
      }
      var count, i := |objects|, hint;
      if count > 0 {
        if i < count {
          while i < count - 1 && objects[i] < at
            invariant hint <= i < count
            invariant forall j :: hint <= j < i ==> objects[j] < at
          {
            i := i + 1;
          }
        } else {
          i := count - 1;
        }
        if objects[i] == at {
          hint := i + 1;
          return Ok(obj);
        }
        ghost var top := i;
        while i > 0 && objects[i] > at
          invariant 0 <= i <= top
          invariant forall j :: i < j <= top ==> objects[j] > at
        {
          i := i - 1;
        }
        if objects[i] == at {
          hint := i + 1;
          return Ok(obj);
        }
        assert Sorted(objects) ==> forall j :: top < j < count ==> objects[j] >= objects[top];
      }
      return Err(BadType);
    }

    method WriteObject(f: Flat, nullMeta: bool, a: Answer, process: Process) returns (r: Result<()>)
      requires Valid()
      modifies this`mem, this`len, this`pos, this`objects, process
      ensures Valid()
      ensures rpc == null ==>
                Effect(View(), process.ledger, r) == Objects.WriteObject(old(View()), f, nullMeta, a, old(process.ledger))
      ensures rpc != null ==>
                && process.ledger == old(process.ledger)
                && match Write(old(View()), EncFlat(f))
                   case Ok(v) => r.Ok? && View() == v
                   case Err(s) => r == Err(s) && View() == old(View())
    {
      var at := pos;
      r := WriteAlignedData(EncFlat(f));
      if rpc != null || r.Err? {
        return;
      }
      if nullMeta || f.binder != 0 {
        r := process.Acquire(f, a);
        if r.Ok? {
          objects := objects + [at];
        }
      }
    }

    /** One pass of the relocation loop of `append_from`. */
    method AdoptObject(off: nat, a: Answer, process: Process) returns (r: Result<()>)
      requires Valid()
      modifies this`mem, this`objects, process
      ensures Valid()
      ensures Effect(View(), process.ledger, r) == AdoptOne(old(View()), off, a, old(process.ledger))
    {
      hide EncFlat, DecFlat, Overlay, Contents;
      if off + FLAT_SIZE > len {
        return Err(NotEnoughData);
      }
      var f := At(Bytes(), off);
      r := process.Acquire(f, a);
      if r.Err? {
        return;
      }
      if f.kind == BINDER_TYPE_FD {
        if a.dup.None? {
          return Err(OsError);
        }
        process.ledger := process.ledger.Add(multiset{Fd(a.dup.value)});
        r := WriteFlatBinder(off, f.WithFd(a.dup.value));
      }
      objects := objects + [off];
    }

    /** `write_flat_binder`: overwrite one object in place. */
    method WriteFlatBinder(off: nat, f: Flat) returns (r: Result<()>)
      requires Valid()
      modifies this`mem
      ensures Valid()
      ensures if off + FLAT_SIZE <= len then r == Ok(()) && Bytes() == Overlay(old(Bytes()), off, EncFlat(f))
              else r == Err(NotEnoughData) && mem == old(mem)
    {
      if off + FLAT_SIZE > len {
        return Err(NotEnoughData);
      }
      r := Ok(());
      ghost var before := mem;
      mem := Blit(mem, off, EncFlat(f));
      CopyMeaning(before, len, off, EncFlat(f), FLAT_SIZE, mem);
      assert EncFlat(f) + Zeros(0) == EncFlat(f);
    }

    /** `append_from`; `answers` has one entry for each object that will be relocated. */
    method AppendFrom(other: Parcel, offset: nat, size: nat, answers: seq<Answer>, process: Process) returns (r: Result<()>)
      requires Valid() && other.Valid() && other != this && other.View().Good()
      requires |answers| == |Selected(other.objects, offset, size)|
      modifies this`mem, this`len, this`pos, this`objects, process
      ensures Valid()
      ensures rpc == null ==>
                Effect(View(), process.ledger, r) ==
                Append(old(View()), old(other.View()), offset, size, answers, old(process.ledger))
      ensures rpc != null ==>
                && process.ledger == old(process.ledger)
                && if size == 0 then r.Ok? && View() == old(View())
                   else if size > I32_MAX || offset + size > other.len || old(pos) + size > I32_MAX then
                     r == Err(BadValue) && View() == old(View())
                   else r.Ok? && View() == Copied(old(View()), old(other.Bytes())[offset..offset + size])
    {
      hide Overlay, Contents, Adopt, Selected, Relocated, Spaced;
      if size == 0 {
        return Ok(());
      }
      if size > I32_MAX || offset + size > other.len {
        return Err(BadValue);
      }
      var start := pos;
      var first, last := other.ObjectsInside(offset, size);
      if pos + size > I32_MAX {
        return Err(BadValue);
      }
      var d := other.Bytes()[offset..offset + size];
      assert d + Zeros(0) == d;
      CopyIn(d, size);
      r := Ok(());
      if last < first || rpc != null {
        AdoptNothing(View(), offset, start, answers, process.ledger);
        return;
      }
      r := AdoptRange(other.objects[first..last + 1], offset, start, answers, process);
    }

    /** The relocation loop of `append_from`. */
    method AdoptRange(range: seq<nat>, offset: nat, start: nat, answers: seq<Answer>, process: Process) returns (r: Result<()>)
      requires Valid() && |answers| == |range| && forall i :: 0 <= i < |range| ==> offset <= range[i]
      modifies this`mem, this`objects, process
      ensures Valid()
      ensures Effect(View(), process.ledger, r) ==
              Adopt(old(View()), Relocated(range, offset, start), answers, old(process.ledger))
    {
      hide Overlay, Contents, AdoptOne;
      r := Ok(());
      ghost var offs := Relocated(range, offset, start);
      var i := 0;
      while i < |range|
        invariant 0 <= i <= |range| && Valid() && r.Ok?
        invariant Adopt(View(), offs[i..], answers[i..], process.ledger) ==
                  Adopt(old(View()), offs, answers, old(process.ledger))
      {
        assert offs[i..][1..] == offs[i + 1..] && answers[i..][1..] == answers[i + 1..];
        r := AdoptObject(range[i] - offset + start, answers[i], process);
        if r.Err? {
          return;
        }
        i := i + 1;
      }
      return Ok(());
    }

    /** The scan of `append_from`: first and last index of an entry inside the range. */
    method ObjectsInside(offset: nat, size: nat) returns (first: int, last: int)
      requires Valid() && View().Good()
      ensures (first == -1 && last == -2) || 0 <= first <= last < |objects|
      ensures Selected(objects, offset, size) == if first == -1 then [] else objects[first..last + 1]
    {
      hide Scanned;
      first, last := -1, -2;
      ScanEnds(objects, 0, offset, size, first, last);
      for i := 0 to |objects|
        invariant Scanned(objects, i, offset, size, first, last)
      {
        ScanStep(objects, i, offset, size, first, last);
        if Inside(objects[i], offset, size) {
          if first == -1 {
            first := i;
          }
          last := i;
        }
      }
      ScanEnds(objects, |objects|, offset, size, first, last);
    }

    /** `release_objects`, run when the parcel is dropped. */
    method ReleaseObjects(process: Process)
      requires Valid()
      modifies process
      ensures process.ledger ==
              if rpc == null then Objects.Release(Bytes(), objects, old(process.ledger)) else old(process.ledger)
    {
      if rpc != null {
        return;
      }
      var data := Bytes();
      for i := 0 to |objects|
        invariant Objects.Release(data, objects[i..], process.ledger) == Objects.Release(data, objects, old(process.ledger))
      {
        if objects[i] + FLAT_SIZE <= |data| {
          process.Release(At(data, objects[i]));
        }
        assert objects[i..][1..] == objects[i + 1..];
      }
    }
  }
}
