/** The code the generator emits for parcelables, run against a parcel: writers
    that back-patch block sizes, readers that keep boundary and depth. */
module Generated {
  import opened Wire
  import opened ArrayWire
  import opened Objects
  import opened Parcels
  import opened Stable

  /** Write a value of type `ty`.  It succeeds exactly when the encoding fits, and then
      the buffer is the old one with the encoding laid over it at the cursor. */
  method WriteValue(p: Parcel, s: Schema, ty: FieldType, v: Value) returns (r: Result<()>)
    requires p.Valid() && Typed(s, ty, v)
    modifies p`mem, p`len, p`pos
    ensures p.Valid() && (r.Err? ==> r.status == BadValue)
    ensures r.Ok? <==> old(p.pos) + |Enc(s, ty, v)| <= I32_MAX
    ensures r.Ok? ==> p.Bytes() == Overlay(old(p.Bytes()), old(p.pos), Enc(s, ty, v)) && p.pos == old(p.pos) + |Enc(s, ty, v)|
    decreases v, 3
  {
    hide Overlay, Contents, EncI32, EncArray, Flatten, EncUnits, Padded;
    match ty
    case Pod(_) =>
      r := p.WriteAlignedData(v.bytes);
    case Pods(w, _) =>
      r := WriteArrayValue(p, w, v);
    case Text(_) =>
      if v.Null? {
        r := p.WriteI32(-1);
      } else {
        r := WriteText(p, v.units);
      }
    case Nested(name, _) =>
      if v.Null? {
        r := p.WriteI32(0);
      } else {
        r := WriteNested(p, s, s.types[name], v.fields);
      }
    case Structs(name, _) =>
      if v.Null? {
        r := p.WriteI32(-1);
      } else {
        r := WriteListValue(p, s, name, v.elems);
      }
  }

  method WriteArrayValue(p: Parcel, w: nat, v: Value) returns (r: Result<()>)
    requires p.Valid() && (v.Null? || (v.Array? && w > 0 && AllOf(v.items, w) && |v.items| <= I32_MAX))
    modifies p`mem, p`len, p`pos
    ensures p.Valid() && (r.Err? ==> r.status == BadValue)
    ensures var e := EncArray(Plain(w, if v.Null? then None else Some(v.items)));
            && (r.Ok? <==> old(p.pos) + |e| <= I32_MAX)
            && (r.Ok? ==> p.Bytes() == Overlay(old(p.Bytes()), old(p.pos), e) && p.pos == old(p.pos) + |e|)
  {
    hide Overlay, Contents, EncI32, Flatten;
    if v.Null? {
      r := p.WriteI32(-1);
    } else {
      r := p.WriteArray(v.items, w);
    }
  }

  method WriteText(p: Parcel, units: seq<nat>) returns (r: Result<()>)
    requires p.Valid()
    modifies p`mem, p`len, p`pos
    ensures p.Valid() && (r.Err? ==> r.status == BadValue)
    ensures r.Ok? <==> |units| < I32_MAX && old(p.pos) + |EncText(units)| <= I32_MAX
    ensures r.Ok? ==> p.Bytes() == Overlay(old(p.Bytes()), old(p.pos), EncText(units)) && p.pos == old(p.pos) + |EncText(units)|
  {
    hide Overlay, Contents, EncI32, EncUnits, Padded;
    r := p.WriteI32(Wrap32(|units|));
    if r.Err? {
      return;
    }
    var raw := EncUnits(units) + [0, 0];
    if |units| < I32_MAX {
      OverlayAppend(old(p.Bytes()), old(p.pos), EncI32(|units|), Padded(raw));
    }
    r := p.WriteAlignedData(raw);
  }

  /** `serialize` of a present parcelable: the flag, then `write_to_parcel`. */
  method WriteNested(p: Parcel, s: Schema, fields: seq<Field>, vs: seq<Value>) returns (r: Result<()>)
    requires p.Valid() && TypedAll(s, TypesOf(fields), vs)
    modifies p`mem, p`len, p`pos
    ensures p.Valid() && (r.Err? ==> r.status == BadValue)
    ensures var e := EncI32(1) + EncBlock(s, TypesOf(fields), vs);
            && (r.Ok? <==> old(p.pos) + |e| <= I32_MAX)
            && (r.Ok? ==> p.Bytes() == Overlay(old(p.Bytes()), old(p.pos), e) && p.pos == old(p.pos) + |e|)
    decreases vs, 2
  {
    hide Overlay, Contents, EncI32, EncBlock, TypesOf;
    r := p.WriteI32(1);
    if r.Err? {
      return;
    }
    OverlayAppend(old(p.Bytes()), old(p.pos), EncI32(1), EncBlock(s, TypesOf(fields), vs));
    r := WriteBlock(p, s, TypesOf(fields), vs);
  }

  /** `write_to_parcel`: `sized_write` writes a placeholder, runs the field writes and
      goes back to fill in the size. */
  method WriteBlock(p: Parcel, s: Schema, tys: seq<FieldType>, vs: seq<Value>) returns (r: Result<()>)
    requires p.Valid() && TypedAll(s, tys, vs)
    modifies p`mem, p`len, p`pos
    ensures p.Valid() && (r.Err? ==> r.status == BadValue)
    ensures r.Ok? <==> old(p.pos) + |EncBlock(s, tys, vs)| <= I32_MAX
    ensures r.Ok? ==> p.Bytes() == Overlay(old(p.Bytes()), old(p.pos), EncBlock(s, tys, vs)) &&
                      p.pos == old(p.pos) + |EncBlock(s, tys, vs)|
    decreases vs, 1
  {
    hide Overlay, Contents, EncI32, EncSeq;
    ghost var before, body := p.Bytes(), EncSeq(s, tys, vs);
    var start := p.pos;
    r := p.WriteI32(0);
    if r.Err? {
      return;
    }
    r := WriteSeq(p, s, tys, vs);
    if r.Err? {
      return;
    }
    OverlayAppend(before, start, EncI32(0), body);
    r := FillIn(p, start, p.pos - start, before, body);
  }

  /** The length of what follows the placeholder at `start`, written over the placeholder. */
  method FillIn(p: Parcel, start: nat, length: i32, ghost before: seq<byte>, ghost body: seq<byte>) returns (r: Result<()>)
    requires p.Valid() && p.Bytes() == Overlay(before, start, EncI32(0) + body) && start + 4 <= I32_MAX
    modifies p`mem, p`len, p`pos
    ensures p.Valid() && r.Ok? && p.pos == old(p.pos)
    ensures p.Bytes() == Overlay(before, start, EncI32(length) + body)
  {
    hide Overlay, Contents, EncI32;
    var end := p.pos;
    p.SetDataPosition(start);
    OverlayPatch(before, start, EncI32(0), body, EncI32(length));
    r := p.WriteI32(length);
    p.SetDataPosition(end);
  }

  /** The values of the fields of a parcelable, or of the elements of a list, one after the other. */
  method WriteSeq(p: Parcel, s: Schema, tys: seq<FieldType>, vs: seq<Value>) returns (r: Result<()>)
    requires p.Valid() && TypedAll(s, tys, vs) && p.pos <= p.len && p.pos <= I32_MAX
    modifies p`mem, p`len, p`pos
    ensures p.Valid() && (r.Err? ==> r.status == BadValue)
    ensures r.Ok? <==> old(p.pos) + |EncSeq(s, tys, vs)| <= I32_MAX
    ensures r.Ok? ==> p.Bytes() == Overlay(old(p.Bytes()), old(p.pos), EncSeq(s, tys, vs)) &&
                      p.pos == old(p.pos) + |EncSeq(s, tys, vs)|
    decreases vs, 0
  {
    hide Overlay, Contents, Enc, Typed;
    if vs == [] {
      NothingOver(p.Bytes(), p.pos);
      return Ok(());
    }
    r := WriteValue(p, s, tys[0], vs[0]);
    if r.Err? {
      return;
    }
    OverlayAppend(old(p.Bytes()), old(p.pos), Enc(s, tys[0], vs[0]), EncSeq(s, tys[1..], vs[1..]));
    r := WriteSeq(p, s, tys[1..], vs[1..]);
  }

  /** `serialize_array` for parcelable elements: the count, then each element. */
  method WriteListValue(p: Parcel, s: Schema, name: string, vs: seq<Value>) returns (r: Result<()>)
    requires p.Valid() && |vs| <= I32_MAX && TypedAll(s, Repeat(Nested(name, false), |vs|), vs)
    modifies p`mem, p`len, p`pos
    ensures p.Valid() && (r.Err? ==> r.status == BadValue)
    ensures var e := EncI32(|vs|) + EncSeq(s, Repeat(Nested(name, false), |vs|), vs);
            && (r.Ok? <==> old(p.pos) + |e| <= I32_MAX)
            && (r.Ok? ==> p.Bytes() == Overlay(old(p.Bytes()), old(p.pos), e) && p.pos == old(p.pos) + |e|)
    decreases vs, 1
  {
    hide Overlay, Contents, EncI32, EncSeq;
    var tys := Repeat(Nested(name, false), |vs|);
    r := p.WriteI32(|vs|);
    if r.Err? {
      return;
    }
    OverlayAppend(old(p.Bytes()), old(p.pos), EncI32(|vs|), EncSeq(s, tys, vs));
    r := WriteSeq(p, s, tys, vs);
  }

  // ----- readers -----

  /** Read a value of type `ty`; boundary and depth are as they were, also after a failure. */
  method ReadValue(p: Parcel, s: Schema, ty: FieldType) returns (r: Result<Value>)
    requires p.Valid()
    modifies p`pos, p`boundary, p`depth
    ensures p.Valid() && p.boundary == old(p.boundary) && p.depth == old(p.depth)
    ensures old(p.pos) <= p.len ==> p.pos <= p.len
    ensures match Read(s, ty, p.Bytes(), old(p.pos), old(p.depth))
            case Ok((v, next)) => r == Ok(v) && p.pos == next
            case Err(e) => r == Err(e)
    decreases MAX_NESTED_READ_DEPTH - p.depth, 2, 0
  {
    hide Contents, DecI32, ReadLike, ReadText, ReadList, ReadNested;
    match ty
    case Pod(w) =>
      var b := p.ReadAlignedData(w);
      r := if b.Ok? then Ok(Scalar(b.value)) else Err(b.status);
    case Pods(w, n) =>
      var a := p.ReadArray(s.usizeMax, w);
      r := if a.Err? then Err(a.status)
           else if a.value.Some? then Ok(Array(a.value.value))
           else if n then Ok(Null) else Err(UnexpectedNull);
    case Text(n) =>
      var t := ReadTextValue(p, s.usizeMax);
      r := if t.Err? then Err(t.status)
           else if t.value.Some? then Ok(Str(t.value.value))
           else if n then Ok(Null) else Err(UnexpectedNull);
    case Nested(name, n) =>
      r := ReadNestedValue(p, s, name, n);
    case Structs(name, n) =>
      var len := p.ReadI32();
      if len.Err? {
        return Err(len.status);
      }
      if len.value < 0 {
        return if len.value == -1 && n then Ok(Null) else Err(UnexpectedNull);
      }
      var vs := ReadListValue(p, s, name, len.value);
      r := if vs.Ok? then Ok(Many(vs.value)) else Err(vs.status);
  }

  method ReadTextValue(p: Parcel, usizeMax: nat) returns (r: Result<Option<seq<nat>>>)
    requires p.Valid()
    modifies p`pos
    ensures old(p.pos) <= p.len ==> p.pos <= p.len
    ensures match ReadText(usizeMax, p.Bytes(), old(p.pos))
            case Ok((t, next)) => r == Ok(t) && p.pos == next
            case Err(e) => r == Err(e)
  {
    hide Contents, DecI32, DecUnits, ValidUtf16;
    var len := p.ReadI32();
    if len.Err? {
      return Err(len.status);
    }
    if len.value == -1 {
      return Ok(None);
    }
    if len.value < 0 || len.value == I32_MAX {
      return Err(UnexpectedNull);
    }
    var layout := CheckedLayout(usizeMax, len.value + 1, 2);
    if layout.Err? {
      return Err(layout.status);
    }
    var raw := p.ReadAlignedData(layout.value.0);
    if raw.Err? {
      return Err(raw.status);
    }
    var units := DecUnits(raw.value[..2 * len.value], len.value);
    r := if ValidUtf16(units) then Ok(Some(units)) else Err(BadValue);
  }

  method ReadListValue(p: Parcel, s: Schema, name: string, n: nat) returns (r: Result<seq<Value>>)
    requires p.Valid()
    modifies p`pos, p`boundary, p`depth
    ensures p.Valid() && p.boundary == old(p.boundary) && p.depth == old(p.depth)
    ensures old(p.pos) <= p.len ==> p.pos <= p.len
    ensures match ReadList(s, name, n, p.Bytes(), old(p.pos), old(p.depth))
            case Ok((vs, next)) => r == Ok(vs) && p.pos == next
            case Err(e) => r == Err(e)
    decreases MAX_NESTED_READ_DEPTH - p.depth, 1, n
  {
    hide Contents, ReadNested;
    if n == 0 {
      return Ok([]);
    }
    var v := ReadNestedValue(p, s, name, false);
    if v.Err? {
      return Err(v.status);
    }
    var vs := ReadListValue(p, s, name, n - 1);
    r := if vs.Ok? then Ok([v.value] + vs.value) else Err(vs.status);
  }

  method ReadNestedValue(p: Parcel, s: Schema, name: string, nullable: bool) returns (r: Result<Value>)
    requires p.Valid()
    modifies p`pos, p`boundary, p`depth
    ensures p.Valid() && p.boundary == old(p.boundary) && p.depth == old(p.depth)
    ensures old(p.pos) <= p.len ==> p.pos <= p.len
    ensures match ReadNested(s, name, nullable, p.Bytes(), old(p.pos), old(p.depth))
            case Ok((v, next)) => r == Ok(v) && p.pos == next
            case Err(e) => r == Err(e)
    decreases MAX_NESTED_READ_DEPTH - p.depth, 0, 2
  {
    hide Contents, DecI32, ReadBlock;
    var flag := p.ReadI32();
    if flag.Err? {
      return Err(flag.status);
    }
    if flag.value == 0 {
      return if nullable then Ok(Null) else Err(UnexpectedNull);
    }
    if flag.value != 1 {
      return Err(UnexpectedNull);
    }
    r := ReadBlockValue(p, s, name);
  }

  method ReadBlockValue(p: Parcel, s: Schema, name: string) returns (r: Result<Value>)
    requires p.Valid()
    modifies p`pos, p`boundary, p`depth
    ensures p.Valid() && p.boundary == old(p.boundary) && p.depth == old(p.depth)
    ensures old(p.pos) <= p.len ==> p.pos <= p.len
    ensures match ReadBlock(s, name, p.Bytes(), old(p.pos), old(p.depth))
            case Ok((v, next)) => r == Ok(v) && p.pos == next
            case Err(e) => r == Err(e)
    decreases MAX_NESTED_READ_DEPTH - p.depth, 0, 1
  {
    hide Contents, ReadBlockOnto;
    r := ReadBlockValueOnto(p, s, name, NewFields(s, name));
  }

  /** `read_from_parcel` through `sized_read`, onto a value with the fields `held`. */
  method ReadBlockValueOnto(p: Parcel, s: Schema, name: string, held: seq<Value>) returns (r: Result<Value>)
    requires p.Valid() && (name in s.types ==> |held| == |s.types[name]|)
    modifies p`pos, p`boundary, p`depth
    ensures p.Valid() && p.boundary == old(p.boundary) && p.depth == old(p.depth)
    ensures old(p.pos) <= p.len ==> p.pos <= p.len
    ensures match ReadBlockOnto(s, name, held, p.Bytes(), old(p.pos), old(p.depth))
            case Ok((v, next)) => r == Ok(v) && p.pos == next
            case Err(e) => r == Err(e)
    decreases MAX_NESTED_READ_DEPTH - p.depth, 0, 0
  {
    hide Contents, DecI32, ReadFields;
    var start := p.pos;
    var size := p.ReadI32();
    if size.Err? {
      return Err(size.status);
    }
    if size.value < 4 {
      return Err(BadValue);
    }
    var end := start + size.value;
    if end > p.DataSize() {
      return Err(NotEnoughData);
    }
    if p.depth >= MAX_NESTED_READ_DEPTH {
      return Err(BadValue);
    }
    if name !in s.types {
      return Err(BadType);
    }
    var prev := p.boundary;
    p.depth := p.depth + 1;
    p.boundary := Some(end);
    var vs := ReadFieldValues(p, s, s.types[name], held);
    p.boundary := prev;
    p.depth := p.depth - 1;
    if vs.Err? {
      return Err(vs.status);
    }
    p.SetDataPosition(end);
    r := Ok(Record(vs.value));
  }

  /** The generated closure: stop at the first field the block has no bytes for. */
  method ReadFieldValues(p: Parcel, s: Schema, fields: seq<Field>, held: seq<Value>) returns (r: Result<seq<Value>>)
    requires p.Valid() && p.boundary.Some? && |held| == |fields|
    modifies p`pos, p`boundary, p`depth
    ensures p.Valid() && p.boundary == old(p.boundary) && p.depth == old(p.depth)
    ensures old(p.pos) <= p.len ==> p.pos <= p.len
    ensures r == ReadFields(s, fields, held, p.Bytes(), old(p.pos), p.boundary.value, old(p.depth))
    decreases MAX_NESTED_READ_DEPTH - p.depth, 3, |fields|
  {
    hide Contents, Read;
    if fields == [] || !p.HasMoreData() {
      return Ok(held);
    }
    var v := ReadValue(p, s, fields[0].ty);
    if v.Err? {
      return Err(v.status);
    }
    var vs := ReadFieldValues(p, s, fields[1..], held[1..]);
    r := if vs.Ok? then Ok([v.value] + vs.value) else Err(vs.status);
  }
}
