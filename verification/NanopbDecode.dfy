// The decoder of nanopb over an input stream (pb_decode.c) and its field
// iterator (pb_common.c).

module NanopbDecode {
  import opened DbFormat
  import opened Coding
  import opened Protobuf

  class IStream {
    var left: seq<byte>

    constructor (left: seq<byte>)
      ensures this.left == left
    {
      this.left := left;
    }

    // pb_read with or without a buffer.
    method Read(count: nat) returns (ok: bool, buf: seq<byte>)
      modifies this
      ensures ok == (|old(left)| >= count)
      ensures ok ==> buf == old(left)[..count] && left == old(left)[count..]
      ensures !ok ==> left == old(left)
    {
      if |left| < count {
        return false, [];
      }
      ok, buf := true, left[..count];
      left := left[count..];
    }

    method DecodeVarint32() returns (r: Option<nat>)
      modifies this
      ensures r.Some? == ReadVarint32(old(left)).Some?
      ensures r.Some? ==> ReadVarint32(old(left)).value == (r.value, left)
    {
      ghost var target := ReadVarint32(left);
      if left == [] {
        return None;
      }
      var b: nat := left[0];
      left := left[1..];
      if b < 128 {
        return Some(b);
      }
      var result: nat, bitpos: nat := b - 128, 7;
      while true
        invariant MoreVarint32(left, bitpos, result) == target
        decreases |left|
      {
        if left == [] {
          return None;
        }
        b := left[0];
        left := left[1..];
        if bitpos >= 32 {
          var signExtension := if bitpos < 63 then 0xff else 0x01;
          if b % 128 != 0 && (result < TWO_32 / 2 || b != signExtension) {
            return None;
          }
        } else {
          result := Shifted(result, b % 128, bitpos) % TWO_32;
        }
        bitpos := bitpos + 7;
        if b < 128 {
          break;
        }
      }
      if bitpos == 35 && b / 16 % 8 != 0 {
        return None;
      }
      return Some(result);
    }

    method DecodeVarint() returns (r: Option<nat>)
      modifies this
      ensures r.Some? == GetVarint64(old(left)).Some?
      ensures r.Some? ==> GetVarint64(old(left)).value == (r.value, left)
    {
      ghost var target := GetVarint64(left);
      var result: nat, bitpos: nat := 0, 0;
      while true
        invariant ReadVarint(left, bitpos, 63, result, TWO_64) == target
        decreases |left|
      {
        if bitpos >= 64 || left == [] {
          return None;
        }
        var b: nat := left[0];
        left := left[1..];
        result := Shifted(result, b % 128, bitpos) % TWO_64;
        bitpos := bitpos + 7;
        if b < 128 {
          return Some(result);
        }
      }
    }

    // pb_make_string_substream and pb_close_string_substream: what is not read of it is skipped.
    method MakeSubstream() returns (r: Option<IStream>)
      modifies this
      ensures r.Some? == Substream(old(left)).Some?
      ensures r.Some? ==> fresh(r.value) && Substream(old(left)).value == (r.value.left, left)
    {
      var size := DecodeVarint32();
      if size.None? || |left| < size.value {
        return None;
      }
      var substream := new IStream(left[..size.value]);
      left := left[size.value..];
      return Some(substream);
    }

    method SkipField(wire: nat) returns (ok: bool)
      modifies this
      ensures ok == Protobuf.SkipField(wire, old(left)).Some?
      ensures ok ==> left == Protobuf.SkipField(wire, old(left)).value
    {
      var buf;
      if wire == WT_VARINT {
        ok := SkipVarintBytes();
      } else if wire == WT_64BIT {
        ok, buf := Read(8);
      } else if wire == WT_STRING {
        var t := MakeSubstream();
        ok := t.Some?;
      } else if wire == WT_32BIT {
        ok, buf := Read(4);
      } else {
        ok := false;
      }
    }

    method SkipVarintBytes() returns (ok: bool)
      modifies this
      ensures ok == SkipVarint(old(left)).Some?
      ensures ok ==> left == SkipVarint(old(left)).value
    {
      ghost var target := SkipVarint(left);
      while true
        invariant SkipVarint(left) == target
        decreases |left|
      {
        if left == [] {
          return false;
        }
        var b := left[0];
        left := left[1..];
        if b < 128 {
          return true;
        }
      }
    }

    method DecodeNumber(k: Kind) returns (r: Option<int>)
      modifies this
      ensures r.Some? == ReadNumber(k, old(left)).Some?
      ensures r.Some? ==> ReadNumber(k, old(left)).value == (r.value, left)
    {
      match k
      case Bool =>
        var t := DecodeVarint32();
        r := if t.None? then None else Some(if t.value != 0 then 1 else 0);
      case Int(bits) =>
        var t := DecodeVarint();
        r := if t.None? then None else ReadInt(bits, t.value);
      case UInt(bits) =>
        var t := DecodeVarint();
        r := if t.None? || t.value >= Pow2(bits) then None else Some(t.value);
      case SInt(bits) =>
        var t := DecodeVarint();
        r := if t.None? || !FitsSigned(bits, UnZigZag(t.value)) then None else Some(UnZigZag(t.value));
      case Fixed32 =>
        var ok, buf := Read(4);
        r := if ok then Some(DecodeFixed32(buf)) else None;
      case Fixed64 =>
        var ok, buf := Read(8);
        r := if ok then Some(DecodeFixed64(buf)) else None;
      case _ =>
        r := None;
    }
  }

  // pb_field_iter_t: goes round the fields and counts the required ones.
  class FieldIter {
    const fields: seq<Field>
    var pos: nat
    var requiredIndex: nat

    ghost predicate Valid()
      reads this
    {
      (fields == [] ==> pos == 0) && (fields != [] ==> pos < |fields|) && pos <= |fields| && requiredIndex == RequiredBefore(fields, pos)
    }

    constructor (fields: seq<Field>)
      ensures Valid() && this.fields == fields && pos == 0
    {
      this.fields, pos, requiredIndex := fields, 0, 0;
    }

    // False when it has come back to the first field.
    method Next() returns (more: bool)
      requires Valid()
      modifies this
      ensures Valid() && (more <==> old(pos) + 1 < |fields|) && pos == if old(pos) + 1 < |fields| then old(pos) + 1 else 0
    {
      if fields == [] {
        return false;
      }
      if pos + 1 == |fields| {
        pos, requiredIndex := 0, 0;
        return false;
      }
      if fields[pos].rule.Required? {
        requiredIndex := requiredIndex + 1;
      }
      pos := pos + 1;
      return true;
    }

    // Once around from where it stands.
    method FindField(tag: nat) returns (found: bool)
      requires Valid()
      modifies this
      ensures Valid() && found == Find(fields, old(pos), tag).Some?
      ensures pos == if found then Find(fields, old(pos), tag).value else old(pos)
    {
      if fields == [] {
        return false;
      }
      var start := pos;
      ghost var steps: nat := |fields|;
      while true
        invariant Valid() && 0 < steps <= |fields|
        invariant pos == if start + |fields| - steps < |fields| then start + |fields| - steps else start - steps
        invariant Search(fields, pos, steps, tag) == Find(fields, start, tag)
        decreases steps
      {
        if fields[pos].tag == tag {
          return true;
        }
        var more := Next();
        steps := steps - 1;
        if pos == start {
          return false;
        }
      }
    }
  }

  method DecodeValue(stream: IStream, k: Kind, was: Value) returns (r: Option<Value>)
    modifies stream
    ensures r.Some? == ReadValue(k, old(stream.left), was).Some?
    ensures r.Some? ==> ReadValue(k, old(stream.left), was).value == (r.value, stream.left)
    decreases |stream.left|, 0
  {
    match k
    case Bytes(max) =>
      var t := stream.MakeSubstream();
      r := if t.None? || |t.value.left| > max then None else Some(Blob(t.value.left));
    case Message(fields) =>
      var t := stream.MakeSubstream();
      if t.None? {
        return None;
      }
      var m := DecodeNoinit(t.value, fields, OldSlots(fields, was));
      r := if m.None? then None else Some(Sub(m.value));
    case _ =>
      var n := stream.DecodeNumber(k);
      r := if n.None? then None else Some(Num(n.value));
  }

  // The loop over a packed array.
  method DecodePacked(substream: IStream, k: Kind, max: nat, vs: seq<Value>) returns (r: Option<seq<Value>>)
    modifies substream
    ensures r == ReadPacked(k, max, old(substream.left), vs)
    decreases |substream.left|, 1
  {
    var all := vs;
    while |substream.left| > 0 && |all| < max
      invariant ReadPacked(k, max, substream.left, all) == ReadPacked(k, max, old(substream.left), vs)
      invariant |substream.left| <= |old(substream.left)|
      decreases |substream.left|
    {
      var v := DecodeValue(substream, k, Default(k));
      if v.None? {
        return None;
      }
      all := all + [v.value];
    }
    // what is left over is an array overflow
    r := if substream.left != [] then None else Some(all);
  }

  method DecodeStaticField(stream: IStream, f: Field, wire: nat, slot: Slot) returns (r: Option<Slot>)
    modifies stream
    ensures r.Some? == ReadSlot(f, wire, old(stream.left), slot).Some?
    ensures r.Some? ==> ReadSlot(f, wire, old(stream.left), slot).value == (r.value, stream.left)
    decreases |stream.left|, 2
  {
    match f.rule
    case Required =>
      var v := DecodeValue(stream, f.kind, OldValue(f.kind, slot));
      r := if v.None? then None else Some(One(v.value));
    case Optional =>
      var v := DecodeValue(stream, f.kind, OldValue(f.kind, slot));
      r := if v.None? then None else Some(Maybe(Some(v.value)));
    case Repeated(max) =>
      var vs := if slot.Many? then slot.vs else [];
      if wire == WT_STRING && Packable(f.kind) {
        var t := stream.MakeSubstream();
        if t.None? {
          return None;
        }
        var all := DecodePacked(t.value, f.kind, max, vs);
        r := if all.None? then None else Some(Many(all.value));
      } else {
        if |vs| >= max {
          return None;
        }
        var v := DecodeValue(stream, f.kind, Default(f.kind));
        r := if v.None? then None else Some(Many(vs + [v.value]));
      }
  }

  // pb_decode_noinit: fields are found by tag, in any order, into what is there.
  method DecodeNoinit(stream: IStream, fields: seq<Field>, start: seq<Slot>) returns (r: Option<seq<Slot>>)
    requires |start| == |fields|
    modifies stream
    ensures r == ReadFields(fields, old(stream.left), Progress(start, 0, {}))
    decreases |stream.left|, 3
  {
    ghost var target := ReadFields(fields, stream.left, Progress(start, 0, {}));
    var iter := new FieldIter(fields);
    var slots, seen := start, {};
    while |stream.left| > 0
      invariant iter.Valid() && fresh(iter) && iter.fields == fields && |slots| == |fields|
      invariant |stream.left| <= |old(stream.left)|
      invariant ReadFields(fields, stream.left, Progress(slots, iter.pos, seen)) == target
      decreases |stream.left|
    {
      ghost var p, s0 := Progress(slots, iter.pos, seen), stream.left;
      var t := stream.DecodeVarint32();
      if t.None? {
        return None;
      }
      if t.value == 0 {
        break;
      }
      var tag, wire := t.value / 8, t.value % 8;
      var found := iter.FindField(tag);
      if !found {
        var ok := stream.SkipField(wire);
        if !ok {
          return None;
        }
      } else {
        var i := iter.pos;
        if fields[i].rule.Required? && iter.requiredIndex < MAX_REQUIRED_FIELDS {
          seen := seen + {iter.requiredIndex};
        }
        var slot := DecodeStaticField(stream, fields[i], wire, slots[i]);
        if slot.None? {
          return None;
        }
        slots := slots[i := slot.value];
      }
    }
    assert Finish(fields, Progress(slots, iter.pos, seen)) == target;
    var all := CheckRequired(iter, seen);
    r := if all then Some(slots) else None;
  }

  // Go to the end of the fields to count the required ones; each must have been seen.
  method CheckRequired(iter: FieldIter, seen: set<nat>) returns (ok: bool)
    requires iter.Valid()
    modifies iter
    ensures ok == Finish(iter.fields, Progress([], 0, seen)).Some?
  {
    var fields := iter.fields;
    var count := 0;
    if fields != [] {
      var more := true;
      var last := iter.pos;
      while more
        invariant iter.Valid() && last < |fields|
        invariant more ==> iter.pos == last
        invariant !more ==> last + 1 == |fields| && count == RequiredBefore(fields, last)
        decreases more, |fields| - iter.pos
      {
        count := iter.requiredIndex;
        last := iter.pos;
        more := iter.Next();
        if more {
          last := iter.pos;
        }
      }
      if fields[last].rule.Required? {
        count := count + 1;
      }
    }
    if count > MAX_REQUIRED_FIELDS {
      count := MAX_REQUIRED_FIELDS;
    }
    ok := forall i | 0 <= i < count :: i in seen;
  }

  // pb_decode
  method Decode(stream: IStream, fields: seq<Field>) returns (r: Option<seq<Slot>>)
    modifies stream
    ensures r == Protobuf.Decode(fields, old(stream.left))
  {
    r := DecodeNoinit(stream, fields, Defaults(fields));
  }
}
