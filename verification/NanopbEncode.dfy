// The encoder of nanopb over an output stream (pb_encode.c): one pass that
// only counts, one that writes.

module NanopbEncode {
  import opened DbFormat
  import opened Coding
  import opened Protobuf
  import opened ProtobufRoundTrip

  // What the encoder refuses: arrays and byte strings longer than their field.
  predicate Encodable(k: Kind, v: Value)
    decreases k, 0
  {
    match k
    case Bytes(max) => |BytesOf(v)| <= max
    case Message(fields) => FieldsEncodable(fields, SlotsOf(v), |fields|)
    case _ => true
  }

  predicate AllEncodable(k: Kind, vs: seq<Value>, n: nat)
    requires n <= |vs|
    decreases k, 1, n
  {
    n > 0 ==> AllEncodable(k, vs, n - 1) && Encodable(k, vs[n - 1])
  }

  predicate SlotEncodable(f: Field, s: Slot)
    decreases f, 3
  {
    match f.rule
    case Required => Encodable(f.kind, RequiredValue(s))
    case Optional => s.Maybe? && s.o.Some? ==> Encodable(f.kind, s.o.value)
    case Repeated(max) => s.Many? ==> |s.vs| <= max && AllEncodable(f.kind, s.vs, |s.vs|)
  }

  predicate FieldsEncodable(fields: seq<Field>, slots: seq<Slot>, n: nat)
    requires n <= |fields|
    decreases fields, n
  {
    n > 0 ==> FieldsEncodable(fields, slots, n - 1) && (n - 1 < |slots| ==> SlotEncodable(fields[n - 1], slots[n - 1]))
  }

  // What the loop has written and what is still to come make up the encoding.
  ghost predicate Halfway(v: nat, value: nat, buffer: seq<byte>) {
    if value > 0 then buffer + Varint(value) == Varint(v)
    else buffer != [] && buffer[|buffer| - 1] >= 128 && buffer[..|buffer| - 1] + [buffer[|buffer| - 1] - 128] == Varint(v)
  }

  lemma HalfwayNext(v: nat, value: nat, buffer: seq<byte>)
    requires value > 0 && Halfway(v, value, buffer)
    ensures Halfway(v, value / 128, buffer + [More(value)])
  {
    if value < 128 {
      assert (buffer + [More(value)])[..|buffer|] == buffer;
    } else {
      assert buffer + ([More(value)] + Varint(value / 128)) == buffer + [More(value)] + Varint(value / 128);
    }
  }

  // Every byte gets its high bit, which the last one loses again.
  method VarintBytes(v: nat) returns (buffer: seq<byte>)
    requires v > 0x7f
    ensures buffer == Varint(v)
  {
    buffer := [];
    var value: nat := v;
    while value > 0
      invariant Halfway(v, value, buffer)
      decreases value
    {
      HalfwayNext(v, value, buffer);
      buffer := buffer + [More(value)];
      value := value / 128;
    }
    var last := |buffer| - 1;
    buffer := buffer[..last] + [buffer[last] - 128];
  }

  // The output after some bytes; a sizing stream has none.
  function Grown(sizing: bool, out: seq<byte>, bytes: seq<byte>): seq<byte> {
    if sizing then out else out + bytes
  }

  lemma GrownTwice(sizing: bool, out: seq<byte>, a: seq<byte>, b: seq<byte>)
    ensures Grown(sizing, Grown(sizing, out, a), b) == Grown(sizing, out, a + b)
  {
    Reassociate(out, a, b);
  }

  class OStream {
    const sizing: bool      // no callback: only count
    const maxSize: nat
    var bytesWritten: nat
    var out: seq<byte>

    ghost predicate Valid()
      reads this
    {
      !sizing ==> bytesWritten <= maxSize
    }

    constructor (sizing: bool, maxSize: nat, out: seq<byte>)
      ensures Valid() && this.sizing == sizing && this.maxSize == maxSize && bytesWritten == 0 && this.out == out
    {
      this.sizing, this.maxSize, bytesWritten, this.out := sizing, maxSize, 0, out;
    }

    // Room for n more bytes.
    predicate Room(n: nat)
      reads this
    {
      sizing || bytesWritten + n <= maxSize
    }

    method Write(buf: seq<byte>) returns (ok: bool)
      requires Valid()
      modifies this
      ensures Valid() && ok == old(Room(|buf|))
      ensures ok ==> bytesWritten == old(bytesWritten) + |buf| && out == Grown(sizing, old(out), buf)
      ensures !ok ==> bytesWritten == old(bytesWritten) && out == old(out)
    {
      if |buf| > 0 && !sizing {
        if bytesWritten + |buf| > maxSize {
          return false;
        }
        out := out + buf;
      }
      bytesWritten := bytesWritten + |buf|;
      return true;
    }

    // pb_write(stream, NULL, size): just sizing.
    method Count(size: nat)
      requires Valid() && sizing
      modifies this`bytesWritten
      ensures Valid() && bytesWritten == old(bytesWritten) + size
    {
      bytesWritten := bytesWritten + size;
    }

    method EncodeVarint(v: nat) returns (ok: bool)
      requires Valid()
      modifies this
      ensures Valid() && ok == old(Room(|Varint(v)|))
      ensures ok ==> bytesWritten == old(bytesWritten) + |Varint(v)| && out == Grown(sizing, old(out), Varint(v))
    {
      if v <= 0x7f {
        ok := Write([v]);
      } else {
        var buffer := VarintBytes(v);
        ok := Write(buffer);
      }
    }

    method EncodeTag(wire: nat, tag: nat) returns (ok: bool)
      requires Valid()
      modifies this
      ensures Valid() && ok == old(Room(|Protobuf.EncodeTag(wire, tag)|))
      ensures ok ==> bytesWritten == old(bytesWritten) + |Protobuf.EncodeTag(wire, tag)|
      ensures ok ==> out == Grown(sizing, old(out), Protobuf.EncodeTag(wire, tag))
    {
      ok := EncodeVarint(tag * 8 + wire);
    }

    method EncodeString(s: seq<byte>) returns (ok: bool)
      requires Valid()
      modifies this
      ensures Valid() && ok == old(Room(|LengthPrefixed(s)|))
      ensures ok ==> bytesWritten == old(bytesWritten) + |LengthPrefixed(s)| && out == Grown(sizing, old(out), LengthPrefixed(s))
    {
      ok := EncodeVarint(|s|);
      if ok {
        ok := Write(s);
        GrownTwice(sizing, old(out), Varint(|s|), s);
      }
    }
  }

  // The encoder of a kind of number: one of the functions in PB_ENCODERS.
  method EncodeNumberTo(stream: OStream, k: Kind, n: int) returns (ok: bool)
    requires stream.Valid() && Packable(k)
    modifies stream
    ensures stream.Valid() && ok == old(stream.Room(|EncodeNumber(k, n)|))
    ensures ok ==> stream.bytesWritten == old(stream.bytesWritten) + |EncodeNumber(k, n)|
    ensures ok ==> stream.out == Grown(stream.sizing, old(stream.out), EncodeNumber(k, n))
  {
    match k
    case Bool => ok := stream.EncodeVarint(if n != 0 then 1 else 0);
    case Int(_) => ok := stream.EncodeVarint(Bits64(n));
    case UInt(_) => ok := stream.EncodeVarint(Bits64(n));
    case SInt(_) => ok := stream.EncodeVarint(ZigZag(n));
    case Fixed32 => ok := stream.Write(EncodeFixed32(n % TWO_32));
    case Fixed64 => ok := stream.Write(EncodeFixed64(n % TWO_64));
  }

  method EncodeValueTo(stream: OStream, k: Kind, v: Value) returns (ok: bool)
    requires stream.Valid()
    modifies stream
    ensures stream.Valid() && ok == (Encodable(k, v) && old(stream.Room(|EncodeValue(k, v)|)))
    ensures ok ==> stream.bytesWritten == old(stream.bytesWritten) + |EncodeValue(k, v)|
    ensures ok ==> stream.out == Grown(stream.sizing, old(stream.out), EncodeValue(k, v))
    decreases k, 0
  {
    match k
    case Bytes(max) =>
      if |BytesOf(v)| > max {
        return false;
      }
      ok := stream.EncodeString(BytesOf(v));
    case Message(fields) =>
      ok := EncodeSubmessage(stream, fields, SlotsOf(v));
    case _ =>
      ok := EncodeNumberTo(stream, k, NumberOf(v));
  }

  // The length comes first, so the message is encoded twice; the second pass
  // writes as many bytes as the first one counted.
  method EncodeSubmessage(stream: OStream, fields: seq<Field>, slots: seq<Slot>) returns (ok: bool)
    requires stream.Valid()
    modifies stream
    ensures stream.Valid()
    ensures ok == (FieldsEncodable(fields, slots, |fields|) && old(stream.Room(|LengthPrefixed(Encode(fields, slots))|)))
    ensures ok ==> stream.bytesWritten == old(stream.bytesWritten) + |LengthPrefixed(Encode(fields, slots))|
    ensures ok ==> stream.out == Grown(stream.sizing, old(stream.out), LengthPrefixed(Encode(fields, slots)))
    decreases fields, |fields| + 2
  {
    var counter := new OStream(true, 0, []);
    ok := EncodeMessage(counter, fields, slots);
    if !ok {
      return;
    }
    var size := counter.bytesWritten;
    ok := stream.EncodeVarint(size);
    if !ok {
      return;
    }
    if stream.sizing {
      stream.Count(size);
      return;
    }
    if stream.bytesWritten + size > stream.maxSize {
      return false;
    }
    var substream := new OStream(false, size, stream.out);
    ok := EncodeMessage(substream, fields, slots);
    stream.bytesWritten := stream.bytesWritten + substream.bytesWritten;
    stream.out := substream.out;
    GrownTwice(false, old(stream.out), Varint(size), Encode(fields, slots));
    assert ok && substream.bytesWritten == size;   // "submsg size changed" cannot happen
  }

  // The total size of a packed array.
  method PackedSize(k: Kind, vs: seq<Value>) returns (size: nat)
    requires Packable(k)
    ensures size == |EncodeBody(k, vs, |vs|)|
  {
    if k == Fixed32 {
      size := 4 * |vs|;
      FixedBody(k, vs, |vs|);
    } else if k == Fixed64 {
      size := 8 * |vs|;
      FixedBody(k, vs, |vs|);
    } else {
      var counter := new OStream(true, 0, []);
      var ok := EncodeItems(counter, k, vs);
      size := counter.bytesWritten;
    }
  }

  method EncodePacked(stream: OStream, tag: nat, k: Kind, vs: seq<Value>) returns (ok: bool)
    requires stream.Valid() && Packable(k) && vs != []
    modifies stream
    ensures stream.Valid() && ok == old(stream.Room(|EncodeArray(tag, k, vs)|))
    ensures ok ==> stream.bytesWritten == old(stream.bytesWritten) + |EncodeArray(tag, k, vs)|
    ensures ok ==> stream.out == Grown(stream.sizing, old(stream.out), EncodeArray(tag, k, vs))
    decreases k, 1, |vs| + 1
  {
    ok := stream.EncodeTag(WT_STRING, tag);
    if !ok {
      return;
    }
    var size := PackedSize(k, vs);
    ok := stream.EncodeVarint(size);
    if !ok {
      return;
    }
    if stream.sizing {
      stream.Count(size);
      return;
    }
    ok := EncodeItems(stream, k, vs);
    GrownTwice(stream.sizing, old(stream.out), Protobuf.EncodeTag(WT_STRING, tag), Varint(size));
    GrownTwice(stream.sizing, old(stream.out), Protobuf.EncodeTag(WT_STRING, tag) + Varint(size), EncodeBody(k, vs, |vs|));
    Reassociate(Protobuf.EncodeTag(WT_STRING, tag), Varint(size), EncodeBody(k, vs, |vs|));
  }

  lemma {:induction false} FixedBody(k: Kind, vs: seq<Value>, n: nat)
    requires (k == Fixed32 || k == Fixed64) && n <= |vs|
    ensures |EncodeBody(k, vs, n)| == n * if k == Fixed32 then 4 else 8
  {
    if n > 0 {
      FixedBody(k, vs, n - 1);
    }
  }

  // The items of a packed array.
  method EncodeItems(stream: OStream, k: Kind, vs: seq<Value>) returns (ok: bool)
    requires stream.Valid() && Packable(k)
    modifies stream
    ensures stream.Valid() && ok == old(stream.Room(|EncodeBody(k, vs, |vs|)|))
    ensures ok ==> stream.bytesWritten == old(stream.bytesWritten) + |EncodeBody(k, vs, |vs|)|
    ensures ok ==> stream.out == Grown(stream.sizing, old(stream.out), EncodeBody(k, vs, |vs|))
  {
    var i: nat := 0;
    ghost var done: seq<byte> := [];
    while i < |vs|
      invariant i <= |vs| && stream.Valid() && (stream.sizing || old(stream.bytesWritten) + |done| <= stream.maxSize)
      invariant done == EncodeBody(k, vs, i)
      invariant stream.bytesWritten == old(stream.bytesWritten) + |done|
      invariant stream.out == Grown(stream.sizing, old(stream.out), done)
    {
      ghost var item := EncodeNumber(k, NumberOf(vs[i]));
      ItemNext(k, vs, i, done, item);
      ok := EncodeNumberTo(stream, k, NumberOf(vs[i]));
      if !ok {
        return;
      }
      GrownTwice(stream.sizing, old(stream.out), done, item);
      done := done + item;
      i := i + 1;
    }
    ok := true;
  }

  lemma ItemNext(k: Kind, vs: seq<Value>, i: nat, done: seq<byte>, item: seq<byte>)
    requires Packable(k) && i < |vs| && done == EncodeBody(k, vs, i) && item == EncodeNumber(k, NumberOf(vs[i]))
    ensures done + item == EncodeBody(k, vs, i + 1) && |done| + |item| <= |EncodeBody(k, vs, |vs|)|
  {
    BodyNext(k, vs, i);
  }

  lemma {:induction false} BodyGrows(k: Kind, vs: seq<Value>, m: nat, n: nat)
    requires m <= n <= |vs|
    ensures |EncodeBody(k, vs, m)| <= |EncodeBody(k, vs, n)|
  {
    if m < n {
      BodyGrows(k, vs, m, n - 1);
    }
  }

  lemma BodyNext(k: Kind, vs: seq<Value>, i: nat)
    requires Packable(k) && i < |vs|
    ensures EncodeBody(k, vs, i + 1) == EncodeBody(k, vs, i) + EncodeNumber(k, NumberOf(vs[i]))
    ensures |EncodeBody(k, vs, i + 1)| <= |EncodeBody(k, vs, |vs|)|
  {
    BodyGrows(k, vs, i + 1, |vs|);
  }

  lemma {:induction false} EachGrows(tag: nat, k: Kind, vs: seq<Value>, m: nat, n: nat)
    requires m <= n <= |vs|
    ensures |EncodeEach(tag, k, vs, m)| <= |EncodeEach(tag, k, vs, n)|
    ensures AllEncodable(k, vs, n) ==> AllEncodable(k, vs, m)
  {
    if m < n {
      EachGrows(tag, k, vs, m, n - 1);
      EachStep(tag, k, vs, n - 1);
    }
  }

  lemma EachStep(tag: nat, k: Kind, vs: seq<Value>, n: nat)
    requires n < |vs|
    ensures |EncodeEach(tag, k, vs, n)| <= |EncodeEach(tag, k, vs, n + 1)|
    ensures AllEncodable(k, vs, n + 1) ==> AllEncodable(k, vs, n)
  {
  }

  lemma {:induction false} FieldsGrow(fields: seq<Field>, slots: seq<Slot>, m: nat, n: nat)
    requires m <= n <= |fields|
    ensures |EncodeFields(fields, slots, m)| <= |EncodeFields(fields, slots, n)|
    ensures FieldsEncodable(fields, slots, n) ==> FieldsEncodable(fields, slots, m)
  {
    if m < n {
      FieldsGrow(fields, slots, m, n - 1);
    }
  }

  lemma {:induction false} NumbersEncodable(k: Kind, vs: seq<Value>, n: nat)
    requires Packable(k) && n <= |vs|
    ensures AllEncodable(k, vs, n)
  {
    if n > 0 {
      NumbersEncodable(k, vs, n - 1);
    }
  }

  // Array elements each with its tag.
  method EncodeTagged(stream: OStream, tag: nat, k: Kind, vs: seq<Value>) returns (ok: bool)
    requires stream.Valid()
    modifies stream
    ensures stream.Valid() && ok == (AllEncodable(k, vs, |vs|) && old(stream.Room(|EncodeEach(tag, k, vs, |vs|)|)))
    ensures ok ==> stream.bytesWritten == old(stream.bytesWritten) + |EncodeEach(tag, k, vs, |vs|)|
    ensures ok ==> stream.out == Grown(stream.sizing, old(stream.out), EncodeEach(tag, k, vs, |vs|))
    decreases k, 1, |vs| + 1
  {
    var i: nat := 0;
    ghost var done: seq<byte> := [];
    while i < |vs|
      invariant i <= |vs| && stream.Valid() && AllEncodable(k, vs, i) && (stream.sizing || old(stream.bytesWritten) + |done| <= stream.maxSize)
      invariant done == EncodeEach(tag, k, vs, i)
      invariant stream.bytesWritten == old(stream.bytesWritten) + |done|
      invariant stream.out == Grown(stream.sizing, old(stream.out), done)
    {
      EachNext(tag, k, vs, i);
      ok := EncodeOne(stream, tag, k, vs[i]);
      if !ok {
        return;
      }
      GrownTwice(stream.sizing, old(stream.out), done, (Protobuf.EncodeTag(WireType(k), tag) + EncodeValue(k, vs[i])));
      done := done + (Protobuf.EncodeTag(WireType(k), tag) + EncodeValue(k, vs[i]));
      i := i + 1;
    }
    ok := true;
  }

  // One element more; what does not fit or cannot be encoded now never will.
  lemma EachNext(tag: nat, k: Kind, vs: seq<Value>, i: nat)
    requires i < |vs|
    ensures EncodeEach(tag, k, vs, i + 1) == EncodeEach(tag, k, vs, i) + (Protobuf.EncodeTag(WireType(k), tag) + EncodeValue(k, vs[i]))
    ensures |EncodeEach(tag, k, vs, i + 1)| <= |EncodeEach(tag, k, vs, |vs|)|
    ensures AllEncodable(k, vs, i + 1) <==> AllEncodable(k, vs, i) && Encodable(k, vs[i])
    ensures AllEncodable(k, vs, |vs|) ==> AllEncodable(k, vs, i + 1)
  {
    Reassociate(EncodeEach(tag, k, vs, i), Protobuf.EncodeTag(WireType(k), tag), EncodeValue(k, vs[i]));
    EachGrows(tag, k, vs, i + 1, |vs|);
  }

  lemma FieldsNext(fields: seq<Field>, slots: seq<Slot>, i: nat)
    requires i < |fields|
    ensures EncodeFields(fields, slots, i + 1) == EncodeFields(fields, slots, i) + if i < |slots| then EncodeSlot(fields[i], slots[i]) else []
    ensures |EncodeFields(fields, slots, i + 1)| <= |EncodeFields(fields, slots, |fields|)|
    ensures FieldsEncodable(fields, slots, i + 1) <==> FieldsEncodable(fields, slots, i) && (i < |slots| ==> SlotEncodable(fields[i], slots[i]))
    ensures FieldsEncodable(fields, slots, |fields|) ==> FieldsEncodable(fields, slots, i + 1)
  {
    FieldsGrow(fields, slots, i + 1, |fields|);
  }

  // A tag and a value.
  method EncodeOne(stream: OStream, tag: nat, k: Kind, v: Value) returns (ok: bool)
    requires stream.Valid()
    modifies stream
    ensures stream.Valid() && ok == (Encodable(k, v) && old(stream.Room(|Protobuf.EncodeTag(WireType(k), tag) + EncodeValue(k, v)|)))
    ensures ok ==> stream.bytesWritten == old(stream.bytesWritten) + |Protobuf.EncodeTag(WireType(k), tag) + EncodeValue(k, v)|
    ensures ok ==> stream.out == Grown(stream.sizing, old(stream.out), Protobuf.EncodeTag(WireType(k), tag) + EncodeValue(k, v))
    decreases k, 1, 0
  {
    ok := stream.EncodeTag(WireType(k), tag);
    if ok {
      ok := EncodeValueTo(stream, k, v);
      GrownTwice(stream.sizing, old(stream.out), Protobuf.EncodeTag(WireType(k), tag), EncodeValue(k, v));
    }
  }

  // encode_basic_field, with encode_array for repeated fields.
  method EncodeField(stream: OStream, f: Field, slot: Slot) returns (ok: bool)
    requires stream.Valid()
    modifies stream
    ensures stream.Valid() && ok == (SlotEncodable(f, slot) && old(stream.Room(|EncodeSlot(f, slot)|)))
    ensures ok ==> stream.bytesWritten == old(stream.bytesWritten) + |EncodeSlot(f, slot)|
    ensures ok ==> stream.out == Grown(stream.sizing, old(stream.out), EncodeSlot(f, slot))
    decreases f, 3
  {
    match f.rule
    case Required =>
      ok := EncodeOne(stream, f.tag, f.kind, RequiredValue(slot));
    case Optional =>
      ok := true;
      if slot.Maybe? && slot.o.Some? {
        ok := EncodeOne(stream, f.tag, f.kind, slot.o.value);
      }
    case Repeated(max) =>
      ok := true;
      if slot.Many? && slot.vs != [] {
        if |slot.vs| > max {
          return false;
        }
        if Packable(f.kind) {
          NumbersEncodable(f.kind, slot.vs, |slot.vs|);
          ok := EncodePacked(stream, f.tag, f.kind, slot.vs);
        } else {
          ok := EncodeTagged(stream, f.tag, f.kind, slot.vs);
        }
      }
  }

  // pb_encode: the fields in the order of the descriptor.
  method EncodeMessage(stream: OStream, fields: seq<Field>, slots: seq<Slot>) returns (ok: bool)
    requires stream.Valid()
    modifies stream
    ensures stream.Valid() && ok == (FieldsEncodable(fields, slots, |fields|) && old(stream.Room(|Encode(fields, slots)|)))
    ensures ok ==> stream.bytesWritten == old(stream.bytesWritten) + |Encode(fields, slots)|
    ensures ok ==> stream.out == Grown(stream.sizing, old(stream.out), Encode(fields, slots))
    decreases fields, |fields| + 1
  {
    var i: nat := 0;
    ghost var done: seq<byte> := [];
    while i < |fields|
      invariant i <= |fields| && stream.Valid() && FieldsEncodable(fields, slots, i) && (stream.sizing || old(stream.bytesWritten) + |done| <= stream.maxSize)
      invariant done == EncodeFields(fields, slots, i)
      invariant stream.bytesWritten == old(stream.bytesWritten) + |done|
      invariant stream.out == Grown(stream.sizing, old(stream.out), done)
    {
      FieldsNext(fields, slots, i);
      if i < |slots| {
        ok := EncodeField(stream, fields[i], slots[i]);
        if !ok {
          return;
        }
        GrownTwice(stream.sizing, old(stream.out), done, EncodeSlot(fields[i], slots[i]));
        done := done + EncodeSlot(fields[i], slots[i]);
      }
      i := i + 1;
    }
    ok := true;
  }

  // ---- A message that fits is encoded whenever there is room ------------

  lemma {:induction false} FitsEncodable(k: Kind, v: Value)
    requires Fits(k, v)
    ensures Encodable(k, v)
    decreases k, 0
  {
    if k.Message? {
      FieldsFitEncodable(k.fields, v.slots, |k.fields|);
    }
  }

  lemma {:induction false} AllFitEncodable(k: Kind, vs: seq<Value>, n: nat)
    requires n <= |vs| && AllFit(k, vs, n)
    ensures AllEncodable(k, vs, n)
    decreases k, 1, n
  {
    if n > 0 {
      AllFitEncodable(k, vs, n - 1);
      FitsEncodable(k, vs[n - 1]);
    }
  }

  lemma {:induction false} SlotFitsEncodable(f: Field, s: Slot)
    requires SlotFits(f, s)
    ensures SlotEncodable(f, s)
    decreases f, 3
  {
    match f.rule
    case Required => FitsEncodable(f.kind, s.v);
    case Optional =>
      if s.o.Some? {
        FitsEncodable(f.kind, s.o.value);
      }
    case Repeated(_) => AllFitEncodable(f.kind, s.vs, |s.vs|);
  }

  lemma {:induction false} FieldsFitEncodable(fields: seq<Field>, slots: seq<Slot>, n: nat)
    requires n <= |fields| && FieldsFit(fields, slots, n)
    ensures FieldsEncodable(fields, slots, n)
    decreases fields, n
  {
    if n > 0 {
      FieldsFitEncodable(fields, slots, n - 1);
      SlotFitsEncodable(fields[n - 1], slots[n - 1]);
    }
  }

  // pb_get_encoded_size counts exactly what pb_encode then writes: with that much
  // room it succeeds, and what it wrote decodes to the message.
  method SizeThenEncode(fields: seq<Field>, slots: seq<Slot>) returns (size: nat, out: seq<byte>)
    requires MessageFits(fields, slots)
    ensures |out| == size && out == Encode(fields, slots) && Protobuf.Decode(fields, out) == Some(slots)
  {
    FieldsFitEncodable(fields, slots, |fields|);
    MessageRoundTrip(fields, slots);
    var counter := new OStream(true, 0, []);
    var counted := EncodeMessage(counter, fields, slots);
    size := counter.bytesWritten;
    var stream := new OStream(false, size, []);
    var ok := EncodeMessage(stream, fields, slots);
    assert ok;
    out := stream.out;
  }
}
