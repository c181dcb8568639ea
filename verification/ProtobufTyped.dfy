// Whatever bytes are decoded, the message that comes out fits its C structure
// (pb_decode.c, decode_static_field, pb_dec_varint, pb_dec_bytes).

module ProtobufTyped {
  import opened DbFormat
  import opened Coding
  import opened Protobuf
  import opened ProtobufRoundTrip

  // Integer fields have one of the four sizes.
  ghost predicate WfKind(k: Kind)
    decreases k
  {
    match k
    case Int(bits) => IntSize(bits)
    case UInt(bits) => IntSize(bits)
    case SInt(bits) => IntSize(bits)
    case Message(fields) => forall i {:trigger fields[i]} :: 0 <= i < |fields| ==> WfKind(fields[i].kind)
    case _ => true
  }

  ghost predicate WfFields(fields: seq<Field>) {
    forall i {:trigger fields[i]} :: 0 <= i < |fields| ==> WfKind(fields[i].kind)
  }

  // Numbers in the range of their type, byte strings and arrays no longer than their field.
  ghost predicate Typed(k: Kind, v: Value)
    decreases k, 0
  {
    match k
    case Bytes(max) => v.Blob? && |v.b| <= max
    case Message(fields) => v.Sub? && |v.slots| == |fields| && AllTyped(fields, v.slots, |fields|)
    case _ => v.Num? && NumberFits(k, v.n)
  }

  ghost predicate SlotTyped(f: Field, s: Slot)
    decreases f, 3
  {
    match f.rule
    case Required => s.One? && Typed(f.kind, s.v)
    case Optional => s.Maybe? && (s.o.Some? ==> Typed(f.kind, s.o.value))
    case Repeated(max) => s.Many? && |s.vs| <= max && ValuesTyped(f.kind, s.vs, |s.vs|)
  }

  ghost predicate ValuesTyped(k: Kind, vs: seq<Value>, n: nat)
    requires n <= |vs|
    decreases k, 1, n
  {
    n > 0 ==> ValuesTyped(k, vs, n - 1) && Typed(k, vs[n - 1])
  }

  ghost predicate AllTyped(fields: seq<Field>, slots: seq<Slot>, n: nat)
    requires n <= |fields| && n <= |slots|
    decreases fields, n
  {
    n > 0 ==> AllTyped(fields, slots, n - 1) && SlotTyped(fields[n - 1], slots[n - 1])
  }

  lemma {:induction false} TypedAt(fields: seq<Field>, slots: seq<Slot>, n: nat, i: nat)
    requires i < n <= |fields| && n <= |slots| && AllTyped(fields, slots, n)
    ensures SlotTyped(fields[i], slots[i])
  {
    if i < n - 1 {
      TypedAt(fields, slots, n - 1, i);
    }
  }

  lemma {:induction false} SetTyped(fields: seq<Field>, slots: seq<Slot>, n: nat, i: nat, s: Slot)
    requires n <= |fields| && n <= |slots| && i < |slots| && AllTyped(fields, slots, n) && (i < |fields| ==> SlotTyped(fields[i], s))
    ensures AllTyped(fields, slots[i := s], n)
  {
    if n > 0 {
      SetTyped(fields, slots, n - 1, i, s);
    }
  }

  lemma {:induction false} OneMoreTyped(k: Kind, vs: seq<Value>, n: nat, v: Value)
    requires n <= |vs| && ValuesTyped(k, vs, n)
    ensures ValuesTyped(k, vs + [v], n)
  {
    if n > 0 {
      OneMoreTyped(k, vs, n - 1, v);
    }
  }

  lemma {:induction false} DefaultTyped(k: Kind)
    requires WfKind(k)
    ensures Typed(k, Default(k))
    decreases k, 0
  {
    match k
    case Message(fields) =>
      DefaultsTyped(fields, |fields|);
    case Int(bits) => ZeroFits(bits);
    case UInt(bits) => ZeroFits(bits);
    case SInt(bits) => ZeroFits(bits);
    case _ =>
  }

  lemma ZeroFits(bits: nat)
    requires IntSize(bits)
    ensures FitsSigned(bits, 0) && 0 < Pow2(bits)
  {
    Pow2Grows(0, bits);
    Pow2Grows(0, bits - 1);
  }

  lemma {:induction false} DefaultsTyped(fields: seq<Field>, n: nat)
    requires WfFields(fields) && n <= |fields|
    ensures AllTyped(fields, Defaults(fields), n)
    decreases fields, n
  {
    if n > 0 {
      DefaultsTyped(fields, n - 1);
      DefaultsAt(fields, n - 1);
      DefaultSlotTyped(fields[n - 1]);
    }
  }

  lemma {:induction false} DefaultSlotTyped(f: Field)
    requires WfKind(f.kind)
    ensures SlotTyped(f, DefaultSlot(f))
    decreases f, 3
  {
    DefaultTyped(f.kind);
  }

  // ---- Reading ----------------------------------------------------------

  lemma NumberTyped(k: Kind, s: seq<byte>)
    requires WfKind(k) && ReadNumber(k, s).Some?
    ensures NumberFits(k, ReadNumber(k, s).value.0)
  {
    match k
    case Fixed32 => assert DecodeFixed32(s) < TWO_32;
    case Fixed64 => assert DecodeFixed64(s) < TWO_64;
    case _ =>
  }

  lemma {:induction false} ValueTyped(k: Kind, s: seq<byte>, was: Value)
    requires WfKind(k) && Typed(k, was) && ReadValue(k, s, was).Some?
    ensures Typed(k, ReadValue(k, s, was).value.0)
    decreases |s|, 0
  {
    match k
    case Bytes(_) =>
    case Message(fields) =>
      FieldsTyped(fields, Substream(s).value.0, Progress(OldSlots(fields, was), 0, {}));
    case _ =>
      NumberTyped(k, s);
  }

  lemma {:induction false} PackedTyped(k: Kind, max: nat, s: seq<byte>, vs: seq<Value>)
    requires WfKind(k) && |vs| <= max && ValuesTyped(k, vs, |vs|) && ReadPacked(k, max, s, vs).Some?
    ensures var r := ReadPacked(k, max, s, vs).value; |r| <= max && ValuesTyped(k, r, |r|)
    decreases |s|, 1
  {
    if s != [] {
      DefaultTyped(k);
      ValueTyped(k, s, Default(k));
      var t := ReadValue(k, s, Default(k)).value;
      OneMoreTyped(k, vs, |vs|, t.0);
      PackedTyped(k, max, t.1, vs + [t.0]);
    }
  }

  lemma {:induction false} SlotStaysTyped(f: Field, wire: nat, s: seq<byte>, slot: Slot)
    requires WfKind(f.kind) && SlotTyped(f, slot) && ReadSlot(f, wire, s, slot).Some?
    ensures SlotTyped(f, ReadSlot(f, wire, s, slot).value.0)
    decreases |s|, 2
  {
    DefaultTyped(f.kind);
    match f.rule
    case Repeated(max) =>
      if wire == WT_STRING && Packable(f.kind) {
        PackedTyped(f.kind, max, Substream(s).value.0, slot.vs);
      } else {
        ValueTyped(f.kind, s, Default(f.kind));
        OneMoreTyped(f.kind, slot.vs, |slot.vs|, ReadValue(f.kind, s, Default(f.kind)).value.0);
      }
    case _ =>
      ValueTyped(f.kind, s, OldValue(f.kind, slot));
  }

  lemma {:induction false} FieldsTyped(fields: seq<Field>, s: seq<byte>, p: Progress)
    requires WfFields(fields) && |p.slots| == |fields| && AllTyped(fields, p.slots, |fields|) && ReadFields(fields, s, p).Some?
    ensures AllTyped(fields, ReadFields(fields, s, p).value, |fields|)
    decreases |s|, 3
  {
    if s != [] {
      var t := ReadVarint32(s).value;
      if t.0 != 0 {
        var i := Find(fields, p.pos, t.0 / 8);
        if i.None? {
          FieldsTyped(fields, SkipField(t.0 % 8, t.1).value, p);
        } else {
          TypedAt(fields, p.slots, |fields|, i.value);
          SlotStaysTyped(fields[i.value], t.0 % 8, t.1, p.slots[i.value]);
          var f := ReadSlot(fields[i.value], t.0 % 8, t.1, p.slots[i.value]).value;
          SetTyped(fields, p.slots, |fields|, i.value, f.0);
          FieldsTyped(fields, f.1, Progress(p.slots[i.value := f.0], i.value, See(fields, i.value, p.seen)));
        }
      }
    }
  }

  // Decoding any bytes gives a message that fits, or none.
  lemma DecodedTyped(fields: seq<Field>, s: seq<byte>)
    requires WfFields(fields) && Decode(fields, s).Some?
    ensures var r := Decode(fields, s).value; |r| == |fields| && AllTyped(fields, r, |fields|)
  {
    DefaultsTyped(fields, |fields|);
    FieldsTyped(fields, s, Progress(Defaults(fields), 0, {}));
  }
}
