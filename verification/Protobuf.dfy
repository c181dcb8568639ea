// Messages as nanopb encodes them (pb_encode.c, pb_decode.c): descriptors,
// values, the bytes written, and what a decoder makes of any bytes.  The wire
// format is that of the Protocol Buffers "Encoding" specification.

module Protobuf {
  import opened DbFormat
  import opened Coding

  // The type of one value; integers and byte strings with the size of their C field.
  datatype Kind =
    | Bool
    | Int(bits: nat)       // varint, two's complement
    | UInt(bits: nat)
    | SInt(bits: nat)      // zigzag
    | Fixed32
    | Fixed64
    | Bytes(max: nat)
    | Message(fields: seq<Field>)

  datatype Rule = Required | Optional | Repeated(max: nat)

  datatype Field = Field(tag: nat, rule: Rule, kind: Kind)

  datatype Value = Num(n: int) | Blob(b: seq<byte>) | Sub(slots: seq<Slot>)

  // A field of the C structure, by its rule: an array has its count, an optional its has_ flag.
  datatype Slot = One(v: Value) | Maybe(o: Option<Value>) | Many(vs: seq<Value>)

  const WT_VARINT := 0
  const WT_64BIT := 1
  const WT_STRING := 2
  const WT_32BIT := 5

  const MAX_REQUIRED_FIELDS: nat := 64

  predicate Packable(k: Kind) {
    !k.Bytes? && !k.Message?
  }

  function WireType(k: Kind): nat {
    match k
    case Bool | Int(_) | UInt(_) | SInt(_) => WT_VARINT
    case Fixed32 => WT_32BIT
    case Fixed64 => WT_64BIT
    case Bytes(_) | Message(_) => WT_STRING
  }

  // ---- Defaults ---------------------------------------------------------

  function Default(k: Kind): Value {
    match k
    case Bytes(_) => Blob([])
    case Message(fields) => Sub(Defaults(fields))
    case _ => Num(0)
  }

  function DefaultSlot(f: Field): Slot {
    match f.rule
    case Required => One(Default(f.kind))
    case Optional => Maybe(None)
    case Repeated(_) => Many([])
  }

  function Defaults(fields: seq<Field>): (r: seq<Slot>)
    ensures |r| == |fields|
  {
    if fields == [] then [] else Defaults(fields[..|fields| - 1]) + [DefaultSlot(fields[|fields| - 1])]
  }

  lemma {:induction false} DefaultsAt(fields: seq<Field>, i: nat)
    requires i < |fields|
    ensures Defaults(fields)[i] == DefaultSlot(fields[i])
  {
    var n := |fields| - 1;
    if i < n {
      DefaultsAt(fields[..n], i);
    }
  }

  // ---- What is written --------------------------------------------------

  // A number as 64 bits.
  function Bits64(n: int): nat {
    n % TWO_64
  }

  // (n << 1) ^ (n >> 63), in 64 bits.
  function ZigZag(n: int): nat {
    (if n < 0 then -2 * n - 1 else 2 * n) % TWO_64
  }

  function EncodeTag(wire: nat, tag: nat): seq<byte> {
    Varint(tag * 8 + wire)
  }

  function NumberOf(v: Value): int {
    if v.Num? then v.n else 0
  }

  function BytesOf(v: Value): seq<byte> {
    if v.Blob? then v.b else []
  }

  function SlotsOf(v: Value): seq<Slot> {
    if v.Sub? then v.slots else []
  }

  function EncodeNumber(k: Kind, n: int): seq<byte> {
    match k
    case Bool => Varint(if n != 0 then 1 else 0)
    case Int(_) => Varint(Bits64(n))
    case UInt(_) => Varint(Bits64(n))
    case SInt(_) => Varint(ZigZag(n))
    case Fixed32 => EncodeFixed32(n % TWO_32)
    case Fixed64 => EncodeFixed64(n % TWO_64)
    case _ => []
  }

  // A value without its tag.
  function EncodeValue(k: Kind, v: Value): seq<byte>
    decreases k, 0
  {
    match k
    case Bytes(_) => LengthPrefixed(BytesOf(v))
    case Message(fields) => LengthPrefixed(EncodeFields(fields, SlotsOf(v), |fields|))
    case _ => EncodeNumber(k, NumberOf(v))
  }

  // Values one after the other.
  function EncodeBody(k: Kind, vs: seq<Value>, n: nat): seq<byte>
    requires n <= |vs|
    decreases k, 1, n
  {
    if n == 0 then [] else EncodeBody(k, vs, n - 1) + EncodeValue(k, vs[n - 1])
  }

  // Each with its tag.
  function EncodeEach(tag: nat, k: Kind, vs: seq<Value>, n: nat): seq<byte>
    requires n <= |vs|
    decreases k, 1, n
  {
    if n == 0 then [] else EncodeEach(tag, k, vs, n - 1) + EncodeTag(WireType(k), tag) + EncodeValue(k, vs[n - 1])
  }

  // Arrays are packed when the type allows it.
  function EncodeArray(tag: nat, k: Kind, vs: seq<Value>): seq<byte>
    decreases k, 2
  {
    if vs == [] then []
    else if Packable(k) then EncodeTag(WT_STRING, tag) + LengthPrefixed(EncodeBody(k, vs, |vs|))
    else EncodeEach(tag, k, vs, |vs|)
  }

  function RequiredValue(s: Slot): Value {
    if s.One? then s.v else Num(0)
  }

  function EncodeSlot(f: Field, s: Slot): seq<byte>
    decreases f, 3
  {
    match f.rule
    case Required => EncodeTag(WireType(f.kind), f.tag) + EncodeValue(f.kind, RequiredValue(s))
    case Optional => if s.Maybe? && s.o.Some? then EncodeTag(WireType(f.kind), f.tag) + EncodeValue(f.kind, s.o.value) else []
    case Repeated(_) => if s.Many? then EncodeArray(f.tag, f.kind, s.vs) else []
  }

  // The first n fields.
  function EncodeFields(fields: seq<Field>, slots: seq<Slot>, n: nat): seq<byte>
    requires n <= |fields|
    decreases fields, n
  {
    if n == 0 then []
    else EncodeFields(fields, slots, n - 1) + (if n - 1 < |slots| then EncodeSlot(fields[n - 1], slots[n - 1]) else [])
  }

  function Encode(fields: seq<Field>, slots: seq<Slot>): seq<byte> {
    EncodeFields(fields, slots, |fields|)
  }

  // ---- What is read -----------------------------------------------------

  // pb_decode_varint32: bits beyond the word must be zero, or a sign extension.
  function ReadVarint32(s: seq<byte>): (r: Option<(nat, seq<byte>)>)
    ensures r.Some? ==> |r.value.1| < |s|
  {
    if s == [] then None
    else if s[0] < 128 then Some((s[0] as nat, s[1..]))
    else MoreVarint32(s[1..], 7, (s[0] as nat) - 128)
  }

  function MoreVarint32(s: seq<byte>, bitpos: nat, acc: nat): (r: Option<(nat, seq<byte>)>)
    ensures r.Some? ==> |r.value.1| < |s|
    decreases s
  {
    if s == [] then None
    else
      var b: nat := s[0];
      if bitpos >= 32 && b % 128 != 0 && (acc < TWO_32 / 2 || b != (if bitpos < 63 then 0xff else 0x01)) then None
      else
        var next := if bitpos >= 32 then acc else Shifted(acc, b % 128, bitpos) % TWO_32;
        if b >= 128 then MoreVarint32(s[1..], bitpos + 7, next)
        else if bitpos == 28 && b / 16 % 8 != 0 then None
        else Some((next, s[1..]))
  }

  // A length and that many bytes: what they are, and what is left after them.
  function Substream(s: seq<byte>): (r: Option<(seq<byte>, seq<byte>)>)
    ensures r.Some? ==> |r.value.0| + |r.value.1| < |s|
  {
    var size := ReadVarint32(s);
    if size.None? || |size.value.1| < size.value.0 then None
    else Some((size.value.1[..size.value.0], size.value.1[size.value.0..]))
  }

  function SkipVarint(s: seq<byte>): (r: Option<seq<byte>>)
    ensures r.Some? ==> |r.value| < |s|
  {
    if s == [] then None else if s[0] < 128 then Some(s[1..]) else SkipVarint(s[1..])
  }

  function Skip(s: seq<byte>, n: nat): Option<seq<byte>> {
    if |s| < n then None else Some(s[n..])
  }

  function SkipField(wire: nat, s: seq<byte>): (r: Option<seq<byte>>)
    ensures r.Some? ==> |r.value| <= |s|
  {
    if wire == WT_VARINT then SkipVarint(s)
    else if wire == WT_64BIT then Skip(s, 8)
    else if wire == WT_STRING then var t := Substream(s); if t.None? then None else Some(t.value.1)
    else if wire == WT_32BIT then Skip(s, 4)
    else None
  }

  // The low bits of a number as a signed one.
  function Signed(u: nat, half: nat): int
    requires half > 0
  {
    var m: int := u % (2 * half);
    if m >= half then m - 2 * half else m
  }

  // A 32-bit cast first for the smaller fields; then the value must fit.
  function ReadInt(bits: nat, u: nat): Option<int> {
    var n := if bits == 64 then Signed(u, TWO_64 / 2) else Signed(u, TWO_32 / 2);
    if FitsSigned(bits, n) then Some(n) else None
  }

  predicate FitsSigned(bits: nat, n: int) {
    bits > 0 && var half: int := Pow2(bits - 1); -half <= n < half
  }

  // (v >> 1) ^ -(v & 1)
  function UnZigZag(v: nat): int {
    if v % 2 == 1 then -(v / 2) - 1 else v / 2
  }

  function ReadNumber(k: Kind, s: seq<byte>): (r: Option<(int, seq<byte>)>)
    ensures r.Some? ==> |r.value.1| < |s|
  {
    match k
    case Bool =>
      var t := ReadVarint32(s);
      if t.None? then None else Some((if t.value.0 != 0 then 1 else 0, t.value.1))
    case Int(bits) =>
      var t := GetVarint64(s);
      if t.None? then None
      else
        var n := ReadInt(bits, t.value.0);
        if n.None? then None else Some((n.value, t.value.1))
    case UInt(bits) =>
      var t := GetVarint64(s);
      if t.None? || t.value.0 >= Pow2(bits) then None else Some((t.value.0, t.value.1))
    case SInt(bits) =>
      var t := GetVarint64(s);
      if t.None? || !FitsSigned(bits, UnZigZag(t.value.0)) then None else Some((UnZigZag(t.value.0), t.value.1))
    case Fixed32 => if |s| < 4 then None else Some((DecodeFixed32(s), s[4..]))
    case Fixed64 => if |s| < 8 then None else Some((DecodeFixed64(s), s[8..]))
    case _ => None
  }

  // ---- Fields -----------------------------------------------------------

  // The iterator goes round the fields from where it stands.
  function Search(fields: seq<Field>, pos: nat, steps: nat, tag: nat): (r: Option<nat>)
    requires pos < |fields|
    ensures r.Some? ==> r.value < |fields| && fields[r.value].tag == tag
    decreases steps
  {
    if steps == 0 then None
    else if fields[pos].tag == tag then Some(pos)
    else Search(fields, if pos + 1 == |fields| then 0 else pos + 1, steps - 1, tag)
  }

  function Find(fields: seq<Field>, pos: nat, tag: nat): (r: Option<nat>)
    ensures r.Some? ==> r.value < |fields| && fields[r.value].tag == tag
  {
    if pos < |fields| then Search(fields, pos, |fields|, tag) else None
  }

  // How many required fields come before field i.
  function RequiredBefore(fields: seq<Field>, i: nat): nat
    requires i <= |fields|
  {
    if i == 0 then 0 else RequiredBefore(fields, i - 1) + if fields[i - 1].rule.Required? then 1 else 0
  }

  // Where the decoding of a message stands: the structure, the field iterator,
  // and the required fields seen, by their index among the required ones.
  datatype Progress = Progress(slots: seq<Slot>, pos: nat, seen: set<nat>)

  function See(fields: seq<Field>, i: nat, seen: set<nat>): set<nat>
    requires i < |fields|
  {
    if fields[i].rule.Required? && RequiredBefore(fields, i) < MAX_REQUIRED_FIELDS then seen + {RequiredBefore(fields, i)} else seen
  }

  function Finish(fields: seq<Field>, p: Progress): Option<seq<Slot>> {
    if forall r :: 0 <= r < RequiredBefore(fields, |fields|) && r < MAX_REQUIRED_FIELDS ==> r in p.seen then Some(p.slots) else None
  }

  function OldValue(k: Kind, slot: Slot): Value {
    match slot
    case One(v) => v
    case Maybe(o) => if o.Some? then o.value else Default(k)
    case Many(_) => Default(k)
  }

  function OldSlots(fields: seq<Field>, was: Value): (r: seq<Slot>)
    ensures |r| == |fields|
  {
    if was.Sub? && |was.slots| == |fields| then was.slots else Defaults(fields)
  }

  // One value; a message is read into the one that is there.
  function ReadValue(k: Kind, s: seq<byte>, was: Value): (r: Option<(Value, seq<byte>)>)
    ensures r.Some? ==> |r.value.1| < |s|
    decreases |s|, 0
  {
    match k
    case Bytes(max) =>
      var t := Substream(s);
      if t.None? || |t.value.0| > max then None else Some((Blob(t.value.0), t.value.1))
    case Message(fields) =>
      var t := Substream(s);
      if t.None? then None
      else
        var m := ReadFields(fields, t.value.0, Progress(OldSlots(fields, was), 0, {}));
        if m.None? then None else Some((Sub(m.value), t.value.1))
    case _ =>
      var t := ReadNumber(k, s);
      if t.None? then None else Some((Num(t.value.0), t.value.1))
  }

  // A packed array: it must end where an element ends, and have room.
  function ReadPacked(k: Kind, max: nat, s: seq<byte>, vs: seq<Value>): Option<seq<Value>>
    decreases |s|, 1
  {
    if s == [] then Some(vs)
    else if |vs| >= max then None
    else
      var t := ReadValue(k, s, Default(k));
      if t.None? then None else ReadPacked(k, max, t.value.1, vs + [t.value.0])
  }

  function ReadSlot(f: Field, wire: nat, s: seq<byte>, slot: Slot): (r: Option<(Slot, seq<byte>)>)
    ensures r.Some? ==> |r.value.1| < |s|
    decreases |s|, 2
  {
    match f.rule
    case Repeated(max) =>
      var vs := if slot.Many? then slot.vs else [];
      if wire == WT_STRING && Packable(f.kind) then
        var t := Substream(s);
        if t.None? then None
        else
          var all := ReadPacked(f.kind, max, t.value.0, vs);
          if all.None? then None else Some((Many(all.value), t.value.1))
      else if |vs| >= max then None
      else
        var t := ReadValue(f.kind, s, Default(f.kind));
        if t.None? then None else Some((Many(vs + [t.value.0]), t.value.1))
    case Required =>
      var t := ReadValue(f.kind, s, OldValue(f.kind, slot));
      if t.None? then None else Some((One(t.value.0), t.value.1))
    case Optional =>
      var t := ReadValue(f.kind, s, OldValue(f.kind, slot));
      if t.None? then None else Some((Maybe(Some(t.value.0)), t.value.1))
  }

  // pb_decode_noinit: fields in any order until the end of the stream or a zero tag.
  function ReadFields(fields: seq<Field>, s: seq<byte>, p: Progress): (r: Option<seq<Slot>>)
    requires |p.slots| == |fields|
    ensures r.Some? ==> |r.value| == |fields|
    decreases |s|, 3
  {
    if s == [] then Finish(fields, p)
    else
      var t := ReadVarint32(s);
      if t.None? then None
      else if t.value.0 == 0 then Finish(fields, p)
      else
        var i := Find(fields, p.pos, t.value.0 / 8);
        if i.None? then
          var rest := SkipField(t.value.0 % 8, t.value.1);
          if rest.None? then None else ReadFields(fields, rest.value, p)
        else
          var f := ReadSlot(fields[i.value], t.value.0 % 8, t.value.1, p.slots[i.value]);
          if f.None? then None
          else ReadFields(fields, f.value.1, Progress(p.slots[i.value := f.value.0], i.value, See(fields, i.value, p.seen)))
  }

  function Decode(fields: seq<Field>, s: seq<byte>): Option<seq<Slot>> {
    ReadFields(fields, s, Progress(Defaults(fields), 0, {}))
  }
}
