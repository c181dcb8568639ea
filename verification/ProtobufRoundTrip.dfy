// Decoding what nanopb encoded gives the message back.

module ProtobufRoundTrip {
  import opened DbFormat
  import opened Coding
  import opened Protobuf

  // ---- Messages that fit their descriptor -------------------------------

  predicate IntSize(bits: nat) {
    bits == 8 || bits == 16 || bits == 32 || bits == 64
  }

  ghost predicate TagsDiffer(fields: seq<Field>, i: nat, j: nat)
    requires i < |fields| && j < |fields|
  {
    fields[i].tag != fields[j].tag
  }

  ghost predicate WfTags(fields: seq<Field>) {
    && (forall i {:trigger fields[i]} :: 0 <= i < |fields| ==> 1 <= fields[i].tag < 0x2000_0000)
    && (forall i: nat, j: nat {:trigger TagsDiffer(fields, i, j)} :: i < j < |fields| ==> TagsDiffer(fields, i, j))
  }

  predicate NumberFits(k: Kind, n: int) {
    match k
    case Bool => n == 0 || n == 1
    case Int(bits) => IntSize(bits) && FitsSigned(bits, n)
    case UInt(bits) => IntSize(bits) && 0 <= n < Pow2(bits)
    case SInt(bits) => IntSize(bits) && FitsSigned(bits, n)
    case Fixed32 => 0 <= n < TWO_32
    case Fixed64 => 0 <= n < TWO_64
    case _ => false
  }

  // A value of the C type; lengths fit in 32 bits.
  ghost predicate Fits(k: Kind, v: Value)
    decreases k, 0
  {
    match k
    case Bytes(max) => v.Blob? && |v.b| <= max < TWO_32
    case Message(fields) => v.Sub? && FieldsFit(fields, v.slots, |fields|) && |v.slots| == |fields| && WfTags(fields)
                            && |EncodeFields(fields, v.slots, |fields|)| < TWO_32
    case _ => v.Num? && NumberFits(k, v.n)
  }

  ghost predicate SlotFits(f: Field, s: Slot)
    decreases f, 3
  {
    match f.rule
    case Required => s.One? && Fits(f.kind, s.v)
    case Optional => s.Maybe? && (s.o.Some? ==> Fits(f.kind, s.o.value))
    case Repeated(max) => s.Many? && |s.vs| <= max && AllFit(f.kind, s.vs, |s.vs|)
                          && (Packable(f.kind) ==> |EncodeBody(f.kind, s.vs, |s.vs|)| < TWO_32)
  }

  ghost predicate AllFit(k: Kind, vs: seq<Value>, n: nat)
    requires n <= |vs|
    decreases k, 1, n
  {
    n > 0 ==> AllFit(k, vs, n - 1) && Fits(k, vs[n - 1])
  }

  ghost predicate FieldsFit(fields: seq<Field>, slots: seq<Slot>, n: nat)
    requires n <= |fields|
    decreases fields, n
  {
    n > 0 ==> FieldsFit(fields, slots, n - 1) && n - 1 < |slots| && SlotFits(fields[n - 1], slots[n - 1])
  }

  ghost predicate MessageFits(fields: seq<Field>, slots: seq<Slot>) {
    |slots| == |fields| && WfTags(fields) && FieldsFit(fields, slots, |fields|)
  }

  // ---- Numbers ----------------------------------------------------------

  // The 32-bit decoder reads what the encoder writes.
  lemma MoreLast(v: nat, rest: seq<byte>, bitpos: nat, acc: nat)
    requires v < 128 && bitpos < 32 && Shifted(acc, v, bitpos) < TWO_32 && (bitpos == 28 ==> v < 16)
    ensures MoreVarint32(Varint(v) + rest, bitpos, acc) == Some((Shifted(acc, v, bitpos), rest))
  {
    var s := Varint(v) + rest;
    assert s[1..] == rest && s[0] == v;
    Small(Shifted(acc, v, bitpos), TWO_32);
  }

  lemma MoreMore(v: nat, rest: seq<byte>, bitpos: nat, acc: nat)
    requires v >= 128 && bitpos < 32 && Shifted(acc, v % 128, bitpos) < TWO_32
    ensures MoreVarint32(Varint(v) + rest, bitpos, acc) == MoreVarint32(Varint(v / 128) + rest, bitpos + 7, Shifted(acc, v % 128, bitpos))
  {
    var s := Varint(v) + rest;
    assert s[0] == v % 128 + 128 && s[1..] == Varint(v / 128) + rest;
    Small(Shifted(acc, v % 128, bitpos), TWO_32);
  }

  // Bits left of the word: at the fifth byte only four.
  lemma FifthByte(v: nat, bitpos: nat, acc: nat)
    requires Shifted(acc, v, bitpos) < TWO_32 && bitpos == 28
    ensures v < 16
  {
    Pow2Values();
    Pow2Seven(bitpos);
  }

  lemma {:induction false} MoreRoundTrip(v: nat, rest: seq<byte>, bitpos: nat, acc: nat)
    requires v > 0 && Shifted(acc, v, bitpos) < TWO_32 && bitpos < 35 && bitpos % 7 == 0
    ensures MoreVarint32(Varint(v) + rest, bitpos, acc) == Some((Shifted(acc, v, bitpos), rest))
    decreases v
  {
    if bitpos == 28 {
      FifthByte(v, bitpos, acc);
    }
    if v < 128 {
      MoreLast(v, rest, bitpos, acc);
    } else {
      ShiftedInParts(acc, v, v / 128, v % 128, bitpos);
      MoreMore(v, rest, bitpos, acc);
      MoreRoundTrip(v / 128, rest, bitpos + 7, Shifted(acc, v % 128, bitpos));
    }
  }

  lemma MoreFromSecond(hi: nat, lo: nat, rest: seq<byte>, bitpos: nat)
    requires hi > 0 && lo < 128 && hi * 128 + lo < TWO_32 && bitpos == 7
    ensures MoreVarint32(Varint(hi) + rest, bitpos, lo) == Some((hi * 128 + lo, rest))
  {
    Pow2Values();
    assert Shifted(lo, hi, bitpos) == hi * 128 + lo;
    MoreRoundTrip(hi, rest, bitpos, lo);
  }

  lemma Read32RoundTrip(v: nat, rest: seq<byte>)
    requires v < TWO_32
    ensures ReadVarint32(Varint(v) + rest) == Some((v, rest))
  {
    var s := Varint(v) + rest;
    if v < 128 {
      assert s[1..] == rest && s[0] == v;
    } else {
      var hi, lo := v / 128, v % 128;
      assert s[0] == lo + 128 && s[1..] == Varint(hi) + rest;
      MoreFromSecond(hi, lo, rest, 7);
    }
  }

  lemma ZigZagRoundTrip(n: int)
    requires -0x8000_0000_0000_0000 <= n < 0x8000_0000_0000_0000
    ensures UnZigZag(ZigZag(n)) == n
  {
  }

  lemma {:induction false} Pow2Grows(a: nat, b: nat)
    requires a <= b
    ensures Pow2(a) <= Pow2(b)
  {
    if a < b {
      Pow2Grows(a, b - 1);
    }
  }

  lemma Halves()
    ensures Pow2(31) == TWO_32 / 2 && Pow2(32) == TWO_32 && Pow2(63) == TWO_64 / 2 && Pow2(64) == TWO_64
  {
    Pow2Values();
    Pow2Seven(25);
    Pow2Seven(57);
    Doubles(28, 3);
    Doubles(31, 4);
    Doubles(31, 1);
    Doubles(63, 1);
  }

  lemma {:induction false} Doubles(a: nat, n: nat)
    requires n <= 4
    ensures Pow2(a + n) == Pow2(a) * (if n == 0 then 1 else if n == 1 then 2 else if n == 2 then 4 else if n == 3 then 8 else 16)
  {
    if n > 0 {
      Doubles(a, n - 1);
    }
  }

  lemma SignedBounds(bits: nat, n: int)
    requires IntSize(bits) && FitsSigned(bits, n)
    ensures if bits == 64 then -0x8000_0000_0000_0000 <= n < 0x8000_0000_0000_0000 else -0x8000_0000 <= n < 0x8000_0000
  {
    Halves();
    Pow2Grows(bits - 1, if bits == 64 then 63 else 31);
  }

  lemma Signed64(n: int)
    requires -0x8000_0000_0000_0000 <= n < 0x8000_0000_0000_0000
    ensures Signed(Bits64(n), TWO_64 / 2) == n
  {
  }

  lemma Signed32(n: int)
    requires -0x8000_0000 <= n < 0x8000_0000
    ensures Signed(Bits64(n), TWO_32 / 2) == n
  {
  }

  // Two's complement in 64 bits, cut to 32 for the smaller fields.
  lemma IntRoundTrip(bits: nat, n: int)
    requires IntSize(bits) && FitsSigned(bits, n)
    ensures ReadInt(bits, Bits64(n)) == Some(n)
  {
    SignedBounds(bits, n);
    if bits == 64 {
      Signed64(n);
    } else {
      Signed32(n);
    }
  }

  lemma UIntSmall(bits: nat, n: nat)
    requires IntSize(bits) && n < Pow2(bits)
    ensures n < TWO_64 && Bits64(n) == n
  {
    Halves();
    Pow2Grows(bits, 64);
  }

  lemma IntFieldRoundTrip(k: Kind, n: int, rest: seq<byte>)
    requires k.Int? && IntSize(k.bits) && FitsSigned(k.bits, n)
    ensures ReadNumber(k, Varint(Bits64(n)) + rest) == Some((n, rest))
  {
    IntRoundTrip(k.bits, n);
    Varint64RoundTrip(Bits64(n), rest);
  }

  lemma UIntFieldRoundTrip(k: Kind, n: nat, rest: seq<byte>)
    requires k.UInt? && IntSize(k.bits) && n < Pow2(k.bits)
    ensures ReadNumber(k, Varint(Bits64(n)) + rest) == Some((n as int, rest))
  {
    UIntSmall(k.bits, n);
    Varint64RoundTrip(n, rest);
  }

  lemma SIntFieldRoundTrip(k: Kind, n: int, rest: seq<byte>)
    requires k.SInt? && IntSize(k.bits) && FitsSigned(k.bits, n)
    ensures ReadNumber(k, Varint(ZigZag(n)) + rest) == Some((n, rest))
  {
    SignedBounds(k.bits, n);
    ZigZagRoundTrip(n);
    Varint64RoundTrip(ZigZag(n), rest);
  }

  lemma BoolFieldRoundTrip(k: Kind, n: nat, rest: seq<byte>)
    requires k.Bool? && n < 2
    ensures ReadNumber(k, Varint(n) + rest) == Some((n as int, rest))
  {
    Read32RoundTrip(n, rest);
  }

  lemma Fixed32FieldRoundTrip(k: Kind, n: nat, rest: seq<byte>)
    requires k.Fixed32? && n < TWO_32
    ensures ReadNumber(k, EncodeFixed32(n) + rest) == Some((n as int, rest))
  {
    Fixed32RoundTrip(n, rest);
    assert (EncodeFixed32(n) + rest)[4..] == rest;
  }

  lemma Fixed64FieldRoundTrip(k: Kind, n: nat, rest: seq<byte>)
    requires k.Fixed64? && n < TWO_64
    ensures ReadNumber(k, EncodeFixed64(n) + rest) == Some((n as int, rest))
  {
    Fixed64RoundTrip(n, rest);
    assert (EncodeFixed64(n) + rest)[8..] == rest;
  }

  lemma NumberRoundTrip(k: Kind, n: int, rest: seq<byte>)
    requires NumberFits(k, n)
    ensures ReadNumber(k, EncodeNumber(k, n) + rest) == Some((n, rest))
  {
    match k
    case Bool =>
      BoolFieldRoundTrip(k, n, rest);
    case Int(_) =>
      IntFieldRoundTrip(k, n, rest);
    case UInt(_) =>
      UIntFieldRoundTrip(k, n, rest);
    case SInt(_) =>
      SIntFieldRoundTrip(k, n, rest);
    case Fixed32 =>
      Small(n, TWO_32);
      Fixed32FieldRoundTrip(k, n, rest);
    case Fixed64 =>
      Small(n, TWO_64);
      Fixed64FieldRoundTrip(k, n, rest);
  }

  lemma SubstreamRoundTrip(s: seq<byte>, rest: seq<byte>)
    requires |s| < TWO_32
    ensures Substream(LengthPrefixed(s) + rest) == Some((s, rest))
  {
    assert LengthPrefixed(s) + rest == Varint(|s|) + (s + rest);
    Read32RoundTrip(|s|, s + rest);
  }

  // ---- Finding a field --------------------------------------------------

  lemma {:induction false} SearchArrives(fields: seq<Field>, pos: nat, steps: nat, i: nat)
    requires WfTags(fields) && pos < |fields| && i < |fields|
    requires steps > if pos <= i then i - pos else |fields| - pos + i
    ensures Search(fields, pos, steps, fields[i].tag) == Some(i)
    decreases steps
  {
    if pos != i {
      assert if pos < i then TagsDiffer(fields, pos, i) else TagsDiffer(fields, i, pos);
      SearchArrives(fields, if pos + 1 == |fields| then 0 else pos + 1, steps - 1, i);
    }
  }

  // Wherever the iterator stands, it finds a field that is there, once around.
  lemma FindArrives(fields: seq<Field>, pos: nat, i: nat)
    requires WfTags(fields) && pos < |fields| && i < |fields|
    ensures Find(fields, pos, fields[i].tag) == Some(i)
  {
    SearchArrives(fields, pos, |fields|, i);
  }

  lemma {:induction false} SearchComplete(fields: seq<Field>, pos: nat, steps: nat, tag: nat, i: nat)
    requires pos < |fields| && Search(fields, pos, steps, tag) == None && i < |fields|
    requires steps > if pos <= i then i - pos else |fields| - pos + i
    ensures fields[i].tag != tag
    decreases steps
  {
    if pos != i {
      SearchComplete(fields, if pos + 1 == |fields| then 0 else pos + 1, steps - 1, tag, i);
    }
  }

  // It finds nothing exactly when no field has the tag.
  lemma FindMeans(fields: seq<Field>, pos: nat, tag: nat)
    requires pos < |fields|
    ensures Find(fields, pos, tag) == None <==> forall i :: 0 <= i < |fields| ==> fields[i].tag != tag
  {
    if Find(fields, pos, tag) == None {
      forall i | 0 <= i < |fields| ensures fields[i].tag != tag {
        SearchComplete(fields, pos, |fields|, tag, i);
      }
    }
  }

  // ---- One record -------------------------------------------------------

  // Reading s from p goes on as reading t from q; folded away, Peek opens it.
  ghost predicate Leads(fields: seq<Field>, s: seq<byte>, p: Progress, t: seq<byte>, q: Progress) {
    |p.slots| == |fields| == |q.slots| && forall x {:trigger Peek(x)} :: Peek(x) && x == s ==> ReadFields(fields, x, p) == ReadFields(fields, t, q)
  }

  ghost predicate Peek(s: seq<byte>) {
    true
  }

  lemma LeadsIs(fields: seq<Field>, s: seq<byte>, p: Progress, t: seq<byte>, q: Progress)
    requires |p.slots| == |fields| == |q.slots|
    ensures Leads(fields, s, p, t, q) <==> ReadFields(fields, s, p) == ReadFields(fields, t, q)
  {
    assert Peek(s);
  }

  lemma LeadsOn(fields: seq<Field>, s: seq<byte>, p: Progress, t: seq<byte>, q: Progress, u: seq<byte>, r: Progress)
    requires Leads(fields, s, p, t, q) && Leads(fields, t, q, u, r)
    ensures Leads(fields, s, p, u, r)
  {
    LeadsIs(fields, s, p, t, q);
    LeadsIs(fields, t, q, u, r);
    LeadsIs(fields, s, p, u, r);
  }

  // A tag and what ReadSlot makes of the bytes after it.
  lemma RecordRead(fields: seq<Field>, i: nat, wire: nat, body: seq<byte>, p: Progress, slot: Slot, rest: seq<byte>)
    requires WfTags(fields) && i < |fields| == |p.slots| && p.pos < |fields| && wire < 8
    requires ReadSlot(fields[i], wire, body, p.slots[i]) == Some((slot, rest))
    ensures Leads(fields, EncodeTag(wire, fields[i].tag) + body, p, rest, Progress(p.slots[i := slot], i, See(fields, i, p.seen)))
  {
    var t := fields[i].tag * 8 + wire;
    Read32RoundTrip(t, body);
    assert t / 8 == fields[i].tag && t % 8 == wire && t > 0;
    FindArrives(fields, p.pos, i);
    assert EncodeTag(wire, fields[i].tag) + body != [];
    LeadsIs(fields, EncodeTag(wire, fields[i].tag) + body, p, rest, Progress(p.slots[i := slot], i, See(fields, i, p.seen)));
  }

  // ---- Reading into what is there ---------------------------------------

  // What a value becomes when it is read where another one is: a message is read into
  // the one that is there, anything else replaces it.
  function MergeValue(k: Kind, was: Value, v: Value): Value
    decreases k, 0
  {
    if k.Message? then Sub(MergeSlots(k.fields, OldSlots(k.fields, was), SlotsOf(v), |k.fields|)) else v
  }

  function ValuesOf(s: Slot): seq<Value> {
    if s.Many? then s.vs else []
  }

  // Arrays grow; what is absent changes nothing.
  function MergeSlot(f: Field, was: Slot, s: Slot): Slot
    decreases f, 3
  {
    match f.rule
    case Required => One(MergeValue(f.kind, OldValue(f.kind, was), RequiredValue(s)))
    case Optional => if s.Maybe? && s.o.Some? then Maybe(Some(MergeValue(f.kind, OldValue(f.kind, was), s.o.value))) else was
    case Repeated(_) => if ValuesOf(s) == [] then was else Many(ValuesOf(was) + ValuesOf(s))
  }

  // The first n fields.
  function MergeSlots(fields: seq<Field>, was: seq<Slot>, slots: seq<Slot>, n: nat): (r: seq<Slot>)
    requires n <= |fields| == |was|
    ensures |r| == |was| && forall i {:trigger r[i]} :: n <= i < |r| ==> r[i] == was[i]
    decreases fields, n
  {
    if n == 0 then was
    else
      var r := MergeSlots(fields, was, slots, n - 1);
      if n - 1 < |slots| then r[n - 1 := MergeSlot(fields[n - 1], was[n - 1], slots[n - 1])] else r
  }

  // The arrays have room for both.
  predicate ValueRoom(k: Kind, was: Value, v: Value)
    decreases k, 0
  {
    k.Message? ==> SlotsRoom(k.fields, OldSlots(k.fields, was), SlotsOf(v), |k.fields|)
  }

  predicate SlotRoom(f: Field, was: Slot, s: Slot)
    decreases f, 3
  {
    match f.rule
    case Required => ValueRoom(f.kind, OldValue(f.kind, was), RequiredValue(s))
    case Optional => s.Maybe? && s.o.Some? ==> ValueRoom(f.kind, OldValue(f.kind, was), s.o.value)
    case Repeated(max) => |ValuesOf(was)| + |ValuesOf(s)| <= max
  }

  predicate SlotsRoom(fields: seq<Field>, was: seq<Slot>, slots: seq<Slot>, n: nat)
    requires n <= |fields| == |was|
    decreases fields, n
  {
    n > 0 ==> SlotsRoom(fields, was, slots, n - 1) && (n - 1 < |slots| ==> SlotRoom(fields[n - 1], was[n - 1], slots[n - 1]))
  }

  // A message read where nothing is set is that message, and there is room for it.
  lemma {:induction false} IntoDefault(k: Kind, v: Value)
    requires Fits(k, v)
    ensures MergeValue(k, Default(k), v) == v && ValueRoom(k, Default(k), v)
    decreases k, 0
  {
    if k.Message? {
      IntoDefaults(k.fields, v.slots, |k.fields|);
      assert v.slots[..|k.fields|] + Defaults(k.fields)[|k.fields|..] == v.slots;
    }
  }

  lemma {:induction false} IntoDefaultSlot(f: Field, s: Slot)
    requires SlotFits(f, s)
    ensures MergeSlot(f, DefaultSlot(f), s) == s && SlotRoom(f, DefaultSlot(f), s)
    decreases f, 3
  {
    match f.rule
    case Required => IntoDefault(f.kind, s.v);
    case Optional =>
      if s.o.Some? {
        IntoDefault(f.kind, s.o.value);
      }
    case Repeated(_) =>
      assert [] + s.vs == s.vs;
  }

  lemma {:induction false} IntoDefaults(fields: seq<Field>, slots: seq<Slot>, n: nat)
    requires n <= |fields| == |slots| && FieldsFit(fields, slots, n)
    ensures MergeSlots(fields, Defaults(fields), slots, n) == slots[..n] + Defaults(fields)[n..]
    ensures SlotsRoom(fields, Defaults(fields), slots, n)
    decreases fields, n
  {
    if n > 0 {
      IntoDefaults(fields, slots, n - 1);
      DefaultsAt(fields, n - 1);
      IntoDefaultSlot(fields[n - 1], slots[n - 1]);
      SlotsAdvance(slots, Defaults(fields), n - 1);
    }
  }

  lemma SlotsAdvance(slots: seq<Slot>, defaults: seq<Slot>, i: nat)
    requires i < |slots| == |defaults|
    ensures (slots[..i] + defaults[i..])[i := slots[i]] == slots[..i + 1] + defaults[i + 1..]
  {
  }

  // ---- Values, arrays, fields -------------------------------------------

  lemma {:induction false} ValueRead(k: Kind, v: Value, was: Value, rest: seq<byte>)
    requires Fits(k, v) && ValueRoom(k, was, v)
    ensures ReadValue(k, EncodeValue(k, v) + rest, was) == Some((MergeValue(k, was, v), rest))
    decreases k, 0
  {
    match k
    case Bytes(_) =>
      SubstreamRoundTrip(v.b, rest);
    case Message(fields) =>
      var m := EncodeFields(fields, v.slots, |fields|);
      SubstreamRoundTrip(m, rest);
      FieldsMerge(fields, OldSlots(fields, was), v.slots);
    case _ =>
      NumberRoundTrip(k, v.n, rest);
  }

  lemma ValueRoundTrip(k: Kind, v: Value, rest: seq<byte>)
    requires Fits(k, v)
    ensures ReadValue(k, EncodeValue(k, v) + rest, Default(k)) == Some((v, rest))
  {
    IntoDefault(k, v);
    ValueRead(k, v, Default(k), rest);
  }

  // A packed array is read behind the elements that are there.
  lemma {:induction false} PackedRoundTrip(k: Kind, max: nat, ws: seq<Value>, vs: seq<Value>, n: nat, rest: seq<byte>)
    requires Packable(k) && n <= |vs| && |ws| + |vs| <= max && AllFit(k, vs, n)
    ensures PackedLeads(k, max, EncodeBody(k, vs, n) + rest, ws, rest, ws + vs[..n])
    decreases k, 1, n
  {
    if n == 0 {
      assert EncodeBody(k, vs, n) + rest == rest && ws + vs[..n] == ws;
      PackedLeadsIs(k, max, rest, ws, rest, ws);
    } else {
      var v := EncodeValue(k, vs[n - 1]);
      var one := v + rest;
      PackedRoundTrip(k, max, ws, vs, n - 1, one);
      Reassociate(EncodeBody(k, vs, n - 1), v, rest);
      NumberRoundTrip(k, vs[n - 1].n, rest);
      assert ws + vs[..n] == ws + vs[..n - 1] + [vs[n - 1]];
      PackedOne(k, max, EncodeBody(k, vs, n - 1) + one, ws, one, ws + vs[..n - 1], vs[n - 1], rest);
    }
  }

  // The same for packed arrays.
  ghost predicate PackedLeads(k: Kind, max: nat, s: seq<byte>, vs: seq<Value>, t: seq<byte>, ws: seq<Value>) {
    forall x {:trigger Peek(x)} :: Peek(x) && x == s ==> ReadPacked(k, max, x, vs) == ReadPacked(k, max, t, ws)
  }

  lemma PackedLeadsIs(k: Kind, max: nat, s: seq<byte>, vs: seq<Value>, t: seq<byte>, ws: seq<Value>)
    ensures PackedLeads(k, max, s, vs, t, ws) <==> ReadPacked(k, max, s, vs) == ReadPacked(k, max, t, ws)
  {
    assert Peek(s);
  }

  lemma PackedOne(k: Kind, max: nat, s: seq<byte>, ws: seq<Value>, one: seq<byte>, vs: seq<Value>, v: Value, rest: seq<byte>)
    requires |vs| < max && ReadValue(k, one, Default(k)) == Some((v, rest)) && PackedLeads(k, max, s, ws, one, vs)
    ensures PackedLeads(k, max, s, ws, rest, vs + [v])
  {
    PackedLeadsIs(k, max, s, ws, one, vs);
    PackedLeadsIs(k, max, s, ws, rest, vs + [v]);
  }

  // Array elements each with a tag, whether or not the type could be packed.
  lemma {:induction false} EachRoundTrip(fields: seq<Field>, i: nat, f: Field, ws: seq<Value>, vs: seq<Value>, n: nat, p: Progress, rest: seq<byte>)
      returns (q: Progress)
    requires WfTags(fields) && i < |fields| == |p.slots| && p.pos < |fields| && f == fields[i]
    requires f.rule.Repeated? && n <= |vs| && |ws| + |vs| <= f.rule.max && AllFit(f.kind, vs, n)
    requires ValuesOf(p.slots[i]) == ws
    ensures q.slots == (if n == 0 then p.slots else p.slots[i := Many(ws + vs[..n])]) && q.seen == p.seen && q.pos < |fields|
    ensures Leads(fields, EncodeEach(f.tag, f.kind, vs, n) + rest, p, rest, q)
    decreases f.kind, 1, n
  {
    if n == 0 {
      q := p;
      assert EncodeEach(f.tag, f.kind, vs, n) + rest == rest;
      LeadsIs(fields, rest, p, rest, p);
    } else {
      var tag, v := EncodeTag(WireType(f.kind), f.tag), EncodeValue(f.kind, vs[n - 1]);
      var q0 := EachRoundTrip(fields, i, f, ws, vs, n - 1, p, tag + (v + rest));
      Reassociate3(EncodeEach(f.tag, f.kind, vs, n - 1), tag, v, rest);
      IntoDefault(f.kind, vs[n - 1]);
      ValueRead(f.kind, vs[n - 1], Default(f.kind), rest);
      ElementRead(f, v + rest, ws, vs, n - 1, q0.slots[i], rest);
      RecordRead(fields, i, WireType(f.kind), v + rest, q0, Many(ws + vs[..n]), rest);
      q := Progress(q0.slots[i := Many(ws + vs[..n])], i, q0.seen);
      LeadsOn(fields, EncodeEach(f.tag, f.kind, vs, n) + rest, p, tag + (v + rest), q0, rest, q);
    }
  }

  lemma ElementRead(f: Field, s: seq<byte>, ws: seq<Value>, vs: seq<Value>, n: nat, slot: Slot, rest: seq<byte>)
    requires f.rule.Repeated? && n < |vs| && |ws| + |vs| <= f.rule.max && ValuesOf(slot) == ws + vs[..n]
    requires ReadValue(f.kind, s, Default(f.kind)) == Some((vs[n], rest))
    ensures ReadSlot(f, WireType(f.kind), s, slot) == Some((Many(ws + vs[..n + 1]), rest))
  {
    assert ws + vs[..n + 1] == ws + vs[..n] + [vs[n]];
  }

  // A field of every rule is read into whatever is there.
  lemma {:induction false} SlotRead(fields: seq<Field>, i: nat, f: Field, slot: Slot, p: Progress, rest: seq<byte>) returns (q: Progress)
    requires WfTags(fields) && i < |fields| == |p.slots| && p.pos < |fields| && f == fields[i]
    requires SlotFits(f, slot) && SlotRoom(f, p.slots[i], slot)
    ensures q.slots == p.slots[i := MergeSlot(f, p.slots[i], slot)] && q.seen == See(fields, i, p.seen) && q.pos < |fields|
    ensures Leads(fields, EncodeSlot(f, slot) + rest, p, rest, q)
    decreases f, 3
  {
    match f.rule
    case Required =>
      ValueRead(f.kind, slot.v, OldValue(f.kind, p.slots[i]), rest);
      q := SingleRead(fields, i, f, slot, slot.v, p, rest);
    case Optional =>
      if slot.o.Some? {
        ValueRead(f.kind, slot.o.value, OldValue(f.kind, p.slots[i]), rest);
        q := SingleRead(fields, i, f, slot, slot.o.value, p, rest);
      } else {
        q := NothingRead(fields, i, f, slot, p, rest);
      }
    case Repeated(max) =>
      if slot.vs == [] {
        q := NothingRead(fields, i, f, slot, p, rest);
      } else if Packable(f.kind) {
        PackedRoundTrip(f.kind, max, ValuesOf(p.slots[i]), slot.vs, |slot.vs|, []);
        q := PackedRead(fields, i, f, slot, p, rest);
      } else {
        q := EachRoundTrip(fields, i, f, ValuesOf(p.slots[i]), slot.vs, |slot.vs|, p, rest);
        assert slot.vs[..|slot.vs|] == slot.vs;
      }
  }

  lemma NothingRead(fields: seq<Field>, i: nat, f: Field, slot: Slot, p: Progress, rest: seq<byte>) returns (q: Progress)
    requires i < |fields| == |p.slots| && p.pos < |fields| && f == fields[i]
    requires (f.rule.Optional? && slot == Maybe(None)) || (f.rule.Repeated? && slot == Many([]))
    ensures q.slots == p.slots[i := MergeSlot(f, p.slots[i], slot)] && q.seen == See(fields, i, p.seen) && q.pos < |fields|
    ensures Leads(fields, EncodeSlot(f, slot) + rest, p, rest, q)
  {
    q := p;
    assert EncodeSlot(f, slot) + rest == rest;
    LeadsIs(fields, rest, p, rest, p);
  }

  lemma SingleRead(fields: seq<Field>, i: nat, f: Field, slot: Slot, v: Value, p: Progress, rest: seq<byte>) returns (q: Progress)
    requires WfTags(fields) && i < |fields| == |p.slots| && p.pos < |fields| && f == fields[i]
    requires (f.rule.Required? && slot == One(v)) || (f.rule.Optional? && slot == Maybe(Some(v)))
    requires var was := OldValue(f.kind, p.slots[i]);
             ReadValue(f.kind, EncodeValue(f.kind, v) + rest, was) == Some((MergeValue(f.kind, was, v), rest))
    ensures q.slots == p.slots[i := MergeSlot(f, p.slots[i], slot)] && q.seen == See(fields, i, p.seen) && q.pos < |fields|
    ensures Leads(fields, EncodeSlot(f, slot) + rest, p, rest, q)
  {
    var tag, one, merged := EncodeTag(WireType(f.kind), f.tag), EncodeValue(f.kind, v), MergeSlot(f, p.slots[i], slot);
    var body := one + rest;
    assert EncodeSlot(f, slot) == tag + one;
    Reassociate(tag, one, rest);
    RecordRead(fields, i, WireType(f.kind), body, p, merged, rest);
    q := Progress(p.slots[i := merged], i, See(fields, i, p.seen));
  }

  lemma PackedRead(fields: seq<Field>, i: nat, f: Field, slot: Slot, p: Progress, rest: seq<byte>) returns (q: Progress)
    requires WfTags(fields) && i < |fields| == |p.slots| && p.pos < |fields| && f == fields[i]
    requires f.rule.Repeated? && Packable(f.kind) && slot.Many? && slot.vs != [] && |EncodeBody(f.kind, slot.vs, |slot.vs|)| < TWO_32
    requires var ws := ValuesOf(p.slots[i]);
             PackedLeads(f.kind, f.rule.max, EncodeBody(f.kind, slot.vs, |slot.vs|) + [], ws, [], ws + slot.vs[..|slot.vs|])
    ensures q.slots == p.slots[i := MergeSlot(f, p.slots[i], slot)] && q.seen == See(fields, i, p.seen) && q.pos < |fields|
    ensures Leads(fields, EncodeSlot(f, slot) + rest, p, rest, q)
  {
    var ws, body := ValuesOf(p.slots[i]), EncodeBody(f.kind, slot.vs, |slot.vs|);
    var tag, packed := EncodeTag(WT_STRING, f.tag), LengthPrefixed(body);
    var s, merged := packed + rest, Many(ws + slot.vs);
    assert body + [] == body && slot.vs[..|slot.vs|] == slot.vs;
    PackedLeadsIs(f.kind, f.rule.max, body, ws, [], ws + slot.vs);
    assert EncodeSlot(f, slot) == tag + packed;
    Reassociate(tag, packed, rest);
    SubstreamRoundTrip(body, rest);
    RecordRead(fields, i, WT_STRING, s, p, merged, rest);
    q := Progress(p.slots[i := merged], i, See(fields, i, p.seen));
  }

  lemma Reassociate3(a: seq<byte>, b: seq<byte>, c: seq<byte>, rest: seq<byte>)
    ensures a + b + c + rest == a + (b + (c + rest))
  {
  }

  // Into a message without the field it reads back as it was.
  lemma SlotRoundTrip(fields: seq<Field>, i: nat, f: Field, slot: Slot, p: Progress, rest: seq<byte>) returns (q: Progress)
    requires WfTags(fields) && i < |fields| == |p.slots| && p.pos < |fields| && f == fields[i]
    requires SlotFits(f, slot) && p.slots[i] == DefaultSlot(f)
    ensures q.slots == p.slots[i := slot] && q.seen == See(fields, i, p.seen) && q.pos < |fields|
    ensures Leads(fields, EncodeSlot(f, slot) + rest, p, rest, q)
  {
    IntoDefaultSlot(f, slot);
    q := SlotRead(fields, i, f, slot, p, rest);
  }

  // An array of a type that could be packed may also come element by element.
  lemma UnpackedRoundTrip(fields: seq<Field>, i: nat, vs: seq<Value>, p: Progress, rest: seq<byte>) returns (q: Progress)
    requires WfTags(fields) && i < |fields| == |p.slots| && p.pos < |fields| && fields[i].rule.Repeated? && Packable(fields[i].kind)
    requires AllFit(fields[i].kind, vs, |vs|) && |ValuesOf(p.slots[i])| + |vs| <= fields[i].rule.max && vs != []
    ensures q.slots == p.slots[i := Many(ValuesOf(p.slots[i]) + vs)] && q.seen == p.seen && q.pos < |fields|
    ensures Leads(fields, EncodeEach(fields[i].tag, fields[i].kind, vs, |vs|) + rest, p, rest, q)
  {
    q := EachRoundTrip(fields, i, fields[i], ValuesOf(p.slots[i]), vs, |vs|, p, rest);
    assert vs[..|vs|] == vs;
  }

  // ---- Messages ---------------------------------------------------------

  lemma SeenNext(fields: seq<Field>, i: nat, seen: set<nat>)
    requires i < |fields| && SeenUpTo(fields, i, seen)
    ensures SeenUpTo(fields, i + 1, See(fields, i, seen))
  {
  }

  // The required fields among the first n were all seen.
  ghost predicate SeenUpTo(fields: seq<Field>, n: nat, seen: set<nat>)
    requires n <= |fields|
  {
    forall r {:trigger r in seen} :: 0 <= r < RequiredBefore(fields, n) && r < MAX_REQUIRED_FIELDS ==> r in seen
  }

  // The fields of a message are read into whatever message is there.
  lemma {:induction false} FieldsRead(fields: seq<Field>, slots: seq<Slot>, n: nat, p0: Progress, rest: seq<byte>) returns (p: Progress)
    requires WfTags(fields) && n <= |fields| == |slots| == |p0.slots| && FieldsFit(fields, slots, n) && (fields != [] ==> p0.pos < |fields|)
    requires SlotsRoom(fields, p0.slots, slots, n)
    ensures p.slots == MergeSlots(fields, p0.slots, slots, n) && SeenUpTo(fields, n, p.seen) && (fields != [] ==> p.pos < |fields|)
    ensures Leads(fields, EncodeFields(fields, slots, n) + rest, p0, rest, p)
    decreases fields, n
  {
    if n == 0 {
      p := p0;
      assert EncodeFields(fields, slots, n) + rest == rest;
      LeadsIs(fields, rest, p, rest, p);
    } else {
      var i := n - 1;
      var one := EncodeSlot(fields[i], slots[i]);
      var p1 := FieldsRead(fields, slots, i, p0, one + rest);
      Reassociate(EncodeFields(fields, slots, i), one, rest);
      p := SlotRead(fields, i, fields[i], slots[i], p1, rest);
      LeadsOn(fields, EncodeFields(fields, slots, n) + rest, p0, one + rest, p1, rest, p);
      SeenNext(fields, i, p1.seen);
    }
  }

  lemma {:induction false} FieldsMerge(fields: seq<Field>, was: seq<Slot>, slots: seq<Slot>)
    requires WfTags(fields) && |slots| == |fields| == |was| && FieldsFit(fields, slots, |fields|) && SlotsRoom(fields, was, slots, |fields|)
    ensures ReadFields(fields, EncodeFields(fields, slots, |fields|), Progress(was, 0, {})) == Some(MergeSlots(fields, was, slots, |fields|))
    decreases fields, |fields| + 1
  {
    var n := |fields|;
    var p := FieldsRead(fields, slots, n, Progress(was, 0, {}), []);
    LeadsIs(fields, EncodeFields(fields, slots, n) + [], Progress(was, 0, {}), [], p);
    assert EncodeFields(fields, slots, n) + [] == EncodeFields(fields, slots, n);
  }

  // pb_decode(pb_encode(m)) == m.
  lemma MessageRoundTrip(fields: seq<Field>, slots: seq<Slot>)
    requires MessageFits(fields, slots)
    ensures Decode(fields, Encode(fields, slots)) == Some(slots)
  {
    IntoDefaults(fields, slots, |fields|);
    FieldsMerge(fields, Defaults(fields), slots);
    assert slots[..|fields|] + Defaults(fields)[|fields|..] == slots;
  }

  // Two encoded messages one after the other decode to the second merged into the first.
  lemma MessagesMerge(fields: seq<Field>, a: seq<Slot>, b: seq<Slot>)
    requires MessageFits(fields, a) && MessageFits(fields, b) && SlotsRoom(fields, a, b, |fields|)
    ensures Decode(fields, Encode(fields, a) + Encode(fields, b)) == Some(MergeSlots(fields, a, b, |fields|))
  {
    var n, start := |fields|, Progress(Defaults(fields), 0, {});
    IntoDefaults(fields, a, n);
    assert a[..n] + Defaults(fields)[n..] == a;
    var p := FieldsRead(fields, a, n, start, Encode(fields, b));
    var q := FieldsRead(fields, b, n, p, []);
    assert Encode(fields, b) + [] == Encode(fields, b);
    LeadsOn(fields, Encode(fields, a) + Encode(fields, b), start, Encode(fields, b), p, [], q);
    LeadsIs(fields, Encode(fields, a) + Encode(fields, b), start, [], q);
  }
}
