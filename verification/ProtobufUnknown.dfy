// Fields a decoder does not know, and messages written with another descriptor
// (pb_decode.c, pb_skip_field, pb_decode_noinit).

module ProtobufUnknown {
  import opened DbFormat
  import opened Coding
  import opened Protobuf
  import opened ProtobufRoundTrip

  // ---- Skipping ---------------------------------------------------------

  lemma {:induction false} VarintSkipped(v: nat, rest: seq<byte>)
    ensures SkipVarint(Varint(v) + rest) == Some(rest)
    decreases v
  {
    var s := Varint(v) + rest;
    if v < 128 {
      assert s[0] == v && s[1..] == rest;
    } else {
      assert s[0] == v % 128 + 128 && s[1..] == Varint(v / 128) + rest;
      VarintSkipped(v / 128, rest);
    }
  }

  // A value of any kind takes as many bytes as its wire type says.
  lemma ValueSkipped(k: Kind, v: Value, rest: seq<byte>)
    requires Fits(k, v)
    ensures SkipField(WireType(k), EncodeValue(k, v) + rest) == Some(rest)
  {
    match k
    case Bytes(_) => SubstreamRoundTrip(v.b, rest);
    case Message(fields) => SubstreamRoundTrip(EncodeFields(fields, v.slots, |fields|), rest);
    case Bool => VarintSkipped(if v.n != 0 then 1 else 0, rest);
    case Int(_) => VarintSkipped(Bits64(v.n), rest);
    case UInt(_) => VarintSkipped(Bits64(v.n), rest);
    case SInt(_) => VarintSkipped(ZigZag(v.n), rest);
    case Fixed32 => assert (EncodeFixed32(v.n % TWO_32) + rest)[4..] == rest;
    case Fixed64 => assert (EncodeFixed64(v.n % TWO_64) + rest)[8..] == rest;
  }

  ghost predicate Unknown(fields: seq<Field>, tag: nat) {
    forall i {:trigger fields[i]} :: 0 <= i < |fields| ==> fields[i].tag != tag
  }

  lemma UnknownRecord(fields: seq<Field>, wire: nat, tag: nat, body: seq<byte>, p: Progress, rest: seq<byte>)
    requires Unknown(fields, tag) && 1 <= tag < 0x2000_0000 && wire < 8 && |p.slots| == |fields|
    requires SkipField(wire, body) == Some(rest)
    ensures Leads(fields, EncodeTag(wire, tag) + body, p, rest, p)
  {
    var t := tag * 8 + wire;
    Read32RoundTrip(t, body);
    assert t / 8 == tag && t % 8 == wire && t > 0;
    if p.pos < |fields| {
      FindMeans(fields, p.pos, tag);
    }
    assert EncodeTag(wire, tag) + body != [];
    LeadsIs(fields, EncodeTag(wire, tag) + body, p, rest, p);
  }

  lemma {:induction false} EachSkipped(fields: seq<Field>, tag: nat, k: Kind, vs: seq<Value>, n: nat, p: Progress, rest: seq<byte>)
    requires Unknown(fields, tag) && 1 <= tag < 0x2000_0000 && |p.slots| == |fields| && n <= |vs| && AllFit(k, vs, n)
    ensures Leads(fields, EncodeEach(tag, k, vs, n) + rest, p, rest, p)
    decreases n
  {
    if n == 0 {
      assert EncodeEach(tag, k, vs, n) + rest == rest;
      LeadsIs(fields, rest, p, rest, p);
    } else {
      var one, v := EncodeTag(WireType(k), tag), EncodeValue(k, vs[n - 1]);
      EachSkipped(fields, tag, k, vs, n - 1, p, one + (v + rest));
      Reassociate3(EncodeEach(tag, k, vs, n - 1), one, v, rest);
      ValueSkipped(k, vs[n - 1], rest);
      UnknownRecord(fields, WireType(k), tag, v + rest, p, rest);
      LeadsOn(fields, EncodeEach(tag, k, vs, n) + rest, p, one + (v + rest), p, rest, p);
    }
  }

  lemma SingleSkipped(fields: seq<Field>, wire: nat, tag: nat, v: seq<byte>, p: Progress, rest: seq<byte>)
    requires Unknown(fields, tag) && 1 <= tag < 0x2000_0000 && wire < 8 && |p.slots| == |fields|
    requires SkipField(wire, v + rest) == Some(rest)
    ensures Leads(fields, EncodeTag(wire, tag) + v + rest, p, rest, p)
  {
    Reassociate(EncodeTag(wire, tag), v, rest);
    UnknownRecord(fields, wire, tag, v + rest, p, rest);
  }

  // A field of any rule and kind whose tag the descriptor lacks changes nothing.
  lemma UnknownSkipped(fields: seq<Field>, g: Field, slot: Slot, p: Progress, rest: seq<byte>)
    requires Unknown(fields, g.tag) && 1 <= g.tag < 0x2000_0000 && |p.slots| == |fields| && SlotFits(g, slot)
    ensures Leads(fields, EncodeSlot(g, slot) + rest, p, rest, p)
  {
    match g.rule
    case Required =>
      ValueSkipped(g.kind, slot.v, rest);
      SingleSkipped(fields, WireType(g.kind), g.tag, EncodeValue(g.kind, slot.v), p, rest);
    case Optional =>
      if slot.o.Some? {
        ValueSkipped(g.kind, slot.o.value, rest);
        SingleSkipped(fields, WireType(g.kind), g.tag, EncodeValue(g.kind, slot.o.value), p, rest);
      } else {
        NothingSkipped(fields, EncodeSlot(g, slot), p, rest);
      }
    case Repeated(_) =>
      if slot.vs == [] {
        assert EncodeArray(g.tag, g.kind, slot.vs) == [];
        NothingSkipped(fields, EncodeSlot(g, slot), p, rest);
      } else if Packable(g.kind) {
        var body := EncodeBody(g.kind, slot.vs, |slot.vs|);
        SubstreamRoundTrip(body, rest);
        SingleSkipped(fields, WT_STRING, g.tag, LengthPrefixed(body), p, rest);
      } else {
        EachSkipped(fields, g.tag, g.kind, slot.vs, |slot.vs|, p, rest);
      }
  }

  lemma NothingSkipped(fields: seq<Field>, s: seq<byte>, p: Progress, rest: seq<byte>)
    requires s == [] && |p.slots| == |fields|
    ensures Leads(fields, s + rest, p, rest, p)
  {
    assert s + rest == rest;
    LeadsIs(fields, rest, p, rest, p);
  }

  // ---- Messages of another descriptor -----------------------------------

  // Where the two descriptors share a tag they mean the same field.
  ghost predicate Agree(theirs: seq<Field>, ours: seq<Field>) {
    forall i, j {:trigger theirs[i], ours[j]} :: 0 <= i < |theirs| && 0 <= j < |ours| && theirs[i].tag == ours[j].tag ==> theirs[i] == ours[j]
  }

  // What the first n fields of the message have for one of our fields.
  function Seen(theirs: seq<Field>, slots: seq<Slot>, n: nat, f: Field): Slot
    requires n <= |theirs| == |slots|
  {
    if n == 0 then DefaultSlot(f)
    else if theirs[n - 1].tag == f.tag then slots[n - 1]
    else Seen(theirs, slots, n - 1, f)
  }

  function Known(theirs: seq<Field>, slots: seq<Slot>, n: nat, ours: seq<Field>): (r: seq<Slot>)
    requires n <= |theirs| == |slots|
    ensures |r| == |ours| && forall j {:trigger r[j]} :: 0 <= j < |r| ==> r[j] == Seen(theirs, slots, n, ours[j])
  {
    seq(|ours|, j requires 0 <= j < |ours| => Seen(theirs, slots, n, ours[j]))
  }

  // A field that is there has its value, one that is not its default.
  lemma {:induction false} SeenIs(theirs: seq<Field>, slots: seq<Slot>, n: nat, f: Field)
    requires WfTags(theirs) && n <= |theirs| == |slots|
    ensures forall i: nat {:trigger theirs[i]} :: i < n && theirs[i].tag == f.tag ==> Seen(theirs, slots, n, f) == slots[i]
    ensures Unknown(theirs[..n], f.tag) ==> Seen(theirs, slots, n, f) == DefaultSlot(f)
  {
    if n > 0 {
      SeenIs(theirs, slots, n - 1, f);
      assert theirs[..n][n - 1] == theirs[n - 1] && theirs[..n - 1] == theirs[..n][..n - 1];
      forall i: nat | i < n && theirs[i].tag == f.tag ensures Seen(theirs, slots, n, f) == slots[i] {
        if i < n - 1 {
          assert TagsDiffer(theirs, i, n - 1);
        }
      }
      if Unknown(theirs[..n], f.tag) {
        var all, front := theirs[..n], theirs[..n - 1];
        forall i | 0 <= i < |front| ensures front[i].tag != f.tag {
          assert all[i].tag != f.tag;
        }
      }
    }
  }

  ghost predicate Has(theirs: seq<Field>, n: nat, tag: nat)
    requires n <= |theirs|
  {
    exists i {:trigger theirs[i]} :: 0 <= i < n && theirs[i].tag == tag
  }

  // The required fields seen are those among the first n.
  ghost predicate SawRequired(theirs: seq<Field>, n: nat, ours: seq<Field>, seen: set<nat>)
    requires n <= |theirs|
  {
    forall j {:trigger ours[j]} :: 0 <= j < |ours| && ours[j].rule.Required? && RequiredBefore(ours, j) < MAX_REQUIRED_FIELDS ==>
      (RequiredBefore(ours, j) in seen <==> Has(theirs, n, ours[j].tag))
  }

  lemma {:induction false} RequiredGrows(fields: seq<Field>, i: nat, j: nat)
    requires i <= j <= |fields|
    ensures RequiredBefore(fields, i) <= RequiredBefore(fields, j)
    ensures i < j && fields[i].rule.Required? ==> RequiredBefore(fields, i) < RequiredBefore(fields, j)
  {
    if i < j {
      RequiredGrows(fields, i, j - 1);
    }
  }

  lemma {:induction false} RequiredAt(fields: seq<Field>, n: nat, r: nat) returns (j: nat)
    requires n <= |fields| && r < RequiredBefore(fields, n)
    ensures j < n && fields[j].rule.Required? && RequiredBefore(fields, j) == r
  {
    if r < RequiredBefore(fields, n - 1) {
      j := RequiredAt(fields, n - 1, r);
    } else {
      j := n - 1;
    }
  }

  lemma SawMore(theirs: seq<Field>, n: nat, ours: seq<Field>, i: nat, seen: set<nat>)
    requires n < |theirs| && i < |ours| && WfTags(ours) && theirs[n].tag == ours[i].tag && SawRequired(theirs, n, ours, seen)
    ensures SawRequired(theirs, n + 1, ours, See(ours, i, seen))
  {
    forall j | 0 <= j < |ours| && ours[j].rule.Required? && RequiredBefore(ours, j) < MAX_REQUIRED_FIELDS
      ensures RequiredBefore(ours, j) in See(ours, i, seen) <==> Has(theirs, n + 1, ours[j].tag)
    {
      if j == i {
        assert theirs[n].tag == ours[j].tag;
      } else {
        assert if i < j then TagsDiffer(ours, i, j) else TagsDiffer(ours, j, i);
        RequiredGrows(ours, if i < j then i else j, if i < j then j else i);
        assert Has(theirs, n + 1, ours[j].tag) <==> Has(theirs, n, ours[j].tag);
      }
    }
  }

  lemma SawNoMore(theirs: seq<Field>, n: nat, ours: seq<Field>, seen: set<nat>)
    requires n < |theirs| && Unknown(ours, theirs[n].tag) && SawRequired(theirs, n, ours, seen)
    ensures SawRequired(theirs, n + 1, ours, seen)
  {
    forall j | 0 <= j < |ours| && ours[j].rule.Required? && RequiredBefore(ours, j) < MAX_REQUIRED_FIELDS
      ensures RequiredBefore(ours, j) in seen <==> Has(theirs, n + 1, ours[j].tag)
    {
      assert Has(theirs, n + 1, ours[j].tag) <==> Has(theirs, n, ours[j].tag);
    }
  }

  lemma KnownNext(theirs: seq<Field>, slots: seq<Slot>, n: nat, ours: seq<Field>, i: nat)
    requires WfTags(ours) && n < |theirs| == |slots| && i < |ours| && theirs[n].tag == ours[i].tag
    ensures Known(theirs, slots, n + 1, ours) == Known(theirs, slots, n, ours)[i := slots[n]]
  {
    forall j | 0 <= j < |ours| && j != i ensures theirs[n].tag != ours[j].tag {
      assert if i < j then TagsDiffer(ours, i, j) else TagsDiffer(ours, j, i);
    }
  }

  // The fields of the message, one after the other, as far as we know them.
  lemma {:induction false} TheirFieldsRead(theirs: seq<Field>, slots: seq<Slot>, n: nat, ours: seq<Field>, start: Progress, rest: seq<byte>)
      returns (p: Progress)
    requires WfTags(theirs) && WfTags(ours) && Agree(theirs, ours) && n <= |theirs| == |slots| && FieldsFit(theirs, slots, n)
    requires start == Progress(Defaults(ours), 0, {})
    ensures p.slots == Known(theirs, slots, n, ours) && SawRequired(theirs, n, ours, p.seen) && (ours != [] ==> p.pos < |ours|)
    ensures Leads(ours, EncodeFields(theirs, slots, n) + rest, start, rest, p)
    decreases n
  {
    if n == 0 {
      p := start;
      forall j | 0 <= j < |ours| ensures Defaults(ours)[j] == DefaultSlot(ours[j]) {
        DefaultsAt(ours, j);
      }
      assert EncodeFields(theirs, slots, n) + rest == rest;
      LeadsIs(ours, rest, p, rest, p);
    } else {
      var g, one := theirs[n - 1], EncodeSlot(theirs[n - 1], slots[n - 1]);
      var p0 := TheirFieldsRead(theirs, slots, n - 1, ours, start, one + rest);
      Reassociate(EncodeFields(theirs, slots, n - 1), one, rest);
      p := OneFieldRead(theirs, slots, n - 1, ours, p0, rest);
      LeadsOn(ours, EncodeFields(theirs, slots, n) + rest, start, one + rest, p0, rest, p);
    }
  }

  lemma OneFieldRead(theirs: seq<Field>, slots: seq<Slot>, n: nat, ours: seq<Field>, p0: Progress, rest: seq<byte>) returns (p: Progress)
    requires WfTags(theirs) && WfTags(ours) && Agree(theirs, ours) && n < |theirs| == |slots| && SlotFits(theirs[n], slots[n])
    requires p0.slots == Known(theirs, slots, n, ours) && SawRequired(theirs, n, ours, p0.seen) && (ours != [] ==> p0.pos < |ours|)
    ensures p.slots == Known(theirs, slots, n + 1, ours) && SawRequired(theirs, n + 1, ours, p.seen) && (ours != [] ==> p.pos < |ours|)
    ensures Leads(ours, EncodeSlot(theirs[n], slots[n]) + rest, p0, rest, p)
  {
    var g := theirs[n];
    if i: nat :| i < |ours| && ours[i].tag == g.tag {
      SeenIs(theirs, slots, n, g);
      NotYet(theirs, n);
      p := SlotRoundTrip(ours, i, g, slots[n], p0, rest);
      KnownNext(theirs, slots, n, ours, i);
      SawMore(theirs, n, ours, i, p0.seen);
    } else {
      p := p0;
      assert Unknown(ours, g.tag);
      UnknownSkipped(ours, g, slots[n], p0, rest);
      SawNoMore(theirs, n, ours, p0.seen);
    }
  }

  lemma NotYet(fields: seq<Field>, n: nat)
    requires WfTags(fields) && n < |fields|
    ensures Unknown(fields[..n], fields[n].tag)
  {
    var front := fields[..n];
    forall i: nat | i < |front| ensures front[i].tag != fields[n].tag {
      assert TagsDiffer(fields, i, n);
    }
  }

  // Every required field of ours that the decoder keeps track of is one of theirs.
  ghost predicate RequiredThere(theirs: seq<Field>, ours: seq<Field>) {
    forall j {:trigger ours[j]} :: 0 <= j < |ours| && ours[j].rule.Required? && RequiredBefore(ours, j) < MAX_REQUIRED_FIELDS ==>
      Has(theirs, |theirs|, ours[j].tag)
  }

  // A message written with another descriptor decodes to the fields that are known, with
  // defaults for those it lacks, and is refused exactly when it lacks a required one.
  lemma OtherDescriptor(theirs: seq<Field>, slots: seq<Slot>, ours: seq<Field>)
    requires MessageFits(theirs, slots) && WfTags(ours) && Agree(theirs, ours)
    ensures Decode(ours, Encode(theirs, slots)) == if RequiredThere(theirs, ours) then Some(Known(theirs, slots, |theirs|, ours)) else None
  {
    var n, start := |theirs|, Progress(Defaults(ours), 0, {});
    var p := TheirFieldsRead(theirs, slots, n, ours, start, []);
    assert Encode(theirs, slots) + [] == Encode(theirs, slots);
    LeadsIs(ours, Encode(theirs, slots), start, [], p);
    if RequiredThere(theirs, ours) {
      forall r | 0 <= r < RequiredBefore(ours, |ours|) && r < MAX_REQUIRED_FIELDS ensures r in p.seen {
        var j := RequiredAt(ours, |ours|, r);
        assert ours[j].rule.Required?;
      }
    } else {
      var j :| 0 <= j < |ours| && ours[j].rule.Required? && RequiredBefore(ours, j) < MAX_REQUIRED_FIELDS && !Has(theirs, n, ours[j].tag);
      RequiredGrows(ours, j, |ours|);
    }
  }
}
