// What the decoders make of bytes nobody wrote: varints of any form, batches
// and edits that are cut off or hold something unknown
// (util/coding.cc, db/write_batch.cc, db/version_edit.cc).

module CodecErrors {
  import opened DbFormat
  import opened Coding
  import EditCodec
  import opened WriteBatch

  // ---- Varints ----------------------------------------------------------

  // The first k bytes are groups of seven bits, and only the last says that it is the last.
  predicate EndsAt(s: seq<byte>, k: nat) {
    0 < k <= |s| && s[k - 1] < 128 && forall i :: 0 <= i < k - 1 ==> s[i] >= 128
  }

  // The groups of the first k bytes, low groups first.
  function Groups(s: seq<byte>, k: nat): nat
    requires k <= |s|
  {
    if k == 0 then 0 else Groups(s, k - 1) + s[k - 1] % 128 * Pow2(7 * (k - 1))
  }

  lemma AddInside(a: nat, b: nat, m: nat)
    requires m > 0
    ensures (a % m + b) % m == (a + b) % m
  {
    assert a == a / m * m + a % m;
    var q := (a % m + b) / m;
    assert a + b == (a / m + q) * m + (a % m + b) % m;
    Remainder(a + b, a / m + q, (a % m + b) % m, m);
  }

  lemma Remainder(x: nat, q: nat, r: nat, m: nat)
    requires m > 0 && x == q * m + r && r < m
    ensures x % m == r
  {
    var d := x / m - q;
    assert d * m == r - x % m;
    assert (d >= 1 ==> d * m >= m) && (d <= -1 ==> d * m + m <= 0);
  }

  lemma GroupMore(t: seq<byte>, shift: nat, maxShift: nat, acc: nat, modulus: nat)
    requires modulus > 0 && t != [] && shift <= maxShift && t[0] >= 128
    ensures ReadVarint(t, shift, maxShift, acc, modulus)
            == ReadVarint(t[1..], shift + 7, maxShift, Shifted(acc, t[0] % 128, shift) % modulus, modulus)
  {
  }

  lemma GroupLast(t: seq<byte>, shift: nat, maxShift: nat, acc: nat, modulus: nat)
    requires modulus > 0 && t != [] && shift <= maxShift && t[0] < 128
    ensures ReadVarint(t, shift, maxShift, acc, modulus) == Some((Shifted(acc, t[0] % 128, shift) % modulus, t[1..]))
  {
  }

  lemma GroupAdded(s: seq<byte>, p: nat, modulus: nat)
    requires p < |s| && modulus > 0
    ensures Shifted(Groups(s, p) % modulus, s[p] % 128, 7 * p) % modulus == Groups(s, p + 1) % modulus
  {
    AddInside(Groups(s, p), s[p] % 128 * Pow2(7 * p), modulus);
  }

  // From byte p on, with the groups before it in the accumulator.
  lemma {:induction false} ReadsGroups(s: seq<byte>, k: nat, p: nat, maxShift: nat, modulus: nat)
    requires EndsAt(s, k) && p < k && modulus > 0
    ensures ReadVarint(s[p..], 7 * p, maxShift, Groups(s, p) % modulus, modulus)
            == if 7 * (k - 1) <= maxShift then Some((Groups(s, k) % modulus, s[k..])) else None
    decreases k - p
  {
    if 7 * p <= maxShift {
      var t, acc := s[p..], Groups(s, p) % modulus;
      GroupAdded(s, p, modulus);
      assert t[1..] == s[p + 1..] && t[0] == s[p];
      if p + 1 < k {
        GroupMore(t, 7 * p, maxShift, acc, modulus);
        ReadsGroups(s, k, p + 1, maxShift, modulus);
      } else {
        GroupLast(t, 7 * p, maxShift, acc, modulus);
      }
    }
  }

  // Any bytes: the number is made of the groups up to the first byte below 128, taken
  // modulo the word, if they are not too many; without such a byte there is none.
  lemma VarintMeans(s: seq<byte>, k: nat, maxShift: nat, modulus: nat)
    requires modulus > 0
    ensures EndsAt(s, k) ==> GetVarint(s, maxShift, modulus) == if 7 * (k - 1) <= maxShift then Some((Groups(s, k) % modulus, s[k..])) else None
    ensures (forall i :: 0 <= i < |s| ==> s[i] >= 128) ==> GetVarint(s, maxShift, modulus) == None
  {
    if EndsAt(s, k) {
      ReadsGroups(s, k, 0, maxShift, modulus);
      assert s[0..] == s && 0 % modulus == 0;
    }
    if forall i :: 0 <= i < |s| ==> s[i] >= 128 {
      Endless(s, 0, maxShift, 0, modulus);
    }
  }

  lemma {:induction false} Endless(s: seq<byte>, shift: nat, maxShift: nat, acc: nat, modulus: nat)
    requires modulus > 0 && forall i :: 0 <= i < |s| ==> s[i] >= 128
    ensures ReadVarint(s, shift, maxShift, acc, modulus) == None
    decreases s
  {
    if s != [] && shift <= maxShift {
      Endless(s[1..], shift + 7, maxShift, Shifted(acc, (s[0] as nat) - 128, shift) % modulus, modulus);
    }
  }

  lemma CutPrefixed(s: seq<byte>, k: nat)
    requires |s| < TWO_32 && k < |LengthPrefixed(s)|
    ensures GetLengthPrefixed(LengthPrefixed(s)[..k]) == None
  {
    var n := |Varint(|s|)|;
    var cut := LengthPrefixed(s)[..k];
    if k < n {
      assert cut == Varint(|s|)[..k];
      CutVarint(|s|, k, 0, 28, 0, TWO_32);
    } else {
      assert cut == Varint(|s|) + s[..k - n];
      Varint32RoundTrip(|s|, s[..k - n]);
    }
  }

  // ---- Batches ----------------------------------------------------------

  lemma TaggedCut(tag: byte, a: seq<byte>, b: seq<byte>, k: nat)
    requires 0 < k <= 1 + |a| + |b|
    ensures var s := ([tag] + a + b)[..k]; s[0] == tag && s[1..] == if k - 1 < |a| then a[..k - 1] else a + b[..k - 1 - |a|]
  {
  }

  lemma CutPut(key: seq<byte>, value: seq<byte>, k: nat)
    requires |key| < TWO_32 && |value| < TWO_32 && 0 < k < |EncodeOp(Put(key, value))|
    ensures ReadOp(EncodeOp(Put(key, value))[..k]) == None
  {
    var a, b := LengthPrefixed(key), LengthPrefixed(value);
    TaggedCut(TYPE_VALUE, a, b, k);
    if k - 1 < |a| {
      CutPrefixed(key, k - 1);
    } else {
      LengthPrefixedRoundTrip(key, b[..k - 1 - |a|]);
      CutPrefixed(value, k - 1 - |a|);
    }
  }

  lemma CutDelete(key: seq<byte>, k: nat)
    requires |key| < TWO_32 && 0 < k < |EncodeOp(Delete(key))|
    ensures ReadOp(EncodeOp(Delete(key))[..k]) == None
  {
    TagCut(TYPE_DELETION, LengthPrefixed(key), k);
    CutPrefixed(key, k - 1);
  }

  lemma TagCut(tag: byte, a: seq<byte>, k: nat)
    requires 0 < k <= 1 + |a|
    ensures var s := ([tag] + a)[..k]; s[0] == tag && s[1..] == a[..k - 1]
  {
  }

  lemma CutOp(op: Op, k: nat)
    requires OpFits(op) && 0 < k < |EncodeOp(op)|
    ensures ReadOp(EncodeOp(op)[..k]) == None
  {
    match op
    case Put(key, value) => CutPut(key, value, k);
    case Delete(key) => CutDelete(key, k);
  }

  // Operations, then what holds none.
  lemma OpsThenBad(ops: seq<Op>, bad: seq<byte>)
    requires (forall i :: 0 <= i < |ops| ==> OpFits(ops[i])) && ReadOp(bad) == None
    ensures ReadOps(EncodeOps(ops) + bad) == (ops, bad == [])
  {
    var none: seq<Op> := [];
    ReadsIs(bad, none, bad == []);
    OpsRead(ops, bad, none, bad == []);
    ReadsIs(EncodeOps(ops) + bad, ops + none, bad == []);
    assert ops + none == ops;
  }

  // Bytes of operations cut off anywhere give the operations that are whole.
  lemma {:induction false} CutOps(ops: seq<Op>, k: nat) returns (j: nat)
    requires (forall i :: 0 <= i < |ops| ==> OpFits(ops[i])) && k < |EncodeOps(ops)|
    ensures j < |ops| && |EncodeOps(ops[..j])| <= k < |EncodeOps(ops[..j + 1])|
    ensures Reads(EncodeOps(ops)[..k], ops[..j], k == |EncodeOps(ops[..j])|)
  {
    var n := |ops| - 1;
    if k < |EncodeOps(ops[..n])| {
      j := CutOps(ops[..n], k);
      CutWithin(EncodeOps(ops[..n]), EncodeOp(ops[n]), k);
      FrontOf(ops, n, j);
    } else {
      j := n;
      CutLast(ops[..n], ops[n], k - |EncodeOps(ops[..n])|);
      CutBehind(EncodeOps(ops[..n]), EncodeOp(ops[n]), k);
      FrontOf(ops, n, n);
    }
  }

  lemma FrontOf(ops: seq<Op>, n: nat, j: nat)
    requires j <= n < |ops|
    ensures ops[..n][..j] == ops[..j] && (j < n ==> ops[..n][..j + 1] == ops[..j + 1]) && (n + 1 == |ops| ==> ops[..n + 1] == ops)
  {
  }

  lemma CutWithin(front: seq<byte>, last: seq<byte>, k: nat)
    requires k <= |front|
    ensures (front + last)[..k] == front[..k]
  {
  }

  lemma CutLast(ops: seq<Op>, op: Op, m: nat)
    requires (forall i :: 0 <= i < |ops| ==> OpFits(ops[i])) && OpFits(op) && m < |EncodeOp(op)|
    ensures Reads(EncodeOps(ops) + EncodeOp(op)[..m], ops, m == 0)
  {
    if m > 0 {
      CutOp(op, m);
    }
    OpsThenBad(ops, EncodeOp(op)[..m]);
    ReadsIs(EncodeOps(ops) + EncodeOp(op)[..m], ops, m == 0);
  }

  function Headed(sequence: nat, count: nat, body: seq<byte>): seq<byte>
    requires sequence < TWO_64 && count < TWO_32
  {
    EncodeFixed64(sequence) + EncodeFixed32(count) + body
  }

  lemma IterateHeaded(sequence: nat, count: nat, body: seq<byte>)
    requires sequence < TWO_64 && count < TWO_32
    ensures var r := ReadOps(body); Iterate(Headed(sequence, count, body)) == (r.0, r.1 && |r.0| == count)
  {
    Slices(EncodeFixed64(sequence), EncodeFixed32(count), body);
    Fixed32RoundTrip(count, body);
  }

  // A batch cut off anywhere behind its header is found corrupt, after the operations
  // that are whole: a cut inside an operation by its bytes, one between two by the count.
  lemma CutBatch(sequence: nat, ops: seq<Op>, k: nat) returns (j: nat)
    requires sequence < TWO_64 && |ops| < TWO_32 && (forall i :: 0 <= i < |ops| ==> OpFits(ops[i]))
    requires HEADER <= k < |Encode(sequence, ops)|
    ensures j < |ops| && |EncodeOps(ops[..j])| <= k - HEADER < |EncodeOps(ops[..j + 1])|
    ensures Iterate(Encode(sequence, ops)[..k]) == (ops[..j], false)
  {
    j := CutOps(ops, k - HEADER);
    HeadedCut(sequence, |ops|, EncodeOps(ops), k);
    IterateCut(sequence, |ops|, EncodeOps(ops)[..k - HEADER], ops[..j], k - HEADER == |EncodeOps(ops[..j])|);
  }

  lemma IterateCut(sequence: nat, count: nat, body: seq<byte>, done: seq<Op>, ok: bool)
    requires sequence < TWO_64 && count < TWO_32 && Reads(body, done, ok) && |done| != count
    ensures Iterate(Headed(sequence, count, body)) == (done, false)
  {
    ReadsIs(body, done, ok);
    IterateHeaded(sequence, count, body);
  }

  lemma HeadedCut(sequence: nat, count: nat, body: seq<byte>, k: nat)
    requires sequence < TWO_64 && count < TWO_32 && HEADER <= k <= HEADER + |body|
    ensures Headed(sequence, count, body)[..k] == Headed(sequence, count, body[..k - HEADER])
  {
    CutBehind(EncodeFixed64(sequence) + EncodeFixed32(count), body, k);
  }

  lemma CutBehind(head: seq<byte>, body: seq<byte>, k: nat)
    requires |head| <= k <= |head| + |body|
    ensures (head + body)[..k] == head + body[..k - |head|]
  {
  }

  // So is one with a wrong count, or with an unknown type byte, or followed by more.
  lemma WrongBatch(sequence: nat, count: nat, ops: seq<Op>, t: byte, rest: seq<byte>)
    requires sequence < TWO_64 && count < TWO_32 && (forall i :: 0 <= i < |ops| ==> OpFits(ops[i]))
    ensures Iterate(Headed(sequence, count, EncodeOps(ops))) == (ops, count == |ops|)
    ensures t > 1 ==> Iterate(Headed(sequence, count, EncodeOps(ops) + ([t] + rest))) == (ops, false)
  {
    OpsThenBad(ops, []);
    assert EncodeOps(ops) + [] == EncodeOps(ops);
    IterateHeaded(sequence, count, EncodeOps(ops));
    if t > 1 {
      OpsThenBad(ops, [t] + rest);
      IterateHeaded(sequence, count, EncodeOps(ops) + ([t] + rest));
    }
  }

  // ---- Edits ------------------------------------------------------------

  lemma CutLeveled(level: nat, payload: seq<byte>, k: nat)
    requires level < NUM_LEVELS && k <= |payload|
    ensures Varint(level) == [level]
    ensures EditCodec.GetLevel((Varint(level) + payload)[..k]) == if k == 0 then None else Some((level, payload[..k - 1]))
  {
    if k > 0 {
      assert (Varint(level) + payload)[..k] == Varint(level) + payload[..k - 1];
      EditCodec.LevelRoundTrip(level, payload[..k - 1]);
    }
  }

  lemma CutKey(key: seq<byte>, k: nat)
    requires EditCodec.WfKey(key) && k < |LengthPrefixed(key)|
    ensures EditCodec.GetInternalKey(LengthPrefixed(key)[..k]) == None
  {
    CutPrefixed(key, k);
  }

  lemma CutKeys(f: EditCodec.FileMeta, number: nat, size: nat, k: nat)
    requires EditCodec.WfKey(f.smallest) && EditCodec.WfKey(f.largest) && k < |EditCodec.KeysBytes(f)|
    ensures EditCodec.GetKeys(number, size, EditCodec.KeysBytes(f)[..k]) == None
  {
    var a, b := LengthPrefixed(f.smallest), LengthPrefixed(f.largest);
    if k < |a| {
      assert (a + b)[..k] == a[..k];
      CutKey(f.smallest, k);
    } else {
      assert (a + b)[..k] == a + b[..k - |a|];
      EditCodec.KeyRoundTrip(f.smallest, b[..k - |a|]);
      CutKey(f.largest, k - |a|);
    }
  }

  lemma CutNumber(n: nat, rest: seq<byte>, k: nat)
    requires n < TWO_64 && k <= |Varint(n) + rest|
    ensures GetVarint64((Varint(n) + rest)[..k]) == if k < |Varint(n)| then None else Some((n, rest[..k - |Varint(n)|]))
  {
    var m := |Varint(n)|;
    if k < m {
      assert (Varint(n) + rest)[..k] == Varint(n)[..k];
      CutVarint(n, k, 0, 63, 0, TWO_64);
    } else {
      assert (Varint(n) + rest)[..k] == Varint(n) + rest[..k - m];
      Varint64RoundTrip(n, rest[..k - m]);
    }
  }

  lemma CutMeta(f: EditCodec.FileMeta, k: nat)
    requires f.number < TWO_64 && f.size < TWO_64 && EditCodec.WfKey(f.smallest) && EditCodec.WfKey(f.largest) && k < |EditCodec.MetaBytes(f)|
    ensures EditCodec.GetFileMeta(EditCodec.MetaBytes(f)[..k]) == None
  {
    var keys := EditCodec.KeysBytes(f);
    var n, m := |Varint(f.number)|, |Varint(f.size)|;
    CutNumber(f.number, Varint(f.size) + keys, k);
    if k >= n {
      CutNumber(f.size, keys, k - n);
      if k - n >= m {
        CutKeys(f, f.number, f.size, k - n - m);
      }
    }
  }

  lemma CutPointer(level: nat, key: seq<byte>, k: nat)
    requires level < NUM_LEVELS && EditCodec.WfKey(key) && k < |Varint(level) + LengthPrefixed(key)|
    ensures EditCodec.GetCompactPointer((Varint(level) + LengthPrefixed(key))[..k]) == None
  {
    CutLeveled(level, LengthPrefixed(key), k);
    if k > 0 {
      CutKey(key, k - 1);
    }
  }

  lemma CutDeleted(level: nat, n: nat, k: nat)
    requires level < NUM_LEVELS && n < TWO_64 && k < |Varint(level) + Varint(n)|
    ensures EditCodec.GetDeletedFile((Varint(level) + Varint(n))[..k]) == None
  {
    CutLeveled(level, Varint(n), k);
    if k > 0 {
      CutVarint(n, k - 1, 0, 63, 0, TWO_64);
    }
  }

  lemma CutNewFile(level: nat, meta: seq<byte>, k: nat)
    requires level < NUM_LEVELS && k < |Varint(level) + meta| && forall m :: 0 <= m < |meta| ==> EditCodec.GetFileMeta(meta[..m]) == None
    ensures EditCodec.GetNewFile((Varint(level) + meta)[..k]) == None
  {
    CutLeveled(level, meta, 0);
    CutLeveled(level, meta, k);
  }

  lemma CutCounter(f: EditCodec.Field, k: nat)
    requires EditCodec.WfField(f) && !f.CompactPointer? && !f.DeletedFile? && !f.NewFile? && k < |EditCodec.Payload(f)|
    ensures EditCodec.GetCounter(EditCodec.Tag(f), EditCodec.Payload(f)[..k]) == None
  {
    if f.Comparator? {
      CutPrefixed(f.name, k);
    } else {
      CutVarint(if f.LastSequence? then f.sequence else f.number, k, 0, 63, 0, TWO_64);
    }
  }

  // A payload cut off is refused.
  lemma CutPayload(f: EditCodec.Field, k: nat)
    requires EditCodec.WfField(f) && k < |EditCodec.Payload(f)|
    ensures EditCodec.GetField(EditCodec.Tag(f), EditCodec.Payload(f)[..k]) == None
  {
    EditCodec.ReadByTag(f, EditCodec.Payload(f)[..k]);
    if f.CompactPointer? {
      CutPointer(f.level, f.key, k);
    } else if f.DeletedFile? {
      CutDeleted(f.level, f.number, k);
    } else if f.NewFile? {
      forall m | 0 <= m < |EditCodec.MetaBytes(f.file)| ensures EditCodec.GetFileMeta(EditCodec.MetaBytes(f.file)[..m]) == None {
        CutMeta(f.file, m);
      }
      CutNewFile(f.level, EditCodec.MetaBytes(f.file), k);
    } else {
      CutCounter(f, k);
    }
  }

  lemma BadPayload(tag: nat, payload: seq<byte>, e: EditCodec.Edit)
    requires tag < TWO_32 && EditCodec.GetField(tag, payload) == None
    ensures EditCodec.Decode(Varint(tag) + payload, e) == None
  {
    Varint32RoundTrip(tag, payload);
  }

  lemma OneByteTag(f: EditCodec.Field, k: nat)
    requires 0 < k <= |EditCodec.EncodeField(f)|
    ensures k - 1 <= |EditCodec.Payload(f)| && EditCodec.Tag(f) < TWO_32
    ensures k < |EditCodec.EncodeField(f)| ==> k - 1 < |EditCodec.Payload(f)|
    ensures EditCodec.EncodeField(f)[..k] == Varint(EditCodec.Tag(f)) + EditCodec.Payload(f)[..k - 1]
  {
    var tag, payload := EditCodec.Tag(f), EditCodec.Payload(f);
    assert Varint(tag) == [tag];
    CutBehind(Varint(tag), payload, k);
  }

  lemma TornField(f: EditCodec.Field, k: nat, torn: seq<byte>, e: EditCodec.Edit)
    requires EditCodec.WfField(f) && 0 < k < |EditCodec.EncodeField(f)| && torn == EditCodec.EncodeField(f)[..k]
    ensures EditCodec.Decode(torn, e) == None
  {
    OneByteTag(f, k);
    CutPayload(f, k - 1);
    BadPayload(EditCodec.Tag(f), EditCodec.Payload(f)[..k - 1], e);
  }

  // A record of fields that breaks off inside the last of them is no edit.
  lemma TornEdit(fs: seq<EditCodec.Field>, f: EditCodec.Field, k: nat, torn: seq<byte>, e: EditCodec.Edit)
    requires (forall g {:trigger EditCodec.WfField(g)} :: g in fs ==> EditCodec.WfField(g)) && EditCodec.WfField(f)
    requires 0 < k < |EditCodec.EncodeField(f)| && torn == EditCodec.EncodeField(f)[..k]
    ensures EditCodec.Decode(EditCodec.EncodeFields(fs) + torn, e) == None
  {
    EditCodec.FieldsRoundTrip(fs, torn, e);
    TornField(f, k, torn, EditCodec.SetFields(e, fs));
  }

  predicate KnownTag(tag: nat) {
    1 <= tag <= 7 || tag == 9
  }

  // So is one with an unknown tag.
  lemma UnknownTagRefused(fs: seq<EditCodec.Field>, tag: nat, rest: seq<byte>, e: EditCodec.Edit)
    requires (forall g {:trigger EditCodec.WfField(g)} :: g in fs ==> EditCodec.WfField(g)) && tag < TWO_32 && !KnownTag(tag)
    ensures EditCodec.Decode(EditCodec.EncodeFields(fs) + (Varint(tag) + rest), e) == None
  {
    EditCodec.FieldsRoundTrip(fs, Varint(tag) + rest, e);
    Varint32RoundTrip(tag, rest);
  }

  // Whatever is accepted has the meaning of well-formed fields.
  lemma {:induction false} AcceptedIsFields(s: seq<byte>, e: EditCodec.Edit) returns (fs: seq<EditCodec.Field>)
    requires EditCodec.Decode(s, e).Some?
    ensures forall g {:trigger EditCodec.WfField(g)} :: g in fs ==> EditCodec.WfField(g)
    ensures EditCodec.Decode(s, e) == Some(EditCodec.SetFields(e, fs))
    decreases |s|
  {
    var tag := GetVarint32(s);
    if tag.None? {
      fs := [];
    } else {
      var r := EditCodec.GetField(tag.value.0, tag.value.1);
      FieldIsWf(tag.value.0, tag.value.1);
      var f := r.value.0;
      var more := AcceptedIsFields(r.value.1, EditCodec.SetField(e, f));
      EditCodec.SetSplit(e, [f], more);
      assert [f][..0] == [] && EditCodec.SetFields(e, [f]) == EditCodec.SetField(EditCodec.SetFields(e, []), f);
      fs := [f] + more;
    }
  }

  lemma {:induction false} VarintSmall(s: seq<byte>, shift: nat, maxShift: nat, acc: nat, modulus: nat)
    requires modulus > 0
    ensures var r := ReadVarint(s, shift, maxShift, acc, modulus); r.Some? ==> r.value.0 < modulus
    decreases s
  {
    if s != [] && shift <= maxShift && s[0] >= 128 {
      VarintSmall(s[1..], shift + 7, maxShift, Shifted(acc, (s[0] as nat) - 128, shift) % modulus, modulus);
    }
  }

  lemma NumberSmall(s: seq<byte>)
    ensures GetVarint64(s).Some? ==> GetVarint64(s).value.0 < TWO_64
  {
    VarintSmall(s, 0, 63, 0, TWO_64);
  }

  lemma KeySmall(s: seq<byte>)
    ensures GetLengthPrefixed(s).Some? ==> |GetLengthPrefixed(s).value.0| < TWO_32
  {
    VarintSmall(s, 0, 28, 0, TWO_32);
  }

  lemma KeysWf(number: nat, size: nat, s: seq<byte>)
    ensures var r := EditCodec.GetKeys(number, size, s);
            r.Some? ==> EditCodec.WfKey(r.value.0.smallest) && EditCodec.WfKey(r.value.0.largest) && r.value.0.number == number && r.value.0.size == size
  {
    KeySmall(s);
    var a := EditCodec.GetInternalKey(s);
    if a.Some? {
      KeySmall(a.value.1);
    }
  }

  lemma MetaWf(level: nat, s: seq<byte>)
    requires level < NUM_LEVELS
    ensures var r := EditCodec.GetFileMeta(s); r.Some? ==> EditCodec.WfField(EditCodec.NewFile(level, r.value.0))
  {
    NumberSmall(s);
    var a := GetVarint64(s);
    if a.Some? {
      NumberSmall(a.value.1);
      var b := GetVarint64(a.value.1);
      if b.Some? {
        KeysWf(a.value.0, b.value.0, b.value.1);
      }
    }
  }

  lemma CounterIsWf(tag: nat, s: seq<byte>)
    ensures var r := EditCodec.GetCounter(tag, s); r.Some? ==> EditCodec.WfField(r.value.0)
  {
    NumberSmall(s);
    KeySmall(s);
  }

  lemma LeveledIsWf(s: seq<byte>)
    ensures EditCodec.GetCompactPointer(s).Some? ==> EditCodec.WfField(EditCodec.GetCompactPointer(s).value.0)
    ensures EditCodec.GetDeletedFile(s).Some? ==> EditCodec.WfField(EditCodec.GetDeletedFile(s).value.0)
    ensures EditCodec.GetNewFile(s).Some? ==> EditCodec.WfField(EditCodec.GetNewFile(s).value.0)
  {
    var l := EditCodec.GetLevel(s);
    if l.Some? {
      NumberSmall(l.value.1);
      KeySmall(l.value.1);
      MetaWf(l.value.0, l.value.1);
    }
  }

  lemma FieldIsWf(tag: nat, s: seq<byte>)
    ensures var r := EditCodec.GetField(tag, s); r.Some? ==> EditCodec.WfField(r.value.0)
  {
    CounterIsWf(tag, s);
    LeveledIsWf(s);
  }
}
