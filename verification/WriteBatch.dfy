// A batch of writes as one byte string (db/write_batch.cc): what goes into the
// log, and from there or directly into the memtable.

module WriteBatch {
  import opened DbFormat
  import opened Coding

  datatype Op = Put(key: seq<byte>, value: seq<byte>) | Delete(key: seq<byte>)

  const HEADER: nat := 12
  const TYPE_DELETION: byte := 0
  const TYPE_VALUE: byte := 1

  function EncodeOp(op: Op): seq<byte> {
    match op
    case Put(key, value) => [TYPE_VALUE] + LengthPrefixed(key) + LengthPrefixed(value)
    case Delete(key) => [TYPE_DELETION] + LengthPrefixed(key)
  }

  function EncodeOps(ops: seq<Op>): seq<byte> {
    if ops == [] then [] else EncodeOps(ops[..|ops| - 1]) + EncodeOp(ops[|ops| - 1])
  }

  // An 8-byte sequence number and a 4-byte count in front.
  function Encode(sequence: nat, ops: seq<Op>): seq<byte>
    requires sequence < TWO_64 && |ops| < TWO_32
  {
    EncodeFixed64(sequence) + EncodeFixed32(|ops|) + EncodeOps(ops)
  }

  predicate OpFits(op: Op) {
    |op.key| < TWO_32 && (op.Put? ==> |op.value| < TWO_32)
  }

  // ---- Reading ----------------------------------------------------------

  function ReadOp(s: seq<byte>): (r: Option<(Op, seq<byte>)>)
    ensures r.Some? ==> |r.value.1| < |s|
  {
    if s == [] then None
    else
      var key := GetLengthPrefixed(s[1..]);
      if s[0] == TYPE_VALUE then
        if key.None? then None
        else
          var value := GetLengthPrefixed(key.value.1);
          if value.None? then None else Some((Put(key.value.0, value.value.0), value.value.1))
      else if s[0] == TYPE_DELETION then
        if key.None? then None else Some((Delete(key.value.0), key.value.1))
      else None
  }

  // What the handler is called with, and whether the end was reached.
  function ReadOps(s: seq<byte>): (seq<Op>, bool)
    decreases s
  {
    if s == [] then ([], true)
    else
      var t := ReadOp(s);
      if t.None? then ([], false)
      else
        var rest := ReadOps(t.value.1);
        ([t.value.0] + rest.0, rest.1)
  }

  // Iterate: the calls made, and the status.
  function Iterate(rep: seq<byte>): (seq<Op>, bool) {
    if |rep| < HEADER then ([], false)
    else
      var r := ReadOps(rep[HEADER..]);
      (r.0, r.1 && |r.0| == DecodeFixed32(rep[8..]))
  }

  lemma AfterTag(tag: byte, a: seq<byte>, b: seq<byte>, rest: seq<byte>)
    ensures ([tag] + a + rest)[1..] == a + rest && ([tag] + a + b + rest)[1..] == a + (b + rest)
  {
  }

  lemma OpRoundTrip(op: Op, rest: seq<byte>)
    requires OpFits(op)
    ensures ReadOp(EncodeOp(op) + rest) == Some((op, rest))
  {
    match op
    case Put(key, value) =>
      AfterTag(TYPE_VALUE, LengthPrefixed(key), LengthPrefixed(value), rest);
      LengthPrefixedRoundTrip(key, LengthPrefixed(value) + rest);
      LengthPrefixedRoundTrip(value, rest);
    case Delete(key) =>
      AfterTag(TYPE_DELETION, LengthPrefixed(key), [], rest);
      LengthPrefixedRoundTrip(key, rest);
  }

  lemma OneMore(ops: seq<Op>, op: Op, s: seq<byte>, rest: seq<byte>)
    requires ReadOp(s) == Some((op, rest))
    ensures (ops + ReadOps(s).0, ReadOps(s).1) == (ops + [op] + ReadOps(rest).0, ReadOps(rest).1)
  {
    Reassociate(ops, [op], ReadOps(rest).0);
  }

  // The bytes read as the operations, folded away; Peek opens it.
  ghost predicate Reads(s: seq<byte>, ops: seq<Op>, ok: bool) {
    forall x {:trigger Peek(x)} :: Peek(x) && x == s ==> ReadOps(x) == (ops, ok)
  }

  ghost predicate Peek(s: seq<byte>) {
    true
  }

  lemma ReadsIs(s: seq<byte>, ops: seq<Op>, ok: bool)
    ensures Reads(s, ops, ok) <==> ReadOps(s) == (ops, ok)
  {
    assert Peek(s);
  }

  lemma ReadFirst(op: Op, rest: seq<byte>, ops: seq<Op>, ok: bool)
    requires OpFits(op) && Reads(rest, ops, ok)
    ensures Reads(EncodeOp(op) + rest, [op] + ops, ok)
  {
    OpRoundTrip(op, rest);
    ReadsIs(rest, ops, ok);
    ReadsIs(EncodeOp(op) + rest, [op] + ops, ok);
  }

  // Operations in front of any bytes are read first, in order.
  lemma {:induction false} OpsRead(ops: seq<Op>, rest: seq<byte>, more: seq<Op>, ok: bool)
    requires (forall i :: 0 <= i < |ops| ==> OpFits(ops[i])) && Reads(rest, more, ok)
    ensures Reads(EncodeOps(ops) + rest, ops + more, ok)
    decreases ops
  {
    if ops == [] {
      assert EncodeOps(ops) + rest == rest && ops + more == more;
    } else {
      var n := |ops| - 1;
      var one := EncodeOp(ops[n]);
      ReadFirst(ops[n], rest, more, ok);
      OpsRead(ops[..n], one + rest, [ops[n]] + more, ok);
      Reassociate(EncodeOps(ops[..n]), one, rest);
      Reassociate(ops[..n], [ops[n]], more);
      assert ops[..n] + [ops[n]] == ops;
    }
  }

  // What was put into a batch comes out again, and the count is right.
  lemma BatchRoundTrip(sequence: nat, ops: seq<Op>)
    requires sequence < TWO_64 && |ops| < TWO_32 && forall i :: 0 <= i < |ops| ==> OpFits(ops[i])
    ensures var rep := Encode(sequence, ops); |rep| >= HEADER && DecodeFixed64(rep) == sequence && Iterate(rep) == (ops, true)
  {
    var body, count, number := EncodeOps(ops), EncodeFixed32(|ops|), EncodeFixed64(sequence);
    Slices(number, count, body);
    Reassociate(number, count, body);
    Fixed64RoundTrip(sequence, count + body);
    Fixed32RoundTrip(|ops|, body);
    BodyRead(ops);
  }

  lemma BodyRead(ops: seq<Op>)
    requires forall i :: 0 <= i < |ops| ==> OpFits(ops[i])
    ensures ReadOps(EncodeOps(ops)) == (ops, true)
  {
    var end, none: seq<Op> := [], [];
    ReadsIs(end, none, true);
    OpsRead(ops, end, none, true);
    assert EncodeOps(ops) + end == EncodeOps(ops) && ops + none == ops;
    ReadsIs(EncodeOps(ops), ops, true);
  }

  lemma Slices(a: seq<byte>, b: seq<byte>, c: seq<byte>)
    requires |a| == 8 && |b| == 4
    ensures (a + b + c)[..8] == a && (a + b + c)[8..] == b + c && (a + b + c)[HEADER..] == c
  {
  }

  lemma {:induction false} EncodeOpsSplit(a: seq<Op>, b: seq<Op>)
    ensures EncodeOps(a + b) == EncodeOps(a) + EncodeOps(b)
    decreases b
  {
    if b == [] {
      assert a + b == a && EncodeOps(a) + [] == EncodeOps(a);
    } else {
      var n := |b| - 1;
      EncodeOpsSplit(a, b[..n]);
      assert (a + b)[..|a + b| - 1] == a + b[..n];
      Reassociate(EncodeOps(a), EncodeOps(b[..n]), EncodeOp(b[n]));
    }
  }

  // The entries a batch makes: consecutive sequence numbers from the first.
  function Numbered(first: nat, ops: seq<Op>): (r: seq<(nat, Op)>)
    ensures |r| == |ops| && forall i {:trigger r[i]} :: 0 <= i < |r| ==> r[i] == (first + i, ops[i])
  {
    seq(|ops|, i requires 0 <= i < |ops| => (first + i, ops[i]))
  }

  class WriteBatch {
    var rep: seq<byte>
    ghost var sequence: nat
    ghost var ops: seq<Op>

    ghost predicate Valid()
      reads this
    {
      && sequence < TWO_64 && |ops| < TWO_32 && rep == Encode(sequence, ops)
      && forall i :: 0 <= i < |ops| ==> OpFits(ops[i])
    }

    constructor ()
      ensures Valid() && ops == [] && sequence == 0
    {
      rep, sequence, ops := EncodeFixed64(0) + EncodeFixed32(0), 0, [];
    }

    method Count() returns (n: nat)
      requires Valid()
      ensures n == |ops|
    {
      BatchRoundTrip(sequence, ops);
      n := DecodeFixed32(rep[8..]);
    }

    method SetCount(n: nat, ghost newOps: seq<Op>)
      requires Valid() && n == |newOps| < TWO_32
      modifies this`rep
      ensures rep == EncodeFixed64(sequence) + EncodeFixed32(n) + EncodeOps(ops)
    {
      HeaderParts(sequence, ops);
      rep := rep[..8] + EncodeFixed32(n) + rep[HEADER..];
    }

    lemma HeaderParts(sequence: nat, ops: seq<Op>)
      requires sequence < TWO_64 && |ops| < TWO_32
      ensures var rep := Encode(sequence, ops);
              |rep| >= HEADER && rep[..8] == EncodeFixed64(sequence) && rep[8..] == EncodeFixed32(|ops|) + EncodeOps(ops) && rep[HEADER..] == EncodeOps(ops)
    {
      Slices(EncodeFixed64(sequence), EncodeFixed32(|ops|), EncodeOps(ops));
    }

    method SetSequence(s: nat)
      requires Valid() && s < TWO_64
      modifies this`rep, this`sequence
      ensures Valid() && sequence == s
    {
      HeaderParts(sequence, ops);
      rep := EncodeFixed64(s) + rep[8..];
      sequence := s;
      assert rep == Encode(s, ops);
    }

    method PutOp(key: seq<byte>, value: seq<byte>)
      requires Valid() && OpFits(Put(key, value)) && |ops| + 1 < TWO_32
      modifies this
      ensures Valid() && ops == old(ops) + [Put(key, value)] && sequence == old(sequence)
    {
      ghost var op := Put(key, value);
      var n := Count();
      SetCount(n + 1, ops + [op]);
      ghost var front, k, v := rep, LengthPrefixed(key), LengthPrefixed(value);
      rep := rep + [TYPE_VALUE];
      rep := rep + LengthPrefixed(key);
      rep := rep + LengthPrefixed(value);
      Reassociate(front, [TYPE_VALUE], k);
      Reassociate(front, [TYPE_VALUE] + k, v);
      Extended(sequence, ops, op, rep);
      ops := ops + [op];
    }

    method DeleteOp(key: seq<byte>)
      requires Valid() && OpFits(Delete(key)) && |ops| + 1 < TWO_32
      modifies this
      ensures Valid() && ops == old(ops) + [Delete(key)] && sequence == old(sequence)
    {
      ghost var op := Delete(key);
      var n := Count();
      SetCount(n + 1, ops + [op]);
      ghost var front := rep;
      rep := rep + [TYPE_DELETION];
      rep := rep + LengthPrefixed(key);
      Reassociate(front, [TYPE_DELETION], LengthPrefixed(key));
      Extended(sequence, ops, op, rep);
      ops := ops + [op];
    }

    lemma Extended(sequence: nat, ops: seq<Op>, op: Op, rep: seq<byte>)
      requires sequence < TWO_64 && |ops| + 1 < TWO_32
      requires rep == EncodeFixed64(sequence) + EncodeFixed32(|ops| + 1) + EncodeOps(ops) + EncodeOp(op)
      ensures rep == Encode(sequence, ops + [op])
    {
      assert (ops + [op])[..|ops|] == ops;
      Reassociate(EncodeFixed64(sequence) + EncodeFixed32(|ops| + 1), EncodeOps(ops), EncodeOp(op));
    }

    lemma Joined(sequence: nat, a: seq<Op>, b: seq<Op>, rep: seq<byte>)
      requires sequence < TWO_64 && |a| + |b| < TWO_32
      requires rep == EncodeFixed64(sequence) + EncodeFixed32(|a + b|) + EncodeOps(a) + EncodeOps(b)
      ensures rep == Encode(sequence, a + b)
    {
      EncodeOpsSplit(a, b);
      Reassociate(EncodeFixed64(sequence) + EncodeFixed32(|a + b|), EncodeOps(a), EncodeOps(b));
    }

    // The operations of another batch after its own, as BuildBatchGroup does.
    method Append(source: WriteBatch)
      requires Valid() && source.Valid() && |ops| + |source.ops| < TWO_32
      modifies this
      ensures Valid() && ops == old(ops) + old(source.ops) && sequence == old(sequence)
    {
      ghost var own, more, first := ops, source.ops, sequence;
      assert forall i :: 0 <= i < |own + more| ==> OpFits((own + more)[i]);
      var n := Count();
      var body := source.Body();
      var m := source.Count();
      ghost var all := own + more;
      assert n + m == |all|;
      SetCount(n + m, all);
      ghost var front := EncodeFixed64(first) + EncodeFixed32(|all|);
      assert rep == front + EncodeOps(own);
      rep := rep + body;
      assert rep == front + EncodeOps(own) + EncodeOps(more);
      Joined(first, own, more, rep);
      ops := own + more;
    }

    // The operations behind the header.
    function Body(): (r: seq<byte>)
      requires Valid()
      reads this
      ensures r == EncodeOps(ops)
    {
      HeaderParts(sequence, ops);
      rep[HEADER..]
    }

    // The loop of Iterate over any contents, collecting what the handler is called with.
    method IterateOps(contents: seq<byte>) returns (calls: seq<Op>, ok: bool)
      ensures (calls, ok) == Iterate(contents)
    {
      calls := [];
      if |contents| < HEADER {
        return [], false;
      }
      var input := contents[HEADER..];
      ghost var target := ReadOps(input);
      while input != []
        invariant calls + ReadOps(input).0 == target.0 && ReadOps(input).1 == target.1
        decreases |input|
      {
        var t := ReadOp(input);
        if t.None? {
          assert calls + [] == calls;
          return calls, false;
        }
        OneMore(calls, t.value.0, input, t.value.1);
        calls := calls + [t.value.0];
        input := t.value.1;
      }
      assert calls + [] == calls;
      ok := |calls| == DecodeFixed32(contents[8..]);
    }

    // InsertInto: each operation under its own sequence number, up to the first
    // malformed one.
    method InsertInto() returns (entries: seq<(nat, Op)>, ok: bool)
      requires |rep| >= HEADER
      ensures entries == Numbered(DecodeFixed64(rep), Iterate(rep).0) && ok == Iterate(rep).1
      ensures Valid() ==> ok && entries == Numbered(sequence, ops)
    {
      if Valid() {
        BatchRoundTrip(sequence, ops);
      }
      var first := DecodeFixed64(rep);
      var calls;
      calls, ok := IterateOps(rep);
      entries := NumberCalls(first, calls);
    }
  }

  // MemTableInserter: it counts its sequence number up with every call.
  method NumberCalls(first: nat, calls: seq<Op>) returns (entries: seq<(nat, Op)>)
    ensures entries == Numbered(first, calls)
  {
    entries := [];
    var i := 0;
    while i < |calls|
      invariant 0 <= i <= |calls| && |entries| == i
      invariant forall j :: 0 <= j < i ==> entries[j] == (first + j, calls[j])
    {
      entries := entries + [(first + i, calls[i])];
      i := i + 1;
    }
  }
}
