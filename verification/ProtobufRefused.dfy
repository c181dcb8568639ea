// What the decoder makes of numbers no encoder writes for a field, and of more
// than the structure has room for (pb_decode.c).

module ProtobufRefused {
  import opened DbFormat
  import opened Coding
  import opened Protobuf
  import opened ProtobufRoundTrip

  // n and v agree in their low bits.
  predicate SameBits(n: int, v: nat, modulus: nat)
    requires modulus > 0
  {
    n % modulus == v % modulus
  }

  // What a varint means for a field: its own number if that fits; for a signed field the
  // number with its low 64 bits, or 32 for the smaller fields; for a bool whether it is not 0.
  predicate Means(k: Kind, v: nat, n: int) {
    match k
    case Bool => n == if v == 0 then 0 else 1
    case UInt(bits) => n == v && n < Pow2(bits)
    case Int(bits) => FitsSigned(bits, n) && SameBits(n, v, if bits == 64 then TWO_64 else TWO_32)
    case SInt(bits) => FitsSigned(bits, n) && ZigZag(n) == v
    case _ => false
  }

  lemma Signed64Means(v: nat, n: int)
    requires -0x8000_0000_0000_0000 <= n < 0x8000_0000_0000_0000
    ensures Signed(v, TWO_64 / 2) == n <==> SameBits(n, v, TWO_64)
  {
  }

  lemma Signed32Means(v: nat, n: int)
    requires -0x8000_0000 <= n < 0x8000_0000
    ensures Signed(v, TWO_32 / 2) == n <==> SameBits(n, v, TWO_32)
  {
  }

  lemma IntMeans(k: Kind, v: nat, n: int, rest: seq<byte>)
    requires v < TWO_64 && k.Int? && IntSize(k.bits) && FitsSigned(k.bits, n)
    ensures ReadNumber(k, Varint(v) + rest) == Some((n, rest)) <==> Means(k, v, n)
  {
    Varint64RoundTrip(v, rest);
    SignedBounds(k.bits, n);
    if k.bits == 64 {
      Signed64Means(v, n);
    } else {
      Signed32Means(v, n);
    }
  }

  lemma UnZigZagOnto(v: nat)
    requires v < TWO_64
    ensures -0x8000_0000_0000_0000 <= UnZigZag(v) < 0x8000_0000_0000_0000 && ZigZag(UnZigZag(v)) == v
  {
  }

  // Any varint at a number field: read exactly as what it means, and refused if it means nothing.
  lemma NumberMeans(k: Kind, v: nat, n: int, rest: seq<byte>)
    requires v < TWO_64 && (k.Bool? ==> v < TWO_32)
    requires k.Bool? || ((k.UInt? || k.Int? || k.SInt?) && IntSize(k.bits))
    ensures ReadNumber(k, Varint(v) + rest) == Some((n, rest)) <==> Means(k, v, n)
    ensures ReadNumber(k, Varint(v) + rest).Some? ==> ReadNumber(k, Varint(v) + rest).value.1 == rest
  {
    Varint64RoundTrip(v, rest);
    match k
    case Bool => Read32RoundTrip(v, rest);
    case UInt(_) =>
    case SInt(bits) =>
      UnZigZagOnto(v);
      if FitsSigned(bits, n) {
        SignedBounds(bits, n);
        ZigZagRoundTrip(n);
      }
    case Int(bits) =>
      if FitsSigned(bits, n) {
        IntMeans(k, v, n, rest);
      }
  }

  // ---- No room ----------------------------------------------------------

  // A packed array with more elements than there is room for is refused as a whole.
  lemma PackedOverflow(k: Kind, max: nat, ws: seq<Value>, vs: seq<Value>)
    requires Packable(k) && |ws| <= max < |ws| + |vs| && AllFit(k, vs, |vs|)
    ensures ReadPacked(k, max, EncodeBody(k, vs, |vs|), ws) == None
  {
    var n := max - |ws|;
    var tail := BodyTail(k, vs, n, |vs|);
    FrontBody(k, vs, n, n);
    FitsBefore(k, vs, n, |vs|);
    FrontFits(k, vs, n, n);
    PackedRoundTrip(k, max, ws, vs[..n], n, tail);
    PackedLeadsIs(k, max, EncodeBody(k, vs[..n], n) + tail, ws, tail, ws + vs[..n][..n]);
  }

  lemma {:induction false} FrontBody(k: Kind, vs: seq<Value>, n: nat, m: nat)
    requires m <= n <= |vs|
    ensures EncodeBody(k, vs[..n], m) == EncodeBody(k, vs, m)
  {
    if m > 0 {
      FrontBody(k, vs, n, m - 1);
    }
  }

  lemma {:induction false} FitsBefore(k: Kind, vs: seq<Value>, m: nat, j: nat)
    requires m <= j <= |vs| && AllFit(k, vs, j)
    ensures AllFit(k, vs, m)
  {
    if m < j {
      FitsBefore(k, vs, m, j - 1);
    }
  }

  lemma {:induction false} FrontFits(k: Kind, vs: seq<Value>, n: nat, m: nat)
    requires m <= n <= |vs| && AllFit(k, vs, m)
    ensures AllFit(k, vs[..n], m)
  {
    if m > 0 {
      FrontFits(k, vs, n, m - 1);
    }
  }

  // What the elements from the n-th on are encoded to.
  lemma {:induction false} BodyTail(k: Kind, vs: seq<Value>, n: nat, m: nat) returns (tail: seq<byte>)
    requires n <= m <= |vs| && Packable(k)
    ensures (n < m ==> tail != []) && EncodeBody(k, vs, m) == EncodeBody(k, vs, n) + tail
  {
    if n == m {
      tail := [];
    } else {
      var t := BodyTail(k, vs, n, m - 1);
      var v := EncodeValue(k, vs[m - 1]);
      Reassociate(EncodeBody(k, vs, n), t, v);
      tail := t + v;
    }
  }

  // So is a byte string longer than its field.
  lemma BytesOverflow(max: nat, b: seq<byte>, was: Value, rest: seq<byte>)
    requires max < |b| < TWO_32
    ensures ReadValue(Bytes(max), LengthPrefixed(b) + rest, was) == None
  {
    SubstreamRoundTrip(b, rest);
  }

  // And one more element, written with its own tag, for an array that is full.
  lemma ElementOverflow(fields: seq<Field>, i: nat, wire: nat, body: seq<byte>, p: Progress)
    requires WfTags(fields) && i < |fields| == |p.slots| && p.pos < |fields| && wire < 8
    requires fields[i].rule.Repeated? && |ValuesOf(p.slots[i])| == fields[i].rule.max && !(wire == WT_STRING && Packable(fields[i].kind))
    ensures ReadFields(fields, EncodeTag(wire, fields[i].tag) + body, p) == None
  {
    var t := fields[i].tag * 8 + wire;
    Read32RoundTrip(t, body);
    assert t / 8 == fields[i].tag && t % 8 == wire && t > 0;
    FindArrives(fields, p.pos, i);
  }

  // A zero tag ends a message like the end of the bytes does.
  lemma ZeroTagEnds(fields: seq<Field>, p: Progress, rest: seq<byte>)
    requires |p.slots| == |fields|
    ensures ReadFields(fields, [0] + rest, p) == ReadFields(fields, [], p)
  {
    assert ([0] + rest)[1..] == rest;
  }
}
