// Fixed-width and variable-length integers, length-prefixed strings
// (util/coding.h, util/coding.cc).

module Coding {
  import opened DbFormat

  const TWO_32: nat := 0x1_0000_0000
  const TWO_64: nat := 0x1_0000_0000_0000_0000

  function Pow2(n: nat): (r: nat)
    ensures r > 0
  {
    if n == 0 then 1 else 2 * Pow2(n - 1)
  }

  lemma Pow2Seven(n: nat)
    ensures Pow2(n + 7) == 128 * Pow2(n)
  {
    assert Pow2(n + 7) == 2 * Pow2(n + 6) == 4 * Pow2(n + 5) == 8 * Pow2(n + 4) == 16 * Pow2(n + 3) == 32 * Pow2(n + 2) == 64 * Pow2(n + 1);
  }

  // ---- fixed width ------------------------------------------------------

  function Low8(x: nat): byte {
    x % 256
  }

  // Little-endian.
  function EncodeFixed32(v: nat): (s: seq<byte>)
    requires v < TWO_32
    ensures |s| == 4
  {
    seq(4, i requires 0 <= i < 4 => ByteOf(v, i))
  }

  function ByteOf(v: nat, i: nat): byte
    requires i < 4
  {
    if i == 0 then Low8(v) else if i == 1 then Low8(v / 0x100) else if i == 2 then Low8(v / 0x1_0000) else Low8(v / 0x100_0000)
  }

  function DecodeFixed32(s: seq<byte>): (v: nat)
    requires |s| >= 4
    ensures v < TWO_32
  {
    (s[0] as nat) + (s[1] as nat) * 0x100 + (s[2] as nat) * 0x1_0000 + (s[3] as nat) * 0x100_0000
  }

  lemma Fixed32RoundTrip(v: nat, rest: seq<byte>)
    requires v < TWO_32
    ensures DecodeFixed32(EncodeFixed32(v) + rest) == v
  {
    var s := EncodeFixed32(v);
    assert s[0] == ByteOf(v, 0) && s[1] == ByteOf(v, 1) && s[2] == ByteOf(v, 2) && s[3] == ByteOf(v, 3);
    var a, b, c := v / 0x100, v / 0x1_0000, v / 0x100_0000;
    assert v == a * 0x100 + Low8(v) && a == b * 0x100 + Low8(a) && b == c * 0x100 + Low8(b) && c == Low8(c);
  }

  lemma Fixed32Unique(s: seq<byte>)
    requires |s| == 4
    ensures EncodeFixed32(DecodeFixed32(s)) == s
  {
    var v := DecodeFixed32(s);
    var a := (s[1] as nat) + (s[2] as nat) * 0x100 + (s[3] as nat) * 0x1_0000;
    var b := (s[2] as nat) + (s[3] as nat) * 0x100;
    assert v == a * 0x100 + s[0] && a == b * 0x100 + s[1];
    assert v / 0x100 == a && Low8(v) == s[0];
    assert a / 0x100 == b && Low8(a) == s[1];
    assert v / 0x1_0000 == b && v / 0x100_0000 == s[3] && Low8(b) == s[2] && Low8(s[3]) == s[3];
    assert forall i :: 0 <= i < 4 ==> ByteOf(v, i) == s[i];
  }

  function EncodeFixed64(v: nat): (s: seq<byte>)
    requires v < TWO_64
    ensures |s| == 8
  {
    EncodeFixed32(v % TWO_32) + EncodeFixed32(v / TWO_32)
  }

  function DecodeFixed64(s: seq<byte>): (v: nat)
    requires |s| >= 8
    ensures v < TWO_64
  {
    DecodeFixed32(s) + DecodeFixed32(s[4..]) * TWO_32
  }

  lemma Fixed64RoundTrip(v: nat, rest: seq<byte>)
    requires v < TWO_64
    ensures DecodeFixed64(EncodeFixed64(v) + rest) == v
  {
    var lo, hi := EncodeFixed32(v % TWO_32), EncodeFixed32(v / TWO_32);
    var s := EncodeFixed64(v) + rest;
    assert s == lo + (hi + rest) && s[4..] == hi + rest;
    Fixed32RoundTrip(v % TWO_32, hi + rest);
    Fixed32RoundTrip(v / TWO_32, rest);
  }

  // ---- variable length --------------------------------------------------

  // What the encoders write: seven bits a byte, low bits first, high bit set on all but the last.
  function Varint(v: nat): (s: seq<byte>)
    ensures s != []
    decreases v
  {
    if v < 128 then [v] else [More(v)] + Varint(v / 128)
  }

  // The low seven bits, with the flag that more follow.
  function More(v: nat): byte {
    v % 128 + 128
  }

  method EncodeVarint64(v0: nat) returns (dst: seq<byte>)
    requires v0 < TWO_64
    ensures dst == Varint(v0) && |dst| <= 10
  {
    dst := [];
    var v := v0;
    ghost var n := 10;
    Varint64Length(v0);
    while v >= 128
      invariant dst + Varint(v) == Varint(v0)
      decreases v
    {
      assert dst + ([More(v)] + Varint(v / 128)) == dst + [More(v)] + Varint(v / 128);
      dst := dst + [More(v)];
      v := v / 128;
    }
    dst := dst + [v];
  }

  // The unrolled 32-bit encoder writes the same bytes.
  method EncodeVarint32(v: nat) returns (dst: seq<byte>)
    requires v < TWO_32
    ensures dst == Varint(v) && |dst| <= 5
  {
    var a, b, c, d := v / 0x80, v / 0x4000, v / 0x20_0000, v / 0x1000_0000;
    Shifts(v);
    assert Varint(d) == [d];
    if v < 0x80 {
      dst := [v];
    } else if v < 0x4000 {
      dst := [More(v), a];
      assert Varint(a) == [a];
    } else if v < 0x20_0000 {
      dst := [More(v), More(a), b];
      assert Varint(a) == [More(a)] + Varint(b) && Varint(b) == [b];
    } else if v < 0x1000_0000 {
      dst := [More(v), More(a), More(b), c];
      assert Varint(b) == [More(b)] + Varint(c) && Varint(c) == [c];
      assert Varint(a) == [More(a)] + Varint(b);
    } else {
      dst := [More(v), More(a), More(b), More(c), d];
      assert Varint(c) == [More(c)] + Varint(d);
      assert Varint(b) == [More(b)] + Varint(c);
      assert Varint(a) == [More(a)] + Varint(b);
    }
  }

  // Shifting by seven bits at a time.
  lemma Shifts(v: nat)
    requires v < TWO_32
    ensures v / 0x80 / 128 == v / 0x4000 && v / 0x4000 / 128 == v / 0x20_0000 && v / 0x20_0000 / 128 == v / 0x1000_0000
    ensures v / 0x1000_0000 < 128
  {
  }

  lemma Varint64Length(v: nat)
    requires v < TWO_64
    ensures |Varint(v)| <= 10
  {
    Pow2Values();
    VarintLength(v, 10);
  }

  lemma Pow2Values()
    ensures Pow2(7) == 0x80 && Pow2(35) == 0x8_0000_0000 && Pow2(63) == 0x8000_0000_0000_0000 && Pow2(70) == 0x40_0000_0000_0000_0000
    ensures Pow2(0) == 1
  {
    Pow2Seven(0);
    Pow2Seven(7);
    Pow2Seven(14);
    Pow2Seven(21);
    Pow2Seven(28);
    Pow2Seven(35);
    Pow2Seven(42);
    Pow2Seven(49);
    Pow2Seven(56);
    Pow2Seven(63);
  }

  lemma {:induction false} VarintLength(v: nat, n: nat)
    requires n > 0 && v < Pow2(7 * n)
    ensures |Varint(v)| <= n
  {
    Pow2Seven(7 * (n - 1));
    if v >= 128 && n > 1 {
      VarintLength(v / 128, n - 1);
    }
  }

  // What the decoders read, starting at a shift: the value, and what is left of
  // the input.  Bits shifted beyond the word are lost.
  function ReadVarint(s: seq<byte>, shift: nat, maxShift: nat, acc: nat, modulus: nat): (r: Option<(nat, seq<byte>)>)
    requires modulus > 0
    ensures r.Some? ==> |r.value.1| < |s| && s[|s| - |r.value.1|..] == r.value.1
    decreases s
  {
    if shift > maxShift || s == [] then None
    else
      var b: nat := s[0];
      if b >= 128 then
        var t := ReadVarint(s[1..], shift + 7, maxShift, Shifted(acc, b - 128, shift) % modulus, modulus);
        assert t.Some? ==> s[|s| - |t.value.1|..] == s[1..][|s[1..]| - |t.value.1|..];
        t
      else Some((Shifted(acc, b, shift) % modulus, s[1..]))
  }

  // result | (bits << shift), the bits not yet in use.
  function Shifted(acc: nat, bits: nat, shift: nat): nat {
    acc + bits * Pow2(shift)
  }

  function GetVarint(s: seq<byte>, maxShift: nat, modulus: nat): Option<(nat, seq<byte>)>
    requires modulus > 0
  {
    ReadVarint(s, 0, maxShift, 0, modulus)
  }

  function GetVarint32(s: seq<byte>): Option<(nat, seq<byte>)> {
    GetVarint(s, 28, TWO_32)
  }

  function GetVarint64(s: seq<byte>): Option<(nat, seq<byte>)> {
    GetVarint(s, 63, TWO_64)
  }

  // The loop of GetVarint64Ptr and GetVarint32PtrFallback.
  method GetVarintPtr(s: seq<byte>, maxShift: nat, modulus: nat) returns (r: Option<(nat, seq<byte>)>)
    requires modulus > 0
    ensures r == GetVarint(s, maxShift, modulus)
  {
    var result: nat, shift: nat, p: nat := 0, 0, 0;
    while shift <= maxShift && p < |s|
      invariant 0 <= p <= |s|
      invariant ReadVarint(s[p..], shift, maxShift, result, modulus) == GetVarint(s, maxShift, modulus)
      decreases |s| - p
    {
      var b: nat := s[p];
      assert s[p..][1..] == s[p + 1..];
      p := p + 1;
      if b >= 128 {
        result := Shifted(result, b - 128, shift) % modulus;
      } else {
        return Some((Shifted(result, b, shift) % modulus, s[p..]));
      }
      shift := shift + 7;
    }
    r := None;
  }

  // One byte at a time: the last one, and one with more to come.
  lemma ReadLast(v: nat, rest: seq<byte>, shift: nat, maxShift: nat, acc: nat, modulus: nat)
    requires v < 128 && shift <= maxShift && Shifted(acc, v, shift) < modulus
    ensures ReadVarint(Varint(v) + rest, shift, maxShift, acc, modulus) == Some((Shifted(acc, v, shift), rest))
  {
    var s := Varint(v) + rest;
    assert s[1..] == rest && s[0] == v;
    Small(Shifted(acc, v, shift), modulus);
  }

  lemma ReadMore(v: nat, rest: seq<byte>, shift: nat, maxShift: nat, acc: nat, modulus: nat)
    requires v >= 128 && shift <= maxShift && Shifted(acc, v % 128, shift) < modulus
    ensures ReadVarint(Varint(v) + rest, shift, maxShift, acc, modulus)
            == ReadVarint(Varint(v / 128) + rest, shift + 7, maxShift, Shifted(acc, v % 128, shift), modulus)
  {
    var s := Varint(v) + rest;
    assert s[0] == v % 128 + 128 && s[1..] == Varint(v / 128) + rest;
    Small(Shifted(acc, v % 128, shift), modulus);
  }

  lemma {:induction false} ReadEncoded(v: nat, rest: seq<byte>, shift: nat, maxShift: nat, acc: nat, modulus: nat)
    requires Shifted(acc, v, shift) < modulus
    requires shift <= maxShift && v < Pow2(maxShift + 7 - shift) && (maxShift - shift) % 7 == 0
    ensures ReadVarint(Varint(v) + rest, shift, maxShift, acc, modulus) == Some((Shifted(acc, v, shift), rest))
    decreases v
  {
    if v < 128 {
      ReadLast(v, rest, shift, maxShift, acc, modulus);
    } else {
      var hi, lo := v / 128, v % 128;
      ShiftedInParts(acc, v, hi, lo, shift);
      ReadMore(v, rest, shift, maxShift, acc, modulus);
      NextShift(v, shift, maxShift);
      ReadEncoded(hi, rest, shift + 7, maxShift, Shifted(acc, lo, shift), modulus);
    }
  }

  lemma NextShift(v: nat, shift: nat, maxShift: nat)
    requires shift <= maxShift && 128 <= v < Pow2(maxShift + 7 - shift) && (maxShift - shift) % 7 == 0
    ensures shift + 7 <= maxShift && v / 128 < Pow2(maxShift - shift) && (maxShift - (shift + 7)) % 7 == 0
  {
    Pow2Seven(maxShift - shift);
  }

  lemma ShiftedInParts(acc: nat, v: nat, hi: nat, lo: nat, shift: nat)
    requires v == hi * 128 + lo
    ensures Shifted(Shifted(acc, lo, shift), hi, shift + 7) == Shifted(acc, v, shift)
    ensures Shifted(acc, lo, shift) <= Shifted(acc, v, shift)
  {
    var p := Pow2(shift);
    Pow2Seven(shift);
    assert v * p == hi * (128 * p) + lo * p;
    assert hi * (128 * p) >= 0;
  }

  lemma Small(x: nat, modulus: nat)
    requires x < modulus
    ensures x % modulus == x
  {
  }

  lemma Varint32RoundTrip(v: nat, rest: seq<byte>)
    requires v < TWO_32
    ensures GetVarint32(Varint(v) + rest) == Some((v, rest))
  {
    Pow2Values();
    ReadEncoded(v, rest, 0, 28, 0, TWO_32);
  }

  lemma Varint64RoundTrip(v: nat, rest: seq<byte>)
    requires v < TWO_64
    ensures GetVarint64(Varint(v) + rest) == Some((v, rest))
  {
    Pow2Values();
    ReadEncoded(v, rest, 0, 63, 0, TWO_64);
  }

  // A cut-off encoding is refused, never misread.
  lemma {:induction false} CutVarint(v: nat, k: nat, shift: nat, maxShift: nat, acc: nat, modulus: nat)
    requires k < |Varint(v)| && modulus > 0
    ensures ReadVarint(Varint(v)[..k], shift, maxShift, acc, modulus) == None
    decreases v
  {
    var s := Varint(v)[..k];
    if k > 0 && shift <= maxShift {
      assert s[1..] == Varint(v / 128)[..k - 1];
      CutVarint(v / 128, k - 1, shift + 7, maxShift, Shifted(acc, (s[0] as nat) - 128, shift) % modulus, modulus);
    }
  }

  // ---- strings ----------------------------------------------------------

  function LengthPrefixed(s: seq<byte>): seq<byte> {
    Varint(|s|) + s
  }

  function GetLengthPrefixed(input: seq<byte>): (r: Option<(seq<byte>, seq<byte>)>)
    ensures r.Some? ==> |r.value.1| < |input|
  {
    var len := GetVarint32(input);
    if len.Some? && len.value.0 <= |len.value.1| then Some((len.value.1[..len.value.0], len.value.1[len.value.0..])) else None
  }

  lemma LengthPrefixedRoundTrip(s: seq<byte>, rest: seq<byte>)
    requires |s| < TWO_32
    ensures GetLengthPrefixed(LengthPrefixed(s) + rest) == Some((s, rest))
  {
    assert LengthPrefixed(s) + rest == Varint(|s|) + (s + rest);
    Varint32RoundTrip(|s|, s + rest);
  }
}
