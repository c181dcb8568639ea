// The Bloom filter policy (util/bloom.cc).  The hash is any function to 32 bits.

module Bloom {
  import opened DbFormat
  import opened Coding

  type Hash = seq<byte> -> nat

  // Bit i of a byte, and the byte with that bit set: b | (1 << i).
  function TestBit(b: nat, i: nat): bool {
    if i == 0 then b % 2 == 1 else TestBit(b / 2, i - 1)
  }

  function SetBit(b: nat, i: nat): nat {
    if i == 0 then b / 2 * 2 + 1 else SetBit(b / 2, i - 1) * 2 + b % 2
  }

  lemma {:induction false} SetBitSets(b: nat, i: nat, j: nat)
    ensures TestBit(SetBit(b, i), j) <==> i == j || TestBit(b, j)
  {
    if i > 0 && j > 0 {
      assert SetBit(b, i) / 2 == SetBit(b / 2, i - 1);
      SetBitSets(b / 2, i - 1, j - 1);
    } else if j > 0 {
      assert SetBit(b, i) / 2 == b / 2;
    }
  }

  lemma {:induction false} SetBitFits(b: nat, i: nat, n: nat)
    requires i < n && b < Pow2(n)
    ensures SetBit(b, i) < Pow2(n)
  {
    if i > 0 {
      SetBitFits(b / 2, i - 1, n - 1);
    }
  }

  lemma {:induction false} ZeroBits(i: nat)
    ensures !TestBit(0, i)
  {
    if i > 0 {
      ZeroBits(i - 1);
    }
  }

  // ---- Probes -----------------------------------------------------------

  // (h >> 17) | (h << 15) in 32 bits.
  function Delta(h: nat): nat {
    h / 0x2_0000 + h % 0x2_0000 * 0x8000
  }

  // The j-th hash value of a key: h, h + delta, h + 2 * delta, ... in 32 bits.
  function Probe(h: nat, j: nat): nat {
    if j == 0 then h % TWO_32 else (Probe(h, j - 1) + Delta(h)) % TWO_32
  }

  lemma NextProbe(was: nat, x: nat, d: nat)
    requires was == x % TWO_32
    ensures (was + d) % TWO_32 == (x + d) % TWO_32
  {
  }

  ghost predicate GoesOnBy(probe: nat -> nat, d: nat, i: nat) {
    probe(i + 1) == (probe(i) + d) % TWO_32
  }

  // Anything that goes on by d each time is an arithmetic progression.
  lemma {:induction false} Progression(probe: nat -> nat, h: nat, d: nat, j: nat)
    requires probe(0) == h % TWO_32 && forall i: nat {:trigger GoesOnBy(probe, d, i)} :: i < j ==> GoesOnBy(probe, d, i)
    ensures probe(j) == (h + j * d) % TWO_32
  {
    if j > 0 {
      Progression(probe, h, d, j - 1);
      NextProbe(probe(j - 1), h + (j - 1) * d, d);
      assert GoesOnBy(probe, d, j - 1);
    }
  }

  // Double hashing: the probes of a key are an arithmetic progression in 32 bits.
  lemma ProbesProgress(h: nat, j: nat)
    ensures Probe(h, j) == (h + j * Delta(h)) % TWO_32
  {
    var probe := (i: nat) => Probe(h, i);
    Progression(probe, h, Delta(h), j);
  }

  // Its step is the hash turned left by 15 bits, which is multiplication by 2^15 modulo 2^32 - 1.
  lemma StepIsRotation(h: nat)
    requires h < TWO_32
    ensures Delta(h) < TWO_32 && Delta(h) == h * 0x8000 - h / 0x2_0000 * (TWO_32 - 1)
  {
    assert h == h / 0x2_0000 * 0x2_0000 + h % 0x2_0000;
  }

  function Bit(bitmap: seq<byte>, bitpos: nat): bool
    requires bitpos / 8 < |bitmap|
  {
    TestBit(bitmap[bitpos / 8], bitpos % 8)
  }

  // Some probe of one of the first n keys, or one of the first m probes of key n, is at bitpos.
  ghost predicate Hit(hash: Hash, keys: seq<seq<byte>>, k: nat, bits: nat, n: nat, m: nat, bitpos: nat)
    requires bits > 0
  {
    exists i: nat, j: nat {:trigger ProbeAt(hash, keys, i, j, bits)} :: i < |keys| && ((i < n && j < k) || (i == n && j < m)) && ProbeAt(hash, keys, i, j, bits) == bitpos
  }

  function ProbeAt(hash: Hash, keys: seq<seq<byte>>, i: nat, j: nat, bits: nat): nat
    requires i < |keys| && bits > 0
  {
    Probe(hash(keys[i]) % TWO_32, j) % bits
  }

  // What a filter over the keys must look like: its bits are exactly the probes.
  ghost predicate IsFilter(hash: Hash, keys: seq<seq<byte>>, k: nat, filter: seq<byte>) {
    && |filter| >= 2 && k <= 30 && filter[|filter| - 1] == k
    && forall bitpos: nat {:trigger Bit(filter, bitpos)} :: bitpos < (|filter| - 1) * 8 ==>
         (Bit(filter, bitpos) <==> Hit(hash, keys, k, (|filter| - 1) * 8, |keys|, 0, bitpos))
  }

  // bitmap[bitpos / 8] |= 1 << (bitpos % 8).
  function WithBit(bitmap: seq<byte>, bitpos: nat): (r: seq<byte>)
    requires bitpos / 8 < |bitmap|
    ensures |r| == |bitmap|
  {
    Pow2Values();
    assert Pow2(8) == 256;
    SetBitFits(bitmap[bitpos / 8], bitpos % 8, 8);
    bitmap[bitpos / 8 := SetBit(bitmap[bitpos / 8], bitpos % 8)]
  }

  lemma WithBitMeans(bitmap: seq<byte>, bitpos: nat, p: nat)
    requires bitpos / 8 < |bitmap| && p / 8 < |bitmap|
    ensures Bit(WithBit(bitmap, bitpos), p) <==> p == bitpos || Bit(bitmap, p)
  {
    SetBitSets(bitmap[bitpos / 8], bitpos % 8, p % 8);
    assert p == p / 8 * 8 + p % 8 && bitpos == bitpos / 8 * 8 + bitpos % 8;
  }

  lemma HitMore(hash: Hash, keys: seq<seq<byte>>, k: nat, bits: nat, n: nat, m: nat, bitpos: nat)
    requires bits > 0 && n < |keys|
    ensures Hit(hash, keys, k, bits, n, m + 1, bitpos) <==> Hit(hash, keys, k, bits, n, m, bitpos) || ProbeAt(hash, keys, n, m, bits) == bitpos
  {
  }

  lemma HitNextKey(hash: Hash, keys: seq<seq<byte>>, k: nat, bits: nat, n: nat, bitpos: nat)
    requires bits > 0
    ensures Hit(hash, keys, k, bits, n, k, bitpos) <==> Hit(hash, keys, k, bits, n + 1, 0, bitpos)
  {
  }

  ghost predicate Filled(hash: Hash, keys: seq<seq<byte>>, k: nat, bitmap: seq<byte>, n: nat, m: nat) {
    forall bitpos: nat {:trigger Bit(bitmap, bitpos)} :: bitpos < |bitmap| * 8 ==> (Bit(bitmap, bitpos) <==> Hit(hash, keys, k, |bitmap| * 8, n, m, bitpos))
  }

  // The least number of whole bytes that hold this many bits, and at least 64.
  predicate SizedFor(bits: nat, bytes: int) {
    bytes >= 8 && bytes * 8 >= bits && (bytes > 8 ==> (bytes - 1) * 8 < bits)
  }

  class BloomFilterPolicy {
    const bitsPerKey: nat
    const k: nat
    const hash: Hash

    // bits_per_key * 0.69 rounded down, at least 1 and at most 30.
    constructor (bitsPerKey: nat, hash: Hash)
      ensures this.bitsPerKey == bitsPerKey && this.hash == hash && 1 <= k <= 30
      ensures k * 100 <= bitsPerKey * 69 || k == 1
      ensures bitsPerKey * 69 < (k + 1) * 100 || k == 30
    {
      this.bitsPerKey, this.hash := bitsPerKey, hash;
      var n := bitsPerKey * 69 / 100;
      this.k := if n < 1 then 1 else if n > 30 then 30 else n;
    }

    method CreateFilter(keys: seq<seq<byte>>, dst: seq<byte>) returns (r: seq<byte>)
      requires k <= 30
      ensures |r| >= |dst| && r[..|dst|] == dst && IsFilter(hash, keys, k, r[|dst|..])
      ensures SizedFor(|keys| * bitsPerKey, |r| - |dst| - 1)
    {
      var bits := |keys| * bitsPerKey;
      if bits < 64 {
        bits := 64;
      }
      var bytes := (bits + 7) / 8;
      bits := bytes * 8;
      var bitmap: seq<byte> := seq(bytes, i => 0);
      forall bitpos: nat | bitpos < bits ensures !Bit(bitmap, bitpos) {
        ZeroBits(bitpos % 8);
      }
      var i: nat := 0;
      while i < |keys|
        invariant i <= |keys| && |bitmap| == bytes
        invariant Filled(hash, keys, k, bitmap, i, 0)
      {
        var h := hash(keys[i]) % TWO_32;
        var delta := Delta(h);
        ghost var h0 := h;
        var j: nat := 0;
        while j < k
          invariant j <= k && |bitmap| == bytes && h == Probe(h0, j)
          invariant Filled(hash, keys, k, bitmap, i, j)
        {
          var bitpos := h % bits;
          ghost var was := bitmap;
          bitmap := WithBit(bitmap, bitpos);
          Probed(hash, keys, k, was, i, j, bitpos);
          h := (h + delta) % TWO_32;
          j := j + 1;
        }
        forall bitpos: nat ensures Hit(hash, keys, k, bits, i, k, bitpos) <==> Hit(hash, keys, k, bits, i + 1, 0, bitpos) {
          HitNextKey(hash, keys, k, bits, i, bitpos);
        }
        i := i + 1;
      }
      r := dst + bitmap + [k];
      assert r[|dst|..] == bitmap + [k];
      Closed(hash, keys, k, bitmap);
    }

    method KeyMayMatch(key: seq<byte>, filter: seq<byte>) returns (match_: bool)
      ensures match_ == MayMatch(hash, key, filter)
    {
      if |filter| < 2 {
        return false;
      }
      var bits := (|filter| - 1) * 8;
      var n: nat := filter[|filter| - 1];
      if n > 30 {
        return true;
      }
      var h := hash(key) % TWO_32;
      var delta := Delta(h);
      var j: nat := 0;
      while j < n
        invariant j <= n && h == Probe(hash(key) % TWO_32, j)
        invariant forall i: nat {:trigger KeyProbe(hash, key, i, bits)} :: i < j ==> Bit(filter, KeyProbe(hash, key, i, bits))
      {
        var bitpos := h % bits;
        assert bitpos == KeyProbe(hash, key, j, bits);
        if !Bit(filter, bitpos) {
          return false;
        }
        h := (h + delta) % TWO_32;
        j := j + 1;
      }
      return true;
    }
  }

  function KeyProbe(hash: Hash, key: seq<byte>, j: nat, bits: nat): (r: nat)
    requires bits > 0
    ensures r < bits
  {
    Probe(hash(key) % TWO_32, j) % bits
  }

  // What KeyMayMatch answers: short filters match nothing, unknown encodings everything.
  ghost predicate MayMatch(hash: Hash, key: seq<byte>, filter: seq<byte>) {
    |filter| >= 2 &&
    (filter[|filter| - 1] > 30 ||
     forall j: nat {:trigger KeyProbe(hash, key, j, (|filter| - 1) * 8)} :: j < filter[|filter| - 1] ==> Bit(filter, KeyProbe(hash, key, j, (|filter| - 1) * 8)))
  }

  lemma Probed(hash: Hash, keys: seq<seq<byte>>, k: nat, bitmap: seq<byte>, n: nat, m: nat, bitpos: nat)
    requires Filled(hash, keys, k, bitmap, n, m) && |bitmap| > 0 && n < |keys| && bitpos == ProbeAt(hash, keys, n, m, |bitmap| * 8)
    ensures Filled(hash, keys, k, WithBit(bitmap, bitpos), n, m + 1)
  {
    var w := WithBit(bitmap, bitpos);
    forall p: nat | p < |bitmap| * 8 ensures Bit(w, p) <==> Hit(hash, keys, k, |bitmap| * 8, n, m + 1, p) {
      WithBitMeans(bitmap, bitpos, p);
      HitMore(hash, keys, k, |bitmap| * 8, n, m, p);
    }
  }

  lemma Closed(hash: Hash, keys: seq<seq<byte>>, k: nat, bitmap: seq<byte>)
    requires Filled(hash, keys, k, bitmap, |keys|, 0) && |bitmap| > 0 && k <= 30
    ensures IsFilter(hash, keys, k, bitmap + [k])
  {
    var filter := bitmap + [k];
    forall bitpos: nat | bitpos < |bitmap| * 8
      ensures Bit(filter, bitpos) <==> Hit(hash, keys, k, |bitmap| * 8, |keys|, 0, bitpos)
    {
      assert Bit(filter, bitpos) == Bit(bitmap, bitpos);
    }
  }

  // No false negatives, and a key it lets through has all its probes among those of the keys.
  lemma FilterAnswers(hash: Hash, keys: seq<seq<byte>>, k: nat, filter: seq<byte>, key: seq<byte>)
    requires IsFilter(hash, keys, k, filter)
    ensures key in keys ==> MayMatch(hash, key, filter)
    ensures MayMatch(hash, key, filter) <==>
            forall j: nat {:trigger KeyProbe(hash, key, j, (|filter| - 1) * 8)} ::
              j < k ==> Hit(hash, keys, k, (|filter| - 1) * 8, |keys|, 0, KeyProbe(hash, key, j, (|filter| - 1) * 8))
  {
    var bits := (|filter| - 1) * 8;
    if key in keys {
      var i: nat :| i < |keys| && keys[i] == key;
      forall j: nat | j < k ensures Bit(filter, KeyProbe(hash, key, j, bits)) {
        assert ProbeAt(hash, keys, i, j, bits) == KeyProbe(hash, key, j, bits);
      }
    }
    forall j: nat | j < k
      ensures Bit(filter, KeyProbe(hash, key, j, bits)) <==> Hit(hash, keys, k, bits, |keys|, 0, KeyProbe(hash, key, j, bits))
    {
    }
  }
}
