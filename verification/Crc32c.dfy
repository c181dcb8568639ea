// The log checksum: CRC32C (section 12.1 of RFC 3720), its extension law and
// the masking of stored checksums (util/crc32c.h, util/crc32c.cc).

module Crc32c {
  import opened DbFormat
  import opened Coding

  // The reflected Castagnoli polynomial.
  const POLYNOMIAL: bv32 := 0x82F6_3B78

  // Shift out one bit.
  function ShiftOut(crc: bv32): bv32 {
    if crc & 1 == 1 then (crc >> 1) ^ POLYNOMIAL else crc >> 1
  }

  function ShiftOutByte(crc: bv32): bv32 {
    ShiftOut(ShiftOut(ShiftOut(ShiftOut(ShiftOut(ShiftOut(ShiftOut(ShiftOut(crc))))))))
  }

  function AddByte(crc: bv32, b: byte): bv32 {
    ShiftOutByte(crc ^ (b as bv32))
  }

  type Step = (bv32, byte) -> bv32

  function AddBytes(step: Step, crc: bv32, data: seq<byte>): bv32
    decreases data
  {
    if data == [] then crc else AddBytes(step, step(crc, data[0]), data[1..])
  }

  // Conditioned by all ones before and after.
  const ALL_ONES: bv32 := 0xffff_ffff

  function ExtendBy(step: Step, crc: bv32, data: seq<byte>): bv32 {
    AddBytes(step, crc ^ ALL_ONES, data) ^ ALL_ONES
  }

  function Extend(crc: bv32, data: seq<byte>): bv32 {
    ExtendBy(AddByte, crc, data)
  }

  function Checksum(data: seq<byte>): bv32 {
    Extend(0, data)
  }

  lemma {:induction false} AddBytesSplit(step: Step, crc: bv32, a: seq<byte>, b: seq<byte>)
    ensures AddBytes(step, crc, a + b) == AddBytes(step, AddBytes(step, crc, a), b)
    decreases a
  {
    if a == [] {
      assert a + b == b;
    } else {
      assert (a + b)[1..] == a[1..] + b;
      AddBytesSplit(step, step(crc, a[0]), a[1..], b);
    }
  }

  lemma FlippedBack(l: bv32)
    ensures l ^ ALL_ONES ^ ALL_ONES == l
  {
  }

  lemma ExtendFrom(step: Step, crc: bv32, data: seq<byte>, l: bv32)
    requires crc ^ ALL_ONES == l
    ensures ExtendBy(step, crc, data) == AddBytes(step, l, data) ^ ALL_ONES
  {
  }

  lemma ExtendTwice(step: Step, crc: bv32, a: seq<byte>, b: seq<byte>)
    ensures ExtendBy(step, ExtendBy(step, crc, a), b) == ExtendBy(step, crc, a + b)
  {
    var l := crc ^ ALL_ONES;
    var m := AddBytes(step, l, a);
    AddBytesSplit(step, l, a, b);
    ExtendFrom(step, crc, a, l);
    var x := ExtendBy(step, crc, a);
    assert x ^ ALL_ONES == m by { FlippedBack(m); }
    ExtendFrom(step, x, b, m);
  }

  // The checksum of a concatenation extends the checksum of its front.
  lemma ExtendValue(a: seq<byte>, b: seq<byte>)
    ensures Extend(Checksum(a), b) == Checksum(a + b)
  {
    ExtendTwice(AddByte, 0, a, b);
  }

  // ---- what the log needs of a checksum ---------------------------------

  type Word = x: nat | x < TWO_32

  datatype Crc = Crc(value: seq<byte> -> Word, extend: (Word, seq<byte>) -> Word)

  // Extending the checksum of a front by what follows checks the whole.
  ghost predicate Lawful(crc: Crc) {
    forall a, b {:trigger crc.extend(crc.value(a), b)} :: crc.extend(crc.value(a), b) == crc.value(a + b)
  }

  function AsWord(crc: bv32): Word {
    crc as nat
  }

  lemma WordAndBack(crc: bv32)
    ensures AsWord(crc) as bv32 == crc
  {
  }

  const CRC32C: Crc := Crc(s => AsWord(Checksum(s)), (c, s) => AsWord(Extend(c as bv32, s)))

  lemma Crc32cIsLawful()
    ensures Lawful(CRC32C)
  {
    forall a, b ensures CRC32C.extend(CRC32C.value(a), b) == CRC32C.value(a + b) {
      WordAndBack(Checksum(a));
      ExtendValue(a, b);
    }
  }

  // ---- stored checksums -------------------------------------------------

  const MASK_DELTA: nat := 0xa282_ead8

  // Rotate right by 15 bits and add a constant, in 32 bits.
  function Mask(crc: nat): (r: nat)
    requires crc < TWO_32
    ensures r < TWO_32
  {
    (crc / 0x8000 + crc % 0x8000 * 0x2_0000 + MASK_DELTA) % TWO_32
  }

  function Unmask(masked: nat): (r: nat)
    requires masked < TWO_32
    ensures r < TWO_32
  {
    var rot := (masked + TWO_32 - MASK_DELTA) % TWO_32;
    rot / 0x2_0000 + rot % 0x2_0000 * 0x8000
  }

  lemma UnmaskMask(crc: nat)
    requires crc < TWO_32
    ensures Unmask(Mask(crc)) == crc
  {
    var hi, lo := crc / 0x8000, crc % 0x8000;
    var rot := hi + lo * 0x2_0000;
    assert hi < 0x2_0000 && rot < TWO_32;
    assert (Mask(crc) + TWO_32 - MASK_DELTA) % TWO_32 == rot;
    assert rot / 0x2_0000 == lo && rot % 0x2_0000 == hi;
  }

  lemma MaskUnmask(masked: nat)
    requires masked < TWO_32
    ensures Mask(Unmask(masked)) == masked
  {
    var rot := (masked + TWO_32 - MASK_DELTA) % TWO_32;
    var hi, lo := rot / 0x2_0000, rot % 0x2_0000;
    var crc := Unmask(masked);
    assert crc / 0x8000 == lo && crc % 0x8000 == hi;
    assert lo + hi * 0x2_0000 == rot;
  }
}
