// Known encodings: a checksum value from the literature, and for each format a
// short input with the bytes other implementations write for it.

module KnownBytes {
  import opened DbFormat
  import opened Coding
  import Crc32c
  import LogFormat
  import BlockFormat
  import EditCodec
  import WriteBatch
  import opened Protobuf

  // ---- Checksums --------------------------------------------------------

  // Entries of the byte table at the powers of two: eight bits shifted out.
  lemma TableEntries()
    ensures Crc32c.ShiftOutByte(1) == 0xf26b_8303 && Crc32c.ShiftOutByte(2) == 0xe13b_70f7
    ensures Crc32c.ShiftOutByte(4) == 0xc79a_971f && Crc32c.ShiftOutByte(8) == 0x8ad9_58cf
    ensures Crc32c.ShiftOutByte(16) == 0x105e_c76f && Crc32c.ShiftOutByte(32) == 0x20bd_8ede
    ensures Crc32c.ShiftOutByte(64) == 0x417b_1dbc && Crc32c.ShiftOutByte(128) == 0x82f6_3b78
  {
  }

  lemma TwoBytes(step: Crc32c.Step, a: byte, b: byte, next: bv32, last: bv32)
    requires step(0xffff_ffff, a) == next && step(next, b) == last
    ensures Crc32c.ExtendBy(step, 0, [a]) == next ^ 0xffff_ffff && Crc32c.ExtendBy(step, 0, [a, b]) == last ^ 0xffff_ffff
  {
    assert [a][1..] == [] && [a, b][1..] == [b] && [b][1..] == [];
    assert Crc32c.AddBytes(step, 0xffff_ffff, [a]) == next;
    assert Crc32c.AddBytes(step, next, [b]) == last;
    assert Crc32c.AddBytes(step, 0xffff_ffff, [a, b]) == last;
    Crc32c.ExtendFrom(step, 0, [a], 0xffff_ffff);
    Crc32c.ExtendFrom(step, 0, [a, b], 0xffff_ffff);
  }

  // The CRC-32C of the letter a, alone and behind a byte 1.
  lemma LetterChecked()
    ensures Crc32c.Checksum([0x61]) == 0xc1d0_4330 && Crc32c.Checksum([1, 0x61]) == 0x716e_ffc4
  {
    assert Crc32c.AddByte(0xffff_ffff, 0x61) == 0x3e2f_bccf;
    assert Crc32c.AddByte(0xffff_ffff, 1) == 0x5fe92fad && Crc32c.AddByte(0x5fe92fad, 0x61) == 0x8e91003b;
    TwoBytes(Crc32c.AddByte, 0x61, 0, 0x3e2f_bccf, Crc32c.AddByte(0x3e2f_bccf, 0));
    TwoBytes(Crc32c.AddByte, 1, 0x61, 0x5fe92fad, 0x8e91003b);
  }

  lemma StoredChecksum(sum: bv32, word: nat)
    requires sum == 0x716e_ffc4 && word == Crc32c.AsWord(sum)
    ensures EncodeFixed32(Crc32c.Mask(word)) == [0xb5, 0xcd, 0x0b, 0xa2]
  {
    assert word == 0x716e_ffc4;
    assert Crc32c.Mask(word) == 0xa20b_cdb5;
    assert Low8(0xa20b_cdb5) == 0xb5 && Low8(0xa2_0bcd) == 0xcd && Low8(0xa20b) == 0x0b && Low8(0xa2) == 0xa2;
  }

  // A log record with that letter as its payload: masked checksum, length, type, payload.
  lemma LetterLogged()
    ensures LogFormat.Record(Crc32c.CRC32C, LogFormat.FULL, [0x61]) == [0xb5, 0xcd, 0x0b, 0xa2, 1, 0, 1, 0x61]
  {
    var sum := Crc32c.Checksum([1, 0x61]);
    LetterChecked();
    StoredChecksum(sum, Crc32c.AsWord(sum));
    assert [1] + [0x61] == [1, 0x61];
    assert LogFormat.Header(Crc32c.CRC32C, 1, [0x61]) == EncodeFixed32(Crc32c.Mask(Crc32c.AsWord(sum))) + [1, 0, 1];
  }

  // ---- Numbers ----------------------------------------------------------

  // Low bytes and low groups of seven bits come first.
  lemma NumbersWritten()
    ensures EncodeFixed32(0x0403_0201) == [1, 2, 3, 4]
    ensures EncodeFixed64(0x0807_0605_0403_0201) == [1, 2, 3, 4, 5, 6, 7, 8]
    ensures Varint(127) == [0x7f] && Varint(128) == [0x80, 1] && Varint(300) == [0xac, 2]
  {
    assert EncodeFixed32(0x0807_0605) == [5, 6, 7, 8] && EncodeFixed32(0x0403_0201) == [1, 2, 3, 4];
  }

  lemma SmallNumber(v: nat)
    requires v < 256
    ensures EncodeFixed32(v) == [v, 0, 0, 0]
    ensures EncodeFixed64(v) == [v, 0, 0, 0, 0, 0, 0, 0]
  {
    assert EncodeFixed32(v) == [v, 0, 0, 0] && EncodeFixed32(0) == [0, 0, 0, 0];
  }

  // ---- Log files --------------------------------------------------------

  // The type bytes of a record's fragments, by the blocks it takes: 1 alone, else 2 first, 4 last and 3 between.
  lemma FragmentTypes(crc: Crc32c.Crc, data: seq<byte>)
    ensures var f := LogFormat.LogFile(crc, [data]);
            && |f| > 6
            && (|data| <= 32761 ==> f[6] == 1)
            && (32761 < |data| <= 65522 ==> |f| > 32774 && f[6] == 2 && f[32774] == 4)
            && (65522 < |data| <= 98283 ==> |f| > 65542 && f[6] == 2 && f[32774] == 3 && f[65542] == 4)
  {
    var f := LogFormat.Fragments(crc, 0, data, true);
    assert LogFormat.Encode(LogFormat.FragmentLayout(crc), |f|, []) == [] && [data][1..] == [];
    assert LogFormat.LogFile(crc, [data]) == f;
    if |data| > 32761 {
      var rest := data[32761..];
      var g := LogFormat.Fragments(crc, 32768, rest, false);
      assert f == LogFormat.Padding(0) + LogFormat.Record(crc, 2, data[..32761]) + g;
      if |rest| > 32761 {
        assert g == LogFormat.Padding(32768) + LogFormat.Record(crc, 3, rest[..32761]) + LogFormat.Fragments(crc, 65536, rest[32761..], false);
      }
    }
  }

  // ---- Batches, edits, blocks -------------------------------------------

  lemma OpsWritten(put: WriteBatch.Op, delete: WriteBatch.Op)
    requires put == WriteBatch.Put([0x6b], [0x76, 0x77]) && delete == WriteBatch.Delete([0x6d])
    ensures WriteBatch.EncodeOps([put, delete]) == [1, 1, 0x6b, 2, 0x76, 0x77, 0, 1, 0x6d]
  {
    assert [put, delete][..1] == [put] && [put][..0] == [];
    assert WriteBatch.EncodeOps([put, delete]) == WriteBatch.EncodeOps([put]) + WriteBatch.EncodeOp(delete);
    assert WriteBatch.EncodeOp(put) == [1, 1, 0x6b, 2, 0x76, 0x77] && WriteBatch.EncodeOp(delete) == [0, 1, 0x6d];
  }

  // Sequence number, count; a put is type 1 with key and value, a deletion type 0 with its key.
  lemma BatchWritten()
    ensures WriteBatch.Encode(5, [WriteBatch.Put([0x6b], [0x76, 0x77]), WriteBatch.Delete([0x6d])])
            == [5, 0, 0, 0, 0, 0, 0, 0, 2, 0, 0, 0, 1, 1, 0x6b, 2, 0x76, 0x77, 0, 1, 0x6d]
  {
    var put, delete := WriteBatch.Put([0x6b], [0x76, 0x77]), WriteBatch.Delete([0x6d]);
    OpsWritten(put, delete);
    SmallNumber(5);
    SmallNumber(2);
  }

  // The tag of each field of a version edit, and what follows it.
  lemma FieldsWritten()
    ensures EditCodec.EncodeField(EditCodec.Comparator([0x63])) == [1, 1, 0x63]
    ensures EditCodec.EncodeField(EditCodec.LogNumber(10)) == [2, 10]
    ensures EditCodec.EncodeField(EditCodec.NextFileNumber(11)) == [3, 11]
    ensures EditCodec.EncodeField(EditCodec.LastSequence(12)) == [4, 12]
    ensures EditCodec.EncodeField(EditCodec.CompactPointer(2, [0x6b])) == [5, 2, 1, 0x6b]
    ensures EditCodec.EncodeField(EditCodec.DeletedFile(3, 14)) == [6, 3, 14]
    ensures EditCodec.EncodeField(EditCodec.NewFile(4, EditCodec.FileMeta(15, 16, [0x61], [0x7a]))) == [7, 4, 15, 16, 1, 0x61, 1, 0x7a]
    ensures EditCodec.EncodeField(EditCodec.PrevLogNumber(17)) == [9, 17]
  {
  }

  lemma EntriesWritten()
    ensures BlockFormat.Record(0, [0x61, 0x62], [0x76]) + BlockFormat.Record(1, [0x63], [0x77]) == [0, 2, 1, 0x61, 0x62, 0x76, 1, 1, 1, 0x63, 0x77]
  {
    assert BlockFormat.Record(0, [0x61, 0x62], [0x76]) == [0, 2, 1, 0x61, 0x62, 0x76];
    assert BlockFormat.Record(1, [0x63], [0x77]) == [1, 1, 1, 0x63, 0x77];
  }

  lemma TrailerWritten(data: seq<byte>)
    ensures BlockFormat.Contents(data, [0]) == data + [0, 0, 0, 0, 1, 0, 0, 0]
  {
    SmallNumber(0);
    SmallNumber(1);
    assert [0 as nat][..0] == [];
    assert BlockFormat.Trailer([0]) == EncodeFixed32(0);
  }

  // A block of two keys that share a byte, with one restart.
  lemma BlockWritten()
    ensures BlockFormat.Contents(BlockFormat.Record(0, [0x61, 0x62], [0x76]) + BlockFormat.Record(1, [0x63], [0x77]), [0])
            == [0, 2, 1, 0x61, 0x62, 0x76, 1, 1, 1, 0x63, 0x77, 0, 0, 0, 0, 1, 0, 0, 0]
  {
    EntriesWritten();
    TrailerWritten([0, 2, 1, 0x61, 0x62, 0x76, 1, 1, 1, 0x63, 0x77]);
  }

  // ---- Messages ---------------------------------------------------------

  // Examples of the Protocol Buffers "Encoding" specification: 150 as an int32
  // field 1, a string in field 2, a packed array in field 4, zigzag and fixed numbers.
  lemma NumberWritten()
    ensures EncodeSlot(Field(1, Required, Int(32)), One(Num(150))) == [0x08, 0x96, 1]
    ensures EncodeSlot(Field(2, Optional, SInt(32)), Maybe(Some(Num(-2)))) == [0x10, 3]
  {
  }

  lemma FixedWritten()
    ensures EncodeSlot(Field(3, Required, Fixed32), One(Num(1))) == [0x1d, 1, 0, 0, 0]
    ensures EncodeSlot(Field(3, Required, Fixed64), One(Num(1))) == [0x19, 1, 0, 0, 0, 0, 0, 0, 0]
  {
    SmallNumber(1);
  }

  lemma StringWritten()
    ensures EncodeSlot(Field(2, Required, Bytes(8)), One(Blob([0x74, 0x65, 0x73, 0x74, 0x69, 0x6e, 0x67])))
            == [0x12, 7, 0x74, 0x65, 0x73, 0x74, 0x69, 0x6e, 0x67]
  {
  }

  lemma BodyWritten(vs: seq<Value>)
    requires |vs| == 3 && vs[0] == Num(3) && vs[1] == Num(270) && vs[2] == Num(86942)
    ensures EncodeBody(Int(32), vs, 3) == [3, 0x8e, 2, 0x9e, 0xa7, 5]
  {
    assert EncodeValue(Int(32), vs[0]) == Varint(3) == [3];
    assert EncodeValue(Int(32), vs[1]) == Varint(270) == [0x8e, 2];
    assert EncodeValue(Int(32), vs[2]) == Varint(86942) == [0x9e, 0xa7, 5];
    assert EncodeBody(Int(32), vs, 2) == EncodeBody(Int(32), vs, 1) + EncodeValue(Int(32), vs[1]);
  }

  lemma ArrayWritten(vs: seq<Value>)
    requires vs == [Num(3), Num(270), Num(86942)]
    ensures EncodeSlot(Field(4, Repeated(3), Int(32)), Many(vs)) == [0x22, 6, 3, 0x8e, 2, 0x9e, 0xa7, 5]
  {
    BodyWritten(vs);
  }
}
