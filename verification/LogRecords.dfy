// What the two logs hold: version edits in the manifest (db/version_set.cc) and
// batches of writes in the write-ahead log (db/db_impl.cc), as bytes in a file that
// may have been cut off and appended to.

module LogRecords {
  import opened DbFormat
  import opened Coding
  import opened Crc32c
  import opened LogFormat
  import opened LogReader
  import opened LogRoundTrip
  import opened LogReopen
  import EditCodec
  import WriteBatch

  datatype Batch = Batch(sequence: nat, ops: seq<WriteBatch.Op>)

  predicate WfBatch(b: Batch) {
    b.sequence < TWO_64 && |b.ops| < TWO_32 && forall i :: 0 <= i < |b.ops| ==> WriteBatch.OpFits(b.ops[i])
  }

  function EditRecords(es: seq<EditCodec.Edit>): (r: seq<seq<byte>>)
    ensures |r| == |es| && forall i {:trigger r[i]} :: 0 <= i < |es| ==> r[i] == EditCodec.EncodeFields(EditCodec.FieldsOf(es[i]))
  {
    seq(|es|, i requires 0 <= i < |es| => EditCodec.EncodeFields(EditCodec.FieldsOf(es[i])))
  }

  function BatchRecords(bs: seq<Batch>): (r: seq<seq<byte>>)
    requires forall i {:trigger bs[i]} :: 0 <= i < |bs| ==> WfBatch(bs[i])
    ensures |r| == |bs| && forall i {:trigger r[i]} :: 0 <= i < |bs| ==> r[i] == BatchRecord(bs[i])
  {
    seq(|bs|, i requires 0 <= i < |bs| => BatchRecord(bs[i]))
  }

  function BatchRecord(b: Batch): seq<byte>
    requires WfBatch(b)
  {
    WriteBatch.Encode(b.sequence, b.ops)
  }

  // The record decodes to the edit.
  ghost predicate HoldsEdit(r: seq<byte>, e: EditCodec.Edit) {
    EditCodec.Decode(r, EditCodec.CLEARED) == Some(e)
  }

  // The record is a batch that is replayed under its sequence number.
  ghost predicate HoldsBatch(r: seq<byte>, b: Batch) {
    |r| >= WriteBatch.HEADER && DecodeFixed64(r) == b.sequence && WriteBatch.Iterate(r) == (b.ops, true)
  }

  ghost predicate HoldEdits(records: seq<seq<byte>>, es: seq<EditCodec.Edit>) {
    |records| == |es| && forall i {:trigger HoldsEdit(records[i], es[i])} :: 0 <= i < |es| ==> HoldsEdit(records[i], es[i])
  }

  ghost predicate HoldBatches(records: seq<seq<byte>>, bs: seq<Batch>) {
    |records| == |bs| && forall i {:trigger HoldsBatch(records[i], bs[i])} :: 0 <= i < |bs| ==> HoldsBatch(records[i], bs[i])
  }

  lemma EditsHold(es: seq<EditCodec.Edit>)
    requires forall i :: 0 <= i < |es| ==> EditCodec.WfEdit(es[i])
    ensures HoldEdits(EditRecords(es), es)
  {
    forall i | 0 <= i < |es| ensures HoldsEdit(EditRecords(es)[i], es[i]) {
      EditCodec.EditRoundTrip(es[i]);
    }
  }

  lemma BatchesHold(bs: seq<Batch>)
    requires forall i {:trigger bs[i]} :: 0 <= i < |bs| ==> WfBatch(bs[i])
    ensures HoldBatches(BatchRecords(bs), bs)
  {
    forall i | 0 <= i < |bs| ensures HoldsBatch(BatchRecords(bs)[i], bs[i]) {
      WriteBatch.BatchRoundTrip(bs[i].sequence, bs[i].ops);
    }
  }

  // Reading the file to its end yields records that hold these, and no report.
  ghost predicate ReplaysEdits(crc: Crc, file: seq<byte>, es: seq<EditCodec.Edit>) {
    var r := ReadAll(crc, file, 0);
    HoldEdits(r.0, es) && r.1 == 0
  }

  ghost predicate ReplaysBatches(crc: Crc, file: seq<byte>, bs: seq<Batch>) {
    var r := ReadAll(crc, file, 0);
    HoldBatches(r.0, bs) && r.1 == 0
  }

  function WholeCount(crc: Crc, rs: seq<seq<byte>>, n: nat): nat {
    |Whole(FragmentLayout(crc), rs, n)|
  }

  lemma CutReads(crc: Crc, rs: seq<seq<byte>>, n: nat)
    requires n <= |LogFile(crc, rs)|
    ensures WholeCount(crc, rs, n) <= |rs| && (n == |LogFile(crc, rs)| ==> WholeCount(crc, rs, n) == |rs|)
    ensures ReadAll(crc, LogFile(crc, rs)[..n], 0) == (rs[..WholeCount(crc, rs, n)], 0)
  {
    CutReadsAt(crc, FragmentLayout(crc), rs, n, LogFile(crc, rs));
  }

  lemma CutReadsAt(crc: Crc, layout: Layout, rs: seq<seq<byte>>, n: nat, file: seq<byte>)
    requires layout == FragmentLayout(crc) && file == Encode(layout, 0, rs) && n <= |file|
    ensures var k := |Whole(layout, rs, n)|;
            k <= |rs| && (n == |file| ==> k == |rs|) && ReadAll(crc, file[..n], 0) == (rs[..k], 0)
  {
    CutAt(crc, file, layout, 0, rs, n);
    WholeRecords(layout, rs, n, file);
  }

  lemma WholeRecords(layout: Layout, rs: seq<seq<byte>>, n: nat, file: seq<byte>)
    requires file == Encode(layout, 0, rs) && n <= |file|
    ensures var k := |Whole(layout, rs, n)|; k <= |rs| && Whole(layout, rs, n) == rs[..k] && (n == |file| ==> k == |rs|)
  {
    WholePrefix(layout, rs, n);
    if n == |file| {
      AllComplete(layout, 0, rs);
    }
  }

  function Continued(crc: Crc, rs: seq<seq<byte>>, n: nat, more: seq<seq<byte>>): seq<byte>
    requires n <= |LogFile(crc, rs)|
  {
    Appended(FragmentLayout(crc), rs, n, more)
  }

  lemma ContinuedReads(crc: Crc, rs: seq<seq<byte>>, n: nat, more: seq<seq<byte>>)
    requires n <= |LogFile(crc, rs)| && Clean(FragmentLayout(crc), rs, n)
    ensures WholeCount(crc, rs, n) <= |rs|
    ensures ReadAll(crc, Continued(crc, rs, n, more), 0) == (rs[..WholeCount(crc, rs, n)] + more, 0)
  {
    CleanRereads(crc, FragmentLayout(crc), rs, n, more);
    CutReads(crc, rs, n);
    WholePrefix(FragmentLayout(crc), rs, n);
  }

  lemma WholePrefix(layout: Layout, rs: seq<seq<byte>>, n: nat)
    ensures var k := |Whole(layout, rs, n)|; k <= |rs| && Whole(layout, rs, n) == rs[..k]
  {
    CompleteIsPrefix(layout, 0, rs, n);
  }

  lemma EditsJoined(rs: seq<seq<byte>>, es: seq<EditCodec.Edit>, k: nat, more: seq<seq<byte>>, later: seq<EditCodec.Edit>)
    requires HoldEdits(rs, es) && k <= |es| && HoldEdits(more, later)
    ensures HoldEdits(rs[..k] + more, es[..k] + later)
  {
    forall i | 0 <= i < k + |later| ensures HoldsEdit((rs[..k] + more)[i], (es[..k] + later)[i]) {
      assert if i < k then HoldsEdit(rs[i], es[i]) else HoldsEdit(more[i - k], later[i - k]);
    }
  }

  lemma BatchesJoined(rs: seq<seq<byte>>, bs: seq<Batch>, k: nat, more: seq<seq<byte>>, later: seq<Batch>)
    requires HoldBatches(rs, bs) && k <= |bs| && HoldBatches(more, later)
    ensures HoldBatches(rs[..k] + more, bs[..k] + later)
  {
    forall i | 0 <= i < k + |later| ensures HoldsBatch((rs[..k] + more)[i], (bs[..k] + later)[i]) {
      assert if i < k then HoldsBatch(rs[i], bs[i]) else HoldsBatch(more[i - k], later[i - k]);
    }
  }

  // A manifest cut off anywhere replays to the edits it still holds whole.
  lemma EditsSurvive(crc: Crc, rs: seq<seq<byte>>, es: seq<EditCodec.Edit>, n: nat)
    requires HoldEdits(rs, es) && n <= |LogFile(crc, rs)|
    ensures WholeCount(crc, rs, n) <= |es| && (n == |LogFile(crc, rs)| ==> WholeCount(crc, rs, n) == |es|)
    ensures ReplaysEdits(crc, LogFile(crc, rs)[..n], es[..WholeCount(crc, rs, n)])
  {
    CutReads(crc, rs, n);
    var k := WholeCount(crc, rs, n);
    EditsJoined(rs, es, k, [], []);
    assert rs[..k] + [] == rs[..k] && es[..k] + [] == es[..k];
  }

  // A write-ahead log cut off anywhere replays to the batches it still holds whole.
  lemma BatchesSurvive(crc: Crc, rs: seq<seq<byte>>, bs: seq<Batch>, n: nat)
    requires HoldBatches(rs, bs) && n <= |LogFile(crc, rs)|
    ensures WholeCount(crc, rs, n) <= |bs| && (n == |LogFile(crc, rs)| ==> WholeCount(crc, rs, n) == |bs|)
    ensures ReplaysBatches(crc, LogFile(crc, rs)[..n], bs[..WholeCount(crc, rs, n)])
  {
    CutReads(crc, rs, n);
    var k := WholeCount(crc, rs, n);
    BatchesJoined(rs, bs, k, [], []);
    assert rs[..k] + [] == rs[..k] && bs[..k] + [] == bs[..k];
  }

  // A manifest with a clean cut that is appended to replays to both parts.
  lemma EditsContinue(crc: Crc, rs: seq<seq<byte>>, es: seq<EditCodec.Edit>, n: nat, more: seq<seq<byte>>, later: seq<EditCodec.Edit>)
    requires HoldEdits(rs, es) && HoldEdits(more, later) && n <= |LogFile(crc, rs)| && Clean(FragmentLayout(crc), rs, n)
    ensures WholeCount(crc, rs, n) <= |es| && ReplaysEdits(crc, Continued(crc, rs, n, more), es[..WholeCount(crc, rs, n)] + later)
  {
    ContinuedReads(crc, rs, n, more);
    EditsJoined(rs, es, WholeCount(crc, rs, n), more, later);
  }

  // And so does a write-ahead log.
  lemma BatchesContinue(crc: Crc, rs: seq<seq<byte>>, bs: seq<Batch>, n: nat, more: seq<seq<byte>>, later: seq<Batch>)
    requires HoldBatches(rs, bs) && HoldBatches(more, later) && n <= |LogFile(crc, rs)| && Clean(FragmentLayout(crc), rs, n)
    ensures WholeCount(crc, rs, n) <= |bs| && ReplaysBatches(crc, Continued(crc, rs, n, more), bs[..WholeCount(crc, rs, n)] + later)
  {
    ContinuedReads(crc, rs, n, more);
    BatchesJoined(rs, bs, WholeCount(crc, rs, n), more, later);
  }
}
