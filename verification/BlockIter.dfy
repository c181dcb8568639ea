// The cursor over a table block (table/block.cc, Block::Iter): whatever the
// restart interval, it moves as an index into the list the block was built from.

module BlockIter {
  import opened DbFormat
  import opened Coding
  import opened BlockFormat
  import opened Block

  // The place of the first key not before the target.
  ghost predicate FirstFrom(entries: seq<KeyValue>, less: Order, target: seq<byte>, i: nat) {
    && i <= |entries|
    && (forall j {:trigger entries[j]} :: 0 <= j < i ==> less(entries[j].key, target))
    && (i < |entries| ==> !less(entries[i].key, target))
  }

  lemma AllBelow(entries: seq<KeyValue>, less: Order, target: seq<byte>, i: nat)
    requires Ascending(entries, less) && StrictOrder(less) && i < |entries| && less(entries[i].key, target)
    ensures forall j {:trigger entries[j]} :: 0 <= j <= i ==> less(entries[j].key, target)
  {
    forall j | 0 <= j < i ensures less(entries[j].key, target) {
      assert less(entries[j].key, entries[i].key);
    }
  }

  // What a decoded header says about entry i, when key is the key before it or the entry is stored whole.
  ghost predicate Reads(lay: Layout, i: nat, key: seq<byte>, size: nat, h: Header) {
    && i < |lay.entries| && i + 1 < |lay.starts|
    && h.shared <= |key| && h.nonShared + h.valueLength <= |h.rest| <= size
    && key[..h.shared] + h.rest[..h.nonShared] == lay.entries[i].key
    && h.rest[h.nonShared..h.nonShared + h.valueLength] == lay.entries[i].value
    && size - |h.rest| + h.nonShared + h.valueLength == lay.starts[i + 1]
  }

  lemma Restored(data: seq<byte>, offsets: seq<nat>, lay: Layout, i: nat, key: seq<byte>, h: Header)
    requires LaidOut(data, offsets, lay) && i < |lay.entries| && (key == KeyBefore(lay.entries, i) || lay.shared[i] == 0)
    requires var e, delta := lay.entries[i], Delta(lay, i);
             lay.starts[i + 1] <= |data| && |delta| + |e.value| <= lay.starts[i + 1]
             && h == Header(lay.shared[i], |delta|, |e.value|, delta + e.value + data[lay.starts[i + 1]..])
    ensures Reads(lay, i, key, |data|, h)
  {
    assert EntryAt(data, lay, i);
    var e, delta := lay.entries[i], Delta(lay, i);
    assert h.rest[..|delta|] == delta;
    assert h.rest[|delta|..|delta| + |e.value|] == e.value;
    assert key[..lay.shared[i]] == e.key[..lay.shared[i]];
  }

  class Iter {
    const less: Order
    const contents: seq<byte>
    const restarts: nat
    const numRestarts: nat
    ghost const offsets: seq<nat>
    ghost const lay: Layout

    var current: nat
    var nextOffset: nat      // just past the value: where the next entry starts
    var restartIndex: nat
    var key: seq<byte>
    var value: seq<byte>

    ghost var pos: nat       // the entry the cursor is at, or the number of entries

    // The block is one a builder finished.
    ghost predicate Opened() {
      && restarts <= |contents| && LaidOut(contents[..restarts], offsets, lay)
      && numRestarts == |offsets| && |contents| == restarts + 4 * numRestarts + 4
      && forall i: nat {:trigger RestartPoint(contents, restarts, i)} :: i < numRestarts ==> RestartPoint(contents, restarts, i) == offsets[i]
    }

    ghost predicate Valid()
      reads this
    {
      && Opened() && pos <= |lay.entries| && current == lay.starts[pos]
      && (if pos == |lay.entries| then restartIndex == numRestarts
          else && key == lay.entries[pos].key && value == lay.entries[pos].value && nextOffset == lay.starts[pos + 1]
               && restartIndex < numRestarts && lay.wholes[restartIndex] <= pos
               && (restartIndex + 1 < numRestarts ==> pos <= lay.wholes[restartIndex + 1]))
    }

    // About to parse entry i.
    ghost predicate Ready(i: nat)
      reads this
    {
      && Opened() && i <= |lay.entries| && nextOffset == lay.starts[i]
      && (i < |lay.entries| ==> key == KeyBefore(lay.entries, i) || lay.shared[i] == 0)
      && restartIndex < numRestarts && lay.wholes[restartIndex] <= i
    }

    predicate IsValid()
      reads this
    {
      current < restarts
    }

    lemma AtEndIffInvalid()
      requires Valid()
      ensures IsValid() <==> pos < |lay.entries|
    {
      OffsetsCompare(contents[..restarts], offsets, lay, pos, |lay.entries|);
    }

    // NewIterator over a block with a restart array (one with none is an empty iterator).
    constructor (less: Order, contents: seq<byte>, ghost data: seq<byte>, ghost offsets: seq<nat>, ghost lay: Layout)
      requires |offsets| < TWO_32 && (forall j :: 0 <= j < |offsets| ==> offsets[j] < TWO_32)
      requires contents == Contents(data, offsets) && LaidOut(data, offsets, lay)
      ensures Valid() && this.less == less && this.lay == lay && pos == |lay.entries| && !IsValid()
    {
      ContentsOpen(data, offsets);
      this.less, this.contents, this.offsets, this.lay := less, contents, offsets, lay;
      this.restarts := RestartOffset(contents).value;
      this.numRestarts := NumRestarts(contents);
      current, restartIndex := RestartOffset(contents).value, NumRestarts(contents);
      key, value, nextOffset := [], [], 0;
      pos := |lay.entries|;
    }

    method SeekToRestartPoint(index: nat)
      requires Opened() && index < numRestarts
      modifies this`key, this`restartIndex, this`nextOffset, this`value
      ensures restartIndex == index && lay.wholes[index] <= |lay.entries| && Ready(lay.wholes[index])
    {
      assert RestartAt(offsets, lay, index);
      key, restartIndex := [], index;
      nextOffset := RestartPoint(contents, restarts, index);
      value := [];
    }

    method ParseNextKey(ghost i: nat) returns (more: bool)
      requires Ready(i)
      modifies this
      ensures Valid() && pos == i && more == (i < |lay.entries|)
    {
      ghost var data := contents[..restarts];
      OffsetsCompare(data, offsets, lay, i, |lay.entries|);
      current := nextOffset;
      if current >= restarts {
        current := restarts;
        restartIndex := numRestarts;
        pos := |lay.entries|;
        return false;
      }
      var h := Decode(current, i, key);
      if h.None? || |key| < h.value.shared {
        assert false;   // no CorruptionError in a block a builder finished
      } else {
        var p := restarts - |h.value.rest|;
        key := key[..h.value.shared] + h.value.rest[..h.value.nonShared];
        value := h.value.rest[h.value.nonShared..h.value.nonShared + h.value.valueLength];
        nextOffset := p + h.value.nonShared + h.value.valueLength;
        CatchUpRestart(i);
        pos := i;
        return true;
      }
    }

    // DecodeEntry at the offset of entry i.
    method Decode(offset: nat, ghost i: nat, ghost key: seq<byte>) returns (h: Option<Header>)
      requires Opened() && i < |lay.entries| && offset == lay.starts[i] && (key == KeyBefore(lay.entries, i) || lay.shared[i] == 0)
      ensures h.Some? && Reads(lay, i, key, restarts, h.value) && h.value.shared == lay.shared[i]
    {
      ghost var data := contents[..restarts];
      EntryDecodes(data, offsets, lay, i);
      OffsetsCompare(data, offsets, lay, i, |lay.entries|);
      assert contents[offset..restarts] == data[offset..];
      h := DecodeEntry(contents[offset..restarts]);
      Restored(data, offsets, lay, i, key, h.value);
    }

    // Move restartIndex to the last restart point before the current entry.
    method CatchUpRestart(ghost i: nat)
      requires Opened() && i < |lay.entries| && current == lay.starts[i] && restartIndex < numRestarts && lay.wholes[restartIndex] <= i
      modifies this`restartIndex
      ensures restartIndex < numRestarts && lay.wholes[restartIndex] <= i && (restartIndex + 1 < numRestarts ==> i <= lay.wholes[restartIndex + 1])
    {
      while restartIndex + 1 < numRestarts && RestartPoint(contents, restarts, restartIndex + 1) < current
        invariant restartIndex < numRestarts && lay.wholes[restartIndex] <= i
        decreases numRestarts - restartIndex
      {
        RestartsCompare(restartIndex + 1, i);
        restartIndex := restartIndex + 1;
      }
      if restartIndex + 1 < numRestarts {
        RestartsCompare(restartIndex + 1, i);
      }
    }

    // Restart offsets compare as the entries they belong to.
    lemma RestartsCompare(j: nat, i: nat)
      requires Opened() && j < numRestarts && i <= |lay.entries|
      ensures lay.wholes[j] <= |lay.entries|
      ensures RestartPoint(contents, restarts, j) == offsets[j] == lay.starts[lay.wholes[j]]
      ensures RestartPoint(contents, restarts, j) < lay.starts[i] <==> lay.wholes[j] < i
    {
      assert RestartAt(offsets, lay, j);
      OffsetsCompare(contents[..restarts], offsets, lay, lay.wholes[j], i);
    }

    method SeekToFirst()
      requires Valid()
      modifies this
      ensures Valid() && pos == 0
    {
      SeekToRestartPoint(0);
      var more := ParseNextKey(0);
    }

    method SeekToLast()
      requires Valid()
      modifies this
      ensures Valid() && pos == if lay.entries == [] then 0 else |lay.entries| - 1
    {
      SeekToRestartPoint(numRestarts - 1);
      ghost var i := lay.wholes[numRestarts - 1];
      assert RestartAt(offsets, lay, numRestarts - 1);
      var more := ParseNextKey(i);
      while more && nextOffset < restarts
        invariant Valid() && pos == i && more == (i < |lay.entries|)
        invariant i < |lay.entries| || lay.entries == []
        decreases |lay.entries| - i
      {
        OffsetsCompare(contents[..restarts], offsets, lay, i + 1, |lay.entries|);
        i := i + 1;
        more := ParseNextKey(i);
      }
      if more {
        OffsetsCompare(contents[..restarts], offsets, lay, i + 1, |lay.entries|);
      }
    }

    method Next()
      requires Valid() && IsValid()
      modifies this
      ensures Valid() && pos == old(pos) + 1
    {
      AtEndIffInvalid();
      var more := ParseNextKey(pos + 1);
    }

    // One entry back; from the first, off the end.
    method Prev()
      requires Valid() && IsValid()
      modifies this
      ensures Valid() && pos == if old(pos) == 0 then |lay.entries| else old(pos) - 1
    {
      AtEndIffInvalid();
      ghost var was := pos;
      var original := current;
      while RestartPoint(contents, restarts, restartIndex) >= original
        invariant restartIndex < numRestarts && Opened()
        invariant original == lay.starts[was] && was < |lay.entries|
        decreases restartIndex
      {
        RestartsCompare(restartIndex, was);
        if restartIndex == 0 {
          current := restarts;
          restartIndex := numRestarts;
          pos := |lay.entries|;
          return;
        }
        restartIndex := restartIndex - 1;
      }
      RestartsCompare(restartIndex, was);
      SeekToRestartPoint(restartIndex);
      ghost var i := lay.wholes[restartIndex];
      var more := ParseNextKey(i);
      OffsetsCompare(contents[..restarts], offsets, lay, i + 1, was);
      while more && nextOffset < original
        invariant Valid() && pos == i < was && more
        invariant nextOffset < original <==> i + 1 < was
        decreases was - i
      {
        i := i + 1;
        more := ParseNextKey(i);
        OffsetsCompare(contents[..restarts], offsets, lay, i + 1, was);
      }
    }

    // Binary search over the restart points, then a scan.
    method Seek(target: seq<byte>)
      requires Valid() && StrictOrder(less) && Ascending(lay.entries, less)
      modifies this
      ensures Valid() && FirstFrom(lay.entries, less, target, pos)
    {
      ghost var data := contents[..restarts];
      var left: nat, right: nat := 0, numRestarts - 1;
      while left < right
        invariant left <= right < numRestarts && Opened()
        invariant left > 0 ==> lay.wholes[left] < |lay.entries| && less(lay.entries[lay.wholes[left]].key, target)
        decreases right - left
      {
        var mid := (left + right + 1) / 2;
        assert RestartAt(offsets, lay, mid);
        var region := RestartPoint(contents, restarts, mid);
        var h := Decode(region, lay.wholes[mid], []);
        if h.None? || h.value.shared != 0 {
          assert false;   // no CorruptionError
        } else {
          var midKey := h.value.rest[..h.value.nonShared];
          assert midKey == lay.entries[lay.wholes[mid]].key;
          if less(midKey, target) {
            left := mid;
          } else {
            right := mid - 1;
          }
        }
      }
      SeekToRestartPoint(left);
      ghost var i := lay.wholes[left];
      if left > 0 {
        AllBelow(lay.entries, less, target, i);
      }
      var more := ParseNextKey(i);
      while more && less(key, target)
        invariant Valid() && pos == i && more == (i < |lay.entries|)
        invariant forall j {:trigger lay.entries[j]} :: 0 <= j < i ==> less(lay.entries[j].key, target)
        decreases |lay.entries| - i
      {
        i := i + 1;
        more := ParseNextKey(i);
      }
    }
  }

  // Reading a block front to back gives the list it was built from.
  method ReadAll(less: Order, contents: seq<byte>, ghost data: seq<byte>, ghost offsets: seq<nat>, ghost lay: Layout) returns (r: seq<KeyValue>)
    requires |offsets| < TWO_32 && (forall j :: 0 <= j < |offsets| ==> offsets[j] < TWO_32)
    requires contents == Contents(data, offsets) && LaidOut(data, offsets, lay)
    ensures r == lay.entries
  {
    var it := new Iter(less, contents, data, offsets, lay);
    it.SeekToFirst();
    r := [];
    it.AtEndIffInvalid();
    while it.IsValid()
      invariant it.Valid() && it.lay == lay && it.pos <= |lay.entries| && r == lay.entries[..it.pos]
      invariant it.IsValid() <==> it.pos < |lay.entries|
      decreases |lay.entries| - it.pos
    {
      r := r + [KeyValue(it.key, it.value)];
      it.Next();
      it.AtEndIffInvalid();
    }
  }
}
