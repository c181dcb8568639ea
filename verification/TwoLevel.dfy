// A two-level iterator is one cursor over the concatenation of the blocks an
// index names (table/two_level_iterator.cc).

module TwoLevel {
  import opened DbFormat
  import opened Comparator

  // The comparator of the keys.
  type Order = (Key, Key) -> bool

  ghost predicate Lawful(less: Order, a: Key, b: Key, c: Key) {
    && (less(a, b) && less(b, c) ==> less(a, c))
    && (less(a, b) || a == b || less(b, a)) && !less(a, a)
  }

  ghost predicate StrictOrder(less: Order) {
    forall a, b, c {:trigger Lawful(less, a, b, c)} :: Lawful(less, a, b, c)
  }

  datatype Item = Item(key: Key, value: seq<byte>)

  datatype Handle = Handle(offset: nat, size: nat)

  datatype IndexEntry = IndexEntry(key: Key, handle: Handle)

  // What the blocks of a file hold.
  type File = map<Handle, seq<Item>>

  function BlockOf(file: File, index: seq<IndexEntry>, i: nat): seq<Item>
    requires i < |index|
  {
    if index[i].handle in file then file[index[i].handle] else []
  }

  // The first n blocks one after the other, and where the next one starts.
  function Cat(file: File, index: seq<IndexEntry>, n: nat): (r: seq<Item>)
    requires n <= |index|
    ensures |r| == Start(file, index, n)
  {
    if n == 0 then [] else Cat(file, index, n - 1) + BlockOf(file, index, n - 1)
  }

  function Start(file: File, index: seq<IndexEntry>, n: nat): nat
    requires n <= |index|
  {
    if n == 0 then 0 else Start(file, index, n - 1) + |BlockOf(file, index, n - 1)|
  }

  function All(file: File, index: seq<IndexEntry>): seq<Item> {
    Cat(file, index, |index|)
  }

  // Every key of a block is at most its index key, and later blocks' keys are after it.
  ghost predicate Separated(file: File, index: seq<IndexEntry>, less: Order) {
    && (forall i: nat, k: nat {:trigger BlockOf(file, index, i)[k]} ::
          i < |index| && k < |BlockOf(file, index, i)| ==> !less(index[i].key, BlockOf(file, index, i)[k].key))
    && (forall i: nat, j: nat, k: nat {:trigger index[i], BlockOf(file, index, j)[k]} ::
          i < j < |index| && k < |BlockOf(file, index, j)| ==> less(index[i].key, BlockOf(file, index, j)[k].key))
  }

  // The place of the first key not before the target, when none in front of it is at or after it.
  ghost predicate FirstAt(items: seq<Item>, less: Order, target: Key, p: nat) {
    && p <= |items|
    && (forall j {:trigger items[j]} :: 0 <= j < p ==> less(items[j].key, target))
    && (p < |items| ==> !less(items[p].key, target))
  }

  ghost predicate FirstInIndex(index: seq<IndexEntry>, less: Order, target: Key, i: nat) {
    && i <= |index|
    && (forall j {:trigger index[j]} :: 0 <= j < i ==> less(index[j].key, target))
    && (i < |index| ==> !less(index[i].key, target))
  }

  // ---- Where an entry of the concatenation is ---------------------------

  lemma {:induction false} CatAt(file: File, index: seq<IndexEntry>, n: nat, i: nat, k: nat)
    requires i < n <= |index| && k < |BlockOf(file, index, i)|
    ensures Start(file, index, i) + k < Start(file, index, n)
    ensures Cat(file, index, n)[Start(file, index, i) + k] == BlockOf(file, index, i)[k]
  {
    if i < n - 1 {
      CatAt(file, index, n - 1, i, k);
    }
  }

  lemma {:induction false} Locate(file: File, index: seq<IndexEntry>, n: nat, p: nat) returns (i: nat, k: nat)
    requires n <= |index| && p < Start(file, index, n)
    ensures i < n && k < |BlockOf(file, index, i)| && p == Start(file, index, i) + k
  {
    if p < Start(file, index, n - 1) {
      i, k := Locate(file, index, n - 1, p);
    } else {
      i, k := n - 1, p - Start(file, index, n - 1);
    }
  }

  lemma {:induction false} StartsGrow(file: File, index: seq<IndexEntry>, i: nat, j: nat)
    requires i <= j <= |index|
    ensures Start(file, index, i) <= Start(file, index, j)
  {
    if i < j {
      StartsGrow(file, index, i, j - 1);
    }
  }

  // The index cursor is at i and the cursor over its block at k, which is place p of the whole.
  ghost predicate Sought(file: File, index: seq<IndexEntry>, less: Order, target: Key, i: nat, k: nat, p: nat) {
    && StrictOrder(less) && Separated(file, index, less) && FirstInIndex(index, less, target, i)
    && (i < |index| ==> FirstAt(BlockOf(file, index, i), less, target, k))
    && p == if i < |index| then Start(file, index, i) + k else Start(file, index, i)
  }

  lemma InFront(file: File, index: seq<IndexEntry>, less: Order, target: Key, i: nat, k: nat, p: nat, b: nat, m: nat)
    requires Sought(file, index, less, target, i, k, p)
    requires b < |index| && m < |BlockOf(file, index, b)| && Start(file, index, b) + m < p
    ensures less(BlockOf(file, index, b)[m].key, target)
  {
    if b < i {
      var x := BlockOf(file, index, b)[m].key;
      assert Lawful(less, x, index[b].key, target);
    } else {
      if b > i {
        StartsGrow(file, index, i + 1, b);
      }
      assert b == i;
    }
  }

  lemma AtOrBehind(file: File, index: seq<IndexEntry>, less: Order, target: Key, i: nat, k: nat, p: nat, b: nat, m: nat)
    requires Sought(file, index, less, target, i, k, p)
    requires b < |index| && m < |BlockOf(file, index, b)| && Start(file, index, b) + m == p
    ensures !less(BlockOf(file, index, b)[m].key, target)
  {
    if b < i {
      StartsGrow(file, index, b + 1, i);
    } else if i < |index| && b > i {
      var x := BlockOf(file, index, b)[m].key;
      assert less(index[i].key, x) && Lawful(less, index[i].key, x, target);
    }
  }

  // Seeking in the index and then in the block lands on the first key at or after the target.
  lemma SeekLands(file: File, index: seq<IndexEntry>, less: Order, target: Key, i: nat, k: nat, p: nat)
    requires Sought(file, index, less, target, i, k, p)
    ensures FirstAt(All(file, index), less, target, p)
  {
    var all: seq<Item> := All(file, index);
    var n: nat := |all|;
    assert p <= n by {
      StartsGrow(file, index, if i < |index| then i + 1 else i, |index|);
    }
    forall j: nat | j < p ensures less(all[j].key, target) {
      LandsAfter(file, index, less, target, i, k, p, j);
    }
    if p < n {
      LandsOn(file, index, less, target, i, k, p);
    }
  }

  lemma LandsAfter(file: File, index: seq<IndexEntry>, less: Order, target: Key, i: nat, k: nat, p: nat, j: nat)
    requires Sought(file, index, less, target, i, k, p)
    requires j < Start(file, index, |index|) && j < p
    ensures less(All(file, index)[j].key, target)
  {
    var b, m := Locate(file, index, |index|, j);
    InFront(file, index, less, target, i, k, p, b, m);
    CatAt(file, index, |index|, b, m);
    assert All(file, index)[j] == BlockOf(file, index, b)[m];
  }

  lemma LandsOn(file: File, index: seq<IndexEntry>, less: Order, target: Key, i: nat, k: nat, p: nat)
    requires Sought(file, index, less, target, i, k, p) && p < Start(file, index, |index|)
    ensures !less(All(file, index)[p].key, target)
  {
    var b, m := Locate(file, index, |index|, p);
    AtOrBehind(file, index, less, target, i, k, p, b, m);
    CatAt(file, index, |index|, b, m);
    assert All(file, index)[p] == BlockOf(file, index, b)[m];
  }

  class TwoLevelIterator {
    const index: seq<IndexEntry>
    const file: File
    const less: Order

    var indexAt: nat               // index cursor; the length when not valid
    var data: Option<Handle>       // the block the data cursor is over, if there is one
    var dataAt: nat                // data cursor; the block's length when not valid
    ghost var cursor: nat          // position in the concatenation; its length when not valid

    ghost predicate Valid()
      reads this
    {
      && indexAt <= |index|
      && (if data.None? then cursor == |All(file, index)|
          else
            && indexAt < |index| && data == Some(index[indexAt].handle)
            && dataAt < |BlockOf(file, index, indexAt)| && cursor == Start(file, index, indexAt) + dataAt < |All(file, index)|)
    }

    // InitDataBlock has run: a data cursor over the block of the index cursor, if that is valid.
    ghost predicate Positioned()
      reads this
    {
      && indexAt <= |index| && (data.Some? <==> indexAt < |index|)
      && (data.Some? ==> data == Some(index[indexAt].handle) && dataAt <= |BlockOf(file, index, indexAt)|)
    }

    constructor (index: seq<IndexEntry>, file: File, less: Order)
      requires forall i :: 0 <= i < |index| ==> index[i].handle in file
      ensures Valid() && this.index == index && this.file == file && this.less == less && !IsValid()
    {
      this.index, this.file, this.less := index, file, less;
      indexAt, data, dataAt, cursor := |index|, None, 0, |All(file, index)|;
    }

    function DataBlock(): seq<Item>
      requires data.Some?
      reads this
    {
      if data.value in file then file[data.value] else []
    }

    predicate IsValid()
      reads this
    {
      data.Some? && dataAt < |DataBlock()|
    }

    function Current(): Item
      requires Valid() && IsValid()
      reads this
      ensures cursor < |All(file, index)|
      ensures Current() == All(file, index)[cursor]
    {
      CatAt(file, index, |index|, indexAt, dataAt);
      DataBlock()[dataAt]
    }

    // The data cursor may be kept where it is if the block stays the same.
    method InitDataBlock()
      requires indexAt <= |index|
      modifies this`data, this`dataAt
      ensures indexAt < |index| ==> data == Some(index[indexAt].handle)
      ensures indexAt == |index| ==> data == None
    {
      if indexAt == |index| {
        data := None;
      } else {
        var handle := index[indexAt].handle;
        if data.Some? && handle == data.value {
        } else {
          data := Some(handle);
          dataAt := if handle in file then |file[handle]| else 0;
        }
      }
    }

    method SkipEmptyDataBlocksForward(ghost q: nat)
      requires Positioned() && q == (if data.Some? then Start(file, index, indexAt) + dataAt else |All(file, index)|)
      modifies this
      ensures Valid() && cursor == q
    {
      while data.None? || dataAt >= |DataBlock()|
        invariant Positioned() && q == (if data.Some? then Start(file, index, indexAt) + dataAt else |All(file, index)|)
        decreases |index| - indexAt, if data.Some? then 1 else 0
      {
        if indexAt == |index| {
          data := None;
          cursor := q;
          return;
        }
        indexAt := indexAt + 1;
        InitDataBlock();
        if data.Some? {
          dataAt := 0;
        }
      }
      cursor := q;
      CatAt(file, index, |index|, indexAt, dataAt);
    }

    // q is the place the data cursor stands at, or the one before its block when it
    // is not valid; -1 is in front of everything.
    method SkipEmptyDataBlocksBackward(ghost q: int)
      requires Positioned()
      requires q == (if data.None? then -1 else if dataAt < |DataBlock()| then Start(file, index, indexAt) + dataAt else Start(file, index, indexAt) - 1)
      modifies this
      ensures Valid() && cursor == if q >= 0 then q else |All(file, index)|
    {
      while data.None? || dataAt >= |DataBlock()|
        invariant Positioned()
        invariant q == (if data.None? then -1 else if dataAt < |DataBlock()| then Start(file, index, indexAt) + dataAt else Start(file, index, indexAt) - 1)
        decreases if indexAt == |index| then 0 else indexAt + 1
      {
        if indexAt == |index| {
          data := None;
          cursor := |All(file, index)|;
          return;
        }
        indexAt := if indexAt == 0 then |index| else indexAt - 1;
        InitDataBlock();
        if data.Some? {
          dataAt := if |DataBlock()| == 0 then 0 else |DataBlock()| - 1;
        }
      }
      cursor := q;
      CatAt(file, index, |index|, indexAt, dataAt);
    }

    method SeekToFirst()
      requires Valid()
      modifies this
      ensures Valid() && cursor == 0
    {
      indexAt := 0;
      InitDataBlock();
      if data.Some? {
        dataAt := 0;
      }
      SkipEmptyDataBlocksForward(0);
    }

    method SeekToLast()
      requires Valid()
      modifies this
      ensures Valid() && cursor == if All(file, index) == [] then 0 else |All(file, index)| - 1
    {
      indexAt := if index == [] then 0 else |index| - 1;
      InitDataBlock();
      if data.Some? {
        dataAt := if |DataBlock()| == 0 then 0 else |DataBlock()| - 1;
      }
      SkipEmptyDataBlocksBackward(|All(file, index)| - 1);
    }

    method Next()
      requires Valid() && IsValid()
      modifies this
      ensures Valid() && cursor == old(cursor) + 1
    {
      dataAt := dataAt + 1;
      SkipEmptyDataBlocksForward(cursor + 1);
    }

    // One entry back; from the first, off the end.
    method Prev()
      requires Valid() && IsValid()
      modifies this
      ensures Valid() && cursor == if old(cursor) == 0 then |All(file, index)| else old(cursor) - 1
    {
      ghost var q := cursor - 1;
      dataAt := if dataAt == 0 then |DataBlock()| else dataAt - 1;
      SkipEmptyDataBlocksBackward(q);
    }

    method Seek(target: Key)
      requires Valid() && StrictOrder(less) && Separated(file, index, less)
      modifies this
      ensures Valid() && FirstAt(All(file, index), less, target, cursor)
    {
      indexAt := SeekIndex(index, less, target);
      InitDataBlock();
      if data.Some? {
        dataAt := SeekBlock(DataBlock(), less, target);
      }
      ghost var q := if data.Some? then Start(file, index, indexAt) + dataAt else |All(file, index)|;
      SeekLands(file, index, less, target, indexAt, dataAt, q);
      SkipEmptyDataBlocksForward(q);
    }
  }

  // The Seek of the cursors over an index and over a block, by whatever search.
  method SeekIndex(index: seq<IndexEntry>, less: Order, target: Key) returns (i: nat)
    ensures FirstInIndex(index, less, target, i)
  {
    i := 0;
    while i < |index| && less(index[i].key, target)
      invariant i <= |index| && (forall j {:trigger index[j]} :: 0 <= j < i ==> less(index[j].key, target))
    {
      i := i + 1;
    }
  }

  method SeekBlock(items: seq<Item>, less: Order, target: Key) returns (k: nat)
    ensures FirstAt(items, less, target, k)
  {
    k := 0;
    while k < |items| && less(items[k].key, target)
      invariant k <= |items| && (forall j {:trigger items[j]} :: 0 <= j < k ==> less(items[j].key, target))
    {
      k := k + 1;
    }
  }
}
