// Building a sorted table and looking a key up in it
// (table/table_builder.cc, table/table.cc).

module Table {
  import opened DbFormat
  import opened Comparator
  import opened TwoLevel
  import opened FilterBlock
  import opened Coding

  const KEY_ORDER: Order := (a, b) => KeyBefore(a, b)

  lemma KeyOrderStrict()
    ensures StrictOrder(KEY_ORDER)
  {
    forall a, b, c ensures Lawful(KEY_ORDER, a, b, c) {
      KeyOrder(a, b, c);
    }
  }

  ghost predicate Earlier(items: seq<Item>, i: nat, j: nat)
    requires i < |items| && j < |items|
  {
    KeyBefore(items[i].key, items[j].key)
  }

  ghost predicate Ascending(items: seq<Item>) {
    forall i: nat, j: nat {:trigger Earlier(items, i, j)} :: i < j < |items| ==> Earlier(items, i, j)
  }

  // A good key for an index entry between items[end - 1] and what follows: shortened, it
  // is before every later user key.
  ghost predicate Separates(items: seq<Item>, end: nat, sep: Key) {
    && 0 < end <= |items| && KeyAtMost(items[end - 1].key, sep)
    && forall p: nat {:trigger Clear(items, end, sep, p)} :: end <= p < |items| ==> Clear(items, end, sep, p)
  }

  ghost predicate Clear(items: seq<Item>, end: nat, sep: Key, p: nat)
    requires 0 < end <= |items| && p < |items|
  {
    KeyBefore(sep, items[p].key) && (sep == items[end - 1].key || Before(sep.user, items[p].key.user))
  }

  function Begin(ends: seq<nat>, i: nat): nat {
    if 0 < i <= |ends| then ends[i - 1] else 0
  }

  // Block i of the file is items[Begin(i)..ends[i]], and its index key separates.
  ghost predicate BlockAt(file: File, index: seq<IndexEntry>, items: seq<Item>, ends: seq<nat>, i: nat) {
    && i < |index| && i < |ends| && Begin(ends, i) < ends[i] <= |items|
    && index[i].handle in file && file[index[i].handle] == items[Begin(ends, i)..ends[i]]
    && Separates(items, ends[i], index[i].key)
  }

  ghost predicate BuiltHolds(file: File, index: seq<IndexEntry>, items: seq<Item>, ends: seq<nat>) {
    && Ascending(items) && |ends| == |index|
    && forall i: nat {:trigger BlockAt(file, index, items, ends, i)} :: i < |index| ==> BlockAt(file, index, items, ends, i)
  }

  // The same, folded away; Sight opens it.
  ghost predicate Built(file: File, index: seq<IndexEntry>, items: seq<Item>, ends: seq<nat>) {
    |ends| == |index| && forall x {:trigger Sight(x)} :: Sight(x) && x == items ==> BuiltHolds(file, index, x, ends)
  }

  ghost predicate Sight(items: seq<Item>) {
    true
  }

  lemma BuiltIs(file: File, index: seq<IndexEntry>, items: seq<Item>, ends: seq<nat>)
    ensures Built(file, index, items, ends) <==> BuiltHolds(file, index, items, ends)
  {
    assert Sight(items);
  }

  lemma {:induction false} BuiltCat(file: File, index: seq<IndexEntry>, items: seq<Item>, ends: seq<nat>, n: nat)
    requires Built(file, index, items, ends) && n <= |index|
    ensures Begin(ends, n) <= |items| && Cat(file, index, n) == items[..Begin(ends, n)] && Start(file, index, n) == Begin(ends, n)
  {
    BuiltIs(file, index, items, ends);
    if n > 0 {
      BuiltCat(file, index, items, ends, n - 1);
      assert BlockAt(file, index, items, ends, n - 1);
      assert items[..ends[n - 1]] == items[..Begin(ends, n - 1)] + items[Begin(ends, n - 1)..ends[n - 1]];
    }
  }

  // An index entry's key against an item before its end.
  lemma NotPast(items: seq<Item>, end: nat, sep: Key, p: nat)
    requires Ascending(items) && Separates(items, end, sep) && p < end
    ensures !KeyBefore(sep, items[p].key)
  {
    assert p < end - 1 ==> Earlier(items, p, end - 1);
    KeyOrder(items[p].key, items[end - 1].key, sep);
    KeyOrder(items[p].key, sep, items[p].key);
  }

  lemma {:induction false} EndsGrow(file: File, index: seq<IndexEntry>, items: seq<Item>, ends: seq<nat>, i: nat, j: nat)
    requires Built(file, index, items, ends) && i <= j <= |index|
    ensures Begin(ends, i) <= Begin(ends, j)
  {
    BuiltIs(file, index, items, ends);
    if i < j {
      EndsGrow(file, index, items, ends, i, j - 1);
      assert BlockAt(file, index, items, ends, j - 1);
    }
  }

  lemma BuiltSeparated(file: File, index: seq<IndexEntry>, items: seq<Item>, ends: seq<nat>)
    requires Built(file, index, items, ends)
    ensures Separated(file, index, KEY_ORDER)
  {
    forall i: nat, k: nat | i < |index| && k < |BlockOf(file, index, i)|
      ensures !KEY_ORDER(index[i].key, BlockOf(file, index, i)[k].key)
    {
      InBlock(file, index, items, ends, i, k);
    }
    forall i: nat, j: nat, k: nat | i < j < |index| && k < |BlockOf(file, index, j)|
      ensures KEY_ORDER(index[i].key, BlockOf(file, index, j)[k].key)
    {
      PastBlockKey(file, index, items, ends, i, j, k);
    }
  }

  lemma InBlock(file: File, index: seq<IndexEntry>, items: seq<Item>, ends: seq<nat>, i: nat, k: nat)
    requires Built(file, index, items, ends) && i < |index| && k < |BlockOf(file, index, i)|
    ensures !KeyBefore(index[i].key, BlockOf(file, index, i)[k].key)
  {
    BuiltIs(file, index, items, ends);
    assert BlockAt(file, index, items, ends, i);
    NotPast(items, ends[i], index[i].key, Begin(ends, i) + k);
  }

  lemma PastBlockKey(file: File, index: seq<IndexEntry>, items: seq<Item>, ends: seq<nat>, i: nat, j: nat, k: nat)
    requires Built(file, index, items, ends) && i < j < |index| && k < |BlockOf(file, index, j)|
    ensures KeyBefore(index[i].key, BlockOf(file, index, j)[k].key)
  {
    BuiltIs(file, index, items, ends);
    assert BlockAt(file, index, items, ends, i) && BlockAt(file, index, items, ends, j);
    EndsGrow(file, index, items, ends, i + 1, j);
    assert Clear(items, ends[i], index[i].key, Begin(ends, j) + k);
  }

  // ---- Building ---------------------------------------------------------

  lemma AscendingMore(items: seq<Item>, item: Item)
    requires Ascending(items) && (items != [] ==> KeyBefore(items[|items| - 1].key, item.key))
    ensures Ascending(items + [item])
  {
    var r := items + [item];
    forall i: nat, j: nat | i < j < |r| ensures Earlier(r, i, j) {
      if j < |items| {
        assert Earlier(items, i, j);
      } else if i < |items| - 1 {
        assert Earlier(items, i, |items| - 1);
        KeyOrder(items[i].key, items[|items| - 1].key, item.key);
      }
    }
  }

  lemma SeparatesMore(items: seq<Item>, item: Item, end: nat, sep: Key)
    requires Separates(items, end, sep) && end < |items| && KeyBefore(items[|items| - 1].key, item.key)
    ensures Separates(items + [item], end, sep)
  {
    var n := |items|;
    var r := items + [item];
    forall p: nat | end <= p < |r| ensures Clear(r, end, sep, p) {
      if p < n {
        assert Clear(items, end, sep, p);
      } else {
        assert Clear(items, end, sep, n - 1);
        ClearAcross(sep, items[n - 1].key, item.key);
      }
    }
  }

  lemma ClearAcross(sep: Key, x: Key, y: Key)
    requires KeyBefore(sep, x) && KeyBefore(x, y)
    ensures KeyBefore(sep, y) && (Before(sep.user, x.user) ==> Before(sep.user, y.user))
  {
    KeyOrder(sep, x, y);
    if Before(sep.user, x.user) && Before(x.user, y.user) {
      BeforeTransitive(sep.user, x.user, y.user);
    }
  }

  // The index with the key of its last entry replaced.
  function Rekeyed(index: seq<IndexEntry>, sep: Key): seq<IndexEntry>
    requires index != []
  {
    index[|index| - 1 := IndexEntry(sep, index[|index| - 1].handle)]
  }

  // One more item while a block is open: the index keys stay good.
  lemma ItemAdded(file: File, index: seq<IndexEntry>, items: seq<Item>, ends: seq<nat>, item: Item)
    requires Built(file, index, items, ends) && Begin(ends, |ends|) < |items| && KeyBefore(items[|items| - 1].key, item.key)
    ensures Built(file, index, items + [item], ends)
  {
    BuiltIs(file, index, items, ends);
    AscendingMore(items, item);
    forall i: nat | i < |index| ensures BlockAt(file, index, items + [item], ends, i) {
      assert BlockAt(file, index, items, ends, i);
      EndsGrow(file, index, items, ends, i + 1, |index|);
      SeparatesMore(items, item, ends[i], index[i].key);
      assert (items + [item])[Begin(ends, i)..ends[i]] == items[Begin(ends, i)..ends[i]];
    }
    BuiltIs(file, index, items + [item], ends);
  }

  // The first item after a block: now its index key is decided.
  lemma BlockClosed(file: File, index: seq<IndexEntry>, items: seq<Item>, ends: seq<nat>, item: Item, sep: Key)
    requires Built(file, index, items, ends) && index != [] && Begin(ends, |ends|) == |items| > 0
    requires KeyBefore(items[|items| - 1].key, item.key) && KeyAtMost(items[|items| - 1].key, sep) && KeyBefore(sep, item.key)
    requires sep == items[|items| - 1].key || Before(sep.user, item.key.user)
    ensures Built(file, Rekeyed(index, sep), items + [item], ends)
  {
    BuiltIs(file, index, items, ends);
    AscendingMore(items, item);
    var r, index2, last := items + [item], Rekeyed(index, sep), |index| - 1;
    forall i: nat | i < |index| ensures BlockAt(file, index2, r, ends, i) {
      assert BlockAt(file, index, items, ends, i);
      assert r[Begin(ends, i)..ends[i]] == items[Begin(ends, i)..ends[i]];
      if i < last {
        EndsGrow(file, index, items, ends, i + 1, last);
        assert BlockAt(file, index, items, ends, last);
        SeparatesMore(items, item, ends[i], index[i].key);
      } else {
        forall p: nat | ends[i] <= p < |r| ensures Clear(r, ends[i], sep, p) {
        }
      }
    }
    BuiltIs(file, index2, r, ends);
  }

  // The last index key may be anything at or after the last item.
  lemma LastRekeyed(file: File, index: seq<IndexEntry>, items: seq<Item>, ends: seq<nat>, sep: Key)
    requires Built(file, index, items, ends) && index != [] && Begin(ends, |ends|) == |items| > 0 && KeyAtMost(items[|items| - 1].key, sep)
    ensures Built(file, Rekeyed(index, sep), items, ends)
  {
    BuiltIs(file, index, items, ends);
    forall i: nat | i < |index| ensures BlockAt(file, Rekeyed(index, sep), items, ends, i) {
      assert BlockAt(file, index, items, ends, i);
    }
    BuiltIs(file, Rekeyed(index, sep), items, ends);
  }

  lemma FirstItem(file: File, index: seq<IndexEntry>, items: seq<Item>, ends: seq<nat>, item: Item)
    requires Built(file, index, items, ends) && items == []
    ensures Built(file, index, items + [item], ends)
  {
    BuiltIs(file, index, items, ends);
    assert index != [] ==> BlockAt(file, index, items, ends, |ends| - 1);
    AscendingMore(items, item);
    BuiltIs(file, index, items + [item], ends);
  }

  lemma NothingBuilt()
    ensures Built(map[], [], [], [])
  {
    BuiltIs(map[], [], [], []);
  }

  lemma BlockWritten(file: File, index: seq<IndexEntry>, items: seq<Item>, ends: seq<nat>, h: Handle)
    requires Built(file, index, items, ends) && Begin(ends, |ends|) < |items| && h !in file
    ensures Built(file[h := items[Begin(ends, |ends|)..]], index + [IndexEntry(items[|items| - 1].key, h)], items, ends + [|items|])
  {
    BuiltIs(file, index, items, ends);
    var file2, index2, ends2 := file[h := items[Begin(ends, |ends|)..]], index + [IndexEntry(items[|items| - 1].key, h)], ends + [|items|];
    forall i: nat | i < |index2| ensures BlockAt(file2, index2, items, ends2, i) {
      if i < |index| {
        assert BlockAt(file, index, items, ends, i);
      }
    }
    BuiltIs(file2, index2, items, ends2);
  }

  // Every user key of a written block is in the filter group of the block's offset.
  ghost predicate Covers(groups: seq<seq<seq<byte>>>, file: File) {
    forall h: Handle, k: nat {:trigger Stored(file, h, k)} :: Stored(file, h, k) ==> InGroup(groups, h.offset, file[h][k].key.user)
  }

  ghost predicate Stored(file: File, h: Handle, k: nat) {
    h in file && k < |file[h]|
  }

  ghost predicate InGroup(groups: seq<seq<seq<byte>>>, offset: nat, user: seq<byte>) {
    offset / FILTER_BASE < |groups| && user in groups[offset / FILTER_BASE]
  }

  lemma CoversMore(gs: seq<seq<seq<byte>>>, gs2: seq<seq<seq<byte>>>, file: File)
    requires Covers(gs, file) && |gs| <= |gs2|
    requires forall g, u {:trigger u in gs[g]} :: 0 <= g < |gs| && u in gs[g] ==> u in gs2[g]
    ensures Covers(gs2, file)
  {
    forall h: Handle, k: nat | h in file && k < |file[h]| ensures InGroup(gs2, h.offset, file[h][k].key.user) {
      assert Stored(file, h, k);
    }
  }

  lemma CoversPending(groups: seq<seq<seq<byte>>>, pending: seq<seq<byte>>, user: seq<byte>, file: File)
    requires Covers(groups + [pending], file)
    ensures Covers(groups + [pending + [user]], file)
  {
    CoversMore(groups + [pending], groups + [pending + [user]], file);
  }

  lemma CoversBlock(gs: seq<seq<seq<byte>>>, file: File, h: Handle, items: seq<Item>)
    requires Covers(gs, file) && h.offset / FILTER_BASE < |gs|
    requires forall k {:trigger items[k]} :: 0 <= k < |items| ==> items[k].key.user in gs[h.offset / FILTER_BASE]
    ensures Covers(gs, file[h := items])
  {
    var file2: File := file[h := items];
    forall g: Handle, k: nat | g in file2 && k < |file2[g]| ensures InGroup(gs, g.offset, file2[g][k].key.user) {
      if g != h {
        assert Stored(file, g, k);
      }
    }
  }

  // What a finished table is: all items, in blocks with good index keys, and a
  // filter that knows every user key of the block it is asked about.
  ghost predicate Finished(file: File, index: seq<IndexEntry>, items: seq<Item>, ends: seq<nat>) {
    Built(file, index, items, ends) && Begin(ends, |ends|) == |items|
  }

  ghost predicate FilterKnows(groups: seq<seq<seq<byte>>>, file: File) {
    forall h: Handle, k: nat {:trigger file[h][k]} :: h in file && k < |file[h]| && h.offset / FILTER_BASE < |groups| ==>
      file[h][k].key.user in groups[h.offset / FILTER_BASE]
  }

  lemma FinishKnows(groups: seq<seq<seq<byte>>>, pending: seq<seq<byte>>, file: File)
    requires Covers(groups + [pending], file)
    ensures FilterKnows(if pending == [] then groups else groups + [pending], file)
  {
    var gs := groups + [pending];
    assert forall h: Handle, k: nat {:trigger file[h][k]} :: h in file && k < |file[h]| ==> Stored(file, h, k) && InGroup(gs, h.offset, file[h][k].key.user);
  }

  // One byte of compression type and a checksum follow each block.
  const BLOCK_TRAILER_SIZE: nat := 5

  lemma TailMore(items: seq<Item>, item: Item, b: nat)
    requires b <= |items|
    ensures (items + [item])[b..] == items[b..] + [item]
  {
  }

  lemma UserAdded(block: seq<Item>, item: Item, users: seq<seq<byte>>)
    ensures AllIn(block, users) && item.key.user in users ==> AllIn(block + [item], users)
  {
  }

  ghost predicate AllIn(block: seq<Item>, users: seq<seq<byte>>) {
    forall k {:trigger block[k]} :: 0 <= k < |block| ==> block[k].key.user in users
  }

  class TableBuilder {
    const filterBlock: FilterBlockBuilder?
    var offset: nat                 // where the next block goes in the file
    var dataBlock: seq<Item>        // the block under construction
    var indexBlock: seq<IndexEntry>
    var lastKey: Key
    var pendingIndexEntry: bool     // the last block written waits for its index key
    var pendingHandle: Handle
    var closed: bool
    var file: File                  // the data blocks written
    ghost var items: seq<Item>
    ghost var ends: seq<nat>

    ghost function Index(): seq<IndexEntry>
      reads this
    {
      if pendingIndexEntry then indexBlock + [IndexEntry(lastKey, pendingHandle)] else indexBlock
    }

    ghost predicate Written()
      reads this
    {
      && Built(file, Index(), items, ends)
      && Begin(ends, |ends|) <= |items| && dataBlock == items[Begin(ends, |ends|)..]
      && (items != [] ==> lastKey == items[|items| - 1].key)
      && (forall h {:trigger h in file} :: h in file ==> h.offset < offset)
    }

    ghost predicate Filtered()
      reads this, filterBlock
    {
      filterBlock != null ==>
        && filterBlock.Valid() && |filterBlock.groups| == offset / FILTER_BASE
        && Covers(filterBlock.groups + [filterBlock.pending], file)
        && AllIn(dataBlock, filterBlock.pending)
    }

    ghost predicate Valid()
      reads this, filterBlock
    {
      && Written() && Filtered() && !closed
      && (pendingIndexEntry <==> dataBlock == [] && items != [])
    }

    constructor (policy: Option<Policy>)
      ensures Valid() && items == [] && (filterBlock != null ==> fresh(filterBlock))
      ensures policy.None? <==> filterBlock == null
      ensures policy.Some? ==> filterBlock.policy == policy.value
    {
      offset, dataBlock, indexBlock, lastKey, pendingIndexEntry, pendingHandle, closed := 0, [], [], Key([], 0), false, Handle(0, 0), false;
      file, items, ends := map[], [], [];
      NothingBuilt();
      if policy.Some? {
        var b := new FilterBlockBuilder(policy.value);
        var start: nat := 0;
        b.StartBlock(start);
        filterBlock := b;
      } else {
        filterBlock := null;
      }
    }

    // full says that the block has reached its size, size how many bytes it takes.
    method Add(key: Key, value: seq<byte>, full: bool, size: nat)
      requires Valid() && (items != [] ==> KeyBefore(lastKey, key))
      modifies this, filterBlock
      ensures Valid() && items == old(items) + [Item(key, value)]
      ensures if full then dataBlock == [] && ends == old(ends) + [|items|] && offset == old(offset) + size + BLOCK_TRAILER_SIZE
              else dataBlock == old(dataBlock) + [Item(key, value)] && ends == old(ends) && offset == old(offset)
    {
      AddToBlock(key, value);
      if full {
        Flush(size);
      }
    }

    method AddToBlock(key: Key, value: seq<byte>)
      requires Valid() && (items != [] ==> KeyBefore(lastKey, key))
      modifies this, filterBlock
      ensures Valid() && items == old(items) + [Item(key, value)]
      ensures dataBlock == old(dataBlock) + [Item(key, value)] && ends == old(ends) && offset == old(offset)
    {
      DecideIndexKey(Item(key, value));
      AddToFilter(key);
      lastKey := key;
      ghost var item := Item(key, value);
      TailMore(items, item, Begin(ends, |ends|));
      UserAdded(dataBlock, item, if filterBlock != null then filterBlock.pending else []);
      items := items + [item];
      dataBlock := dataBlock + [Item(key, value)];
    }

    method AddToFilter(key: Key)
      requires Filtered()
      modifies filterBlock
      ensures Filtered() && (filterBlock != null ==> key.user in filterBlock.pending)
    {
      if filterBlock != null {
        ghost var pending := filterBlock.pending;
        filterBlock.AddKey(key.user);
        CoversPending(filterBlock.groups, pending, key.user, file);
        assert AllIn(dataBlock, pending);
      }
    }

    // The first key of a new block decides the index key of the one before.
    method DecideIndexKey(item: Item)
      requires Valid() && (items != [] ==> KeyBefore(lastKey, item.key))
      modifies this`indexBlock, this`pendingIndexEntry
      ensures !pendingIndexEntry && Built(file, indexBlock, items + [item], ends)
    {
      if pendingIndexEntry {
        ghost var index := Index();
        var sep := FindShortestKeySeparator(lastKey, item.key);
        BlockClosed(file, index, items, ends, item, sep);
        indexBlock := indexBlock + [IndexEntry(sep, pendingHandle)];
        pendingIndexEntry := false;
        assert indexBlock == Rekeyed(index, sep);
      } else if items != [] {
        ItemAdded(file, indexBlock, items, ends, item);
      } else {
        FirstItem(file, indexBlock, items, ends, item);
      }
    }

    method Flush(size: nat)
      requires Valid()
      modifies this, filterBlock
      ensures Valid() && items == old(items) && dataBlock == []
      ensures if old(dataBlock) == [] then ends == old(ends) && offset == old(offset)
              else ends == old(ends) + [|items|] && offset == old(offset) + size + BLOCK_TRAILER_SIZE
      ensures filterBlock != null ==>
                filterBlock.result + FilterOf(filterBlock.policy, filterBlock.pending)
                == old(filterBlock.result) + FilterOf(filterBlock.policy, old(filterBlock.pending))
    {
      if dataBlock == [] {
        return;
      }
      ghost var open, h := dataBlock, Handle(offset, size);
      BlockWritten(file, indexBlock, items, ends, h);
      if filterBlock != null {
        CoversBlock(filterBlock.groups + [filterBlock.pending], file, h, dataBlock);
      }
      pendingHandle := Handle(offset, size);
      file := file[pendingHandle := dataBlock];
      ends := ends + [|items|];
      offset := offset + size + BLOCK_TRAILER_SIZE;
      dataBlock := [];
      pendingIndexEntry := true;
      if filterBlock != null {
        ghost var gs := filterBlock.groups + [filterBlock.pending];
        filterBlock.StartBlock(offset);
        CoversMore(gs, filterBlock.groups + [filterBlock.pending], file);
      }
    }

    // The filter block's contents, if there is one; the index is in indexBlock.
    method Finish(size: nat) returns (contents: Option<seq<byte>>, ghost groups: seq<seq<seq<byte>>>)
      requires Valid()
      requires filterBlock != null ==> |filterBlock.result + FilterOf(filterBlock.policy, filterBlock.pending)| < TWO_32
      modifies this, filterBlock
      ensures closed && items == old(items) && Finished(file, indexBlock, items, ends)
      ensures contents.Some? <==> filterBlock != null
      ensures contents.Some? ==> FilterBlock.Written(contents.value, filterBlock.policy, groups) && FilterKnows(groups, file)
    {
      Flush(size);
      closed := true;
      contents, groups := None, [];
      FinishIndex();
      if filterBlock != null {
        FinishKnows(filterBlock.groups, filterBlock.pending, file);
        var c := filterBlock.Finish();
        contents, groups := Some(c), filterBlock.groups;
      }
    }

    // The last index key is any short one after the last item.
    method FinishIndex()
      requires Written() && dataBlock == [] && (pendingIndexEntry <==> items != [])
      modifies this`indexBlock, this`pendingIndexEntry
      ensures Finished(file, indexBlock, items, ends)
    {
      BuiltIs(file, Index(), items, ends);
      assert ends != [] ==> BlockAt(file, Index(), items, ends, |ends| - 1);
      if pendingIndexEntry {
        ghost var index := Index();
        var last := FindShortKeySuccessor(lastKey);
        LastRekeyed(file, index, items, ends, last);
        indexBlock := indexBlock + [IndexEntry(last, pendingHandle)];
        pendingIndexEntry := false;
        assert indexBlock == Rekeyed(index, last);
      }
    }
  }

  // ---- Looking up -------------------------------------------------------

  // The answer an exhaustive search would give: the first item at or after the key,
  // which may be withheld if it has another user key.
  ghost predicate IsAnswer(items: seq<Item>, k: Key, r: Option<Item>) {
    exists p: nat {:trigger FirstAt(items, KEY_ORDER, k, p)} ::
      FirstAt(items, KEY_ORDER, k, p)
      && match r
         case Some(item) => p < |items| && item == items[p]
         case None => p < |items| ==> items[p].key.user != k.user
  }

  // Index and block searched, the block's last key is before k, which is at most the index
  // key: then what comes in later blocks has another user key.
  lemma PastBlock(items: seq<Item>, end: nat, sep: Key, k: Key)
    requires Ascending(items) && Separates(items, end, sep) && end < |items|
    requires KeyBefore(items[end - 1].key, k) && !KeyBefore(sep, k)
    ensures items[end].key.user != k.user
  {
    assert Clear(items, end, sep, end);
    KeyOrder(sep, k, sep);
    KeyOrder(items[end - 1].key, k, items[end - 1].key);
    BeforeTotal(sep.user, items[end].key.user);
    BeforeTotal(k.user, sep.user);
  }

  lemma FirstExists(items: seq<Item>, k: Key) returns (n: nat)
    ensures FirstAt(items, KEY_ORDER, k, n)
  {
    n := 0;
    while n < |items| && KEY_ORDER(items[n].key, k)
      invariant n <= |items| && forall j {:trigger items[j]} :: 0 <= j < n ==> KEY_ORDER(items[j].key, k)
    {
      n := n + 1;
    }
  }

  lemma FoundPlace(file: File, index: seq<IndexEntry>, items: seq<Item>, ends: seq<nat>, k: Key, i: nat, n: nat)
    requires Finished(file, index, items, ends)
    requires FirstInIndex(index, KEY_ORDER, k, i) && i < |index| && FirstAt(BlockOf(file, index, i), KEY_ORDER, k, n)
    ensures FirstAt(items, KEY_ORDER, k, Begin(ends, i) + n)
  {
    KeyOrderStrict();
    BuiltSeparated(file, index, items, ends);
    AllItems(file, index, items, ends);
    BuiltCat(file, index, items, ends, i);
    var p := Begin(ends, i) + n;
    assert Sought(file, index, KEY_ORDER, k, i, n, p);
    SeekLands(file, index, KEY_ORDER, k, i, n, p);
  }

  lemma AllItems(file: File, index: seq<IndexEntry>, items: seq<Item>, ends: seq<nat>)
    requires Finished(file, index, items, ends)
    ensures All(file, index) == items
  {
    BuiltCat(file, index, items, ends, |index|);
    assert items[..|items|] == items;
  }

  // Place n of block i is the place of the first item at or after k; when the block has no such
  // item, the next one has another user key.
  lemma Found(file: File, index: seq<IndexEntry>, items: seq<Item>, ends: seq<nat>, k: Key, i: nat, n: nat)
    requires Finished(file, index, items, ends)
    requires FirstInIndex(index, KEY_ORDER, k, i) && i < |index| && FirstAt(BlockOf(file, index, i), KEY_ORDER, k, n)
    ensures Begin(ends, i) + n <= |items| && FirstAt(items, KEY_ORDER, k, Begin(ends, i) + n)
    ensures n < |BlockOf(file, index, i)| ==> Begin(ends, i) + n < |items| && items[Begin(ends, i) + n] == BlockOf(file, index, i)[n]
    ensures n == |BlockOf(file, index, i)| && Begin(ends, i) + n < |items| ==> items[Begin(ends, i) + n].key.user != k.user
  {
    BuiltIs(file, index, items, ends);
    FoundPlace(file, index, items, ends, k, i, n);
    assert BlockAt(file, index, items, ends, i);
    var b := BlockOf(file, index, i);
    var p := Begin(ends, i) + n;
    if n == |b| && p < |items| {
      assert b[n - 1] == items[p - 1];
      PastBlock(items, ends[i], index[i].key, k);
    }
  }

  lemma BeyondIndex(file: File, index: seq<IndexEntry>, items: seq<Item>, ends: seq<nat>, k: Key)
    requires Finished(file, index, items, ends) && FirstInIndex(index, KEY_ORDER, k, |index|)
    ensures FirstAt(items, KEY_ORDER, k, |items|)
  {
    KeyOrderStrict();
    BuiltSeparated(file, index, items, ends);
    BuiltCat(file, index, items, ends, |index|);
    assert items[..|items|] == items;
    SeekLands(file, index, KEY_ORDER, k, |index|, 0, |items|);
  }

  class Table {
    const index: seq<IndexEntry>
    const file: File
    const filter: FilterBlockReader?
    ghost const items: seq<Item>
    ghost const ends: seq<nat>
    ghost const groups: seq<seq<seq<byte>>>

    // Opened on what a builder finished.
    ghost predicate Valid() {
      && Finished(file, index, items, ends)
      && (filter != null ==>
            && FilterKnows(groups, file) && NoFalseNegatives(filter.policy) && Written(filter.contents, filter.policy, groups)
            && filter.Opened())
    }

    constructor (index: seq<IndexEntry>, file: File, policy: Option<Policy>, contents: Option<seq<byte>>,
                 ghost items: seq<Item>, ghost ends: seq<nat>, ghost groups: seq<seq<seq<byte>>>)
      requires Finished(file, index, items, ends)
      requires contents.Some? ==> policy.Some? && NoFalseNegatives(policy.value) && Written(contents.value, policy.value, groups) && FilterKnows(groups, file)
      ensures Valid() && this.items == items && this.index == index && this.file == file
    {
      this.index, this.file, this.items, this.ends, this.groups := index, file, items, ends, groups;
      if policy.Some? && contents.Some? {
        filter := new FilterBlockReader(policy.value, contents.value);
      } else {
        filter := null;
      }
    }

    // The entry the index, the filter and the block lead to.
    method InternalGet(k: Key) returns (r: Option<Item>)
      requires Valid()
      ensures IsAnswer(items, k, r)
    {
      var i := SeekIndex(index, KEY_ORDER, k);
      if i == |index| {
        BeyondIndex(file, index, items, ends, k);
        return None;
      }
      var h := index[i].handle;
      if filter != null {
        var may := filter.KeyMayMatch(h.offset, k.user);
        if !may {
          ghost var n := FirstExists(BlockOf(file, index, i), k);
          Found(file, index, items, ends, k, i, n);
          NotThere(h, k.user);
          return None;
        }
      }
      var block := if h in file then file[h] else [];
      var n := SeekBlock(block, KEY_ORDER, k);
      Found(file, index, items, ends, k, i, n);
      r := if n < |block| then Some(block[n]) else None;
    }

    // The filter says yes to what is in the block.
    lemma Knows(h: Handle, j: nat)
      requires Valid() && filter != null && h in file && j < |file[h]|
      ensures Answer(filter.policy, groups, h.offset, file[h][j].key.user)
    {
      AnswerFindsKeys(filter.policy, groups, h.offset, file[h][j].key.user);
    }

    lemma NotThere(h: Handle, user: seq<byte>)
      requires Valid() && filter != null && !Answer(filter.policy, groups, h.offset, user)
      ensures h in file ==> forall j {:trigger file[h][j]} :: 0 <= j < |file[h]| ==> file[h][j].key.user != user
    {
      if h in file {
        forall j | 0 <= j < |file[h]| ensures file[h][j].key.user != user {
          Knows(h, j);
        }
      }
    }

    // The cursor over the whole table.
    method NewIterator() returns (it: TwoLevelIterator)
      requires Valid()
      ensures fresh(it) && it.Valid() && All(it.file, it.index) == items && Separated(it.file, it.index, it.less) && StrictOrder(it.less)
    {
      KeyOrderStrict();
      BuiltSeparated(file, index, items, ends);
      BuiltCat(file, index, items, ends, |index|);
      assert items[..|items|] == items;
      BuiltIs(file, index, items, ends);
      forall i | 0 <= i < |index| ensures index[i].handle in file {
        assert BlockAt(file, index, items, ends, i);
      }
      it := new TwoLevelIterator(index, file, KEY_ORDER);
    }
  }
}
