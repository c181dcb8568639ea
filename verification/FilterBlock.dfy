// The filter block of a table: one filter for every 2 KB of file offset in
// which a data block starts (table/filter_block.cc).

module FilterBlock {
  import opened DbFormat
  import opened Coding
  import opened BlockFormat
  import Bloom

  datatype Policy = Policy(create: seq<seq<byte>> -> seq<byte>, mayMatch: (seq<byte>, seq<byte>) -> bool)

  // What a filter policy owes its users.
  ghost predicate NoFalseNegatives(p: Policy) {
    forall keys, key {:trigger p.mayMatch(key, p.create(keys))} :: key in keys ==> p.mayMatch(key, p.create(keys))
  }

  // A policy that builds Bloom filters keeps the promise.
  lemma BloomNeverMisses(p: Policy, hash: Bloom.Hash, k: nat)
    requires forall keys {:trigger p.create(keys)} :: keys != [] ==> Bloom.IsFilter(hash, keys, k, p.create(keys))
    requires forall key, f {:trigger p.mayMatch(key, f)} :: p.mayMatch(key, f) == Bloom.MayMatch(hash, key, f)
    ensures NoFalseNegatives(p)
  {
    forall keys, key | key in keys ensures p.mayMatch(key, p.create(keys)) {
      Bloom.FilterAnswers(hash, keys, k, p.create(keys), key);
    }
  }

  const FILTER_BASE_LG: byte := 11
  const FILTER_BASE: nat := 2048

  function FilterOf(p: Policy, group: seq<seq<byte>>): seq<byte> {
    if group == [] then [] else p.create(group)
  }

  function Limit(offsets: seq<nat>, size: nat, g: nat): nat
    requires g < |offsets|
  {
    if g + 1 < |offsets| then offsets[g + 1] else size
  }

  ghost predicate FilterAt(p: Policy, result: seq<byte>, offsets: seq<nat>, groups: seq<seq<seq<byte>>>, g: nat) {
    && g < |offsets| && g < |groups| && offsets[g] <= Limit(offsets, |result|, g) <= |result|
    && result[offsets[g]..Limit(offsets, |result|, g)] == FilterOf(p, groups[g])
  }

  // Filter g is over the keys of group g.
  ghost predicate Filters(p: Policy, result: seq<byte>, offsets: seq<nat>, groups: seq<seq<seq<byte>>>) {
    && |offsets| == |groups|
    && forall g: nat {:trigger FilterAt(p, result, offsets, groups, g)} :: g < |groups| ==> FilterAt(p, result, offsets, groups, g)
  }

  lemma FilterAdded(p: Policy, result: seq<byte>, offsets: seq<nat>, groups: seq<seq<seq<byte>>>, group: seq<seq<byte>>)
    requires Filters(p, result, offsets, groups)
    ensures Filters(p, result + FilterOf(p, group), offsets + [|result|], groups + [group])
  {
    var r, o, gs := result + FilterOf(p, group), offsets + [|result|], groups + [group];
    forall g: nat | g < |gs| ensures FilterAt(p, r, o, gs, g) {
      if g < |groups| {
        assert FilterAt(p, result, offsets, groups, g);
        assert Limit(o, |r|, g) == Limit(offsets, |result|, g);
        assert r[offsets[g]..Limit(o, |r|, g)] == result[offsets[g]..Limit(o, |r|, g)];
      } else {
        assert r[|result|..|r|] == FilterOf(p, group);
      }
    }
  }

  // Keys laid end to end.
  function Flat(keys: seq<seq<byte>>): seq<byte> {
    if keys == [] then [] else Flat(keys[..|keys| - 1]) + keys[|keys| - 1]
  }

  function StartOf(keys: seq<seq<byte>>, i: nat): nat
    requires i <= |keys|
  {
    |Flat(keys[..i])|
  }

  lemma {:induction false} FlatAt(keys: seq<seq<byte>>, i: nat)
    requires i < |keys|
    ensures StartOf(keys, i) <= StartOf(keys, i + 1) <= |Flat(keys)|
    ensures Flat(keys)[StartOf(keys, i)..StartOf(keys, i + 1)] == keys[i]
  {
    var n := |keys| - 1;
    assert keys[..i + 1][..i] == keys[..i] && keys[..i + 1][i] == keys[i];
    if i < n {
      var rest := keys[..n];
      FlatAt(rest, i);
      assert rest[..i] == keys[..i] && rest[..i + 1] == keys[..i + 1];
      assert Flat(keys)[StartOf(keys, i)..StartOf(keys, i + 1)] == Flat(rest)[StartOf(rest, i)..StartOf(rest, i + 1)];
    } else {
      assert keys[..n + 1] == keys;
    }
  }

  class FilterBlockBuilder {
    const policy: Policy
    var keys: seq<byte>            // keys of the filter to come, flattened
    var start: seq<nat>            // where each of them starts
    var result: seq<byte>
    var filterOffsets: seq<nat>
    ghost var pending: seq<seq<byte>>
    ghost var groups: seq<seq<seq<byte>>>

    ghost predicate Valid()
      reads this
    {
      && Filters(policy, result, filterOffsets, groups)
      && keys == Flat(pending) && |start| == |pending|
      && forall i: nat {:trigger start[i]} :: i < |start| ==> start[i] == StartOf(pending, i)
    }

    constructor (policy: Policy)
      ensures Valid() && groups == [] && pending == [] && this.policy == policy
    {
      this.policy, keys, start, result, filterOffsets := policy, [], [], [], [];
      pending, groups := [], [];
    }

    // The keys so far make up one filter, if a boundary lies before the next block;
    // boundaries passed over get filters without keys.
    method StartBlock(blockOffset: nat)
      requires Valid() && blockOffset / FILTER_BASE >= |groups|
      modifies this
      ensures Valid() && |groups| == blockOffset / FILTER_BASE
      ensures groups == old(groups) ==> pending == old(pending)
      ensures |groups| > |old(groups)| ==> pending == [] && groups[..|old(groups)| + 1] == old(groups) + [old(pending)]
      ensures old(groups) <= groups && forall g :: |old(groups)| < g < |groups| ==> groups[g] == []
      ensures result + FilterOf(policy, pending) == old(result) + FilterOf(policy, old(pending))
    {
      var filterIndex := blockOffset / FILTER_BASE;
      while filterIndex > |filterOffsets|
        invariant Valid() && |groups| <= filterIndex && old(groups) <= groups
        invariant groups == old(groups) ==> pending == old(pending)
        invariant |groups| > |old(groups)| ==> pending == [] && groups[..|old(groups)| + 1] == old(groups) + [old(pending)]
        invariant forall g :: |old(groups)| < g < |groups| ==> groups[g] == []
        invariant result + FilterOf(policy, pending) == old(result) + FilterOf(policy, old(pending))
      {
        GenerateFilter();
      }
    }

    method AddKey(key: seq<byte>)
      requires Valid()
      modifies this
      ensures Valid() && pending == old(pending) + [key] && groups == old(groups)
    {
      assert (pending + [key])[..|pending|] == pending;
      forall i: nat | i < |start| ensures start[i] == StartOf(pending + [key], i) {
        assert (pending + [key])[..i] == pending[..i];
      }
      start := start + [|keys|];
      keys := keys + key;
      pending := pending + [key];
    }

    method GenerateFilter()
      requires Valid()
      modifies this
      ensures Valid() && pending == [] && groups == old(groups) + [old(pending)]
      ensures result == old(result) + FilterOf(policy, old(pending))
    {
      FilterAdded(policy, result, filterOffsets, groups, pending);
      if start == [] {
        filterOffsets := filterOffsets + [|result|];
        groups := groups + [pending];
        assert result + [] == result;
        return;
      }
      var tmpKeys := CollectKeys();
      filterOffsets := filterOffsets + [|result|];
      result := result + policy.create(tmpKeys);
      groups := groups + [pending];
      keys, start, pending := [], [], [];
    }

    // The list of keys from the flattened structure.
    method CollectKeys() returns (tmpKeys: seq<seq<byte>>)
      requires Valid()
      ensures tmpKeys == pending
    {
      var ends := start + [|keys|];
      tmpKeys := [];
      var i: nat := 0;
      while i < |start|
        invariant i <= |start| && tmpKeys == pending[..i]
      {
        FlatAt(pending, i);
        assert ends[i + 1] == StartOf(pending, i + 1) by {
          assert pending[..|pending|] == pending;
        }
        tmpKeys := tmpKeys + [keys[ends[i]..ends[i + 1]]];
        i := i + 1;
      }
      assert pending[..i] == pending;
    }

    // The filters, their offsets, where the offsets start, and the encoding parameter.
    method Finish() returns (contents: seq<byte>)
      requires Valid() && |result| + |FilterOf(policy, pending)| < TWO_32
      modifies this
      ensures Valid() && groups == (if old(pending) == [] then old(groups) else old(groups) + [old(pending)])
      ensures |groups| == |filterOffsets| && Written(contents, policy, groups)
    {
      if start != [] {
        GenerateFilter();
      }
      var arrayOffset := |result|;
      var data, offsets := result, filterOffsets;
      forall i | 0 <= i < |offsets| ensures offsets[i] < TWO_32 {
        assert FilterAt(policy, result, offsets, groups, i);
      }
      contents := result;
      var i: nat := 0;
      while i < |filterOffsets|
        invariant i <= |filterOffsets| && contents == data + Trailer(offsets[..i])
      {
        assert offsets[..i + 1][..i] == offsets[..i];
        contents := contents + EncodeFixed32(filterOffsets[i]);
        i := i + 1;
      }
      assert offsets[..i] == offsets;
      contents := contents + EncodeFixed32(arrayOffset);
      contents := contents + [FILTER_BASE_LG];
      assert contents == FilterContents(data, offsets);
    }
  }

  function FilterContents(result: seq<byte>, offsets: seq<nat>): seq<byte>
    requires |result| < TWO_32 && forall i :: 0 <= i < |offsets| ==> offsets[i] < TWO_32
  {
    result + Trailer(offsets) + EncodeFixed32(|result|) + [FILTER_BASE_LG]
  }

  // A finished filter block with one filter for each group.
  ghost predicate Written(contents: seq<byte>, p: Policy, groups: seq<seq<seq<byte>>>) {
    exists result, offsets {:trigger Filters(p, result, offsets, groups)} ::
      Filters(p, result, offsets, groups) && |result| < TWO_32 && (forall i :: 0 <= i < |offsets| ==> offsets[i] < TWO_32)
      && contents == FilterContents(result, offsets)
  }

  // What a reader answers about a key of the data block at an offset.
  ghost function Answer(p: Policy, groups: seq<seq<seq<byte>>>, blockOffset: nat, key: seq<byte>): bool {
    var g := blockOffset / FILTER_BASE;
    g < |groups| ==> p.mayMatch(key, FilterOf(p, groups[g]))
  }

  // A key added after the last StartBlock(offset) before the next is found.
  lemma AnswerFindsKeys(p: Policy, groups: seq<seq<seq<byte>>>, blockOffset: nat, key: seq<byte>)
    requires NoFalseNegatives(p)
    requires blockOffset / FILTER_BASE < |groups| ==> key in groups[blockOffset / FILTER_BASE]
    ensures Answer(p, groups, blockOffset, key)
  {
  }

  // Word i of the offset array; the word after the last offset says where the array starts.
  lemma FilterWords(result: seq<byte>, offsets: seq<nat>, i: nat)
    requires |result| < TWO_32 && (forall j :: 0 <= j < |offsets| ==> offsets[j] < TWO_32) && i <= |offsets|
    ensures var c := FilterContents(result, offsets);
            && |c| == |result| + 4 * |offsets| + 5
            && DecodeFixed32(c[|result| + 4 * i..]) == if i < |offsets| then offsets[i] else |result|
  {
    var c := FilterContents(result, offsets);
    var at := |result| + 4 * i;
    if i < |offsets| {
      TrailerAt(offsets, i);
      assert c[at..at + 4] == Trailer(offsets)[4 * i..4 * i + 4];
      assert c[at..] == EncodeFixed32(offsets[i]) + c[at + 4..];
      Fixed32RoundTrip(offsets[i], c[at + 4..]);
    } else {
      assert c[at..] == EncodeFixed32(|result|) + [FILTER_BASE_LG];
      Fixed32RoundTrip(|result|, [FILTER_BASE_LG]);
    }
  }

  class FilterBlockReader {
    const policy: Policy
    const contents: seq<byte>
    const offset: nat      // where the offset array starts
    const num: nat
    const baseLg: nat

    constructor (policy: Policy, contents: seq<byte>)
      ensures this.policy == policy && this.contents == contents
      ensures Opened()
    {
      this.policy, this.contents := policy, contents;
      var n := |contents|;
      if n >= 5 {
        baseLg := contents[n - 1];
        var lastWord := DecodeFixed32(contents[n - 5..]);
        if lastWord <= n - 5 {
          offset, num := lastWord, (n - 5 - lastWord) / 4;
        } else {
          offset, num := 0, 0;
        }
      } else {
        offset, num, baseLg := 0, 0, 0;
      }
    }

    // As the constructor leaves it, for any contents.
    predicate Opened() {
      if Malformed(contents) then num == 0
      else offset == LastWord(contents) && num == (|contents| - 5 - offset) / 4 && baseLg == contents[|contents| - 1]
    }

    // Errors are treated as potential matches.
    method KeyMayMatch(blockOffset: nat, key: seq<byte>) returns (r: bool)
      requires Opened()
      ensures !r <==> Denies(policy, contents, blockOffset, key)
      ensures forall groups {:trigger Written(contents, policy, groups)} ::
                Written(contents, policy, groups) ==> r == Answer(policy, groups, blockOffset, key)
    {
      forall groups | Written(contents, policy, groups)
        ensures Answer(policy, groups, blockOffset, key) <==> !Denies(policy, contents, blockOffset, key)
      {
        WrittenAnswers(contents, policy, groups, blockOffset, key);
      }
      var index := blockOffset / Pow2(baseLg);
      if index < num {
        var start := DecodeFixed32(contents[offset + 4 * index..]);
        var limit := DecodeFixed32(contents[offset + 4 * index + 4..]);
        if start <= limit <= offset {
          return policy.mayMatch(key, contents[start..limit]);
        } else if start == limit {
          return false;
        }
      }
      return true;
    }
  }

  function LastWord(contents: seq<byte>): nat
    requires |contents| >= 5
  {
    DecodeFixed32(contents[|contents| - 5..])
  }

  // No offset array is found.
  predicate Malformed(contents: seq<byte>) {
    |contents| < 5 || LastWord(contents) > |contents| - 5
  }

  // The block at the offset has a filter, and the filter does not match or is an
  // empty one out of place.
  ghost predicate Denies(p: Policy, contents: seq<byte>, blockOffset: nat, key: seq<byte>) {
    !Malformed(contents)
    && var offset := LastWord(contents);
    var index := blockOffset / Pow2(contents[|contents| - 1]);
    index < (|contents| - 5 - offset) / 4 && PairDenies(p, contents, offset, index, key)
  }

  ghost predicate PairDenies(p: Policy, contents: seq<byte>, offset: nat, index: nat, key: seq<byte>)
    requires offset + 4 * index + 8 <= |contents|
  {
    var start, limit := DecodeFixed32(contents[offset + 4 * index..]), DecodeFixed32(contents[offset + 4 * index + 4..]);
    if start <= limit <= offset then !p.mayMatch(key, contents[start..limit]) else start == limit
  }

  lemma GroupDenies(contents: seq<byte>, p: Policy, groups: seq<seq<seq<byte>>>, index: nat, key: seq<byte>)
    requires Written(contents, p, groups) && |contents| >= 5 && LastWord(contents) + 4 * |groups| + 5 == |contents| && index < |groups|
    ensures PairDenies(p, contents, LastWord(contents), index, key) <==> !p.mayMatch(key, FilterOf(p, groups[index]))
  {
    Words(contents, p, groups, index);
  }

  // On a finished block that is what the filter of the block's group says.
  lemma WrittenAnswers(contents: seq<byte>, p: Policy, groups: seq<seq<seq<byte>>>, blockOffset: nat, key: seq<byte>)
    requires Written(contents, p, groups)
    ensures Answer(p, groups, blockOffset, key) <==> !Denies(p, contents, blockOffset, key)
  {
    ReaderFits(contents, p, groups);
    var index := blockOffset / FILTER_BASE;
    if index < |groups| {
      GroupDenies(contents, p, groups, index, key);
    }
  }

  lemma Shift11(lg: nat)
    requires lg == FILTER_BASE_LG
    ensures Pow2(lg) == FILTER_BASE
  {
    Pow2Seven(lg - 7);
    assert Pow2(lg - 7) == 2 * Pow2(lg - 8) == 4 * Pow2(lg - 9) == 8 * Pow2(lg - 10) == 16 * Pow2(lg - 11);
  }

  // What a reader finds in the header of a finished block.
  lemma ReaderFits(contents: seq<byte>, p: Policy, groups: seq<seq<seq<byte>>>)
    requires Written(contents, p, groups)
    ensures |contents| >= 5 && contents[|contents| - 1] == FILTER_BASE_LG && Pow2(contents[|contents| - 1]) == FILTER_BASE
    ensures var offset := DecodeFixed32(contents[|contents| - 5..]);
            offset <= |contents| - 5 && (|contents| - 5 - offset) / 4 == |groups| && offset + 4 * |groups| + 5 == |contents|
  {
    var result, offsets :| Filters(p, result, offsets, groups) && |result| < TWO_32
      && (forall i :: 0 <= i < |offsets| ==> offsets[i] < TWO_32) && contents == FilterContents(result, offsets);
    FilterWords(result, offsets, |offsets|);
    Shift11(contents[|contents| - 1]);
  }

  // Two neighbouring words enclose a filter.
  lemma Words(contents: seq<byte>, p: Policy, groups: seq<seq<seq<byte>>>, g: nat)
    requires Written(contents, p, groups) && |contents| >= 5 && g < |groups|
    requires DecodeFixed32(contents[|contents| - 5..]) + 4 * |groups| + 5 == |contents|
    ensures var offset := DecodeFixed32(contents[|contents| - 5..]);
            var start, limit := DecodeFixed32(contents[offset + 4 * g..]), DecodeFixed32(contents[offset + 4 * g + 4..]);
            start <= limit <= offset && contents[start..limit] == FilterOf(p, groups[g])
  {
    var result, offsets :| Filters(p, result, offsets, groups) && |result| < TWO_32
      && (forall i :: 0 <= i < |offsets| ==> offsets[i] < TWO_32) && contents == FilterContents(result, offsets);
    FilterWords(result, offsets, |offsets|);
    assert FilterAt(p, result, offsets, groups, g);
    TwoWords(contents, result, offsets, g);
  }

  lemma TwoWords(contents: seq<byte>, result: seq<byte>, offsets: seq<nat>, g: nat)
    requires |result| < TWO_32 && (forall j :: 0 <= j < |offsets| ==> offsets[j] < TWO_32) && g < |offsets|
    requires contents == FilterContents(result, offsets) && offsets[g] <= Limit(offsets, |result|, g) <= |result|
    ensures |contents| == |result| + 4 * |offsets| + 5
    ensures DecodeFixed32(contents[|result| + 4 * g..]) == offsets[g]
    ensures DecodeFixed32(contents[|result| + 4 * g + 4..]) == Limit(offsets, |result|, g)
    ensures contents[offsets[g]..Limit(offsets, |result|, g)] == result[offsets[g]..Limit(offsets, |result|, g)]
  {
    FilterWords(result, offsets, g);
    FilterWords(result, offsets, g + 1);
    assert |result| + 4 * (g + 1) == |result| + 4 * g + 4;
  }
}
