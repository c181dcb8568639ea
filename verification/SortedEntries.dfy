// Sorted lists of entries and the union of several of them.

module SortedEntries {
  import opened DbFormat
  import opened Merger

  function InsertEntry(e: Entry, es: seq<Entry>): seq<Entry> {
    if es == [] || Less(e.key, es[0].key) then [e] + es else [es[0]] + InsertEntry(e, es[1..])
  }

  lemma PrependEntry(e: Entry, es: seq<Entry>)
    requires Sorted(es) && forall x {:trigger x in Elements(es)} :: x in Elements(es) ==> Less(e.key, x.key)
    ensures Sorted([e] + es) && Elements([e] + es) == {e} + Elements(es)
  {
    var r := [e] + es;
    forall i, j | 0 <= i < j < |r| ensures Less(r[i].key, r[j].key) {
      assert r[j] == es[j - 1] && es[j - 1] in Elements(es);
      assert i > 0 ==> Less(es[i - 1].key, es[j - 1].key);
    }
  }

  lemma EntryTail(es: seq<Entry>)
    requires Sorted(es) && es != []
    ensures Sorted(es[1..]) && Elements(es) == {es[0]} + Elements(es[1..])
    ensures forall x {:trigger x in Elements(es[1..])} :: x in Elements(es[1..]) ==> Less(es[0].key, x.key)
  {
    var t := es[1..];
    forall i, j | 0 <= i < j < |t| ensures Less(t[i].key, t[j].key) {
      assert Less(es[i + 1].key, es[j + 1].key);
    }
    forall x | x in Elements(t) ensures Less(es[0].key, x.key) {
      var i :| 0 <= i < |t| && t[i] == x;
      assert Less(es[0].key, es[i + 1].key);
    }
    assert es == [es[0]] + t;
  }

  lemma {:induction false} InsertEntryIs(e: Entry, es: seq<Entry>)
    requires Sorted(es) && forall x {:trigger x in Elements(es)} :: x in Elements(es) ==> Less(x.key, e.key) || Less(e.key, x.key)
    ensures Sorted(InsertEntry(e, es)) && Elements(InsertEntry(e, es)) == Elements(es) + {e}
  {
    if es != [] {
      EntryTail(es);
      if Less(e.key, es[0].key) {
        PrependEntry(e, es);
      } else {
        assert es[0] in Elements(es);
        InsertEntryIs(e, es[1..]);
        PrependEntry(es[0], InsertEntry(e, es[1..]));
      }
    }
  }

  lemma {:induction false} SortSet(S: set<Entry>) returns (es: seq<Entry>)
    requires Distinct(S)
    ensures Sorted(es) && Elements(es) == S
    decreases S
  {
    if S == {} {
      es := [];
    } else {
      var e :| e in S;
      var rest := SortSet(S - {e});
      forall x | x in Elements(rest) ensures Less(x.key, e.key) || Less(e.key, x.key) {
        assert x in S && x != e && !SameVersion(x, e);
      }
      InsertEntryIs(e, rest);
      es := InsertEntry(e, rest);
    }
  }

  lemma NoElements(es: seq<Entry>)
    ensures Elements(es) == {} <==> es == []
  {
    assert es != [] ==> es[0] in Elements(es);
  }

  // A sorted list is determined by what is in it.
  lemma {:induction false} SortedOnce(a: seq<Entry>, b: seq<Entry>)
    requires Sorted(a) && Sorted(b) && Elements(a) == Elements(b)
    ensures a == b
    decreases |a|
  {
    NoElements(a);
    NoElements(b);
    if a != [] {
      assert a[0] in Elements(b);
      EntryTail(a);
      EntryTail(b);
      assert b[0] in Elements(a);
      assert Elements(a[1..]) == Elements(a) - {a[0]} && Elements(b[1..]) == Elements(b) - {b[0]};
      SortedOnce(a[1..], b[1..]);
    }
  }

  // ---- Several lists ----------------------------------------------------

  // The lists are sorted, hold exactly S and share no entry.
  ghost predicate Covering(lists: seq<seq<Entry>>, S: set<Entry>) {
    && (forall i {:trigger lists[i]} :: 0 <= i < |lists| ==> Sorted(lists[i]))
    && (forall i, j {:trigger lists[i][j]} :: 0 <= i < |lists| && 0 <= j < |lists[i]| ==> lists[i][j] in S)
    && (forall e {:trigger e in S} :: e in S ==> exists i, j :: 0 <= i < |lists| && 0 <= j < |lists[i]| && lists[i][j] == e)
    && (forall i, j, k, m {:trigger Shared(lists, i, j, k, m)} :: Shared(lists, i, j, k, m) ==> i == k && j == m)
  }

  ghost predicate Shared(lists: seq<seq<Entry>>, i: int, j: int, k: int, m: int) {
    0 <= i < |lists| && 0 <= j < |lists[i]| && 0 <= k < |lists| && 0 <= m < |lists[k]| && lists[i][j] == lists[k][m]
  }

  lemma SortedHasNoRepeats(l: seq<Entry>, j: nat, m: nat)
    requires Sorted(l) && j < |l| && m < |l| && l[j] == l[m]
    ensures j == m
  {
    assert j < m ==> Less(l[j].key, l[m].key);
    assert m < j ==> Less(l[m].key, l[j].key);
  }

  lemma AddList(lists: seq<seq<Entry>>, S: set<Entry>, l: seq<Entry>)
    requires Covering(lists, S) && Sorted(l) && Elements(l) !! S
    ensures Covering(lists + [l], S + Elements(l))
  {
    var r, n := lists + [l], |lists|;
    forall e | e in S + Elements(l) ensures exists i, j :: 0 <= i < |r| && 0 <= j < |r[i]| && r[i][j] == e {
      if e in S {
        var i, j :| 0 <= i < |lists| && 0 <= j < |lists[i]| && lists[i][j] == e;
        assert r[i][j] == e;
      } else {
        var j :| 0 <= j < |l| && l[j] == e;
        assert r[n][j] == e;
      }
    }
    forall i, j | 0 <= i < |r| && 0 <= j < |r[i]| ensures if i < n then r[i][j] == lists[i][j] && r[i][j] in S else r[i][j] in Elements(l) {
    }
    forall i, j, k, m | Shared(r, i, j, k, m) ensures i == k && j == m {
      if i < n && k < n {
        assert Shared(lists, i, j, k, m);
      } else if i == n && k == n {
        SortedHasNoRepeats(l, j, m);
      }
    }
  }

  lemma UnionOf(lists: seq<seq<Entry>>, S: set<Entry>) returns (all: seq<Entry>)
    requires Covering(lists, S) && Distinct(S)
    ensures IsUnion(lists, all) && Elements(all) == S
  {
    all := SortSet(S);
    assert forall e :: e in all <==> e in Elements(all);
    forall i, j, k, m | 0 <= i < |lists| && 0 <= j < |lists[i]| && 0 <= k < |lists| && 0 <= m < |lists[k]| && lists[i][j] == lists[k][m]
      ensures i == k && j == m
    {
      assert Shared(lists, i, j, k, m);
    }
  }
}
