// The user-visible iterator is one cursor over the sorted map of user keys
// whose newest entry at or below the snapshot is a value (db/db_iter.cc).

module DbIter {
  import opened DbFormat
  import opened Merger

  predicate Visible(e: Entry, s: nat) {
    e.key.sequence <= s
  }

  // Entry i is what the user sees of its user key: visible, a value, and no
  // newer visible entry of the same user key before it.
  ghost predicate Shown(all: seq<Entry>, s: nat, i: int) {
    && 0 <= i < |all| && Visible(all[i], s) && all[i].key.kind == Value
    && forall j {:trigger Visible(all[j], s)} :: (0 <= j < i && Visible(all[j], s)) ==> all[j].key.user != all[i].key.user
  }

  // The indices of the shown entries among the first n, in order.
  ghost function ShownRows(all: seq<Entry>, s: nat, n: nat): (r: seq<int>)
    requires n <= |all|
    ensures forall k {:trigger r[k]} :: 0 <= k < |r| ==> r[k] < n && Shown(all, s, r[k])
    ensures forall k, m {:trigger r[k], r[m]} :: 0 <= k < m < |r| ==> r[k] < r[m]
    ensures forall i {:trigger Shown(all, s, i)} :: (i < n && Shown(all, s, i)) ==> i in r
  {
    if n == 0 then [] else ShownRows(all, s, n - 1) + (if Shown(all, s, n - 1) then [n - 1] else [])
  }

  // rows lists the shown entries, in order.
  ghost predicate IsRows(all: seq<Entry>, s: nat, rows: seq<int>) {
    && (forall k {:trigger rows[k]} :: 0 <= k < |rows| ==> Shown(all, s, rows[k]))
    && (forall k, m {:trigger Precedes(rows, k, m)} :: 0 <= k < m < |rows| ==> Precedes(rows, k, m))
    && (forall i {:trigger Shown(all, s, i)} :: Shown(all, s, i) ==> i in rows)
  }

  ghost predicate Precedes(rows: seq<int>, k: nat, m: nat)
    requires k < |rows| && m < |rows|
  {
    rows[k] < rows[m]
  }

  lemma RowsAreRows(all: seq<Entry>, s: nat)
    ensures IsRows(all, s, ShownRows(all, s, |all|))
  {
    var r := ShownRows(all, s, |all|);
    forall k, m | 0 <= k < m < |r| ensures Precedes(r, k, m) {
      assert r[k] < r[m];
    }
  }

  // The rows are the sorted map a reader at the snapshot expects.
  lemma RowsAreTheView(all: seq<Entry>, s: nat, rows: seq<int>, user: UserKey)
    requires Sorted(all) && Distinct(Elements(all)) && IsRows(all, s, rows)
    ensures View(Elements(all), user, s).Some? <==> exists k {:trigger rows[k]} :: 0 <= k < |rows| && all[rows[k]].key.user == user
    ensures forall k {:trigger rows[k]} :: 0 <= k < |rows| ==>
              all[rows[k]].key.user == user ==> View(Elements(all), user, s) == Some(all[rows[k]].value)
  {
    forall k | 0 <= k < |rows| && all[rows[k]].key.user == user
      ensures View(Elements(all), user, s) == Some(all[rows[k]].value)
    {
      assert Shown(all, s, rows[k]);
      ShownIsNewest(all, s, rows[k]);
    }
    var e := Newest(Elements(all), user, s);
    if e.Some? && e.value.key.kind == Value {
      var i :| 0 <= i < |all| && all[i] == e.value;
      NewestIsShown(all, s, i);
      var k :| 0 <= k < |rows| && rows[k] == i;
    }
  }

  lemma ShownIsNewest(all: seq<Entry>, s: nat, i: int)
    requires Sorted(all) && Distinct(Elements(all)) && Shown(all, s, i)
    ensures Newest(Elements(all), all[i].key.user, s) == Some(all[i])
  {
    forall x | x in Elements(all) && Sees(x, all[i].key.user, s) ensures x.key.sequence <= all[i].key.sequence {
      var j :| 0 <= j < |all| && all[j] == x;
      assert Visible(all[j], s);
      assert i < j ==> Less(all[i].key, all[j].key);
    }
    NewestIs(Elements(all), all[i].key.user, s, all[i]);
  }

  lemma NewestIsShown(all: seq<Entry>, s: nat, i: nat)
    requires Sorted(all) && Distinct(Elements(all)) && i < |all| && all[i].key.kind == Value
    requires IsNewest(Elements(all), all[i].key.user, s, all[i])
    ensures Shown(all, s, i)
  {
    forall j | 0 <= j < i && Visible(all[j], s) ensures all[j].key.user != all[i].key.user {
      assert Less(all[j].key, all[i].key);
      assert all[j] in Elements(all) && (Sees(all[j], all[i].key.user, s) || true);
      assert SameVersion(all[j], all[i]) ==> all[j] == all[i];
    }
  }

  lemma UsersAscend(all: seq<Entry>, i: nat, j: nat)
    requires Sorted(all) && i <= j < |all|
    ensures all[i].key.user <= all[j].key.user
  {
    assert i < j ==> Less(all[i].key, all[j].key);
  }

  // ---- forwards ----

  lemma RowsDiffer(all: seq<Entry>, s: nat, rows: seq<int>, k: nat, m: nat)
    requires Sorted(all) && IsRows(all, s, rows) && k < m < |rows|
    ensures rows[k] < rows[m] && all[rows[k]].key.user < all[rows[m]].key.user
  {
    assert Precedes(rows, k, m);
    assert Visible(all[rows[k]], s);
    UsersAscend(all, rows[k], rows[m]);
  }

  // Row k lies behind a forward scan at child position x.
  ghost predicate Passed(all: seq<Entry>, rows: seq<int>, x: nat, skipping: bool, skip: UserKey, k: nat)
    requires k < |rows| && 0 <= rows[k] < |all|
  {
    rows[k] < x || (skipping && all[rows[k]].key.user <= skip)
  }

  // No entry before x hides entry x unless it is skipped, and none after x is skipped twice.
  ghost predicate SkipsRight(all: seq<Entry>, s: nat, x: nat, skipping: bool, skip: UserKey, j: nat)
    requires j < |all|
  {
    Visible(all[j], s) ==>
      && (j < x < |all| && all[j].key.user == all[x].key.user ==> skipping && all[x].key.user <= skip)
      && (x <= j && skipping ==> all[j].key.user >= skip)
  }

  // The forward scan at child position x is looking for row r.
  ghost predicate Seeking(all: seq<Entry>, s: nat, rows: seq<int>, x: nat, skipping: bool, skip: UserKey, r: nat)
    requires IsRows(all, s, rows) && x <= |all| && r <= |rows|
  {
    && (forall k {:trigger Passed(all, rows, x, skipping, skip, k)} :: 0 <= k < |rows| ==> (Passed(all, rows, x, skipping, skip, k) <==> k < r))
    && (forall j {:trigger SkipsRight(all, s, x, skipping, skip, j)} :: 0 <= j < |all| ==> SkipsRight(all, s, x, skipping, skip, j))
  }

  lemma FoundIsRow(all: seq<Entry>, s: nat, rows: seq<int>, x: nat, skipping: bool, skip: UserKey, r: nat)
    requires IsRows(all, s, rows) && x < |all| && r <= |rows| && Seeking(all, s, rows, x, skipping, skip, r)
    requires Visible(all[x], s) && all[x].key.kind == Value
    requires !(skipping && all[x].key.user <= skip)
    ensures r < |rows| && rows[r] == x
  {
    forall j | 0 <= j < x && Visible(all[j], s) ensures all[j].key.user != all[x].key.user {
      assert SkipsRight(all, s, x, skipping, skip, j);
    }
    assert Shown(all, s, x);
    var k :| 0 <= k < |rows| && rows[k] == x;
    assert !Passed(all, rows, x, skipping, skip, k);
    assert !Passed(all, rows, x, skipping, skip, r) && (r < k ==> Precedes(rows, r, k));
  }

  lemma NoneLeft(all: seq<Entry>, s: nat, rows: seq<int>, skipping: bool, skip: UserKey, r: nat)
    requires IsRows(all, s, rows) && r <= |rows| && Seeking(all, s, rows, |all|, skipping, skip, r)
    ensures r == |rows|
  {
    assert r < |rows| ==> Shown(all, s, rows[r]) && Passed(all, rows, |all|, skipping, skip, r);
  }

  // Entry x cannot be shown under the old skip, and the new one covers it.
  lemma Skips(all: seq<Entry>, s: nat, rows: seq<int>, x: nat, skipping: bool, skip: UserKey, r: nat, skipping1: bool, skip1: UserKey)
    requires Sorted(all) && IsRows(all, s, rows) && x < |all| && r <= |rows| && Seeking(all, s, rows, x, skipping, skip, r)
    requires
      || (!Visible(all[x], s) && skipping1 == skipping && skip1 == skip)
      || (Visible(all[x], s) && skipping && all[x].key.user <= skip && skipping1 && skip1 == skip)
      || (Visible(all[x], s) && all[x].key.kind == Deletion && skipping1 && skip1 == all[x].key.user)
    ensures Seeking(all, s, rows, x + 1, skipping1, skip1, r)
  {
    var y := x + 1;
    forall j | 0 <= j < |all| ensures SkipsRight(all, s, y, skipping1, skip1, j) {
      assert SkipsRight(all, s, x, skipping, skip, j);
      if j <= x {
        UsersAscend(all, j, x);
        assert y < |all| ==> Less(all[x].key, all[y].key);
      } else {
        UsersAscend(all, x, j);
      }
    }
    forall k | 0 <= k < |rows| ensures Passed(all, rows, y, skipping1, skip1, k) <==> k < r {
      assert Passed(all, rows, x, skipping, skip, k) <==> k < r;
      assert SkipsRight(all, s, x, skipping, skip, x);
      assert Shown(all, s, rows[k]) && SkipsRight(all, s, x, skipping, skip, rows[k]);
      if rows[k] <= x {
        UsersAscend(all, rows[k], x);
      } else {
        UsersAscend(all, x, rows[k]);
      }
    }
  }

  // After the current row, skipping its user key.
  lemma NextFromRow(all: seq<Entry>, s: nat, rows: seq<int>, row: nat)
    requires Sorted(all) && IsRows(all, s, rows) && row < |rows|
    ensures Shown(all, s, rows[row])
    ensures Seeking(all, s, rows, rows[row] + 1, true, all[rows[row]].key.user, row + 1)
  {
    var x, skip := rows[row], all[rows[row]].key.user;
    var y := x + 1;
    forall k | 0 <= k < |rows| ensures Passed(all, rows, y, true, skip, k) <==> k < row + 1 {
      if k < row {
        RowsDiffer(all, s, rows, k, row);
      } else if k > row {
        RowsDiffer(all, s, rows, row, k);
      }
    }
    forall j | 0 <= j < |all| ensures SkipsRight(all, s, y, true, skip, j) {
      if j <= x {
        UsersAscend(all, j, x);
      } else {
        UsersAscend(all, x, j);
      }
    }
  }

  // Moving backwards, the child stands before all visible entries of the row's user key.
  ghost predicate Behind(all: seq<Entry>, s: nat, x: nat, at: int)
    requires 0 <= at < |all| && x <= |all|
  {
    && (x < |all| ==> x < at && all[x].key.user < all[at].key.user)
    && forall j {:trigger Visible(all[j], s)} :: (0 <= j < at && (x < |all| ==> x < j)) ==> !Visible(all[j], s)
  }

  lemma NextFromBehind(all: seq<Entry>, s: nat, rows: seq<int>, row: nat, x: nat)
    requires Sorted(all) && IsRows(all, s, rows) && row < |rows| && x <= |all| && Shown(all, s, rows[row]) && Behind(all, s, x, rows[row])
    ensures Seeking(all, s, rows, if x == |all| then 0 else x + 1, true, all[rows[row]].key.user, row + 1)
  {
    var at, y, skip := rows[row], if x == |all| then 0 else x + 1, all[rows[row]].key.user;
    forall k | 0 <= k < |rows| ensures Passed(all, rows, y, true, skip, k) <==> k < row + 1 {
      if k < row {
        RowsDiffer(all, s, rows, k, row);
      } else if k > row {
        RowsDiffer(all, s, rows, row, k);
      }
    }
    UsersAscend(all, y, at);
    forall j | 0 <= j < |all| ensures SkipsRight(all, s, y, true, skip, j) {
      if at <= j {
        UsersAscend(all, at, j);
      }
    }
  }

  lemma SeekIsSeeking(all: seq<Entry>, s: nat, rows: seq<int>, target: UserKey, q: nat, r: nat)
    requires Sorted(all) && IsRows(all, s, rows) && IsLowerBound(all, SeekKey(target, s), q) && r <= |rows|
    requires forall k :: 0 <= k < r ==> rows[k] < q
    requires forall k :: r <= k < |rows| ==> rows[k] >= q
    ensures Seeking(all, s, rows, q, false, 0.0, r)
    ensures forall k {:trigger rows[k]} :: 0 <= k < |rows| ==> (all[rows[k]].key.user < target <==> k < r)
  {
    forall j | 0 <= j < |all| ensures SkipsRight(all, s, q, false, 0.0, j) {
      assert j < q < |all| ==> Less(all[j].key, SeekKey(target, s)) && !Less(all[q].key, SeekKey(target, s));
    }
    forall k | 0 <= k < |rows| ensures all[rows[k]].key.user < target <==> k < r {
      assert Shown(all, s, rows[k]);
      assert k < r <==> Less(all[rows[k]].key, SeekKey(target, s));
    }
  }

  // The rows before an entry come first.
  lemma RowsBefore(all: seq<Entry>, s: nat, rows: seq<int>, q: nat) returns (r: nat)
    requires IsRows(all, s, rows)
    ensures r <= |rows| && (forall k :: 0 <= k < r ==> rows[k] < q) && (forall k :: r <= k < |rows| ==> rows[k] >= q)
  {
    r := 0;
    while r < |rows| && rows[r] < q
      invariant r <= |rows| && forall k :: 0 <= k < r ==> rows[k] < q
    {
      r := r + 1;
    }
    forall k | r <= k < |rows| ensures rows[k] >= q {
      assert r < k ==> Precedes(rows, r, k);
    }
  }

  // ---- backwards ----

  // The child position as a place where a step back from the start is -1.
  function Place(n: nat, x: nat): int {
    if x < n then x else -1
  }

  // r counts the rows at or before place y.
  ghost predicate Counted(rows: seq<int>, y: int, r: nat) {
    && r <= |rows|
    && (forall k {:trigger rows[k]} :: 0 <= k < r ==> rows[k] <= y)
    && (forall k {:trigger rows[k]} :: r <= k < |rows| ==> rows[k] > y)
  }

  // No row in (from, to].
  ghost predicate NoRow(all: seq<Entry>, s: nat, from: int, to: int) {
    forall i {:trigger Shown(all, s, i)} :: from < i <= to ==> !Shown(all, s, i)
  }

  // The scan back from place y0 has come down to y; entry c is the oldest
  // visible one it met, and a value.
  ghost predicate Candidate(all: seq<Entry>, s: nat, y: int, c: int, y0: int) {
    && -1 <= y < c <= y0 < |all| && Visible(all[c], s) && all[c].key.kind == Value
    && (forall j {:trigger Visible(all[j], s)} :: y < j < c ==> !Visible(all[j], s))
    && NoRow(all, s, c, y0)
  }

  // What the scan knows at place y; kind is Deletion when it holds no entry.
  ghost predicate ScanningBack(all: seq<Entry>, s: nat, kind: ValueType, y: int, c: int, y0: int) {
    if kind == Value then Candidate(all, s, y, c, y0) else NoRow(all, s, y, y0)
  }

  lemma StepsBack(all: seq<Entry>, s: nat, y: int, y0: int, kind: ValueType, c: int, kind1: ValueType, c1: int)
    requires Sorted(all) && 0 <= y <= y0 < |all| && ScanningBack(all, s, kind, y, c, y0)
    requires if Visible(all[y], s) then kind1 == all[y].key.kind && c1 == y && (kind == Value ==> all[y].key.user >= all[c].key.user)
             else kind1 == kind && c1 == c
    ensures ScanningBack(all, s, kind1, y - 1, c1, y0)
  {
    if Visible(all[y], s) && kind == Value {
      UsersAscend(all, y, c);
      forall i | y < i <= y0 ensures !Shown(all, s, i) {
        assert i < c ==> !Visible(all[i], s);
      }
    }
  }

  // The scan ends at the start or at an entry of an earlier user key.
  lemma ScanEnds(all: seq<Entry>, s: nat, rows: seq<int>, kind: ValueType, y: int, c: int, y0: int, r: nat)
    requires Sorted(all) && IsRows(all, s, rows) && Counted(rows, y0, r) && -1 <= y <= y0 < |all|
    requires ScanningBack(all, s, kind, y, c, y0)
    requires if kind == Value then y >= 0 ==> all[y].key.user < all[c].key.user else y == -1
    ensures kind == Deletion <==> r == 0
    ensures kind == Value ==> Shown(all, s, c) && rows[r - 1] == c && Behind(all, s, if y == -1 then |all| else y, c)
  {
    if kind == Deletion {
      assert rows != [] ==> Shown(all, s, rows[0]);
    } else {
      forall j | 0 <= j < c && Visible(all[j], s) ensures all[j].key.user != all[c].key.user {
        UsersAscend(all, j, if y < j then j else y);
      }
      assert Shown(all, s, c);
      var k :| 0 <= k < |rows| && rows[k] == c;
      assert Shown(all, s, rows[r - 1]);
      if k < r - 1 { RowsDiffer(all, s, rows, k, r - 1); }
    }
  }

  // All entries in (y, at] belong to the row's user key.
  lemma RunIsCounted(all: seq<Entry>, s: nat, rows: seq<int>, row: nat, at: int, y: int)
    requires Sorted(all) && IsRows(all, s, rows) && row < |rows| && at == rows[row] && -1 <= y < at
    requires forall j {:trigger all[j]} :: y < j <= at ==> all[j].key.user == all[at].key.user
    ensures Counted(rows, y, row)
    ensures y == -1 ==> row == 0
  {
    forall k | 0 <= k < row ensures rows[k] <= y {
      RowsDiffer(all, s, rows, k, row);
    }
    forall k | row <= k < |rows| ensures rows[k] > y {
      assert row < k ==> Precedes(rows, row, k);
    }
    assert row > 0 ==> Shown(all, s, rows[0]);
  }

  lemma BehindIsCounted(all: seq<Entry>, s: nat, rows: seq<int>, row: nat, x: nat)
    requires IsRows(all, s, rows) && row < |rows| && x <= |all| && Shown(all, s, rows[row]) && Behind(all, s, x, rows[row])
    ensures Counted(rows, Place(|all|, x), row)
  {
    forall k | 0 <= k < row ensures rows[k] <= Place(|all|, x) {
      assert Precedes(rows, k, row) && Visible(all[rows[k]], s);
    }
    forall k | row <= k < |rows| ensures rows[k] > Place(|all|, x) {
      assert row < k ==> Precedes(rows, row, k);
    }
  }

  class DBIter {
    const iter: MergingIterator
    const sequence: nat
    ghost const rows: seq<int>  // the map the user iterates over
    var forward: bool
    var valid: bool
    var savedKey: UserKey
    var savedValue: seq<byte>
    ghost var row: nat          // the cursor: index into rows, their number when not valid

    ghost predicate Valid()
      reads this, iter, iter.pos
    {
      && iter.Valid() && IsRows(iter.all, sequence, rows)
      && row <= |rows| && (valid <==> row < |rows|)
      && (valid && forward ==> iter.cursor == rows[row])
      && (valid && !forward ==>
            && Shown(iter.all, sequence, rows[row]) && Behind(iter.all, sequence, iter.cursor, rows[row])
            && savedKey == iter.all[rows[row]].key.user && savedValue == iter.all[rows[row]].value)
    }

    constructor (iter: MergingIterator, sequence: nat)
      requires iter.Valid()
      ensures Valid() && !valid && this.iter == iter && this.sequence == sequence
      ensures rows == ShownRows(iter.all, sequence, |iter.all|)
    {
      this.iter, this.sequence, this.rows := iter, sequence, ShownRows(iter.all, sequence, |iter.all|);
      forward, valid, savedKey, savedValue := true, false, 0.0, [];
      row := |ShownRows(iter.all, sequence, |iter.all|)|;
      RowsAreRows(iter.all, sequence);
    }

    function Key(): (k: UserKey)
      requires Valid() && valid
      reads this, iter, iter.pos
      ensures k == iter.all[rows[row]].key.user
    {
      if forward then iter.Entry().key.user else savedKey
    }

    function GetValue(): (v: seq<byte>)
      requires Valid() && valid
      reads this, iter, iter.pos
      ensures v == iter.all[rows[row]].value
    {
      if forward then iter.Entry().value else savedValue
    }

    method FindNextUserEntry(skipping0: bool, skip0: UserKey, ghost r: nat)
      requires iter.Valid() && IsRows(iter.all, sequence, rows) && r <= |rows|
      requires Seeking(iter.all, sequence, rows, iter.cursor, skipping0, skip0, r)
      modifies this, iter`current, iter`cursor, iter`forward, iter.pos
      ensures Valid() && row == r && forward
    {
      var skipping, skip := skipping0, skip0;
      forward := true;
      while iter.current.Some?
        invariant iter.Valid() && forward && Seeking(iter.all, sequence, rows, iter.cursor, skipping, skip, r)
        decreases |iter.all| - iter.cursor
      {
        var e := iter.Entry();
        ghost var skipping1, skip1 := skipping, skip;
        if e.key.sequence <= sequence {
          if e.key.kind == Deletion {
            // hide everything older of this user key
            skip := e.key.user;
            skipping := true;
          } else if skipping && e.key.user <= skip {
            // entry hidden
          } else {
            FoundIsRow(iter.all, sequence, rows, iter.cursor, skipping, skip, r);
            valid, row, savedKey := true, r, 0.0;
            return;
          }
        }
        Skips(iter.all, sequence, rows, iter.cursor, skipping1, skip1, r, skipping, skip);
        iter.Next();
      }
      NoneLeft(iter.all, sequence, rows, skipping, skip, r);
      valid, row, savedKey := false, r, 0.0;
    }

    method Next()
      requires Valid() && valid
      modifies this, iter`current, iter`cursor, iter`forward, iter.pos
      ensures Valid() && row == old(row) + 1
    {
      if !forward {
        // the child stands just before the entries of the current key
        NextFromBehind(iter.all, sequence, rows, row, iter.cursor);
        forward := true;
        if iter.current.None? {
          iter.SeekToFirst();
        } else {
          iter.Next();
        }
      } else {
        NextFromRow(iter.all, sequence, rows, row);
        savedKey := iter.Entry().key.user;
        iter.Next();
      }
      FindNextUserEntry(true, savedKey, row + 1);
    }

    method FindPrevUserEntry(ghost r: nat)
      requires iter.Valid() && IsRows(iter.all, sequence, rows) && Counted(rows, Place(|iter.all|, iter.cursor), r) && !forward
      modifies this, iter`current, iter`cursor, iter`forward, iter.pos
      ensures Valid() && row == (if r == 0 then |rows| else r - 1)
    {
      var kind := Deletion;
      ghost var y0, c := Place(|iter.all|, iter.cursor), 0;
      ghost var y := y0;
      while iter.current.Some?
        invariant iter.Valid() && y == Place(|iter.all|, iter.cursor) && y <= y0 < |iter.all| && !forward
        invariant ScanningBack(iter.all, sequence, kind, y, c, y0)
        invariant kind == Value ==> savedKey == iter.all[c].key.user && savedValue == iter.all[c].value
        decreases y + 1
      {
        var e := iter.Entry();
        ghost var kind1, c1 := kind, c;
        if e.key.sequence <= sequence {
          if kind != Deletion && e.key.user < savedKey {
            break;
          }
          kind := e.key.kind;
          if kind == Deletion {
            savedKey, savedValue := 0.0, [];
          } else {
            savedKey, savedValue := e.key.user, e.value;
          }
          c := y;
        }
        StepsBack(iter.all, sequence, y, y0, kind1, c1, kind, c);
        iter.Prev();
        y := y - 1;
      }
      ScanEnds(iter.all, sequence, rows, kind, y, c, y0, r);
      if kind == Deletion {
        valid, savedKey, savedValue, forward, row := false, 0.0, [], true, |rows|;
      } else {
        valid, row := true, r - 1;
      }
    }

    // Scan backwards until the key changes.
    method LeaveCurrentKey() returns (left: bool)
      requires Valid() && valid && forward
      modifies this`savedKey, iter`current, iter`cursor, iter`forward, iter.pos
      ensures iter.Valid() && left == iter.current.Some?
      ensures Counted(rows, Place(|iter.all|, iter.cursor), row)
      ensures !left ==> row == 0
    {
      savedKey := iter.Entry().key.user;
      ghost var at, y := iter.cursor as int, iter.cursor as int;
      while true
        invariant iter.Valid() && y == Place(|iter.all|, iter.cursor) && 0 <= y <= at < |iter.all|
        invariant forall j {:trigger iter.all[j]} :: y <= j <= at ==> iter.all[j].key.user == savedKey
        decreases y
      {
        iter.Prev();
        y := y - 1;
        if iter.current.None? {
          RunIsCounted(iter.all, sequence, rows, row, at, y);
          return false;
        }
        if iter.Entry().key.user < savedKey {
          RunIsCounted(iter.all, sequence, rows, row, at, y);
          return true;
        }
        UsersAscend(iter.all, y, at);
      }
    }

    method Prev()
      requires Valid() && valid
      modifies this, iter`current, iter`cursor, iter`forward, iter.pos
      ensures Valid() && row == (if old(row) == 0 then |rows| else old(row) - 1)
    {
      if forward {
        var left := LeaveCurrentKey();
        if !left {
          valid, savedKey, savedValue, row := false, 0.0, [], |rows|;
          return;
        }
        forward := false;
      } else {
        BehindIsCounted(iter.all, sequence, rows, row, iter.cursor);
      }
      FindPrevUserEntry(row);
    }

    // Seek to the first row whose user key is at or after the target.
    method Seek(target: UserKey)
      requires Valid()
      modifies this, iter`current, iter`cursor, iter`forward, iter.pos
      ensures Valid() && forall k {:trigger rows[k]} :: 0 <= k < |rows| ==> (iter.all[rows[k]].key.user < target <==> k < row)
    {
      forward, savedValue, savedKey := true, [], 0.0;
      iter.Seek(SeekKey(target, sequence));
      ghost var r := RowsBefore(iter.all, sequence, rows, iter.cursor);
      SeekIsSeeking(iter.all, sequence, rows, target, iter.cursor, r);
      FindNextUserEntry(false, savedKey, r);
    }

    method SeekToFirst()
      requires Valid()
      modifies this, iter`current, iter`cursor, iter`forward, iter.pos
      ensures Valid() && row == 0
    {
      forward, savedValue := true, [];
      iter.SeekToFirst();
      FindNextUserEntry(false, savedKey, 0);
    }

    method SeekToLast()
      requires Valid()
      modifies this, iter`current, iter`cursor, iter`forward, iter.pos
      ensures Valid() && row == (if rows == [] then 0 else |rows| - 1)
    {
      forward, savedValue := false, [];
      iter.SeekToLast();
      FindPrevUserEntry(|rows|);
    }
  }
}
