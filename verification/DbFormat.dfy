// Internal keys, entries and the meaning of a set of entries at a snapshot
// (db/dbformat.h, db/dbformat.cc).

module DbFormat {

  type byte = x: int | 0 <= x < 256

  datatype Option<+T> = None | Some(value: T)

  lemma Reassociate<T>(a: seq<T>, b: seq<T>, c: seq<T>)
    ensures a + b + c == a + (b + c)
  {
  }

  // Only the order of user keys matters to the store, and the comparator is
  // supplied by the user.  A real number stands for a user key; module
  // Comparator proves that bytewise string order embeds in the reals.
  type UserKey = real

  datatype ValueType = Deletion | Value

  const NUM_LEVELS := 7

  // Sequence numbers share 64 bits with an 8-bit type.
  const MAX_SEQUENCE: nat := 0xFF_FFFF_FFFF_FFFF

  datatype InternalKey = InternalKey(user: UserKey, sequence: nat, kind: ValueType)

  datatype Entry = Entry(key: InternalKey, value: seq<byte>)

  // The packed number stored behind the user key: (seq << 8) | type.
  function Tag(k: InternalKey): nat {
    k.sequence * 256 + (if k.kind == Value then 1 else 0)
  }

  // Increasing user key, then decreasing packed number.
  predicate Less(a: InternalKey, b: InternalKey) {
    a.user < b.user || (a.user == b.user && Tag(a) > Tag(b))
  }

  // The key a lookup at snapshot s seeks to (kValueTypeForSeek is Value).
  function SeekKey(user: UserKey, s: nat): InternalKey {
    InternalKey(user, s, Value)
  }

  ghost predicate Sorted(es: seq<Entry>) {
    forall i, j {:trigger Less(es[i].key, es[j].key)} :: 0 <= i < j < |es| ==> Less(es[i].key, es[j].key)
  }

  ghost predicate Sees(e: Entry, user: UserKey, s: nat) {
    e.key.user == user && e.key.sequence <= s
  }

  // No two entries of one user key carry the same sequence number.
  ghost predicate Distinct(S: set<Entry>) {
    forall x, y {:trigger SameVersion(x, y)} :: x in S && y in S && SameVersion(x, y) ==> x == y
  }

  ghost predicate SameVersion(x: Entry, y: Entry) {
    x.key.user == y.key.user && x.key.sequence == y.key.sequence
  }

  // x is newer than y if they belong to the same user key.
  ghost predicate NewerEntry(x: Entry, y: Entry) {
    x.key.user == y.key.user ==> x.key.sequence > y.key.sequence
  }

  ghost predicate IsNewest(S: set<Entry>, user: UserKey, s: nat, e: Entry) {
    e in S && Sees(e, user, s) && forall x :: x in S && Sees(x, user, s) ==> x.key.sequence <= e.key.sequence
  }

  lemma NewestExists(S: set<Entry>, user: UserKey, s: nat, w: Entry) returns (e: Entry)
    requires w in S && Sees(w, user, s)
    ensures IsNewest(S, user, s, e)
    decreases S
  {
    if x :| x in S && Sees(x, user, s) && x.key.sequence > w.key.sequence {
      e := NewestExists(S - {w}, user, s, x);
    } else {
      e := w;
    }
  }

  // The newest entry of a user key at or below a snapshot.
  ghost function Newest(S: set<Entry>, user: UserKey, s: nat): (r: Option<Entry>)
    ensures r.Some? ==> IsNewest(S, user, s, r.value)
    ensures r.None? ==> forall x :: x in S ==> !Sees(x, user, s)
  {
    if exists w :: w in S && Sees(w, user, s) then
      var w :| w in S && Sees(w, user, s);
      assert exists e :: IsNewest(S, user, s, e) by { var e := NewestExists(S, user, s, w); }
      var e :| IsNewest(S, user, s, e);
      Some(e)
    else
      None
  }

  // What a lookup result means to the user: a deletion marker hides the key.
  function Meaning(r: Option<Entry>): Option<seq<byte>> {
    if r.Some? && r.value.key.kind == Value then Some(r.value.value) else None
  }

  // The value of a user key at a snapshot, or None when absent.
  ghost function View(S: set<Entry>, user: UserKey, s: nat): Option<seq<byte>> {
    Meaning(Newest(S, user, s))
  }

  ghost predicate NewerSet(A: set<Entry>, B: set<Entry>) {
    forall x, y {:trigger NewerEntry(x, y)} :: x in A && y in B ==> NewerEntry(x, y)
  }

  lemma NewestIs(S: set<Entry>, user: UserKey, s: nat, e: Entry)
    requires Distinct(S) && IsNewest(S, user, s, e)
    ensures Newest(S, user, s) == Some(e)
  {
    var r := Newest(S, user, s);
    assert Sees(e, user, s);
    assert SameVersion(e, r.value);
  }

  // A newer set in front of an older one answers first.
  lemma NewestOfUnion(A: set<Entry>, B: set<Entry>, user: UserKey, s: nat)
    requires Distinct(A) && Distinct(B) && NewerSet(A, B)
    ensures Newest(A + B, user, s) ==
            if Newest(A, user, s).Some? then Newest(A, user, s) else Newest(B, user, s)
  {
    var r, a, b := Newest(A + B, user, s), Newest(A, user, s), Newest(B, user, s);
    if a.Some? {
      assert a.value in A + B && Sees(a.value, user, s);
      assert r.value in B ==> NewerEntry(a.value, r.value);
      assert SameVersion(a.value, r.value);
    } else if b.Some? {
      assert b.value in A + B && Sees(b.value, user, s);
      assert r.Some? && r.value in B;
      assert SameVersion(b.value, r.value);
    }
  }

  // The first index whose key is not below the target.
  ghost predicate IsLowerBound(es: seq<Entry>, target: InternalKey, i: int) {
    && 0 <= i <= |es|
    && (forall j :: 0 <= j < i ==> Less(es[j].key, target))
    && (forall j :: i <= j < |es| ==> !Less(es[j].key, target))
  }

  lemma LowerBoundExists(es: seq<Entry>, target: InternalKey) returns (i: nat)
    requires Sorted(es)
    ensures IsLowerBound(es, target, i)
  {
    i := 0;
    while i < |es| && Less(es[i].key, target)
      invariant i <= |es| && forall j :: 0 <= j < i ==> Less(es[j].key, target)
    {
      i := i + 1;
    }
    forall j | i <= j < |es| ensures !Less(es[j].key, target) {
      assert i < j ==> Less(es[i].key, es[j].key);
    }
  }

  function Elements(es: seq<Entry>): (r: set<Entry>)
    ensures forall e {:trigger e in r} :: e in r <==> e in es
  {
    set e | e in es
  }

  // The entry a table or memtable search lands on is the newest one visible.
  lemma LowerBoundIsNewest(es: seq<Entry>, user: UserKey, s: nat, i: int)
    requires Sorted(es) && Distinct(Elements(es))
    requires IsLowerBound(es, SeekKey(user, s), i)
    ensures Newest(Elements(es), user, s) ==
            if i < |es| && es[i].key.user == user then Some(es[i]) else None
  {
    var r := Newest(Elements(es), user, s);
    if r.Some? {
      var j :| 0 <= j < |es| && es[j] == r.value;
      assert !Less(es[j].key, SeekKey(user, s));
      assert i <= j && !Less(es[i].key, SeekKey(user, s));
      assert i == j || Less(es[i].key, es[j].key);
      assert SameVersion(es[i], es[j]) ==> es[i] == es[j];
    }
    if i < |es| && es[i].key.user == user {
      assert !Less(es[i].key, SeekKey(user, s));
      assert es[i] in Elements(es);
      assert Sees(es[i], user, s);
    }
  }
}
