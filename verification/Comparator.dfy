// Bytewise order of strings and of internal keys, and the short keys put
// between and after them (util/comparator.cc, db/dbformat.cc).

module Comparator {
  import opened DbFormat

  // Slice::compare(a, b) < 0.
  predicate Before(a: seq<byte>, b: seq<byte>) {
    if b == [] then false
    else if a == [] then true
    else a[0] < b[0] || (a[0] == b[0] && Before(a[1..], b[1..]))
  }

  predicate AtMost(a: seq<byte>, b: seq<byte>) {
    a == b || Before(a, b)
  }

  lemma {:induction false} BeforeTransitive(a: seq<byte>, b: seq<byte>, c: seq<byte>)
    requires Before(a, b) && Before(b, c)
    ensures Before(a, c)
  {
    if a != [] && a[0] == b[0] == c[0] {
      BeforeTransitive(a[1..], b[1..], c[1..]);
    }
  }

  // Exactly one of a < b, a == b, b < a.
  lemma {:induction false} BeforeTotal(a: seq<byte>, b: seq<byte>)
    ensures (Before(a, b) && !Before(b, a) && a != b) || (a == b && !Before(a, b)) || (Before(b, a) && !Before(a, b) && a != b)
  {
    if a != [] && b != [] {
      BeforeTotal(a[1..], b[1..]);
      assert a == [a[0]] + a[1..] && b == [b[0]] + b[1..];
    }
  }

  // ---- Strings order like real numbers ----------------------------------

  // Reads a string as a fraction in base 257, a digit being one more than the byte.
  function AsReal(s: seq<byte>): (r: real)
    ensures 0.0 <= r < 1.0
  {
    if s == [] then 0.0 else (s[0] as real + 1.0 + AsReal(s[1..])) / 257.0
  }

  // So a real number can stand for a user key wherever only order and equality matter.
  lemma {:induction false} OrderEmbeds(a: seq<byte>, b: seq<byte>)
    ensures Before(a, b) <==> AsReal(a) < AsReal(b)
    ensures a == b <==> AsReal(a) == AsReal(b)
  {
    if a != [] && b != [] {
      OrderEmbeds(a[1..], b[1..]);
      assert a == [a[0]] + a[1..] && b == [b[0]] + b[1..];
      var x, y, f, g := a[0] as real, b[0] as real, AsReal(a[1..]), AsReal(b[1..]);
      assert AsReal(a) < AsReal(b) <==> x + f < y + g;
      assert AsReal(a) == AsReal(b) <==> x + f == y + g;
      assert a[0] < b[0] ==> x + 1.0 <= y;
      assert b[0] < a[0] ==> y + 1.0 <= x;
    }
  }

  // ---- Internal keys ----------------------------------------------------

  // An internal key as stored: the user key's bytes and the packed number behind them.
  datatype Key = Key(user: seq<byte>, tag: nat)

  predicate KeyBefore(a: Key, b: Key) {
    Before(a.user, b.user) || (a.user == b.user && a.tag > b.tag)
  }

  predicate KeyAtMost(a: Key, b: Key) {
    a == b || KeyBefore(a, b)
  }

  lemma KeyOrder(a: Key, b: Key, c: Key)
    ensures KeyBefore(a, b) && KeyBefore(b, c) ==> KeyBefore(a, c)
    ensures !KeyBefore(a, a)
    ensures KeyBefore(a, b) || a == b || KeyBefore(b, a)
    ensures !(KeyBefore(a, b) && KeyBefore(b, a))
  {
    BeforeTotal(a.user, a.user);
    BeforeTotal(a.user, b.user);
    BeforeTotal(b.user, c.user);
    if Before(a.user, b.user) && Before(b.user, c.user) {
      BeforeTransitive(a.user, b.user, c.user);
    }
  }

  // The order of stored keys is the order of the entries they belong to.
  lemma StoredOrder(a: seq<byte>, b: seq<byte>, s: nat, t: nat, k: ValueType, l: ValueType)
    ensures var x, y := InternalKey(AsReal(a), s, k), InternalKey(AsReal(b), t, l);
            KeyBefore(Key(a, Tag(x)), Key(b, Tag(y))) <==> Less(x, y)
  {
    OrderEmbeds(a, b);
  }

  // ---- Short separators -------------------------------------------------

  lemma {:induction false} DiffersAt(a: seq<byte>, b: seq<byte>, i: nat)
    requires i < |a| && i < |b| && a[..i] == b[..i] && a[i] < b[i]
    ensures Before(a, b)
  {
    if i > 0 {
      assert a[0] == a[..i][0] == b[..i][0] == b[0];
      assert a[1..][..i - 1] == a[..i][1..] == b[..i][1..] == b[1..][..i - 1];
      DiffersAt(a[1..], b[1..], i - 1);
    }
  }

  // The strings differ here first, and another byte fits between theirs.
  predicate Splits(start: seq<byte>, limit: seq<byte>, i: nat) {
    i < |start| && i < |limit| && start[..i] == limit[..i] && (start[i] as int) + 1 < limit[i] as int
  }

  lemma SameByte(a: seq<byte>, b: seq<byte>, n: nat, i: nat)
    requires i < n <= |a| && n <= |b| && a[..n] == b[..n]
    ensures a[i] == b[i]
  {
    assert a[..n][i] == b[..n][i];
  }

  lemma SplitsOnce(start: seq<byte>, limit: seq<byte>, i: nat, j: nat)
    requires Splits(start, limit, i) && j < |start| && j < |limit| && start[..j] == limit[..j] && start[j] != limit[j]
    ensures i == j
  {
    if i < j {
      SameByte(start, limit, j, i);
    } else if j < i {
      SameByte(start, limit, i, j);
    }
  }

  // A string in [start, limit): where another byte fits between the two it is shortened to there.
  method FindShortestSeparator(start: seq<byte>, limit: seq<byte>) returns (sep: seq<byte>)
    ensures |sep| <= |start| && AtMost(start, sep)
    ensures Before(start, limit) ==> Before(sep, limit)
    ensures start == limit ==> sep == start
    ensures forall i: nat {:trigger Splits(start, limit, i)} :: Splits(start, limit, i) ==> sep == start[..i] + [start[i] + 1]
    ensures sep != start ==> exists i: nat {:trigger Splits(start, limit, i)} :: Splits(start, limit, i)
  {
    sep := start;
    var minLength := if |start| < |limit| then |start| else |limit|;
    var i := 0;
    while i < minLength && start[i] == limit[i]
      invariant 0 <= i <= minLength && start[..i] == limit[..i]
    {
      assert start[..i + 1] == start[..i] + [start[i]] && limit[..i + 1] == limit[..i] + [limit[i]];
      i := i + 1;
    }
    forall j: nat | Splits(start, limit, j) ensures i < minLength && j == i {
      if i < minLength {
        SplitsOnce(start, limit, j, i);
      } else {
        SameByte(start, limit, i, j);
      }
    }
    if i < minLength {
      if start[i] < 0xff && start[i] + 1 < limit[i] {
        assert Splits(start, limit, i);
        sep := start[..i] + [start[i] + 1];
        assert sep[..i] == start[..i];
        DiffersAt(start, sep, i);
        DiffersAt(sep, limit, i);
      }
    }
  }

  // The first byte that can be counted up.
  predicate Rises(key: seq<byte>, i: nat) {
    i < |key| && key[i] != 0xff && forall j :: 0 <= j < i ==> key[j] == 0xff
  }

  // A string at or after key, cut off at the byte counted up; a run of 0xff bytes stays as it is.
  method FindShortSuccessor(key: seq<byte>) returns (succ: seq<byte>)
    ensures |succ| <= |key| && AtMost(key, succ)
    ensures forall i: nat {:trigger Rises(key, i)} :: Rises(key, i) ==> succ == key[..i] + [key[i] + 1]
    ensures succ != key ==> exists i: nat {:trigger Rises(key, i)} :: Rises(key, i)
    ensures Before(key, succ) <==> exists i :: 0 <= i < |key| && key[i] != 0xff
  {
    var i := 0;
    while i < |key|
      invariant 0 <= i <= |key| && forall j :: 0 <= j < i ==> key[j] == 0xff
    {
      if key[i] != 0xff {
        succ := key[..i] + [key[i] + 1];
        assert Rises(key, i);
        assert succ[..i] == key[..i];
        DiffersAt(key, succ, i);
        return;
      }
      i := i + 1;
    }
    succ := key;
    BeforeTotal(key, key);
  }

  // kMaxSequenceNumber with kValueTypeForSeek: before every other key of its user key.
  const SEEK_TAG: nat := MAX_SEQUENCE * 256 + 1

  // The same for internal keys: only the user part is shortened.
  method FindShortestKeySeparator(start: Key, limit: Key) returns (sep: Key)
    ensures KeyAtMost(start, sep) && (KeyBefore(start, limit) ==> KeyBefore(sep, limit))
    ensures sep != start ==> Before(start.user, sep.user) && |sep.user| < |start.user|
    ensures sep != start && KeyBefore(start, limit) ==> Before(sep.user, limit.user)
    ensures forall i: nat {:trigger Splits(start.user, limit.user, i)} :: Splits(start.user, limit.user, i) && i + 1 < |start.user| ==>
              sep == Key(start.user[..i] + [start.user[i] + 1], SEEK_TAG)
    ensures sep != start ==> exists i: nat {:trigger Splits(start.user, limit.user, i)} :: Splits(start.user, limit.user, i) && i + 1 < |start.user|
  {
    var tmp := FindShortestSeparator(start.user, limit.user);
    BeforeTotal(start.user, tmp);
    if |tmp| < |start.user| && Before(start.user, tmp) {
      sep := Key(tmp, SEEK_TAG);
    } else {
      sep := start;
    }
  }

  method FindShortKeySuccessor(key: Key) returns (succ: Key)
    ensures KeyAtMost(key, succ)
    ensures succ != key ==> Before(key.user, succ.user) && |succ.user| < |key.user|
    ensures forall i: nat {:trigger Rises(key.user, i)} :: Rises(key.user, i) && i + 1 < |key.user| ==>
              succ == Key(key.user[..i] + [key.user[i] + 1], SEEK_TAG)
    ensures succ != key ==> exists i: nat {:trigger Rises(key.user, i)} :: Rises(key.user, i) && i + 1 < |key.user|
  {
    var tmp := FindShortSuccessor(key.user);
    if |tmp| < |key.user| && Before(key.user, tmp) {
      succ := Key(tmp, SEEK_TAG);
    } else {
      succ := key;
    }
  }
}
