/** The order of an index scan: documents ascending by an index key, ties in
    creation (position) order. A stable sort by a key of positions listed in
    increasing order produces exactly this order. */
module Ordering {

  /** Position `a` comes before position `b`: a smaller key, or an equal key
      and an earlier position. */
  predicate Precedes(key: nat -> int, a: nat, b: nat)
  {
    key(a) < key(b) || (key(a) == key(b) && a < b)
  }

  predicate Ordered(key: nat -> int, r: seq<nat>)
  {
    forall i, j :: 0 <= i < j < |r| ==> Precedes(key, r[i], r[j])
  }

  /** Putting in front of an ordered list an element that precedes all of it
      keeps the list ordered. */
  lemma ConsOrdered(key: nat -> int, a: nat, t: seq<nat>)
    requires Ordered(key, t)
    requires forall y :: y in t ==> Precedes(key, a, y)
    ensures Ordered(key, [a] + t)
  {
    var r := [a] + t;
    forall i, j | 0 <= i < j < |r| ensures Precedes(key, r[i], r[j]) {
      assert r[j] == t[j - 1];
      if i > 0 {
        assert r[i] == t[i - 1];
      } else {
        assert t[j - 1] in t;
      }
    }
  }

  /** The head of an ordered list precedes everything in its tail, and the
      tail is ordered. */
  lemma HeadPrecedes(key: nat -> int, s: seq<nat>)
    requires Ordered(key, s) && s != []
    ensures forall y :: y in s[1..] ==> Precedes(key, s[0], y)
    ensures Ordered(key, s[1..])
  {
    forall y | y in s[1..] ensures Precedes(key, s[0], y) {
      var m :| 0 <= m < |s[1..]| && s[1..][m] == y;
      assert s[m + 1] == y;
    }
    forall i, j | 0 <= i < j < |s[1..]| ensures Precedes(key, s[1..][i], s[1..][j]) {
      assert s[1..][i] == s[i + 1] && s[1..][j] == s[j + 1];
    }
  }

  /** Inserts `x` after every element that precedes it. */
  function Insert(key: nat -> int, x: nat, s: seq<nat>): (r: seq<nat>)
    requires Ordered(key, s) && x !in s
    ensures multiset(r) == multiset(s) + multiset{x}
    ensures forall y :: y in r <==> y == x || y in s
    ensures |r| == |s| + 1
    ensures Ordered(key, r)
  {
    if s == [] then [x]
    else
      HeadPrecedes(key, s);
      assert s == [s[0]] + s[1..];
      if Precedes(key, s[0], x) then
        var rest := Insert(key, x, s[1..]);
        ConsOrdered(key, s[0], rest);
        [s[0]] + rest
      else
        assert x != s[0];
        ConsOrdered(key, x, s);
        [x] + s
  }

  /** A sort of distinct positions by `key`, ties in position order. On a
      list of increasing positions this is the stable sort. */
  function SortBy(key: nat -> int, s: seq<nat>): (r: seq<nat>)
    requires forall i, j :: 0 <= i < j < |s| ==> s[i] != s[j]
    ensures multiset(r) == multiset(s)
    ensures forall y :: y in r <==> y in s
    ensures |r| == |s|
    ensures Ordered(key, r)
  {
    if s == [] then []
    else
      var m := |s| - 1;
      var front := SortBy(key, s[..m]);
      assert s == s[..m] + [s[m]];
      Insert(key, s[m], front)
  }

  /** In an ordered list, an element beyond the first `m` comes after each of
      the first `m`. */
  lemma OrderedPrefix(key: nat -> int, s: seq<nat>, m: nat, x: nat)
    requires Ordered(key, s) && m <= |s|
    requires x in s && x !in s[..m]
    ensures forall i :: 0 <= i < m ==> Precedes(key, s[i], x)
  {
    var j :| 0 <= j < |s| && s[j] == x;
    assert j >= m;
  }
}
