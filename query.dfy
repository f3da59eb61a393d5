/** What the document store's index scans return: `.collect()` is the list of
    matching positions in table (creation) order, `.unique()` is the single
    match, nothing, or an error when several documents match. */
module Query {

  /** The positions of `s` whose element satisfies `p`, in increasing order. */
  function Where<T>(s: seq<T>, p: T -> bool): (r: seq<nat>)
    ensures forall k: nat :: k in r <==> k < |s| && p(s[k])
    ensures forall i, j :: 0 <= i < j < |r| ==> r[i] < r[j]
    ensures |r| <= |s|
  {
    if s == [] then []
    else
      var front := Where(s[..|s| - 1], p);
      assert forall i :: 0 <= i < |front| ==> front[i] in front && front[i] < |s| - 1;
      front + (if p(s[|s| - 1]) then [|s| - 1] else [])
  }

  /** The number of elements of `s` that satisfy `p` (`.collect().length`). */
  function Count<T>(s: seq<T>, p: T -> bool): nat
  {
    |Where(s, p)|
  }

  datatype Lookup = Missing | Found(index: nat) | Ambiguous

  /** `.unique()`: the one matching position, none, or several. */
  function Unique<T>(s: seq<T>, p: T -> bool): (r: Lookup)
    ensures r.Missing? <==> forall k :: 0 <= k < |s| ==> !p(s[k])
    ensures r.Found? ==> r.index < |s| && p(s[r.index])
    ensures r.Found? ==> forall k :: 0 <= k < |s| && p(s[k]) ==> k == r.index
    ensures r.Ambiguous? <==> exists i, j :: 0 <= i < j < |s| && p(s[i]) && p(s[j])
    ensures r.Missing? <==> Count(s, p) == 0
    ensures r.Found? <==> Count(s, p) == 1
  {
    var w := Where(s, p);
    if |w| == 0 then
      assert forall k :: 0 <= k < |s| ==> !p(s[k]) by {
        forall k | 0 <= k < |s| ensures !p(s[k]) { assert k !in w; }
      }
      Missing
    else if |w| == 1 then
      assert forall k :: 0 <= k < |s| && p(s[k]) ==> k == w[0] by {
        forall k | 0 <= k < |s| && p(s[k]) ensures k == w[0] { assert k in w; }
      }
      Found(w[0])
    else
      assert w[0] in w && w[1] in w;
      Ambiguous
  }

  /** Every matching position has a place in `Where`. */
  lemma WherePlace<T>(s: seq<T>, p: T -> bool, k: nat) returns (i: nat)
    requires k < |s| && p(s[k])
    ensures i < |Where(s, p)| && Where(s, p)[i] == k
  {
    var w := Where(s, p);
    assert k in w;
    i :| 0 <= i < |w| && w[i] == k;
  }

  lemma {:induction false} CountAppend<T>(s: seq<T>, x: T, p: T -> bool)
    ensures Count(s + [x], p) == Count(s, p) + (if p(x) then 1 else 0)
  {
    assert (s + [x])[..|s|] == s;
  }

  /** A predicate no element satisfies selects nothing. */
  lemma {:induction false} CountNone<T>(s: seq<T>, p: T -> bool)
    requires forall k :: 0 <= k < |s| ==> !p(s[k])
    ensures Count(s, p) == 0
  {
    if s != [] {
      var m := |s| - 1;
      assert forall k :: 0 <= k < m ==> s[..m][k] == s[k];
      CountNone(s[..m], p);
    }
  }

  /** Predicates that agree on every element select the same positions. */
  lemma {:induction false} WhereEquiv<T>(s: seq<T>, p: T -> bool, q: T -> bool)
    requires forall k :: 0 <= k < |s| ==> (p(s[k]) <==> q(s[k]))
    ensures Where(s, p) == Where(s, q)
  {
    if s != [] {
      var m := |s| - 1;
      assert forall k :: 0 <= k < m ==> s[..m][k] == s[k];
      WhereEquiv(s[..m], p, q);
    }
  }

  /** A weaker predicate never selects fewer elements. */
  lemma {:induction false} CountMono<T>(s: seq<T>, p: T -> bool, q: T -> bool)
    requires forall k :: 0 <= k < |s| && p(s[k]) ==> q(s[k])
    ensures Count(s, p) <= Count(s, q)
  {
    if s != [] {
      var m := |s| - 1;
      assert forall k :: 0 <= k < m ==> s[..m][k] == s[k];
      CountMono(s[..m], p, q);
    }
  }

  /** Counting by a disjunction of two exclusive predicates adds the counts. */
  lemma {:induction false} CountDisjoint<T>(s: seq<T>, p: T -> bool, q: T -> bool, either: T -> bool)
    requires forall k :: 0 <= k < |s| ==> (either(s[k]) <==> p(s[k]) || q(s[k]))
    requires forall k :: 0 <= k < |s| ==> !(p(s[k]) && q(s[k]))
    ensures Count(s, either) == Count(s, p) + Count(s, q)
  {
    if s != [] {
      var m := |s| - 1;
      var front := s[..m];
      assert forall k :: 0 <= k < m ==> front[k] == s[k];
      CountDisjoint(front, p, q, either);
      assert s == front + [s[m]];
      CountAppend(front, s[m], p);
      CountAppend(front, s[m], q);
      CountAppend(front, s[m], either);
    }
  }

  /** Replacing one element changes a count by at most the two indicators. */
  lemma {:induction false} CountUpdate<T>(s: seq<T>, i: nat, x: T, p: T -> bool)
    requires i < |s|
    ensures Count(s[i := x], p) == Count(s, p) - (if p(s[i]) then 1 else 0) + (if p(x) then 1 else 0)
  {
    var m := |s| - 1;
    if i == m {
      assert s[i := x][..m] == s[..m];
    } else {
      assert s[i := x][..m] == s[..m][i := x];
      CountUpdate(s[..m], i, x, p);
    }
  }

  /** A strictly increasing sequence has as many distinct elements as it
      has entries. */
  lemma {:induction false} IncreasingSetSize(w: seq<nat>, keys: set<nat>)
    requires forall i, j :: 0 <= i < j < |w| ==> w[i] < w[j]
    requires forall k :: k in keys <==> k in w
    ensures |keys| == |w|
  {
    if w != [] {
      var m := |w| - 1;
      var front := w[..m];
      assert w == front + [w[m]];
      assert forall i :: 0 <= i < m ==> front[i] < w[m];
      IncreasingSetSize(front, keys - {w[m]});
    }
  }
}
