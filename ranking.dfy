/**
 * The order in which the engine tries candidate columns: pairs
 * (degree, column) compared lexicographically, largest first, as
 * `sort(..., greater<pair<int,int>>())` leaves them.
 */
module Ranking {

  type Scored = (int, int)

  /** a comes strictly after b in lexicographic order. */
  predicate Greater(a: Scored, b: Scored) {
    a.0 > b.0 || (a.0 == b.0 && a.1 > b.1)
  }

  /** a is b or comes after it. */
  predicate AtLeast(a: Scored, b: Scored) {
    a == b || Greater(a, b)
  }

  /** s is in non-increasing lexicographic order. */
  predicate Descending(s: seq<Scored>) {
    forall i, j :: 0 <= i < j < |s| ==> AtLeast(s[i], s[j])
  }

  predicate NoDuplicates(s: seq<Scored>) {
    forall i, j :: 0 <= i < j < |s| ==> s[i] != s[j]
  }

  /** s with p inserted before the first element that p is at least. */
  function Insert(p: Scored, s: seq<Scored>): (r: seq<Scored>)
    requires Descending(s)
    ensures Descending(r)
    ensures multiset(r) == multiset(s) + multiset{p}
    ensures forall x :: x in r <==> x == p || x in s
    ensures NoDuplicates(s) && p !in s ==> NoDuplicates(r)
  {
    if s == [] || AtLeast(p, s[0]) then
      HeadDominates(s);
      Cons(p, s);
      [p] + s
    else
      var rest := Insert(p, s[1..]);
      assert s == [s[0]] + s[1..];
      HeadDominates(s);
      Cons(s[0], rest);
      [s[0]] + rest
  }

  /** The first element of a descending sequence is at least all the others. */
  lemma HeadDominates(s: seq<Scored>)
    requires Descending(s)
    ensures s != [] ==> forall x :: x in s[1..] ==> AtLeast(s[0], x)
  {
    if s != [] {
      forall x | x in s[1..]
        ensures AtLeast(s[0], x)
      {
        var k :| 0 <= k < |s[1..]| && s[1..][k] == x;
        assert s[k + 1] == x;
      }
    }
  }

  lemma Cons(h: Scored, s: seq<Scored>)
    requires Descending(s)
    requires forall x :: x in s ==> AtLeast(h, x)
    ensures Descending([h] + s)
    ensures NoDuplicates(s) && h !in s ==> NoDuplicates([h] + s)
  {
    var r := [h] + s;
    forall i, j | 0 <= i < j < |r|
      ensures AtLeast(r[i], r[j])
    {
      if i > 0 {
        assert r[i] == s[i - 1] && r[j] == s[j - 1];
      } else {
        assert r[j] == s[j - 1];
      }
    }
  }

  /**
   * The pairs of s, largest first. Stands for the library sort: only the
   * order and the permutation it produces are modelled.
   */
  function SortDescending(s: seq<Scored>): (r: seq<Scored>)
    ensures Descending(r)
    ensures multiset(r) == multiset(s)
    ensures forall x :: x in r <==> x in s
    ensures NoDuplicates(s) ==> NoDuplicates(r)
  {
    if s == [] then []
    else
      assert s == [s[0]] + s[1..];
      DistinctTail(s);
      Insert(s[0], SortDescending(s[1..]))
  }

  lemma DistinctTail(s: seq<Scored>)
    requires s != []
    ensures NoDuplicates(s) ==> NoDuplicates(s[1..]) && s[0] !in s[1..]
  {
    if NoDuplicates(s) {
      forall x | x in s[1..]
        ensures x != s[0]
      {
        var k :| 0 <= k < |s[1..]| && s[1..][k] == x;
        assert s[k + 1] == x;
      }
    }
  }
}
