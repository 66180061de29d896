/**
 * The ordering the blog's list queries apply (`order_by` on one timestamp
 * column), as a strict total order on (id, key) entries and an insertion
 * sort over it.
 */
module Ordering {

  /** A row of a query: its primary key and the value the query orders by. */
  datatype Keyed = Keyed(id: nat, key: int)

  /**
   * `a` comes before `b`: by key (newest first when `descending`), and for
   * equal keys by ascending id. The database promises no order for ties;
   * the model fixes this one.
   */
  predicate Precedes(a: Keyed, b: Keyed, descending: bool) {
    if a.key != b.key then
      (if descending then a.key > b.key else a.key < b.key)
    else
      a.id < b.id
  }

  /** Every entry comes strictly before every later one. */
  predicate StrictlySorted(xs: seq<Keyed>, descending: bool) {
    forall i, j :: 0 <= i < j < |xs| ==> Precedes(xs[i], xs[j], descending)
  }

  /** No entry occurs twice. */
  predicate Distinct(xs: seq<Keyed>) {
    forall i, j :: 0 <= i < j < |xs| ==> xs[i] != xs[j]
  }

  /** `Precedes` is a strict total order on distinct entries. */
  lemma PrecedesTotal(a: Keyed, b: Keyed, descending: bool)
    ensures a != b ==> Precedes(a, b, descending) || Precedes(b, a, descending)
    ensures !(Precedes(a, b, descending) && Precedes(b, a, descending))
  {
  }

  lemma PrecedesTransitive(a: Keyed, b: Keyed, c: Keyed, descending: bool)
    requires Precedes(a, b, descending) && Precedes(b, c, descending)
    ensures Precedes(a, c, descending)
  {
  }

  /** Putting an entry that precedes all of a sorted sequence in front keeps it sorted. */
  lemma PrependSorted(h: Keyed, t: seq<Keyed>, descending: bool)
    requires StrictlySorted(t, descending)
    requires forall y :: y in t ==> Precedes(h, y, descending)
    ensures StrictlySorted([h] + t, descending)
  {
    var r := [h] + t;
    forall i, j | 0 <= i < j < |r|
      ensures Precedes(r[i], r[j], descending)
    {
      if i > 0 {
        assert r[i] == t[i - 1] && r[j] == t[j - 1];
      } else {
        assert r[j] == t[j - 1] && r[j] in t;
      }
    }
  }

  /** Inserts `x` into a sorted sequence at its place. */
  function Insert(x: Keyed, xs: seq<Keyed>, descending: bool): (r: seq<Keyed>)
    requires StrictlySorted(xs, descending)
    requires x !in xs
    ensures StrictlySorted(r, descending)
    ensures multiset(r) == multiset(xs) + multiset{x}
  {
    if |xs| == 0 then [x]
    else if Precedes(x, xs[0], descending) then
      assert forall y :: y in xs ==> Precedes(x, y, descending) by {
        forall y | y in xs
          ensures Precedes(x, y, descending)
        {
          if y != xs[0] {
            var j :| 0 < j < |xs| && xs[j] == y;
            PrecedesTransitive(x, xs[0], y, descending);
          }
        }
      }
      PrependSorted(x, xs, descending);
      [x] + xs
    else
      var rest := Insert(x, xs[1..], descending);
      assert xs == [xs[0]] + xs[1..];
      assert forall y :: y in rest ==> Precedes(xs[0], y, descending) by {
        forall y | y in rest
          ensures Precedes(xs[0], y, descending)
        {
          assert y in multiset(rest);
          if y == x {
            PrecedesTotal(x, xs[0], descending);
          } else {
            assert y in xs[1..];
            var j :| 0 <= j < |xs[1..]| && xs[1..][j] == y;
            assert xs[j + 1] == y;
          }
        }
      }
      PrependSorted(xs[0], rest, descending);
      [xs[0]] + rest
  }

  /** Sorts a duplicate-free sequence of entries. */
  function Sort(xs: seq<Keyed>, descending: bool): (r: seq<Keyed>)
    requires Distinct(xs)
    ensures StrictlySorted(r, descending)
    ensures multiset(r) == multiset(xs)
  {
    if |xs| == 0 then []
    else
      var rest := Sort(xs[1..], descending);
      assert xs == [xs[0]] + xs[1..];
      assert xs[0] !in rest by {
        assert xs[0] !in multiset(xs[1..]);
      }
      Insert(xs[0], rest, descending)
  }

  /**
   * A strictly sorted sequence is determined by its elements: two of them
   * holding the same entries are equal.
   */
  lemma {:induction false} SortedUnique(xs: seq<Keyed>, ys: seq<Keyed>, descending: bool)
    requires StrictlySorted(xs, descending) && StrictlySorted(ys, descending)
    requires forall k :: k in xs <==> k in ys
    ensures xs == ys
  {
    if |ys| > 0 {
      assert ys[0] in xs;
    }
    if |xs| > 0 {
      assert xs[0] in ys;
      if xs[0] != ys[0] {
        assert ys[0] in xs;
        var i :| 0 <= i < |xs| && xs[i] == ys[0];
        var j :| 0 <= j < |ys| && ys[j] == xs[0];
        PrecedesTotal(xs[0], ys[0], descending);
        assert false;
      }
      forall k
        ensures k in xs[1..] <==> k in ys[1..]
      {
        if k in xs[1..] {
          assert k != xs[0];
          assert k in ys;
        }
        if k in ys[1..] {
          assert k != ys[0];
          assert k in xs;
        }
      }
      SortedUnique(xs[1..], ys[1..], descending);
      assert xs == [xs[0]] + xs[1..];
      assert ys == [ys[0]] + ys[1..];
    }
  }
}
