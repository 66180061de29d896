/**
 * Page slicing as the list views apply it: the page count, the `page`
 * argument's resolution and the slice each page holds. Both list views
 * paginate by two rows, with no orphans and an empty first page allowed.
 */
module Pagination {
  import opened Wrappers

  /** Rows per page of both list views. */
  const PaginateBy: nat := 2

  /** The `page` argument of a list request: a number, the word "last", or anything else. */
  datatype PageArg = Number(n: int) | Last | Malformed

  /**
   * Number of pages for `count` rows: the least p >= 1 with
   * count <= p * PaginateBy, so an empty list still has one (empty) page.
   */
  function NumPages(count: nat): (r: nat)
    ensures r >= 1
    ensures count <= r * PaginateBy
    ensures r == 1 || (r - 1) * PaginateBy < count
  {
    var hits := if count > 1 then count else 1;
    var q := (hits + PaginateBy - 1) / PaginateBy;
    assert hits + PaginateBy - 1 == q * PaginateBy + (hits + PaginateBy - 1) % PaginateBy;
    q
  }

  /** The 1-based page number a request asks for, before range validation. */
  function Requested(arg: PageArg, numPages: nat): Option<int> {
    match arg
    case Number(n) => Some(n)
    case Last => Some(numPages)
    case Malformed => None
  }

  /** Where page k ends: after row k * PaginateBy, or at the end of a shorter list. */
  function PageEnd(k: int, count: nat): int {
    if k * PaginateBy <= count then k * PaginateBy else count
  }

  /** The request names a page that exists for a list of `count` rows. */
  predicate HasPage(count: nat, arg: PageArg) {
    var k := Requested(arg, NumPages(count));
    k.Some? && 1 <= k.value <= NumPages(count)
  }

  /**
   * Page `arg` of `xs` with `PaginateBy` rows per page; None where the
   * request has no such page (the view answers 404).
   */
  function Page<T>(xs: seq<T>, arg: PageArg): (r: Option<seq<T>>)
    ensures r.Some? <==> HasPage(|xs|, arg)
    ensures r.Some? ==> |r.value| <= PaginateBy
    ensures r.Some? && |xs| > 0 ==> |r.value| > 0
    ensures r.Some? ==> forall x :: x in r.value ==> x in xs
    ensures r.Some? ==>
      var k := Requested(arg, NumPages(|xs|)).value;
      && (k < NumPages(|xs|) ==> |r.value| == PaginateBy)
      && (k - 1) * PaginateBy + |r.value| == PageEnd(k, |xs|)
      && forall j :: 0 <= j < |r.value| ==> r.value[j] == xs[(k - 1) * PaginateBy + j]
  {
    var pages := NumPages(|xs|);
    match Requested(arg, pages)
    case None => None
    case Some(k) =>
      if k < 1 || k > pages then None
      else
        var bottom := (k - 1) * PaginateBy;
        var top := if bottom + PaginateBy >= |xs| then |xs| else bottom + PaginateBy;
        assert bottom <= |xs| by {
          if k > 1 {
            assert (k - 1) * PaginateBy < |xs|;
          }
        }
        Some(xs[bottom..top])
  }

  /** The pages 1..k of `xs`, one after the other. */
  function FirstPages<T>(xs: seq<T>, k: nat): seq<T>
    requires k <= NumPages(|xs|)
  {
    if k == 0 then []
    else FirstPages(xs, k - 1) + Page(xs, Number(k)).value
  }

  /** Reading the first k pages in order gives the rows up to the end of page k. */
  lemma {:induction false} FirstPagesArePrefix<T>(xs: seq<T>, k: nat)
    requires k <= NumPages(|xs|)
    ensures FirstPages(xs, k) == xs[..PageEnd(k, |xs|)]
  {
    if k > 0 {
      FirstPagesArePrefix(xs, k - 1);
      var p := Page(xs, Number(k)).value;
      var bottom := (k - 1) * PaginateBy;
      assert PageEnd(k - 1, |xs|) == bottom by {
        if k > 1 {
          assert (k - 1) * PaginateBy < |xs|;
        }
      }
      assert bottom + |p| == PageEnd(k, |xs|);
      assert p == xs[bottom..bottom + |p|];
      assert xs[..bottom] + xs[bottom..bottom + |p|] == xs[..bottom + |p|];
    }
  }

  /** Reading every page in order gives back the whole list, each row once. */
  lemma AllPagesRebuildList<T>(xs: seq<T>)
    ensures FirstPages(xs, NumPages(|xs|)) == xs
  {
    var n := NumPages(|xs|);
    FirstPagesArePrefix(xs, n);
    assert PageEnd(n, |xs|) == |xs|;
    assert xs[..|xs|] == xs;
  }

  /** Row i of the list is row i % PaginateBy of page i / PaginateBy + 1. */
  lemma RowOnPage<T>(xs: seq<T>, i: nat)
    requires i < |xs|
    ensures
      var r := Page(xs, Number(i / PaginateBy + 1));
      r.Some? && i % PaginateBy < |r.value| && r.value[i % PaginateBy] == xs[i]
  {
    var k := i / PaginateBy + 1;
    var n := NumPages(|xs|);
    assert i == (k - 1) * PaginateBy + i % PaginateBy;
    assert k <= n;
    var r := Page(xs, Number(k));
    if k < n {
      assert |r.value| == PaginateBy;
    } else {
      assert |r.value| == |xs| - (k - 1) * PaginateBy;
    }
  }
}
