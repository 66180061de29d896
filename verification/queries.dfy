/**
 * The two list querysets: published posts up to a cutoff, newest first,
 * and drafts, oldest first. Each is a table scan, a ranking by the
 * ordering column and a sort; ties in the column go by ascending key.
 */
module Queries {
  import opened Wrappers
  import opened Blog
  import opened Ordering

  /** The filter of the published list: published no later than `cutoff`. */
  predicate IsListed(p: Post, cutoff: Time) {
    p.published.Some? && p.published.value <= cutoff
  }

  /** Pairs each key in `ids` with its post's ordering value. */
  function Rank(posts: map<PostId, Post>, ids: seq<PostId>, key: Post -> int): (r: seq<Keyed>)
    requires forall i :: 0 <= i < |ids| ==> ids[i] in posts
    ensures |r| == |ids|
    ensures forall i :: 0 <= i < |r| ==> r[i] == Keyed(ids[i], key(posts[ids[i]]))
  {
    seq(|ids|, i requires 0 <= i < |ids| => Keyed(ids[i], key(posts[ids[i]])))
  }

  /** The keys of a ranking, in its order. */
  function IdsOf(ks: seq<Keyed>): (r: seq<PostId>)
    ensures |r| == |ks|
    ensures forall i :: 0 <= i < |r| ==> r[i] == ks[i].id
  {
    seq(|ks|, i requires 0 <= i < |ks| => ks[i].id)
  }

  /** The ordering value of the published list: a published post's date. */
  function PublishedKey(p: Post): int {
    p.published.GetOr(0)
  }

  /** The ordering value of the draft list. */
  function CreatedKey(p: Post): int {
    p.created
  }

  /** A ranking of rows with strictly increasing keys has no repeated entry. */
  lemma RankDistinct(posts: map<PostId, Post>, ids: seq<PostId>, key: Post -> int)
    requires forall i :: 0 <= i < |ids| ==> ids[i] in posts
    requires forall i, j :: 0 <= i < j < |ids| ==> ids[i] < ids[j]
    ensures Distinct(Rank(posts, ids, key))
  {
  }

  /**
   * `filter(keep).order_by(key)` over the posts with keys below `bound`:
   * exactly the rows `keep` accepts, each with its ordering value, in
   * strict order.
   */
  function OrderedSelection(posts: map<PostId, Post>, bound: nat, keep: Post -> bool,
                            key: Post -> int, descending: bool): (r: seq<Keyed>)
    ensures StrictlySorted(r, descending)
    ensures forall k :: k in r <==>
      k.id < bound && k.id in posts && keep(posts[k.id]) && k.key == key(posts[k.id])
  {
    var ids := Select(posts, bound, keep);
    assert forall i :: 0 <= i < |ids| ==> ids[i] in ids;
    var ranked := Rank(posts, ids, key);
    RankDistinct(posts, ids, key);
    var r := Sort(ranked, descending);
    forall k
      ensures k in r <==>
        k.id < bound && k.id in posts && keep(posts[k.id]) && k.key == key(posts[k.id])
    {
      assert k in r <==> k in multiset(r);
      assert k in ranked <==> k in multiset(ranked);
      if k in ranked {
        var i :| 0 <= i < |ranked| && ranked[i] == k;
        assert ids[i] in ids;
      }
      if k.id < bound && k.id in posts && keep(posts[k.id]) && k.key == key(posts[k.id]) {
        var i :| 0 <= i < |ids| && ids[i] == k.id;
        assert ranked[i] == k;
      }
    }
    r
  }

  /**
   * The published-list queryset (publication date set and no later than
   * `cutoff`, ordered by that date descending), ranked: exactly those
   * posts, each with its date, newest first.
   */
  function PublishedRanking(s: Store, cutoff: Time): (r: seq<Keyed>)
    requires Valid(s)
    ensures StrictlySorted(r, true)
    ensures forall k :: k in r <==>
      k.id in s.posts && IsListed(s.posts[k.id], cutoff) && k.key == s.posts[k.id].published.value
    ensures forall i :: 0 <= i < |r| ==>
      r[i].id in s.posts && IsListed(s.posts[r[i].id], cutoff) && r[i].key == s.posts[r[i].id].published.value
  {
    var r := OrderedSelection(s.posts, s.nextPostId, (p: Post) => IsListed(p, cutoff), PublishedKey, true);
    assert forall i :: 0 <= i < |r| ==> r[i] in r;
    r
  }

  /**
   * The draft-list queryset (no publication date, ordered by creation
   * time ascending), ranked: exactly the drafts, each with its creation
   * time, oldest first.
   */
  function DraftRanking(s: Store): (r: seq<Keyed>)
    requires Valid(s)
    ensures StrictlySorted(r, false)
    ensures forall k :: k in r <==>
      k.id in s.posts && s.posts[k.id].IsDraft() && k.key == s.posts[k.id].created
    ensures forall i :: 0 <= i < |r| ==>
      r[i].id in s.posts && s.posts[r[i].id].IsDraft() && r[i].key == s.posts[r[i].id].created
  {
    var r := OrderedSelection(s.posts, s.nextPostId, (p: Post) => p.IsDraft(), CreatedKey, false);
    assert forall i :: 0 <= i < |r| ==> r[i] in r;
    r
  }

  /**
   * The published list: exactly the posts published no later than
   * `cutoff`, each once, newest first. Drafts never appear.
   */
  function PublishedList(s: Store, cutoff: Time): (r: seq<PostId>)
    requires Valid(s)
    ensures forall id :: id in r <==> id in s.posts && IsListed(s.posts[id], cutoff)
    ensures forall i :: 0 <= i < |r| ==> r[i] in s.posts && IsListed(s.posts[r[i]], cutoff)
    ensures forall i, j :: 0 <= i < j < |r| ==> r[i] != r[j]
    ensures forall i, j :: 0 <= i < j < |r| ==>
      PublishedKey(s.posts[r[i]]) >= PublishedKey(s.posts[r[j]])
  {
    var ks := PublishedRanking(s, cutoff);
    var r := IdsOf(ks);
    forall id
      ensures id in r <==> id in s.posts && IsListed(s.posts[id], cutoff)
    {
      if id in s.posts && IsListed(s.posts[id], cutoff) {
        var k := Keyed(id, s.posts[id].published.value);
        assert k in ks;
        var i :| 0 <= i < |ks| && ks[i] == k;
        assert r[i] == id;
      }
    }
    forall i, j | 0 <= i < j < |r|
      ensures r[i] != r[j]
    {
      assert Precedes(ks[i], ks[j], true);
    }
    assert forall i :: 0 <= i < |r| ==> r[i] in s.posts && IsListed(s.posts[r[i]], cutoff);
    forall i, j | 0 <= i < j < |r|
      ensures PublishedKey(s.posts[r[i]]) >= PublishedKey(s.posts[r[j]])
    {
      assert Precedes(ks[i], ks[j], true);
      assert ks[i].key == s.posts[r[i]].published.value;
    }
    r
  }

  /**
   * The draft list: exactly the drafts, each once, oldest created first.
   */
  function DraftList(s: Store): (r: seq<PostId>)
    requires Valid(s)
    ensures forall id :: id in r <==> id in s.posts && s.posts[id].IsDraft()
    ensures forall i :: 0 <= i < |r| ==> r[i] in s.posts && s.posts[r[i]].IsDraft()
    ensures forall i, j :: 0 <= i < j < |r| ==> r[i] != r[j]
    ensures forall i, j :: 0 <= i < j < |r| ==> s.posts[r[i]].created <= s.posts[r[j]].created
  {
    var ks := DraftRanking(s);
    var r := IdsOf(ks);
    forall id
      ensures id in r <==> id in s.posts && s.posts[id].IsDraft()
    {
      if id in s.posts && s.posts[id].IsDraft() {
        var k := Keyed(id, s.posts[id].created);
        assert k in ks;
        var i :| 0 <= i < |ks| && ks[i] == k;
        assert r[i] == id;
      }
    }
    forall i, j | 0 <= i < j < |r|
      ensures r[i] != r[j]
    {
      assert Precedes(ks[i], ks[j], false);
    }
    r
  }

  /** Two rankings holding the same entries, both strictly sorted, list the same keys. */
  lemma SameRankingSameIds(ks: seq<Keyed>, ls: seq<Keyed>, ids: seq<PostId>, descending: bool)
    requires StrictlySorted(ks, descending) && StrictlySorted(ls, descending)
    requires forall k :: k in ks <==> k in ls
    requires |ids| == |ls| && forall i :: 0 <= i < |ids| ==> ids[i] == ls[i].id
    ensures ids == IdsOf(ks)
  {
    SortedUnique(ks, ls, descending);
  }

  /**
   * The published list is the only sequence that holds exactly the posts
   * published by `cutoff`, newest first with ties by ascending key.
   */
  lemma PublishedListUnique(s: Store, cutoff: Time, ids: seq<PostId>)
    requires Valid(s)
    requires forall id :: id in ids <==> id in s.posts && IsListed(s.posts[id], cutoff)
    requires forall i, j :: 0 <= i < j < |ids| ==>
      var a := PublishedKey(s.posts[ids[i]]);
      var b := PublishedKey(s.posts[ids[j]]);
      a > b || (a == b && ids[i] < ids[j])
    ensures ids == PublishedList(s, cutoff)
  {
    assert forall i :: 0 <= i < |ids| ==> ids[i] in ids;
    var ls := Rank(s.posts, ids, PublishedKey);
    var ks := PublishedRanking(s, cutoff);
    forall i, j | 0 <= i < j < |ls|
      ensures Precedes(ls[i], ls[j], true)
    {
    }
    forall k
      ensures k in ks <==> k in ls
    {
      if k in ls {
        var i :| 0 <= i < |ls| && ls[i] == k;
      }
      if k in ks {
        var i :| 0 <= i < |ids| && ids[i] == k.id;
        assert ls[i] == k;
      }
    }
    SameRankingSameIds(ks, ls, ids, true);
  }

  /**
   * The draft list is the only sequence that holds exactly the drafts,
   * oldest created first with ties by ascending key.
   */
  lemma DraftListUnique(s: Store, ids: seq<PostId>)
    requires Valid(s)
    requires forall id :: id in ids <==> id in s.posts && s.posts[id].IsDraft()
    requires forall i, j :: 0 <= i < j < |ids| ==>
      var a := s.posts[ids[i]].created;
      var b := s.posts[ids[j]].created;
      a < b || (a == b && ids[i] < ids[j])
    ensures ids == DraftList(s)
  {
    assert forall i :: 0 <= i < |ids| ==> ids[i] in ids;
    var ls := Rank(s.posts, ids, CreatedKey);
    var ks := DraftRanking(s);
    forall i, j | 0 <= i < j < |ls|
      ensures Precedes(ls[i], ls[j], false)
    {
    }
    forall k
      ensures k in ks <==> k in ls
    {
      if k in ls {
        var i :| 0 <= i < |ls| && ls[i] == k;
      }
      if k in ks {
        var i :| 0 <= i < |ids| && ids[i] == k.id;
        assert ls[i] == k;
      }
    }
    SameRankingSameIds(ks, ls, ids, false);
  }
}
