/**
 * The blog's two models and the store that holds them: posts, comments
 * attached to posts, and the model-level operations (`publish`,
 * `approve`, `approved_comments`, cascading delete). Timestamps are
 * integers; a store is a pair of tables keyed by primary key, with the
 * next key each table will hand out.
 */
module Blog {
  import opened Wrappers
  import opened Ordering

  type Time = int
  type UserId = nat
  type PostId = nat
  type CommentId = nat

  /** A blog post; `published == None` marks a draft. */
  datatype Post = Post(
    author: UserId,
    title: string,
    text: string,
    created: Time,
    published: Option<Time>)
  {
    predicate IsDraft() {
      published.None?
    }
  }

  /** A reader's comment on a post; `author` is a free-text name. */
  datatype Comment = Comment(
    post: PostId,
    author: string,
    text: string,
    created: Time,
    approved: bool)

  /** The two tables, and the next primary key each will assign. */
  datatype Store = Store(
    posts: map<PostId, Post>,
    comments: map<CommentId, Comment>,
    nextPostId: PostId,
    nextCommentId: CommentId)

  /**
   * Every store the blog can reach: keys are below the next key of their
   * table, and every comment belongs to a post that exists.
   */
  ghost predicate Valid(s: Store) {
    && (forall id :: id in s.posts ==> id < s.nextPostId)
    && (forall id :: id in s.comments ==> id < s.nextCommentId)
    && (forall id :: id in s.comments ==> s.comments[id].post in s.posts)
  }

  /** The store of a fresh installation; keys start at 1. */
  const Empty: Store := Store(map[], map[], 1, 1)

  /** A fresh installation satisfies the store invariant. */
  lemma EmptyValid()
    ensures Valid(Empty)
  {
  }

  /**
   * The primary keys below `bound` whose rows satisfy `keep`, in ascending
   * key order: a full scan of one table.
   */
  function Select<V>(table: map<nat, V>, bound: nat, keep: V -> bool): (r: seq<nat>)
    ensures forall id :: id in r <==> id < bound && id in table && keep(table[id])
    ensures forall i, j :: 0 <= i < j < |r| ==> r[i] < r[j]
  {
    if bound == 0 then []
    else
      var rest := Select(table, bound - 1, keep);
      var id := bound - 1;
      if id in table && keep(table[id]) then
        assert forall i :: 0 <= i < |rest| ==> rest[i] < id by {
          forall i | 0 <= i < |rest|
            ensures rest[i] < id
          {
            assert rest[i] in rest;
          }
        }
        rest + [id]
      else rest
  }

  /** A post as a model instance is first saved: a draft stamped with `now`. */
  function NewPost(author: UserId, title: string, text: string, now: Time): (p: Post)
    ensures p.IsDraft()
    ensures p.created == now
    ensures p.author == author && p.title == title && p.text == text
  {
    Post(author, title, text, now, None)
  }

  /**
   * `Post.publish(date)`: the post becomes published at exactly `date`,
   * whatever it was before; nothing else about it changes.
   */
  function Publish(p: Post, date: Time): (q: Post)
    ensures !q.IsDraft() && q.published.value == date
    ensures q.author == p.author && q.title == p.title && q.text == p.text
    ensures q.created == p.created
  {
    p.(published := Some(date))
  }

  /** Publishing twice keeps only the second date; with one date, it is idempotent. */
  lemma PublishLastWriteWins(p: Post, d1: Time, d2: Time)
    ensures Publish(Publish(p, d1), d2) == Publish(p, d2)
    ensures Publish(Publish(p, d2), d2) == Publish(p, d2)
  {
  }

  /** A comment as the comment form saves it: attached to `post`, not yet approved. */
  function NewComment(post: PostId, author: string, text: string, now: Time): (c: Comment)
    ensures !c.approved
    ensures c.post == post && c.author == author && c.text == text && c.created == now
  {
    Comment(post, author, text, now, false)
  }

  /** `Comment.approve()`: the comment is approved; nothing else about it changes. */
  function Approve(c: Comment): (d: Comment)
    ensures d.approved
    ensures d.post == c.post && d.author == c.author && d.text == c.text
    ensures d.created == c.created
  {
    c.(approved := true)
  }

  /** Approving an approved comment changes nothing. */
  lemma ApproveIdempotent(c: Comment)
    ensures Approve(Approve(c)) == Approve(c)
    ensures c.approved ==> Approve(c) == c
  {
  }

  /** Saves a new post under the next post key. */
  function InsertPost(s: Store, p: Post): (r: (Store, PostId))
    requires Valid(s)
    ensures Valid(r.0)
    ensures r.1 !in s.posts && r.0.posts == s.posts[r.1 := p]
    ensures r.0.comments == s.comments
  {
    (s.(posts := s.posts[s.nextPostId := p], nextPostId := s.nextPostId + 1), s.nextPostId)
  }

  /** Saves a new comment on an existing post under the next comment key. */
  function InsertComment(s: Store, c: Comment): (r: (Store, CommentId))
    requires Valid(s) && c.post in s.posts
    ensures Valid(r.0)
    ensures r.1 !in s.comments && r.0.comments == s.comments[r.1 := c]
    ensures r.0.posts == s.posts
  {
    (s.(comments := s.comments[s.nextCommentId := c], nextCommentId := s.nextCommentId + 1),
     s.nextCommentId)
  }

  /** Saves a changed post over the row with key `id`. */
  function SavePost(s: Store, id: PostId, p: Post): (r: Store)
    requires Valid(s) && id in s.posts
    ensures Valid(r)
    ensures r.posts == s.posts[id := p] && r.comments == s.comments
  {
    s.(posts := s.posts[id := p])
  }

  /** Saves a changed comment over the row with key `id`; it stays on its post. */
  function SaveComment(s: Store, id: CommentId, c: Comment): (r: Store)
    requires Valid(s) && id in s.comments && c.post == s.comments[id].post
    ensures Valid(r)
    ensures r.comments == s.comments[id := c] && r.posts == s.posts
  {
    s.(comments := s.comments[id := c])
  }

  /**
   * Deletes post `id` and, by the cascade on `Comment.post`, exactly the
   * comments attached to it: no comment is left without its post.
   */
  function DeletePost(s: Store, id: PostId): (r: Store)
    requires Valid(s)
    ensures Valid(r)
    ensures r.posts == s.posts - {id}
    ensures forall c :: c in r.comments <==> c in s.comments && s.comments[c].post != id
    ensures forall c :: c in r.comments ==> r.comments[c] == s.comments[c]
  {
    var kept := map c | c in s.comments && s.comments[c].post != id :: s.comments[c];
    s.(posts := s.posts - {id}, comments := kept)
  }

  /** Deletes comment `id` and nothing else. */
  function DeleteComment(s: Store, id: CommentId): (r: Store)
    requires Valid(s)
    ensures Valid(r)
    ensures r.comments == s.comments - {id} && r.posts == s.posts
  {
    s.(comments := s.comments - {id})
  }

  /**
   * `Post.approved_comments()`: the keys of exactly the approved comments
   * attached to post `id`, in key order.
   */
  function ApprovedComments(s: Store, id: PostId): (r: seq<CommentId>)
    requires Valid(s)
    ensures forall c :: c in r <==>
      c in s.comments && s.comments[c].post == id && s.comments[c].approved
    ensures forall i, j :: 0 <= i < j < |r| ==> r[i] < r[j]
  {
    Select(s.comments, s.nextCommentId, (c: Comment) => c.post == id && c.approved)
  }

  /** Entries that order keys ascending: every key gets the same ordering value. */
  function KeysAsEntries(xs: seq<nat>): (r: seq<Keyed>)
    ensures |r| == |xs|
    ensures forall i :: 0 <= i < |r| ==> r[i] == Keyed(xs[i], 0)
  {
    seq(|xs|, i requires 0 <= i < |xs| => Keyed(xs[i], 0))
  }

  /**
   * Two strictly increasing key sequences with the same members are equal:
   * the case of `Ordering.SortedUnique` where every entry has one value.
   */
  lemma IncreasingUnique(xs: seq<nat>, ys: seq<nat>)
    requires forall i, j :: 0 <= i < j < |xs| ==> xs[i] < xs[j]
    requires forall i, j :: 0 <= i < j < |ys| ==> ys[i] < ys[j]
    requires forall id :: id in xs <==> id in ys
    ensures xs == ys
  {
    var ks, ls := KeysAsEntries(xs), KeysAsEntries(ys);
    forall k
      ensures k in ks <==> k in ls
    {
      if k in ks {
        var i :| 0 <= i < |ks| && ks[i] == k;
        assert xs[i] in ys;
        var j :| 0 <= j < |ys| && ys[j] == xs[i];
        assert ls[j] == k;
      }
      if k in ls {
        var j :| 0 <= j < |ls| && ls[j] == k;
        assert ys[j] in xs;
        var i :| 0 <= i < |xs| && xs[i] == ys[j];
        assert ks[i] == k;
      }
    }
    SortedUnique(ks, ls, false);
    assert |xs| == |ys|;
    forall i | 0 <= i < |xs|
      ensures xs[i] == ys[i]
    {
      assert ks[i] == ls[i];
    }
  }
}
