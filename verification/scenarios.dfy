/**
 * Properties that relate several views: how the detail page and the
 * published list disagree, what publishing through the view does, and
 * the workflows the blog's tests walk through.
 */
module Scenarios {
  import opened Wrappers
  import opened Blog
  import opened Queries
  import opened Pagination
  import opened Views

  /** Every post on the published list can be opened by anyone. */
  lemma ListedPostsAreVisible(s: Store, boot: Boot, caller: Caller, pk: PostId)
    requires Valid(s)
    requires pk in PublishedList(s, boot.listCutoff)
    ensures PostDetailView(s, caller, pk) == Ok(s.posts[pk])
  {
  }

  /**
   * The converse fails: a post dated after the list's cutoff opens for an
   * anonymous reader but is missing from the list.
   */
  lemma DetailShowsWhatListHides(s: Store, boot: Boot, pk: PostId)
    requires Valid(s)
    requires pk in s.posts && !s.posts[pk].IsDraft()
    requires s.posts[pk].published.value > boot.listCutoff
    ensures PostDetailView(s, Anonymous, pk) == Ok(s.posts[pk])
    ensures pk !in PublishedList(s, boot.listCutoff)
  {
  }

  /**
   * A post published through the view is listed, because its date is the
   * import-time default, as long as the models module was imported no
   * later than the list's cutoff was taken.
   */
  lemma PublishViewListsPost(s: Store, boot: Boot, user: UserId, pk: PostId)
    requires Valid(s)
    requires pk in s.posts
    requires boot.publishDefault <= boot.listCutoff
    ensures
      var r := PostPublishView(s, boot, LoggedIn(user), pk);
      r.Ok? && pk in PublishedList(r.value.store, boot.listCutoff)
  {
  }

  /**
   * Because `publish()`'s default date is fixed at import time, a post
   * created after start-up and then published through the view carries
   * a publication date earlier than its creation date.
   */
  lemma PublishedBeforeCreated(s: Store, boot: Boot, user: UserId, fields: PostFields,
                               valid: PostFields -> bool, now: Time)
    requires Valid(s) && valid(fields)
    requires now > boot.publishDefault
    ensures
      var c := PostCreateView(s, LoggedIn(user), Submit(fields), valid, now);
      c.Ok? &&
      var pk := c.value.next.pk;
      var r := PostPublishView(c.value.store, boot, LoggedIn(user), pk);
      r.Ok? &&
      r.value.store.posts[pk].published.value < r.value.store.posts[pk].created
  {
  }

  /**
   * The index tests: three posts published at d1 < d2 < d3, all by the
   * cutoff, and one draft. Page 1 shows the newest two, page 2 (also the
   * last page) the oldest, page 3 does not exist.
   */
  lemma IndexPages(s: Store, boot: Boot, p1: PostId, p2: PostId, p3: PostId, draft: PostId)
    requires Valid(s)
    requires s.posts.Keys == {p1, p2, p3, draft}
    requires p1 != p2 && p1 != p3 && p2 != p3
    requires draft != p1 && draft != p2 && draft != p3
    requires s.posts[draft].IsDraft()
    requires !s.posts[p1].IsDraft() && !s.posts[p2].IsDraft() && !s.posts[p3].IsDraft()
    requires s.posts[p1].published.value < s.posts[p2].published.value
    requires s.posts[p2].published.value < s.posts[p3].published.value
    requires s.posts[p3].published.value <= boot.listCutoff
    ensures PostListView(s, boot, Number(1)) == Ok([p3, p2])
    ensures PostListView(s, boot, Number(2)) == Ok([p1])
    ensures PostListView(s, boot, Last) == Ok([p1])
    ensures PostListView(s, boot, Number(3)) == NotFound
  {
    PublishedListUnique(s, boot.listCutoff, [p3, p2, p1]);
    ThreeRowPages([p3, p2, p1]);
  }

  /** How a list of three rows splits into pages of two. */
  lemma ThreeRowPages<T>(xs: seq<T>)
    requires |xs| == 3
    ensures Page(xs, Number(1)) == Some([xs[0], xs[1]])
    ensures Page(xs, Number(2)) == Some([xs[2]])
    ensures Page(xs, Last) == Some([xs[2]])
    ensures Page(xs, Number(3)) == None
  {
    assert NumPages(3) == 2;
    var one := Page(xs, Number(1)).value;
    assert |one| == 2 && one[0] == xs[0] && one[1] == xs[1];
    assert one == [xs[0], xs[1]];
    var two := Page(xs, Number(2)).value;
    assert |two| == 1 && two[0] == xs[2];
    assert two == [xs[2]];
    var last := Page(xs, Last).value;
    assert |last| == 1 && last[0] == xs[2];
    assert last == [xs[2]];
  }

  /**
   * A new post stays hidden from anonymous readers, though its author
   * sees it, until it is published; then everyone sees it.
   */
  lemma DraftHiddenUntilPublished(s: Store, boot: Boot, user: UserId, fields: PostFields,
                                  valid: PostFields -> bool, now: Time)
    requires Valid(s) && valid(fields)
    ensures
      var c := PostCreateView(s, LoggedIn(user), Submit(fields), valid, now);
      c.Ok? &&
      var pk := c.value.next.pk;
      var s1 := c.value.store;
      && s1.posts[pk].IsDraft()
      && pk in DraftList(s1)
      && PostDetailView(s1, Anonymous, pk) == NotFound
      && PostDetailView(s1, LoggedIn(user), pk).Ok?
      && var r := PostPublishView(s1, boot, LoggedIn(user), pk);
      && r.Ok?
      && PostDetailView(r.value.store, Anonymous, pk).Ok?
      && pk !in DraftList(r.value.store)
  {
  }

  /**
   * A submitted comment is not shown among its post's approved comments:
   * the list is what it was before the submission.
   */
  lemma SubmittedCommentNotShown(s: Store, pk: PostId, fields: CommentFields,
                                 valid: CommentFields -> bool, now: Time)
    requires Valid(s) && pk in s.posts && valid(fields)
    ensures
      var a := AddCommentView(s, pk, Submit(fields), valid, now);
      && a.Ok?
      && ApprovedComments(a.value.store, pk) == ApprovedComments(s, pk)
      && exists cid :: cid in a.value.store.comments && cid !in s.comments &&
          a.value.store.comments[cid] == NewComment(pk, fields.author, fields.text, now)
  {
    var a := AddCommentView(s, pk, Submit(fields), valid, now);
    var s1 := a.value.store;
    var cid :| cid !in s.comments &&
      s1.comments == s.comments[cid := NewComment(pk, fields.author, fields.text, now)];
    IncreasingUnique(ApprovedComments(s1, pk), ApprovedComments(s, pk));
    assert cid in s1.comments;
  }

  /**
   * Approving an unapproved comment adds it to its post's approved
   * comments; removing it afterwards gives back the list from before.
   */
  lemma ApproveThenRemove(s: Store, cid: CommentId, moderator: UserId)
    requires Valid(s) && cid in s.comments && !s.comments[cid].approved
    ensures
      var pk := s.comments[cid].post;
      var r := CommentApproveView(s, LoggedIn(moderator), cid);
      && r.Ok?
      && cid in ApprovedComments(r.value.store, pk)
      && var d := CommentRemoveView(r.value.store, LoggedIn(moderator), cid);
      && d.Ok?
      && ApprovedComments(d.value.store, pk) == ApprovedComments(s, pk)
  {
    var pk := s.comments[cid].post;
    var r := CommentApproveView(s, LoggedIn(moderator), cid);
    var d := CommentRemoveView(r.value.store, LoggedIn(moderator), cid);
    var before, after := ApprovedComments(s, pk), ApprovedComments(d.value.store, pk);
    forall c
      ensures c in after <==> c in before
    {
      if c == cid {
        assert c !in after && c !in before;
      }
    }
    IncreasingUnique(after, before);
  }

  /**
   * A submitted comment is not shown among its post's approved comments
   * until a logged-in user approves it; removing it takes it away again.
   */
  lemma CommentModeration(s: Store, pk: PostId, fields: CommentFields,
                          valid: CommentFields -> bool, now: Time, moderator: UserId)
    requires Valid(s) && pk in s.posts && valid(fields)
    ensures
      var a := AddCommentView(s, pk, Submit(fields), valid, now);
      a.Ok? &&
      var s1 := a.value.store;
      && ApprovedComments(s1, pk) == ApprovedComments(s, pk)
      && exists cid :: cid in s1.comments && cid !in s.comments &&
          var r := CommentApproveView(s1, LoggedIn(moderator), cid);
          && r.Ok?
          && cid in ApprovedComments(r.value.store, pk)
          && var d := CommentRemoveView(r.value.store, LoggedIn(moderator), cid);
          && d.Ok?
          && ApprovedComments(d.value.store, pk) == ApprovedComments(s, pk)
  {
    SubmittedCommentNotShown(s, pk, fields, valid, now);
    var s1 := AddCommentView(s, pk, Submit(fields), valid, now).value.store;
    var cid :| cid in s1.comments && cid !in s.comments &&
      s1.comments[cid] == NewComment(pk, fields.author, fields.text, now);
    ApproveThenRemove(s1, cid, moderator);
  }

  /**
   * Every post on the published list is reachable: post i of the list is
   * slot i mod 2 of the list view's page i / 2 + 1.
   */
  lemma PublishedPostOnSomePage(s: Store, boot: Boot, i: nat)
    requires Valid(s)
    requires i < |PublishedList(s, boot.listCutoff)|
    ensures
      var r := PostListView(s, boot, Number(i / PaginateBy + 1));
      r.Ok? && i % PaginateBy < |r.value| &&
      r.value[i % PaginateBy] == PublishedList(s, boot.listCutoff)[i]
  {
    RowOnPage(PublishedList(s, boot.listCutoff), i);
  }

  /**
   * Every draft is reachable by a logged-in caller: draft i of the list is
   * slot i mod 2 of the draft view's page i / 2 + 1.
   */
  lemma DraftOnSomePage(s: Store, user: UserId, i: nat)
    requires Valid(s)
    requires i < |DraftList(s)|
    ensures
      var r := DraftListView(s, LoggedIn(user), Number(i / PaginateBy + 1));
      r.Ok? && i % PaginateBy < |r.value| && r.value[i % PaginateBy] == DraftList(s)[i]
  {
    RowOnPage(DraftList(s), i);
  }

  /**
   * A fresh installation: both lists have one empty page, which is also
   * the last page; there is no page 0 and no page 2.
   */
  lemma EmptyBlogPages(boot: Boot, user: UserId)
    ensures PostListView(Empty, boot, Number(1)) == Ok([])
    ensures PostListView(Empty, boot, Last) == Ok([])
    ensures PostListView(Empty, boot, Number(0)) == NotFound
    ensures PostListView(Empty, boot, Number(2)) == NotFound
    ensures DraftListView(Empty, LoggedIn(user), Number(1)) == Ok([])
    ensures DraftListView(Empty, LoggedIn(user), Last) == Ok([])
    ensures DraftListView(Empty, LoggedIn(user), Number(0)) == NotFound
    ensures DraftListView(Empty, LoggedIn(user), Number(2)) == NotFound
  {
    EmptyValid();
    assert PublishedList(Empty, boot.listCutoff) == [];
    assert DraftList(Empty) == [];
    assert NumPages(0) == 1;
  }
}
