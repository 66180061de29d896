/**
 * The blog's views as functions from a store and a request to a response:
 * the published and draft lists, the detail page, post create / edit /
 * delete / publish, and comment submission, approval and removal. Login
 * is the `Caller`; a form's validation is the `valid` predicate the
 * caller supplies; the clock is the `now` argument.
 */
module Views {
  import opened Wrappers
  import opened Blog
  import opened Queries
  import opened Pagination

  /** Who sends a request: nobody logged in, or a logged-in user. */
  datatype Caller = Anonymous | LoggedIn(user: UserId)

  /**
   * The two clock readings taken once, when the modules are imported:
   * the default `date` of `Post.publish`, and the cutoff of the published
   * list's queryset. Neither moves afterwards.
   */
  datatype Boot = Boot(publishDefault: Time, listCutoff: Time)

  /** A form request: showing the form, or submitting its fields. */
  datatype Request<F> = Show | Submit(fields: F)

  /** The fields of the post form. */
  datatype PostFields = PostFields(title: string, text: string)

  /** The fields of the comment form. */
  datatype CommentFields = CommentFields(author: string, text: string)

  /** Where a successful change sends the browser. */
  datatype Redirect = ToDetail(pk: PostId) | ToPostList

  /** The store after a successful change, and the redirect that follows. */
  datatype Change = Change(store: Store, next: Redirect)

  /**
   * A view's outcome: a result, a 404, a redirect to the login page, or
   * the form page (shown on a GET and again after an invalid submission).
   */
  datatype Response<T> = Ok(value: T) | NotFound | NeedsLogin | ShowForm

  /** Page `page` of a list as a response: a 404 where the page does not exist. */
  function PageResponse(all: seq<PostId>, page: PageArg): (r: Response<seq<PostId>>)
    ensures r.Ok? || r.NotFound?
    ensures r.Ok? <==> HasPage(|all|, page)
    ensures r.Ok? ==> |r.value| <= PaginateBy
    ensures r.Ok? ==> forall id :: id in r.value ==> id in all
    ensures r.Ok? ==> Page(all, page) == Some(r.value)
    // Implied by the `Page` clause above; stated so that callers need not unfold `Page`.
    ensures r.Ok? && page.Number? ==>
      (page.n - 1) * PaginateBy + |r.value| <= |all| &&
      forall j :: 0 <= j < |r.value| ==> r.value[j] == all[(page.n - 1) * PaginateBy + j]
  {
    match Page(all, page)
    case Some(rows) => Ok(rows)
    case None => NotFound
  }

  /**
   * `PostListView`: page `page` of the posts published no later than the
   * cutoff fixed at import time, newest first, two per page; a page
   * that does not exist is a 404. No login is needed.
   */
  function PostListView(s: Store, boot: Boot, page: PageArg): (r: Response<seq<PostId>>)
    requires Valid(s)
    ensures r.Ok? || r.NotFound?
    ensures r.Ok? <==> HasPage(|PublishedList(s, boot.listCutoff)|, page)
    ensures r.Ok? ==> |r.value| <= PaginateBy
    ensures r.Ok? ==> Page(PublishedList(s, boot.listCutoff), page) == Some(r.value)
    ensures r.Ok? ==> forall id :: id in r.value ==>
      id in s.posts && IsListed(s.posts[id], boot.listCutoff)
    // Implied by the `Page` clause above; stated so that callers need not unfold `Page`.
    ensures r.Ok? && page.Number? ==>
      var all := PublishedList(s, boot.listCutoff);
      (page.n - 1) * PaginateBy + |r.value| <= |all| &&
      forall j :: 0 <= j < |r.value| ==> r.value[j] == all[(page.n - 1) * PaginateBy + j]
  {
    PageResponse(PublishedList(s, boot.listCutoff), page)
  }

  /**
   * `DraftPostListView`: for a logged-in caller, page `page` of the
   * drafts, oldest created first, two per page; anyone else is sent to
   * the login page.
   */
  function DraftListView(s: Store, caller: Caller, page: PageArg): (r: Response<seq<PostId>>)
    requires Valid(s)
    ensures r.NeedsLogin? <==> caller.Anonymous?
    ensures !r.ShowForm?
    ensures r.Ok? <==> caller.LoggedIn? && HasPage(|DraftList(s)|, page)
    ensures r.Ok? ==> |r.value| <= PaginateBy
    ensures r.Ok? ==> Page(DraftList(s), page) == Some(r.value)
    ensures r.Ok? ==> forall id :: id in r.value ==> id in s.posts && s.posts[id].IsDraft()
    // Implied by the `Page` clause above; stated so that callers need not unfold `Page`.
    ensures r.Ok? && page.Number? ==>
      var all := DraftList(s);
      (page.n - 1) * PaginateBy + |r.value| <= |all| &&
      forall j :: 0 <= j < |r.value| ==> r.value[j] == all[(page.n - 1) * PaginateBy + j]
  {
    if caller.Anonymous? then NeedsLogin
    else
      PageResponse(DraftList(s), page)
  }

  /**
   * `PostDetailView.get_object`: post `pk` is shown when it exists and
   * either has a publication date (past or future) or the caller is
   * logged in; otherwise 404, so a draft's existence does not leak.
   */
  function PostDetailView(s: Store, caller: Caller, pk: PostId): (r: Response<Post>)
    ensures r.Ok? || r.NotFound?
    ensures r.Ok? <==> pk in s.posts && (!s.posts[pk].IsDraft() || caller.LoggedIn?)
    ensures r.Ok? ==> r.value == s.posts[pk]
  {
    if pk !in s.posts then NotFound
    else
      var p := s.posts[pk];
      if p.published.Some? then Ok(p)
      else if caller.LoggedIn? then Ok(p)
      else NotFound
  }

  /**
   * `PostCreateView`: a logged-in caller's valid submission saves a new
   * draft with the submitted title and text, authored by the caller and
   * created at `now`, and redirects to its detail page.
   */
  function PostCreateView(s: Store, caller: Caller, req: Request<PostFields>,
                          valid: PostFields -> bool, now: Time): (r: Response<Change>)
    requires Valid(s)
    ensures r.NeedsLogin? <==> caller.Anonymous?
    ensures !r.NotFound?
    ensures r.ShowForm? <==> caller.LoggedIn? && (req.Show? || !valid(req.fields))
    ensures r.Ok? ==>
      && Valid(r.value.store)
      && r.value.store.comments == s.comments
      && r.value.next.ToDetail?
      && var id := r.value.next.pk;
      && id !in s.posts
      && r.value.store.posts == s.posts[id := NewPost(caller.user, req.fields.title, req.fields.text, now)]
  {
    if caller.Anonymous? then NeedsLogin
    else
      match req
      case Show => ShowForm
      case Submit(f) =>
        if !valid(f) then ShowForm
        else
          var (s', id) := InsertPost(s, NewPost(caller.user, f.title, f.text, now));
          Ok(Change(s', ToDetail(id)))
  }

  /**
   * `PostUpdateView`: a logged-in caller's valid submission replaces the
   * title and text of post `pk` and makes the caller its author, whoever
   * wrote it; the creation and publication dates stay. Any logged-in
   * user may edit any post.
   */
  function PostUpdateView(s: Store, caller: Caller, pk: PostId, req: Request<PostFields>,
                          valid: PostFields -> bool): (r: Response<Change>)
    requires Valid(s)
    ensures r.NeedsLogin? <==> caller.Anonymous?
    ensures r.NotFound? <==> caller.LoggedIn? && pk !in s.posts
    ensures r.ShowForm? <==> caller.LoggedIn? && pk in s.posts && (req.Show? || !valid(req.fields))
    ensures r.Ok? ==>
      && Valid(r.value.store)
      && r.value.next == ToDetail(pk)
      && r.value.store.comments == s.comments
      && r.value.store.posts.Keys == s.posts.Keys
      && (forall id :: id in s.posts && id != pk ==> r.value.store.posts[id] == s.posts[id])
      && var p := r.value.store.posts[pk];
      && p.author == caller.user
      && p.title == req.fields.title && p.text == req.fields.text
      && p.created == s.posts[pk].created && p.published == s.posts[pk].published
  {
    if caller.Anonymous? then NeedsLogin
    else if pk !in s.posts then NotFound
    else
      match req
      case Show => ShowForm
      case Submit(f) =>
        if !valid(f) then ShowForm
        else
          var edited := s.posts[pk].(author := caller.user, title := f.title, text := f.text);
          Ok(Change(SavePost(s, pk, edited), ToDetail(pk)))
  }

  /**
   * `PostDeleteView`: a logged-in caller's confirmed delete removes post
   * `pk` with all its comments and redirects to the list; the GET shows
   * the confirmation page.
   */
  function PostDeleteView(s: Store, caller: Caller, pk: PostId, confirmed: bool): (r: Response<Change>)
    requires Valid(s)
    ensures r.NeedsLogin? <==> caller.Anonymous?
    ensures r.NotFound? <==> caller.LoggedIn? && pk !in s.posts
    ensures r.ShowForm? <==> caller.LoggedIn? && pk in s.posts && !confirmed
    ensures r.Ok? ==>
      && Valid(r.value.store)
      && r.value.next == ToPostList
      && r.value.store.posts == s.posts - {pk}
      && (forall c :: c in r.value.store.comments <==> c in s.comments && s.comments[c].post != pk)
      && (forall c :: c in r.value.store.comments ==> r.value.store.comments[c] == s.comments[c])
  {
    if caller.Anonymous? then NeedsLogin
    else if pk !in s.posts then NotFound
    else if !confirmed then ShowForm
    else Ok(Change(DeletePost(s, pk), ToPostList))
  }

  /**
   * `post_publish`: for a logged-in caller, publishes post `pk` with
   * `publish()`'s default date, the clock reading taken at import time
   * and not the time of the request, and redirects to its detail page.
   */
  function PostPublishView(s: Store, boot: Boot, caller: Caller, pk: PostId): (r: Response<Change>)
    requires Valid(s)
    ensures r.NeedsLogin? <==> caller.Anonymous?
    ensures r.NotFound? <==> caller.LoggedIn? && pk !in s.posts
    ensures !r.ShowForm?
    ensures r.Ok? ==>
      && Valid(r.value.store)
      && r.value.next == ToDetail(pk)
      && r.value.store.comments == s.comments
      && r.value.store.posts == s.posts[pk := Publish(s.posts[pk], boot.publishDefault)]
  {
    if caller.Anonymous? then NeedsLogin
    else if pk !in s.posts then NotFound
    else Ok(Change(SavePost(s, pk, Publish(s.posts[pk], boot.publishDefault)), ToDetail(pk)))
  }

  /**
   * `add_comment_to_post`: anyone may comment on an existing post; a
   * valid submission saves an unapproved comment on post `pk` and
   * redirects to the post. A missing post is a 404 even for the form.
   */
  function AddCommentView(s: Store, pk: PostId, req: Request<CommentFields>,
                          valid: CommentFields -> bool, now: Time): (r: Response<Change>)
    requires Valid(s)
    ensures !r.NeedsLogin?
    ensures r.NotFound? <==> pk !in s.posts
    ensures r.ShowForm? <==> pk in s.posts && (req.Show? || !valid(req.fields))
    ensures r.Ok? ==>
      && Valid(r.value.store)
      && r.value.next == ToDetail(pk)
      && r.value.store.posts == s.posts
      && (exists id: CommentId :: id !in s.comments &&
            r.value.store.comments == s.comments[id := NewComment(pk, req.fields.author, req.fields.text, now)])
  {
    if pk !in s.posts then NotFound
    else
      match req
      case Show => ShowForm
      case Submit(f) =>
        if !valid(f) then ShowForm
        else
          var (s', id) := InsertComment(s, NewComment(pk, f.author, f.text, now));
          Ok(Change(s', ToDetail(pk)))
  }

  /**
   * `comment_approve`: for a logged-in caller, approves comment `pk`,
   * which then counts among its post's approved comments, and redirects
   * to that post. Any logged-in user may approve any comment.
   */
  function CommentApproveView(s: Store, caller: Caller, pk: CommentId): (r: Response<Change>)
    requires Valid(s)
    ensures r.NeedsLogin? <==> caller.Anonymous?
    ensures r.NotFound? <==> caller.LoggedIn? && pk !in s.comments
    ensures !r.ShowForm?
    ensures r.Ok? ==>
      && Valid(r.value.store)
      && r.value.next == ToDetail(s.comments[pk].post)
      && r.value.store.posts == s.posts
      && r.value.store.comments == s.comments[pk := Approve(s.comments[pk])]
      && pk in ApprovedComments(r.value.store, s.comments[pk].post)
  {
    if caller.Anonymous? then NeedsLogin
    else if pk !in s.comments then NotFound
    else
      var c := s.comments[pk];
      Ok(Change(SaveComment(s, pk, Approve(c)), ToDetail(c.post)))
  }

  /**
   * `comment_remove`: for a logged-in caller, deletes comment `pk` and
   * nothing else, and redirects to the post it was on.
   */
  function CommentRemoveView(s: Store, caller: Caller, pk: CommentId): (r: Response<Change>)
    requires Valid(s)
    ensures r.NeedsLogin? <==> caller.Anonymous?
    ensures r.NotFound? <==> caller.LoggedIn? && pk !in s.comments
    ensures !r.ShowForm?
    ensures r.Ok? ==>
      && Valid(r.value.store)
      && r.value.next == ToDetail(s.comments[pk].post)
      && r.value.store.posts == s.posts
      && r.value.store.comments == s.comments - {pk}
      && pk !in ApprovedComments(r.value.store, s.comments[pk].post)
  {
    if caller.Anonymous? then NeedsLogin
    else if pk !in s.comments then NotFound
    else Ok(Change(DeleteComment(s, pk), ToDetail(s.comments[pk].post)))
  }
}
