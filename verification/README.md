# Blog post and comment workflow, in Dafny

A model of the visibility and moderation workflow of a small Django blog.
Authors write posts, which start as drafts, and publish them. Readers browse
the published posts two to a page, open a post's detail page, and leave
comments. Logged-in users approve or remove comments.

The model is functional. A `Store` holds two tables keyed by primary key:
posts and comments. Each table also keeps the next key it will hand out.
Every view is a pure function from a store and a request to a `Response`:

- `Ok`: the result, or the new store plus a redirect;
- `NotFound`: a 404;
- `NeedsLogin`: a redirect to the login page;
- `ShowForm`: the form page, shown on a GET and again after an invalid submission.

Inputs the program takes from outside become parameters:

- Login is a `Caller`, either `Anonymous` or `LoggedIn(user)`.
- A form's validation is a `valid` predicate.
- The request clock is a `now` timestamp.
- Two clock readings are taken once, when the modules are imported. They are
  carried in `Boot`:
  - `publishDefault`: the default `date` of `Post.publish`. The default
    argument `timezone.now()` is evaluated once, at definition time.
  - `listCutoff`: the `published_date__lte` bound of the published list's
    queryset. It is built once, in the class body.

Files, one module each:

- `wrappers.dfy`: `Option`.
- `blog.dfy`: the `Post` and `Comment` models, the store, and the model operations.
- `ordering.dfy`: the strict order the `order_by` clauses sort by, with an insertion sort.
- `pagination.dfy`: Django-style pagination with two rows per page.
- `queries.dfy`: the published-list and draft-list querysets.
- `views.dfy`: the views.
- `scenarios.dfy`: properties that span several views, and the test scenarios.

Two clock readings are frozen when the modules are imported, and the detail
page checks less than the list does:

- Published list cutoff: the list compares each publication date with
  `Boot.listCutoff`, the reading taken when the view class was defined, not
  with the time of the request.
- Publish date: `post_publish` calls `publish()` without a date, so it stamps
  `Boot.publishDefault`, the reading taken when the models module was
  imported, not the time of the call.
- Detail visibility: the detail page asks only whether a publication date is
  set. The list also asks that the date be no later than its cutoff. So a
  post dated after the cutoff opens in detail but is missing from the list;
  see `Scenarios.DetailShowsWhatListHides`.
- Form handling: validation is left to Django forms. It is modelled as the
  opaque `valid` predicate, which only accepts or rejects a submission.
  `PostFields` and `CommentFields` are the form's cleaned data, after
  Django's whitespace stripping, so the stored title, text and author are the
  cleaned values.

Two consequences are proved:

- A post created after start-up and then published through the view gets a
  publication date earlier than its creation date
  (`Scenarios.PublishedBeforeCreated`).
- Such a post still shows on the list (`Scenarios.PublishViewListsPost`).
  The lemma assumes the publish default is no later than the list cutoff.
  The source always meets this: `blog/views.py:16` imports the models
  module, which evaluates the default (`blog/models.py:16`), before the
  class body at `blog/views.py:21-22` reads the clock. `Boot` itself does
  not enforce the order.

The index tests build posts published at "now − 1 day", "now − 1 hour" and
the import-time default. They expect the default-dated post to be the newest.
That holds only when the tests start within an hour of the import;
`Scenarios.IndexPages` states this as its hypothesis
`published(p2) < published(p3)`.

## Model

| member | source | states |
|---|---|---|
| Blog.NewPost | blog/models.py:8-13 | a newly saved post is a draft (no publication date), stamped with its creation time, with the given author, title and text |
| Blog.Publish | blog/models.py:16-18 | after `publish(date)` the post is published at exactly `date`; author, title, text and creation time are unchanged |
| Blog.PublishLastWriteWins | blog/models.py:16-18 | publishing again overwrites the date (last write wins); publishing twice with one date equals publishing once |
| Blog.NewComment | blog/models.py:30-35 | a new comment is attached to its post and is not approved |
| Blog.Approve | blog/models.py:37-39 | `approve()` sets the approved flag; post, author, text and creation time are unchanged |
| Blog.ApproveIdempotent | blog/models.py:37-39 | approving twice equals approving once; approving an approved comment changes nothing |
| Blog.ApprovedComments | blog/models.py:23-24 | `approved_comments()` holds exactly the approved comments whose post is this post, each once |
| Blog.DeletePost | blog/models.py:31 | deleting a post removes exactly the comments attached to it and keeps every other comment unchanged; the store stays valid, so no comment refers to a missing post |
| Blog.DeleteComment | blog/views.py:108 | deleting a comment removes that comment only; posts are untouched and the store stays valid |
| Ordering.Sort | blog/views.py:21-28 | the `order_by` sort returns a permutation of its input that is strictly ordered by key (descending or ascending), ties by ascending id |
| Ordering.SortedUnique | blog/views.py:21-28 | a strictly sorted sequence is determined by its set of entries, so the sort's output is the one ordered arrangement of the query's rows |
| Queries.PublishedRanking | blog/views.py:22 | the published queryset ranks exactly the posts whose date is set and no later than the cutoff, each with its date, strictly newest first |
| Queries.DraftRanking | blog/views.py:27 | the draft queryset ranks exactly the posts without a date, each with its creation time, strictly oldest first |
| Queries.PublishedList | blog/views.py:22 | a post is on the published list iff its date is set and no later than the cutoff; drafts never are; no post appears twice; dates do not increase down the list |
| Queries.DraftList | blog/views.py:27 | a post is on the draft list iff it has no publication date; no post appears twice; creation times do not decrease down the list |
| Queries.PublishedListUnique | blog/views.py:22 | any duplicate-free listing of exactly the listed posts, newest first with ties by key, equals the published list |
| Queries.DraftListUnique | blog/views.py:27 | any listing of exactly the drafts, oldest first with ties by key, equals the draft list |
| Pagination.NumPages | blog/views.py:23 | the page count is the least p ≥ 1 with count ≤ 2p, so an empty list has one empty page |
| Pagination.Page | blog/views.py:23 | a page exists iff its number lies in 1..page count; page k holds exactly the rows at indices 2(k−1) up to min(2k, n) − 1, so it is full unless it is the last page |
| Pagination.AllPagesRebuildList | blog/views.py:23 | reading every page in order rebuilds the whole list, each row exactly once |
| Pagination.RowOnPage | blog/views.py:23 | row i of the list appears on page i/2 + 1 at slot i mod 2 |
| Views.PostListView | blog/views.py:21-23 | no login needed; a page exists iff it is a valid page of the published list, else 404; the result is that page of the published list (for a number or "last"): at most two posts, all published by the cutoff, full unless it is the last page |
| Views.DraftListView | blog/views.py:26-29 | an anonymous caller is sent to log in; a logged-in caller gets that page of the draft list (for a number or "last"): at most two drafts, full unless it is the last page; an invalid page is a 404 |
| Views.PostDetailView | blog/views.py:32-47 | the post is returned iff it exists and either has a publication date (past or future) or the caller is logged in; otherwise 404 |
| Views.PostCreateView | blog/views.py:50-58 | login required; a valid submission stores a new draft under a fresh key, with the submitted title and text, authored by the caller, created now; comments are untouched; it redirects to the new post |
| Views.PostUpdateView | blog/views.py:61-69 | login required, 404 for a missing post; a valid submission replaces title and text and reassigns the author to the caller; creation and publication dates and all other posts stay |
| Views.PostDeleteView | blog/views.py:72-74 | login required, 404 for a missing post, confirmation page on GET; the delete removes the post and exactly its comments, then redirects to the list |
| Views.PostPublishView | blog/views.py:77-81 | login required, 404 for a missing post; the post is published with the import-time default date, not the request time; it redirects to the post |
| Views.AddCommentView | blog/views.py:84-95 | no login; 404 for a missing post, even for the form; a valid submission adds exactly one new comment, unapproved and attached to that post, and redirects to it |
| Views.CommentApproveView | blog/views.py:98-102 | login required, 404 for a missing comment; the comment is approved, joins its post's approved comments, and the redirect goes to its post |
| Views.CommentRemoveView | blog/views.py:105-109 | login required, 404 for a missing comment; only that comment is deleted, it leaves the approved comments, and the redirect goes to the post it was on |
| Scenarios.ListedPostsAreVisible | blog/views.py:36-47 | every post on the published list opens in detail for any caller |
| Scenarios.DetailShowsWhatListHides | blog/views.py:36-47 | a post dated after the list's cutoff opens in detail for an anonymous reader but is absent from the published list |
| Scenarios.PublishViewListsPost | blog/views.py:77-81 | when the publish default is no later than the list cutoff, a post published through the view is on the published list |
| Scenarios.PublishedBeforeCreated | blog/models.py:12-18 | a post created after the import-time default and then published through the view has a publication date before its creation date |
| Scenarios.IndexPages | blog/tests.py:49-126 | with posts published at d1 < d2 < d3 ≤ cutoff plus one draft: page 1 is [post3, post2], page 2 and the last page are [post1], page 3 is a 404, and the draft never shows |
| Scenarios.ThreeRowPages | blog/tests.py:87-105 | three rows make one full page of two and a last page of one; page 3 does not exist |
| Scenarios.DraftHiddenUntilPublished | blog/views.py:36-81 | a newly created post is a draft on the draft list, hidden from anonymous readers but shown to its author; once published through the view, anyone can open it and it leaves the draft list |
| Scenarios.SubmittedCommentNotShown | blog/views.py:84-92 | a valid comment submission adds one new unapproved comment and leaves the post's approved comments exactly as they were |
| Scenarios.ApproveThenRemove | blog/views.py:98-109 | approving an unapproved comment adds it to its post's approved comments; removing it then restores the approved comments from before |
| Scenarios.PublishedPostOnSomePage | blog/views.py:21-23 | post i of the published list is slot i mod 2 of the list view's page i/2 + 1, so every listed post is reachable |
| Scenarios.DraftOnSomePage | blog/views.py:26-29 | for a logged-in caller, draft i of the draft list is slot i mod 2 of the draft view's page i/2 + 1, so every draft is reachable |
| Blog.EmptyValid | blog/models.py:8-35 | the store of a fresh installation, with no posts and no comments, satisfies the store invariant |
| Scenarios.EmptyBlogPages | blog/views.py:21-29 | on an empty blog, page 1 and the last page of both lists are empty, and pages 0 and 2 are a 404 (an empty first page is allowed) |
| Scenarios.CommentModeration | blog/views.py:84-109 | a submitted comment leaves the approved comments unchanged; after approval it is among them; after removal they are back to what they were |

## Left out

- The URL routing table (`blog/urls.py`): it only wires paths to views, and it names views (`post_new`, `post_edit`, `post_draft_list`, `post_remove`) and a `post_id` argument that `blog/views.py` does not define.
- `blog/forms.py` is not part of this model. Whether a form accepts a submission (required fields, `max_length`) is the opaque `valid` predicate. Per-field error messages are not modelled. Cleaning, including whitespace stripping, happens before the model: `PostFields` and `CommentFields` hold the cleaned values, not the raw request data.
- `CommentForm` is taken to expose `author` and `text` only, as `CommentFields` does. This is why a submitted comment is always unapproved (the default at `blog/models.py:35`); a form that also exposed `approved_comment` would let a submission set it.
- Persistence is the in-memory `Store`. Key assignment is a per-table counter, standing in for the database sequence. Transactions, concurrent requests and last-write-wins races are not modelled.
- Templates, rendering, the detail page's comment listing and comment counts: these live in templates that are not part of this model.
- HTTP details: redirects are the `Redirect` values, the login flow (including its `next` parameter) is `NeedsLogin`, and HTTP methods are `Request.Show`/`Request.Submit` or the delete view's `confirmed` flag.
- Authentication and sessions are the `Caller` value. `Post.author`'s link to a user table, and the cascade from deleting a user, are not modelled: there is no user table.
- The clock and time zones: timestamps are integers, and `now` and `Boot` are parameters.
- `__str__` and `get_absolute_url`: these are display helpers. The latter's redirect target is `Redirect.ToDetail`.
- Pagination's page argument is `PageArg`: a number, the word "last", or anything else (a 404). Django's string parsing of the number is not modelled.
- Queries.PublishedList: the database leaves the order of equal dates unspecified. The model fixes it as ascending key, so tied posts may be listed in another order by the real database.
- Queries.DraftList: the same holds for equal creation times.
- Blog.ApprovedComments: the queryset has no `order_by`. The model lists by ascending key, an order the database does not promise.
