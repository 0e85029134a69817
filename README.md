# Yatube feeds and follow graph, modelled in Dafny

Yatube is a server-rendered blogging site. Users write posts, which can be
filed under a group. They comment on posts and follow other authors. This
project models the request handlers of `yatube/posts/views.py` over an
in-memory copy of the database:

- users, groups (unique slug), posts (id, text, publication date, author,
  optional group), comments, and follow edges (user → author);
- the read-only views (`index`, `group_posts`, `profile`, `post_detail`,
  `follow_index`) as pure functions of the stored tables;
- the handlers that change state (`post_create`, `post_edit`,
  `add_comment`, `profile_follow`, `profile_unfollow`) as methods of the
  class `Blog.Site`.

Files:

- `seqs.dfy`: tables as sequences, with ordered filtering, lookup by a
  unique field, deletion of equal rows and newest-first insertion.
- `models.dfy`: the entities and the fetch-one-or-404 lookups.
- `follows.dfy`: the follow-edge store and its invariant. No user follows
  themself, and each (user, author) pair is stored at most once, as the
  `unique_user_author` constraint requires.
- `feeds.dfy`: the feeds and the properties the tests assert about them.
- `blog.dfy`: the site state, its invariant `Valid()` and the mutating handlers.

The post and comment tables are kept in their default ordering
(`-pub_date`, `-created`) as an invariant. A new row goes where that
ordering puts it. `follow_index` is modelled as the SQL join it compiles to,
which yields one copy of a post per matching Follow row. The model then
proves that, while Follow rows are unique, this join is exactly the filter
"posts whose author the viewer follows".

Three behaviours of the code worth noting:

- For an anonymous viewer, `profile` leaves the `following` flag out of the
  page instead of setting it to false. The model returns `None`.
- `profile_unfollow` deletes every Follow row equal to (viewer, author), not
  just one.
- A user who views their own profile is not special-cased. The flag is
  whether the edge (viewer, viewer) exists. Self-follows are refused, so the
  flag is always false (`Feeds.OwnProfileNotFollowing`).

## Model

| member | source | states |
|---|---|---|
| `Models.UserNamed` | yatube/posts/views.py:33 | the user found has the requested username; None only when no stored user has it |
| `Models.GroupWithSlug` | yatube/posts/views.py:21 | the group found has the requested slug; None only when no stored group has it |
| `Models.PostWithId` | yatube/posts/views.py:59 | the post found has the requested primary key; None only when no stored post has it |
| `Models.PostIndex` | yatube/posts/views.py:91 | the position found holds the post with the requested key; None only when no post has it |
| `Models.UserNamedFinds` | yatube/posts/views.py:33 | with unique usernames, looking up a stored user's name returns exactly that user |
| `Models.GroupWithSlugFinds` | yatube/posts/views.py:21 | with unique slugs, looking up a stored group's slug returns exactly that group |
| `Models.PostIndexFinds` | yatube/posts/views.py:91 | with unique primary keys, looking up a stored post's id returns its own position |
| `Follows.AddFollow` | yatube/posts/views.py:143-146 | the store changes iff user ≠ author and the edge is absent, and then only by appending that edge; the edge is present afterwards iff user ≠ author or it was present; the no-self-follow and no-duplicate invariant is preserved |
| `Follows.RemoveFollow` | yatube/posts/views.py:154-161 | the edge (user, author) is gone; every other edge keeps its multiplicity; no edge is added; the invariant is preserved; with unique edges the row count drops by one exactly when the edge was present |
| `Follows.AddFollowIdempotent` | yatube/posts/views.py:143-146 | following twice gives the same edge store as following once |
| `Follows.RemoveFollowIdempotent` | yatube/posts/views.py:154-161 | unfollowing twice gives the same edge store as unfollowing once |
| `Follows.FollowThenUnfollow` | yatube/posts/tests/test_views.py:216-229 | for a new pair with user ≠ author, following adds exactly one row, and unfollowing then restores the original store |
| `Seqs.InsertNewest` | yatube/posts/migrations/0011_auto_20220925_1658.py:27 | inserting a row adds exactly that row (as multisets: every old row stays, nothing else appears) and keeps a newest-first table newest-first |
| `Seqs.InsertNewestUnique` | yatube/posts/views.py:76-79 | saving a row whose primary key no stored row has keeps the primary key unique |
| `Seqs.FilterNewestFirst` | yatube/posts/migrations/0011_auto_20220925_1658.py:27 | restricting a newest-first table by any condition keeps it newest-first |
| `Seqs.FilterCount` | yatube/posts/views.py:129-130 | a query's condition keeps each matching row exactly as often as it is stored and drops every other row |
| `Seqs.FilterDistinct` | yatube/posts/views.py:129-130 | restricting a table without duplicate rows yields no duplicate rows |
| `Feeds.GroupFeed` | yatube/posts/views.py:22 | holds exactly the stored posts whose group is the given group, each as often as it is stored, newest first |
| `Feeds.AuthorFeed` | yatube/posts/views.py:34 | holds exactly the stored posts by the given author, each as often as it is stored, newest first |
| `Feeds.CommentsOn` | yatube/posts/views.py:61 | holds exactly the stored comments on the given post, each as often as it is stored, newest first |
| `Feeds.GroupPosts` | yatube/posts/views.py:20-28 | NotFound iff no group has the slug; otherwise the page's group has that slug and its posts are exactly that group's posts, newest first |
| `Feeds.Profile` | yatube/posts/views.py:31-55 | NotFound iff no user has the username; otherwise the posts are exactly the author's, newest first; the flag is absent iff the viewer is anonymous, and for a signed-in viewer it is true iff the edge (viewer, author) exists |
| `Feeds.PostDetail` | yatube/posts/views.py:58-67 | NotFound iff no post has the id; otherwise the page shows that post and exactly its comments, newest first |
| `Feeds.FollowJoin` | yatube/posts/views.py:129-130 | the joined rows are exactly the posts whose author the viewer follows, newest first |
| `Feeds.FollowJoinCount` | yatube/posts/views.py:129-130 | each post occurs in the join once per stored copy and per matching Follow row: its count is the product of the two |
| `Feeds.FollowedPosts` | yatube/posts/views.py:129-130 | the reference feed: exactly the stored posts whose author the viewer follows, each as often as it is stored; it has no repeats when the post table has none |
| `Feeds.FollowIndex` | yatube/posts/views.py:126-136 | holds exactly the posts whose author the signed-in viewer follows, newest first; under the edge invariant it equals the reference feed, and it repeats no post when the post table has no duplicate rows |
| `Feeds.FollowJoinIsFilter` | yatube/posts/migrations/0011_auto_20220925_1658.py:29-31 | when Follow rows are unique, the join equals the plain filter of the post table: no post is multiplied by duplicate edges |
| `Feeds.PostOnIndexAndGroupPage` | yatube/posts/tests/test_views.py:139-149 | a stored post in group g is on the index page, and g's slug finds g's page, which holds the post |
| `Feeds.PostNotInOtherGroup` | yatube/posts/tests/test_views.py:151-188 | a post filed under one group is never on another group's page |
| `Feeds.OwnProfileNotFollowing` | yatube/posts/views.py:36-44 | while self-follows are excluded, a signed-in user's own profile shows following = false |
| `Feeds.FollowFeedTracksEdges` | yatube/posts/tests/test_views.py:231-257 | after following an author, all of their posts are in the follow feed; after unfollowing, none is; the feed is empty if that author was the only one followed |
| `Blog.Site.FollowFeedNoRepeats` | yatube/posts/views.py:126-136 | in a site that satisfies its invariant (unique post keys, unique Follow rows), follow_index shows no post twice |
| `Blog.Edited` | yatube/posts/views.py:104-105 | saving the edit form takes its text and group, and keeps the post's id, author and publication date |
| `Blog.Site.PostCreate` | yatube/posts/views.py:70-85 | an accepted form stores one new post by the current user, with a fresh id, in newest-first position, and redirects to that user's profile; otherwise nothing changes and the form is shown; the site invariant is kept |
| `Blog.Site.PostEdit` | yatube/posts/views.py:88-109 | unknown id gives 404; a non-author is redirected and the posts are unchanged; the author's accepted form replaces that post in place with `Edited`; otherwise the edit form is shown; the invariant is kept |
| `Blog.Site.AddComment` | yatube/posts/views.py:112-123 | unknown post gives 404; an accepted form stores one comment by the current user on the looked-up post, newest first; every other request only redirects to the post; the invariant is kept |
| `Blog.Site.ProfileFollow` | yatube/posts/views.py:139-147 | unknown username gives 404 and no change; otherwise the edge store becomes `AddFollow` of the old one, and the viewer is redirected to the follow feed; the invariant is kept |
| `Blog.Site.ProfileUnfollow` | yatube/posts/views.py:150-162 | unknown username gives 404 and no change; otherwise the edge store becomes `RemoveFollow` of the old one, and the viewer is redirected to the index; the invariant is kept |

## Left out

- The 20-second page cache on `index` (`cache_page`): it expires by wall-clock time. The model has no clock and no rendered output to cache.
- Pagination (`paginate_objects`): it is defined in `yatube/posts/utils.py`, which is not part of this model. The feeds are modelled whole, before they are split into pages.
- Form validation (`PostForm`, `CommentForm`): it lives in `yatube/posts/forms.py`, which is not part of this model. Whether a submitted form validates is a boolean input.
- Images and file uploads, templates and rendering: these are presentation and I/O. A response is modelled only as a redirect target, "show the post form", or 404.
- Authentication (`login_required`): it is a precondition. The viewer is a stored user.
- Clock readings for `pub_date` and `created`: the caller passes them in as `now`. When two rows have the same timestamp, the database leaves their order unspecified. The model puts the newer row before rows with an equal stamp.
- Concurrent requests: each handler runs as one atomic step, and requests are serialized. In `profile_follow` (`yatube/posts/views.py:143-146`), two simultaneous requests can both pass the `exists()` check, and the second `create()` then fails on the `unique_user_author` constraint with an IntegrityError. The model does not capture that race or its error.
- Foreign keys from posts and follow edges to users and groups: the model does not keep referential integrity for these. It does keep it for comments, whose post must be stored.
- `Feeds.Index`: its body is the stored post table itself, so it has no contract of its own. Its one property is stated in `Feeds.PostOnIndexAndGroupPage`.
- `yatube/posts/admin.py` and `yatube/core/context_processors/year.py`: the first is declarative admin configuration, and the second only reads the system clock.
