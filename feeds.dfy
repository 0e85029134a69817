/**
 * The read-only views of yatube/posts/views.py as functions of the stored
 * tables: index, group_posts, profile, post_detail and follow_index. Each
 * feed is the stored newest-first post table restricted by one condition;
 * a view that fetches an object by a unique field answers NotFound when the
 * object does not exist.
 */
module Feeds {
  import opened Seqs
  import opened Models
  import opened Follows

  /** What a view that starts with a fetch-or-404 returns. */
  datatype Lookup<T> = Found(page: T) | NotFound

  datatype GroupPage = GroupPage(group: Group, posts: seq<Post>)

  /**
   * The profile page. `following` is None for an anonymous viewer and
   * Some(b) for a signed-in one.
   */
  datatype ProfilePage = ProfilePage(author: User, posts: seq<Post>, following: Option<bool>)

  datatype DetailPage = DetailPage(post: Post, comments: seq<Comment>)

  /** index: every stored post, in the table's newest-first order. */
  function Index(posts: seq<Post>): seq<Post> {
    posts
  }

  /** `group.posts.all()`: the posts whose group is `gid`. */
  function GroupFeed(posts: seq<Post>, gid: GroupId): (r: seq<Post>)
    ensures forall p :: p in r <==> p in posts && p.group == Some(gid)
    ensures forall p :: multiset(r)[p] == if p.group == Some(gid) then multiset(posts)[p] else 0
    ensures NewestFirst(posts, PubDate) ==> NewestFirst(r, PubDate)
  {
    var keep := (p: Post) => p.group == Some(gid);
    FilterCount(posts, keep);
    FilterNewestFirst(posts, keep, PubDate);
    Filter(posts, keep)
  }

  /** `author.posts.all()`: the posts written by `uid`. */
  function AuthorFeed(posts: seq<Post>, uid: UserId): (r: seq<Post>)
    ensures forall p :: p in r <==> p in posts && p.author == uid
    ensures forall p :: multiset(r)[p] == if p.author == uid then multiset(posts)[p] else 0
    ensures NewestFirst(posts, PubDate) ==> NewestFirst(r, PubDate)
  {
    var keep := (p: Post) => p.author == uid;
    FilterCount(posts, keep);
    FilterNewestFirst(posts, keep, PubDate);
    Filter(posts, keep)
  }

  /** `post.comments.all()`: the comments on post `id`. */
  function CommentsOn(comments: seq<Comment>, id: PostId): (r: seq<Comment>)
    ensures forall c :: c in r <==> c in comments && c.post == id
    ensures forall c :: multiset(r)[c] == if c.post == id then multiset(comments)[c] else 0
    ensures NewestFirst(comments, Created) ==> NewestFirst(r, Created)
  {
    var keep := (c: Comment) => c.post == id;
    FilterCount(comments, keep);
    FilterNewestFirst(comments, keep, Created);
    Filter(comments, keep)
  }

  /** group_posts: the group named by `slug` and its feed, or NotFound. */
  function GroupPosts(groups: seq<Group>, posts: seq<Post>, slug: string): (r: Lookup<GroupPage>)
    ensures r.NotFound? <==> forall g :: g in groups ==> g.slug != slug
    ensures r.Found? ==> r.page.group in groups && r.page.group.slug == slug
    ensures r.Found? ==> forall p :: p in r.page.posts <==> p in posts && p.group == Some(r.page.group.id)
    ensures r.Found? && NewestFirst(posts, PubDate) ==> NewestFirst(r.page.posts, PubDate)
  {
    match GroupWithSlug(groups, slug)
    case None => NotFound
    case Some(g) => Found(GroupPage(g, GroupFeed(posts, g.id)))
  }

  /**
   * profile: the user named `username` and their posts, or NotFound; a
   * signed-in viewer also learns whether they follow that user.
   */
  function Profile(users: seq<User>, posts: seq<Post>, follows: seq<Follow>,
                   viewer: Option<User>, username: string): (r: Lookup<ProfilePage>)
    ensures r.NotFound? <==> forall u :: u in users ==> u.username != username
    ensures r.Found? ==> r.page.author in users && r.page.author.username == username
    ensures r.Found? ==> forall p :: p in r.page.posts <==> p in posts && p.author == r.page.author.id
    ensures r.Found? && NewestFirst(posts, PubDate) ==> NewestFirst(r.page.posts, PubDate)
    ensures r.Found? ==> (r.page.following.None? <==> viewer.None?)
    ensures r.Found? && viewer.Some? ==>
      (r.page.following == Some(true) <==> Follow(viewer.value.id, r.page.author.id) in follows)
  {
    match UserNamed(users, username)
    case None => NotFound
    case Some(author) =>
      var following :=
        match viewer
        case None => None
        case Some(v) => Some(Follow(v.id, author.id) in follows);
      Found(ProfilePage(author, AuthorFeed(posts, author.id), following))
  }

  /** post_detail: the post with primary key `id` and its comments, or NotFound. */
  function PostDetail(posts: seq<Post>, comments: seq<Comment>, id: PostId): (r: Lookup<DetailPage>)
    ensures r.NotFound? <==> forall p :: p in posts ==> p.id != id
    ensures r.Found? ==> r.page.post in posts && r.page.post.id == id
    ensures r.Found? ==> forall c :: c in r.page.comments <==> c in comments && c.post == id
    ensures r.Found? && NewestFirst(comments, Created) ==> NewestFirst(r.page.comments, Created)
  {
    match PostWithId(posts, id)
    case None => NotFound
    case Some(p) => Found(DetailPage(p, CommentsOn(comments, id)))
  }

  /**
   * `Post.objects.filter(author__following__user=viewer)` as the database
   * evaluates it: the join of posts with Follow rows on the post's author,
   * restricted to rows whose user is `viewer`, so a post appears once per
   * matching Follow row, in the stored newest-first order.
   */
  function FollowJoin(posts: seq<Post>, follows: seq<Follow>, viewer: UserId): (r: seq<Post>)
    ensures forall p :: p in r <==> p in posts && Follow(viewer, p.author) in follows
    ensures NewestFirst(posts, PubDate) ==> NewestFirst(r, PubDate)
  {
    if posts == [] then []
    else
      var head := Repeat(posts[0], multiset(follows)[Follow(viewer, posts[0].author)]);
      var rest := FollowJoin(posts[1..], follows, viewer);
      assert NewestFirst(posts, PubDate) ==> NewestFirst(head + rest, PubDate) by {
        if NewestFirst(posts, PubDate) {
          assert NewestFirst(posts[1..], PubDate);
          JoinOrderStep(posts, head, rest);
        }
      }
      head + rest
  }

  /**
   * The join's row count: each post occurs once per stored copy and per
   * matching Follow row, so a duplicated edge duplicates the author's posts.
   */
  lemma {:induction false} FollowJoinCount(posts: seq<Post>, follows: seq<Follow>, viewer: UserId)
    ensures forall p {:trigger multiset(FollowJoin(posts, follows, viewer))[p]} ::
      multiset(FollowJoin(posts, follows, viewer))[p] == multiset(posts)[p] * multiset(follows)[Follow(viewer, p.author)]
  {
    if posts != [] {
      FollowJoinCount(posts[1..], follows, viewer);
      var head := Repeat(posts[0], multiset(follows)[Follow(viewer, posts[0].author)]);
      JoinCountStep(posts, follows, viewer, head, FollowJoin(posts[1..], follows, viewer));
    }
  }

  /**
   * One step of the join's ordering: copies of the newest post in front of
   * rows drawn from the older posts keep the feed newest first.
   */
  lemma JoinOrderStep(posts: seq<Post>, head: seq<Post>, rest: seq<Post>)
    requires posts != [] && NewestFirst(posts, PubDate) && NewestFirst(rest, PubDate)
    requires forall x :: x in head ==> x == posts[0]
    requires forall y :: y in rest ==> y in posts[1..]
    ensures NewestFirst(head + rest, PubDate)
  {
    forall x, y | x in head && y in rest ensures PubDate(x) >= PubDate(y) {
      var k :| 0 <= k < |posts[1..]| && posts[1..][k] == y;
      assert posts[k + 1] == y;
    }
    assert NewestFirst(head, PubDate) by {
      forall i, j | 0 <= i < j < |head| ensures PubDate(head[i]) >= PubDate(head[j]) {
        assert head[i] in head && head[j] in head;
      }
    }
    AppendNewestFirst(head, rest, PubDate);
  }

  /**
   * One step of the join: the first post's copies followed by the join of the
   * remaining posts hold each post once per stored copy and matching Follow row.
   */
  lemma JoinCountStep(posts: seq<Post>, follows: seq<Follow>, viewer: UserId, head: seq<Post>, rest: seq<Post>)
    requires posts != [] && head == Repeat(posts[0], multiset(follows)[Follow(viewer, posts[0].author)])
    requires forall p {:trigger multiset(rest)[p]} :: multiset(rest)[p] == multiset(posts[1..])[p] * multiset(follows)[Follow(viewer, p.author)]
    ensures forall p {:trigger multiset(head + rest)[p]} :: multiset(head + rest)[p] == multiset(posts)[p] * multiset(follows)[Follow(viewer, p.author)]
  {
    assert posts == [posts[0]] + posts[1..];
    forall p ensures multiset(head + rest)[p] == multiset(posts)[p] * multiset(follows)[Follow(viewer, p.author)] {
      var n := multiset(follows)[Follow(viewer, p.author)];
      var m := multiset(posts[1..])[p];
      assert multiset(head + rest)[p] == multiset(head)[p] + m * n;
      if p == posts[0] {
        assert multiset(head)[p] == n;
        assert multiset(posts)[p] == 1 + m;
        OneMoreCopy(m, n);
      } else {
        assert multiset(head)[p] == 0;
        assert multiset(posts)[p] == m;
      }
    }
  }

  /** One more stored copy of a post adds one more batch of its matching rows. */
  lemma OneMoreCopy(m: nat, n: nat)
    ensures (1 + m) * n == n + m * n
  {
  }

  /**
   * The posts of the authors `viewer` follows, each as often as it is stored
   * (once, since posts are rows with a primary key): the feed the view means
   * to show.
   */
  function FollowedPosts(posts: seq<Post>, follows: seq<Follow>, viewer: UserId): (r: seq<Post>)
    ensures forall p :: p in r <==> p in posts && Follow(viewer, p.author) in follows
    ensures forall p :: multiset(r)[p] == if Follow(viewer, p.author) in follows then multiset(posts)[p] else 0
    ensures Distinct(posts) ==> Distinct(r)
  {
    var keep := (p: Post) => Follow(viewer, p.author) in follows;
    FilterCount(posts, keep);
    FilterDistinct(posts, keep);
    Filter(posts, keep)
  }

  /**
   * follow_index for the signed-in `viewer`: exactly the posts whose author
   * the viewer follows, newest first; while Follow rows are unique it is the
   * plain filter, so no stored post shows twice (FollowJoinCount gives the
   * row count when they are not).
   */
  function FollowIndex(posts: seq<Post>, follows: seq<Follow>, viewer: User): (r: seq<Post>)
    ensures forall p :: p in r <==> p in posts && Follow(viewer.id, p.author) in follows
    ensures NewestFirst(posts, PubDate) ==> NewestFirst(r, PubDate)
    ensures EdgesValid(follows) ==> r == FollowedPosts(posts, follows, viewer.id)
    ensures EdgesValid(follows) && Distinct(posts) ==> Distinct(r)
  {
    var r := FollowJoin(posts, follows, viewer.id);
    if EdgesValid(follows) then
      FollowJoinIsFilter(posts, follows, viewer.id);
      r
    else
      r
  }

  /**
   * Under the unique_user_author constraint the join repeats no row: it is
   * the plain filter of the post table, each followed post as often as it is
   * stored.
   */
  lemma {:induction false} FollowJoinIsFilter(posts: seq<Post>, follows: seq<Follow>, viewer: UserId)
    requires Distinct(follows)
    ensures FollowJoin(posts, follows, viewer) == FollowedPosts(posts, follows, viewer)
  {
    if posts != [] {
      var e := Follow(viewer, posts[0].author);
      DistinctCount(follows, e);
      FollowJoinIsFilter(posts[1..], follows, viewer);
      if e in follows {
        assert Repeat(posts[0], 1) == [posts[0]];
      }
    }
  }

  /**
   * Every stored post is on the index page and on its own group's page
   * (the group is looked up by its unique slug).
   */
  lemma PostOnIndexAndGroupPage(groups: seq<Group>, posts: seq<Post>, k: nat, p: Post)
    requires UniqueKeys(groups, Slug) && k < |groups|
    requires p in posts && p.group == Some(groups[k].id)
    ensures p in Index(posts)
    ensures GroupPosts(groups, posts, groups[k].slug) == Found(GroupPage(groups[k], GroupFeed(posts, groups[k].id)))
    ensures p in GroupFeed(posts, groups[k].id)
  {
    GroupWithSlugFinds(groups, k);
  }

  /** A post filed under one group never shows on a different group's page. */
  lemma PostNotInOtherGroup(groups: seq<Group>, posts: seq<Post>, k: nat, p: Post)
    requires UniqueKeys(groups, Slug) && k < |groups|
    requires p.group.Some? && p.group.value != groups[k].id
    ensures GroupPosts(groups, posts, groups[k].slug).Found?
    ensures p !in GroupPosts(groups, posts, groups[k].slug).page.posts
  {
    GroupWithSlugFinds(groups, k);
  }

  /** A signed-in user viewing their own profile is never shown as following themself. */
  lemma OwnProfileNotFollowing(users: seq<User>, posts: seq<Post>, follows: seq<Follow>, k: nat)
    requires NoSelfFollow(follows) && UniqueKeys(users, Username) && k < |users|
    ensures Profile(users, posts, follows, Some(users[k]), users[k].username).Found?
    ensures Profile(users, posts, follows, Some(users[k]), users[k].username).page.following == Some(false)
  {
    UserNamedFinds(users, k);
  }

  /**
   * After `viewer` follows `author`, every post by `author` is in the
   * viewer's follow feed; after they unfollow, none is. If `author` was the
   * only one they followed, the feed is then empty.
   */
  lemma FollowFeedTracksEdges(posts: seq<Post>, follows: seq<Follow>, viewer: User, author: UserId)
    requires viewer.id != author
    ensures forall p :: p in posts && p.author == author ==>
      p in FollowIndex(posts, AddFollow(follows, viewer.id, author), viewer)
    ensures forall p :: p in FollowIndex(posts, RemoveFollow(follows, viewer.id, author), viewer) ==>
      p.author != author
    ensures (forall e :: e in follows && e.user == viewer.id ==> e.author == author) ==>
      FollowIndex(posts, RemoveFollow(follows, viewer.id, author), viewer) == []
  {
    var r := FollowIndex(posts, RemoveFollow(follows, viewer.id, author), viewer);
    assert |r| == 0 || r[0] in r;
  }
}
