/**
 * The stored entities of the blog (users, groups, posts, comments and follow
 * edges) and the fetch-one-or-404 lookups the views start from.
 * Identifiers are the rows' primary keys.
 */
module Models {
  import opened Seqs

  type UserId = nat
  type GroupId = nat
  type PostId = nat
  type CommentId = nat

  /** A registered account; `username` is unique across users. */
  datatype User = User(id: UserId, username: string)

  /** A community; `slug` is unique across groups. */
  datatype Group = Group(id: GroupId, title: string, slug: string, description: string)

  /** A post; `pubDate` is set once when the post is created. */
  datatype Post = Post(id: PostId, text: string, pubDate: int, author: UserId, group: Option<GroupId>)

  /** A comment on the post `post`. */
  datatype Comment = Comment(id: CommentId, post: PostId, author: UserId, text: string, created: int)

  /** A follow edge: `user` receives the posts of `author` in the follow feed. */
  datatype Follow = Follow(user: UserId, author: UserId)

  // Column accessors, used as the keys of orderings and unique constraints.
  function UserKey(u: User): UserId { u.id }
  function Username(u: User): string { u.username }
  function GroupKey(g: Group): GroupId { g.id }
  function Slug(g: Group): string { g.slug }
  function PostKey(p: Post): PostId { p.id }
  function PubDate(p: Post): int { p.pubDate }
  function CommentKey(c: Comment): CommentId { c.id }
  function Created(c: Comment): int { c.created }

  /** The user with the given username, or None (the view then answers 404). */
  function UserNamed(users: seq<User>, name: string): (r: Option<User>)
    ensures r.Some? ==> r.value in users && r.value.username == name
    ensures r.None? ==> forall u :: u in users ==> u.username != name
  {
    match IndexWhere(users, (u: User) => u.username == name)
    case None => None
    case Some(i) => Some(users[i])
  }

  /** The group with the given slug, or None. */
  function GroupWithSlug(groups: seq<Group>, slug: string): (r: Option<Group>)
    ensures r.Some? ==> r.value in groups && r.value.slug == slug
    ensures r.None? ==> forall g :: g in groups ==> g.slug != slug
  {
    match IndexWhere(groups, (g: Group) => g.slug == slug)
    case None => None
    case Some(i) => Some(groups[i])
  }

  /** The position of the post with primary key `id`, or None. */
  function PostIndex(posts: seq<Post>, id: PostId): (r: Option<nat>)
    ensures r.Some? ==> r.value < |posts| && posts[r.value].id == id
    ensures r.None? ==> forall p :: p in posts ==> p.id != id
  {
    IndexWhere(posts, (p: Post) => p.id == id)
  }

  /** The post with primary key `id`, or None. */
  function PostWithId(posts: seq<Post>, id: PostId): (r: Option<Post>)
    ensures r.Some? ==> r.value in posts && r.value.id == id
    ensures r.None? ==> forall p :: p in posts ==> p.id != id
  {
    match PostIndex(posts, id)
    case None => None
    case Some(i) => Some(posts[i])
  }

  /** Under the unique-username constraint, every stored user is found by name. */
  lemma UserNamedFinds(users: seq<User>, k: nat)
    requires UniqueKeys(users, Username) && k < |users|
    ensures UserNamed(users, users[k].username) == Some(users[k])
  {
    assert users[k] in users;
    var u := UserNamed(users, users[k].username).value;
    var i :| 0 <= i < |users| && users[i] == u;
    assert Username(users[i]) == Username(users[k]);
  }

  /** Under the unique-slug constraint, every stored group is found by its slug. */
  lemma GroupWithSlugFinds(groups: seq<Group>, k: nat)
    requires UniqueKeys(groups, Slug) && k < |groups|
    ensures GroupWithSlug(groups, groups[k].slug) == Some(groups[k])
  {
    assert groups[k] in groups;
    var g := GroupWithSlug(groups, groups[k].slug).value;
    var i :| 0 <= i < |groups| && groups[i] == g;
    assert Slug(groups[i]) == Slug(groups[k]);
  }

  /** Under the primary-key constraint, every stored post is found by its id. */
  lemma PostIndexFinds(posts: seq<Post>, k: nat)
    requires UniqueKeys(posts, PostKey) && k < |posts|
    ensures PostIndex(posts, posts[k].id) == Some(k)
  {
    assert posts[k] in posts;
    var i := PostIndex(posts, posts[k].id).value;
    assert PostKey(posts[i]) == PostKey(posts[k]);
  }
}
