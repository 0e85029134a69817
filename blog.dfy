/**
 * The blog's stored state and the request handlers of
 * yatube/posts/views.py that change it: post_create, post_edit,
 * add_comment, profile_follow and profile_unfollow. Each handler is called
 * for a signed-in `viewer` (the views are login_required); the clock reading
 * a new row is stamped with is the parameter `now`, and whether a submitted
 * form validates is the boolean `valid` of the request.
 */
module Blog {
  import opened Seqs
  import opened Models
  import opened Follows
  import Feeds

  /** Where a handler redirects to. */
  datatype Target = ProfileOf(username: string) | PostDetailOf(id: PostId) | FollowIndexPage | IndexPage

  /** A handler's answer: a redirect, the post form page (for editing or not), or 404. */
  datatype Response = Redirect(to: Target) | ShowPostForm(isEdit: bool) | PageNotFound

  /** The fields of PostForm that the model keeps. */
  datatype PostForm = PostForm(text: string, group: Option<GroupId>)

  datatype CommentForm = CommentForm(text: string)

  /** A request to a form view: a GET, or a POST whose bound form did or did not validate. */
  datatype FormRequest<F> = Get | Submit(data: F, valid: bool) {
    predicate Accepted() { Submit? && valid }
  }

  /**
   * The post after a valid PostForm is saved over it: the form's fields are
   * taken, and the primary key, the author and the publication date stay.
   */
  function Edited(p: Post, form: PostForm): (q: Post)
    ensures q.id == p.id && q.author == p.author && q.pubDate == p.pubDate
    ensures q.text == form.text && q.group == form.group
  {
    p.(text := form.text, group := form.group)
  }

  class Site {
    var users: seq<User>
    var groups: seq<Group>
    var posts: seq<Post>
    var comments: seq<Comment>
    var follows: seq<Follow>
    var nextPostId: PostId
    var nextCommentId: CommentId

    /**
     * The database's constraints: unique primary keys of users and groups,
     * unique usernames and slugs, post and comment primary keys unique and
     * below the next one to hand out, post and comment tables in their
     * newest-first ordering, every comment attached to a stored post, and
     * the follow-edge invariant.
     */
    ghost predicate Valid()
      reads this
    {
      && UniqueKeys(users, UserKey)
      && UniqueKeys(users, Username)
      && UniqueKeys(groups, GroupKey)
      && UniqueKeys(groups, Slug)
      && NewestFirst(posts, PubDate)
      && UniqueKeys(posts, PostKey)
      && (forall p :: p in posts ==> p.id < nextPostId)
      && NewestFirst(comments, Created)
      && UniqueKeys(comments, CommentKey)
      && (forall c :: c in comments ==> c.id < nextCommentId && PostWithId(posts, c.post).Some?)
      && EdgesValid(follows)
    }

    /** A site with the given accounts and groups and no posts, comments or follows. */
    constructor (users: seq<User>, groups: seq<Group>)
      requires UniqueKeys(users, UserKey) && UniqueKeys(users, Username)
      requires UniqueKeys(groups, GroupKey) && UniqueKeys(groups, Slug)
      ensures Valid()
      ensures this.users == users && this.groups == groups
      ensures posts == [] && comments == [] && follows == []
    {
      this.users := users;
      this.groups := groups;
      posts := [];
      comments := [];
      follows := [];
      nextPostId := 1;
      nextCommentId := 1;
    }

    /**
     * In a consistent site, follow_index never shows a post twice: posts
     * have unique primary keys and Follow rows are unique.
     */
    lemma FollowFeedNoRepeats(viewer: User)
      requires Valid()
      ensures Distinct(Feeds.FollowIndex(posts, follows, viewer))
    {
      UniqueKeysDistinct(posts, PostKey);
    }

    /**
     * post_create: on an accepted form, stores a new post by `viewer`
     * stamped `now` and redirects to the viewer's profile; otherwise shows
     * the form and stores nothing.
     */
    method PostCreate(viewer: User, req: FormRequest<PostForm>, now: int) returns (r: Response)
      requires Valid() && viewer in users
      modifies this`posts, this`nextPostId
      ensures Valid()
      ensures req.Accepted() ==>
        && posts == InsertNewest(old(posts),
                                 Post(old(nextPostId), req.data.text, now, viewer.id, req.data.group),
                                 PubDate)
        && nextPostId == old(nextPostId) + 1
        && r == Redirect(ProfileOf(viewer.username))
      ensures !req.Accepted() ==>
        posts == old(posts) && nextPostId == old(nextPostId) && r == ShowPostForm(false)
    {
      if req.Accepted() {
        var post := Post(nextPostId, req.data.text, now, viewer.id, req.data.group);
        var before := posts;
        posts := InsertNewest(posts, post, PubDate);
        InsertNewestUnique(before, post, PubDate, PostKey);
        nextPostId := nextPostId + 1;
        forall c | c in comments ensures PostWithId(posts, c.post).Some? {
          var p := PostWithId(before, c.post).value;
          assert p in posts;
        }
        r := Redirect(ProfileOf(viewer.username));
      } else {
        r := ShowPostForm(false);
      }
    }

    /**
     * post_edit: 404 for an unknown post; a viewer who is not the author is
     * redirected to the post and nothing changes; the author's accepted form
     * is saved over the post in place, any other request by the author shows
     * the edit form.
     */
    method PostEdit(viewer: User, id: PostId, req: FormRequest<PostForm>) returns (r: Response)
      requires Valid() && viewer in users
      modifies this`posts
      ensures Valid()
      ensures PostIndex(old(posts), id).None? ==> r == PageNotFound && posts == old(posts)
      ensures PostIndex(old(posts), id).Some? ==>
        var i := PostIndex(old(posts), id).value;
        if old(posts)[i].author != viewer.id then
          r == Redirect(PostDetailOf(id)) && posts == old(posts)
        else if req.Accepted() then
          r == Redirect(PostDetailOf(id)) && posts == old(posts)[i := Edited(old(posts)[i], req.data)]
        else
          r == ShowPostForm(true) && posts == old(posts)
    {
      var found := PostIndex(posts, id);
      if found.None? {
        return PageNotFound;
      }
      var i := found.value;
      if posts[i].author == viewer.id {
        if req.Accepted() {
          var before := posts;
          posts := posts[i := Edited(posts[i], req.data)];
          ReplaceKeeps(before, i, posts[i], PubDate, PostKey);
          forall c | c in comments ensures PostWithId(posts, c.post).Some? {
            var j := PostIndex(before, c.post).value;
            assert posts[j].id == c.post;
          }
          r := Redirect(PostDetailOf(id));
        } else {
          r := ShowPostForm(true);
        }
      } else {
        r := Redirect(PostDetailOf(id));
      }
    }

    /**
     * add_comment: 404 for an unknown post; otherwise an accepted form
     * stores a comment by `viewer` on that post, stamped `now`, and every
     * request ends in a redirect to the post.
     */
    method AddComment(viewer: User, id: PostId, req: FormRequest<CommentForm>, now: int) returns (r: Response)
      requires Valid() && viewer in users
      modifies this`comments, this`nextCommentId
      ensures Valid()
      ensures PostWithId(posts, id).None? ==>
        r == PageNotFound && comments == old(comments) && nextCommentId == old(nextCommentId)
      ensures PostWithId(posts, id).Some? ==> r == Redirect(PostDetailOf(id))
      ensures PostWithId(posts, id).Some? && req.Accepted() ==>
        && comments == InsertNewest(old(comments),
                                    Comment(old(nextCommentId), PostWithId(posts, id).value.id,
                                            viewer.id, req.data.text, now),
                                    Created)
        && nextCommentId == old(nextCommentId) + 1
      ensures PostWithId(posts, id).Some? && !req.Accepted() ==>
        comments == old(comments) && nextCommentId == old(nextCommentId)
    {
      var post := PostWithId(posts, id);
      if post.None? {
        return PageNotFound;
      }
      if req.Accepted() {
        var comment := Comment(nextCommentId, post.value.id, viewer.id, req.data.text, now);
        var before := comments;
        comments := InsertNewest(comments, comment, Created);
        InsertNewestUnique(before, comment, Created, CommentKey);
        nextCommentId := nextCommentId + 1;
        forall c | c in comments ensures c.id < nextCommentId && PostWithId(posts, c.post).Some? {
          if c != comment {
            assert c in before;
          }
        }
      }
      r := Redirect(PostDetailOf(id));
    }

    /**
     * profile_follow: 404 for an unknown username; otherwise the edge from
     * `viewer` to that user is added unless it is a self-follow or already
     * stored, and the viewer is sent to the follow feed.
     */
    method ProfileFollow(viewer: User, username: string) returns (r: Response)
      requires Valid() && viewer in users
      modifies this`follows
      ensures Valid()
      ensures UserNamed(users, username).None? ==> r == PageNotFound && follows == old(follows)
      ensures UserNamed(users, username).Some? ==>
        && r == Redirect(FollowIndexPage)
        && follows == AddFollow(old(follows), viewer.id, UserNamed(users, username).value.id)
    {
      var found := UserNamed(users, username);
      if found.None? {
        return PageNotFound;
      }
      var author := found.value;
      if author.id != viewer.id && Follow(viewer.id, author.id) !in follows {
        follows := follows + [Follow(viewer.id, author.id)];
      }
      r := Redirect(FollowIndexPage);
    }

    /**
     * profile_unfollow: 404 for an unknown username; otherwise every edge
     * from `viewer` to that user is deleted, and the viewer is sent to the
     * index page.
     */
    method ProfileUnfollow(viewer: User, username: string) returns (r: Response)
      requires Valid() && viewer in users
      modifies this`follows
      ensures Valid()
      ensures UserNamed(users, username).None? ==> r == PageNotFound && follows == old(follows)
      ensures UserNamed(users, username).Some? ==>
        && r == Redirect(IndexPage)
        && follows == RemoveFollow(old(follows), viewer.id, UserNamed(users, username).value.id)
    {
      var found := UserNamed(users, username);
      if found.None? {
        return PageNotFound;
      }
      var author := found.value;
      ghost var before := follows;
      if Follow(viewer.id, author.id) in follows {
        follows := RemoveAll(follows, Follow(viewer.id, author.id));
      }
      assert follows == RemoveFollow(before, viewer.id, author.id);
      r := Redirect(IndexPage);
    }
  }
}
