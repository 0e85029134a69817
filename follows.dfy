/**
 * The follow-edge store behind profile_follow and profile_unfollow
 * (yatube/posts/views.py:139-162). Edges are rows of the Follow table, in
 * insertion order; the store's invariant is the unique_user_author constraint
 * together with the absence of self-follows.
 */
module Follows {
  import opened Seqs
  import opened Models

  /** No user follows themself: profile_follow refuses author == current user. */
  predicate NoSelfFollow(edges: seq<Follow>) {
    forall e :: e in edges ==> e.user != e.author
  }

  /** The edge-store invariant: no self-follow, and each (user, author) pair at most once. */
  predicate EdgesValid(edges: seq<Follow>) {
    NoSelfFollow(edges) && Distinct(edges)
  }

  /**
   * profile_follow's effect on the store: the edge (user, author) is created
   * exactly when user and author differ and the edge is not there yet.
   */
  function AddFollow(edges: seq<Follow>, user: UserId, author: UserId): (r: seq<Follow>)
    ensures r != edges <==> user != author && Follow(user, author) !in edges
    ensures r != edges ==> r == edges + [Follow(user, author)]
    ensures Follow(user, author) in r <==> user != author || Follow(user, author) in edges
    ensures EdgesValid(edges) ==> EdgesValid(r)
  {
    var e := Follow(user, author);
    if user != author && e !in edges then
      assert Distinct(edges) ==> Distinct(edges + [e]) by {
        if Distinct(edges) {
          forall i, j | 0 <= i < j < |edges| + 1 ensures (edges + [e])[i] != (edges + [e])[j] {
            assert (edges + [e])[i] == edges[i];
          }
        }
      }
      edges + [e]
    else
      edges
  }

  /**
   * profile_unfollow's effect on the store: if the edge exists, every row
   * equal to it is deleted; every other edge is kept, with its multiplicity.
   */
  function RemoveFollow(edges: seq<Follow>, user: UserId, author: UserId): (r: seq<Follow>)
    ensures Follow(user, author) !in r
    ensures multiset(r) == multiset(edges)[Follow(user, author) := 0]
    ensures forall e :: e in edges && e != Follow(user, author) ==> e in r
    ensures forall e :: e in r ==> e in edges
    ensures EdgesValid(edges) ==> EdgesValid(r)
    ensures EdgesValid(edges) ==> |r| == |edges| - (if Follow(user, author) in edges then 1 else 0)
  {
    var e := Follow(user, author);
    if e in edges then
      var r := RemoveAll(edges, e);
      assert forall x :: x in r ==> x in edges by {
        forall x | x in r ensures x in edges {
          assert multiset(r)[x] > 0;
        }
      }
      assert forall x :: x in edges && x != e ==> x in r by {
        forall x | x in edges && x != e ensures x in r {
          assert multiset(r)[x] == multiset(edges)[x] > 0;
        }
      }
      assert Distinct(edges) ==> Distinct(r) && |r| == |edges| - 1 by {
        if Distinct(edges) {
          RemoveAllDistinct(edges, e);
          DistinctCount(edges, e);
          assert |r| == |multiset(r)| == |multiset(edges)| - multiset(edges)[e];
        }
      }
      r
    else
      edges
  }

  /** Following twice leaves the same store as following once. */
  lemma AddFollowIdempotent(edges: seq<Follow>, user: UserId, author: UserId)
    ensures AddFollow(AddFollow(edges, user, author), user, author) == AddFollow(edges, user, author)
  {
  }

  /** Unfollowing twice leaves the same store as unfollowing once. */
  lemma RemoveFollowIdempotent(edges: seq<Follow>, user: UserId, author: UserId)
    ensures RemoveFollow(RemoveFollow(edges, user, author), user, author) == RemoveFollow(edges, user, author)
  {
  }

  /**
   * Following a new author and then unfollowing them restores the original
   * store, so the number of Follow rows goes up by one and back down.
   */
  lemma {:induction false} FollowThenUnfollow(edges: seq<Follow>, user: UserId, author: UserId)
    requires user != author && Follow(user, author) !in edges
    ensures |AddFollow(edges, user, author)| == |edges| + 1
    ensures RemoveFollow(AddFollow(edges, user, author), user, author) == edges
  {
    var e := Follow(user, author);
    RemoveAllAppend(edges, [e], e);
    RemoveAllAbsent(edges, e);
    assert RemoveAll([e], e) == [];
  }
}
