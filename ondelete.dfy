/** The delete rules declared on the foreign keys of posts/models.py:
    CASCADE on Post.author, Comment.post, Comment.author, Follow.user and
    Follow.author, and SET_NULL on Post.group. Each function gives the
    tables after one row is deleted together with what depends on it. */
module OnDelete {
  import opened Wrappers
  import opened Models

  /** Deleting user `u`: their posts go, and with them the comments on those
      posts; their own comments go; every follow row naming them, on either
      side, goes. Every other row stays as it was. */
  function DeleteUser(db: Tables, u: Username): (r: Tables)
    requires Integrity(db)
    ensures r.users == db.users - {u} && r.groups == db.groups
    ensures forall p :: p in r.posts <==> p in db.posts && db.posts[p].author != u
    ensures forall c :: c in r.comments <==>
              c in db.comments && db.comments[c].author != u &&
              db.posts[db.comments[c].post].author != u
    ensures forall f :: f in r.follows <==>
              f in db.follows && db.follows[f].user != u && db.follows[f].author != u
    ensures forall p :: p in r.posts ==> r.posts[p] == db.posts[p]
    ensures forall c :: c in r.comments ==> r.comments[c] == db.comments[c]
    ensures forall f :: f in r.follows ==> r.follows[f] == db.follows[f]
    ensures Integrity(r)
  {
    var posts := PostsNotBy(db.posts, u);
    Tables(db.users - {u}, db.groups, posts, CommentsKept(db.comments, u, posts), FollowsNotNaming(db.follows, u))
  }

  /** The posts whose author is not `u`. */
  function PostsNotBy(posts: map<PostId, Post>, u: Username): map<PostId, Post>
  {
    map p | p in posts && posts[p].author != u :: posts[p]
  }

  /** The comments not by `u` on a post among `kept`. */
  function CommentsKept(comments: map<CommentId, Comment>, u: Username, kept: map<PostId, Post>): map<CommentId, Comment>
  {
    map c | c in comments && comments[c].author != u && comments[c].post in kept :: comments[c]
  }

  /** The follow rows in which `u` is neither the user nor the author. */
  function FollowsNotNaming(follows: map<FollowId, Follow>, u: Username): map<FollowId, Follow>
  {
    map f | f in follows && follows[f].user != u && follows[f].author != u :: follows[f]
  }

  /** Deleting post `p` removes exactly the comments on it. */
  function DeletePost(db: Tables, p: PostId): (r: Tables)
    ensures r.users == db.users && r.groups == db.groups && r.follows == db.follows
    ensures r.posts.Keys == db.posts.Keys - {p}
    ensures forall q :: q in r.posts ==> r.posts[q] == db.posts[q]
    ensures forall c :: c in r.comments <==> c in db.comments && db.comments[c].post != p
    ensures forall c :: c in r.comments ==> r.comments[c] == db.comments[c]
    ensures Integrity(db) ==> Integrity(r)
  {
    db.(posts := db.posts - {p}, comments := CommentsNotOn(db.comments, p))
  }

  /** The comments on posts other than `p`. */
  function CommentsNotOn(comments: map<CommentId, Comment>, p: PostId): map<CommentId, Comment>
  {
    map c | c in comments && comments[c].post != p :: comments[c]
  }

  /** Deleting group `g` keeps every post: the posts of that group lose their
      group and nothing else about any post changes. */
  function DeleteGroup(db: Tables, g: GroupId): (r: Tables)
    ensures r.users == db.users && r.comments == db.comments && r.follows == db.follows
    ensures r.groups.Keys == db.groups.Keys - {g}
    ensures forall h :: h in r.groups ==> r.groups[h] == db.groups[h]
    ensures r.posts.Keys == db.posts.Keys
    ensures forall p :: p in r.posts ==>
              && r.posts[p].group == (if db.posts[p].group == Some(g) then None else db.posts[p].group)
              && r.posts[p].(group := db.posts[p].group) == db.posts[p]
    ensures Integrity(db) ==> Integrity(r)
  {
    db.(groups := db.groups - {g}, posts := Ungrouped(db.posts, g))
  }

  /** The posts with group `g` set to null. */
  function Ungrouped(posts: map<PostId, Post>, g: GroupId): map<PostId, Post>
  {
    map p | p in posts :: if posts[p].group == Some(g) then posts[p].(group := None) else posts[p]
  }

  /** Deleting a user keeps the store well formed. */
  lemma DeleteUserWellformed(db: Tables, u: Username)
    requires Wellformed(db)
    ensures Wellformed(DeleteUser(db, u))
  {
    var r := DeleteUser(db, u);
    forall p, q | p in r.posts && q in r.posts && r.posts[p].pubDate == r.posts[q].pubDate
      ensures p == q
    {
      assert r.posts[p] == db.posts[p] && r.posts[q] == db.posts[q];
    }
    forall f | f in r.follows
      ensures r.follows[f].user != r.follows[f].author
    {
      assert r.follows[f] == db.follows[f];
    }
    forall f, k | f in r.follows && k in r.follows && r.follows[f] == r.follows[k]
      ensures f == k
    {
      assert r.follows[f] == db.follows[f] && r.follows[k] == db.follows[k];
    }
  }

  /** Deleting a post keeps the store well formed. */
  lemma DeletePostWellformed(db: Tables, p: PostId)
    requires Wellformed(db)
    ensures Wellformed(DeletePost(db, p))
  {
    var r := DeletePost(db, p);
    forall q, q' | q in r.posts && q' in r.posts && r.posts[q].pubDate == r.posts[q'].pubDate
      ensures q == q'
    {
      assert r.posts[q] == db.posts[q] && r.posts[q'] == db.posts[q'];
    }
  }

  /** Deleting a group keeps the store well formed. */
  lemma DeleteGroupWellformed(db: Tables, g: GroupId)
    requires Wellformed(db)
    ensures Wellformed(DeleteGroup(db, g))
  {
    var r := DeleteGroup(db, g);
    forall h, h' | h in r.groups && h' in r.groups && r.groups[h].slug == r.groups[h'].slug
      ensures h == h'
    {
      assert r.groups[h] == db.groups[h] && r.groups[h'] == db.groups[h'];
    }
    forall p, q | p in r.posts && q in r.posts && r.posts[p].pubDate == r.posts[q].pubDate
      ensures p == q
    {
      assert r.posts[p].pubDate == db.posts[p].pubDate && r.posts[q].pubDate == db.posts[q].pubDate;
    }
  }
}
