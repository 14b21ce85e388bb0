/** Queries over the tables that the views share: listing posts in the
    default order, the four feeds, follow lookups and the counters shown on
    profile and post pages (posts/views.py). */
module Queries {
  import opened Wrappers
  import opened Models

  /** Some post among `ids` is at least as new as all the others. */
  lemma {:induction false} NewestExists(posts: map<PostId, Post>, ids: set<PostId>)
    requires ids != {} && ids <= posts.Keys
    ensures exists m :: m in ids && forall q :: q in ids ==> posts[q].pubDate <= posts[m].pubDate
    decreases ids
  {
    var x :| x in ids;
    if ids == {x} {
      assert forall q :: q in ids ==> q == x;
    } else {
      var rest := ids - {x};
      NewestExists(posts, rest);
      var m :| m in rest && forall q :: q in rest ==> posts[q].pubDate <= posts[m].pubDate;
      var top := if posts[x].pubDate <= posts[m].pubDate then m else x;
      forall q | q in ids
        ensures posts[q].pubDate <= posts[top].pubDate
      {
        if q != x {
          assert q in rest;
        }
      }
    }
  }

  /** The posts `ids` in the default order (newest first): each of them
      exactly once and nothing else. */
  function SortNewestFirst(posts: map<PostId, Post>, ids: set<PostId>): (s: seq<PostId>)
    requires ids <= posts.Keys
    requires DatesDistinct(posts)
    ensures |s| == |ids|
    ensures forall p :: p in s <==> p in ids
    ensures NewestFirst(posts, s)
    decreases ids
  {
    if ids == {} then []
    else
      NewestExists(posts, ids);
      var m :| m in ids && forall q :: q in ids ==> posts[q].pubDate <= posts[m].pubDate;
      var rest := SortNewestFirst(posts, ids - {m});
      PrependNewest(posts, m, rest);
      [m] + rest
  }

  /** Putting a post in front of a list of strictly older posts keeps the
      default order. */
  lemma PrependNewest(posts: map<PostId, Post>, m: PostId, rest: seq<PostId>)
    requires DatesDistinct(posts) && m in posts
    requires NewestFirst(posts, rest)
    requires forall p :: p in rest ==> p != m && posts[p].pubDate <= posts[m].pubDate
    ensures NewestFirst(posts, [m] + rest)
  {
    var s := [m] + rest;
    forall i, j | 0 <= i < j < |s|
      ensures ListedBefore(posts[s[i]], posts[s[j]])
    {
      if i == 0 {
        assert s[j] == rest[j - 1] && s[j] in rest;
      } else {
        assert s[i] == rest[i - 1] && s[j] == rest[j - 1];
      }
    }
  }

  /** `user` has a follow row for `author`. */
  predicate IsFollowing(follows: map<FollowId, Follow>, user: Username, author: Username)
  {
    exists f :: f in follows && follows[f] == Follow(user, author)
  }

  /** The follow row of (user, author), if there is one. */
  function FollowRow(follows: map<FollowId, Follow>, user: Username, author: Username): (r: Option<FollowId>)
    requires FollowsUnique(follows)
    ensures r.Some? <==> IsFollowing(follows, user, author)
    ensures r.Some? ==> r.value in follows && follows[r.value] == Follow(user, author)
  {
    if IsFollowing(follows, user, author) then
      var f :| f in follows && follows[f] == Follow(user, author);
      Some(f)
    else
      None
  }

  /** The group whose slug is `slug`, if there is one. */
  function GroupBySlug(groups: map<GroupId, Group>, slug: string): (r: Option<GroupId>)
    requires SlugsUnique(groups)
    ensures r.Some? <==> exists g :: g in groups && groups[g].slug == slug
    ensures r.Some? ==> r.value in groups && groups[r.value].slug == slug
  {
    if exists g :: g in groups && groups[g].slug == slug then
      var g :| g in groups && groups[g].slug == slug;
      Some(g)
    else
      None
  }

  /** All posts, newest first. */
  function IndexFeed(db: Tables): (s: seq<PostId>)
    requires DatesDistinct(db.posts)
    ensures forall p :: p in s <==> p in db.posts
    ensures NewestFirst(db.posts, s)
    ensures |s| == |db.posts|
  {
    SortNewestFirst(db.posts, db.posts.Keys)
  }

  /** The posts of group `g`, newest first. */
  function GroupFeed(db: Tables, g: GroupId): (s: seq<PostId>)
    requires DatesDistinct(db.posts)
    ensures forall p :: p in s <==> p in db.posts && db.posts[p].group == Some(g)
    ensures NewestFirst(db.posts, s)
  {
    SortNewestFirst(db.posts, set p | p in db.posts && db.posts[p].group == Some(g))
  }

  /** The posts written by `author`, newest first. */
  function ProfileFeed(db: Tables, author: Username): (s: seq<PostId>)
    requires DatesDistinct(db.posts)
    ensures forall p :: p in s <==> p in db.posts && db.posts[p].author == author
    ensures NewestFirst(db.posts, s)
    ensures |s| == PostCount(db.posts, author)
  {
    SortNewestFirst(db.posts, AuthoredBy(db.posts, author))
  }

  /** The posts whose author `viewer` follows, newest first. */
  function FollowFeed(db: Tables, viewer: Username): (s: seq<PostId>)
    requires DatesDistinct(db.posts)
    ensures forall p :: p in s <==> p in db.posts && IsFollowing(db.follows, viewer, db.posts[p].author)
    ensures NewestFirst(db.posts, s)
    ensures |s| == |FollowedBy(db, viewer)|
  {
    SortNewestFirst(db.posts, FollowedBy(db, viewer))
  }

  /** The posts whose author `viewer` follows. */
  function FollowedBy(db: Tables, viewer: Username): set<PostId>
  {
    set p | p in db.posts && IsFollowing(db.follows, viewer, db.posts[p].author)
  }

  /** The posts written by `author`. */
  function AuthoredBy(posts: map<PostId, Post>, author: Username): set<PostId>
  {
    set p | p in posts && posts[p].author == author
  }

  /** How many posts `author` has written. */
  function PostCount(posts: map<PostId, Post>, author: Username): nat
  {
    |AuthoredBy(posts, author)|
  }

  /** The count the source calls `followers`: the rows in which `u` is the
      subscribing user, that is, how many authors `u` follows. */
  function FollowersCount(follows: map<FollowId, Follow>, u: Username): nat
  {
    |RowsOfUser(follows, u)|
  }

  /** The count the source calls `following_to`: the rows in which `u` is the
      followed author, that is, how many users follow `u`. */
  function FollowingToCount(follows: map<FollowId, Follow>, u: Username): nat
  {
    |RowsOfAuthor(follows, u)|
  }

  /** The rows in which `u` is the subscribing user. */
  function RowsOfUser(follows: map<FollowId, Follow>, u: Username): set<FollowId>
  {
    set f | f in follows && follows[f].user == u
  }

  /** The rows in which `u` is the followed author. */
  function RowsOfAuthor(follows: map<FollowId, Follow>, u: Username): set<FollowId>
  {
    set f | f in follows && follows[f].author == u
  }

  /** The comments on post `p`. */
  function CommentsOf(comments: map<CommentId, Comment>, p: PostId): set<CommentId>
  {
    set c | c in comments && comments[c].post == p
  }

  /** A post dated after every other is the first of the index. */
  lemma NewestLeadsIndex(db: Tables, id: PostId)
    requires DatesDistinct(db.posts)
    requires id in db.posts
    requires forall p :: p in db.posts && p != id ==> db.posts[p].pubDate < db.posts[id].pubDate
    ensures |IndexFeed(db)| > 0 && IndexFeed(db)[0] == id
  {
    var s := IndexFeed(db);
    var i :| 0 <= i < |s| && s[i] == id;
    assert db.posts[s[0]].pubDate >= db.posts[id].pubDate;
  }

  /** A viewer with no follow rows of their own gets an empty follow feed. */
  lemma FollowingNobodyEmptyFeed(db: Tables, viewer: Username)
    requires DatesDistinct(db.posts)
    requires forall f :: f in db.follows ==> db.follows[f].user != viewer
    ensures FollowFeed(db, viewer) == []
  {
    assert FollowedBy(db, viewer) == {};
  }
}
