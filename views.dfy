/** The read-only request handlers of posts/views.py as functions of the
    tables: the index, group, profile and follow feeds and the page of one
    post. Rendering is left out: a handler yields the data its template gets. */
module Views {
  import opened Wrappers
  import opened Models
  import opened Paging
  import opened Queries

  /** A group page lists at most this many of the group's newest posts. */
  const GroupFeedLimit := 12

  /** Where a redirect sends the browser. */
  datatype Target = ToLogin | ToIndex | ToPost(username: Username, postId: PostId) | ToFollowIndex

  /** The data a handler hands to its template. */
  datatype View =
    | FeedPage(page: Page<PostId>)
    | GroupPage(group: GroupId, page: Page<PostId>)
    | ProfilePage(author: Username, page: Page<PostId>, countPosts: nat,
                  following: bool, followers: nat, followingTo: nat)
    | PostPage(post: PostId, author: Username, countPosts: nat,
               comments: set<CommentId>, followers: nat, followingTo: nat)
    | PostFormPage(isEdit: bool)

  datatype Response = Ok(view: View) | Redirect(to: Target) | NotFound

  /** A page of a feed lists posts of that feed, still in the default order. */
  lemma PageOfFeed(posts: map<PostId, Post>, s: seq<PostId>, perPage: nat, param: PageParam)
    requires perPage > 0 && NewestFirst(posts, s)
    ensures forall p :: p in Paginate(s, perPage, param).items ==> p in s
    ensures NewestFirst(posts, Paginate(s, perPage, param).items)
  {
    var page := Paginate(s, perPage, param);
    var lo := PageStart(page.number, perPage);
    assert lo + |page.items| <= |s|;
    assert forall i :: 0 <= i < |page.items| ==> page.items[i] == s[lo + i];
    SliceNewestFirst(posts, s, page.items, lo);
  }

  /** A run of consecutive posts of a feed is itself in the default order. */
  lemma SliceNewestFirst(posts: map<PostId, Post>, s: seq<PostId>, t: seq<PostId>, lo: nat)
    requires NewestFirst(posts, s) && lo + |t| <= |s|
    requires forall i :: 0 <= i < |t| ==> t[i] == s[lo + i]
    ensures forall p :: p in t ==> p in s
    ensures NewestFirst(posts, t)
  {
    forall i, j | 0 <= i < j < |t|
      ensures ListedBefore(posts[t[i]], posts[t[j]])
    {
      assert t[i] == s[lo + i] && t[j] == s[lo + j];
    }
    forall p | p in t
      ensures p in s
    {
      var i :| 0 <= i < |t| && t[i] == p;
      assert s[lo + i] == p;
    }
  }

  /** The first n posts of a feed are its n newest: any post of the feed left
      out is older than every one kept. */
  lemma PrefixIsNewest(posts: map<PostId, Post>, s: seq<PostId>, n: nat)
    requires NewestFirst(posts, s) && n <= |s|
    ensures NewestFirst(posts, s[..n])
    ensures forall p, q :: p in s && p !in s[..n] && q in s[..n] ==> ListedBefore(posts[q], posts[p])
  {
    forall p, q | p in s && p !in s[..n] && q in s[..n]
      ensures ListedBefore(posts[q], posts[p])
    {
      var i :| 0 <= i < |s| && s[i] == p;
      var j :| 0 <= j < n && s[..n][j] == q;
      assert forall k :: 0 <= k < n ==> s[..n][k] == s[k];
      assert s[j] == q;
    }
  }

  /** All posts, a page at a time (index). */
  function Index(db: Tables, param: PageParam, perPage: nat): (r: Response)
    requires DatesDistinct(db.posts) && perPage > 0
    ensures r.Ok? && r.view.FeedPage?
    ensures r.view.page.numPages == NumPages(|db.posts|, perPage)
    ensures |r.view.page.items| <= perPage
    ensures forall p :: p in r.view.page.items ==> p in db.posts
    ensures NewestFirst(db.posts, r.view.page.items)
    ensures r.view.page == Paginate(IndexFeed(db), perPage, param)
  {
    var s := IndexFeed(db);
    PageOfFeed(db.posts, s, perPage, param);
    Ok(FeedPage(Paginate(s, perPage, param)))
  }

  /** What a group page paginates: the group's newest posts, at most 12. */
  function NewestOfGroup(db: Tables, g: GroupId): (t: seq<PostId>)
    requires DatesDistinct(db.posts)
    ensures |t| <= GroupFeedLimit
    ensures forall p :: p in t ==> p in db.posts && db.posts[p].group == Some(g)
    ensures NewestFirst(db.posts, t)
    ensures forall p :: p in db.posts && db.posts[p].group == Some(g) && p !in t ==>
              |t| == GroupFeedLimit &&
              forall q :: q in t ==> db.posts[q].pubDate > db.posts[p].pubDate
  {
    var s := GroupFeed(db, g);
    var n := if |s| <= GroupFeedLimit then |s| else GroupFeedLimit;
    PrefixIsNewest(db.posts, s, n);
    assert s[..|s|] == s;
    s[..n]
  }

  /** One group's posts, a page at a time (group_posts); NotFound when no
      group has the slug. */
  function GroupPosts(db: Tables, slug: string, param: PageParam, perPage: nat): (r: Response)
    requires SlugsUnique(db.groups) && DatesDistinct(db.posts) && perPage > 0
    ensures r.NotFound? <==> !exists g :: g in db.groups && db.groups[g].slug == slug
    ensures !r.NotFound? ==>
              && r.Ok? && r.view.GroupPage?
              && r.view.group in db.groups && db.groups[r.view.group].slug == slug
              && |r.view.page.items| <= perPage
              && (forall p :: p in r.view.page.items ==> p in NewestOfGroup(db, r.view.group))
              && NewestFirst(db.posts, r.view.page.items)
              && r.view.page == Paginate(NewestOfGroup(db, r.view.group), perPage, param)
  {
    match GroupBySlug(db.groups, slug)
    case None => NotFound
    case Some(g) =>
      var t := NewestOfGroup(db, g);
      PageOfFeed(db.posts, t, perPage, param);
      Ok(GroupPage(g, Paginate(t, perPage, param)))
  }

  /** One author's posts, a page at a time, with the counters of the profile
      page (profile); NotFound for an unknown username. `followers` counts the
      rows whose user is the author and `followingTo` the rows whose author is
      the author, as the source's related names make them. */
  function Profile(db: Tables, viewer: Option<Username>, username: Username,
                   param: PageParam, perPage: nat): (r: Response)
    requires DatesDistinct(db.posts) && perPage > 0
    ensures r.NotFound? <==> username !in db.users
    ensures !r.NotFound? ==>
              && r.Ok? && r.view.ProfilePage? && r.view.author == username
              && |r.view.page.items| <= perPage
              && (forall p :: p in r.view.page.items ==> p in db.posts && db.posts[p].author == username)
              && NewestFirst(db.posts, r.view.page.items)
              && r.view.countPosts == PostCount(db.posts, username)
              && r.view.page.numPages == NumPages(r.view.countPosts, perPage)
              && r.view.page == Paginate(ProfileFeed(db, username), perPage, param)
              && r.view.following == (viewer.Some? && IsFollowing(db.follows, viewer.value, username))
              && r.view.followers == FollowersCount(db.follows, username)
              && r.view.followingTo == FollowingToCount(db.follows, username)
  {
    if username !in db.users then NotFound
    else
      var s := ProfileFeed(db, username);
      PageOfFeed(db.posts, s, perPage, param);
      Ok(ProfilePage(username, Paginate(s, perPage, param), |s|,
                     viewer.Some? && IsFollowing(db.follows, viewer.value, username),
                     FollowersCount(db.follows, username), FollowingToCount(db.follows, username)))
  }

  /** One post with its comments and its author's counters (post_view); the
      post is found only when both its id and its author's username match. */
  function PostView(db: Tables, username: Username, postId: PostId): (r: Response)
    ensures r.NotFound? <==> !(postId in db.posts && db.posts[postId].author == username)
    ensures !r.NotFound? ==>
              && r.Ok? && r.view.PostPage?
              && r.view.post == postId && r.view.author == username
              && r.view.countPosts == PostCount(db.posts, username)
              && (forall c :: c in r.view.comments <==> c in db.comments && db.comments[c].post == postId)
              && r.view.followers == FollowersCount(db.follows, username)
              && r.view.followingTo == FollowingToCount(db.follows, username)
  {
    if postId in db.posts && db.posts[postId].author == username then
      Ok(PostPage(postId, username, PostCount(db.posts, username), CommentsOf(db.comments, postId),
                  FollowersCount(db.follows, username), FollowingToCount(db.follows, username)))
    else
      NotFound
  }

  /** The posts of the authors the viewer follows, a page at a time
      (follow_index); a guest is sent to log in. */
  function FollowIndex(db: Tables, viewer: Option<Username>, param: PageParam, perPage: nat): (r: Response)
    requires DatesDistinct(db.posts) && perPage > 0
    ensures viewer.None? <==> r == Redirect(ToLogin)
    ensures viewer.Some? ==>
              && r.Ok? && r.view.FeedPage?
              && |r.view.page.items| <= perPage
              && (forall p :: p in r.view.page.items ==>
                    p in db.posts && IsFollowing(db.follows, viewer.value, db.posts[p].author))
              && NewestFirst(db.posts, r.view.page.items)
              && r.view.page.numPages == NumPages(|FollowedBy(db, viewer.value)|, perPage)
              && r.view.page == Paginate(FollowFeed(db, viewer.value), perPage, param)
  {
    match viewer
    case None => Redirect(ToLogin)
    case Some(v) =>
      var s := FollowFeed(db, v);
      PageOfFeed(db.posts, s, perPage, param);
      Ok(FeedPage(Paginate(s, perPage, param)))
  }

  /** Every stored post is shown on some page of the index. */
  lemma IndexShowsEveryPost(db: Tables, p: PostId, perPage: nat)
    requires DatesDistinct(db.posts) && perPage > 0 && p in db.posts
    ensures exists k :: p in Index(db, Number(k), perPage).view.page.items
  {
    var k := ItemShown(IndexFeed(db), perPage, p);
    assert p in Index(db, Number(k), perPage).view.page.items;
  }

  /** With at least a page's worth of posts, the index opens on a full page. */
  lemma IndexFirstPageFull(db: Tables, perPage: nat)
    requires DatesDistinct(db.posts) && perPage > 0 && |db.posts| >= perPage
    ensures |Index(db, Absent, perPage).view.page.items| == perPage
  {
    FirstPageFull(IndexFeed(db), perPage);
  }

  /** Every post of an author is shown on some page of their profile. */
  lemma ProfileShowsEveryPost(db: Tables, viewer: Option<Username>, p: PostId, perPage: nat)
    requires DatesDistinct(db.posts) && perPage > 0
    requires p in db.posts && db.posts[p].author in db.users
    ensures exists k :: p in Profile(db, viewer, db.posts[p].author, Number(k), perPage).view.page.items
  {
    var a := db.posts[p].author;
    var k := ItemShown(ProfileFeed(db, a), perPage, p);
    assert p in Profile(db, viewer, a, Number(k), perPage).view.page.items;
  }

  /** Every post by an author the viewer follows is shown on some page of
      the viewer's follow feed. */
  lemma FollowIndexShowsEveryFollowedPost(db: Tables, v: Username, p: PostId, perPage: nat)
    requires DatesDistinct(db.posts) && perPage > 0
    requires p in db.posts && IsFollowing(db.follows, v, db.posts[p].author)
    ensures exists k :: p in FollowIndex(db, Some(v), Number(k), perPage).view.page.items
  {
    var k := ItemShown(FollowFeed(db, v), perPage, p);
    assert p in FollowIndex(db, Some(v), Number(k), perPage).view.page.items;
  }

  /** A viewer who follows nobody gets one empty page, whatever page is asked for. */
  lemma FollowingNobodyEmptyPage(db: Tables, v: Username, param: PageParam, perPage: nat)
    requires DatesDistinct(db.posts) && perPage > 0
    requires forall f :: f in db.follows ==> db.follows[f].user != v
    ensures var page := FollowIndex(db, Some(v), param, perPage).view.page;
            page.items == [] && page.number == 1 && page.numPages == 1
  {
    FollowingNobodyEmptyFeed(db, v);
  }
}
