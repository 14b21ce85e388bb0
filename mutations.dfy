/** The writes the mutating handlers of posts/views.py make, as functions
    from the tables before to the tables after: saving a new post, saving an
    edited post, saving a comment, get_or_create of a follow row and deleting
    one. Each comes with what it keeps true of the store. */
module Mutations {
  import opened Wrappers
  import opened Models
  import opened Queries
  import Paging
  import Views

  /** What the post form submits; `image` is None when no file was uploaded. */
  datatype PostInput = PostInput(text: string, group: Option<GroupId>, image: Option<string>)

  /** A post form is valid when it was submitted, its text is not empty and
      the group it names, if any, exists. */
  predicate ValidPostForm(db: Tables, form: Option<PostInput>)
  {
    form.Some? && |form.value.text| > 0 &&
    (form.value.group.Some? ==> form.value.group.value in db.groups)
  }

  /** A comment form is valid when it was submitted with a non-empty text. */
  predicate ValidCommentForm(text: Option<string>)
  {
    text.Some? && |text.value| > 0
  }

  /** Saving a new post `id` by `author`, stamped `now`: exactly one post is
      added and no existing row changes. */
  function AddPost(db: Tables, id: PostId, author: Username, input: PostInput, now: nat): (r: Tables)
    requires id !in db.posts
    ensures r.users == db.users && r.groups == db.groups && r.comments == db.comments && r.follows == db.follows
    ensures r.posts.Keys == db.posts.Keys + {id}
    ensures forall p :: p in db.posts ==> r.posts[p] == db.posts[p]
    ensures r.posts[id] == Post(input.text, now, author, input.group, input.image)
  {
    db.(posts := db.posts[id := Post(input.text, now, author, input.group, input.image)])
  }

  /** A valid new post by an existing user, stamped later than every post,
      keeps the store well formed. */
  lemma AddPostWellformed(db: Tables, id: PostId, author: Username, input: PostInput, now: nat)
    requires Wellformed(db) && id !in db.posts
    requires author in db.users && ValidPostForm(db, Some(input))
    requires forall p :: p in db.posts ==> db.posts[p].pubDate < now
    ensures Wellformed(AddPost(db, id, author, input, now))
  {
    var r := AddPost(db, id, author, input, now);
    forall p | p in r.posts
      ensures r.posts[p].author in r.users
      ensures r.posts[p].group.Some? ==> r.posts[p].group.value in r.groups
    {
      if p != id {
        assert r.posts[p] == db.posts[p];
      }
    }
    forall p, q | p in r.posts && q in r.posts && r.posts[p].pubDate == r.posts[q].pubDate
      ensures p == q
    {
      if p != id && q != id {
        assert r.posts[p] == db.posts[p] && r.posts[q] == db.posts[q];
      }
    }
  }

  /** A new post stamped later than every post is the first post of the index. */
  lemma NewPostLeadsIndex(db: Tables, id: PostId, author: Username, input: PostInput, now: nat)
    requires DatesDistinct(db.posts) && id !in db.posts
    requires forall p :: p in db.posts ==> db.posts[p].pubDate < now
    ensures var r := AddPost(db, id, author, input, now);
            DatesDistinct(r.posts) && |IndexFeed(r)| > 0 && IndexFeed(r)[0] == id
  {
    var r := AddPost(db, id, author, input, now);
    assert forall p :: p in r.posts && p != id ==> r.posts[p] == db.posts[p];
    NewestLeadsIndex(r, id);
  }

  /** After a post is saved with the current clock, the index opened without
      a page number shows it first. */
  lemma NewPostHeadsIndexPage(db: Tables, id: PostId, author: Username, input: PostInput, now: nat, perPage: nat)
    requires DatesDistinct(db.posts) && id !in db.posts && perPage > 0
    requires forall p :: p in db.posts ==> db.posts[p].pubDate < now
    ensures var r := AddPost(db, id, author, input, now);
            DatesDistinct(r.posts) &&
            var items := Views.Index(r, Paging.Absent, perPage).view.page.items;
            |items| > 0 && items[0] == id
  {
    var r := AddPost(db, id, author, input, now);
    NewPostLeadsIndex(db, id, author, input, now);
    var s := IndexFeed(r);
    Paging.ItemOnItsPage(s, perPage, 0);
  }

  /** A new post raises the number of posts by one, and its author's post
      count by one. */
  lemma {:induction false} NewPostCounts(db: Tables, id: PostId, author: Username, input: PostInput, now: nat)
    requires id !in db.posts
    ensures |AddPost(db, id, author, input, now).posts| == |db.posts| + 1
    ensures PostCount(AddPost(db, id, author, input, now).posts, author) == PostCount(db.posts, author) + 1
  {
    var row := Post(input.text, now, author, input.group, input.image);
    assert AddPost(db, id, author, input, now).posts == db.posts[id := row];
    AuthoredGrows(db.posts, id, row);
  }

  /** Adding post `id` adds it to its author's posts. */
  lemma AuthoredGrows(posts: map<PostId, Post>, id: PostId, row: Post)
    requires id !in posts
    ensures |posts[id := row]| == |posts| + 1
    ensures AuthoredBy(posts[id := row], row.author) == AuthoredBy(posts, row.author) + {id}
  {
  }

  /** Saving an edited post: only its text, group and (when a new file was
      uploaded) image change; its id, author and timestamp stay, as does
      every other row. */
  function EditPost(db: Tables, id: PostId, input: PostInput): (r: Tables)
    requires id in db.posts
    ensures r.users == db.users && r.groups == db.groups && r.comments == db.comments && r.follows == db.follows
    ensures r.posts.Keys == db.posts.Keys
    ensures forall p :: p in db.posts && p != id ==> r.posts[p] == db.posts[p]
    ensures r.posts[id].text == input.text && r.posts[id].group == input.group
    ensures r.posts[id].image == if input.image.Some? then input.image else db.posts[id].image
    ensures r.posts[id].author == db.posts[id].author && r.posts[id].pubDate == db.posts[id].pubDate
  {
    var prev := db.posts[id];
    var image := if input.image.Some? then input.image else prev.image;
    db.(posts := db.posts[id := prev.(text := input.text, group := input.group, image := image)])
  }

  /** A valid edit keeps the store well formed. */
  lemma EditPostWellformed(db: Tables, id: PostId, input: PostInput)
    requires Wellformed(db) && id in db.posts && ValidPostForm(db, Some(input))
    ensures Wellformed(EditPost(db, id, input))
  {
    var r := EditPost(db, id, input);
    forall p, q | p in r.posts && q in r.posts && r.posts[p].pubDate == r.posts[q].pubDate
      ensures p == q
    {
      assert r.posts[p].pubDate == db.posts[p].pubDate;
      assert r.posts[q].pubDate == db.posts[q].pubDate;
    }
  }

  /** An edit keeps the number of posts and every author's post count. */
  lemma {:induction false} EditKeepsCounts(db: Tables, id: PostId, input: PostInput, a: Username)
    requires id in db.posts
    ensures |EditPost(db, id, input).posts| == |db.posts|
    ensures PostCount(EditPost(db, id, input).posts, a) == PostCount(db.posts, a)
  {
    var r := EditPost(db, id, input).posts;
    assert r.Keys == db.posts.Keys;
    assert AuthoredBy(r, a) == AuthoredBy(db.posts, a);
  }

  /** Saving a comment `id` on `post` by `author`: exactly one comment is
      added and no existing row changes. */
  function AddComment(db: Tables, id: CommentId, post: PostId, author: Username, text: string, now: nat): (r: Tables)
    requires id !in db.comments
    ensures r.users == db.users && r.groups == db.groups && r.posts == db.posts && r.follows == db.follows
    ensures r.comments.Keys == db.comments.Keys + {id}
    ensures forall c :: c in db.comments ==> r.comments[c] == db.comments[c]
    ensures r.comments[id] == Comment(post, author, text, now)
  {
    db.(comments := db.comments[id := Comment(post, author, text, now)])
  }

  /** A comment on an existing post by an existing user keeps the store well formed. */
  lemma AddCommentWellformed(db: Tables, id: CommentId, post: PostId, author: Username, text: string, now: nat)
    requires Wellformed(db) && id !in db.comments
    requires post in db.posts && author in db.users
    ensures Wellformed(AddComment(db, id, post, author, text, now))
  {
    var r := AddComment(db, id, post, author, text, now);
    forall c | c in r.comments
      ensures r.comments[c].post in r.posts && r.comments[c].author in r.users
    {
      if c != id {
        assert r.comments[c] == db.comments[c];
      }
    }
  }

  /** A new comment is listed on its post's page, beside the ones it had. */
  lemma {:induction false} CommentListedOnPost(db: Tables, id: CommentId, post: PostId, author: Username, text: string, now: nat)
    requires id !in db.comments
    ensures CommentsOf(AddComment(db, id, post, author, text, now).comments, post) == CommentsOf(db.comments, post) + {id}
  {
    var r := AddComment(db, id, post, author, text, now).comments;
    assert r == db.comments[id := Comment(post, author, text, now)];
  }

  /** get_or_create of the follow row (user, author): afterwards the row
      exists; when it already existed nothing changes, otherwise exactly the
      new row `id` is added. */
  function AddFollow(db: Tables, id: FollowId, user: Username, author: Username): (r: Tables)
    requires id !in db.follows
    ensures r.users == db.users && r.groups == db.groups && r.posts == db.posts && r.comments == db.comments
    ensures IsFollowing(r.follows, user, author)
    ensures IsFollowing(db.follows, user, author) ==> r == db
    ensures !IsFollowing(db.follows, user, author) ==>
              r.follows.Keys == db.follows.Keys + {id} && r.follows[id] == Follow(user, author) &&
              forall f :: f in db.follows ==> r.follows[f] == db.follows[f]
  {
    if IsFollowing(db.follows, user, author) then db
    else
      var r := db.(follows := db.follows[id := Follow(user, author)]);
      assert r.follows[id] == Follow(user, author);
      r
  }

  /** Following another existing user keeps the store well formed. */
  lemma AddFollowWellformed(db: Tables, id: FollowId, user: Username, author: Username)
    requires Wellformed(db) && id !in db.follows
    requires user in db.users && author in db.users && user != author
    ensures Wellformed(AddFollow(db, id, user, author))
  {
  }

  /** Following someone already followed changes nothing. */
  lemma FollowIdempotent(db: Tables, id: FollowId, id2: FollowId, user: Username, author: Username)
    requires id !in db.follows && id2 !in AddFollow(db, id, user, author).follows
    ensures AddFollow(AddFollow(db, id, user, author), id2, user, author) == AddFollow(db, id, user, author)
  {
  }

  /** Deleting the follow row (user, author): afterwards there is none and
      every other row stays as it was. */
  function RemoveFollow(db: Tables, user: Username, author: Username): (r: Tables)
    requires FollowsUnique(db.follows)
    ensures r.users == db.users && r.groups == db.groups && r.posts == db.posts && r.comments == db.comments
    ensures !IsFollowing(r.follows, user, author)
    ensures forall f :: f in r.follows <==> f in db.follows && db.follows[f] != Follow(user, author)
    ensures forall f :: f in r.follows ==> r.follows[f] == db.follows[f]
    ensures !IsFollowing(db.follows, user, author) ==> r == db
  {
    match FollowRow(db.follows, user, author)
    case None => db
    case Some(f) => db.(follows := db.follows - {f})
  }

  /** Deleting a follow row keeps the store well formed. */
  lemma RemoveFollowWellformed(db: Tables, user: Username, author: Username)
    requires Wellformed(db)
    ensures Wellformed(RemoveFollow(db, user, author))
  {
    var r := RemoveFollow(db, user, author);
    forall f | f in r.follows
      ensures r.follows[f].user in r.users && r.follows[f].author in r.users
      ensures r.follows[f].user != r.follows[f].author
    {
      assert r.follows[f] == db.follows[f];
    }
    forall f, k | f in r.follows && k in r.follows && r.follows[f] == r.follows[k]
      ensures f == k
    {
      assert r.follows[f] == db.follows[f] && r.follows[k] == db.follows[k];
    }
  }

  /** Unfollowing lowers, by one each, the count the profile page calls
      `followers` for the user and the one it calls `following_to` for the
      author. */
  lemma {:induction false} UnfollowLowersCounters(db: Tables, user: Username, author: Username)
    requires FollowsUnique(db.follows) && IsFollowing(db.follows, user, author)
    ensures FollowersCount(RemoveFollow(db, user, author).follows, user) == FollowersCount(db.follows, user) - 1
    ensures FollowingToCount(RemoveFollow(db, user, author).follows, author) == FollowingToCount(db.follows, author) - 1
  {
    var f := FollowRow(db.follows, user, author).value;
    assert RemoveFollow(db, user, author).follows == db.follows - {f};
    RowsShrink(db.follows, f);
  }

  /** Deleting row `id` removes it from the rows of its user and of its author. */
  lemma RowsShrink(follows: map<FollowId, Follow>, id: FollowId)
    requires id in follows
    ensures |RowsOfUser(follows - {id}, follows[id].user)| == |RowsOfUser(follows, follows[id].user)| - 1
    ensures |RowsOfAuthor(follows - {id}, follows[id].author)| == |RowsOfAuthor(follows, follows[id].author)| - 1
  {
    var u, a := RowsOfUser(follows, follows[id].user), RowsOfAuthor(follows, follows[id].author);
    assert RowsOfUser(follows - {id}, follows[id].user) == u - {id} && id in u;
    assert RowsOfAuthor(follows - {id}, follows[id].author) == a - {id} && id in a;
  }

  /** Following someone not yet followed and then unfollowing them restores
      the tables exactly. */
  lemma {:induction false} FollowUnfollowRoundTrip(db: Tables, id: FollowId, user: Username, author: Username)
    requires FollowsUnique(db.follows) && id !in db.follows
    requires !IsFollowing(db.follows, user, author)
    ensures FollowsUnique(AddFollow(db, id, user, author).follows)
    ensures RemoveFollow(AddFollow(db, id, user, author), user, author) == db
  {
    var a := AddFollow(db, id, user, author);
    assert forall f :: f in db.follows ==> db.follows[f] != Follow(user, author);
    assert FollowRow(a.follows, user, author) == Some(id);
    assert a.follows - {id} == db.follows;
  }

  /** A new follow of `author` by `user` raises the count the profile page
      calls `followers` for the user and the one it calls `following_to` for
      the author, by one each. */
  lemma {:induction false} FollowRaisesCounters(db: Tables, id: FollowId, user: Username, author: Username)
    requires id !in db.follows && !IsFollowing(db.follows, user, author)
    ensures FollowersCount(AddFollow(db, id, user, author).follows, user) == FollowersCount(db.follows, user) + 1
    ensures FollowingToCount(AddFollow(db, id, user, author).follows, author) == FollowingToCount(db.follows, author) + 1
  {
    var a := AddFollow(db, id, user, author).follows;
    assert a == db.follows[id := Follow(user, author)];
    RowsGrow(db.follows, id, Follow(user, author));
  }

  /** Adding row `id` adds it to the rows of its user and of its author. */
  lemma RowsGrow(follows: map<FollowId, Follow>, id: FollowId, row: Follow)
    requires id !in follows
    ensures RowsOfUser(follows[id := row], row.user) == RowsOfUser(follows, row.user) + {id}
    ensures RowsOfAuthor(follows[id := row], row.author) == RowsOfAuthor(follows, row.author) + {id}
  {
  }
}
