/** The blog's database as one object: the five tables, the id sequence of
    each table and the clock that stamps new rows. The mutating handlers of
    posts/views.py and the delete rules of posts/models.py are its methods;
    each keeps the store valid and gives the new tables as a function of the
    old ones (module Mutations, module OnDelete). */
module Blog {
  import opened Wrappers
  import opened Models
  import opened Queries
  import opened Views
  import Mutations
  import OnDelete

  /** The next id of each table and the logical clock. */
  datatype Counters = Counters(nextGroupId: nat, nextPostId: nat, nextCommentId: nat,
                               nextFollowId: nat, clock: nat)

  /** Every id is below its table's sequence and every timestamp below the clock. */
  ghost predicate Bounded(db: Tables, n: Counters)
  {
    && (forall g :: g in db.groups ==> g < n.nextGroupId)
    && (forall p :: p in db.posts ==> p < n.nextPostId && db.posts[p].pubDate < n.clock)
    && (forall c :: c in db.comments ==> c < n.nextCommentId && db.comments[c].created < n.clock)
    && (forall f :: f in db.follows ==> f < n.nextFollowId)
  }

  /** What the store keeps true of its tables and counters. */
  ghost predicate Inv(db: Tables, n: Counters)
  {
    Wellformed(db) && Bounded(db, n)
  }

  /** Saving a valid post by an existing user under the next post id,
      stamped with the clock, keeps the invariant. */
  lemma AddPostKeepsInv(db: Tables, n: Counters, author: Username, input: Mutations.PostInput)
    requires Inv(db, n) && author in db.users && Mutations.ValidPostForm(db, Some(input))
    ensures n.nextPostId !in db.posts
    ensures Inv(Mutations.AddPost(db, n.nextPostId, author, input, n.clock),
                n.(nextPostId := n.nextPostId + 1, clock := n.clock + 1))
  {
    Mutations.AddPostWellformed(db, n.nextPostId, author, input, n.clock);
  }

  /** Saving a valid edit keeps the invariant. */
  lemma EditPostKeepsInv(db: Tables, n: Counters, id: PostId, input: Mutations.PostInput)
    requires Inv(db, n) && id in db.posts && Mutations.ValidPostForm(db, Some(input))
    ensures Inv(Mutations.EditPost(db, id, input), n)
  {
    Mutations.EditPostWellformed(db, id, input);
  }

  /** Saving a comment on an existing post by an existing user under the next
      comment id, stamped with the clock, keeps the invariant. */
  lemma AddCommentKeepsInv(db: Tables, n: Counters, post: PostId, author: Username, text: string)
    requires Inv(db, n) && post in db.posts && author in db.users
    ensures n.nextCommentId !in db.comments
    ensures Inv(Mutations.AddComment(db, n.nextCommentId, post, author, text, n.clock),
                n.(nextCommentId := n.nextCommentId + 1, clock := n.clock + 1))
  {
    var r := Mutations.AddComment(db, n.nextCommentId, post, author, text, n.clock);
    var m := n.(nextCommentId := n.nextCommentId + 1, clock := n.clock + 1);
    Mutations.AddCommentWellformed(db, n.nextCommentId, post, author, text, n.clock);
    assert r.groups == db.groups && r.posts == db.posts && r.follows == db.follows;
    forall c | c in r.comments
      ensures c < m.nextCommentId && r.comments[c].created < m.clock
    {
      if c != n.nextCommentId {
        assert r.comments[c] == db.comments[c];
      }
    }
  }

  /** get_or_create of a follow row between two different existing users
      keeps the invariant, whether or not a row was created. */
  lemma AddFollowKeepsInv(db: Tables, n: Counters, user: Username, author: Username)
    requires Inv(db, n) && user in db.users && author in db.users && user != author
    ensures n.nextFollowId !in db.follows
    ensures var m := if IsFollowing(db.follows, user, author) then n
                     else n.(nextFollowId := n.nextFollowId + 1);
            Inv(Mutations.AddFollow(db, n.nextFollowId, user, author), m)
  {
    Mutations.AddFollowWellformed(db, n.nextFollowId, user, author);
  }

  lemma RemoveFollowKeepsInv(db: Tables, n: Counters, user: Username, author: Username)
    requires Inv(db, n)
    ensures Inv(Mutations.RemoveFollow(db, user, author), n)
  {
    Mutations.RemoveFollowWellformed(db, user, author);
  }

  lemma DeleteUserKeepsInv(db: Tables, n: Counters, u: Username)
    requires Inv(db, n)
    ensures Inv(OnDelete.DeleteUser(db, u), n)
  {
    OnDelete.DeleteUserWellformed(db, u);
  }

  lemma DeletePostKeepsInv(db: Tables, n: Counters, p: PostId)
    requires Inv(db, n)
    ensures Inv(OnDelete.DeletePost(db, p), n)
  {
    OnDelete.DeletePostWellformed(db, p);
  }

  lemma DeleteGroupKeepsInv(db: Tables, n: Counters, g: GroupId)
    requires Inv(db, n)
    ensures Inv(OnDelete.DeleteGroup(db, g), n)
  {
    OnDelete.DeleteGroupWellformed(db, g);
  }

  /** Carries the invariant over to equal tables and counters; the store's
      methods use it to state the invariant of their new fields. */
  lemma InvCarried(db: Tables, n: Counters, db': Tables, n': Counters)
    requires Inv(db, n) && db' == db && n' == n
    ensures Inv(db', n')
  {
  }

  class Store {
    var users: set<Username>
    var groups: map<GroupId, Group>
    var posts: map<PostId, Post>
    var comments: map<CommentId, Comment>
    var follows: map<FollowId, Follow>
    var nextGroupId: nat
    var nextPostId: nat
    var nextCommentId: nat
    var nextFollowId: nat
    var clock: nat

    /** The tables as a value, for the queries of module Views. */
    function Snapshot(): Tables
      reads this
    {
      Tables(users, groups, posts, comments, follows)
    }

    ghost function Allocation(): Counters
      reads this
    {
      Counters(nextGroupId, nextPostId, nextCommentId, nextFollowId, clock)
    }

    /** The tables are well formed, every id is below its table's sequence
        and every timestamp is below the clock. */
    ghost predicate Valid()
      reads this
    {
      Inv(Snapshot(), Allocation())
    }

    constructor ()
      ensures Valid()
      ensures Snapshot() == Empty
    {
      users, groups, posts, comments, follows := {}, map[], map[], map[], map[];
      nextGroupId, nextPostId, nextCommentId, nextFollowId, clock := 0, 0, 0, 0, 0;
    }

    /** Registers a user (the authentication collaborator's job): usernames
        are unique, so a taken one is refused. */
    method AddUser(username: Username) returns (ok: bool)
      requires Valid()
      modifies this
      ensures Valid()
      ensures ok == (username !in old(users))
      ensures Snapshot() == old(Snapshot()).(users := old(users) + {username})
      ensures Allocation() == old(Allocation())
    {
      ok := username !in users;
      users := users + {username};
    }

    /** Creates a group; the slug column is unique, so a taken slug fails and
        changes nothing. */
    method CreateGroup(title: string, slug: string, description: string) returns (r: Option<GroupId>)
      requires Valid()
      modifies this
      ensures Valid()
      ensures r.None? <==> exists g :: g in old(groups) && old(groups)[g].slug == slug
      ensures r.None? ==> unchanged(this)
      ensures r.Some? ==>
                && r.value == old(nextGroupId) && r.value !in old(groups)
                && Snapshot() == old(Snapshot()).(groups := old(groups)[r.value := Group(title, slug, description)])
                && Allocation() == old(Allocation()).(nextGroupId := old(nextGroupId) + 1)
    {
      if GroupBySlug(groups, slug).Some? {
        return None;
      }
      groups := groups[nextGroupId := Group(title, slug, description)];
      r := Some(nextGroupId);
      nextGroupId := nextGroupId + 1;
    }

    /** new_post: a guest is sent to log in; an invalid or unsubmitted form is
        shown again and nothing changes; a valid form adds one post by the
        viewer, stamped now, and redirects to the index. */
    method NewPost(viewer: Option<Username>, form: Option<Mutations.PostInput>) returns (r: Response)
      requires Valid()
      requires viewer.Some? ==> viewer.value in users
      modifies this
      ensures Valid()
      ensures viewer.None? ==> r == Redirect(ToLogin) && unchanged(this)
      ensures viewer.Some? && !Mutations.ValidPostForm(old(Snapshot()), form) ==>
                r == Ok(PostFormPage(false)) && unchanged(this)
      ensures viewer.Some? && Mutations.ValidPostForm(old(Snapshot()), form) ==>
                && r == Redirect(ToIndex)
                && Snapshot() == Mutations.AddPost(old(Snapshot()), old(nextPostId), viewer.value, form.value, old(clock))
                && Allocation() == old(Allocation()).(nextPostId := old(nextPostId) + 1, clock := old(clock) + 1)
    {
      if viewer.None? {
        return Redirect(ToLogin);
      }
      if !Mutations.ValidPostForm(Snapshot(), form) {
        return Ok(PostFormPage(false));
      }
      var input := form.value;
      ghost var n := Allocation();
      ghost var after := Mutations.AddPost(Snapshot(), nextPostId, viewer.value, input, clock);
      AddPostKeepsInv(Snapshot(), n, viewer.value, input);
      posts := posts[nextPostId := Post(input.text, clock, viewer.value, input.group, input.image)];
      nextPostId := nextPostId + 1;
      clock := clock + 1;
      InvCarried(after, n.(nextPostId := n.nextPostId + 1, clock := n.clock + 1), Snapshot(), Allocation());
      r := Redirect(ToIndex);
    }

    /** post_edit: the post is looked up by id and author's username
        (NotFound otherwise); anyone but its author is sent to the index; the
        author's valid form saves the new text, group and image and redirects
        to the post, an invalid one is shown again. */
    method PostEdit(viewer: Option<Username>, username: Username, postId: PostId,
                    form: Option<Mutations.PostInput>) returns (r: Response)
      requires Valid()
      requires viewer.Some? ==> viewer.value in users
      modifies this
      ensures Valid()
      ensures Allocation() == old(Allocation())
      ensures viewer.None? ==> r == Redirect(ToLogin) && unchanged(this)
      ensures viewer.Some? && !(postId in old(posts) && old(posts)[postId].author == username) ==>
                r == NotFound && unchanged(this)
      ensures viewer.Some? && postId in old(posts) && old(posts)[postId].author == username &&
              viewer.value != username ==>
                r == Redirect(ToIndex) && unchanged(this)
      ensures viewer == Some(username) && postId in old(posts) && old(posts)[postId].author == username ==>
                if Mutations.ValidPostForm(old(Snapshot()), form) then
                  r == Redirect(ToPost(username, postId)) &&
                  Snapshot() == Mutations.EditPost(old(Snapshot()), postId, form.value)
                else
                  r == Ok(PostFormPage(true)) && unchanged(this)
    {
      if viewer.None? {
        return Redirect(ToLogin);
      }
      if !(postId in posts && posts[postId].author == username) {
        return NotFound;
      }
      if viewer.value != username {
        return Redirect(ToIndex);
      }
      if !Mutations.ValidPostForm(Snapshot(), form) {
        return Ok(PostFormPage(true));
      }
      ghost var n := Allocation();
      ghost var after := Mutations.EditPost(Snapshot(), postId, form.value);
      EditPostKeepsInv(Snapshot(), n, postId, form.value);
      var prev := posts[postId];
      var image := if form.value.image.Some? then form.value.image else prev.image;
      posts := posts[postId := prev.(text := form.value.text, group := form.value.group, image := image)];
      InvCarried(after, n, Snapshot(), Allocation());
      r := Redirect(ToPost(username, postId));
    }

    /** add_comment: a guest is sent to log in; an invalid form changes
        nothing; a valid one on a missing post is NotFound; otherwise one
        comment by the viewer on that post is added. Both non-error outcomes
        redirect to the post. */
    method AddComment(viewer: Option<Username>, username: Username, postId: PostId,
                      text: Option<string>) returns (r: Response)
      requires Valid()
      requires viewer.Some? ==> viewer.value in users
      modifies this
      ensures Valid()
      ensures viewer.None? ==> r == Redirect(ToLogin) && unchanged(this)
      ensures viewer.Some? && !Mutations.ValidCommentForm(text) ==>
                r == Redirect(ToPost(username, postId)) && unchanged(this)
      ensures viewer.Some? && Mutations.ValidCommentForm(text) && postId !in old(posts) ==>
                r == NotFound && unchanged(this)
      ensures viewer.Some? && Mutations.ValidCommentForm(text) && postId in old(posts) ==>
                && r == Redirect(ToPost(username, postId))
                && Snapshot() == Mutations.AddComment(old(Snapshot()), old(nextCommentId), postId,
                                                      viewer.value, text.value, old(clock))
                && Allocation() == old(Allocation()).(nextCommentId := old(nextCommentId) + 1, clock := old(clock) + 1)
    {
      if viewer.None? {
        return Redirect(ToLogin);
      }
      if !Mutations.ValidCommentForm(text) {
        return Redirect(ToPost(username, postId));
      }
      if postId !in posts {
        return NotFound;
      }
      ghost var n := Allocation();
      ghost var after := Mutations.AddComment(Snapshot(), nextCommentId, postId, viewer.value, text.value, clock);
      AddCommentKeepsInv(Snapshot(), n, postId, viewer.value, text.value);
      comments := comments[nextCommentId := Comment(postId, viewer.value, text.value, clock)];
      nextCommentId := nextCommentId + 1;
      clock := clock + 1;
      InvCarried(after, n.(nextCommentId := n.nextCommentId + 1, clock := n.clock + 1), Snapshot(), Allocation());
      r := Redirect(ToPost(username, postId));
    }

    /** profile_follow: following yourself is skipped; an unknown username is
        NotFound; otherwise the row (viewer, author) is fetched or created.
        Both non-error outcomes redirect to the follow feed. */
    method ProfileFollow(viewer: Option<Username>, username: Username) returns (r: Response)
      requires Valid()
      requires viewer.Some? ==> viewer.value in users
      modifies this
      ensures Valid()
      ensures viewer.None? ==> r == Redirect(ToLogin) && unchanged(this)
      ensures viewer == Some(username) ==> r == Redirect(ToFollowIndex) && unchanged(this)
      ensures viewer.Some? && viewer.value != username && username !in old(users) ==>
                r == NotFound && unchanged(this)
      ensures viewer.Some? && viewer.value != username && username in old(users) ==>
                && r == Redirect(ToFollowIndex)
                && IsFollowing(follows, viewer.value, username)
                && Snapshot() == Mutations.AddFollow(old(Snapshot()), old(nextFollowId), viewer.value, username)
                && Allocation() == old(Allocation()).(nextFollowId := nextFollowId)
                && nextFollowId == if IsFollowing(old(follows), viewer.value, username)
                                   then old(nextFollowId) else old(nextFollowId) + 1
    {
      if viewer.None? {
        return Redirect(ToLogin);
      }
      if viewer.value == username {
        return Redirect(ToFollowIndex);
      }
      if username !in users {
        return NotFound;
      }
      ghost var n := Allocation();
      ghost var after := Mutations.AddFollow(Snapshot(), nextFollowId, viewer.value, username);
      ghost var m := if IsFollowing(follows, viewer.value, username) then n
                     else n.(nextFollowId := n.nextFollowId + 1);
      AddFollowKeepsInv(Snapshot(), n, viewer.value, username);
      if !IsFollowing(follows, viewer.value, username) {
        follows := follows[nextFollowId := Follow(viewer.value, username)];
        nextFollowId := nextFollowId + 1;
      }
      InvCarried(after, m, Snapshot(), Allocation());
      r := Redirect(ToFollowIndex);
    }

    /** profile_unfollow: NotFound for an unknown username or when the viewer
        has no row for that author; otherwise exactly that row is deleted and
        the browser goes to the follow feed. */
    method ProfileUnfollow(viewer: Option<Username>, username: Username) returns (r: Response)
      requires Valid()
      requires viewer.Some? ==> viewer.value in users
      modifies this
      ensures Valid()
      ensures Allocation() == old(Allocation())
      ensures viewer.None? ==> r == Redirect(ToLogin) && unchanged(this)
      ensures viewer.Some? && (username !in old(users) || !IsFollowing(old(follows), viewer.value, username)) ==>
                r == NotFound && unchanged(this)
      ensures viewer.Some? && username in old(users) && IsFollowing(old(follows), viewer.value, username) ==>
                && r == Redirect(ToFollowIndex)
                && !IsFollowing(follows, viewer.value, username)
                && Snapshot() == Mutations.RemoveFollow(old(Snapshot()), viewer.value, username)
    {
      if viewer.None? {
        return Redirect(ToLogin);
      }
      if username !in users {
        return NotFound;
      }
      match FollowRow(follows, viewer.value, username)
      case None =>
        return NotFound;
      case Some(f) =>
        ghost var n := Allocation();
        ghost var after := Mutations.RemoveFollow(Snapshot(), viewer.value, username);
        RemoveFollowKeepsInv(Snapshot(), n, viewer.value, username);
        follows := follows - {f};
        InvCarried(after, n, Snapshot(), Allocation());
        r := Redirect(ToFollowIndex);
    }

    /** Deletes a user and, by CASCADE, their posts, the comments on those
        posts, their own comments and every follow row naming them. */
    method DeleteUser(u: Username)
      requires Valid()
      modifies this
      ensures Valid()
      ensures Snapshot() == OnDelete.DeleteUser(old(Snapshot()), u)
      ensures Allocation() == old(Allocation())
    {
      ghost var n := Allocation();
      ghost var after := OnDelete.DeleteUser(Snapshot(), u);
      DeleteUserKeepsInv(Snapshot(), n, u);
      follows := OnDelete.FollowsNotNaming(follows, u);
      posts := OnDelete.PostsNotBy(posts, u);
      comments := OnDelete.CommentsKept(comments, u, posts);
      users := users - {u};
      InvCarried(after, n, Snapshot(), Allocation());
    }

    /** Deletes a post and, by CASCADE, the comments on it. */
    method DeletePost(p: PostId)
      requires Valid()
      modifies this
      ensures Valid()
      ensures Snapshot() == OnDelete.DeletePost(old(Snapshot()), p)
      ensures Allocation() == old(Allocation())
    {
      ghost var n := Allocation();
      ghost var after := OnDelete.DeletePost(Snapshot(), p);
      DeletePostKeepsInv(Snapshot(), n, p);
      comments := OnDelete.CommentsNotOn(comments, p);
      posts := posts - {p};
      InvCarried(after, n, Snapshot(), Allocation());
    }

    /** Deletes a group; by SET_NULL its posts stay, without a group. */
    method DeleteGroup(g: GroupId)
      requires Valid()
      modifies this
      ensures Valid()
      ensures Snapshot() == OnDelete.DeleteGroup(old(Snapshot()), g)
      ensures Allocation() == old(Allocation())
    {
      ghost var n := Allocation();
      ghost var after := OnDelete.DeleteGroup(Snapshot(), g);
      DeleteGroupKeepsInv(Snapshot(), n, g);
      posts := OnDelete.Ungrouped(posts, g);
      groups := groups - {g};
      InvCarried(after, n, Snapshot(), Allocation());
    }
  }
}
