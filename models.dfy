/** The blog's relational schema (posts/models.py): groups, posts, comments and
    follow rows as records, their display strings and default ordering, and the
    consistency rules the database keeps between the five tables. */
module Models {
  import opened Wrappers

  /** Users are identified by their unique username. */
  type Username = string
  type GroupId = nat
  type PostId = nat
  type CommentId = nat
  type FollowId = nat

  datatype Group = Group(title: string, slug: string, description: string)

  /** A post. `pubDate` is a logical timestamp taken once, when the post is
      created; `image` is an opaque reference to an uploaded file. */
  datatype Post = Post(text: string, pubDate: nat, author: Username,
                       group: Option<GroupId>, image: Option<string>)

  datatype Comment = Comment(post: PostId, author: Username, text: string, created: nat)

  /** A follow row: `user` subscribes to the posts of `author`. */
  datatype Follow = Follow(user: Username, author: Username)

  /** How many characters of a post's text its display string keeps. */
  const PostStrLength := 15

  /** The display string of a group is its title. */
  function GroupStr(g: Group): string
  {
    g.title
  }

  /** The display string of a post: the start of its text, at most 15 characters. */
  function PostStr(p: Post): (r: string)
    ensures r <= p.text
    ensures |r| == if |p.text| < PostStrLength then |p.text| else PostStrLength
  {
    if |p.text| <= PostStrLength then p.text else p.text[..PostStrLength]
  }

  /** The default ordering of posts, newest first: `a` is listed before `b`. */
  predicate ListedBefore(a: Post, b: Post)
  {
    a.pubDate > b.pubDate
  }

  /** `s` lists posts of the table in the default order (hence each at most once). */
  ghost predicate NewestFirst(posts: map<PostId, Post>, s: seq<PostId>)
  {
    && (forall i :: 0 <= i < |s| ==> s[i] in posts)
    && (forall i, j :: 0 <= i < j < |s| ==> ListedBefore(posts[s[i]], posts[s[j]]))
  }

  /** The five tables. Users are a set of usernames: the model keeps no other
      user column. */
  datatype Tables = Tables(
    users: set<Username>,
    groups: map<GroupId, Group>,
    posts: map<PostId, Post>,
    comments: map<CommentId, Comment>,
    follows: map<FollowId, Follow>)

  const Empty := Tables({}, map[], map[], map[], map[])

  /** Every foreign key refers to an existing row. */
  ghost predicate Integrity(db: Tables)
  {
    && (forall p :: p in db.posts ==>
          db.posts[p].author in db.users &&
          (db.posts[p].group.Some? ==> db.posts[p].group.value in db.groups))
    && (forall c :: c in db.comments ==>
          db.comments[c].post in db.posts && db.comments[c].author in db.users)
    && (forall f :: f in db.follows ==>
          db.follows[f].user in db.users && db.follows[f].author in db.users)
  }

  /** The unique constraint on the slug column. */
  ghost predicate SlugsUnique(groups: map<GroupId, Group>)
  {
    forall g, h :: g in groups && h in groups && groups[g].slug == groups[h].slug ==> g == h
  }

  /** No two posts carry the same timestamp, so the default order is total. */
  ghost predicate DatesDistinct(posts: map<PostId, Post>)
  {
    forall p, q :: p in posts && q in posts && posts[p].pubDate == posts[q].pubDate ==> p == q
  }

  /** At most one row per (user, author) pair. */
  ghost predicate FollowsUnique(follows: map<FollowId, Follow>)
  {
    forall f, k :: f in follows && k in follows && follows[f] == follows[k] ==> f == k
  }

  /** Nobody follows themself. */
  ghost predicate NoSelfFollow(follows: map<FollowId, Follow>)
  {
    forall f :: f in follows ==> follows[f].user != follows[f].author
  }

  /** Everything the store keeps true of its tables. */
  ghost predicate Wellformed(db: Tables)
  {
    && Integrity(db)
    && SlugsUnique(db.groups)
    && DatesDistinct(db.posts)
    && FollowsUnique(db.follows)
    && NoSelfFollow(db.follows)
  }
}
