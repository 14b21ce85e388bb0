# Yatube blog store in Dafny

This project models the core of a small Django blog ("Yatube"): the relational
schema of `posts/models.py` and the request handlers of `posts/views.py`.

- **Schema.** Users, groups, posts, comments and follow rows are kept as five
  tables. They come with their display strings, the default newest-first
  order of posts, and the consistency rules the database keeps between the
  tables: foreign keys, unique slugs and the delete rules.
- **Store.** The database is the class `Blog.Store`. Its fields are the five
  tables, the id sequence of each table and a logical clock that stamps new
  rows.
- **Mutating handlers.** `new_post`, `post_edit`, `add_comment`,
  `profile_follow` and `profile_unfollow` are methods of the store.
  - Each of these five takes the viewer as `Option<Username>`; `None` is a guest.
  - Each of these five returns `Ok(view)`, `Redirect(target)` or `NotFound`.
  - Each states its new tables as a function of the old ones (module
    `Mutations`) and keeps the store invariant.
- **Cascading deletes.** Deleting a user, a post or a group is a store method
  too (`DeleteUser`, `DeletePost`, `DeleteGroup`). These take no viewer and
  return nothing. Each states its new tables as a function of the old ones
  (module `OnDelete`) and keeps the store invariant.
- **Read-only handlers.** `index`, `group_posts`, `profile`, `post_view` and
  `follow_index` are functions of the tables (module `Views`). Each yields the
  data its template receives.
- **Pagination.** Django's `Paginator.get_page` becomes a page-slice function
  (module `Paging`). The page size is a parameter.

Modules, one file each:

| module | file | what |
|---|---|---|
| `Wrappers` | `wrappers.dfy` | `Option` |
| `Models` | `models.dfy` | records, `__str__`, ordering, table consistency |
| `Paging` | `paging.dfy` | page count, page-number clamping, page slice |
| `Queries` | `queries.dfy` | newest-first listing, feeds, follow lookups, counters |
| `Views` | `views.dfy` | the read-only handlers |
| `Mutations` | `mutations.dfy` | the writes of the mutating handlers |
| `OnDelete` | `ondelete.dfy` | CASCADE and SET_NULL |
| `Blog` | `store.dfy` | the store class and its invariant |

Three behaviours of the code that the model keeps:

- **Self-follow.** `profile_follow` skips a self-follow
  (`posts/views.py:160`), so the store never holds such a row.
- **Comment on a missing post.** `add_comment` validates the form first and
  only then looks the post up with `get_object_or_404`
  (`posts/views.py:137`). So a valid comment on a missing post answers
  `NotFound` and creates nothing.
- **Duplicate follow rows.** Follow rows are created only through
  `get_or_create` (`posts/views.py:162`), so there is at most one row per
  (user, author). The model makes this part of the store invariant.

## Model

| member | source | states |
|---|---|---|
| Models.PostStr | posts/models.py:42-43 | a post is displayed as a prefix of its text: the first 15 characters, or the whole text when it is shorter |
| Queries.SortNewestFirst | posts/models.py:45-46 | a set of posts listed in the default order: every post of the set exactly once, nothing else, each strictly newer than the next |
| Queries.NewestLeadsIndex | posts/models.py:45-46 | a post newer than every other post is the first entry of the index |
| Mutations.NewPostLeadsIndex | posts/models.py:21-24 | a post saved with the current clock, which is later than every stored timestamp, comes first in the index afterwards |
| Queries.IndexFeed | posts/views.py:11 | the index lists exactly the stored posts, newest first, each once |
| Queries.GroupFeed | posts/views.py:23 | a group's feed lists exactly the posts whose group is that group, newest first |
| Queries.ProfileFeed | posts/views.py:55 | a profile lists exactly the author's posts, newest first, and its length is the author's post count |
| Queries.FollowFeed | posts/views.py:145-146 | the follow feed lists exactly the posts whose author the viewer has a follow row for, newest first |
| Queries.FollowingNobodyEmptyFeed | posts/views.py:145-146 | a viewer with no follow rows gets an empty follow feed |
| Queries.FollowRow | posts/views.py:172-176 | the follow row of (user, author) is found exactly when one exists, and it is a row for that pair |
| Queries.GroupBySlug | posts/views.py:22 | a slug resolves to a group exactly when some group has it, and only to a group with that slug |
| Paging.NumPages | posts/views.py:12 | the page count is 1 for no items; otherwise it is the least number of pages that hold all the items, so no page is left empty |
| Paging.PageNumber | posts/views.py:13-14 | an absent or non-integer page number gives page 1, one in range is kept, one out of range gives the last page |
| Paging.Paginate | posts/views.py:12-14 | a page holds at most `perPage` consecutive items of the list, starting at `(number-1)*perPage`; every page but the last is full, and the last ends with the list |
| Paging.PageStartIsProduct | posts/views.py:12-14 | page k starts at item `(k-1)*perPage` |
| Paging.ItemOnItsPage | posts/views.py:12-14 | item i of a list is item `i mod perPage` of page `i div perPage + 1`, so every item is reachable |
| Paging.FirstPageFull | posts/views.py:12-14 | without a page number, a list of at least `perPage` items shows a full first page |
| Views.PageOfFeed | posts/views.py:12-14 | any page of a newest-first feed holds only posts of the feed, still newest first |
| Views.PrefixIsNewest | posts/views.py:23 | the first n posts of a newest-first feed are newer than every post left out |
| Views.Index | posts/views.py:10-18 | the index shows the page of the newest-first listing of all posts that the clamped page number selects: at most `perPage` stored posts, newest first, with the page count taken from the number of posts |
| Views.NewestOfGroup | posts/views.py:23 | a group page draws from at most 12 posts, all of that group and newest first; a group post left out means 12 were kept, all newer than it |
| Views.GroupPosts | posts/views.py:21-32 | NotFound exactly when no group has the slug; otherwise the page that the clamped page number selects from that group's 12 newest posts: at most `perPage` of them, in order |
| Views.Profile | posts/views.py:51-74 | NotFound exactly for an unknown username; otherwise the page that the clamped page number selects from the author's posts, newest first. `count_posts` is the author's post count. `following` holds iff a viewer is logged in and has a row for the author. `followers` counts the rows whose user is the author; `following_to` counts the rows whose author is the author |
| Views.PostView | posts/views.py:77-88 | NotFound unless the post id exists and its author has the given username; otherwise the post, exactly its comments, and its author's three counters |
| Views.FollowIndex | posts/views.py:142-154 | a guest is sent to log in, and only a guest; a viewer gets the page that the clamped page number selects from the posts of authors they follow, newest first |
| Views.IndexShowsEveryPost | posts/views.py:10-18 | every stored post is shown on some page of the index |
| Views.IndexFirstPageFull | posts/tests/test_views.py:282-297 | with at least `perPage` posts, the index opened without a page number shows a full page |
| Views.ProfileShowsEveryPost | posts/views.py:51-58 | every post of an existing author is shown on some page of their profile |
| Views.FollowIndexShowsEveryFollowedPost | posts/tests/test_views.py:300-345 | every post by an author the viewer follows is shown on some page of the follow feed |
| Views.FollowingNobodyEmptyPage | posts/tests/test_views.py:346-389 | a viewer who follows nobody gets page 1 of 1, and it is empty, whatever page is asked for |
| Mutations.NewPostHeadsIndexPage | posts/tests/test_views.py:76-91 | after a post is saved with the current clock, it is the first entry of the index page opened without a page number |
| Paging.ItemShown | posts/views.py:12-14 | every item of a list is on some page |
| Mutations.AddPost | posts/views.py:39-43 | a new post adds exactly one row, with the viewer as author and the current time; every other row of every table is unchanged |
| Mutations.AddPostWellformed | posts/views.py:39-42 | a valid new post by an existing user, stamped later than all posts, keeps every foreign key, the slug uniqueness and the distinct timestamps |
| Mutations.NewPostCounts | posts/views.py:39-43 | a new post raises the number of posts by one and its author's post count by one |
| Mutations.EditPost | posts/views.py:105-107 | an edit changes only that post's text, group and (when a file is sent) image; id, author and timestamp stay, and so does every other row |
| Mutations.EditPostWellformed | posts/views.py:105-106 | a valid edit keeps the store well formed |
| Mutations.EditKeepsCounts | posts/views.py:105-106 | an edit keeps the number of posts and every author's post count |
| Mutations.AddComment | posts/views.py:134-138 | a comment adds exactly one row, by the viewer, on the given post; every other row is unchanged |
| Mutations.AddCommentWellformed | posts/views.py:135-138 | a comment on an existing post by an existing user keeps the store well formed |
| Mutations.CommentListedOnPost | posts/views.py:134-138 | after a comment, the post's comments are its old comments plus the new one |
| Mutations.AddFollow | posts/views.py:162-165 | get_or_create: afterwards the row exists; if it existed nothing changes, otherwise exactly one row is added |
| Mutations.AddFollowWellformed | posts/views.py:160-165 | following another existing user keeps the store well formed, including one row per pair and no self-follow |
| Mutations.FollowIdempotent | posts/views.py:162-165 | following twice is the same as following once |
| Mutations.FollowRaisesCounters | posts/views.py:71-72 | a new follow raises the user's `followers` and the author's `following_to` by one each |
| Mutations.RemoveFollow | posts/views.py:172-177 | unfollow deletes exactly the rows for (user, author), so afterwards there is none; every other row and table is unchanged |
| Mutations.RemoveFollowWellformed | posts/views.py:177 | deleting a follow row keeps the store well formed |
| Mutations.UnfollowLowersCounters | posts/views.py:170-178 | unfollowing lowers the user's `followers` and the author's `following_to` by one each |
| Mutations.FollowUnfollowRoundTrip | posts/views.py:157-178 | following someone not yet followed and then unfollowing restores the tables exactly |
| OnDelete.DeleteUser | posts/models.py:25-74 | deleting a user removes exactly their posts, the comments on those posts, their own comments and every follow row naming them on either side; every kept row is unchanged and every foreign key still resolves |
| OnDelete.DeleteUserWellformed | posts/models.py:25-74 | deleting a user keeps the store well formed |
| OnDelete.DeletePost | posts/models.py:50-52 | deleting a post removes exactly the comments on it, and nothing else changes |
| OnDelete.DeletePostWellformed | posts/models.py:50-52 | deleting a post keeps the store well formed |
| OnDelete.DeleteGroup | posts/models.py:28-34 | deleting a group keeps every post; the group's posts lose their group and nothing else about any post changes |
| OnDelete.DeleteGroupWellformed | posts/models.py:28-34 | deleting a group keeps the store well formed |
| Blog.AddPostKeepsInv | posts/views.py:39-42 | saving a post under the next id with the clock keeps the store invariant: well formed, ids below their sequences, timestamps below the clock |
| Blog.EditPostKeepsInv | posts/views.py:105-106 | saving an edit keeps the store invariant |
| Blog.AddCommentKeepsInv | posts/views.py:134-138 | saving a comment under the next id with the clock keeps the store invariant |
| Blog.AddFollowKeepsInv | posts/views.py:160-165 | get_or_create of a follow row keeps the store invariant |
| Blog.RemoveFollowKeepsInv | posts/views.py:177 | deleting a follow row keeps the store invariant |
| Blog.DeleteUserKeepsInv | posts/models.py:25-74 | the user cascade keeps the store invariant |
| Blog.DeletePostKeepsInv | posts/models.py:50-52 | the post cascade keeps the store invariant |
| Blog.DeleteGroupKeepsInv | posts/models.py:28-34 | SET_NULL on a group's posts keeps the store invariant |
| Blog.Store.constructor | posts/models.py:7-74 | a new store has five empty tables and satisfies the invariant |
| Blog.Store.CreateGroup | posts/models.py:9 | a slug already in use is refused and changes nothing; otherwise exactly one group is added under the next id |
| Blog.Store.NewPost | posts/views.py:35-48 | a guest is sent to log in and an invalid form is shown again, both changing nothing; a valid form saves the post as `Mutations.AddPost` states and redirects to the index |
| Blog.Store.PostEdit | posts/views.py:91-114 | a guest is sent to log in; NotFound unless id and username match; anyone but the author is sent to the index; the author's invalid form is shown again; these four change nothing. The author's valid form saves as `Mutations.EditPost` states and redirects to the post |
| Blog.Store.AddComment | posts/views.py:130-139 | a guest is sent to log in; an invalid form redirects to the post and changes nothing; a valid one on a missing post is NotFound and changes nothing; otherwise one comment is saved as `Mutations.AddComment` states and the browser goes to the post |
| Blog.Store.ProfileFollow | posts/views.py:157-166 | a guest is sent to log in; following yourself only redirects; an unknown username is NotFound; otherwise the tables become `Mutations.AddFollow` of the old ones and the row exists |
| Blog.Store.ProfileUnfollow | posts/views.py:169-178 | a guest is sent to log in; NotFound, with nothing changed, for an unknown username or a missing row; otherwise the tables become `Mutations.RemoveFollow` of the old ones |
| Blog.Store.DeleteUser | posts/models.py:25-74 | the tables become `OnDelete.DeleteUser` of the old ones, and the invariant is kept |
| Blog.Store.DeletePost | posts/models.py:50-52 | the tables become `OnDelete.DeletePost` of the old ones, and the invariant is kept |
| Blog.Store.DeleteGroup | posts/models.py:28-34 | the tables become `OnDelete.DeleteGroup` of the old ones, and the invariant is kept |

## Left out

- Models.GroupStr: `Group.__str__` returns the title (`posts/models.py:12-13`). It is a one-field definition with nothing to prove, so it carries no contract.
- Template rendering: a handler yields the data its template receives (`View`), not HTML.
- `login_required`: it is modelled only as the viewer `Option`, where a guest is redirected to log in. The login page and the `next` parameter are not modelled.
- The 404 and 500 handlers (`posts/views.py:117-127`): they only render templates.
- `about/views.py`: it is template configuration only.
- Form validation: `posts/forms.py` is not part of this model.
  - A post form counts as valid when it was submitted, its text is not empty and the group it names exists.
  - A comment form counts as valid when it was submitted with a non-empty text.
  - Whitespace stripping and field-length limits are not modelled.
- Uploaded images: an image is an opaque optional reference. File storage and image validation are left out.
- Wall-clock time: `pub_date` and `created` come from a logical clock that every new post or comment advances. This is what makes post timestamps distinct, and so the newest-first order total.
- The whole-page cache in front of the index: it is framework-provided, configured outside these files, and time-based.
- Migrations: they are generated from the models.
- Paginator internals beyond the clamp-and-slice behaviour: the `orphans` option, `Page` helper methods, and a `PAGINATE_BY` setting (the page size is a parameter).
- Users are a set of usernames.
  - `Blog.Store.AddUser` stands in for the authentication app that creates them.
  - Groups are created by `Blog.Store.CreateGroup`, which stands in for the admin site.
  - Neither is a handler of `posts/views.py`.
- A second follow row for the same pair cannot arise: rows are created only through `get_or_create`. So the server error that `get_object_or_404` would raise on duplicates in `profile_unfollow` is not modelled.
- Concurrency: each handler runs atomically against the store; interleaved requests are not modelled.
