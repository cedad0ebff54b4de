/** The blog posts: the public and admin listings, creation with its request
    checks, editing with tag reconciliation, likes, and the publication
    status transitions. */
module Posts {
  import opened Wrappers
  import opened Text
  import opened Paging
  import opened Store
  import opened Auth

  // ---------------------------------------------------------------------------
  // Reading posts
  // ---------------------------------------------------------------------------

  /** A post with the categories its relation still reaches: a relation row
      to a deleted category is not returned by the ORM. */
  function WithLiveCategories(t: Tables, p: Post): (r: Post)
    ensures r.categories == p.categories * t.categories.Keys
    ensures r.(categories := p.categories) == p
  {
    p.(categories := p.categories * t.categories.Keys)
  }

  /** A post with both relations as `include: { categories: true, tags: true }`
      returns them: only the category and tag rows that still exist. */
  function WithLiveRelations(t: Tables, p: Post): (r: Post)
    ensures r.categories == p.categories * t.categories.Keys
    ensures r.tags == p.tags * t.tags.Keys
    ensures r.(categories := p.categories, tags := p.tags) == p
  {
    p.(categories := p.categories * t.categories.Keys, tags := p.tags * t.tags.Keys)
  }

  datatype Listed = Listed(id: Id, post: Post, likeCount: nat)

  datatype PostPage = PostPage(posts: seq<Listed>, totalPosts: nat)

  /** The posts in listing order whose title contains the search text; an
      empty search is no filter. All statuses are listed. */
  function MatchingPosts(posts: map<Id, Post>, order: seq<Id>, searchQuery: string): (r: seq<Id>)
    requires Enumerates(order, posts.Keys)
    ensures forall i | 0 <= i < |r| :: r[i] in posts && (searchQuery != [] ==> Contains(posts[r[i]].title, searchQuery))
    ensures forall id | id in posts && (searchQuery == [] || Contains(posts[id].title, searchQuery)) :: id in r
    ensures Distinct(r)
    ensures Subsequence(r, order)
  {
    if searchQuery == [] then SubsequenceOfItself(order); order
    else
      var r := Filter(order, (id: Id) => id in posts && Contains(posts[id].title, searchQuery));
      FilterDistinct(order, (id: Id) => id in posts && Contains(posts[id].title, searchQuery));
      r
  }

  /** `getAllPosts`: nine posts per page after the first `page * 9`, each with
      its like count; the total counts every post, whatever the search. A
      negative page makes a negative `skip`, which the ORM refuses. */
  function GetAllPosts(t: Tables, order: seq<Id>, page: int, searchQuery: string): (r: Reply<PostPage>)
    requires Enumerates(order, t.posts.Keys)
    ensures r.Err? <==> page < 0
    ensures r.Err? ==> r == Err(500, "Failed to fetch posts")
    ensures r.Ok? ==>
      var shown := Window(MatchingPosts(t.posts, order, searchQuery), page * 9, 9);
      && r.code == 200
      && r.body.totalPosts == |t.posts|
      && |r.body.posts| == |shown| <= 9
      && (forall i | 0 <= i < |shown| ::
            r.body.posts[i] == Listed(shown[i], t.posts[shown[i]], LikeCount(t.likes, shown[i])))
  {
    if page < 0 then Err(500, "Failed to fetch posts")
    else
      var ids := Window(MatchingPosts(t.posts, order, searchQuery), page * 9, 9);
      var rows := seq(|ids|, i requires 0 <= i < |ids| => Listed(ids[i], t.posts[ids[i]], LikeCount(t.likes, ids[i])));
      Ok(200, PostPage(rows, |t.posts|))
  }

  /** Every matching post is listed once: the `j`-th on page `j / 9`, at
      position `j % 9`. */
  lemma {:induction false} PostOnItsPage(t: Tables, order: seq<Id>, searchQuery: string, j: nat)
    requires Enumerates(order, t.posts.Keys)
    requires j < |MatchingPosts(t.posts, order, searchQuery)|
    ensures var r := GetAllPosts(t, order, j / 9, searchQuery);
      r.Ok? && j % 9 < |r.body.posts| && r.body.posts[j % 9].id == MatchingPosts(t.posts, order, searchQuery)[j]
  {
    WindowPosition(MatchingPosts(t.posts, order, searchQuery), 9, j);
  }

  /** `getPostById`: the post with the ids of its live categories and its
      live tags, or 404. */
  function GetPostById(t: Tables, id: Id): (r: Reply<Post>)
    ensures r.Ok? <==> id in t.posts
    ensures r.Err? ==> r == Err(404, "Post not found")
    ensures r.Ok? ==>
      && r.code == 200
      && r.body.categories == t.posts[id].categories * t.categories.Keys
      && r.body.tags == t.posts[id].tags * t.tags.Keys
      && r.body.(categories := t.posts[id].categories, tags := t.posts[id].tags) == t.posts[id]
  {
    if id !in t.posts then Err(404, "Post not found")
    else Ok(200, WithLiveRelations(t, t.posts[id]))
  }

  /** The post is filed under a (live) category with this slug. */
  predicate InCategory(t: Tables, p: Post, slug: string)
  {
    exists c | c in p.categories && c in t.categories :: t.categories[c].slug == slug
  }

  /** `parseInt(page, 10) || 1`: NaN and 0 both fall back to the first page. */
  function CurrentPage(pageParam: string): (r: int)
    ensures r != 0
    ensures ParseInt(pageParam).None? ==> r == 1
    ensures ParseInt(pageParam) == Some(0) ==> r == 1
    ensures ParseInt(pageParam).Some? && ParseInt(pageParam).value != 0 ==> r == ParseInt(pageParam).value
  {
    match ParseInt(pageParam)
    case None => 1
    case Some(n) => if n == 0 then 1 else n
  }

  /** A page number written in decimal is the page shown. */
  lemma {:induction false} CurrentPageOfNumber(n: nat)
    requires n >= 1
    ensures CurrentPage(DecimalString(n)) == n
  {
    ParseIntOfDecimal(n, []);
    assert DecimalString(n) + [] == DecimalString(n);
  }

  datatype CategoryPage = CategoryPage(posts: seq<Id>, currentPage: int, totalPages: nat, totalPosts: nat)

  /** The posts of a category, in listing order; any status. */
  function CategoryPosts(t: Tables, order: seq<Id>, slug: string): (r: seq<Id>)
    requires Enumerates(order, t.posts.Keys)
    ensures forall i | 0 <= i < |r| :: r[i] in t.posts && InCategory(t, t.posts[r[i]], slug)
    ensures forall id | id in t.posts && InCategory(t, t.posts[id], slug) :: id in r
    ensures Distinct(r)
    ensures Subsequence(r, order)
  {
    var r := Filter(order, (id: Id) => id in t.posts && InCategory(t, t.posts[id], slug));
    FilterDistinct(order, (id: Id) => id in t.posts && InCategory(t, t.posts[id], slug));
    r
  }

  /** `getPostByCategory`: ten posts per page after the first
      `(currentPage - 1) * 10`; 404 without a slug or when the page is empty,
      500 when the page number is negative (a negative `skip`). */
  function GetPostByCategory(t: Tables, order: seq<Id>, slug: string, pageParam: string): (r: Reply<CategoryPage>)
    requires Enumerates(order, t.posts.Keys)
    ensures slug == [] ==> r == Err(404, "Category slug is not provided")
    ensures slug != [] && CurrentPage(pageParam) < 0 ==> r == Err(500, "Failed to fetch posts by category")
    ensures (slug != [] && CurrentPage(pageParam) >= 1
             && Window(CategoryPosts(t, order, slug), (CurrentPage(pageParam) - 1) * 10, 10) == []) ==>
      r == Err(404, "No posts found for this category")
    ensures r.Ok? <==>
      && slug != [] && CurrentPage(pageParam) >= 1
      && Window(CategoryPosts(t, order, slug), (CurrentPage(pageParam) - 1) * 10, 10) != []
    ensures r.Ok? ==>
      var all := CategoryPosts(t, order, slug);
      var page := r.body.currentPage;
      && r.code == 200
      && page == CurrentPage(pageParam) && page >= 1
      && r.body.posts == Window(all, (page - 1) * 10, 10)
      && 1 <= |r.body.posts| <= 10
      && (forall i | 0 <= i < |r.body.posts| :: (page - 1) * 10 + i < |all| && r.body.posts[i] == all[(page - 1) * 10 + i])
      && r.body.totalPosts == |all|
      && r.body.totalPages * 10 >= |all| && r.body.totalPages * 10 < |all| + 10
  {
    if slug == [] then Err(404, "Category slug is not provided")
    else
      var currentPage := CurrentPage(pageParam);
      var skip := (currentPage - 1) * 10;
      if skip < 0 then Err(500, "Failed to fetch posts by category")
      else
        var all := CategoryPosts(t, order, slug);
        var posts := Window(all, skip, 10);
        if posts == [] then Err(404, "No posts found for this category")
        else Ok(200, CategoryPage(posts, currentPage, PageCount(|all|), |all|))
  }

  /** A page that is shown lies within the page count it reports; past the
      last page the handler answers 404. */
  lemma {:induction false} CategoryPageBounds(t: Tables, order: seq<Id>, slug: string, pageParam: string)
    requires Enumerates(order, t.posts.Keys)
    ensures var r := GetPostByCategory(t, order, slug, pageParam);
      r.Ok? ==> r.body.currentPage <= r.body.totalPages
    ensures var r := GetPostByCategory(t, order, slug, pageParam);
      slug != [] && CurrentPage(pageParam) >= 1
        && (CurrentPage(pageParam) - 1) * 10 >= |CategoryPosts(t, order, slug)| ==>
      r == Err(404, "No posts found for this category")
  {
    var r := GetPostByCategory(t, order, slug, pageParam);
    if r.Ok? {
      var page := r.body.currentPage;
      var total := |CategoryPosts(t, order, slug)|;
      assert (page - 1) * 10 < total;
      assert r.body.totalPages * 10 >= total;
    }
  }

  datatype SlugView = SlugView(id: Id, post: Post, likeCount: nat)

  predicate PublishedWithSlug(posts: map<Id, Post>, id: Id, slug: string)
  {
    id in posts && posts[id].slug == slug && posts[id].status == Active
  }

  /** `getPostBySlug`: the unique post with that slug, with its like count,
      and only if it is published; 404 otherwise. */
  function GetPostBySlug(t: Tables, slug: string): (r: Reply<SlugView>)
    requires UniquePostSlugs(t.posts)
    ensures r.Ok? <==> exists id :: PublishedWithSlug(t.posts, id, slug)
    ensures r.Err? ==> r == Err(404, "Post not found")
    ensures r.Ok? ==>
      && r.code == 200
      && PublishedWithSlug(t.posts, r.body.id, slug)
      && r.body.post == WithLiveCategories(t, t.posts[r.body.id])
      && r.body.likeCount == LikeCount(t.likes, r.body.id)
  {
    if exists id | id in t.posts :: t.posts[id].slug == slug then
      var id :| id in t.posts && t.posts[id].slug == slug;
      assert forall other | PublishedWithSlug(t.posts, other, slug) :: other == id;
      if t.posts[id].status != Active then Err(404, "Post not found")
      else
        assert PublishedWithSlug(t.posts, id, slug);
        Ok(200, SlugView(id, WithLiveCategories(t, t.posts[id]), LikeCount(t.likes, id)))
    else Err(404, "Post not found")
  }

  /** The search condition: published, and (title contains the query, or a
      live category's slug does). Without a query both branches of the `OR`
      lose their condition, so every published post matches. */
  predicate SearchMatches(t: Tables, p: Post, query: Option<string>)
  {
    && p.status == Active
    && (|| query.None?
        || Contains(p.title, query.value)
        || exists c | c in p.categories && c in t.categories :: Contains(t.categories[c].slug, query.value))
  }

  /** `getPostBySearchQuery`: the matching posts in listing order, 404 when
      there are none. */
  function SearchPosts(t: Tables, order: seq<Id>, query: Option<string>): (r: Reply<seq<Id>>)
    requires Enumerates(order, t.posts.Keys)
    ensures r.Err? <==> forall id | id in t.posts :: !SearchMatches(t, t.posts[id], query)
    ensures r.Err? ==> r == Err(404, "No posts found")
    ensures r.Ok? ==>
      && r.code == 200
      && (forall i | 0 <= i < |r.body| :: r.body[i] in t.posts && SearchMatches(t, t.posts[r.body[i]], query))
      && (forall id | id in t.posts && SearchMatches(t, t.posts[id], query) :: id in r.body)
      && Distinct(r.body)
      && Subsequence(r.body, order)
  {
    var found := Filter(order, (id: Id) => id in t.posts && SearchMatches(t, t.posts[id], query));
    FilterDistinct(order, (id: Id) => id in t.posts && SearchMatches(t, t.posts[id], query));
    if found == [] then Err(404, "No posts found")
    else
      assert found[0] in t.posts && SearchMatches(t, t.posts[found[0]], query);
      Ok(200, found)
  }

  /** The search only ever returns published posts, and a draft is never
      found, whatever the query. */
  lemma {:induction false} SearchNeverShowsDrafts(t: Tables, order: seq<Id>, query: Option<string>, id: Id)
    requires Enumerates(order, t.posts.Keys)
    requires id in t.posts && t.posts[id].status != Active
    ensures var r := SearchPosts(t, order, query); r.Ok? ==> id !in r.body
  {
  }

  /** `tagsData.map(item => item.tags).flat()`: the tag lists of the posts,
      one after another. */
  function Flatten<T>(rows: seq<seq<T>>): (r: seq<T>)
    ensures |rows| == 0 ==> r == []
  {
    if rows == [] then [] else rows[0] + Flatten(rows[1..])
  }

  lemma {:induction false} FlattenAppend<T>(a: seq<seq<T>>, b: seq<seq<T>>)
    ensures Flatten(a + b) == Flatten(a) + Flatten(b)
  {
    if a != [] {
      assert (a + b)[1..] == a[1..] + b;
      FlattenAppend(a[1..], b);
    } else {
      assert a + b == b;
    }
  }

  /** An element is in the flattened lists exactly when it is in one of
      them. */
  lemma {:induction false} FlattenMembers<T>(rows: seq<seq<T>>, x: T)
    ensures x in Flatten(rows) <==> exists i | 0 <= i < |rows| :: x in rows[i]
  {
    if rows != [] {
      FlattenMembers(rows[1..], x);
      if x in Flatten(rows[1..]) {
        var i :| 0 <= i < |rows[1..]| && x in rows[1..][i];
        assert x in rows[i + 1];
      }
      if exists i | 0 <= i < |rows| :: x in rows[i] {
        var i :| 0 <= i < |rows| && x in rows[i];
        if i > 0 { assert x in rows[1..][i - 1]; }
      }
    }
  }

  /** The tag rows a post's relation reaches, in the order the ORM lists the
      tag table; a relation row to a deleted tag is not returned. */
  function PostTags(t: Tables, tagOrder: seq<Id>, p: Post): seq<Tag>
    requires Enumerates(tagOrder, t.tags.Keys)
  {
    var ids := Filter(tagOrder, (id: Id) => id in p.tags && id in t.tags);
    seq(|ids|, i requires 0 <= i < |ids| => t.tags[ids[i]])
  }

  /** A post lists a tag row exactly when its relation holds an existing tag
      id with that row. */
  lemma {:induction false} PostTagsMembers(t: Tables, tagOrder: seq<Id>, p: Post, x: Tag)
    requires Enumerates(tagOrder, t.tags.Keys)
    ensures x in PostTags(t, tagOrder, p) <==> exists id | id in p.tags && id in t.tags :: t.tags[id] == x
  {
    var ids := Filter(tagOrder, (id: Id) => id in p.tags && id in t.tags);
    var r := PostTags(t, tagOrder, p);
    if x in r {
      var i :| 0 <= i < |r| && r[i] == x;
      assert ids[i] in p.tags && ids[i] in t.tags && t.tags[ids[i]] == x;
    }
    if exists id | id in p.tags && id in t.tags :: t.tags[id] == x {
      var id :| id in p.tags && id in t.tags && t.tags[id] == x;
      assert id in tagOrder;
      assert id in ids;
      var j :| 0 <= j < |ids| && ids[j] == id;
      assert r[j] == x;
    }
  }

  /** `getAllTags`: the tag lists of the posts, in listing order, one after
      another. */
  function AllTags(t: Tables, order: seq<Id>, tagOrder: seq<Id>): seq<Tag>
    requires Enumerates(order, t.posts.Keys) && Enumerates(tagOrder, t.tags.Keys)
  {
    Flatten(seq(|order|, i requires 0 <= i < |order| => PostTags(t, tagOrder, t.posts[order[i]])))
  }

  /** `getAllTags` returns a tag row exactly when some post is connected to
      it. */
  lemma {:induction false} AllTagsMembers(t: Tables, order: seq<Id>, tagOrder: seq<Id>, x: Tag)
    requires Enumerates(order, t.posts.Keys) && Enumerates(tagOrder, t.tags.Keys)
    ensures x in AllTags(t, order, tagOrder) <==>
      exists pid, id | pid in t.posts && id in t.posts[pid].tags && id in t.tags :: t.tags[id] == x
  {
    var rows := seq(|order|, i requires 0 <= i < |order| => PostTags(t, tagOrder, t.posts[order[i]]));
    FlattenMembers(rows, x);
    if x in AllTags(t, order, tagOrder) {
      var i :| 0 <= i < |rows| && x in rows[i];
      PostTagsMembers(t, tagOrder, t.posts[order[i]], x);
      var id :| id in t.posts[order[i]].tags && id in t.tags && t.tags[id] == x;
      assert order[i] in t.posts;
    }
    if exists pid, id | pid in t.posts && id in t.posts[pid].tags && id in t.tags :: t.tags[id] == x {
      var pid, id :| pid in t.posts && id in t.posts[pid].tags && id in t.tags && t.tags[id] == x;
      var i :| 0 <= i < |order| && order[i] == pid;
      PostTagsMembers(t, tagOrder, t.posts[pid], x);
      assert x in rows[i];
    }
  }

  // ---------------------------------------------------------------------------
  // Creating a post
  // ---------------------------------------------------------------------------

  /** The body of a create request. A missing `userId`, `thumbnailImage` or
      `content` behaves like the empty string (both are blank); a missing
      title, tag list or category list is `None`. */
  datatype NewPost = NewPost(
    title: Option<string>,
    userId: string,
    thumbnailImage: string,
    content: string,
    tags: Option<seq<Tag>>,
    categories: Option<seq<Id>>)

  /** `!s?.trim()`. */
  predicate Blank(s: string)
  {
    Trim(s) == []
  }

  /** What `createPost` decides before it writes anything, in the handler's
      order: `slugify` throws on a missing title; the slug must be free; then
      title, user, thumbnail and content must be non-blank and a category
      given; a missing tag list makes `tags.map` throw. */
  function CreateCheck(posts: map<Id, Post>, input: NewPost, slugify: string -> string): (r: Check)
    ensures r == Pass ==>
      && input.title.Some? && !PostSlugTaken(posts, slugify(input.title.value))
      && input.categories.Some? && input.categories.value != [] && input.tags.Some?
  {
    if input.title.None? then Reject(500, "Failed to create post")
    else if PostSlugTaken(posts, slugify(input.title.value)) then Reject(400, "Title already exists!")
    else if Blank(input.title.value) then Reject(400, "Title is required and cannot be empty")
    else if Blank(input.userId) then
      Reject(400, "User ID is required. Please log in again to ensure your session is active")
    else if Blank(input.thumbnailImage) then Reject(400, "Thumbnail image is required.")
    else if Blank(input.content) then Reject(400, "Blog content cannot be empty")
    else if input.categories.None? || input.categories.value == [] then
      Reject(400, "At least one category is required for the post.")
    else if input.tags.None? then Reject(500, "Failed to create post")
    else Pass
  }

  /** A request passes exactly when it has a title whose slug is free, a
      title, user, thumbnail and content that are not all white space, at
      least one category, and a tag list. */
  lemma {:induction false} CreateCheckPassIff(posts: map<Id, Post>, input: NewPost, slugify: string -> string)
    ensures CreateCheck(posts, input, slugify) == Pass <==>
      && input.title.Some?
      && !PostSlugTaken(posts, slugify(input.title.value))
      && !AllSpace(input.title.value)
      && !AllSpace(input.userId)
      && !AllSpace(input.thumbnailImage)
      && !AllSpace(input.content)
      && input.categories.Some? && |input.categories.value| > 0
      && input.tags.Some?
  {
    if input.title.Some? {
      TrimEmptyIffAllSpace(input.title.value);
    }
    TrimEmptyIffAllSpace(input.userId);
    TrimEmptyIffAllSpace(input.thumbnailImage);
    TrimEmptyIffAllSpace(input.content);
  }

  /** A taken slug is reported before any field is checked: the same 400
      whatever else the request holds. */
  /** After the slug check, the fields are checked in the handler's order,
      title, user, thumbnail, content, categories, each refusal with its own
      400 message; a missing title or tag list makes the handler throw. */
  lemma {:induction false} CreateCheckOrder(posts: map<Id, Post>, input: NewPost, slugify: string -> string)
    ensures input.title.None? ==> CreateCheck(posts, input, slugify) == Reject(500, "Failed to create post")
    ensures (input.title.Some? && !PostSlugTaken(posts, slugify(input.title.value))
             && Blank(input.title.value)) ==>
      CreateCheck(posts, input, slugify) == Reject(400, "Title is required and cannot be empty")
    ensures (input.title.Some? && !PostSlugTaken(posts, slugify(input.title.value))
             && !Blank(input.title.value) && Blank(input.userId)) ==>
      CreateCheck(posts, input, slugify)
      == Reject(400, "User ID is required. Please log in again to ensure your session is active")
    ensures (input.title.Some? && !PostSlugTaken(posts, slugify(input.title.value))
             && !Blank(input.title.value) && !Blank(input.userId) && Blank(input.thumbnailImage)) ==>
      CreateCheck(posts, input, slugify) == Reject(400, "Thumbnail image is required.")
    ensures (input.title.Some? && !PostSlugTaken(posts, slugify(input.title.value))
             && !Blank(input.title.value) && !Blank(input.userId) && !Blank(input.thumbnailImage)
             && Blank(input.content)) ==>
      CreateCheck(posts, input, slugify) == Reject(400, "Blog content cannot be empty")
    ensures (input.title.Some? && !PostSlugTaken(posts, slugify(input.title.value))
             && !Blank(input.title.value) && !Blank(input.userId) && !Blank(input.thumbnailImage)
             && !Blank(input.content) && (input.categories.None? || input.categories.value == [])) ==>
      CreateCheck(posts, input, slugify) == Reject(400, "At least one category is required for the post.")
    ensures (input.title.Some? && !PostSlugTaken(posts, slugify(input.title.value))
             && !Blank(input.title.value) && !Blank(input.userId) && !Blank(input.thumbnailImage)
             && !Blank(input.content) && input.categories.Some? && input.categories.value != []
             && input.tags.None?) ==>
      CreateCheck(posts, input, slugify) == Reject(500, "Failed to create post")
  {
    var c := CreateCheck(posts, input, slugify);
    if input.title.None? {
    } else if PostSlugTaken(posts, slugify(input.title.value)) {
    } else if Blank(input.title.value) {
      assert c == Reject(400, "Title is required and cannot be empty");
    } else if Blank(input.userId) {
      assert c == Reject(400, "User ID is required. Please log in again to ensure your session is active");
    } else if Blank(input.thumbnailImage) {
      assert c == Reject(400, "Thumbnail image is required.");
    } else if Blank(input.content) {
      assert c == Reject(400, "Blog content cannot be empty");
    } else if input.categories.None? || input.categories.value == [] {
      assert c == Reject(400, "At least one category is required for the post.");
    }
  }

  lemma {:induction false} SlugCheckComesFirst(posts: map<Id, Post>, input: NewPost, slugify: string -> string)
    requires input.title.Some? && PostSlugTaken(posts, slugify(input.title.value))
    ensures CreateCheck(posts, input, slugify) == Reject(400, "Title already exists!")
  {
  }

  /** The row `createPost` stores: a draft (`PENDING`) whose Open Graph image
      is the CDN location of its thumbnail, with exactly the given categories
      and the given tag rows. */
  function NewPostRow(title: string, userId: string, slug: string, thumbnailImage: string, content: string,
                      categories: seq<Id>, tagIds: set<Id>): Post
  {
    Post(title, userId, slug, Pending, thumbnailImage, Some(OgImageOf(thumbnailImage)), content,
         (set c | c in categories), tagIds)
  }

  /** Every id in the list names an existing category. */
  predicate CategoriesExist(categories: map<Id, Category>, ids: seq<Id>)
  {
    forall i | 0 <= i < |ids| :: ids[i] in categories
  }

  /** `Promise.all(tags.map(tag => prisma.tags.create(...)))`, one insert
      after the other: one fresh row per input, in input order. */
  method InsertTags(db: Db, rows: seq<Tag>) returns (ids: seq<Id>)
    requires db.Valid()
    modifies db`tags, db`nextId
    ensures db.Valid()
    ensures db.nextId == old(db.nextId) + |rows|
    ensures db.tags == old(db.tags) + FreshRows(old(db.nextId), rows)
    ensures |ids| == |rows| && forall i | 0 <= i < |ids| :: ids[i] == old(db.nextId) + i
  {
    ghost var table, start := db.tags, db.nextId;
    ids := [];
    var i := 0;
    while i < |rows|
      invariant 0 <= i <= |rows|
      invariant db.Valid()
      invariant db.nextId == start + i
      invariant db.tags == table + FreshRows(start, rows[..i])
      invariant |ids| == i && forall k | 0 <= k < i :: ids[k] == start + k
    {
      FreshRowsStep(table, start, rows, i);
      var id := db.AddTag(rows[i]);
      ids := ids + [id];
      i := i + 1;
    }
    assert rows[..|rows|] == rows;
  }

  /** Consecutive ids from `start` on, as a set. */
  lemma {:induction false} ConsecutiveIds(ids: seq<Id>, start: nat)
    requires forall i | 0 <= i < |ids| :: ids[i] == start + i
    ensures (set id | id in ids) == IdRange(start, |ids|)
  {
    IdRangeMembers(start, |ids|);
    forall id | id in IdRange(start, |ids|) ensures id in ids {
      assert ids[id - start] == id;
    }
  }

  /** What a post handler leaves behind: its reply, and the post table, the
      tag table and the id counter, the only state it writes. */
  datatype Outcome<R> = Outcome(reply: Reply<R>, posts: map<Id, Post>, tags: map<Id, Tag>, nextId: nat)

  /** The effect of `createPost` on the tables `t`. The checks write nothing;
      past them the tags are created first, and a category id that does not
      exist makes connecting it fail after the tags exist. */
  function CreatePostOutcome(t: Tables, input: NewPost, slugify: string -> string): Outcome<Id>
  {
    match CreateCheck(t.posts, input, slugify)
    case Reject(code, message) => Outcome(Err(code, message), t.posts, t.tags, t.nextId)
    case Pass =>
      DraftOutcome(t, input.title.value, input.userId, slugify(input.title.value), input.thumbnailImage,
                   input.content, input.categories.value, input.tags.value)
  }

  /** The writes of `createPost` once its checks have passed: one tag row per
      input tag, then the draft under the next id, connected to those tags. */
  function DraftOutcome(t: Tables, title: string, userId: string, slug: string, thumbnailImage: string,
                        content: string, categories: seq<Id>, tags: seq<Tag>): Outcome<Id>
  {
    var tagTable := t.tags + FreshRows(t.nextId, tags);
    var postId := t.nextId + |tags|;
    if !CategoriesExist(t.categories, categories) then
      Outcome(Err(500, "Failed to create post"), t.posts, tagTable, postId)
    else
      var row := NewPostRow(title, userId, slug, thumbnailImage, content, categories, IdRange(t.nextId, |tags|));
      Outcome(Ok(201, postId), t.posts[postId := row], tagTable, postId + 1)
  }

  /** A rejected request writes nothing and answers with the check's status
      and message; one that passes has the writes of `DraftOutcome`. */
  lemma {:induction false} CreateOutcomeCases(t: Tables, input: NewPost, slugify: string -> string)
    ensures var o := CreatePostOutcome(t, input, slugify);
      var c := CreateCheck(t.posts, input, slugify);
      && (c.Reject? ==> o == Outcome(Err(c.code, c.message), t.posts, t.tags, t.nextId))
      && (c == Pass ==>
            o == DraftOutcome(t, input.title.value, input.userId, slugify(input.title.value), input.thumbnailImage,
                              input.content, input.categories.value, input.tags.value))
  {
  }

  /** Past the checks one tag row is created per input tag, in input order,
      under fresh ids, and the existing tags are left alone. */
  lemma {:induction false} DraftAddsInputTags(t: Tables, title: string, userId: string, slug: string, thumbnailImage: string,
                           content: string, categories: seq<Id>, tags: seq<Tag>)
    requires KeysBelow(t.tags, t.nextId)
    ensures var o := DraftOutcome(t, title, userId, slug, thumbnailImage, content, categories, tags);
      && o.tags.Keys == t.tags.Keys + IdRange(t.nextId, |tags|)
      && t.tags.Keys !! IdRange(t.nextId, |tags|)
      && (forall id | id in t.tags :: o.tags[id] == t.tags[id])
      && (forall id | t.nextId <= id < t.nextId + |tags| :: id in o.tags && o.tags[id] == tags[id - t.nextId])
  {
    MergeFresh(t.tags, t.nextId, tags);
  }

  /** An unknown category fails the request after the tags exist; the post
      table is unchanged. With every category present the draft is stored
      under the next id, a key no post had, and no other post changes. */
  lemma {:induction false} DraftAddsOnePost(t: Tables, title: string, userId: string, slug: string, thumbnailImage: string,
                         content: string, categories: seq<Id>, tags: seq<Tag>)
    requires KeysBelow(t.posts, t.nextId)
    ensures var o := DraftOutcome(t, title, userId, slug, thumbnailImage, content, categories, tags);
      var id := t.nextId + |tags|;
      && (!CategoriesExist(t.categories, categories) ==>
            o.reply == Err(500, "Failed to create post") && o.posts == t.posts && o.nextId == id)
      && (CategoriesExist(t.categories, categories) ==>
            && o.reply == Ok(201, id) && o.nextId == id + 1
            && id !in t.posts
            && o.posts.Keys == t.posts.Keys + {id}
            && (forall other | other in t.posts :: o.posts[other] == t.posts[other]))
  {
    assert t.nextId + |tags| !in t.posts;
  }

  /** The stored draft is `PENDING`, carries the CDN image of its thumbnail,
      the given title, slug, user, thumbnail and content, exactly the given
      categories, and as its tags exactly the rows just created for the input
      tags, one per input. */
  lemma {:induction false} DraftRow(t: Tables, title: string, userId: string, slug: string, thumbnailImage: string,
                 content: string, categories: seq<Id>, tags: seq<Tag>)
    requires KeysBelow(t.tags, t.nextId)
    requires CategoriesExist(t.categories, categories)
    ensures var o := DraftOutcome(t, title, userId, slug, thumbnailImage, content, categories, tags);
      var row := o.posts[t.nextId + |tags|];
      && row.status == Pending
      && row.ogImage == Some(CdnPrefix + thumbnailImage)
      && row.title == title && row.slug == slug
      && row.userId == userId && row.thumbnailImage == thumbnailImage && row.content == content
      && (forall c :: c in row.categories <==> c in categories)
      && row.tags == IdRange(t.nextId, |tags|)
      && |row.tags| == |tags|
      && (forall tag | tag in row.tags :: tag in o.tags && o.tags[tag] in tags)
  {
    var o := DraftOutcome(t, title, userId, slug, thumbnailImage, content, categories, tags);
    var ids := IdRange(t.nextId, |tags|);
    assert o.posts[t.nextId + |tags|] == NewPostRow(title, userId, slug, thumbnailImage, content, categories, ids);
    IdRangeSize(t.nextId, |tags|);
    FreshRowsShape(t.nextId, tags);
    forall tag | tag in ids ensures tag in o.tags && o.tags[tag] in tags {
      assert o.tags[tag] == FreshRows(t.nextId, tags)[tag];
    }
  }

  /** `createPost`, against the tables it reads and writes. */
  method CreatePost(db: Db, input: NewPost, slugify: string -> string) returns (reply: Reply<Id>)
    requires db.Valid()
    modifies db`posts, db`tags, db`nextId
    ensures db.Valid()
    ensures Outcome(reply, db.posts, db.tags, db.nextId) == CreatePostOutcome(old(db.Snapshot()), input, slugify)
  {
    var check := CreateCheck(db.posts, input, slugify);
    if check.Reject? {
      return Err(check.code, check.message);
    }
    reply := StoreDraft(db, input.title.value, input.userId, slugify(input.title.value), input.thumbnailImage,
                        input.content, input.categories.value, input.tags.value);
  }

  /** The writes of `createPost`. The post connects the ids of the created
      tags, which are the consecutive ids from the counter on. */
  method StoreDraft(db: Db, title: string, userId: string, slug: string, thumbnailImage: string, content: string,
                    categories: seq<Id>, tags: seq<Tag>) returns (reply: Reply<Id>)
    requires db.Valid() && !PostSlugTaken(db.posts, slug)
    modifies db`posts, db`tags, db`nextId
    ensures db.Valid()
    ensures Outcome(reply, db.posts, db.tags, db.nextId)
         == DraftOutcome(old(db.Snapshot()), title, userId, slug, thumbnailImage, content, categories, tags)
  {
    var start := db.nextId;
    var createdTags := InsertTags(db, tags);
    if !CategoriesExist(db.categories, categories) {
      return Err(500, "Failed to create post");
    }
    var row := NewPostRow(title, userId, slug, thumbnailImage, content, categories, IdRange(start, |createdTags|));
    var id := db.AddPost(row);
    reply := Ok(201, id);
  }

  // ---------------------------------------------------------------------------
  // Editing a post
  // ---------------------------------------------------------------------------

  /** `prisma.tags.findMany({ where: { OR: inputs } })`: the table's tags that
      equal some input pair (an empty `OR` matches nothing). */
  function ExistingTagIds(tags: map<Id, Tag>, inputs: seq<Tag>): (r: set<Id>)
    ensures forall id :: id in r <==> id in tags && tags[id] in inputs
  {
    set id | id in tags && tags[id] in inputs
  }

  /** The inputs that match none of the tags just found, in input order and
      with their repetitions: an unmatched pair sent twice is created twice. */
  function NewTags(tags: map<Id, Tag>, inputs: seq<Tag>): (r: seq<Tag>)
    ensures forall i | 0 <= i < |r| :: r[i] in inputs && r[i] !in tags.Values
    ensures forall i | 0 <= i < |inputs| && inputs[i] !in tags.Values :: inputs[i] in r
    ensures Subsequence(r, inputs)
    ensures forall x | x in inputs && x !in tags.Values :: multiset(r)[x] == multiset(inputs)[x]
  {
    var existing := ExistingTagIds(tags, inputs);
    Filter(inputs, (t: Tag) => !exists id | id in existing :: tags[id] == t)
  }

  /** After the edit the post carries exactly the input tags: every input is
      the value of one of its tag ids, every one of its tag ids holds an
      input, and a row is created only for an input that matched nothing. */
  lemma {:induction false} ReconciledTags(tags: map<Id, Tag>, start: nat, inputs: seq<Tag>,
                       created: seq<Tag>, table: map<Id, Tag>, final: set<Id>)
    requires KeysBelow(tags, start)
    requires created == NewTags(tags, inputs)
    requires table == tags + FreshRows(start, created)
    requires final == ExistingTagIds(tags, inputs) + IdRange(start, |created|)
    ensures forall id | id in final :: id in table && table[id] in inputs
    ensures forall i | 0 <= i < |inputs| :: exists id | id in final && id in table :: table[id] == inputs[i]
    ensures forall id | id in IdRange(start, |created|) :: id in table && table[id] !in tags.Values
    ensures ExistingTagIds(tags, inputs) !! IdRange(start, |created|)
  {
    TagIdsHoldInputs(tags, start, inputs, created, ExistingTagIds(tags, inputs));
    forall i | 0 <= i < |inputs| ensures exists id | id in final && id in table :: table[id] == inputs[i] {
      InputHasTag(tags, start, inputs, created, ExistingTagIds(tags, inputs), i);
    }
  }

  /** The tag ids the edit connects hold inputs: the matched ones by the
      lookup, the created ones because only inputs are created. */
  lemma {:induction false} TagIdsHoldInputs(tags: map<Id, Tag>, start: nat, inputs: seq<Tag>,
                         created: seq<Tag>, existing: set<Id>)
    requires KeysBelow(tags, start)
    requires forall k | 0 <= k < |created| :: created[k] in inputs && created[k] !in tags.Values
    requires forall id | id in existing :: id in tags && tags[id] in inputs
    ensures var table := tags + FreshRows(start, created);
      && (forall id | id in existing + IdRange(start, |created|) :: id in table && table[id] in inputs)
      && (forall id | id in IdRange(start, |created|) :: id in table && table[id] !in tags.Values)
      && existing !! IdRange(start, |created|)
  {
    var table := tags + FreshRows(start, created);
    MergeFresh(tags, start, created);
    IdRangeMembers(start, |created|);
    forall id | id in IdRange(start, |created|) ensures id in table && table[id] !in tags.Values && table[id] in inputs {
      assert table[id] == created[id - start];
    }
    forall id | id in existing ensures id in table && table[id] in inputs {
      assert table[id] == tags[id];
    }
  }

  /** Each input is held by a connected tag id: a matched row when the table
      had the pair, else the row created for it. */
  lemma {:induction false} InputHasTag(tags: map<Id, Tag>, start: nat, inputs: seq<Tag>,
                    created: seq<Tag>, existing: set<Id>, i: nat)
    requires KeysBelow(tags, start)
    requires forall j | 0 <= j < |inputs| && inputs[j] !in tags.Values :: inputs[j] in created
    requires forall id | id in tags && tags[id] in inputs :: id in existing
    requires i < |inputs|
    ensures var table := tags + FreshRows(start, created);
      exists id | id in existing + IdRange(start, |created|) && id in table :: table[id] == inputs[i]
  {
    var table := tags + FreshRows(start, created);
    MergeFresh(tags, start, created);
    if inputs[i] in tags.Values {
      var id :| id in tags && tags[id] == inputs[i];
      assert id in existing && table[id] == inputs[i];
    } else {
      var j :| 0 <= j < |created| && created[j] == inputs[i];
      IdRangeMembers(start, |created|);
      assert table[start + j] == created[j];
      assert start + j in IdRange(start, |created|);
    }
  }

  /** The body of an edit request; a field that is `None` was not sent. */
  datatype PostEdit = PostEdit(
    id: Option<Id>,
    title: Option<string>,
    userId: Option<string>,
    status: Option<Status>,
    thumbnailImage: Option<string>,
    content: Option<string>,
    tags: Option<seq<Tag>>,
    categories: Option<seq<Id>>)

  /** The row `updatePost` writes: the sent columns overwrite, the others are
      kept (the ORM ignores `undefined`), the slug follows the title, the
      category and tag sets are replaced rather than merged, and the Open
      Graph image is not touched. */
  function EditedRow(before: Post, edit: PostEdit, slug: string, categories: seq<Id>, tagIds: set<Id>): (r: Post)
    requires edit.title.Some?
    ensures r.title == edit.title.value && r.slug == slug
    ensures forall c :: c in r.categories <==> c in categories
    ensures r.tags == tagIds
    ensures r.ogImage == before.ogImage
    ensures edit.status.Some? ==> r.status == edit.status.value
    ensures edit.status.None? ==> r.status == before.status
    ensures edit.userId.Some? ==> r.userId == edit.userId.value
    ensures edit.userId.None? ==> r.userId == before.userId
    ensures edit.thumbnailImage.Some? ==> r.thumbnailImage == edit.thumbnailImage.value
    ensures edit.thumbnailImage.None? ==> r.thumbnailImage == before.thumbnailImage
    ensures edit.content.Some? ==> r.content == edit.content.value
    ensures edit.content.None? ==> r.content == before.content
  {
    Post(edit.title.value,
         Otherwise(edit.userId, before.userId),
         slug,
         Otherwise(edit.status, before.status),
         Otherwise(edit.thumbnailImage, before.thumbnailImage),
         before.ogImage,
         Otherwise(edit.content, before.content),
         (set c | c in categories),
         tagIds)
  }

  /** What makes the final `prisma.post.update` fail once the tags exist: no
      category list (`categories.map` throws), no id or an unknown one, a
      category id that does not exist, or a slug that another post holds. */
  predicate UpdateRefused(posts: map<Id, Post>, categories: map<Id, Category>, edit: PostEdit, slug: string)
  {
    || edit.categories.None?
    || edit.id.None?
    || edit.id.value !in posts
    || !CategoriesExist(categories, edit.categories.value)
    || PostSlugTakenByOther(posts, edit.id.value, slug)
  }

  /** The effect of `updatePost` on the tables `t`. A missing title or tag
      list fails before anything is written. */
  function UpdatePostOutcome(t: Tables, edit: PostEdit, slugify: string -> string): Outcome<Post>
  {
    if edit.title.None? || edit.tags.None? then Outcome(Err(500, "Failed to update post"), t.posts, t.tags, t.nextId)
    else EditOutcome(t, edit, slugify(edit.title.value), edit.tags.value)
  }

  /** The writes of `updatePost` past its first step: a row for each input
      tag that matched nothing, then, unless the update is refused, the edited
      row connected to the matched and the created tags. The created tags stay
      when the update is refused. */
  function EditOutcome(t: Tables, edit: PostEdit, slug: string, inputs: seq<Tag>): Outcome<Post>
    requires edit.title.Some?
  {
    var created := NewTags(t.tags, inputs);
    var tagTable := t.tags + FreshRows(t.nextId, created);
    var nextId := t.nextId + |created|;
    if UpdateRefused(t.posts, t.categories, edit, slug) then
      Outcome(Err(500, "Failed to update post"), t.posts, tagTable, nextId)
    else
      var tagIds := ExistingTagIds(t.tags, inputs) + IdRange(t.nextId, |created|);
      var row := EditedRow(t.posts[edit.id.value], edit, slug, edit.categories.value, tagIds);
      Outcome(Ok(200, row), t.posts[edit.id.value := row], tagTable, nextId)
  }

  /** Without a title or a tag list nothing is written; otherwise the writes
      are those of `EditOutcome` for the slug of the title. */
  lemma {:induction false} UpdateOutcomeCases(t: Tables, edit: PostEdit, slugify: string -> string)
    ensures var o := UpdatePostOutcome(t, edit, slugify);
      && (edit.title.None? || edit.tags.None? ==>
            o == Outcome(Err(500, "Failed to update post"), t.posts, t.tags, t.nextId))
      && (edit.title.Some? && edit.tags.Some? ==>
            o == EditOutcome(t, edit, slugify(edit.title.value), edit.tags.value))
  {
  }

  /** A refused update answers 500 and leaves the post table alone; otherwise
      the edited post replaces the row under its id and is the reply. Either
      way only the unmatched input tags get rows, each under a fresh id, and
      the existing tags are kept. */
  lemma {:induction false} EditWrites(t: Tables, edit: PostEdit, slug: string, inputs: seq<Tag>)
    requires edit.title.Some?
    requires KeysBelow(t.tags, t.nextId)
    ensures var o := EditOutcome(t, edit, slug, inputs);
      var created := NewTags(t.tags, inputs);
      && o.nextId == t.nextId + |created|
      && o.tags.Keys == t.tags.Keys + IdRange(t.nextId, |created|)
      && (forall id | id in t.tags :: o.tags[id] == t.tags[id])
      && (forall id | t.nextId <= id < o.nextId :: id in o.tags && o.tags[id] !in t.tags.Values)
      && (UpdateRefused(t.posts, t.categories, edit, slug) ==>
            o.reply == Err(500, "Failed to update post") && o.posts == t.posts)
      && (!UpdateRefused(t.posts, t.categories, edit, slug) ==>
            && o.reply.Ok? && o.reply.code == 200
            && o.posts == t.posts[edit.id.value := o.reply.body])
  {
    var created := NewTags(t.tags, inputs);
    MergeFresh(t.tags, t.nextId, created);
    IdRangeMembers(t.nextId, |created|);
  }

  /** An accepted edit stores the sent title and the slug of the title,
      writes each other sent column and keeps each omitted one, keeps the Open
      Graph image, replaces the categories by exactly the given ones, and
      connects exactly the input tags: each tag id of the row names an input,
      and each input is named by one of its tag ids. */
  lemma {:induction false} EditedPostTags(t: Tables, edit: PostEdit, slug: string, inputs: seq<Tag>)
    requires edit.title.Some?
    requires KeysBelow(t.tags, t.nextId)
    requires !UpdateRefused(t.posts, t.categories, edit, slug)
    ensures var o := EditOutcome(t, edit, slug, inputs);
      var row := o.posts[edit.id.value];
      && row.title == edit.title.value && row.slug == slug
      && row.ogImage == t.posts[edit.id.value].ogImage
      && (edit.status.Some? ==> row.status == edit.status.value)
      && (edit.status.None? ==> row.status == t.posts[edit.id.value].status)
      && (edit.userId.Some? ==> row.userId == edit.userId.value)
      && (edit.userId.None? ==> row.userId == t.posts[edit.id.value].userId)
      && (edit.thumbnailImage.Some? ==> row.thumbnailImage == edit.thumbnailImage.value)
      && (edit.thumbnailImage.None? ==> row.thumbnailImage == t.posts[edit.id.value].thumbnailImage)
      && (edit.content.Some? ==> row.content == edit.content.value)
      && (edit.content.None? ==> row.content == t.posts[edit.id.value].content)
      && (forall c :: c in row.categories <==> c in edit.categories.value)
      && (forall id | id in row.tags :: id in o.tags && o.tags[id] in inputs)
      && (forall i | 0 <= i < |inputs| :: exists id | id in row.tags && id in o.tags :: o.tags[id] == inputs[i])
  {
    var created := NewTags(t.tags, inputs);
    var table := t.tags + FreshRows(t.nextId, created);
    var final := ExistingTagIds(t.tags, inputs) + IdRange(t.nextId, |created|);
    ReconciledTags(t.tags, t.nextId, inputs, created, table, final);
  }

  /** `updatePost`, against the tables it reads and writes. */
  method UpdatePost(db: Db, edit: PostEdit, slugify: string -> string) returns (reply: Reply<Post>)
    requires db.Valid()
    modifies db`posts, db`tags, db`nextId
    ensures db.Valid()
    ensures Outcome(reply, db.posts, db.tags, db.nextId) == UpdatePostOutcome(old(db.Snapshot()), edit, slugify)
  {
    if edit.title.None? || edit.tags.None? {
      return Err(500, "Failed to update post");
    }
    reply := StoreEdit(db, edit, slugify(edit.title.value), edit.tags.value);
  }

  /** The writes of `updatePost`: the unmatched tags are created, then the
      row is replaced unless the update is refused. */
  method StoreEdit(db: Db, edit: PostEdit, slug: string, inputs: seq<Tag>) returns (reply: Reply<Post>)
    requires db.Valid() && edit.title.Some?
    modifies db`posts, db`tags, db`nextId
    ensures db.Valid()
    ensures Outcome(reply, db.posts, db.tags, db.nextId) == EditOutcome(old(db.Snapshot()), edit, slug, inputs)
  {
    var start := db.nextId;
    var existingTagIds := ExistingTagIds(db.tags, inputs);
    var newTags := NewTags(db.tags, inputs);
    var createdTags := InsertTags(db, newTags);
    ConsecutiveIds(createdTags, start);
    var allTagIds := existingTagIds + (set k | k in createdTags);
    assert allTagIds == ExistingTagIds(old(db.tags), inputs) + IdRange(start, |newTags|);
    if UpdateRefused(db.posts, db.categories, edit, slug) {
      return Err(500, "Failed to update post");
    }
    var id := edit.id.value;
    var row := EditedRow(db.posts[id], edit, slug, edit.categories.value, allTagIds);
    db.ReplacePost(id, row);
    reply := Ok(200, row);
  }

  // ---------------------------------------------------------------------------
  // Likes
  // ---------------------------------------------------------------------------

  /** `prisma.likes.findFirst({ where: { userId, postId } })`; an `undefined`
      user id drops that condition, so any like of the post is found. */
  predicate LikeFound(likes: map<Id, Like>, userId: Option<string>, postId: Id)
  {
    exists id | id in likes :: likes[id].postId == postId && (userId.None? || likes[id].userId == userId.value)
  }

  /** Once a user has liked a post, the lookup finds the like, so the same
      request is refused from then on. */
  lemma {:induction false} LikedIsFound(likes: map<Id, Like>, id: Id, userId: string, postId: Id)
    ensures LikeFound(likes[id := Like(userId, postId)], Some(userId), postId)
    ensures Liked(likes, userId, postId) ==> LikeFound(likes, Some(userId), postId)
  {
    assert likes[id := Like(userId, postId)][id] == Like(userId, postId);
  }

  /** `likePost`. `jwt.verify` runs outside the `try`, so a token it refuses
      throws out of the handler: `None`, no response. */
  method LikePost(db: Db, token: string, postId: Option<Id>, verify: string -> Option<Claims>)
    returns (outcome: Option<Reply<string>>)
    requires db.Valid()
    modifies db`likes, db`nextId
    ensures db.Valid()
    ensures outcome != Some(Ok(200, "You have liked the post")) ==>
      db.likes == old(db.likes) && db.nextId == old(db.nextId)
    ensures token == [] ==> outcome == Some(Err(400, "Please login first"))
    ensures token != [] && verify(token).None? ==> outcome == None
    ensures token != [] && verify(token).Some? && postId.None? ==> outcome == Some(Err(400, "Post data is required"))
    ensures token != [] && verify(token).Some? && postId.Some? ==>
      var userId := verify(token).value.userId;
      && (LikeFound(old(db.likes), userId, postId.value) ==>
            outcome == Some(Err(400, "You have already liked this post")))
      && (!LikeFound(old(db.likes), userId, postId.value) && (userId.None? || postId.value !in old(db.posts)) ==>
            outcome == Some(Err(500, "Something went wrong")))
      && (!LikeFound(old(db.likes), userId, postId.value) && userId.Some? && postId.value in old(db.posts) ==>
            && outcome == Some(Ok(200, "You have liked the post"))
            && db.likes == old(db.likes)[old(db.nextId) := Like(userId.value, postId.value)]
            && db.nextId == old(db.nextId) + 1)
  {
    if token == [] {
      return Some(Err(400, "Please login first"));
    }
    var user := verify(token);
    if user.None? {
      return None;
    }
    if postId.None? {
      return Some(Err(400, "Post data is required"));
    }
    var userId := user.value.userId;
    if LikeFound(db.likes, userId, postId.value) {
      return Some(Err(400, "You have already liked this post"));
    }
    if userId.None? || postId.value !in db.posts {
      return Some(Err(500, "Something went wrong"));
    }
    var _ := db.AddLike(Like(userId.value, postId.value));
    outcome := Some(Ok(200, "You have liked the post"));
  }

  // ---------------------------------------------------------------------------
  // Publication status and deletion
  // ---------------------------------------------------------------------------

  /** `activePost`: publishes the post and changes nothing else; an unknown
      id makes the ORM fail. */
  method ActivatePost(db: Db, id: Id) returns (reply: Reply<Post>)
    requires db.Valid()
    modifies db`posts
    ensures db.Valid()
    ensures id !in old(db.posts) ==> reply == Err(500, "Failed to active post") && db.posts == old(db.posts)
    ensures id in old(db.posts) ==>
      && reply == Ok(200, old(db.posts)[id].(status := Active))
      && db.posts == old(db.posts)[id := old(db.posts)[id].(status := Active)]
  {
    if id !in db.posts {
      return Err(500, "Failed to active post");
    }
    var post := db.posts[id].(status := Active);
    db.ReplacePost(id, post);
    reply := Ok(200, post);
  }

  /** `inactivePost`: withdraws the post and changes nothing else. */
  method DeactivatePost(db: Db, id: Id) returns (reply: Reply<Post>)
    requires db.Valid()
    modifies db`posts
    ensures db.Valid()
    ensures id !in old(db.posts) ==> reply == Err(500, "Failed to inactive post") && db.posts == old(db.posts)
    ensures id in old(db.posts) ==>
      && reply == Ok(200, old(db.posts)[id].(status := Inactive))
      && db.posts == old(db.posts)[id := old(db.posts)[id].(status := Inactive)]
  {
    if id !in db.posts {
      return Err(500, "Failed to inactive post");
    }
    var post := db.posts[id].(status := Inactive);
    db.ReplacePost(id, post);
    reply := Ok(200, post);
  }

  /** A published post is found by its slug; a withdrawn one is not. */
  lemma {:induction false} StatusDecidesVisibility(t: Tables, id: Id)
    requires Consistent(t) && id in t.posts
    ensures var p := t.posts[id];
      var on := t.(posts := t.posts[id := p.(status := Active)]);
      GetPostBySlug(on, p.slug).Ok? && GetPostBySlug(on, p.slug).body.id == id
    ensures var p := t.posts[id];
      var off := t.(posts := t.posts[id := p.(status := Inactive)]);
      GetPostBySlug(off, p.slug).Err?
  {
    var p := t.posts[id];
    var on := t.(posts := t.posts[id := p.(status := Active)]);
    var off := t.(posts := t.posts[id := p.(status := Inactive)]);
    assert PublishedWithSlug(on.posts, id, p.slug);
  }

  /** `deletePost`: removes exactly that post; an unknown id makes the ORM fail. */
  method DeletePost(db: Db, id: Id) returns (reply: Reply<string>)
    requires db.Valid()
    modifies db`posts
    ensures db.Valid()
    ensures id !in old(db.posts) ==> reply == Err(500, "Failed to delete post") && db.posts == old(db.posts)
    ensures id in old(db.posts) ==> reply == Ok(200, "Post deleted successfully") && db.posts == old(db.posts) - {id}
  {
    if id !in db.posts {
      return Err(500, "Failed to delete post");
    }
    db.posts := db.posts - {id};
    reply := Ok(200, "Post deleted successfully");
  }
}
