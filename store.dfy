/** The database the handlers read and write, as an in-memory store: one map
    per table from row id to row, and one counter from which the database
    draws fresh ids. */
module Store {
  import opened Wrappers

  type Id = nat

  datatype Status = Pending | Active | Inactive

  datatype Tag = Tag(name: string, hyperLink: Option<string>)

  /** A post row with its category and tag relations (sets of row ids). */
  datatype Post = Post(
    title: string,
    userId: string,
    slug: string,
    status: Status,
    thumbnailImage: string,
    ogImage: Option<string>,
    content: string,
    categories: set<Id>,
    tags: set<Id>)

  datatype Like = Like(userId: string, postId: Id)

  datatype Category = Category(name: string, slug: string)

  datatype Image = Image(imageUrl: string, altText: string, note: string)

  datatype Quote = Quote(text: string, hyperLink: Option<string>, categoryId: Id, imageUrl: Option<string>)

  datatype Newsletter = Newsletter(email: string)

  /** The whole database as one value. */
  datatype Tables = Tables(
    posts: map<Id, Post>,
    tags: map<Id, Tag>,
    likes: map<Id, Like>,
    categories: map<Id, Category>,
    images: map<Id, Image>,
    quotes: map<Id, Quote>,
    newsletters: map<Id, Newsletter>,
    nextId: nat)

  /** The CDN location under which thumbnails are served; a post's Open Graph
      image is this prefix followed by its thumbnail name. */
  const CdnPrefix: string := "https://clothes2wear.blr1.cdn.digitaloceanspaces.com/images/"

  function OgImageOf(thumbnailImage: string): string
  {
    CdnPrefix + thumbnailImage
  }

  predicate PostSlugTaken(posts: map<Id, Post>, slug: string)
  {
    exists id | id in posts :: posts[id].slug == slug
  }

  /** A post other than `id` holds `slug`. */
  predicate PostSlugTakenByOther(posts: map<Id, Post>, id: Id, slug: string)
  {
    exists other | other in posts && other != id :: posts[other].slug == slug
  }

  predicate CategorySlugTaken(categories: map<Id, Category>, slug: string)
  {
    exists id | id in categories :: categories[id].slug == slug
  }

  predicate EmailTaken(newsletters: map<Id, Newsletter>, email: string)
  {
    exists id | id in newsletters :: newsletters[id].email == email
  }

  predicate Liked(likes: map<Id, Like>, userId: string, postId: Id)
  {
    exists id | id in likes :: likes[id] == Like(userId, postId)
  }

  predicate KeysBelow<V>(m: map<Id, V>, bound: nat)
  {
    forall id | id in m :: id < bound
  }

  /** `post.slug` is a unique column (the handlers look posts up with
      `findUnique({ where: { slug } })`). */
  predicate UniquePostSlugs(posts: map<Id, Post>)
  {
    forall a, b | a in posts && b in posts && posts[a].slug == posts[b].slug :: a == b
  }

  predicate UniqueCategorySlugs(categories: map<Id, Category>)
  {
    forall a, b | a in categories && b in categories && categories[a].slug == categories[b].slug :: a == b
  }

  predicate UniqueEmails(newsletters: map<Id, Newsletter>)
  {
    forall a, b | a in newsletters && b in newsletters && newsletters[a].email == newsletters[b].email :: a == b
  }

  /** No user has liked the same post twice. */
  predicate UniqueLikes(likes: map<Id, Like>)
  {
    forall a, b | a in likes && b in likes && likes[a] == likes[b] :: a == b
  }

  /** What every handler keeps true of the database: ids below the counter are
      the only ones in use, and the unique columns are unique. */
  predicate Consistent(t: Tables)
  {
    && KeysBelow(t.posts, t.nextId)
    && KeysBelow(t.tags, t.nextId)
    && KeysBelow(t.likes, t.nextId)
    && KeysBelow(t.categories, t.nextId)
    && KeysBelow(t.images, t.nextId)
    && KeysBelow(t.quotes, t.nextId)
    && KeysBelow(t.newsletters, t.nextId)
    && UniquePostSlugs(t.posts)
    && UniqueCategorySlugs(t.categories)
    && UniqueEmails(t.newsletters)
    && UniqueLikes(t.likes)
  }

  /** The rows of a like table for one (user, post) pair. */
  function LikesOf(likes: map<Id, Like>, userId: string, postId: Id): set<Id>
  {
    set id | id in likes && likes[id] == Like(userId, postId)
  }

  /** With unique likes, a pair has at most one like row. */
  lemma {:induction false} AtMostOneLikePerPair(likes: map<Id, Like>, userId: string, postId: Id)
    requires UniqueLikes(likes)
    ensures |LikesOf(likes, userId, postId)| <= 1
  {
    var s := LikesOf(likes, userId, postId);
    if s != {} {
      var a :| a in s;
      assert s == {a};
    }
  }

  /** The number of likes of a post (`prisma.likes.count({ where: { postId } })`). */
  function LikeCount(likes: map<Id, Like>, postId: Id): nat
  {
    |set id | id in likes && likes[id].postId == postId|
  }

  /** The ids `start`, …, `start + n - 1`. */
  function IdRange(start: nat, n: nat): set<Id>
  {
    if n == 0 then {} else IdRange(start, n - 1) + {start + n - 1}
  }

  lemma {:induction false} IdRangeMembers(start: nat, n: nat)
    ensures forall id :: id in IdRange(start, n) <==> start <= id < start + n
  {
    if n > 0 {
      IdRangeMembers(start, n - 1);
    }
  }

  lemma {:induction false} IdRangeSize(start: nat, n: nat)
    ensures |IdRange(start, n)| == n
  {
    if n > 0 {
      IdRangeSize(start, n - 1);
      IdRangeMembers(start, n - 1);
      assert start + n - 1 !in IdRange(start, n - 1);
    }
  }

  /** The rows `rows` inserted one after another from id `start` on. */
  function FreshRows<V>(start: nat, rows: seq<V>): map<Id, V>
  {
    if rows == [] then map[]
    else FreshRows(start, rows[..|rows| - 1])[start + |rows| - 1 := rows[|rows| - 1]]
  }

  /** The fresh rows occupy exactly the ids `start` to `start + |rows| - 1`,
      row `k` under id `start + k`. */
  lemma {:induction false} FreshRowsShape<V>(start: nat, rows: seq<V>)
    ensures FreshRows(start, rows).Keys == IdRange(start, |rows|)
    ensures forall id | id in FreshRows(start, rows) ::
      start <= id < start + |rows| && FreshRows(start, rows)[id] == rows[id - start]
  {
    if rows != [] {
      var init := rows[..|rows| - 1];
      FreshRowsShape(start, init);
      IdRangeMembers(start, |init|);
    }
  }

  /** Adding fresh rows above every key of `table` keeps its rows and puts
      row `k` of `rows` under `start + k`. */
  lemma {:induction false} MergeFresh<V>(table: map<Id, V>, start: nat, rows: seq<V>)
    requires KeysBelow(table, start)
    ensures var m := table + FreshRows(start, rows);
      && m.Keys == table.Keys + IdRange(start, |rows|)
      && table.Keys !! IdRange(start, |rows|)
      && (forall id | id in table :: m[id] == table[id])
      && (forall id | start <= id < start + |rows| :: id in m && m[id] == rows[id - start])
  {
    var f := FreshRows(start, rows);
    var m := table + f;
    FreshRowsShape(start, rows);
    IdRangeMembers(start, |rows|);
    forall id | id in table ensures m[id] == table[id] {
      assert id !in f;
    }
    forall id | start <= id < start + |rows| ensures id in m && m[id] == rows[id - start] {
      assert id in f;
    }
  }

  /** Inserting row `i` under id `start + i` extends the fresh rows by one. */
  lemma {:induction false} FreshRowsStep<V>(table: map<Id, V>, start: nat, rows: seq<V>, i: nat)
    requires i < |rows|
    requires start + i !in table
    ensures (table + FreshRows(start, rows[..i]))[start + i := rows[i]] == table + FreshRows(start, rows[..i + 1])
  {
    assert rows[..i + 1][..i] == rows[..i];
  }

  /** The database, with every table a field that the handlers reassign. */
  class Db {
    var posts: map<Id, Post>
    var tags: map<Id, Tag>
    var likes: map<Id, Like>
    var categories: map<Id, Category>
    var images: map<Id, Image>
    var quotes: map<Id, Quote>
    var newsletters: map<Id, Newsletter>
    var nextId: nat

    function Snapshot(): Tables
      reads this
    {
      Tables(posts, tags, likes, categories, images, quotes, newsletters, nextId)
    }

    predicate Valid()
      reads this
    {
      Consistent(Snapshot())
    }

    constructor ()
      ensures Valid()
      ensures Snapshot() == Tables(map[], map[], map[], map[], map[], map[], map[], 0)
    {
      posts, tags, likes, categories := map[], map[], map[], map[];
      images, quotes, newsletters := map[], map[], map[];
      nextId := 0;
    }

    /** The database assigns the next id; no table uses it yet. */
    method FreshId() returns (id: Id)
      requires Valid()
      modifies this`nextId
      ensures Valid()
      ensures id == old(nextId) && nextId == id + 1
    {
      id := nextId;
      nextId := nextId + 1;
    }

    /** `prisma.post.create` with a slug no post holds: a new post row under
        the next id. */
    method AddPost(row: Post) returns (id: Id)
      requires Valid() && !PostSlugTaken(posts, row.slug)
      modifies this`posts, this`nextId
      ensures Valid()
      ensures id == old(nextId) && nextId == id + 1
      ensures posts == old(posts)[id := row]
    {
      id := nextId;
      nextId := nextId + 1;
      posts := posts[id := row];
    }

    /** `prisma.post.update` of an existing row, to a slug no other post
        holds. */
    method ReplacePost(id: Id, row: Post)
      requires Valid() && id in posts && !PostSlugTakenByOther(posts, id, row.slug)
      modifies this`posts
      ensures Valid()
      ensures posts == old(posts)[id := row]
    {
      posts := posts[id := row];
    }

    /** `prisma.likes.create` for a pair that has no like yet. */
    method AddLike(row: Like) returns (id: Id)
      requires Valid() && !Liked(likes, row.userId, row.postId)
      modifies this`likes, this`nextId
      ensures Valid()
      ensures id == old(nextId) && nextId == id + 1
      ensures likes == old(likes)[id := row]
    {
      id := nextId;
      nextId := nextId + 1;
      likes := likes[id := row];
    }

    /** `prisma.tags.create`: a new tag row under the next id. */
    method AddTag(row: Tag) returns (id: Id)
      requires Valid()
      modifies this`tags, this`nextId
      ensures Valid()
      ensures id == old(nextId) && nextId == id + 1
      ensures tags == old(tags)[id := row]
    {
      id := nextId;
      nextId := nextId + 1;
      tags := tags[id := row];
    }
  }
}
