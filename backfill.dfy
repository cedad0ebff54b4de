/** The one-off maintenance script that fills in the Open Graph image of every
    post created before the column existed. */
module Backfill {
  import opened Wrappers
  import opened Paging
  import opened Store

  /** The posts the script selects: those whose `ogImage` is null. */
  function NullOgIds(posts: map<Id, Post>): set<Id>
  {
    set id | id in posts && posts[id].ogImage.None?
  }

  /** A post with its Open Graph image derived from its thumbnail. */
  function WithOgImage(p: Post): Post
  {
    p.(ogImage := Some(OgImageOf(p.thumbnailImage)))
  }

  /** The posts table once the rows in `done` have been filled in. */
  function FilledIn(posts: map<Id, Post>, done: set<Id>): map<Id, Post>
  {
    map id | id in posts :: if id in done then WithOgImage(posts[id]) else posts[id]
  }

  /** The table after a whole run. */
  function Backfilled(posts: map<Id, Post>): (r: map<Id, Post>)
    ensures r.Keys == posts.Keys
  {
    FilledIn(posts, NullOgIds(posts))
  }

  /** Every selected post gets the CDN image of its thumbnail, the same value a
      new post gets; posts that had an image and every other column keep their
      values. */
  lemma {:induction false} BackfilledRows(posts: map<Id, Post>, id: Id)
    requires id in posts
    ensures posts[id].ogImage.None? ==>
      Backfilled(posts)[id] == posts[id].(ogImage := Some(OgImageOf(posts[id].thumbnailImage)))
    ensures posts[id].ogImage.Some? ==> Backfilled(posts)[id] == posts[id]
  {
  }

  /** After a run no post is left without an image, so a second run selects
      nothing and changes nothing. */
  lemma {:induction false} BackfillIdempotent(posts: map<Id, Post>)
    ensures NullOgIds(Backfilled(posts)) == {}
    ensures Backfilled(Backfilled(posts)) == Backfilled(posts)
  {
    var once := Backfilled(posts);
    forall id | id in once ensures once[id].ogImage.Some? {
      if id in NullOgIds(posts) {
        assert once[id] == WithOgImage(posts[id]);
      }
    }
    assert NullOgIds(once) == {};
    assert Backfilled(once) == once;
  }

  /** The backfill keeps the slugs, hence the database's invariant. */
  lemma {:induction false} BackfillKeepsConsistent(t: Tables)
    requires Consistent(t)
    ensures Consistent(t.(posts := Backfilled(t.posts)))
  {
    var b := Backfilled(t.posts);
    forall id | id in b ensures b[id].slug == t.posts[id].slug {
      BackfilledRows(t.posts, id);
    }
  }

  /** Filling in one more selected row. */
  lemma {:induction false} FilledInStep(posts: map<Id, Post>, done: set<Id>, id: Id)
    requires id in posts && id !in done
    ensures var cur := FilledIn(posts, done);
      cur[id := WithOgImage(cur[id])] == FilledIn(posts, done + {id})
  {
  }

  /** The table after the updates of the listed rows, one after another. */
  function UpdatedInOrder(posts: map<Id, Post>, ids: seq<Id>): (r: map<Id, Post>)
    ensures r.Keys == posts.Keys
  {
    if ids == [] then posts
    else
      var before := UpdatedInOrder(posts, ids[..|ids| - 1]);
      var id := ids[|ids| - 1];
      if id in before then before[id := WithOgImage(before[id])] else before
  }

  /** Updating distinct rows one by one fills in exactly those rows, whatever
      the order. */
  lemma {:induction false} UpdatedInOrderFills(posts: map<Id, Post>, ids: seq<Id>)
    requires Distinct(ids)
    requires forall i | 0 <= i < |ids| :: ids[i] in posts
    ensures UpdatedInOrder(posts, ids) == FilledIn(posts, set k | k in ids)
  {
    if ids != [] {
      var init, id := ids[..|ids| - 1], ids[|ids| - 1];
      LastIsNew(ids);
      UpdatedInOrderFills(posts, init);
      FilledInStep(posts, (set k | k in init), id);
    }
  }

  /** The last of distinct ids is not among the others, which are distinct
      too, and the ids as a set are the others' plus it. */
  lemma {:induction false} LastIsNew(ids: seq<Id>)
    requires Distinct(ids) && ids != []
    ensures var init, id := ids[..|ids| - 1], ids[|ids| - 1];
      && Distinct(init)
      && id !in init
      && (set k | k in ids) == (set k | k in init) + {id}
  {
    var init, id := ids[..|ids| - 1], ids[|ids| - 1];
    assert ids == init + [id];
    forall i, j | 0 <= i < j < |init| ensures init[i] != init[j] {
      assert init[i] == ids[i] && init[j] == ids[j];
    }
  }

  /** `udpate`: select the posts without an image, update them one by one in
      the order the database listed them, and report how many there were. */
  method RunBackfill(db: Db, selected: seq<Id>) returns (count: nat)
    requires db.Valid()
    requires Enumerates(selected, NullOgIds(db.posts))
    modifies db`posts
    ensures db.Valid()
    ensures db.posts == Backfilled(old(db.posts))
    ensures count == |NullOgIds(old(db.posts))|
  {
    ghost var start := db.Snapshot();
    BackfillRun(start, selected);
    UpdateEach(db, selected);
    assert db.Snapshot() == start.(posts := db.posts);
    count := |selected|;
  }

  /** The `for` loop of `udpate`: each listed row gets the CDN image of its
      thumbnail, in list order. */
  method UpdateEach(db: Db, selected: seq<Id>)
    requires forall i | 0 <= i < |selected| :: selected[i] in db.posts
    modifies db`posts
    ensures db.posts == UpdatedInOrder(old(db.posts), selected)
  {
    ghost var start := db.posts;
    var i := 0;
    while i < |selected|
      invariant 0 <= i <= |selected|
      invariant db.posts == UpdatedInOrder(start, selected[..i])
    {
      var id := selected[i];
      assert selected[..i + 1][..i] == selected[..i];
      var newOgImage := OgImageOf(db.posts[id].thumbnailImage);
      db.posts := db.posts[id := db.posts[id].(ogImage := Some(newOgImage))];
      i := i + 1;
    }
    assert selected[..|selected|] == selected;
  }

  /** Updating the listed rows without an image, in listing order, is the
      backfill, and there are as many updates as such rows. */
  lemma {:induction false} BackfillRun(t: Tables, selected: seq<Id>)
    requires Consistent(t)
    requires Enumerates(selected, NullOgIds(t.posts))
    ensures forall i | 0 <= i < |selected| :: selected[i] in t.posts
    ensures UpdatedInOrder(t.posts, selected) == Backfilled(t.posts)
    ensures |selected| == |NullOgIds(t.posts)|
    ensures Consistent(t.(posts := UpdatedInOrder(t.posts, selected)))
  {
    EnumeratedSet(selected, NullOgIds(t.posts));
    UpdatedInOrderFills(t.posts, selected);
    BackfillKeepsConsistent(t);
  }

  /** A listing of a set, as a set, is that set; it has one entry per
      member. */
  lemma {:induction false} EnumeratedSet(order: seq<Id>, keys: set<Id>)
    requires Enumerates(order, keys)
    ensures (set k | k in order) == keys
    ensures |order| == |keys|
  {
    EnumeratesSize(order, keys);
  }
}
