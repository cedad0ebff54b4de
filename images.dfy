/** The image library: uploaded image URLs with alt text and a note, listed
    page by page together with whether some post uses each image. */
module Images {
  import opened Wrappers
  import opened Text
  import opened Paging
  import opened Store

  /** Some post shows the image: as its thumbnail, or anywhere in its content. */
  predicate IsUsed(posts: map<Id, Post>, imageUrl: string)
  {
    exists id | id in posts :: posts[id].thumbnailImage == imageUrl || Contains(posts[id].content, imageUrl)
  }

  /** A post whose content embeds the URL uses the image. */
  lemma {:induction false} UsedInContent(posts: map<Id, Post>, id: Id, before: string, imageUrl: string, after: string)
    requires id in posts && posts[id].content == before + imageUrl + after
    ensures IsUsed(posts, imageUrl)
  {
    ContainsInfix(before, imageUrl, after);
  }

  /** Without posts no image is in use; an image whose URL is no post's
      thumbnail and occurs in no content is unused. */
  lemma {:induction false} UnusedImage(posts: map<Id, Post>, imageUrl: string)
    requires forall id | id in posts :: posts[id].thumbnailImage != imageUrl && !Contains(posts[id].content, imageUrl)
    ensures !IsUsed(posts, imageUrl)
  {
  }

  datatype ImageUse = ImageUse(id: Id, image: Image, isUsed: bool)

  datatype ImagePage = ImagePage(images: seq<ImageUse>, totalImages: nat)

  /** The images in listing order, narrowed to those whose note contains the
      search text when there is one (an empty search is no filter). */
  function MatchingImages(images: map<Id, Image>, order: seq<Id>, searchQuery: string): (r: seq<Id>)
    requires Enumerates(order, images.Keys)
    ensures forall i | 0 <= i < |r| :: r[i] in images && (searchQuery != [] ==> Contains(images[r[i]].note, searchQuery))
    ensures forall id | id in images && (searchQuery == [] || Contains(images[id].note, searchQuery)) :: id in r
    ensures Distinct(r)
    ensures Subsequence(r, order)
  {
    if searchQuery == [] then SubsequenceOfItself(order); order
    else
      var r := Filter(order, (id: Id) => id in images && Contains(images[id].note, searchQuery));
      FilterDistinct(order, (id: Id) => id in images && Contains(images[id].note, searchQuery));
      r
  }

  /** `getAllImages`: 16 images per page after the first `page * 16`, each
      with its usage flag; the total counts the whole table, whatever the
      search. A negative page makes a negative `skip`, which the ORM refuses. */
  function GetAllImages(t: Tables, order: seq<Id>, page: int, searchQuery: string): (r: Reply<ImagePage>)
    requires Enumerates(order, t.images.Keys)
    ensures r.Err? <==> page < 0
    ensures r.Err? ==> r == Err(500, "Failed to fetch images")
    ensures r.Ok? ==>
      var shown := Window(MatchingImages(t.images, order, searchQuery), page * 16, 16);
      && r.code == 200
      && r.body.totalImages == |t.images|
      && |r.body.images| == |shown| <= 16
      && (forall i | 0 <= i < |shown| ::
            && r.body.images[i].id == shown[i]
            && r.body.images[i].image == t.images[shown[i]]
            && r.body.images[i].isUsed == IsUsed(t.posts, t.images[shown[i]].imageUrl))
  {
    if page < 0 then Err(500, "Failed to fetch images")
    else
      var ids := Window(MatchingImages(t.images, order, searchQuery), page * 16, 16);
      var uses := seq(|ids|, i requires 0 <= i < |ids| =>
        ImageUse(ids[i], t.images[ids[i]], IsUsed(t.posts, t.images[ids[i]].imageUrl)));
      Ok(200, ImagePage(uses, |t.images|))
  }

  /** Paging loses nothing and repeats nothing: the `j`-th matching image is
      listed on page `j / 16`, at position `j % 16`. */
  lemma {:induction false} ImageOnItsPage(t: Tables, order: seq<Id>, searchQuery: string, j: nat)
    requires Enumerates(order, t.images.Keys)
    requires j < |MatchingImages(t.images, order, searchQuery)|
    ensures var r := GetAllImages(t, order, j / 16, searchQuery);
      r.Ok? && j % 16 < |r.body.images| && r.body.images[j % 16].id == MatchingImages(t.images, order, searchQuery)[j]
  {
    WindowPosition(MatchingImages(t.images, order, searchQuery), 16, j);
  }

  /** `getImageById`: the row, or 404. */
  function GetImageById(images: map<Id, Image>, id: Id): (r: Reply<Image>)
    ensures r.Ok? <==> id in images
    ensures r.Ok? ==> r == Ok(200, images[id])
    ensures r.Err? ==> r == Err(404, "Image not found")
  {
    if id in images then Ok(200, images[id]) else Err(404, "Image not found")
  }

  /** `createImage`: one new row holding exactly the three given fields. */
  method CreateImage(db: Db, imageUrl: string, altText: string, note: string) returns (reply: Reply<Id>)
    requires db.Valid()
    modifies db
    ensures db.Valid()
    ensures reply == Ok(201, old(db.nextId))
    ensures db.images == old(db.images)[old(db.nextId) := Image(imageUrl, altText, note)]
    ensures db.Snapshot() == old(db.Snapshot()).(images := db.images, nextId := old(db.nextId) + 1)
  {
    var id := db.FreshId();
    db.images := db.images[id := Image(imageUrl, altText, note)];
    reply := Ok(201, id);
  }

  /** `updateImage`: overwrites the three fields that the request carries and
      keeps the others; without an id, or with an unknown one, the ORM fails. */
  method UpdateImage(db: Db, id: Option<Id>, imageUrl: Option<string>, altText: Option<string>, note: Option<string>)
    returns (reply: Reply<Image>)
    requires db.Valid()
    modifies db`images
    ensures db.Valid()
    ensures id.None? || id.value !in old(db.images) ==>
      reply == Err(500, "Failed to update image") && db.images == old(db.images)
    ensures id.Some? && id.value in old(db.images) ==>
      var before := old(db.images)[id.value];
      var after := Image(Otherwise(imageUrl, before.imageUrl), Otherwise(altText, before.altText), Otherwise(note, before.note));
      reply == Ok(200, after) && db.images == old(db.images)[id.value := after]
  {
    if id.None? || id.value !in db.images {
      return Err(500, "Failed to update image");
    }
    var before := db.images[id.value];
    var after := Image(Otherwise(imageUrl, before.imageUrl), Otherwise(altText, before.altText), Otherwise(note, before.note));
    db.images := db.images[id.value := after];
    reply := Ok(200, after);
  }

  /** `deleteImage`: 400 without an id, and nothing is deleted; otherwise
      exactly that row goes (an unknown id makes the ORM fail). */
  method DeleteImage(db: Db, id: Option<Id>) returns (reply: Reply<string>)
    requires db.Valid()
    modifies db`images
    ensures db.Valid()
    ensures id.None? ==> reply == Err(400, "ID is required") && db.images == old(db.images)
    ensures id.Some? && id.value !in old(db.images) ==>
      reply == Err(500, "Failed to delete image") && db.images == old(db.images)
    ensures id.Some? && id.value in old(db.images) ==>
      reply == Ok(200, "Image deleted successfully") && db.images == old(db.images) - {id.value}
  {
    if id.None? {
      return Err(400, "ID is required");
    }
    if id.value !in db.images {
      return Err(500, "Failed to delete image");
    }
    db.images := db.images - {id.value};
    reply := Ok(200, "Image deleted successfully");
  }
}
