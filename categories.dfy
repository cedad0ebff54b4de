/** Categories: a name and the slug derived from it, unique per slug. */
module Categories {
  import opened Wrappers
  import opened Store

  /** `getCategoryById`: the row, or 404 when there is none. */
  function GetCategoryById(categories: map<Id, Category>, id: Id): (r: Reply<Category>)
    ensures r.Ok? <==> id in categories
    ensures r.Ok? ==> r == Ok(200, categories[id])
    ensures r.Err? ==> r == Err(404, "Category not found")
  {
    if id in categories then Ok(200, categories[id]) else Err(404, "Category not found")
  }

  /** Another row than `id` already holds `slug`. */
  predicate SlugTakenByOther(categories: map<Id, Category>, id: Id, slug: string)
  {
    exists other | other in categories && other != id :: categories[other].slug == slug
  }

  /** `createCategory`. The slug is computed before the `try`, so a missing
      name makes `slugify` throw out of the handler: `None`, no response and
      no change. A taken slug is refused; otherwise one row is added. */
  method CreateCategory(db: Db, name: Option<string>, slugify: string -> string) returns (outcome: Option<Reply<Id>>)
    requires db.Valid()
    modifies db
    ensures db.Valid()
    ensures name.None? ==> outcome == None && db.Snapshot() == old(db.Snapshot())
    ensures name.Some? && CategorySlugTaken(old(db.categories), slugify(name.value)) ==>
      outcome == Some(Err(400, "Category is already exist!")) && db.Snapshot() == old(db.Snapshot())
    ensures name.Some? && !CategorySlugTaken(old(db.categories), slugify(name.value)) ==>
      && outcome == Some(Ok(201, old(db.nextId)))
      && db.categories == old(db.categories)[old(db.nextId) := Category(name.value, slugify(name.value))]
      && db.Snapshot() == old(db.Snapshot()).(categories := db.categories, nextId := old(db.nextId) + 1)
  {
    if name.None? {
      return None;
    }
    var slug := slugify(name.value);
    if CategorySlugTaken(db.categories, slug) {
      return Some(Err(400, "Category is already exist!"));
    }
    var id := db.FreshId();
    db.categories := db.categories[id := Category(name.value, slug)];
    outcome := Some(Ok(201, id));
  }

  /** `updateCategory`: recompute the slug from the new name and write both.
      The handler checks nothing itself; the failures are the ORM's: no name
      for `slugify`, no id or an unknown one, or a slug that the unique index
      finds on another row. */
  method UpdateCategory(db: Db, id: Option<Id>, name: Option<string>, slugify: string -> string) returns (reply: Reply<Category>)
    requires db.Valid()
    modifies db`categories
    ensures db.Valid()
    ensures reply.Err? <==>
      (|| name.None? || id.None? || id.value !in old(db.categories)
       || SlugTakenByOther(old(db.categories), id.value, slugify(name.value)))
    ensures reply.Err? ==> reply == Err(500, "Failed to update category") && db.categories == old(db.categories)
    ensures reply.Ok? ==>
      && reply == Ok(200, Category(name.value, slugify(name.value)))
      && db.categories == old(db.categories)[id.value := Category(name.value, slugify(name.value))]
  {
    if name.None? {
      return Err(500, "Failed to update category");
    }
    var slug := slugify(name.value);
    if id.None? || id.value !in db.categories || SlugTakenByOther(db.categories, id.value, slug) {
      return Err(500, "Failed to update category");
    }
    var row := Category(name.value, slug);
    db.categories := db.categories[id.value := row];
    reply := Ok(200, row);
  }

  /** `deleteCategory`: 400 without an id, removes exactly that row otherwise
      (an unknown id makes the ORM fail). */
  method DeleteCategory(db: Db, id: Option<Id>) returns (reply: Reply<string>)
    requires db.Valid()
    modifies db`categories
    ensures db.Valid()
    ensures id.None? ==> reply == Err(400, "ID is required") && db.categories == old(db.categories)
    ensures id.Some? && id.value !in old(db.categories) ==>
      reply == Err(500, "Failed to delete category") && db.categories == old(db.categories)
    ensures id.Some? && id.value in old(db.categories) ==>
      reply == Ok(200, "Category deleted successfully") && db.categories == old(db.categories) - {id.value}
  {
    if id.None? {
      return Err(400, "ID is required");
    }
    if id.value !in db.categories {
      return Err(500, "Failed to delete category");
    }
    db.categories := db.categories - {id.value};
    reply := Ok(200, "Category deleted successfully");
  }
}
