/** Quotes: a text shown with an optional link and image, filed under one
    category. */
module Quotes {
  import opened Wrappers
  import opened Store

  /** The two request checks shared by `addQuote` and `updateQuote`, text
      first: an empty or missing text, then a missing category id. */
  function QuoteCheck(text: string, categoryId: Option<Id>): (r: Check)
    ensures r == Pass <==> text != [] && categoryId.Some?
    ensures text == [] ==> r == Reject(400, "Enter a valid quote")
    ensures text != [] && categoryId.None? ==> r == Reject(400, "Select a valid category")
  {
    if text == [] then Reject(400, "Enter a valid quote")
    else if categoryId.None? then Reject(400, "Select a valid category")
    else Pass
  }

  /** The row a quote request writes: omitted `hyperLink` and `imageUrl`
      default to null. */
  function QuoteRow(text: string, categoryId: Id, hyperLink: Option<string>, imageUrl: Option<string>): (r: Quote)
    ensures r.text == text && r.categoryId == categoryId
    ensures hyperLink.None? ==> r.hyperLink.None?
    ensures imageUrl.None? ==> r.imageUrl.None?
  {
    Quote(text, hyperLink, categoryId, imageUrl)
  }

  /** `addQuote`: the checks, then an insert that the ORM refuses when the
      category does not exist. */
  method AddQuote(db: Db, text: string, categoryId: Option<Id>, hyperLink: Option<string>, imageUrl: Option<string>)
    returns (reply: Reply<Id>)
    requires db.Valid()
    modifies db
    ensures db.Valid()
    ensures QuoteCheck(text, categoryId).Reject? ==>
      reply == Err(QuoteCheck(text, categoryId).code, QuoteCheck(text, categoryId).message)
      && db.Snapshot() == old(db.Snapshot())
    ensures QuoteCheck(text, categoryId) == Pass && categoryId.value !in old(db.categories) ==>
      reply == Err(500, "Failed to create quote") && db.Snapshot() == old(db.Snapshot())
    ensures QuoteCheck(text, categoryId) == Pass && categoryId.value in old(db.categories) ==>
      && reply == Ok(200, old(db.nextId))
      && db.quotes == old(db.quotes)[old(db.nextId) := QuoteRow(text, categoryId.value, hyperLink, imageUrl)]
      && db.Snapshot() == old(db.Snapshot()).(quotes := db.quotes, nextId := old(db.nextId) + 1)
  {
    var check := QuoteCheck(text, categoryId);
    if check.Reject? {
      return Err(check.code, check.message);
    }
    if categoryId.value !in db.categories {
      return Err(500, "Failed to create quote");
    }
    var id := db.FreshId();
    db.quotes := db.quotes[id := QuoteRow(text, categoryId.value, hyperLink, imageUrl)];
    reply := Ok(200, id);
  }

  /** `updateQuote`: the same checks, then all four columns are overwritten,
      so an omitted link or image resets to null. */
  method UpdateQuote(db: Db, id: Option<Id>, text: string, categoryId: Option<Id>, hyperLink: Option<string>, imageUrl: Option<string>)
    returns (reply: Reply<Quote>)
    requires db.Valid()
    modifies db`quotes
    ensures db.Valid()
    ensures QuoteCheck(text, categoryId).Reject? ==>
      reply == Err(QuoteCheck(text, categoryId).code, QuoteCheck(text, categoryId).message)
      && db.quotes == old(db.quotes)
    ensures QuoteCheck(text, categoryId) == Pass && (id.None? || id.value !in old(db.quotes) || categoryId.value !in db.categories)
      ==> reply == Err(500, "Failed to update quote") && db.quotes == old(db.quotes)
    ensures QuoteCheck(text, categoryId) == Pass && id.Some? && id.value in old(db.quotes) && categoryId.value in db.categories
      ==> reply == Ok(200, QuoteRow(text, categoryId.value, hyperLink, imageUrl))
          && db.quotes == old(db.quotes)[id.value := QuoteRow(text, categoryId.value, hyperLink, imageUrl)]
    ensures reply.Ok? ==>
      && QuoteCheck(text, categoryId) == Pass && id.Some? && id.value in old(db.quotes)
      && reply == Ok(200, QuoteRow(text, categoryId.value, hyperLink, imageUrl))
      && db.quotes == old(db.quotes)[id.value := QuoteRow(text, categoryId.value, hyperLink, imageUrl)]
  {
    var check := QuoteCheck(text, categoryId);
    if check.Reject? {
      return Err(check.code, check.message);
    }
    if id.None? || id.value !in db.quotes || categoryId.value !in db.categories {
      return Err(500, "Failed to update quote");
    }
    var row := QuoteRow(text, categoryId.value, hyperLink, imageUrl);
    db.quotes := db.quotes[id.value := row];
    reply := Ok(200, row);
  }

  /** `deleteQuote`: the id comes from the query string; without one, or with
      an unknown one, the ORM fails. */
  method DeleteQuote(db: Db, id: Option<Id>) returns (reply: Reply<string>)
    requires db.Valid()
    modifies db`quotes
    ensures db.Valid()
    ensures id.None? || id.value !in old(db.quotes) ==>
      reply == Err(500, "Failed to delete quotes") && db.quotes == old(db.quotes)
    ensures id.Some? && id.value in old(db.quotes) ==>
      reply == Ok(200, "Quote deleted successfully") && db.quotes == old(db.quotes) - {id.value}
  {
    if id.None? || id.value !in db.quotes {
      return Err(500, "Failed to delete quotes");
    }
    db.quotes := db.quotes - {id.value};
    reply := Ok(200, "Quote deleted successfully");
  }
}
