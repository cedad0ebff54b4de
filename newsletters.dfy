/** Newsletter sign-ups: a table of e-mail addresses, unique per address. */
module Newsletters {
  import opened Wrappers
  import opened Store

  /** `createNewsletter`: look the address up and insert it only when it is
      new. Without an address the unique lookup itself fails. */
  method CreateNewsletter(db: Db, email: Option<string>) returns (reply: Reply<Id>)
    requires db.Valid()
    modifies db
    ensures db.Valid()
    ensures email.None? ==> reply == Err(500, "Failed to create newsletter") && db.Snapshot() == old(db.Snapshot())
    ensures email.Some? && EmailTaken(old(db.newsletters), email.value) ==>
      reply == Err(400, "Email is already exist!") && db.Snapshot() == old(db.Snapshot())
    ensures email.Some? && !EmailTaken(old(db.newsletters), email.value) ==>
      && reply == Ok(201, old(db.nextId))
      && db.newsletters == old(db.newsletters)[old(db.nextId) := Newsletter(email.value)]
      && db.Snapshot() == old(db.Snapshot()).(newsletters := db.newsletters, nextId := old(db.nextId) + 1)
  {
    if email.None? {
      return Err(500, "Failed to create newsletter");
    }
    if EmailTaken(db.newsletters, email.value) {
      return Err(400, "Email is already exist!");
    }
    var id := db.FreshId();
    db.newsletters := db.newsletters[id := Newsletter(email.value)];
    reply := Ok(201, id);
  }

  /** `deleteNewsletter`: removes exactly the row with that id; an unknown id
      makes the ORM fail. */
  method DeleteNewsletter(db: Db, id: Id) returns (reply: Reply<string>)
    requires db.Valid()
    modifies db`newsletters
    ensures db.Valid()
    ensures id !in old(db.newsletters) ==> reply == Err(500, "Failed to delete newsletter") && db.newsletters == old(db.newsletters)
    ensures id in old(db.newsletters) ==>
      reply == Ok(200, "Newsletter deleted successfully") && db.newsletters == old(db.newsletters) - {id}
  {
    if id !in db.newsletters {
      return Err(500, "Failed to delete newsletter");
    }
    db.newsletters := db.newsletters - {id};
    reply := Ok(200, "Newsletter deleted successfully");
  }

  /** The address check is the only reason to turn a sign-up away: any string
      is accepted as long as no row holds it, and a table free of duplicates
      stays so after the insert. */
  lemma {:induction false} InsertKeepsEmailsUnique(newsletters: map<Id, Newsletter>, id: Id, email: string)
    requires UniqueEmails(newsletters) && id !in newsletters
    requires !EmailTaken(newsletters, email)
    ensures UniqueEmails(newsletters[id := Newsletter(email)])
    ensures EmailTaken(newsletters[id := Newsletter(email)], email)
  {
    var n := newsletters[id := Newsletter(email)];
    assert n[id].email == email;
  }
}
