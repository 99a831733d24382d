/** The newsletter routes: one subscription per email address. The schema
    trims and lower-cases the address, on documents and on query filters
    alike, and keeps a unique index on it. */
module Newsletters {
  import opened Common
  import opened Http
  import opened Tables
  import Listing

  datatype Subscription = Subscription(id: Id, email: string, createdAt: int)

  function IdOf(s: Subscription): Id
  {
    s.id
  }

  function EmailOf(s: Subscription): string
  {
    s.email
  }

  function CreatedAtOf(s: Subscription): int
  {
    s.createdAt
  }

  const EmailRequiredMessage: string := "Email is required"
  const AlreadySubscribedMessage: string := "Email already subscribed"
  const DeletedMessage: string := "Newsletter subscription deleted successfully"

  /** Why `save()` rejects a subscription: the `required` validator (an empty
      address after trimming), or the unique index (error code 11000). */
  datatype SaveError = RequiredMissing | DuplicateKey

  /** Some subscription already holds the stored form `email`. */
  predicate HasEmail(rows: seq<Subscription>, email: string)
  {
    exists j :: 0 <= j < |rows| && rows[j].email == email
  }

  /** The answer to a save: 201 with the document, and from the catch block
      400 "Email already subscribed" for a duplicate key, else 500. */
  function SaveReply(saved: Result<Subscription, SaveError>): (reply: Reply<Subscription>)
    ensures saved.Success? <==> reply.Created?
    ensures saved == Failure(DuplicateKey) <==> reply == BadRequest(AlreadySubscribedMessage)
    ensures saved == Failure(RequiredMissing) <==> reply.ServerError?
  {
    match saved
    case Success(doc) => Created(doc)
    case Failure(DuplicateKey) => BadRequest(AlreadySubscribedMessage)
    case Failure(RequiredMissing) => ServerError(ValidationFault(["email"]))
  }

  /** What the schema can store: a trimmed, lower-cased, non-empty address. */
  predicate StoredForm(email: string)
  {
    email != "" && Normalize(email) == email
  }

  /** Every id is below the counter; every stored address is in stored
      form and non-empty; no id and no address occurs twice. */
  ghost predicate Consistent(rows: seq<Subscription>, nextId: Id)
  {
    && (forall j :: 0 <= j < |rows| ==> rows[j].id < nextId)
    && (forall j :: 0 <= j < |rows| ==> StoredForm(rows[j].email))
    && KeysDistinct(rows, IdOf)
    && KeysDistinct(rows, EmailOf)
  }

  /** Appending a subscription that takes the counter's id and a stored
      address nobody holds keeps the table consistent. */
  lemma AppendKeepsConsistent(rows: seq<Subscription>, nextId: Id, doc: Subscription)
    requires Consistent(rows, nextId) && doc.id == nextId
    requires StoredForm(doc.email)
    requires !HasEmail(rows, doc.email)
    ensures Consistent(rows + [doc], nextId + 1)
  {
    AppendKeepsDistinct(rows, IdOf, doc);
    AppendKeepsDistinct(rows, EmailOf, doc);
  }

  /** Cutting out one subscription keeps the table consistent. */
  lemma RemoveKeepsConsistent(rows: seq<Subscription>, nextId: Id, i: nat)
    requires Consistent(rows, nextId) && i < |rows|
    ensures Consistent(rows[..i] + rows[i + 1..], nextId)
  {
    RemoveAtKeepsDistinct(rows, IdOf, i);
    RemoveAtKeepsDistinct(rows, EmailOf, i);
    var r := rows[..i] + rows[i + 1..];
    forall j | 0 <= j < |r|
      ensures r[j].id < nextId && StoredForm(r[j].email)
    {
      var k := if j < i then j else j + 1;
      assert r[j] == rows[k];
    }
  }

  /** Ids are distinct, so deleting by the id found at position i removes
      exactly that subscription. */
  lemma DeleteFound(rows: seq<Subscription>, nextId: Id, i: nat)
    requires Consistent(rows, nextId) && i < |rows|
    ensures Without(rows, IdOf, rows[i].id) == rows[..i] + rows[i + 1..]
  {
    KeyOnlyAt(rows, IdOf, i);
    WithoutAt(rows, IdOf, rows[i].id, i);
  }

  class NewsletterTable {
    /** The subscription collection, in insertion order. */
    var rows: seq<Subscription>
    /** The next fresh id. */
    var nextId: Id

    /** Ids are fresh and distinct; every stored address is in stored form,
        non-empty, and held by one subscription only. */
    ghost predicate Valid()
      reads this
    {
      Consistent(rows, nextId)
    }

    constructor ()
      ensures Valid() && rows == [] && nextId == 0
    {
      rows := [];
      nextId := 0;
    }

    /** GET /: every subscription, newest first. */
    method List() returns (r: seq<Subscription>)
      ensures multiset(r) == multiset(rows)
      ensures Listing.NewestFirst(r, CreatedAtOf)
    {
      r := Listing.SortNewestFirst(rows, CreatedAtOf);
    }

    /** `new Newsletter({ email }).save()`: the setter stores the address
        trimmed and lower-cased, the validator rejects an empty one, the
        unique index rejects one already held. */
    method Save(email: string, now: int) returns (saved: Result<Subscription, SaveError>)
      requires Valid()
      modifies this
      ensures Valid()
      ensures Normalize(email) == "" ==> saved == Failure(RequiredMissing) && rows == old(rows) && nextId == old(nextId)
      ensures Normalize(email) != "" && HasEmail(old(rows), Normalize(email)) ==>
        saved == Failure(DuplicateKey) && rows == old(rows) && nextId == old(nextId)
      ensures Normalize(email) != "" && !HasEmail(old(rows), Normalize(email)) ==>
        saved == Success(Subscription(old(nextId), Normalize(email), now)) && rows == old(rows) + [saved.value]
        && nextId == old(nextId) + 1
    {
      var stored := Normalize(email);
      if stored == "" {
        return Failure(RequiredMissing);
      }
      var holder := FindFirst(rows, EmailOf, stored);
      if holder >= 0 {
        return Failure(DuplicateKey);
      }
      NormalizeIdempotent(email);
      var doc := Subscription(nextId, stored, now);
      AppendKeepsConsistent(rows, nextId, doc);
      rows := rows + [doc];
      nextId := nextId + 1;
      return Success(doc);
    }

    /** POST /: a falsy address is refused, an address whose stored form is
        already subscribed is refused (by the explicit lookup, or by the
        unique index), otherwise exactly one subscription is appended. */
    method Subscribe(email: Option<string>, now: int) returns (reply: Reply<Subscription>)
      requires Valid()
      modifies this
      ensures Valid()
      ensures !Truthy(email) ==> reply == BadRequest(EmailRequiredMessage) && rows == old(rows) && nextId == old(nextId)
      ensures Truthy(email) && HasEmail(old(rows), Normalize(email.value)) ==>
        reply == BadRequest(AlreadySubscribedMessage) && rows == old(rows) && nextId == old(nextId)
      ensures Truthy(email) && !HasEmail(old(rows), Normalize(email.value)) ==>
        if Normalize(email.value) == "" then
          reply.ServerError? && rows == old(rows) && nextId == old(nextId)
        else
          reply == Created(Subscription(old(nextId), Normalize(email.value), now))
          && rows == old(rows) + [reply.value] && nextId == old(nextId) + 1
    {
      if !Truthy(email) {
        return BadRequest(EmailRequiredMessage);
      }
      var existing := FindFirst(rows, EmailOf, Normalize(email.value));
      if existing >= 0 {
        return BadRequest(AlreadySubscribedMessage);
      }
      var saved := Save(email.value, now);
      return SaveReply(saved);
    }

    /** DELETE /:id: removes the subscription with that id, if any, and
        reports success either way. */
    method Delete(id: Id) returns (reply: Reply<string>)
      requires Valid()
      modifies this
      ensures Valid()
      ensures reply == Ok(DeletedMessage)
      ensures rows == Without(old(rows), IdOf, id)
    {
      var i := FindFirst(rows, IdOf, id);
      if i >= 0 {
        DeleteFound(rows, nextId, i);
        RemoveKeepsConsistent(rows, nextId, i);
        rows := rows[..i] + rows[i + 1..];
      } else {
        WithoutAbsent(rows, IdOf, id);
      }
      return Ok(DeletedMessage);
    }
  }
}
