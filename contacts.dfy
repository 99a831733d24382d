/** The contact-form routes: submissions are validated, stored through the
    Contact schema's setters (every field trimmed, the email also lower-cased)
    and deleted by id. */
module Contacts {
  import opened Common
  import opened Http
  import opened Tables
  import Listing

  datatype Contact = Contact(id: Id, fullName: string, email: string, mobile: string, city: string,
                             message: string, createdAt: int)

  function IdOf(c: Contact): Id
  {
    c.id
  }

  function CreatedAtOf(c: Contact): int
  {
    c.createdAt
  }

  const FieldsRequiredMessage: string := "Full name, email, mobile, and city are required"
  const DeletedMessage: string := "Contact submission deleted successfully"

  /** The document `new Contact({...})` builds, after the schema's setters. */
  function Document(id: Id, fullName: string, email: string, mobile: string, city: string,
                    message: string, now: int): Contact
  {
    Contact(id, Trim(fullName), Normalize(email), Trim(mobile), Trim(city), Trim(message), now)
  }

  /** The `required` paths the validators reject on save (empty after the
      setters), in schema order; `message` is optional. */
  function MissingPaths(c: Contact): (paths: seq<string>)
    ensures paths == [] <==> c.fullName != "" && c.email != "" && c.mobile != "" && c.city != ""
    ensures "message" !in paths
  {
    (if c.fullName == "" then ["fullName"] else [])
    + (if c.email == "" then ["email"] else [])
    + (if c.mobile == "" then ["mobile"] else [])
    + (if c.city == "" then ["city"] else [])
  }

  /** Every id is below the counter and no id occurs twice. */
  ghost predicate Consistent(rows: seq<Contact>, nextId: Id)
  {
    && (forall j :: 0 <= j < |rows| ==> rows[j].id < nextId)
    && KeysDistinct(rows, IdOf)
  }

  /** Appending a document that takes the counter's id, then advancing the
      counter, keeps the table consistent. */
  lemma AppendKeepsConsistent(rows: seq<Contact>, nextId: Id, doc: Contact)
    requires Consistent(rows, nextId) && doc.id == nextId
    ensures Consistent(rows + [doc], nextId + 1)
  {
    AppendKeepsDistinct(rows, IdOf, doc);
  }

  /** Cutting out one submission keeps the table consistent. */
  lemma RemoveKeepsConsistent(rows: seq<Contact>, nextId: Id, i: nat)
    requires Consistent(rows, nextId) && i < |rows|
    ensures Consistent(rows[..i] + rows[i + 1..], nextId)
  {
    RemoveAtKeepsDistinct(rows, IdOf, i);
    var r := rows[..i] + rows[i + 1..];
    forall j | 0 <= j < |r|
      ensures r[j].id < nextId
    {
      var k := if j < i then j else j + 1;
      assert r[j] == rows[k];
    }
  }

  /** Ids are distinct, so deleting by the id found at position i removes
      exactly that submission. */
  lemma DeleteFound(rows: seq<Contact>, nextId: Id, i: nat)
    requires Consistent(rows, nextId) && i < |rows|
    ensures Without(rows, IdOf, rows[i].id) == rows[..i] + rows[i + 1..]
  {
    KeyOnlyAt(rows, IdOf, i);
    WithoutAt(rows, IdOf, rows[i].id, i);
  }

  class ContactTable {
    /** The contact collection, in insertion order. */
    var rows: seq<Contact>
    /** The next fresh id. */
    var nextId: Id

    ghost predicate Valid()
      reads this
    {
      Consistent(rows, nextId)
    }

    constructor ()
      ensures Valid() && rows == [] && nextId == 0
    {
      rows := [];
      nextId := 0;
    }

    /** GET /: every submission, newest first. */
    method List() returns (r: seq<Contact>)
      ensures multiset(r) == multiset(rows)
      ensures Listing.NewestFirst(r, CreatedAtOf)
    {
      r := Listing.SortNewestFirst(rows, CreatedAtOf);
    }

    /** POST /. Four fields must be truthy; a missing or empty message is
        stored as "". The document is validated after the setters ran, so a
        field made only of blanks passes the route's check but fails the
        save with a 500. On success exactly one document is appended. */
    method Create(fullName: Option<string>, email: Option<string>, mobile: Option<string>,
                  city: Option<string>, message: Option<string>, now: int) returns (reply: Reply<Contact>)
      requires Valid()
      modifies this
      ensures Valid()
      ensures !(Truthy(fullName) && Truthy(email) && Truthy(mobile) && Truthy(city)) ==>
        reply == BadRequest(FieldsRequiredMessage) && rows == old(rows) && nextId == old(nextId)
      ensures Truthy(fullName) && Truthy(email) && Truthy(mobile) && Truthy(city) ==>
        var doc := Document(old(nextId), fullName.value, email.value, mobile.value, city.value,
                            if Truthy(message) then message.value else "", now);
        if MissingPaths(doc) == [] then
          reply == Created(doc) && rows == old(rows) + [doc] && nextId == old(nextId) + 1
        else
          reply == ServerError(ValidationFault(MissingPaths(doc))) && rows == old(rows) && nextId == old(nextId)
    {
      if !Truthy(fullName) || !Truthy(email) || !Truthy(mobile) || !Truthy(city) {
        return BadRequest(FieldsRequiredMessage);
      }
      var doc := Document(nextId, fullName.value, email.value, mobile.value, city.value,
                          if Truthy(message) then message.value else "", now);
      var missing := MissingPaths(doc);
      if missing != [] {
        return ServerError(ValidationFault(missing));
      }
      AppendKeepsConsistent(rows, nextId, doc);
      rows := rows + [doc];
      nextId := nextId + 1;
      return Created(doc);
    }

    /** DELETE /:id: removes the submission with that id, if any, and
        reports success either way. */
    method Delete(id: Id) returns (reply: Reply<string>)
      requires Valid()
      modifies this
      ensures Valid()
      ensures reply == Ok(DeletedMessage)
      ensures rows == Without(old(rows), IdOf, id)
    {
      var i := FindFirst(rows, IdOf, id);
      if i >= 0 {
        DeleteFound(rows, nextId, i);
        RemoveKeepsConsistent(rows, nextId, i);
        rows := rows[..i] + rows[i + 1..];
      } else {
        WithoutAbsent(rows, IdOf, id);
      }
      return Ok(DeletedMessage);
    }
  }
}
