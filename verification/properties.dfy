/**
 Properties relating several requests to the item service: what a later
 request observes after an earlier one, and how the operations undo or
 repeat each other.
 */
module Properties {
  import opened Wrappers
  import opened ItemModel
  import opened Handlers

  /** A created item is served back unchanged under its new key. */
  lemma CreateThenGet(s: Store, body: Body, newId: Id)
    requires RowId(newId) && newId !in s
    ensures var c := CreateItem(s, body, newId);
            c.response.Created? ==> GetItem(c.store, newId) == Step(Ok(c.response.row), c.store)
  {
  }

  /** Deleting the item just created restores the table: delete undoes create. */
  lemma CreateThenDelete(s: Store, body: Body, newId: Id)
    requires RowId(newId) && newId !in s
    ensures var c := CreateItem(s, body, newId);
            c.response.Created? ==> DeleteItem(c.store, newId) == Step(Deleted, s)
  {
  }

  /** A second create with a name already taken is refused, whatever key the
      engine would have assigned, and the listing keeps its length. */
  lemma DuplicateCreateRefused(s: Store, first: Body, second: Body, id1: Id, id2: Id)
    requires RowId(id1) && id1 !in s
    requires CreateItem(s, first, id1).response.Created?
    requires RowId(id2) && id2 !in CreateItem(s, first, id1).store
    requires second.name == first.name
    ensures var s1 := CreateItem(s, first, id1).store;
            && CreateItem(s1, second, id2) == Step(BadRequest(CreateConflict), s1)
            && |ListItems(s1).response.rows| == |s| + 1
  {
  }

  /** Two creates with distinct fresh names each add one row to the listing. */
  lemma TwoCreatesListTwoMore(s: Store, a: Body, b: Body, id1: Id, id2: Id)
    requires RowId(id1) && RowId(id2)
    requires id1 !in s && id2 !in s && id1 != id2
    requires Truthy(a.name) && Truthy(b.name) && a.name != b.name
    requires !NameHeld(s, a.name.text) && !NameHeld(s, b.name.text)
    ensures var s1 := CreateItem(s, a, id1).store;
            var s2 := CreateItem(s1, b, id2).store;
            |ListItems(s2).response.rows| == |s| + 2
  {
  }

  /** A body carrying only a description changes the description and keeps
      the name; the write cannot conflict in a valid table. */
  lemma UpdateDescriptionKeepsName(s: Store, id: Id, d: string)
    requires Valid(s) && id in s
    ensures var u := UpdateItem(s, id, Body(Absent, Text(d)));
            && u.response == Ok(Row(id, s[id].name, Some(d)))
            && GetItem(u.store, id).response == u.response
  {
  }

  /** An empty name is ignored rather than refused, while an empty
      description overwrites the stored one. */
  lemma UpdateEmptyNameIgnored(s: Store, id: Id)
    requires Valid(s) && id in s
    ensures UpdateItem(s, id, Body(Text(""), Text(""))).response == Ok(Row(id, s[id].name, Some("")))
  {
  }

  /** An explicit `null` description on update leaves the stored one alone,
      unlike on create, where it is stored as NULL. */
  lemma UpdateNullDescriptionIgnored(s: Store, id: Id, body: Body)
    requires Valid(s) && id in s && body.description.Null?
    ensures var u := UpdateItem(s, id, body);
            u.response.Ok? ==> u.response.row.description == s[id].description
  {
  }

  /** Re-supplying the item's own name is not a conflict. */
  lemma UpdateOwnNameAccepted(s: Store, id: Id, body: Body)
    requires Valid(s) && id in s && body.name == Text(s[id].name)
    ensures UpdateItem(s, id, body).response.Ok?
  {
  }

  /** Repeating a successful update changes nothing more and answers the same. */
  lemma UpdateIdempotent(s: Store, id: Id, body: Body)
    ensures var u := UpdateItem(s, id, body);
            u.response.Ok? ==> UpdateItem(u.store, id, body) == u
  {
  }

  /** After a delete the key is gone: a later get, update or delete of it is
      answered not found. */
  lemma DeleteThenNotFound(s: Store, id: Id, body: Body)
    requires id in s
    ensures var t := DeleteItem(s, id).store;
            && GetItem(t, id).response == NotFound
            && UpdateItem(t, id, body) == Step(NotFound, t)
            && DeleteItem(t, id) == Step(NotFound, t)
  {
  }

  /** The listing holds exactly the rows that get serves. */
  lemma ListAgreesWithGet(s: Store, row: Row)
    ensures row in ListItems(s).response.rows <==> GetItem(s, row.id).response == Ok(row)
  {
  }

  /** A path key no rowid can equal (zero or below; Flask's integer route
      converter does not even match a sign) finds nothing in a valid table. */
  lemma NonPositiveIdNotFound(s: Store, id: Id, body: Body)
    requires Valid(s) && id <= 0
    ensures GetItem(s, id).response == NotFound
    ensures UpdateItem(s, id, body) == Step(NotFound, s)
    ensures DeleteItem(s, id) == Step(NotFound, s)
  {
  }
}
