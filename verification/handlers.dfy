/**
 The five route handlers of the item service, each a transition on the
 `Item` table: given the table and the request, it yields the response and
 the table after the request.
 */
module Handlers {
  import opened Wrappers
  import opened ItemModel
  import opened Storage

  /** One member of the JSON request body, as `data.get` sees it: missing,
      explicitly `null`, or a string. */
  datatype Field = Absent | Null | Text(text: string)

  /** The request body. A body that parses to JSON `null` or to an empty
      object becomes `{}` (`request.get_json() or {}`), the body with both
      fields absent. */
  datatype Body = Body(name: Field, description: Field)

  /** Python truthiness of a name that is a string or `None`. */
  predicate Truthy(f: Field)
  {
    f.Text? && f.text != ""
  }

  /** What a handler answers: the serialised item (status 201 or 200), the
      list of items, the deletion message, an error (400) or not found (404). */
  datatype Response =
    | Created(row: Row)
    | Ok(row: Row)
    | Listed(rows: set<Row>)
    | Deleted
    | BadRequest(error: string)
    | NotFound

  /** A response together with the table after the request. */
  datatype Step = Step(response: Response, store: Store)

  const NameRequired := "name is required"
  /** The create handler's conflict message, with its trailing "3". */
  const CreateConflict := "item with that name already exists3"
  const UpdateConflict := "item with that name already exists"

  /** `data.get("description", "")`: a missing description becomes the empty
      string, an explicit `null` is stored as NULL. */
  function DescriptionOnCreate(f: Field): Option<string>
  {
    match f
    case Absent => Some("")
    case Null => None
    case Text(d) => Some(d)
  }

  /** `POST /items`. The engine assigns the new row the key `newId`, a
      rowid no row holds yet. */
  function CreateItem(s: Store, body: Body, newId: Id): (r: Step)
    requires RowId(newId) && newId !in s
    ensures r.response.Created? || r.response.BadRequest?
    ensures r.response.BadRequest? ==> r.store == s
    ensures !Truthy(body.name) ==> r.response == BadRequest(NameRequired)
    ensures Truthy(body.name) && NameHeld(s, body.name.text) ==> r.response == BadRequest(CreateConflict)
    ensures r.response.Created? <==> Truthy(body.name) && !NameHeld(s, body.name.text)
    ensures r.response.Created? ==>
              && r.response.row.id == newId
              && r.response.row.name == body.name.text
              && (body.description.Absent? ==> r.response.row.description == Some(""))
              && (body.description.Null? ==> r.response.row.description == None)
              && (body.description.Text? ==> r.response.row.description == Some(body.description.text))
              && Stored(r.store, r.response.row)
              && r.store.Keys == s.Keys + {newId}
              && OnlyTouches(s, r.store, newId)
  {
    if !Truthy(body.name) then
      Step(BadRequest(NameRequired), s)
    else
      var item := Item(body.name.text, DescriptionOnCreate(body.description));
      match Write(s, newId, item)
      case None => Step(BadRequest(CreateConflict), s)
      case Some(s') => Step(Created(ToDict(newId, item)), s')
  }

  /** `GET /items`: every row, in no particular order. */
  function ListItems(s: Store): (r: Step)
    ensures r.store == s
    ensures r.response.Listed?
    ensures forall row :: row in r.response.rows <==> Stored(s, row)
    ensures |r.response.rows| == |s|
  {
    RowsAreStored(s);
    RowsCardinality(s);
    Step(Listed(Rows(s)), s)
  }

  /** `GET /items/<id>`. */
  function GetItem(s: Store, id: Id): (r: Step)
    ensures r.store == s
    ensures r.response.Ok? <==> id in s
    ensures r.response.Ok? ==> r.response.row.id == id && Stored(s, r.response.row)
    ensures !r.response.Ok? ==> r.response == NotFound
  {
    if id in s then Step(Ok(ToDict(id, s[id])), s) else Step(NotFound, s)
  }

  /** The row the update handler writes back: a truthy name replaces the
      stored one, any string description (the empty one included) replaces
      the stored one; everything else is kept. */
  function Patched(item: Item, body: Body): Item
  {
    Item(if Truthy(body.name) then body.name.text else item.name,
         if body.description.Text? then Some(body.description.text) else item.description)
  }

  /** Applying the same update body twice writes the same row as applying
      it once. */
  lemma PatchedIdempotent(item: Item, body: Body)
    ensures Patched(Patched(item, body), body) == Patched(item, body)
  {
  }

  /** `PUT` or `PATCH /items/<id>`. */
  function UpdateItem(s: Store, id: Id, body: Body): (r: Step)
    ensures r.response.Ok? || r.response.BadRequest? || r.response.NotFound?
    ensures r.response.NotFound? <==> id !in s
    ensures !r.response.Ok? ==> r.store == s
    ensures r.response.BadRequest? ==> r.response.error == UpdateConflict
    ensures id in s && UniqueNames(s) ==>
              (r.response.BadRequest? <==> Truthy(body.name) && NameHeldByOther(s, body.name.text, id))
    ensures r.response.Ok? ==>
              && id in s
              && r.response.row.id == id
              && (Truthy(body.name) ==> r.response.row.name == body.name.text)
              && (!Truthy(body.name) ==> r.response.row.name == s[id].name)
              && (body.description.Text? ==> r.response.row.description == Some(body.description.text))
              && (!body.description.Text? ==> r.response.row.description == s[id].description)
              && Stored(r.store, r.response.row)
              && r.store.Keys == s.Keys
              && OnlyTouches(s, r.store, id)
  {
    if id !in s then
      Step(NotFound, s)
    else
      var item := Patched(s[id], body);
      match Write(s, id, item)
      case None => Step(BadRequest(UpdateConflict), s)
      case Some(s') => Step(Ok(ToDict(id, item)), s')
  }

  /** `DELETE /items/<id>`. */
  function DeleteItem(s: Store, id: Id): (r: Step)
    ensures r.response.Deleted? <==> id in s
    ensures !r.response.Deleted? ==> r.response == NotFound && r.store == s
    ensures r.store.Keys == s.Keys - {id}
    ensures OnlyTouches(s, r.store, id)
  {
    if id in s then Step(Deleted, Remove(s, id)) else Step(NotFound, s)
  }
}
