/**
 The item service as a state machine: a request is routed to its handler,
 and a run is a sequence of requests, each applied to the table the previous
 one left behind.
 */
module Service {
  import opened Wrappers
  import opened ItemModel
  import opened Handlers

  /** A request to one of the five routes. A create carries the key the
      storage engine assigns to the row it inserts. */
  datatype Request =
    | Create(body: Body, newId: Id)
    | List
    | Get(id: Id)
    | Update(id: Id, body: Body)
    | Delete(id: Id)

  /** The engine only ever assigns a rowid no row holds. */
  predicate Admissible(s: Store, req: Request)
  {
    req.Create? ==> RowId(req.newId) && req.newId !in s
  }

  /** The route table. */
  function Handle(s: Store, req: Request): Step
    requires Admissible(s, req)
  {
    match req
    case Create(body, newId) => CreateItem(s, body, newId)
    case List => ListItems(s)
    case Get(id) => GetItem(s, id)
    case Update(id, body) => UpdateItem(s, id, body)
    case Delete(id) => DeleteItem(s, id)
  }

  /** The one key a request may touch; a listing touches none. */
  function Target(req: Request): Option<Id>
  {
    match req
    case Create(_, newId) => Some(newId)
    case List => None
    case Get(id) => Some(id)
    case Update(id, _) => Some(id)
    case Delete(id) => Some(id)
  }

  /** An error response: validation, conflict or unknown key. */
  predicate Failed(r: Response)
  {
    r.BadRequest? || r.NotFound?
  }

  /** Every request changes the table under at most its target key, and a
      request answered with an error changes nothing. */
  lemma HandleFrame(s: Store, req: Request)
    requires Admissible(s, req)
    ensures Failed(Handle(s, req).response) ==> Handle(s, req).store == s
    ensures req.List? || req.Get? ==> Handle(s, req).store == s
    ensures forall k :: Some(k) != Target(req) ==>
              (k in s <==> k in Handle(s, req).store) &&
              (k in s ==> Handle(s, req).store[k] == s[k])
  {
  }

  /** Every request keeps names unique and non-empty and every key a
      positive rowid. */
  lemma HandlePreservesValid(s: Store, req: Request)
    requires Valid(s) && Admissible(s, req)
    ensures Valid(Handle(s, req).store)
  {
  }

  /** Every request of `reqs` is admissible in the table it meets. */
  predicate AdmissibleRun(s: Store, reqs: seq<Request>)
    decreases |reqs|
  {
    |reqs| == 0 || (Admissible(s, reqs[0]) && AdmissibleRun(Handle(s, reqs[0]).store, reqs[1..]))
  }

  /** The table after serving `reqs` one after another, starting from `s`. */
  function Run(s: Store, reqs: seq<Request>): Store
    requires AdmissibleRun(s, reqs)
    decreases |reqs|
  {
    if |reqs| == 0 then s else Run(Handle(s, reqs[0]).store, reqs[1..])
  }

  /** Whatever the service is asked, starting from a table that satisfies the
      invariant (the empty one does), names stay unique and non-empty and
      every key stays a positive rowid. */
  lemma {:induction false} RunPreservesValid(s: Store, reqs: seq<Request>)
    requires Valid(s) && AdmissibleRun(s, reqs)
    ensures Valid(Run(s, reqs))
    decreases |reqs|
  {
    if |reqs| > 0 {
      HandlePreservesValid(s, reqs[0]);
      RunPreservesValid(Handle(s, reqs[0]).store, reqs[1..]);
    }
  }
}
