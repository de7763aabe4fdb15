/**
 The storage engine's effect on the `Item` table, as the handlers see it:
 a write followed by `db.session.commit()` either lands or, when it would
 break the unique constraint on `name`, raises the integrity error the
 handlers catch and roll back; a delete followed by a commit always lands.
 */
module Storage {
  import opened Wrappers
  import opened ItemModel

  /** Writes `item` under `id` (an insert when `id` is new, an update of that
      row otherwise) and commits. `None` is the integrity error: the table is
      then whatever it was before, since the handler rolls back. */
  function Write(s: Store, id: Id, item: Item): (r: Option<Store>)
    ensures r.None? <==> NameHeldByOther(s, item.name, id)
    ensures r.Some? ==> r.value.Keys == s.Keys + {id} && r.value[id] == item
    ensures r.Some? ==> OnlyTouches(s, r.value, id)
    ensures r.Some? && UniqueNames(s) ==> UniqueNames(r.value)
  {
    if NameHeldByOther(s, item.name, id) then None else Some(s[id := item])
  }

  /** Deletes the row keyed `id` and commits. */
  function Remove(s: Store, id: Id): (s': Store)
    ensures s'.Keys == s.Keys - {id}
    ensures OnlyTouches(s, s', id)
    ensures Valid(s) ==> Valid(s')
  {
    s - {id}
  }
}
