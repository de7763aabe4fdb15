/**
 The `Item` table of the item service: one row per item, keyed by its integer
 primary key, with a unique, non-null `name` column and a nullable
 `description` column. The table is an immutable map from key to row.
 */
module ItemModel {
  import opened Wrappers

  /** Primary-key values. */
  type Id = int

  /** The largest key the storage engine assigns (a signed 64-bit rowid). */
  const MaxRowId: Id := 0x7FFF_FFFF_FFFF_FFFF

  /** The keys the storage engine assigns: positive 64-bit rowids. */
  predicate RowId(id: Id)
  {
    0 < id <= MaxRowId
  }

  /** The non-key columns of one row. */
  datatype Item = Item(name: string, description: Option<string>)

  /** The whole table: primary key to row. */
  type Store = map<Id, Item>

  /** The dictionary `Item.to_dict` builds: a row together with its key. */
  datatype Row = Row(id: Id, name: string, description: Option<string>)

  function ToDict(id: Id, item: Item): Row
  {
    Row(id, item.name, item.description)
  }

  /** Serialising loses nothing: distinct (key, row) pairs give distinct
      dictionaries, so a listing of a table has one entry per key. */
  lemma ToDictInjective(i: Id, a: Item, j: Id, b: Item)
    ensures ToDict(i, a) == ToDict(j, b) <==> i == j && a == b
  {
  }

  /** `row` is exactly what the table holds under `row.id`. */
  predicate Stored(s: Store, row: Row)
  {
    row.id in s && s[row.id] == Item(row.name, row.description)
  }

  /** The unique constraint on the `name` column. */
  predicate UniqueNames(s: Store)
  {
    forall i, j :: i in s && j in s && i != j ==> s[i].name != s[j].name
  }

  /** No stored name is the empty string (the create handler refuses it and
      the update handler ignores it). */
  predicate NamesNonEmpty(s: Store)
  {
    forall i :: i in s ==> s[i].name != ""
  }

  /** Every key is one the storage engine assigns. */
  predicate KeysAreRowIds(s: Store)
  {
    forall i :: i in s ==> RowId(i)
  }

  /** The invariant every reachable table satisfies. */
  predicate Valid(s: Store)
  {
    UniqueNames(s) && NamesNonEmpty(s) && KeysAreRowIds(s)
  }

  /** Some row holds the name `n`. */
  predicate NameHeld(s: Store, n: string)
  {
    exists j :: j in s && s[j].name == n
  }

  /** Some row other than the one keyed `id` holds the name `n`. */
  predicate NameHeldByOther(s: Store, n: string, id: Id)
  {
    exists j :: j in s && j != id && s[j].name == n
  }

  /** Going from `s` to `s'` changed nothing under any key except `id`. */
  ghost predicate OnlyTouches(s: Store, s': Store, id: Id)
  {
    forall k :: k != id ==> (k in s <==> k in s') && (k in s ==> s'[k] == s[k])
  }

  /** Every row of the table, as `Item.query.all()` followed by `to_dict`
      yields them; the engine's row order is not part of the model. */
  function Rows(s: Store): set<Row>
  {
    set k | k in s :: ToDict(k, s[k])
  }

  /** A row is listed exactly when the table holds it. */
  lemma RowsAreStored(s: Store)
    ensures forall row :: row in Rows(s) <==> Stored(s, row)
  {
  }

  /** One listed row per stored key: the listing is as long as the table. */
  lemma {:induction false} RowsCardinality(s: Store)
    ensures |Rows(s)| == |s|
    decreases |s|
  {
    if k :| k in s {
      var t := s - {k};
      assert t.Keys == s.Keys - {k};
      RowsCardinality(t);
      forall row | row in Rows(s)
        ensures row in Rows(t) || row == ToDict(k, s[k])
      {
        var j :| j in s && row == ToDict(j, s[j]);
        if j != k {
          assert j in t;
        }
      }
      assert Rows(s) == Rows(t) + {ToDict(k, s[k])};
      assert ToDict(k, s[k]) !in Rows(t);
    } else {
      assert forall x :: x !in s;
      assert s.Keys == {};
      assert Rows(s) == {};
    }
  }
}
