# Item store of the CRUD service, modelled in Dafny

The CRUD service keeps one table of items. Each row has an integer primary key, a `name` that is unique and not null, and a nullable `description`. Five HTTP routes act on the table: create, list, get, update and delete. This project models the table as an immutable `map<Id, Item>`. Each route is a pure function from the table and the request to a `Step`, which is the response together with the next table. The project proves what the routes promise: the validation, the uniqueness of names, the asymmetric partial update, and the fact that each request changes at most one key.

Modules, following `cicd_project/app.py`:

- `Wrappers`: `Option`, which stands for Python's `None` next to a present value.
- `ItemModel`: the `Item` row and `to_dict`. It also defines the table and its invariant `Valid` (names unique and non-empty, keys positive 64-bit rowids) and the listing `Rows`.
- `Storage`: what a commit does to the table. A write fails with the integrity error exactly when another row holds the name, and the handler then rolls back. A delete always lands.
- `Handlers`: the five route handlers.
- `Service`: the route table (`Handle`), runs of requests, and the frame and invariant lemmas.
- `Properties`: lemmas that relate several requests, for example create then get, create then delete, a repeated update, and delete then get.

Modelling choices:

- A JSON body member is a `Field`: `Absent`, `Null` or `Text(s)`. `data.get` treats a missing member and `null` alike. The only difference is on create, where `data.get("description", "")` stores `""` for a missing description and NULL for an explicit `null`.
- A body that parses to JSON `null` or to an empty object becomes `{}` through `request.get_json() or {}`. The model represents it as the body with both fields `Absent`.
- The truthiness of a name is "a non-empty string".
- The storage engine picks the key of a new row. `CreateItem` takes that key as the parameter `newId` and requires only that it is a rowid the engine can assign (between 1 and 2^63 - 1) and that no row holds it. The model assumes no particular allocation strategy.
- The order of `Item.query.all()` is not fixed by the code. The list response is therefore the set of rows. Keys are distinct, so no row is lost, and the set has exactly one row per stored key.
- The error messages are the source's own strings. The create handler's conflict message ends in a stray `3` (`"item with that name already exists3"`), while the update handler's message does not. The model keeps both strings as written.
- The create route refuses more than a missing name. It also refuses an empty or `null` name (`if not name`). A missing description becomes `""`, not NULL. The model follows the code in both cases.

## Model

| member | source | states |
|---|---|---|
| ItemModel.ToDictInjective | cicd_project/app.py:17-18 | two serialised rows are equal exactly when they come from the same key and the same item, so serialising loses nothing |
| ItemModel.RowsAreStored | cicd_project/app.py:40-43 | a row appears in the listing exactly when the table holds that row under its key |
| ItemModel.RowsCardinality | cicd_project/app.py:40-43 | the listing has exactly as many rows as the table has keys, proved by induction on the table |
| Storage.Write | cicd_project/app.py:32-37 | a committed write raises the integrity error exactly when another row already holds the name. Otherwise the row lands under its key, no other key changes, and unique names stay unique |
| Storage.Remove | cicd_project/app.py:69-71 | deleting removes exactly that key, changes no other key and keeps the invariant |
| Handlers.CreateItem | cicd_project/app.py:24-38 | an absent, null or empty name gives "name is required" and leaves the table unchanged. A name some row already holds gives the conflict error and leaves the table unchanged. Creation succeeds exactly when neither happens: one row is added under the fresh key with the given name, and its description is the given string, `""` when absent or NULL when null. The response is that stored row and nothing else changes |
| Handlers.ListItems | cicd_project/app.py:40-43 | the response holds exactly the stored rows, one per key, and the table is unchanged |
| Handlers.GetItem | cicd_project/app.py:45-48 | a present key is answered with its stored row and an absent key with not found. The table is unchanged |
| Handlers.PatchedIdempotent | cicd_project/app.py:54-59 | applying the same update body to the row it already produced writes that row again unchanged |
| Handlers.UpdateItem | cicd_project/app.py:50-65 | an absent key is answered with not found. In a table with unique names, the update is refused with the conflict error exactly when a non-empty new name is held by another row, and the table is then unchanged. Otherwise the key is kept. The name is replaced only by a non-empty string. The description is replaced by any string, including `""`. The response is the stored row and every other key is unchanged |
| Handlers.DeleteItem | cicd_project/app.py:67-72 | a present key is removed and answered with the deletion message. An absent key is answered with not found and the table is unchanged. No other key changes |
| Service.HandleFrame | cicd_project/app.py:24-72 | every request changes the table at most under its own key. An error response leaves the table unchanged, and so do list and get |
| Service.HandlePreservesValid | cicd_project/app.py:14 | every request keeps names unique and non-empty and every key a positive rowid |
| Service.RunPreservesValid | cicd_project/app.py:14 | after any sequence of requests starting from a valid table (the empty one is valid), names are unique and non-empty and every key is a positive rowid |
| Properties.CreateThenGet | cicd_project/tests/test_crud.py:16-26 | after a successful create, a get of the new key returns the created row |
| Properties.CreateThenDelete | cicd_project/app.py:67-72 | deleting the row just created gives back the table from before the create |
| Properties.DuplicateCreateRefused | cicd_project/app.py:32-37 | a second create with the same name is refused with the conflict error, whatever fresh key it would get, and the listing length stays one more than before the first create |
| Properties.TwoCreatesListTwoMore | cicd_project/tests/test_crud.py:28-35 | two creates with distinct fresh names add exactly two rows to the listing |
| Properties.UpdateDescriptionKeepsName | cicd_project/tests/test_crud.py:37-42 | an update that carries only a description succeeds, keeps the name, stores the new description, and a later get shows it |
| Properties.UpdateEmptyNameIgnored | cicd_project/app.py:54-59 | an empty name on update is ignored, not refused, while an empty description overwrites the stored one |
| Properties.UpdateNullDescriptionIgnored | cicd_project/app.py:55-59 | an explicit null description on update keeps the stored description |
| Properties.UpdateOwnNameAccepted | cicd_project/app.py:56-64 | re-supplying the item's own current name is not a conflict |
| Properties.UpdateIdempotent | cicd_project/app.py:50-65 | repeating a successful update gives the same response and the same table |
| Properties.DeleteThenNotFound | cicd_project/tests/test_crud.py:44-50 | after a delete, a get, an update or a delete of that key is answered with not found |
| Properties.ListAgreesWithGet | cicd_project/app.py:40-48 | a row is listed exactly when a get of its key returns it |
| Properties.NonPositiveIdNotFound | cicd_project/app.py:45-72 | in a valid table, a get, update or delete of a key at or below zero is answered with not found and changes nothing |

## Left out

- Flask routing, the HTTP status codes as numbers, and JSON parsing and serialisation. These are framework plumbing. Each response is one constructor, and the status it stands for is noted on `Response`.
- A missing or empty request body, a body that is not valid JSON, and a non-JSON content type. Flask rejects each of these with a 400 inside `request.get_json()`, before `or {}` is reached.
- A body that parses to a JSON value other than an object or `null`, and names or descriptions that are not strings or `null`. Falsy values such as `[]`, `""`, `0` and `false` become `{}`. Python's truthiness of the other values, and the crashes they cause, are outside the modelled core.
- The database configuration (`DATABASE_URL`), `db.create_all` and the SQLAlchemy session mechanics. Only their effect on the table is modelled, in `Storage`.
- Persistence errors other than the unique-constraint violation. The source does not handle them, and they surface as a server error.
- Handlers.GetItem, Handlers.UpdateItem, Handlers.DeleteItem: do not model path keys at or above 2^63. For such a key the database driver raises an overflow error inside `get_or_404`, and the service answers with a server error. The model answers not found, as for any other absent key.
- How the engine allocates keys and the order in which it returns rows. The code specifies neither.
- The column length limits (120 and 255 characters). The code does not enforce them, and the default SQLite engine does not either.
- Concurrent writers racing on the unique constraint. The storage engine arbitrates between them, not this code.
- Negative keys in a path. Flask's `int` converter does not match them, so the service answers not found before any handler runs. The handlers themselves do not inspect the sign. In a valid table every key is a positive rowid, so a key at or below zero is absent and the handlers answer not found as well (`NonPositiveIdNotFound`). A table outside the invariant could hold such a key, and the handlers would then serve it.
- The greeting and health service. It has only constant endpoints, and its source is not part of this model.
