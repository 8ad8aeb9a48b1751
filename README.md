# User management service: a Dafny model of its data-access core

The service stores one entity, a `User` row in a `users` table. It has create, list, get,
update and delete operations. An upload can be saved as the user's profile picture. In
`backend/`, a response shows the picture's stored path as an absolute URL; `Innobot/`'s
`UserOut` has no such validator and returns the stored path as is. The source holds two near-identical
trees, `backend/` and `Innobot/`. This project models, from both trees:

- the row shape and the table's constraints in `models.dfy` (module `Models`). These are a
  primary key, a NOT NULL and UNIQUE `email`, and ids drawn from an increasing key sequence.
  The module also holds the pure meaning of the queries and row edits: the offset/limit
  window, lookup by id, overwrite of a row, and removal of a row.
- the data-access layer as a class per tree. `BackendCrud.UserStore` is in `backend_crud.dfy`
  and `InnobotCrud.UserStore` is in `innobot_crud.dfy`. Each holds the rows and the key
  sequence. `CreateUser`, `UpdateUser` and `DeleteUser` change them in place and are proved
  against the `Models` functions. `GetUsers` and `GetUser` are read-only functions. A failure
  is a `Result`/`Outcome` value, and the table is left as it was.
- the request schemas. In `backend/`, `UserCreate` carries `profile_picture = None`, so
  `update_user`'s `setattr` loop clears the stored picture unless a new upload is given. In
  `Innobot/` the schema has no such field, so the picture is kept. The `setattr` loop is
  modelled as a loop over the `(field, value)` pairs of `.dict().items()` (`Schemas.DictItems`,
  `InnobotSchemas.DictItems`).
- `UserOut.add_base_url` of `backend/` in `schemas.dfy` (`Schemas.AddBaseUrl`); `Innobot/`'s `UserOut` passes the stored path through unchanged.
- the file-name derivation of `save_profile_picture` in `uploads.dfy` (module `Uploads`).
  This covers `os.path.splitext`, the random token followed by the extension, and
  `os.path.join("uploads", ...)`. It is parameterised by the host's path flavour, POSIX or
  Windows. `backend/app/utils.py` and `Innobot/app/utils.py` contain the same derivation, so
  one module models both.

How the model reads the source at its edges:

- `update_user` does not check that the id exists. It calls `setattr` on `None`, which
  raises. `delete_user` calls `db.delete(None)`, which also raises. The model returns
  `Failure(NotFound)` / `Fail(NotFound)` and leaves the table unchanged. The not-found check
  runs before the duplicate-email check, because the source raises on the missing row before
  it commits.
- In `backend/`, an update with no upload sets `profile_picture` to the request's value.
  The endpoints always build the request with `None`, so the picture is cleared. Only
  `Innobot/` leaves the picture untouched when there is no upload, which is the evident design
  intent.
- `name` is only NOT NULL in the schema, so the data-access layer accepts an empty name. The
  endpoints' required `name: str = Form(...)` field (backend/app/main.py:37, 88) turns an empty
  value away before it gets there, which is outside this model. `email` is an opaque
  string. No address-syntax check is modelled; that validation is pydantic's `EmailStr`,
  which is not part of this model.
- `GET /users/` has no ORDER BY, so the order of its rows is the engine's. The model still has
  to pick one: its rows are a sequence in which a create appends, an update keeps the row at its
  position and a delete keeps the others in their relative order. The contracts of the
  create, update and delete methods state that order, which the engine does not promise; see
  "## Left out".

## Model

| member | source | states |
|---|---|---|
| `Models.SetAttr` | backend/app/crud.py:72 | one `setattr` never changes the row's key; which column it sets is stated with `DictItemsOverwrite` |
| `Models.TableInvariant` | backend/app/models.py:9-11 | the committed-state constraints: keys are unique, emails are unique, and every key lies below the next value of the key sequence, which is at least 1; when they hold, that next value is no row's id |
| `Models.ApplyAll` | backend/app/crud.py:71-72 | assigning `(field, value)` pairs in turn never changes the row's key |
| `Models.NextIdIsFresh` | backend/app/models.py:9 | the next key-sequence value is not the id of any existing row |
| `Models.InsertKeepsInvariant` | backend/app/models.py:9-11 | appending a row under the next key with an untaken email keeps the primary key, the UNIQUE email and the key bound |
| `Models.Window` | backend/app/crud.py:40 | the page has length `min(limit, size - skip)`, or 0 when `skip >= size`; it is empty exactly when `skip >= size` or `limit = 0`; element `i` is row `skip + i` |
| `Models.ConsecutivePages` | backend/app/crud.py:28-40 | the page at `skip` of size `a`, followed by the page at `skip + a` of size `b`, is the page at `skip` of size `a + b` |
| `Models.Lookup` | backend/app/crud.py:54 | there is a result exactly when some row has the id, and the result is a row of the table with that id |
| `Models.LookupAt` | backend/app/models.py:9 | with unique keys, looking up a row's id returns that row |
| `Models.LookupAfterInsert` | backend/app/crud.py:18-25 | after a row is appended under a fresh key, its id finds it and every other id finds what it found before |
| `Models.ReplaceRow` | backend/app/crud.py:70-75 | same length; the row keyed `id` becomes `u` and every other row is unchanged |
| `Models.ReplaceRowLookup` | backend/app/crud.py:70-76 | after the overwrite, the id finds the new row and every other id finds what it found before |
| `Models.ReplaceRowOthers` | backend/app/crud.py:70-76 | overwriting the rows keyed `id` leaves lookups of any other id unchanged |
| `Models.ReplaceKeepsInvariant` | backend/app/models.py:9-11 | overwriting a row with one that keeps its key and takes no other row's email keeps every constraint |
| `Models.RemoveId` | backend/app/crud.py:90-92 | a row is in the result exactly when it is in the table with a different id |
| `Models.RemoveIdLookup` | backend/app/crud.py:90-92 | after the removal the id finds nothing, and every other id finds what it found before |
| `Models.RemoveIdCount` | backend/app/models.py:9 | with unique keys, removing a present id drops exactly one row, and an absent id changes nothing |
| `Models.TailInvariant` | backend/app/models.py:9-11 | the rows after the first keep every constraint, and none shares the first row's id or email |
| `Models.ConsKeepsInvariant` | backend/app/models.py:9-11 | a row whose id and email no other row has can be put in front of a valid table |
| `Models.RemoveKeepsInvariant` | backend/app/models.py:9-15 | removing rows keeps every constraint |
| `Models.ApplyAllSnoc` | backend/app/crud.py:71-72 | one more loop iteration assigns one more pair |
| `Schemas.FromForm` | backend/app/main.py:113 | the request the endpoints build carries no picture; `PictureClearedWithoutUpload` states what an update from it leaves |
| `Schemas.DictItems` | backend/app/crud.py:71 | six pairs, `profile_picture` last with the request's value; what assigning them does is stated in `DictItemsOverwrite` |
| `InnobotSchemas.DictItems` | Innobot/app/crud.py:24 | five pairs, none of them for the picture; what assigning them does is stated in `InnobotSchemas.DictItemsOverwrite` |
| `Schemas.DictItemsOverwrite` | backend/app/schemas.py:5-14 | assigning the six request pairs sets name, email, phone, address, age and picture to the request's values and keeps the id |
| `InnobotSchemas.DictItemsOverwrite` | Innobot/app/schemas.py:5-10 | assigning the five request pairs sets those columns and keeps the id and the stored picture |
| `Schemas.ReplaceBackslashes` | backend/app/schemas.py:36 | same length; every `\` becomes `/`, every other character is unchanged |
| `Schemas.AddBaseUrl` | backend/app/schemas.py:24-38 | `None` and `""` pass through; a value starting with `http` passes through; otherwise the result has length `22 + |value|`, starts with `http://localhost:8000/`, and continues with the value with `\` turned into `/` |
| `Schemas.RewrittenHasNoBackslash` | backend/app/schemas.py:36-37 | a rewritten value contains no backslash |
| `Schemas.TruthyGivesHttp` | backend/app/schemas.py:35-38 | a non-empty value gives a non-empty result starting with `http` |
| `Schemas.AddBaseUrlIdempotent` | backend/app/schemas.py:35-38 | normalising twice equals normalising once |
| `Uploads.LastIndexOf` | backend/app/utils.py:20 | the result is -1 or a position holding one of the characters, and no later position holds one |
| `Uploads.SplitExt` | backend/app/utils.py:20 | root followed by extension is the name; the extension is empty or starts with `.`; it contains no path separator |
| `Uploads.NoDotNoExtension` | backend/app/utils.py:20-21 | a name with no dot in its last component has an empty extension |
| `Uploads.LeadingDotsNoExtension` | backend/app/utils.py:20-21 | a last component of leading dots and then a dot-free rest, such as `.bashrc`, has an empty extension |
| `Uploads.ExtensionFromLastDot` | Innobot/app/utils.py:11 | when a non-dot precedes the last dot of the last component, the extension is everything from that dot on |
| `Uploads.Join` | backend/app/utils.py:22 | the result ends with the second component, and starts with the first unless the second is absolute; the full path built from it is stated in `UploadPath` |
| `Uploads.UploadFileName` | backend/app/utils.py:21 | the file name starts with the token; the rest is the extension, as `FileNameParts` states |
| `Uploads.UploadPath` | backend/app/utils.py:17-27 | the returned path is `uploads`, one separator, the token, then the client file's extension |
| `Uploads.FileNameParts` | Innobot/app/utils.py:11-12 | the file name is the token followed by a suffix of the client's name that is empty or starts with `.`; nothing else of the client's name appears |
| `Uploads.NoExtensionGivesToken` | Innobot/app/utils.py:11-12 | without an extension, the file name is the token alone |
| `Uploads.UploadPathStaysInside` | Innobot/app/utils.py:8-18 | the path starts with `uploads`, has its only separator right after it, and has a file name of at least 32 characters |
| `Uploads.PhotoJpgExample` | Innobot/app/utils.py:11-13 | `photo.jpg` is stored as `uploads/<token>.jpg` |
| `BackendCrud.Overwritten` | backend/app/crud.py:71-74 | the row `update_user` leaves keeps its key and takes a truthy upload path as its picture; the whole row is stated in `OverwrittenFields` |
| `BackendCrud.OverwrittenFields` | backend/app/crud.py:70-74 | the updated row keeps its id and takes the request's five fields; its picture is the upload path if truthy, otherwise the request's `profile_picture` |
| `BackendCrud.PictureClearedWithoutUpload` | backend/app/crud.py:71-74 | an update built from the form, with no truthy upload, leaves the picture `None` |
| `BackendCrud.UserStore.constructor` | backend/app/models.py:5-15 | an empty table whose key sequence starts at 1 |
| `BackendCrud.UserStore.CreateUser` | backend/app/crud.py:18-25 | a taken email fails and changes nothing; otherwise exactly one row is appended, built from the five fields, the path argument and a fresh id, and returned; earlier rows are unchanged |
| `BackendCrud.UserStore.GetUsers` | backend/app/crud.py:28-40 | at most `limit` rows (default 10), the contiguous run of the table from position `skip` (default 0); empty when `skip >= size` or `limit = 0` |
| `BackendCrud.UserStore.GetUser` | backend/app/crud.py:43-54 | the row with the id, or `None` exactly when there is none; reads only |
| `BackendCrud.UserStore.UpdateUser` | backend/app/crud.py:57-76 | an absent id fails with NotFound and changes nothing; an email held by another row fails and changes nothing; otherwise only that row is overwritten per `OverwrittenFields` and returned |
| `BackendCrud.UserStore.DeleteUser` | backend/app/crud.py:79-92 | an absent id fails with NotFound and changes nothing; otherwise exactly the row with the id is removed |
| `BackendCrud.PictureClearedScenario` | backend/app/crud.py:71-74 | a picture stored on create is `None` after an update from the form without an upload |
| `BackendCrud.CreateUpdateDeleteScenario` | backend/tests/test_main.py:24-62 | created, updated to a new email and read back, then deleted, after which the lookup finds nothing |
| `InnobotCrud.Overwritten` | Innobot/app/crud.py:24-27 | the row `update_user` leaves keeps its key and takes a truthy upload path as its picture; the whole row is stated in `OverwrittenFields` |
| `InnobotCrud.OverwrittenFields` | Innobot/app/crud.py:23-27 | the updated row keeps its id and takes the request's five fields; its picture is the upload path if truthy, otherwise the stored one |
| `InnobotCrud.PictureKeptWithoutUpload` | Innobot/app/crud.py:26-27 | with no truthy upload path, the stored picture is kept |
| `InnobotCrud.UserStore.constructor` | Innobot/app/main.py:8 | an empty table whose key sequence starts at 1 |
| `InnobotCrud.UserStore.CreateUser` | Innobot/app/crud.py:6-11 | a taken email fails and changes nothing; otherwise exactly one row is appended, built from the five fields, the path argument and a fresh id, and returned |
| `InnobotCrud.UserStore.GetUsers` | Innobot/app/crud.py:14-15 | at most `limit` rows (default 10), the contiguous run of the table from position `skip` (default 0) |
| `InnobotCrud.UserStore.GetUser` | Innobot/app/crud.py:18-19 | the row with the id, or `None` exactly when there is none |
| `InnobotCrud.UserStore.UpdateUser` | Innobot/app/crud.py:22-29 | an absent id fails with NotFound, a taken email fails, and neither changes anything; otherwise only that row is overwritten: five fields replaced, picture replaced only by a truthy upload path |
| `InnobotCrud.UserStore.DeleteUser` | Innobot/app/crud.py:32-35 | an absent id fails with NotFound and changes nothing; otherwise exactly the row with the id is removed |
| `InnobotCrud.PictureSurvivesUpdateScenario` | Innobot/app/crud.py:22-29 | a picture stored on create is still there after an update without an upload |
| `InnobotCrud.CreateUpdateDeleteScenario` | Innobot/app/crud.py:6-35 | created, updated to a new email and read back, then deleted, after which the lookup finds nothing |

## Left out

- HTTP routing, form binding, CORS, static file serving and the duplicate `GET /users/` registration (`backend/app/main.py`, `Innobot/app/main.py`). Routing is framework behaviour. The only logic there, `save(file) if file else None`, is the `Option` path argument of `CreateUser` and `UpdateUser`.
- Engine and session configuration (`backend/app/database.py`, `Innobot/app/database.py`), and commit, refresh and rollback. Each mutating method stands for one committed transaction; a failure is a result value and leaves the state as it was.
- Concurrency: two creates racing on the same email are settled by the database engine.
- Email syntax validation: `EmailStr` is pydantic code, which is not part of this model. Email is an opaque string.
- Writing the upload to disk: `os.makedirs`, `open` and `copyfileobj` are I/O and are not modelled. The random token from `uuid4()` is a parameter, required to be 32 lower-case hex digits.
- Uploads.Join: it models `os.path.join` for two components without Windows drive letters or UNC prefixes. The second component here always starts with a hex digit, so it never has a drive.
- BackendCrud.UserStore.GetUsers: `skip` and `limit` are natural numbers. For a negative value the engine decides (PostgreSQL, which Innobot/app/database.py configures, rejects it); that is outside this model.
- InnobotCrud.UserStore.GetUsers: the same restriction of `skip` and `limit` to natural numbers.
- Models.Window: the same restriction of `skip` and `limit`. It pages the model's own sequence of rows; that this sequence is in insertion order is a choice of the model (see the create, update and delete lines below), not something the engine guarantees without ORDER BY.
- BackendCrud.UserStore.CreateUser: a create rejected for a duplicate email leaves the key sequence unchanged. PostgreSQL would consume one value; either way, later ids stay fresh.
- InnobotCrud.UserStore.CreateUser: the same simplification of the key sequence on a rejected create.
- BackendCrud.UserStore.CreateUser: its `rows == old(rows) + [r.value]` puts the new row last. With no ORDER BY the engine may list it anywhere; the position is the model's choice.
- InnobotCrud.UserStore.CreateUser: the same choice of putting the new row last.
- BackendCrud.UserStore.UpdateUser: its `ReplaceRow` keeps the updated row at its old position. The engine may list an updated row elsewhere (PostgreSQL writes a new row version); the position is the model's choice.
- InnobotCrud.UserStore.UpdateUser: the same choice of keeping the updated row in place.
- BackendCrud.UserStore.DeleteUser: its `RemoveId` keeps the remaining rows in their relative order, which the engine does not promise either.
- InnobotCrud.UserStore.DeleteUser: the same choice of keeping the remaining rows in order.
- Integer width of `id` and `age` (`Integer` columns): ids and ages are unbounded integers; overflow of the key sequence is not modelled.
- Deleting a user's uploaded file when the user is deleted: the source never does this.
