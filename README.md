# TodoApp backend core in Dafny

This project models the core of the TodoApp backend. That backend is a FastAPI service over one `todos` table, and its core has three layers:

- **The todo store** (`backend/app/crud.py`, with the row of `backend/app/models.py`). `Crud.TodoStore` is a class. It holds the table as a map from id to row, the next value of the id sequence, and a logical clock that stamps `created_at`; no two stored rows share a creation time.
  - Listing, lookup, create, partial update and hard delete are its members. The three writes are methods that change the table in place.
  - The class invariant `Valid()` states the table's column constraints: the primary key is unique and positive, a title fits `String(200)`, and every row is older than the clock.
- **The request and response shapes** (`backend/app/schemas.py`) are datatypes. Every field of `TodoUpdate` is an `Option` that defaults to `None`.
- **The token service** (`backend/app/auth.py`) consists of pure functions. The JSON Web Token library is a parameter `Jwt`:
  - `encode` signs claims.
  - `checkSignature` is the signature and format check of `decode`.
  - The ghost predicate `Sound` states the library's round trip: a token it signs reads back as the claims it signed. Lemmas that need the round trip take `Sound` as a hypothesis.
  - The expiry check of `decode` is modelled explicitly, following PyJWT 2.x with zero leeway: a token is expired once `exp <= now`.
  - The current time is a parameter, in whole seconds.
- **The todo handlers** (`backend/app/routers/todos.py`).
  - `ReadTodo` and the shared `FoundOr404` are functions.
  - The other handlers are methods. Each makes exactly one call on the store and maps its result to 200, 201 or 404 (500 for a database refusal).

On these points the model follows the code as written:

- A title may be empty. The column is only non-null, and no request schema checks the length.
- The `String(200)` column holds at most 200 characters. Excess characters that are all spaces are cut off without an error, following the SQL standard's store rule for character strings, which SQL Server applies. Such a title is stored and returned cut to 200 characters. Any other character beyond position 200 makes the commit fail: the store returns `Failure(TitleTooLong)` and leaves the table unchanged. The handler answers 500 with the plain-text body "Internal Server Error", as the server does for an unhandled exception.
- `Authorization` must start with exactly `Bearer ` (case-sensitive). This is stricter than the case-insensitive scheme name of section 2.1 of RFC 6750.
- The token is everything after the first space, and `split(" ", 1)` is modelled literally. `Auth.BearerSplit` proves that this is the header minus its 7-character prefix.

## Model

| member | source | states |
|---|---|---|
| `Crud.TodoStore.GetTodos` | backend/app/crud.py:40 | The result is a permutation of the stored rows, sorted newest first by `created_at`. Each listed row is the row stored under its id. An empty table gives an empty list. |
| `Crud.InsertNewestFirst` | backend/app/crud.py:40 | Inserting a row into a list gives the list's rows plus exactly that row (as multisets). |
| `Crud.InsertKeepsNewestFirst` | backend/app/crud.py:40 | Inserting into a newest-first list keeps it newest first. |
| `Crud.NewestRowListedFirst` | backend/app/crud.py:40 | In a newest-first list, a row strictly newer than all others is listed first. |
| `Crud.TodoStore.GetTodoById` | backend/app/crud.py:64 | Returns a row exactly when some stored row has id `id`. That row is stored and has id `id`. The function reads the table and changes nothing. |
| `Crud.TodoStore.CreateTodo` | backend/app/crud.py:91-98 | Adds exactly one row: the given title and description, not completed, a fresh id and a creation time newer than every stored row. Returns that row and leaves other rows unchanged. The stored title is the given one cut to 200 characters, losing only trailing spaces. A title with any other character beyond 200 gives `TitleTooLong` and no change. |
| `Crud.Merged` | backend/app/crud.py:128-133 | Each field whose update value is present is overwritten, and each `None` field keeps its prior value. `id` and `created_at` never change. |
| `Crud.TodoStore.UpdateTodo` | backend/app/crud.py:126-136 | On a stored id, the row becomes `Merged(old row, update)` with its title cut to 200 characters, and is returned. Other rows, the id sequence and the clock are unchanged. An absent id gives `None` and no change. A merged title with a character other than a space beyond 200 gives `TitleTooLong` and no change. |
| `Crud.FalsyValuesApplied` | backend/app/crud.py:130-133 | `description=""` and `is_completed=False` are applied, because the guard is `is not None`. |
| `Crud.DescriptionNullOnlyIfNeverSet` | backend/app/crud.py:130-131 | After any series of applied updates, the description is null exactly when it started null and no applied update carried one. No applied update can reset it to null. |
| `Crud.KeyAndTimestampFixed` | backend/app/crud.py:126-135 | No series of updates changes a row's id or `created_at`. |
| `Crud.MergeIdempotent` | backend/app/crud.py:128-133 | Repeating a PUT with the same body gives the same row as sending it once. |
| `Crud.TodoStore.DeleteTodo` | backend/app/crud.py:166-170 | On a stored id, removes exactly that id and returns the row as it was. An absent id gives `None` and no change. Afterwards, lookup of the id gives `None`. |
| `Crud.TodoStore.StoredRowsKeyed` | backend/app/models.py:41 | Primary key: a row is stored exactly when it is the row kept under its own id, so ids are unique. |
| `Crud.TodoStore.StoredRowsValid` | backend/app/models.py:41-42 | Every stored row has a positive id and a title of at most 200 characters, and is older than the store's clock. |
| `Models.StoredTitle` | backend/app/models.py:42 | The stored title fits 200 characters, is a prefix of the given one, equals it when it fits, and for an accepted title leaves out only spaces. |
| `Models.Committed` | backend/app/models.py:42 | A commit changes only the row's title, to its stored form, and changes nothing when the title fits. |
| `Models.TrailingSpacesCut` | backend/app/models.py:42 | A 200-character title followed by spaces is accepted and stored as those 200 characters. One further character other than a space makes it refused. |
| `Crud.EmptyUpdateChangesNothing` | backend/app/schemas.py:70-72 | An update body with all three fields defaulted to `None` leaves the row as it was. |
| `Crud.CompletionOnlyUpdate` | backend/app/schemas.py:66-68 | `TodoUpdate(is_completed=b)` changes only the completion status. |
| `Schemas.ToResponse` | backend/app/schemas.py:74-95 | A `TodoResponse` carries every column: the stored row is read back from it unchanged. |
| `Schemas.ToResponses` | backend/app/routers/todos.py:28 | A serialised list reads back as the same rows in the same order. |
| `Auth.ExpiryOf` | backend/app/auth.py:22-25 | A new token lives for the delta when it is truthy (present and non-zero), otherwise for 60 minutes (3600 seconds). |
| `Auth.ZeroDeltaMeansDefault` | backend/app/auth.py:22-25 | A zero `timedelta` is falsy, so it gives the default 60-minute lifetime, the same as no delta. |
| `Auth.CreateAccessToken` | backend/app/auth.py:20-28 | Under a sound library, the issued token reads back as `{sub: subject, exp: ExpiryOf(delta, now)}`, signed with the service key and HS256. |
| `Auth.VerifyToken` | backend/app/auth.py:31-41 | Succeeds exactly on a token with a valid signature, not expired and carrying `sub`, and returns that `sub`. An expired token gives 401 "Token expired". Every other failure, including a missing `sub`, gives 401 "Invalid token". |
| `Auth.IssueThenVerify` | backend/app/auth.py:20-37 | A freshly issued token verifies to its subject at every time before its expiry. |
| `Auth.IssuedTokenExpires` | backend/app/auth.py:33-39 | From its expiry on, an issued token is refused with 401 "Token expired". |
| `Auth.Login` | backend/app/auth.py:45-50 | Succeeds exactly when username and password are non-empty and equal. On success, it returns `token_type` "bearer" and a token whose `sub` is the username, with the default lifetime. Otherwise it gives 401 "Invalid credentials". |
| `Auth.IndexOf` | backend/app/auth.py:57 | Returns the first position of the separator, or -1 exactly when the separator does not occur. |
| `Auth.SplitOnce` | backend/app/auth.py:57 | `split(sep, 1)` gives the string itself exactly when `sep` does not occur. Otherwise it gives the part before the first `sep` and the rest, which rejoin to the string. |
| `Auth.BearerSplit` | backend/app/auth.py:57 | `split(" ", 1)` of a header starting with "Bearer " gives "Bearer" and the header minus the 7-character prefix. |
| `Auth.RequireAuth` | backend/app/auth.py:53-58 | An absent header, or one not starting with exactly "Bearer ", gives 401 "Missing or invalid Authorization header". Otherwise the result is `VerifyToken` of the header minus the prefix. |
| `Auth.LowerCaseSchemeRefused` | backend/app/auth.py:55 | The scheme comparison is case-sensitive: "bearer ..." is refused. |
| `Auth.LoginThenRequireAuth` | backend/app/auth.py:47-58 | A token from a successful login, presented as "Bearer <token>", is accepted for the username until it expires. |
| `Routes.FoundOr404` | backend/app/routers/todos.py:77-80 | 404 "Todo not found" exactly when the store result is `None`. Otherwise 200 with that row. |
| `Routes.ReadTodos` | backend/app/routers/todos.py:49-50 | 200 with every stored row, newest first, as the store lists them. |
| `Routes.ReadTodo` | backend/app/routers/todos.py:77-80 | 404 exactly when the id is not stored. Otherwise 200 with the stored row. |
| `Routes.CreateTodo` | backend/app/routers/todos.py:82-109 | 201 with the created row, its title cut to 200 characters. The table gains exactly that row, with a fresh id and a creation time newer than every stored row, and the id sequence and clock advance by one. A refused title gives 500 and no change, counters included. |
| `Routes.UpdateTodo` | backend/app/routers/todos.py:139-142 | 404 exactly when the id is not stored. Otherwise 200 with the merged row, its title cut to 200 characters, and the table updated as by the store. A title with a character other than a space beyond 200 gives 500 and no change. The id sequence and clock never change. |
| `Routes.DeleteTodo` | backend/app/routers/todos.py:173-176 | 404 exactly when the id is not stored. Otherwise 200 with the pre-deletion row, and the id is removed. The id sequence and clock never change. |
| `Routes.CreateThenList` | backend/app/routers/todos.py:82-109 | After a successful `POST /`, `GET /` lists the created todo first, since it is newer than every other stored row. |

## Left out

- Database access: the SQL Server connection, the ODBC bootstrap, the engine and session globals, `get_db` and the session lifetime. The table is an in-memory map; `backend/app/database.py` is not part of this model.
- Application wiring: app construction, CORS, the lifespan hook and `create_all`. `backend/app/main.py` is not part of this model. It mounts only the todos router, so the login route is not served and `require_auth` guards no route.
- Transactions and ORM sessions: each store method is one atomic step. Commit, refresh, identity maps and concurrent requests are not modelled.
- Request validation (422) and JSON serialisation belong to the framework. Request bodies arrive already typed.
- Crud.TodoStore.GetTodos: the database's `ORDER BY created_at DESC` is modelled as a scan of the table that inserts each row into a newest-first list. How the database breaks ties between equal timestamps is not modelled; `Valid()` states that stored creation times are distinct.
- Crud.TodoStore.CreateTodo: `created_at` is a logical clock that ticks on every insert, not the server's wall clock. The id sequence is an unbounded counter starting at 1. On SQL Server the id column is a 32-bit `INT IDENTITY`; its exhaustion after 2^31-1 ids, after which every insert fails, is not modelled. On a refused insert the model keeps the counter, while the database may skip that id value. `String(200)` and `Text` map to non-Unicode `VARCHAR` columns, whose substitution of characters outside the database's code page by `?` in title and description is not modelled: the model stores and returns both unchanged.
- Routes.CreateThenList: "listed first" rests on the logical clock and on distinct creation times. In the program `created_at` is the server's `CURRENT_TIMESTAMP` (`server_default=func.now()`), whose resolution is a few milliseconds, so two quick inserts can share a timestamp and the older row may then be listed first.
- Column width: `String(200)` is counted in characters. Byte-length limits of particular collations are not modelled.
- The JWT library's internals: HMAC-SHA-256, base64url and the JSON layout. They are the `Jwt` parameter, and its round trip is the `Sound` hypothesis rather than a proof. A non-string `sub` reads as a missing `sub` (`Claims.sub` is `None`): the library checks `sub` after `exp`, so an expired token with a non-string `sub` gives "Token expired", and an unexpired one gives "Invalid token", as `VerifyToken` does for a missing `sub`.
- Registered claims other than `sub` and `exp`: the time-dependent `nbf` and `iat` checks of `decode` are not modelled, and neither are the `aud` and `iss` checks, which run after the expiry check. The service's own tokens never carry these claims.
- Auth.ExpiryOf: time is whole seconds. The library's truncation of a `datetime` expiry to whole seconds and any leeway are not modelled.
- Header lookup: the case-insensitive header-name matching of the HTTP layer is not modelled. `RequireAuth` receives the header value or `None`.
