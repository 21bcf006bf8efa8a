# fastapizero: per-user to-do table and login decision

This project models the core of the `fastapizero` teaching web service. That
core is two routers.

- **To-do router** (`fastapizero/routers/todo.py`). The database session's
  `todos` table becomes the class `TodoTables.TodoTable`. It holds a map from
  todo id to row and an autoincrement counter. `create_todo`, `delete_todo` and
  `patch_todo` are methods that update that state in place. `patch_todo`'s
  `setattr` loop over the sent fields is a `while` loop with its invariant.
  `list_todos` is the pure function `Todos.ListTodos` over the table. It
  selects the caller's rows, applies the optional title, description and state
  filters as a conjunction, and then applies offset and limit.
- **Auth router** (`fastapizero/routers/auth.py`). `login_for_access_token` is
  the pure function `Auth.Login` over a sequence of users. `verify_password`
  and `create_access_token` are defined in `fastapizero/security.py`, which is
  not part of this model. They are therefore function-typed parameters, and
  nothing is assumed about them beyond being pure functions of their
  arguments.

Errors raised as `HTTPException` are modelled as `Err(HttpException(status,
detail))` values that carry the source's status codes and messages. The
authenticated caller (`get_current_user`) is an input: its user id.

Files:
- `wrappers.dfy`: `Option` and `Result`.
- `http.dfy`: the two status codes and the exception value.
- `todos.dfy`: the row type, the lookup, the filters, the scan, the pagination,
  the listing and the patch specification.
- `todo_table.dfy`: the mutable table.
- `auth.dfy`: the login.

## Model

| member | source | states |
|---|---|---|
| `TodoTables.TodoTable.Create` | fastapizero/routers/todo.py:25-40 | The new row gets the next fresh id, which was absent from the table. Title, description and state come from the request body, and the owner is the caller. Only that row is added, and the counter advances by one. |
| `TodoTables.TodoTable.Delete` | fastapizero/routers/todo.py:65-79 | Succeeds iff a row with that id exists and is owned by the caller. Then it returns "Task deleted!" and removes exactly that row. Otherwise it fails with 404 "Task not found!" and leaves the table unchanged. Other users' rows are never touched. |
| `TodoTables.TodoTable.Patch` | fastapizero/routers/todo.py:82-106 | Same not-found rule as delete. On success the row becomes `Patched(old row, body)` and is returned. Every other row is unchanged, including every row of another user. The new row is computed by `ApplyPatch`. |
| `TodoTables.ApplyPatch` | fastapizero/routers/todo.py:99-100 | The `setattr` loop over the sent fields, with its invariant, returns the row as `Patched` describes it. Sent fields are overwritten. Unsent fields, the id and the owner keep their values. |
| `TodoTables.CreateThenDelete` | tests/test_todo.py:154-165 | Creating a row and then deleting it as its owner succeeds and restores the table's rows. |
| `TodoTables.ForeignRowIsUntouchable` | fastapizero/routers/todo.py:65-97 | Another user's delete or patch of a row fails with "Task not found!", and the table stays the same. |
| `Todos.Lookup` | fastapizero/routers/todo.py:67-69 | The owner-scoped `select` behind both "Task not found!" paths (also lines 89-91) finds a row iff the row exists and belongs to the caller, and then it returns that stored row. |
| `Todos.ForeignTodoLooksMissing` | fastapizero/routers/todo.py:67-75 | For a row owned by someone else, the lookup gives the same answer (nothing) as for a table without that row. |
| `Todos.LookupSeesOnlyOwnRows` | fastapizero/routers/todo.py:89-97 | The lookup's answer depends only on the caller's own rows. |
| `Todos.FilterSemantics` | fastapizero/routers/todo.py:55-60 | A `None` or empty filter restricts nothing. An active title or description filter is a substring test on its field. An active state filter is an equality test. |
| `Todos.Contains` | fastapizero/routers/todo.py:56-58 | The `.contains` test holds iff the field can be split as prefix + filter + suffix. |
| `Todos.Matches` | fastapizero/routers/todo.py:55-60 | The truthiness-guarded filter chain: a row matches iff each active title or description filter (`Active`: neither `None` nor `''`) occurs in its field as prefix + filter + suffix, and an active state filter equals the state. |
| `Todos.Scan` | fastapizero/routers/todo.py:53-60 | Returns exactly the rows in the id range that are the caller's and match the query. Each returned row is stored under its own id, and ids strictly increase. |
| `Todos.ScanSeesOnlyOwnRows` | fastapizero/routers/todo.py:53 | Two tables that hold the same rows for a user give that user the same scan. |
| `Todos.Paginate` | fastapizero/routers/todo.py:61 | The result is the contiguous window that starts `offset` rows in, and its length is at most `limit`. The exact length is stated for every case, and `None` means no offset or no limit. |
| `Todos.ListTodos` | fastapizero/routers/todo.py:43-62 | Every listed row is a stored row of the caller that matches all filters. The result size is at most `limit`. Without pagination every matching row of the caller is listed. Ids are listed in increasing order. Which rows a paginated listing holds is stated by `Todos.ListingIsWindow`. |
| `Todos.ListingIsWindow` | fastapizero/routers/todo.py:61 | The paginated listing equals the window of the unpaginated filtered listing that `Paginate` describes: it skips `offset` rows and keeps at most `limit`, with the exact length and contents stated. |
| `Todos.UnfilteredListingIsOwnRows` | fastapizero/routers/todo.py:53-61 | With no filter and no pagination, a row is listed iff it is one of the caller's stored rows. |
| `Todos.FiltersAreConjunctive` | fastapizero/routers/todo.py:55-60 | A row is listed under the combined query iff it is listed under the title filter alone, under the description filter alone and under the state filter alone. |
| `Todos.ListingSeesOnlyOwnRows` | fastapizero/routers/todo.py:53 | The listing, including its pagination, is the same for any two tables with the same next id that agree on the caller's rows. Other users' patches and deletes are therefore invisible to it. Their creates are covered by `Todos.OthersCreateIsInvisible`. |
| `Todos.OthersCreateIsInvisible` | fastapizero/routers/todo.py:31-36 | A row that another user creates under the next id keeps the table well formed and leaves the caller's listing unchanged. |
| `Todos.SentFields` | fastapizero/routers/todo.py:99 | The dump of the patch body lists each sent field exactly once, with the value sent. Each listed field was sent. |
| `Todos.SetAttr` | fastapizero/routers/todo.py:100 | One `setattr` overwrites the named field. Every other field, the id and the owner are kept. |
| `Todos.Patched` | fastapizero/routers/todo.py:99-100 | Every field takes the sent value if one was sent and otherwise keeps its old value. Id and owner never change, and an empty patch is a no-op. |
| `Todos.Overwrite` | fastapizero/routers/todo.py:99-100 | The `setattr` sequence as a recursion: after a run of assignments each field holds the last value assigned to it, or its old value if none was, and id and owner never change. |
| `Todos.SetAttrLoopIsPatch` | fastapizero/routers/todo.py:99-100 | The loop over the sent fields yields exactly `Patched`. |
| `Auth.FindByEmail` | fastapizero/routers/auth.py:27 | Finds a user iff some user has that email. The user found has that email and is the first such user in sequence order, an order the model fixes. |
| `Auth.FindByUniqueEmail` | fastapizero/routers/auth.py:27 | When emails are unique, the lookup returns exactly the user with that email. |
| `Auth.Login` | fastapizero/routers/auth.py:25-37 | Succeeds iff the looked-up user exists and the password verifies against that user's stored hash. Every failure is 400 "Incorrect email or password!". On success the result is a bearer token minted from `{'sub': <submitted email>}`. |
| `Auth.UnknownEmailIsRejected` | fastapizero/routers/auth.py:27-33 | With no user having the submitted email, login fails with the combined error. |
| `Auth.WrongPasswordIsRejected` | fastapizero/routers/auth.py:29-33 | If the user exists but the password does not verify, login fails with the same combined error. |
| `Auth.LoginSucceedsIff` | fastapizero/routers/auth.py:29 | With unique emails, login succeeds iff some user has the submitted email and the password verifies against that user's hash. |
| `Auth.FailuresAreIndistinguishable` | fastapizero/routers/auth.py:29-33 | Any two failed logins return identical errors, so the cause cannot be observed. |
| `Auth.TokenSubjectIsUserEmail` | fastapizero/routers/auth.py:35-37 | A successful login's access token is minted from `{'sub': u.email}`, where `u` is a registered user whose email is the submitted username. |

The login never modifies the user table. This holds by construction, because
`Auth.Login` is a function of the table's value.

## Left out

- Password hashing, token creation and token verification (`get_current_user`,
  expiry, signatures). `fastapizero/security.py` is not part of this model. The
  caller's identity is an input, and `verify_password` and
  `create_access_token` are uninterpreted parameters of `Auth.Login`.
- The users router and its 403 "Not enough permission!" rule.
  `fastapizero/routers/users.py` is not part of this model.
- SQLAlchemy and FastAPI plumbing: sessions, commit and refresh, dependency
  injection, response models and request validation. HTTP errors are values,
  not exceptions.
- `created_at` and `updated_at` timestamps. These are database-assigned and are
  not modelled. Ids come from a counter that starts at 1.
- `Todos.ListTodos`: SQL gives no row order without `ORDER BY`. The model fixes
  ascending id order.
- `Todos.ListTodos`: negative `offset` or `limit` values are rejected by the
  database, not by the router. The model takes them as natural numbers.
- `Todos.Contains`: SQL `LIKE` collation and the `%` and `_` wildcards inside a
  filter string are not modelled. Matching is plain, case-sensitive substring
  matching.
- `Todos.Todo`: `state` is a string, as `list_todos` receives it. The
  `TodoState` enumeration in `fastapizero/models.py` is not part of this model,
  so its set of values is not enforced.
- `Todos.TodoUpdate`: a field sent with an explicit JSON `null` is not
  modelled. A field is either unsent or sent with a string.
- `Auth.LoginSucceedsIff` and `Auth.WrongPasswordIsRejected` assume unique
  emails. The users router rejects duplicate emails (tests/test_users.py:67-78).
- `Auth.FindByEmail`: the query at fastapizero/routers/auth.py:27 has no
  `ORDER BY`, so `session.scalar` returns whichever matching row the database
  yields first. The model fixes the first match in sequence order. With unique
  emails the choice does not matter.
- The migration script and `fastapizero/app.py`. They contain schema DDL and a
  constant greeting, and no logic of the core.
