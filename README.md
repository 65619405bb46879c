# Product catalog service, modelled in Dafny

The service is a small HTTP front end to one SQLite table, `products(id, name,
price, stock, created_at)`. Its `id` is `INTEGER PRIMARY KEY AUTOINCREMENT`.
The model keeps the table in memory. It is a `ProductStore` object with a map
from id to row and the AUTOINCREMENT counter. Each handler is one method that
returns the handler's status code and JSON body:

- create (`POST /products`), 201 or 400
- get (`GET /products/{id}`), 200 or 404
- partial update (`PUT /products/{id}`), 200, 400 or 404
- delete (`DELETE /products/{id}`), 200 `{deleted: id}` or 404
- list (`GET /products`), newest id first
- the unauthenticated count (`GET /metrics`)

Every handler except the count sits behind the `require_key` gate. The gate
answers 401 unless the `X-API-KEY` header equals the configured key exactly.

Files and modules:

- `text.dfy`, module `Text`: Python's `str.strip()`. It removes Python's
  whitespace characters from both ends. The scan follows CPython's: forward
  from the left, then backward but never past the left end.
- `request.dfy`, module `Request`: the request side.
  - The payload has optional fields.
  - The key gate.
  - Each write's defaulting rules. Python's `or` on the name: a missing,
    `null` or empty name is falsy. `int()` truncates a fractional stock toward
    zero. A missing price or stock defaults to 0 on create and to the stored
    value on update.
  - The validation rule: an empty name, a negative price or a negative
    stock is refused.
- `products.dfy`, module `Products`: the row and the row invariant
  (`WellFormed`): the name is non-empty and stripped, price ≥ 0, stock ≥ 0.
  Also the error kinds with their messages and status codes, the response
  bodies, and the newest-first order of the listing.
- `store.dfy`, module `Store`: the `ProductStore` class and the table
  invariant.
  - Each mutating method `ensures` that the invariant holds again.
  - Each `ensures` gives the whole new state in terms of the old one, for
    every outcome.
  - Two example sessions: create a widget (name "Widget", price 9.99,
    stock 5) and read it back; delete twice, then create again.

Points where the code's behaviour may surprise:

- The stock test runs after `int()` has truncated the value toward zero, so
  a stock of -0.5 is accepted and stored as 0 (`Request.StockAcceptedIff`).
  A stock of 2.7 is stored as 2.
- On update, an empty or `null` name means "keep the stored name". A name
  made only of whitespace is truthy, so `or` keeps it, `strip()` empties it,
  and the update is refused (`Request.BlankNameRejected`).
- Update looks the row up before it validates (app.py:88-89). A missing id
  therefore answers 404 even when the decoded fields fail validation. The
  body is decoded first (app.py:86), so a body that is not JSON answers 400
  before the lookup; that path is not modelled.

AUTOINCREMENT assigns one more than the largest id it has ever handed out.
Here that is the `nextId` counter. Delete never lowers it, so a deleted id is
never assigned again. The ghost set `issued` records every id handed out so
far. Create returns an id that is not in it.

## Model

| member | source | states |
|---|---|---|
| `Text.Trim` | app.py:61 | `strip()` returns an infix of its input with no whitespace at either end and only whitespace outside it; the result is empty exactly when the input is all whitespace |
| `Text.SkipSpace` | app.py:61 | the left-hand scan stops at the first non-whitespace character, having passed only whitespace |
| `Text.BackSpace` | app.py:61 | the right-hand scan never passes the left end and drops only trailing whitespace |
| `Text.TrimOfTrimmed` | app.py:90 | a name that is already stripped (as every stored name is) comes back unchanged from `strip()` |
| `Text.TrimIdempotent` | app.py:61 | stripping twice is the same as stripping once |
| `Text.IsSpace` | app.py:61 | the characters `strip()` removes: exactly Python's whitespace set |
| `Request.Authorized` | app.py:34-35 | the gate lets a request through only when the `X-API-KEY` header is present and equal to the configured key; its promise (401 and the table unchanged otherwise) is the first `ensures` of `List`, `Get`, `Create`, `Update` and `Delete` |
| `Request.NameOr` | app.py:61 | Python's `or` on the name: a missing, `null` or empty name gives the fallback, any other name is kept as sent |
| `Request.StockOr` | app.py:63 | the stock sent, truncated by `int()`, or the default when none is sent |
| `Request.CreateFields` | app.py:61-63 | the values create computes: stripped name (empty when absent), price defaulting to 0, truncated stock defaulting to 0 |
| `Request.UpdateFields` | app.py:90-92 | the values update computes, each falling back to the stored row's value |
| `Request.Acceptable` | app.py:64 | the validation test shared by both writes: an empty name, a negative price or a negative stock is refused |
| `Request.RowOf` | app.py:67-69 | the stored row carries the computed fields under the given id and time; fields that pass validation with a stripped name make a well-formed row |
| `Request.Truncate` | app.py:63 | `int()` on a number truncates toward zero: the result is within 1 of the input, on the same side of zero |
| `Request.StockAcceptedIff` | app.py:63-64 | a sent stock passes the `stock < 0` test exactly when it is above -1, because of the truncation |
| `Request.CreateAcceptedIff` | app.py:61-64 | create accepts exactly the payloads whose name is present and not all whitespace, whose price (default 0) is non-negative and whose stock (default 0) is above -1 |
| `Request.CreateRoundTrip` | app.py:61-63 | a well-formed name, price and whole stock sent to create are stored exactly as sent |
| `Request.UpdateKeepsUnsent` | app.py:90-92 | on update, a missing, `null` or empty name keeps the stored name exactly, and a missing price or stock keeps the stored one |
| `Request.EmptyUpdateIsIdentity` | app.py:90-93 | an update that sends nothing passes validation and rewrites the row unchanged |
| `Request.RestockOnlyChangesStock` | app.py:90-93 | an update that sends only a whole stock count is accepted and changes only the stock |
| `Request.BlankNameRejected` | app.py:90-94 | an update that sends a non-empty name made only of whitespace is rejected, whatever else it sends and whatever the stored row holds |
| `Request.UpdateAcceptedIff` | app.py:90-94 | update accepts exactly the payloads whose name is absent or empty or not all whitespace, whose price is absent or non-negative and whose stock is absent or above -1 |
| `Products.WellFormed` | app.py:19-25 | the row invariant every stored row keeps: a non-empty stripped name, a non-negative price (also the table's `CHECK`) and a non-negative stock |
| `Products.FailureDistinct` | app.py:36 | the three error bodies (`unauthorized`, `invalid-payload`, `not-found`) and their status codes (401, 400, 404) each identify the failure |
| `Products.NewestFirst` | app.py:54 | what `ORDER BY id DESC` returns: ids strictly decreasing, every element a stored row, every stored row present |
| `Products.NewestFirstHead` | app.py:54 | the first row of a listing carries the largest stored id |
| `Products.NewestFirstLength` | app.py:47-54 | a listing has as many rows as the table, so it agrees with the metrics count |
| `Products.NewestFirstUnique` | app.py:54 | sorting by descending id fixes the listing: only one sequence lists a given table newest first |
| `Store.TableInvariant` | app.py:19-24 | the counter is positive, the issued ids are exactly those below it, and every row is stored under its own issued id and is well-formed |
| `Store.InsertKeepsInvariant` | app.py:19-24 | inserting under the counter's id and advancing the counter keeps the table invariant: rows stored under their own ids, ids below the counter, rows well-formed; it also adds exactly one row |
| `Store.ReplaceKeepsInvariant` | app.py:95-96 | rewriting an existing row with a well-formed one keeps the table invariant |
| `Store.RemoveKeepsInvariant` | app.py:104 | deleting a row keeps the table invariant |
| `Store.ProductStore.constructor` | app.py:16-27 | a new table is empty, its counter starts at 1 and it holds the configured key |
| `Store.ProductStore.Metrics` | app.py:44-48 | the count endpoint answers 200 with the number of rows, without a key |
| `Store.ProductStore.List` | app.py:50-55 | 401 without the key; otherwise 200 with every stored row exactly once, ids strictly decreasing, and nothing that is not stored |
| `Store.ProductStore.Get` | app.py:75-81 | 401 without the key, 404 for a missing id, otherwise 200 with the stored row (which is well-formed and carries that id); never changes the table |
| `Store.ProductStore.Create` | app.py:57-73 | 401 or 400 leave the table unchanged; otherwise 201 with the row stored under the old counter value, which is above every existing id and was never issued before; the counter advances by one and no other row changes |
| `Store.ProductStore.Update` | app.py:83-98 | 401, 404 (checked before validation) and 400 leave the table unchanged; otherwise only that row's name, price and stock change, to the merged and validated values; id, `created_at`, the counter and every other row stay as they were |
| `Store.ProductStore.Delete` | app.py:100-107 | 401 or 404 leave the table unchanged; otherwise 200 `{deleted: id}` and exactly that row is gone, with the counter unchanged, so a second delete of the same id answers 404 |

## Left out

- Flask routing, CORS and JSON encoding are not modelled. The payload arrives
  already decoded into optional, typed fields: a string name, a numeric
  price and a numeric stock. A body that Flask cannot decode as JSON answers
  400 before any lookup; that is not modelled. A body that is JSON but not an
  object, or whose name is not a string, is not modelled either.
- A price or stock sent as a string or a boolean is not modelled. `float()`
  and `int()` accept numeric strings such as `"9.99"` or `"5"`, and booleans,
  and the handler stores the converted value. Only a value they cannot
  convert (a `null`, a non-numeric string, a fractional string for `int()`)
  raises, and the server then answers 500.
- Flask's `<int:pid>` converter matches only non-negative integers, so the id
  is a `nat`. Other paths get a routing-level 404 before the gate runs, which
  the model does not cover.
- SQLite connections, `get_db` and the `with` transaction blocks are replaced
  by the in-memory map. Each handler runs as one atomic step.
- SQLite's 64-bit limits are not modelled. Ids and stock are unbounded
  integers. The model has no "database full" error once the id reaches
  2^63 - 1, and no error for a stock too large for an `INTEGER`.
- Price is an exact real, not a float. Rounding, NaN and infinities are left
  out. Only the `< 0` test and the table's `CHECK(price >= 0)` are kept: the
  check can never fire after validation, and it is folded into the row
  invariant.
- `created_at` comes from the clock (`datetime.utcnow()`). Here it is a
  parameter of `Create`, and its contents are never inspected.
- `/health`, which reads the clock, is left out.
- Reading `API_KEY` and `PORT` from the environment, and `app.run`, are left
  out. The key is a constructor parameter.
- Opening an existing database file is left out. The constructor starts from
  an empty table, as on a new file. Every method needs only the table
  invariant, so it applies to any table the handlers could have built.
- Concurrent requests are left out, including the unlocked read-then-write
  in update.
- `strip()` is modelled on code points. It uses Python's whitespace set with
  no normalisation. Python's empty-string test is modelled by
  `name.value != ""`.
