# Product catalog service — a Dafny model

This project models the core of a small product-catalog web service: the
validation of a product body (`ProductIn`), the five handlers that list,
create, update, delete and search products, and the `products` table they
work on. The table is modelled as a map from primary key to row. The HTTP
framework and the database engine are outside the model.

Files:

- `wrappers.dfy`: `Option` and `Result`.
- `decimals.dfy`: the `price` field. It is a decimal in the shape of
  `Decimal.as_tuple()` (sign, coefficient, exponent). The digit rules of
  `condecimal(max_digits=10, decimal_places=2)` are counted on the
  normalized value, and `ge=0` is checked. The main lemma shows that these
  rules accept exactly the prices that are a whole number of hundredths
  from 0 to 99999999.99.
- `schemas.dfy`: `ProductIn`, `Product`, and the field constraints. Also
  the row as the store returns it after commit and refresh, and the
  `model_dump()`/`setattr` view of the fields that the update loop uses.
- `sql_like.dfy`: how SQLite evaluates `column.ilike(pattern)`, which is
  `lower(column) LIKE lower(pattern)`. It covers ASCII lower-casing and
  the LIKE pattern language, where `%` and `_` are wildcards and there is
  no escape character. It is proved equal to plain substring search for
  queries that contain no wildcard.
- `catalog.dfy`: the listing in primary-key order, the search filter, the
  update and delete steps as functions on the table, and the class
  `ProductTable`. The class holds the table in a field, and its handler
  methods change that field.

Decisions the model makes:

- The code accepts a price with fewer than two decimal places ("5" or
  "5.5"); only more than two are rejected, and the model does the same.
- The body is validated before the handler runs. An update with an
  invalid body therefore answers with a validation error, whatever the id.
- A search query is not escaped, so `%` and `_` in it act as wildcards.
  The model keeps this behaviour (`SqlLike.UnderscoreIsWildcard`). The
  substring characterisation holds for queries without them.
- The empty query builds the pattern `%%`, which matches every row
  (`Catalog.EmptyQueryListsAll`).
- The list and search queries have no ORDER BY. The model returns rows
  in increasing id order, which is what SQLite's rowid scan gives in
  practice (see "## Left out").
- New ids are allocated as one more than the largest id present, or 1
  for an empty table. This is SQLite's rowid rule, implemented in
  `ProductTable.NewId`. The create handler's contract promises only an id
  of at least 1 that was not in the table before.
- The price comes back from the `Numeric(10, 2)` column with exactly two
  decimal places and the same value (`Decimals.Quantize`).

## Model

| member | source | states |
|---|---|---|
| `Decimals.NormalizeIsNormal` | app/main.py:47 | Normalizing a price keeps its sign and value and leaves no trailing zero in the coefficient; zero gets exponent 0. |
| `Decimals.CentsOfNormalize` | app/main.py:47 | Normalizing does not change the value in hundredths, or whether the value is a whole number of hundredths. |
| `Decimals.PriceOkIffCentsInRange` | app/main.py:47 | The price rules pass exactly when the value is a whole number of hundredths, is not negative, and is below 10^10 hundredths. The rules are at most 10 digits, at most 2 decimal places, at most 8 whole digits, and ge=0. |
| `Decimals.Quantize` | app/main.py:31 | A valid price read back from the Numeric(10, 2) column has exactly two decimal places, the same value in hundredths, and is still valid. |
| `Schemas.Violations` | app/main.py:44-48 | The validation error names a field exactly when that field breaks its constraint, and names no field twice. It is empty exactly when the body is valid. |
| `Schemas.ValidIffConstraints` | app/main.py:44-48 | A body is valid exactly when: the name has 1 to 255 characters; the description is absent or has at most 5000; the price is a whole number of hundredths from 0 to 99999999.99; the category has 1 to 100 characters. |
| `Schemas.ExamplePrices` | app/main.py:47 | The test body with price 199.99 is valid. The prices -1, 1.234 and 100000000 are rejected, and 99999999.99 is accepted. |
| `Schemas.Stored` | app/main.py:80-83 | The row written for a valid body and read back keeps the given id, name, description and category, keeps the price's value in hundredths, and is itself valid. |
| `Schemas.Dump` | app/main.py:92 | `model_dump().items()` yields the four fields in declaration order, each with the body's value for it. |
| `Schemas.SetAttr` | app/main.py:93 | `setattr` overwrites the named field with the value and leaves the id and the other three fields unchanged. |
| `Schemas.SameAttrsSameRow` | app/main.py:92-93 | Two rows that have the same id and agree on all four fields are equal. After the loop has written every field, nothing of the old row is left. |
| `SqlLike.ContainsPatternIffSubstring` | app/main.py:115 | For a query without `%` or `_`, the LIKE pattern `%q%` matches a string exactly when q occurs in it. |
| `SqlLike.ILikeContainsIffSubstring` | app/main.py:115-117 | For a query without `%` or `_`, the ilike filter holds on a column exactly when the lower-cased query occurs in the lower-cased column. |
| `SqlLike.UnderscoreIsWildcard` | app/main.py:115 | Because the query is not escaped, the query "a_c" finds "abc", which does not contain "a_c". |
| `Catalog.IdsAscending` | app/main.py:75 | The primary keys in scan order: each key exactly once, in strictly increasing order. |
| `Catalog.ListingHoldsTable` | app/main.py:73-76 | The list answer has exactly one entry per row, holds every row and nothing else, and is ordered by increasing id. |
| `Catalog.ListingOfEmpty` | app/main.py:73-76 | Listing an empty table gives an empty sequence. |
| `Catalog.Filter` | app/main.py:116-118 | The filtered scan keeps exactly the rows that satisfy the name-or-category filter, and is no longer than the scan. |
| `Catalog.FilterKeepsOrder` | app/main.py:116-118 | Filtering keeps the increasing-id order of the scan. |
| `Catalog.SearchCharacterisation` | app/main.py:109-120 | For a query without `%` or `_`, the search returns exactly the rows whose name or category contains the query, ignoring ASCII case. |
| `Catalog.SearchWithinListing` | app/main.py:116-118 | Every search result is in the list answer, the search answer is no longer than it, and it keeps id order. |
| `Catalog.SearchWithoutMatchIsEmpty` | app/main.py:116-120 | A query that matches no row yields an empty sequence, not an error. |
| `Catalog.EmptyQueryListsAll` | app/main.py:115-118 | The empty query returns the whole listing. |
| `Catalog.GuitarSearch` | tests/test_api.py:16-34 | The test's body is valid. Whatever id of at least 1 the store assigns to it, searching "guitar" in the table holding that one stored row returns exactly that row, and so does searching "instruments". |
| `Catalog.UpdateMissingIsNotFound` | app/main.py:89-91 | Updating an id that is not in the table answers NotFound and leaves the table unchanged. |
| `Catalog.InvalidUpdateChangesNothing` | app/main.py:87-88 | An update with an invalid body answers with a validation error that names at least one field, and leaves the table unchanged. |
| `Catalog.UpdateReplacesRow` | app/main.py:92-95 | Updating a present id replaces all four fields with the body's values, whatever the old row held. The row keeps its id, the set of ids is unchanged, every other row is unchanged, and the answer is the new row. |
| `Catalog.UpdateIdempotent` | app/main.py:92-95 | Applying the same update twice gives the same answer and table as applying it once. |
| `Catalog.DeleteMissingIsNotFound` | app/main.py:101-103 | Deleting an id that is not in the table answers NotFound and leaves the table unchanged. |
| `Catalog.DeleteRemovesOneRow` | app/main.py:104-105 | Deleting a present id succeeds, removes exactly that key, shrinks the table by one row, and leaves every other row unchanged. |
| `Catalog.DeleteTwiceIsNotFound` | app/main.py:101-105 | The first delete of a present id succeeds, and a second delete of the same id answers NotFound. |
| `Catalog.DeletedIsNotListed` | app/main.py:99-107 | After a delete, no listed row carries the deleted id. |
| `Catalog.CreateAddsOneRow` | app/main.py:78-85 | Inserting a valid body under a fresh id adds exactly one row and keeps every earlier row. The new row appears in the listing, and so does every earlier row. |
| `Catalog.StepsKeepWellFormed` | app/main.py:78-105 | Create, update and delete each keep every row under its own id, with id at least 1 and a valid body. |
| `Catalog.ProductTable.constructor` | app/main.py:34 | A freshly created table is empty and well formed. |
| `Catalog.ProductTable.ListProducts` | app/main.py:73-76 | The list handler returns one entry per row, holding every row of the table and nothing else; on a well-formed table the entries are in increasing id order. |
| `Catalog.ProductTable.NewId` | app/main.py:81-83 | The id the store assigns is at least 1 and greater than every id in the table, so it is not already in use. |
| `Catalog.ProductTable.CreateProduct` | app/main.py:78-85 | An invalid body answers with a validation error and stores nothing. A valid body is stored under a new id of at least 1 that was not in the table; the answer is the stored row, and the new table is the old one plus that row. |
| `Catalog.ProductTable.UpdateProduct` | app/main.py:87-97 | The update handler overwrites the row's fields one by one in a loop, then reads the row back. Its answer and new table are those of `UpdateStep`, whose properties the lemmas above state. |
| `Catalog.ProductTable.DeleteProduct` | app/main.py:99-107 | The delete handler's answer and new table are those of `DeleteStep`. |
| `Catalog.ProductTable.SearchProducts` | app/main.py:109-120 | The search handler returns exactly the rows of the table that pass the name-or-category ilike filter. For a query without `%` or `_`, these are exactly the rows whose name or category contains the query, ignoring ASCII case. The answer is no longer than the table and, on a well-formed table, is in increasing id order. |

## Left out

- FastAPI application setup, routing, CORS middleware and the `/health` endpoint (app/main.py:57-70). These are transport with no logic. HTTP status codes appear only as the names of the errors.
- Logging and environment-based configuration (app/main.py:10-18). These are I/O and configuration.
- The SQLAlchemy engine, sessions, `get_db`, `commit`/`refresh` as calls, and schema creation (app/main.py:20-41). The table is a map held by `ProductTable`; commit and refresh appear only as the price's round trip through its column.
- Concurrent requests and the thread-pool setting (app/main.py:21). The model is sequential.
- Store failures (a store that is unavailable, a failed commit). No handler models them.
- Parsing the JSON body into a `Decimal`, and decimals that are not finite. The price enters the model as an already-parsed finite decimal.
- `Decimal.normalize()` rounding to the decimal context's 28-digit precision. Normalizing is modelled as exact removal of trailing zeros.
- The text of a validation error. `ValidationError` names the offending fields, but not which constraint was broken or its message.
- Case folding beyond ASCII. Python's Unicode `lower()` and any database folding of non-ASCII letters are modelled as SQLite's ASCII-only `lower()`, on both the query and the columns.
- A missing `query` parameter, which the transport rejects before the handler runs.
- On SQLite the `Numeric(10, 2)` value is stored as a floating-point number and re-read with two decimal places. `Decimals.Quantize` models it as an exact value with two decimal places, which holds for values of at most 10 digits.
- `Catalog.ProductTable.CreateProduct` promises only an id of at least 1 that was not in the table before. It does not promise the store's exact choice, which may reuse the largest id after a delete, and it does not promise that ids are never reused.
- Row order of list and search answers. The queries at app/main.py:75 and 116-118 have no ORDER BY, so SQLite does not define the order. The model returns rows in increasing id order, which is what a rowid scan gives in practice. The order clauses of `Catalog.IdsAscending`, `Catalog.ListingHoldsTable`, `Catalog.FilterKeepsOrder`, `Catalog.SearchWithinListing`, `Catalog.ProductTable.ListProducts` and `Catalog.ProductTable.SearchProducts` are about that choice, not about a promise of the program.
- The 64-bit range of ids. SQLite's INTEGER PRIMARY KEY holds signed 64-bit values, but the model's ids are unbounded integers. A path id outside that range is rejected during request parsing or when the driver binds it, not answered with NotFound, while `Catalog.UpdateStep`, `Catalog.DeleteStep`, `Catalog.UpdateMissingIsNotFound` and `Catalog.DeleteMissingIsNotFound` answer NotFound for it. `Catalog.ProductTable.NewId` does not model what SQLite does once the largest id is 9223372036854775807.
