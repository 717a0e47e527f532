# ProductsService: a verified model

This project models `ProductsService` of the products micro-service
(`src/products/products.service.ts`): a product catalogue over one table,
with soft delete. A product has an integer `id`, an `available` flag and
opaque attribute columns (name, price, ...). The service creates products,
lists the available ones a page at a time (`findAll`), fetches one available
product (`findOne`), merges fields into a product (`update`), and soft-deletes
a product by setting `available` to false (`remove`). Errors from the
database are classified by `handleDBError`.

The service extends the Prisma client, so the product table is state of the
service object. Here that table is an in-memory map from id to row, held in
the field `rows` of class `Products.ProductsService`. The Prisma calls the
service makes become operations on that map: `findUnique`, `count`,
`findMany` (module `Table`) and `update` (`ProductsService.ProductUpdate`).
A failed `update` raises the known request error `P2025`.

Modules:

- `Wrappers`: `Option` and `Result`.
- `Decimal`: how an integer id prints inside `Product #<id> not found`, with
  the parse-back round trip.
- `Table`: the product row, the table, and the read primitives. `findMany`
  lists rows by ascending id, and `Window` is its `skip`/`take`.
- `Catalog`: the error kinds and messages, `handleDBError`, the ceiling
  division behind `lastPage`, and each operation as a pure step from one
  table to the next. It also holds the lemmas about sequences of operations:
  remove then find, create then find, update after remove, and counts.
- `Products`: class `ProductsService`. Its methods follow the TypeScript
  bodies: check, call the table, route a database error through
  `HandleDBError`. `FindOne`, `Create`, `Update` and `Remove` are each
  proved to produce the step stated in `Catalog`. `FindAll` is stated
  directly against `Window`, `AvailableRows` and `CeilDiv`.

Modelling choices:

- The source gives `findMany` no `orderBy`, so row order is up to the
  storage engine. The model fixes ascending id.
- `Math.ceil(totalPages / limit)` is integer ceiling division
  `(n + limit - 1) / limit`. For a non-negative count and a positive limit
  the two agree.
- `create` stores the row under any id the table does not yet hold. It sets
  `available = true`, which is the column default in the database schema.
- The update payload is a map of attribute columns. The controller has
  already removed `id` from it.
- Naming: the service's exceptions appear as `NotFound`, `BadRequest` and
  `Internal`, after the NestJS exception classes the code throws
  (`NotFoundException`, `BadRequestException`,
  `InternalServerErrorException`).

## Model

| member | source | states |
|---|---|---|
| `Catalog.HandleDBError` | src/products/products.service.ts:91-100 | Never returns normally. It is BadRequest `Invalid data provided` exactly for a known request error with code P2025. Every other error, including known errors with other codes, becomes Internal `Check server logs for more info`, whatever its details. |
| `Catalog.CeilDiv` | src/products/products.service.ts:29 | `lastPage` is the least q with total <= q * limit, so (q - 1) * limit < total. It is 0 exactly when no product is available. |
| `Catalog.PageEmptyIffPastLast` | src/products/products.service.ts:29-36 | The skip `(page - 1) * limit` passes every available row exactly when page > lastPage. On a page before lastPage, skip + limit stays below the total. |
| `Catalog.PageOfListing` | src/products/products.service.ts:32-36 | The page cut by skip/take is empty exactly when page > lastPage. It is full (`limit` rows) on every page before lastPage. |
| `Catalog.EveryRowOnItsPage` | src/products/products.service.ts:29-36 | Paging loses no product. The row at listing position i shows on page i / limit + 1, at position i % limit, and that page is within 1..lastPage. |
| `Table.Window` | src/products/products.service.ts:33-34 | skip/take returns at most `take` rows: the consecutive rows starting after `skip`, or nothing when skip is past the end. |
| `Table.SortedIds` | src/products/products.service.ts:32-36 | The fixed listing order holds every id of the table once, in strictly ascending order. |
| `Table.AvailableRowsSpec` | src/products/products.service.ts:26-36 | The rows `findMany` walks through are exactly the available rows, each once, by ascending id. Their number is what `count` with `available: true` reports. |
| `Table.FindManyOnlyAvailable` | src/products/products.service.ts:32-36 | Every row on a page is a row of the table with `available = true`. |
| `Table.FreshIdExists` | src/products/products.service.ts:17-21 | The table always has an unused id, so `create` can always insert. |
| `Products.ProductsService.FindAll` | src/products/products.service.ts:23-44 | Echoes `page` and `limit`. `totalPages` is the number of available rows and `lastPage` its ceiling over `limit`. `data` is exactly the skip/take window of the listing at skip (page - 1) * limit: all available rows of the table, consecutive from that position, and exactly min(limit, total - skip) of them when the skip is inside the listing, so the last page holds every remaining row. The page is empty exactly past lastPage and full before it. The table is not changed. |
| `Table.Count` | src/products/products.service.ts:26-28 | `count` with `available: true` is at most the number of rows, and is 0 exactly when no row is available. |
| `Table.FindMany` | src/products/products.service.ts:32-36 | `findMany` with skip/take returns exactly the skip/take window of the listing of available rows. That is min(take, rows left) consecutive rows from position `skip`, or none when the skip passes the listing. |
| `Table.FindUnique` | src/products/products.service.ts:47-49 | `findUnique` with `id` and `available: true` finds a row exactly when the id is stored and, if asked, available; it returns that row. |
| `Catalog.FindOne` | src/products/products.service.ts:46-56 | The `findOne` step: succeeds exactly when the id is stored and available, returning that row; otherwise NotFound with the message for that id. |
| `Catalog.NotFoundMessage` | src/products/products.service.ts:52 | The message is `Product #`, a numeral, then ` not found`. The numeral reads back as the requested id and is in the canonical form JavaScript prints (no leading zeros, no `-0`), so it is the only such rendering of that id. |
| `Products.ProductsService.FindOne` | src/products/products.service.ts:46-56 | Returns the row with that id if it exists and is available. Otherwise it returns NotFound `Product #<id> not found`. The table is not changed. |
| `Catalog.FindOneAgreesWithListing` | src/products/products.service.ts:46-55 | `findOne` succeeds for exactly the ids of the products the listing holds, and returns that product. |
| `Catalog.NotFoundMessageInjective` | src/products/products.service.ts:52 | Different ids give different not-found messages. |
| `Decimal.RoundTrip` | src/products/products.service.ts:52 | The id printed in the message reads back as the same integer, including negative ids. |
| `Decimal.FromInt` | src/products/products.service.ts:52 | The rendering of an id is a canonical numeral: digits without a leading zero (except `0`), and a '-' only before a nonzero digit of a negative id. |
| `Decimal.CanonicalUnique` | src/products/products.service.ts:52 | A canonical numeral that reads back as an id is exactly the rendering of that id, so the message text for each id is unique. |
| `Catalog.Create` | src/products/products.service.ts:17-21 | Inserts one available row with the given attributes under a new id. Every existing row is unchanged. |
| `Products.ProductsService.Create` | src/products/products.service.ts:17-21 | Picks an id the table does not hold and performs exactly the `Catalog.Create` step with it. |
| `Catalog.CreateThenFindOne` | src/products/products.service.ts:17-55 | After `create`, `findOne` on the new id returns the attributes with `available = true`, and the count of available rows grows by one. |
| `Catalog.Update` | src/products/products.service.ts:58-74 | An empty payload fails with BadRequest `No data provided` and leaves the table unchanged. A missing id fails with BadRequest `Invalid data provided` and leaves the table unchanged. Otherwise the payload's fields overwrite the row's, the row's other fields and its `available` flag are kept (even when false), the merged row is returned, and every other row is unchanged. |
| `Products.ProductsService.Update` | src/products/products.service.ts:58-74 | The empty-payload check, the Prisma `update` by id, and `handleDBError` on P2025 together give exactly the `Catalog.Update` step. |
| `Catalog.UpdateKeepsListing` | src/products/products.service.ts:65-68 | `update` never changes which products are available, nor the count. |
| `Catalog.UpdateAfterRemove` | src/products/products.service.ts:65-83 | An update still reaches a removed product. It succeeds, the product stays unavailable, and `findOne` still fails. |
| `Catalog.Remove` | src/products/products.service.ts:76-89 | Succeeds exactly on an available row. It returns that row with `available = false` and the same attributes, and changes nothing else. On a missing or already removed id it fails with BadRequest `Invalid data provided` and leaves the table unchanged. |
| `Products.ProductsService.Remove` | src/products/products.service.ts:76-89 | The conditional Prisma `update` (`id` and `available: true`) plus `handleDBError` give exactly the `Catalog.Remove` step. |
| `Products.ProductsService.ProductUpdate` | src/products/products.service.ts:65-68 | A Prisma `update` whose `where` matches a row patches that row only. If it matches no row it raises P2025 and leaves the table unchanged. |
| `Catalog.RemoveHidesProduct` | src/products/products.service.ts:76-89 | After a successful `remove`, `findOne` fails with NotFound, the listing no longer holds the product, the count drops by one, and a second `remove` fails with BadRequest without changing the table. |
| `Catalog.RemoveCount` | src/products/products.service.ts:76-89 | A successful `remove` lowers the count of available rows by exactly one. |
| `Catalog.LifecycleFromEmpty` | src/products/products.service.ts:17-89 | In an empty catalogue, a product is created, then listed alone on page 1 of 1. Once removed it is neither listed nor found and the count is 0. An update afterwards still succeeds and returns the merged, unavailable row. |

## Left out

- `onModuleInit`, `$connect` and the logger (lines 10-15): these are connection lifecycle and logging.
- `console.log(error)` in `handleDBError` (line 98): this is diagnostic output only. The model keeps only the error the caller receives.
- Concurrency: `findAll` issues `count` and `findMany` as two separate reads, and two `remove` calls can race. The model runs each call as one atomic step.
- Products.ProductsService.Create: a failed insert is not modelled. The in-memory table always accepts the row, while in the source any Prisma error on `create` propagates uncaught.
- Products.ProductsService.FindAll and Products.ProductsService.FindOne: a failed read is not modelled. In the source an error from `count` or `findMany` (lines 26-36) or from `findUnique` (lines 47-49) propagates uncaught; the in-memory table never fails a read.
- Products.ProductsService.Update and Products.ProductsService.Remove: the in-memory table can only fail with P2025. The Internal path of `handleDBError` (connection loss, constraint violations) is therefore proved only about `Catalog.HandleDBError` itself.
- Products.ProductsService.FindAll: requires `page >= 1` and `limit >= 1`. The model assumes page and limit are integers of at least 1. In the source they are JavaScript numbers. A zero limit divides by zero in `lastPage`. A negative limit is a negative `take`, which Prisma reads as counting from the end: at page 1 the skip is 0, the call returns the last |limit| available rows, and `lastPage` is at most 0. The Prisma call throws only for a negative `skip` (a negative limit at page 2 or later) or a fractional skip or take.
- Row order of `findMany`: the storage engine decides it. The model fixes ascending id.
- Id generation and column defaults belong to the database schema, as do extra columns such as timestamps. They appear only as "some unused id", `available = true` on create, and opaque attribute values.
- The update payload is assumed never to hold `id` or `available`; the update DTO is relied on for that. In the source such a key would be written to the real column by `data: updateProductDto` (line 67). In the model every payload key lands among the attribute columns, which is part of why `update` never changes the listing.
- DTO validation decorators are not modelled. The update payload's key count is the size of the attribute map, so a key whose value is `undefined` is not modelled.
- Ids are unbounded integers. In the source an id is a JavaScript `number` handed to a fixed-width integer column. For a non-integer or out-of-range id, the Prisma client throws before any lookup. `findOne` then lets that error escape instead of answering NotFound (lines 46-53). `update` and `remove` route it through `handleDBError` to Internal `Check server logs for more info`, not BadRequest `Invalid data provided` (lines 71-73, 86-88, 91-99). The model assumes every id is a valid value of the id column, and answers NotFound or BadRequest for every missing id.
