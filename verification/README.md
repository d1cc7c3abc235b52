# Product service model

A Dafny model of `ProductService`, the service layer of a small product
catalogue API (NestJS over a Prisma-managed table). The service offers
`create`, a paginated `findAll`, `findOne`, `update`, `remove` and
`searchProduct`. Each one issues one or two store calls. It translates
failures into `NotFoundException` or `BadRequestException`, except where a
store promise is returned without `await`.

Layout:

- `option.dfy` (`Optional`): the `Option` type. `None` stands for a missing argument.
- `text.dfy` (`Text`): decimal rendering of naturals (`${n}`) and the parser that inverts it, ASCII case folding, and the substring test used by the search filter.
- `catalog.dfy` (`Catalog`): a product row, the create and update payloads, and the table as a `ProductStore` class whose `rows` field has unique keys. It also defines, as functions, what each store call returns or does to the rows: `findUnique`, `findMany` with `skip`/`take`, `findMany` with a case-insensitive `contains`, `update` and `delete`.
- `pagination.dfy` (`Pagination`): the `findAll` rules. These are the defaults, the bypass on a zero page or limit, `skip`, `nextPage` and `nextLink`. It also proves that the pages tile the table and that the link asks for the next page.
- `service.dfy` (`Service`): `ProductService`. It holds a reference to the store (`prisma`), and each operation is a method. The result is `Ok`, `NotFound(msg)`, `BadRequest(msg)`, or `StoreError`, which is a store rejection that reaches the caller unwrapped. A `Fault` parameter says which store call of the request the database rejects, if any. Calls are numbered from 0 in the order the operation issues them.

Error mapping, as the code does it:

| operation | store call rejected | missing id |
|---|---|---|
| create | `StoreError`: the promise is not awaited, so the `catch` never runs | — |
| findAll | `BadRequest("Failed to fetch products")` | — |
| findOne | `BadRequest("Failed to fetch product")` | `BadRequest("Failed to fetch product")`: the not-found thrown inside the `try` is caught |
| update | lookup: `BadRequest("Failed to update product")`; write: `StoreError` (not awaited) | `NotFound("Product with ID <id> not found")` |
| remove | lookup or delete: `BadRequest("Failed to delete product")` (`return await`) | `NotFound("Product with ID <id> not found")` |
| searchProduct | `StoreError` (not awaited) | — |

Three behaviours of the code that the model keeps as they are:

- `create` (src/product/product.service.ts:12) and `searchProduct` (:94) return the Prisma promise without `await`. So a rejection settles after the `try` block has been left, and the `catch` blocks at :15-17 and :102-104 never see it: the caller gets the store's own error, not `BadRequest('Failed to create product')` or `BadRequest('Failed to search products')`. The write in `update` (:63) is the same, so only its lookup failures become `BadRequest('Failed to update product')`.
- `findAll` declares `page: number=1, limit: number=3` (:20). An omitted argument takes its default, so only a zero (falsy) page or limit reaches the unpaginated branch at :22-25.
- `findOne` throws `NotFoundException` at :49 inside its own `try`, and the `catch` at :52-54 replaces every error with `BadRequest('Failed to fetch product')`, so a missing id is reported as a bad request, never as not found. `update` and `remove` check `instanceof NotFoundException` in their `catch` (:68-70, :85-87) and so do report not found.

## Model

| member | source | states |
|---|---|---|
| `Catalog.ProductStore.constructor` | src/product/product.service.ts:8 | the store the service is given holds rows with unique keys (`Valid`) |
| `Service.ProductService.constructor` | src/product/product.service.ts:8 | the service talks to the store it is given |
| `Service.ProductService.Create` | src/product/product.service.ts:10-18 | a rejected insert reaches the caller as `StoreError` and leaves the table unchanged (never `BadRequest`); otherwise exactly one row is appended, under a non-empty key not already in the table, with the requested columns, and that row is returned; the key constraint is kept |
| `Service.ProductService.FindAll` | src/product/product.service.ts:20-43 | a missing page or limit takes its default (1, 3); a zero page or limit returns every row and no `total`/`nextLink`; otherwise the data is the window at `skip = (page-1)*limit` of at most `limit` rows, `total` is the table's size and `nextLink` is the next link; any rejected store call gives `BadRequest("Failed to fetch products")` |
| `Service.ProductService.FindOne` | src/product/product.service.ts:45-55 | never answers `NotFound`; answers `Ok` exactly when the lookup is not rejected and the id is present, and then with the row `findUnique` finds for that id; otherwise `BadRequest("Failed to fetch product")` |
| `Service.ProductService.Update` | src/product/product.service.ts:57-73 | rejected lookup: `BadRequest("Failed to update product")`; missing id: `NotFound("Product with ID <id> not found")`; rejected write: `StoreError`; in all three the table is unchanged; otherwise the row is patched in place and returned, and the key constraint is kept |
| `Service.MissingMessage` | src/product/product.service.ts:61 | the not-found message `Product with ID <id> not found` contains the id |
| `Service.ProductService.Remove` | src/product/product.service.ts:75-90 | rejected lookup or delete: `BadRequest("Failed to delete product")`; missing id: `NotFound(...)`; in those cases the table is unchanged; otherwise the deleted row is returned, the table loses exactly that row and the key is gone |
| `Service.ProductService.SearchProduct` | src/product/product.service.ts:92-105 | a rejected query is `StoreError`; otherwise the result holds exactly the rows whose name contains the keyword ignoring ASCII case, in table order |
| `Catalog.Lookup` | src/product/product.service.ts:47 | finds a row exactly when the key is in the table, and the row found has that key |
| `Catalog.LookupFindsTheRow` | src/product/product.service.ts:59 | under the key constraint the row found is the only row with that key |
| `Catalog.FreshIdExists` | src/product/product.service.ts:12-14 | some non-empty key not yet in the table exists for the store to assign |
| `Catalog.LongestId` | src/product/product.service.ts:12-14 | bounds the length of every key in the table (the basis of a fresh key) |
| `Catalog.Window` | src/product/product.service.ts:29 | `findMany({ skip, take })` returns `min(take, size-skip)` rows (none past the end), the i-th being the table's row `skip+i` |
| `Catalog.Patched` | src/product/product.service.ts:63-66 | an update keeps the key, takes each supplied column's new value and keeps every other column |
| `Catalog.Replaced` | src/product/product.service.ts:63-66 | an update keeps the table's size and order; rows with the given key become patched, every other row is kept in place |
| `Catalog.ReplacedKeepsKeys` | src/product/product.service.ts:63-66 | an update keeps every row's key, the key set and the key constraint |
| `Catalog.LookupAfterReplace` | src/product/product.service.ts:63-66 | after an update the updated key reads back patched and every other key reads back as before |
| `Catalog.Without` | src/product/product.service.ts:81-83 | a delete keeps exactly the rows with a different key |
| `Catalog.WithoutShrinks` | src/product/product.service.ts:81-83 | a delete of a present key removes exactly one row, of an absent key none, and keeps the key constraint |
| `Catalog.LookupAfterDelete` | src/product/product.service.ts:81-83 | after a delete the deleted key reads back missing, so a later `findOne` fails, and every other key reads back as before |
| `Catalog.Matching` | src/product/product.service.ts:94-101 | the search keeps exactly the rows whose name matches, and never returns more rows than the table has |
| `Catalog.MatchingCounts` | src/product/product.service.ts:94-101 | each matching row appears in the result as often as in the table (so once, with unique keys), every other row not at all |
| `Catalog.MatchingKeepsOrder` | src/product/product.service.ts:94-101 | the result keeps the table's order: the search over two consecutive parts of the table is the first part's matches followed by the second's |
| `Text.NatToString` | src/product/product.service.ts:36 | renders a natural as a canonical decimal numeral (digits only, no leading zero), "0" exactly for 0 |
| `Text.ParseNatToString` | src/product/product.service.ts:36 | reading a rendered numeral back gives the original number |
| `Text.ParseNatPositive` | src/product/product.service.ts:36 | a numeral without a leading zero denotes a positive number |
| `Text.NatToStringOfParseNat` | src/product/product.service.ts:36 | every canonical numeral is the rendering of its value, so rendering is a bijection onto canonical numerals |
| `Text.LeadingDigits` | src/product/product.service.ts:36 | the digit run at the start of a string is all digits and stops at a non-digit |
| `Text.LeadingDigitsOfNumeral` | src/product/product.service.ts:36 | a numeral followed by a non-digit is read up to the non-digit exactly |
| `Text.ContainsIff` | src/product/product.service.ts:97 | the substring scan holds exactly when the keyword occurs at some position |
| `Text.ContainsIgnoringCase` | src/product/product.service.ts:96-98 | a name matches exactly when the lower-cased keyword occurs at some position of the lower-cased name |
| `Text.ExactMatchIgnoringCase` | src/product/product.service.ts:97-98 | a name that contains the keyword exactly also matches it ignoring case |
| `Text.CaseOfKeywordIrrelevant` | src/product/product.service.ts:98 | lower-casing the keyword first does not change what it matches |
| `Text.ShirtExample` | src/product/product.service.ts:94-101 | "shirt" matches "Red Shirt" and "SHIRTS" and does not match "T-Shir" |
| `Pagination.Unpaginated` | src/product/product.service.ts:22 | pagination is off exactly when the page or the limit is zero (falsy); otherwise both are at least 1 |
| `Pagination.Skip` | src/product/product.service.ts:28 | the page's first offset plus the limit is `page*limit`, the end of the page |
| `Pagination.NextPage` | src/product/product.service.ts:32 | a next page exists exactly when `page*limit < total`, and it is `page+1`, never 0 (so always truthy) |
| `Pagination.NextLink` | src/product/product.service.ts:34-37 | a link exists exactly when there is a truthy next page and a non-empty base URL, and it starts with the base URL |
| `Pagination.ValuesOfNumerals` | src/product/product.service.ts:36 | `P&limit=L` with numerals P, L reads back as their values |
| `Pagination.QueryOfNumerals` | src/product/product.service.ts:36 | `?page=P&limit=L` with numerals P, L reads back as their values |
| `Pagination.QueryRoundTrip` | src/product/product.service.ts:36 | the link's query part built from two numbers reads back as those numbers |
| `Pagination.NextLinkAsksForNextPage` | src/product/product.service.ts:32-37 | a next link is present exactly when `page*limit < total` and the base URL is non-empty, and its query asks for page `page+1` with the same limit |
| `Pagination.NextPageIsNonEmpty` | src/product/product.service.ts:28-32 | `nextPage` is announced exactly when the next page would hold at least one row |
| `Pagination.WindowExtendsPrefix` | src/product/product.service.ts:28-29 | the page at offset `skip` continues the rows before `skip` |
| `Pagination.PagesTileTheTable` | src/product/product.service.ts:28-29 | pages 1 to k together are exactly the first `k*limit` rows: no overlap, no gap |
| `Pagination.FollowingLinksVisitsAll` | src/product/product.service.ts:28-37 | when no next page is announced, pages 1 to `page` hold the whole table; while one is, rows remain |
| `Pagination.SecondPageOfTen` | src/product/product.service.ts:26-37 | page 2, limit 3, 10 rows: skip 3, rows 3 to 5, next page 3, link `<base>?page=3&limit=3` |

## Left out

- Asynchrony: each call is atomic and runs alone. Only the await/no-await difference is kept, as the `StoreError` outcome. Concurrent requests, for example a row deleted between `remove`'s lookup and its delete, are not modelled.
- The catch branches of `create` ("Failed to create product") and `searchProduct` ("Failed to search products") cannot be reached. The store call they guard returns a promise and does not throw synchronously, so no response carries these messages.
- `StoreError` carries no payload: the Prisma error object (its code and message) is not modelled.
- The Prisma client and the database are not modelled. A store rejection is an input (`Fault`). The key the store assigns is any non-empty string not already in the table.
- Row order: `findMany` without `orderBy` has no defined order, and the model uses the order of the `rows` sequence.
- Case folding covers ASCII letters only, not full Unicode. `%` and `_` in the keyword are taken literally.
- `page` and `limit` are naturals after parsing. `Number()` coercion, `NaN`, negative values, and a `null` argument (which would bypass the default and be falsy) are not modelled. The arithmetic is exact, without IEEE-754 rounding.
- The DTO class validation, the decorators and dependency injection are not modelled. Product columns other than the key and the name are an attribute map, because the schema is not part of this model.
- `src/main.ts` (bootstrap, Swagger, the global validation pipe, `listen`) is not part of this model.
