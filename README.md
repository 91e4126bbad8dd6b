# Inventory backend: sales ledger, catalogue rules and bearer checks

This project is a Dafny model of the core of a Go REST backend for warehouse
inventory. It covers three parts of that backend.

- **The sale transaction engine.** The sale repository keeps three tables: item
  stock, sale headers and sale lines. Its `Create`, `Update` and `Delete` are
  database transactions. Each line takes stock through a guarded decrement
  (`stock = stock - q WHERE id = i AND stock >= q`). Update and Delete give the
  old lines' stock back, and a failure anywhere rolls the whole unit of work
  back. The sale service prices request lines from the item table, sums the
  subtotals into the sale's total and runs the not-found and stock pre-checks.
  `SaleRepository.SaleStore` is a class whose methods change its maps
  statement by statement. Each method is proved equal to a function of the
  tables before it (`CreateSpec`, `UpdateSpec`, `DeleteSpec`). Lemmas about
  those functions prove the invariant: no stock is negative, and for every
  item, stock plus the units held by sale lines is conserved.
- **The catalogue services** for items, racks, warehouses, categories and
  users. Each has a not-found check and an "empty or zero keeps the stored
  value" merge on Update. Each also has a uniqueness check on its key (SKU,
  warehouse and rack code, name, active user's e-mail), which Update re-runs
  only when the key changed. Every Update is a method that merges field by
  field. Lemmas prove that each operation keeps its key unique.
- **The HTTP middleware's** `Authorization: Bearer <token>` header parsing,
  with Go's `strings.Split` modelled exactly, and the allowed-role membership
  loop.

Database errors are not random here. Each operation takes a parameter that
names which of its statements fails, if any:

- `Fault` counts the statements of a repository transaction from `BEGIN`.
- `ReadFault` names a read made by the sale service.
- `StoreFault` names the lookup by id, the lookup by key or the write of a
  catalogue service.

Money is an `int` in minor units.

Files:

- `model.dfy`: the records, plus `Option`, `Result` and `Outcome`.
- `ledger.dfy`: guarded decrements, restoring increments and held units.
- `sale_repository.dfy`: the transactional store.
- `sale_service.dfy`: pricing and the service operations on sales.
- `catalogue.dfy`: the keyed table, the fault parameter, and the shared lookup, delete and page shapes.
- `item_service.dfy`, `rack_service.dfy`, `warehouse_service.dfy`, `category_service.dfy`, `user_service.dfy`: the catalogue services.
- `auth_middleware.dfy`: the header parser and the role check.

## Model

| member | source | states |
|---|---|---|
| Ledger.Decrement | repository/sale.go:81-96 | the guarded decrements of the lines, run in order; each sees the stock the earlier ones left, and the first whose guard fails is reported |
| Ledger.DecrementSpec | repository/sale.go:68-97 | every decrement applies iff each line's item exists and has at least its quantity after the lines before it; then each item's stock drops by exactly what the lines ask of it and stays non-negative; otherwise the run stops at the first line that does not fit |
| Ledger.SameItemTwice | repository/sale.go:68-97 | two lines for one item both pass their guards iff their combined quantity is at most the item's stock before the first |
| Ledger.RestoreSpec | repository/sale.go:227-240 | giving back lines of known items raises each item's stock by exactly the units the lines hold |
| Ledger.RestoreKeeps | repository/sale.go:336-349 | giving back positive lines keeps the same items and keeps stock non-negative |
| Ledger.RestoreThenDecrement | repository/sale.go:220-300 | giving back lines and then taking lines with the same demand applies every decrement and leaves the stock exactly as it was |
| Ledger.QtyOfSameDemand | repository/sale.go:68-73 | the units held depend only on items and quantities, not on ids, prices or subtotals |
| SaleRepository.Numbered | repository/sale.go:68-73 | the stored rows keep the request's items and quantities in order, carry the new sale's id and get consecutive fresh line ids |
| SaleRepository.CreateSpec | repository/sale.go:32-107 | Create is all or nothing: on any error the tables are unchanged and the error is a database error or insufficient stock; with no database error it succeeds iff every guarded decrement applies, and otherwise the error is insufficient stock; on success the header, one row per line in request order and the decremented stock are stored |
| SaleRepository.UpdateAllOrNothing | repository/sale.go:204-311 | Update is all or nothing: a failure leaves the tables unchanged; an absent or soft-deleted sale gives "sale not found"; on a live sale with no database error it succeeds iff the new lines fit the stock restored by the old ones, and otherwise fails with insufficient stock; on success the stock is that of the guarded decrements and the total and the lines are replaced |
| SaleRepository.DeleteSpec | repository/sale.go:313-379 | Delete is all or nothing; with no database error it succeeds iff the sale is live and otherwise gives "sale not found"; on success the old lines' stock is given back, the lines are dropped and the header is marked deleted |
| SaleRepository.CreatePreserves | repository/sale.go:32-107 | a successful Create keeps the table invariant, stores the sale under an id no sale had, takes from each item exactly what the request asks, and conserves stock plus held units for every item |
| SaleRepository.CreateKeepsInvariant | repository/sale.go:68-104 | the committed tables of a Create satisfy the invariant: no negative stock, headers under their ids, lines only for live sales, in id order |
| SaleRepository.CreateConserves | repository/sale.go:81-96 | after a Create's decrements each item's stock is lowered by the request's demand and stock plus held units is unchanged |
| SaleRepository.UpdatePreserves | repository/sale.go:204-311 | a successful Update keeps the invariant, gives back what the old lines held, takes what the new ones ask, and conserves stock plus held units |
| SaleRepository.UpdateKeepsInvariant | repository/sale.go:227-301 | the committed tables of an Update satisfy the invariant |
| SaleRepository.UpdateConserves | repository/sale.go:227-300 | after Update each item's stock is the old stock plus the old lines' units minus the new lines' units, and stock plus held units is unchanged |
| SaleRepository.DeletePreserves | repository/sale.go:313-379 | a successful Delete keeps the invariant, returns exactly the held units to stock, conserves stock plus held units, and leaves the sale soft-deleted with no lines |
| SaleRepository.UpdateSameLines | repository/sale.go:220-300 | updating a live sale with lines of the same items and quantities succeeds and leaves every item's stock unchanged |
| SaleRepository.DeleteHidesSale | repository/sale.go:166 | after a successful Delete the set of live sales that the count and the listing see is the old one without the deleted sale |
| SaleRepository.LiveNewestFirst | repository/sale.go:174-180 | only live sales below the next id, each as stored, in descending id order |
| SaleRepository.NewestFirstComplete | repository/sale.go:174-180 | every live sale below the next id is in the newest-first list |
| SaleRepository.NewerStep | repository/sale.go:174-180 | one more id adds one newer live sale exactly when that sale is live and newer than the given id |
| SaleRepository.NewestFirstRank | repository/sale.go:174-180 | the sale at position `j` of the newest-first list has exactly `j` live sales newer than it |
| SaleRepository.LiveIds | repository/sale.go:166 | the ids of exactly the live sales |
| SaleRepository.LiveCount | repository/sale.go:166-180 | the listed sales and the counted sales are equally many |
| SaleRepository.Window | repository/sale.go:174-180 | `LIMIT`/`OFFSET` keeps the rows from the offset on, at most `limit` of them, in order |
| SaleRepository.Page | repository/sale.go:161-202 | a negative offset or limit is refused; otherwise the count of all live sales and at most `limit` live sales as stored, newest first, where the `i`-th row has exactly `offset + i` newer live sales, so the page starts `offset` rows into the newest-first order |
| SaleRepository.SaleStore.constructor | repository/sale.go:23-30 | a store over the given items with no sales satisfies the invariant |
| SaleRepository.SaleStore.FindByID | repository/sale.go:109-128 | finds a header iff the sale exists and is not soft-deleted, and returns it as stored |
| SaleRepository.SaleStore.FindSaleItems | repository/sale.go:130-159 | every stored line of the sale and nothing else: each row is one of the sale's stored lines, every stored line carrying the sale's id is returned, of known items, with positive quantities, in ascending id order |
| SaleRepository.SaleStore.FindAll | repository/sale.go:161-202 | refused iff the offset `(page-1)*limit` or the limit is negative; otherwise the count of all live sales and the whole window: as many rows as remain after the offset `(page-1)*limit`, at most `limit`, each a live sale as stored, newest first, the `i`-th with exactly `(page-1)*limit + i` newer live sales |
| SaleRepository.SaleStore.Abort | repository/sale.go:45 | the deferred rollback restores the snapshot of the three tables while the id sequences keep the ids handed out |
| SaleRepository.SaleStore.GiveBack | repository/sale.go:227-240 | the restoring increments run in order unless a statement fails; after them stock equals the restore function |
| SaleRepository.SaleStore.WriteLines | repository/sale.go:68-97 | the insert and guarded decrement per line: the outcome is the database error, insufficient stock or success as the decrement function decides, and on success the rows and the stock are as specified |
| SaleRepository.SaleStore.Create | repository/sale.go:32-107 | the tables and result after Create are those of `CreateSpec`, the invariant holds, and a success draws one sale id and one line id per line |
| SaleRepository.SaleStore.Unwind | repository/sale.go:220-248 | reading, giving back and deleting the old lines: on success stock is restored by the old lines and the sale has no lines |
| SaleRepository.SaleStore.Rewrite | repository/sale.go:251-301 | the header's new total fails with "sale not found" when no live header matches; then the new lines as in Create |
| SaleRepository.SaleStore.Attempt | repository/sale.go:204-304 | the statements of Update produce the result of `UpdateSpec`, and on success its tables |
| SaleRepository.SaleStore.Update | repository/sale.go:204-311 | the tables and result after Update are those of `UpdateSpec`, with the invariant kept |
| SaleRepository.SaleStore.Delete | repository/sale.go:313-379 | the tables and result after Delete are those of `DeleteSpec`, the invariant holds, and afterwards `FindByID` finds nothing and the sale has no lines |
| SaleService.Pricing | service/sale.go:36-60 | pricing yields one line per request line, or one of the errors "item not found", "insufficient stock for item" or a database error |
| SaleService.PricingSpec | service/sale.go:36-60 | pricing succeeds iff no line has a problem; then each line has its request's item and quantity, the item's current price, and price times quantity as subtotal, in request order; otherwise the error is that of the first line with a problem |
| SaleService.PricingDemand | service/sale.go:51-59 | priced lines name known items with the requested positive quantities, so they have the request's demand |
| SaleService.SumNumbered | service/sale.go:52 | the total of the stored rows equals the total of the priced lines |
| SaleService.PriceOne | service/sale.go:38-59 | one line: a database error, "item not found", "insufficient stock for item: <name>" under the pre-check, or the priced line |
| SaleService.PriceLines | service/sale.go:34-60 | the loop yields the priced lines and the sum of their subtotals, or the first line's error |
| SaleService.CreateSaleSpec | service/sale.go:27-74 | an empty request gives "sale must have at least one item"; a pricing error is returned with nothing stored; any failure leaves the tables unchanged; on success the sale carries the new id and the sum of the subtotals, its rows are the priced lines and the stock is decremented by them; with no database error it succeeds iff the request is non-empty, pricing under the stock pre-check succeeds and every guarded decrement applies, and a priced request that does not fit gives insufficient stock |
| SaleService.UpdateSaleSpec | service/sale.go:108-159 | an empty request is refused first; a sale that is not live gives "sale not found" before any pricing; any failure leaves the tables unchanged; on success the total is the sum of the new subtotals, the lines are replaced and the stock is the old lines' restored and the new ones' taken; with no database error it succeeds iff the request is non-empty, the sale is live, pricing succeeds and the new lines fit the restored stock, and otherwise a priced request gives insufficient stock |
| SaleService.DeleteSaleSpec | service/sale.go:161-172 | a sale that is not live gives "sale not found" with nothing changed; with no database error it succeeds iff the sale is live; on success the old lines' stock is given back and the sale is soft-deleted and has no lines |
| SaleService.CreateSaleKeepsTotals | service/sale.go:51-68 | after a Create every sale with lines records as total the sum of its lines' subtotals |
| SaleService.UpdateSaleKeepsTotals | service/sale.go:136-153 | after an Update every sale with lines records as total the sum of its lines' subtotals |
| SaleService.DeleteSaleKeepsTotals | service/sale.go:161-172 | after a Delete every sale with lines still records the sum of their subtotals |
| SaleService.PrecheckSufficesForDistinctItems | service/sale.go:46-49 | when the lines name different items, lines that pass the per-line stock pre-check all pass the repository's guarded decrements |
| SaleService.RepeatedItemPassesPrecheck | service/sale.go:46-49 | two lines of 3 units of an item with 5 in stock each pass the pre-check, yet Create fails with insufficient stock at the second guarded decrement |
| SaleService.CreateSale | service/sale.go:27-74 | the service's Create produces the result and tables of `CreateSaleSpec` and keeps the store's invariant |
| SaleService.UpdateSale | service/sale.go:108-159 | the service's Update produces the result and tables of `UpdateSaleSpec` and keeps the store's invariant |
| SaleService.DeleteSale | service/sale.go:161-172 | the service's Delete produces the result and tables of `DeleteSaleSpec` and keeps the store's invariant |
| SaleService.GetSaleByID | service/sale.go:91-106 | the header and lines iff the sale is live and no read fails; "sale not found" iff it is not live; the lines are exactly the sale's stored lines: each one of them, every stored line carrying the sale's id included, in id order |
| SaleService.GetAllSales | service/sale.go:76-89 | the pagination echoes page and limit and carries the count of all live sales; the rows are the whole window: as many as remain after the offset `(page-1)*limit`, at most `limit`, each a live sale as stored, newest first, the `i`-th with exactly `(page-1)*limit + i` newer live sales |
| Catalogue.Lookup | service/item.go:55-64 | the Get...ByID shape: the stored row iff the lookup succeeds and the row exists; the "not found" message iff it does not exist |
| Catalogue.Remove | service/item.go:115-126 | the Delete shape: succeeds iff the row exists and no call fails, removing exactly that row; "not found" iff it is missing; a failure changes nothing |
| Catalogue.InsertFresh | service/item.go:37 | an insert adds exactly one row under an id no row had and leaves the others alone |
| Catalogue.Paged | service/rack.go:41-69 | the list shape: a database error is passed on; otherwise the repository's rows, with page and limit echoed and the total records the repository's count |
| ItemService.CreateItem | service/item.go:27-38 | "failed to check SKU" iff the SKU lookup fails; "SKU already exists" iff an item holds the SKU; otherwise the insert; the table changes only on success |
| ItemService.CreateItemKeepsUnique | service/item.go:27-38 | Create keeps SKUs unique, and a new item is the only holder of its SKU |
| ItemService.GetItemByID | service/item.go:55-64 | the stored item iff it exists; "item not found" iff it is missing |
| ItemService.UpdateItemSpec | service/item.go:66-113 | "item not found" iff the item is missing; "failed to check SKU" iff the SKU changed and its lookup fails; "SKU already exists" iff a changed SKU is held; success iff the item exists, neither lookup nor write fails and a changed SKU is free; success writes exactly the merged record; a failure changes nothing |
| ItemService.UpdateItem | service/item.go:66-113 | the field-by-field merge into the caller's record and the checks give the result and table of `UpdateItemSpec`; the caller's record becomes the merged one |
| ItemService.MergeItemRule | service/item.go:76-99 | sent SKU, name, category and rack are written and blank ones keep the stored value; stock, minimum stock and price are written as sent, zero included; merging again changes nothing |
| ItemService.UnchangedSkuSkipsLookup | service/item.go:101-110 | when the merged SKU is the stored one, a failing SKU lookup makes no difference |
| ItemService.UpdateItemKeepsUnique | service/item.go:66-113 | Update keeps SKUs unique |
| ItemService.DeleteItem | service/item.go:115-126 | succeeds iff the item exists, removing only it; "item not found" iff it is missing |
| ItemService.DeleteItemKeepsUnique | service/item.go:115-126 | Delete keeps SKUs unique |
| RackService.CreateRack | service/rack.go:28-39 | "failed to check rack code" iff the lookup fails; "rack code already exists in this warehouse" iff a rack holds the pair; otherwise the insert |
| RackService.CreateRackKeepsUnique | service/rack.go:28-39 | Create keeps codes unique per warehouse, and the new rack is the only holder of its pair |
| RackService.GetRackByID | service/rack.go:71-80 | the stored rack iff it exists; "rack not found" iff it is missing |
| RackService.UpdateRackSpec | service/rack.go:82-119 | "rack not found" iff missing; "failed to check rack code" iff the pair changed and its lookup fails; a changed pair held by a rack other than this one is refused; success iff the rack exists, neither lookup nor write fails and a changed pair is held by no other rack; success writes exactly the merged record; a failure changes nothing |
| RackService.UpdateRack | service/rack.go:82-119 | the field-by-field merge and the checks give the result and table of `UpdateRackSpec`; the caller's record becomes the merged one |
| RackService.MergeRackRule | service/rack.go:92-105 | a sent warehouse, code or description is written, a zero, empty or absent one keeps the stored value; merging again changes nothing |
| RackService.ChangedPairSelfMatchImpossible | service/rack.go:107-116 | under unique codes a changed pair is never held by the rack itself, so the re-check refuses iff any rack holds the pair, and at most one does |
| RackService.UpdateRackKeepsUnique | service/rack.go:82-119 | Update keeps codes unique per warehouse |
| RackService.DeleteRack | service/rack.go:121-132 | succeeds iff the rack exists, removing only it; "rack not found" iff it is missing |
| WarehouseService.CreateWarehouse | service/warehouse.go:27-38 | "failed to check warehouse name" iff the lookup fails; "warehouse name already exists" iff the name is held; otherwise the insert |
| WarehouseService.CreateWarehouseKeepsUnique | service/warehouse.go:27-38 | Create keeps names unique, and the new warehouse is the only holder of its name |
| WarehouseService.GetWarehouseByID | service/warehouse.go:55-64 | the stored warehouse iff it exists; "warehouse not found" iff it is missing |
| WarehouseService.UpdateWarehouseSpec | service/warehouse.go:66-98 | "warehouse not found" iff missing; "failed to check warehouse name" iff the name changed and its lookup fails; "warehouse name already exists" iff a changed name is held; success iff the warehouse exists, neither lookup nor write fails and a changed name is free; success writes exactly the merged record; a failure changes nothing |
| WarehouseService.UpdateWarehouse | service/warehouse.go:66-98 | the field-by-field merge and the checks give the result and table of `UpdateWarehouseSpec` |
| WarehouseService.MergeWarehouseRule | service/warehouse.go:76-84 | a sent name or location is written, an empty one keeps the stored value; merging again changes nothing |
| WarehouseService.UpdateWarehouseKeepsUnique | service/warehouse.go:66-98 | Update keeps names unique |
| WarehouseService.DeleteWarehouse | service/warehouse.go:100-111 | succeeds iff the warehouse exists, removing only it; "warehouse not found" iff it is missing |
| CategoryService.CreateCategory | service/category.go:27-38 | "failed to check category name" iff the lookup fails; "category name already exists" iff the name is held; otherwise the insert |
| CategoryService.CreateCategoryKeepsUnique | service/category.go:27-38 | Create keeps names unique, and the new category is the only holder of its name |
| CategoryService.GetCategoryByID | service/category.go:55-64 | the stored category iff it exists; "category not found" iff it is missing |
| CategoryService.UpdateCategorySpec | service/category.go:66-98 | "category not found" iff missing; "failed to check category name" iff the name changed and its lookup fails; "category name already exists" iff a changed name is held; success iff the category exists, neither lookup nor write fails and a changed name is free; success writes exactly the merged record; a failure changes nothing |
| CategoryService.UpdateCategory | service/category.go:66-98 | the field-by-field merge and the checks give the result and table of `UpdateCategorySpec` |
| CategoryService.MergeCategoryRule | service/category.go:76-84 | a sent name or description is written, an empty name or absent description keeps the stored value; merging again changes nothing |
| CategoryService.UpdateCategoryKeepsUnique | service/category.go:66-98 | Update keeps names unique |
| CategoryService.DeleteCategory | service/category.go:100-111 | succeeds iff the category exists, removing only it; "category not found" iff it is missing |
| UserService.CreateUser | service/user.go:28-39 | "failed to check email" iff the lookup fails; "email already exists" iff an active user holds the address; otherwise the insert |
| UserService.CreateUserKeepsUnique | service/user.go:28-39 | Create keeps addresses unique among active users, and a new active user is the only holder of its address |
| UserService.GetUserByIDDetailed | service/user.go:60-69 | the stored user iff it exists and is active; "user not found" otherwise |
| UserService.CreateUserAsWritten | repository/user.go:35-52 | Create over the e-mail lookup as written never inserts; "email already exists" iff an active user holds the address, and "failed to check email" otherwise |
| UserService.FreeAddressRefusedAsWritten | repository/user.go:47 | on a free address with no database failure, Create as written refuses with "failed to check email" while Create as intended inserts |
| UserService.GetUserByIDDetailedAsWritten | repository/user.go:54-71 | the lookup by id as written: the stored active user, or else a database error, never "user not found" |
| UserService.MissingUserAsWritten | repository/user.go:66 | for an absent or inactive user the as-written lookup gives a database error where the intended one gives "user not found" |
| UserService.UpdateUserAsWritten | service/user.go:71-107 | Update over both lookups as written: never "user not found", never a changed address; it succeeds iff the user is active, neither lookup nor write fails and the address is unchanged |
| UserService.FreeAddressUpdateRefusedAsWritten | repository/user.go:47 | moving an active user to a free address with no database failure is refused with "failed to check email" as written and succeeds as intended |
| UserService.DeleteUserAsWritten | service/user.go:109-120 | Delete over the lookup by id as written: succeeds iff the user is active and nothing fails; every failure is a database error, never "user not found" |
| UserService.MissingUserChangeAsWritten | repository/user.go:66 | for an absent or inactive user, Update and Delete as written give a database error where the intended ones give "user not found" |
| UserService.UpdateUserSpec | service/user.go:71-107 | "user not found" iff the user is missing or inactive; "failed to check email" iff the address changed and its lookup fails; "email already exists" iff a changed address is held by an active user; success iff the user is active, neither lookup nor write fails and a changed address is free; success writes exactly the merged record; a failure changes nothing |
| UserService.UpdateUser | service/user.go:71-107 | the field-by-field merge and the checks give the result and table of `UpdateUserSpec` |
| UserService.MergeUserRule | service/user.go:81-93 | a sent name, e-mail, password hash or role is written and a blank one keeps the stored value; the active flag is written as sent |
| UserService.UpdateUserKeepsUnique | service/user.go:71-107 | Update keeps addresses unique among active users |
| UserService.DeleteUser | service/user.go:109-120 | succeeds iff the user is active, removing only it; "user not found" iff it is missing or inactive |
| AuthMiddleware.Split | middleware/auth.go:21 | Go's `strings.Split`: at least one part, and no part contains the separator |
| AuthMiddleware.JoinSplit | middleware/auth.go:21 | joining the parts with the separator gives back the header |
| AuthMiddleware.SplitJoin | middleware/auth.go:21 | splitting a join of separator-free parts gives back the parts |
| AuthMiddleware.ParseBearer | middleware/auth.go:14-27 | every rejection is a 401, and "missing authorization header" is given iff the header is empty |
| AuthMiddleware.ParseBearerExact | middleware/auth.go:21-27 | the header yields token `t` iff it is exactly `"Bearer " + t` with no space in `t`; the empty token after `"Bearer "` is accepted |
| AuthMiddleware.NoSpaceRefused | middleware/auth.go:21-25 | a non-empty header without a space is refused as an invalid format |
| AuthMiddleware.SchemeThenRest | middleware/auth.go:21-27 | a header of a scheme, a space and a rest is accepted iff the scheme is exactly "Bearer" (case matters) and the rest has no further space, and then the token is the rest |
| AuthMiddleware.CheckRole | middleware/auth.go:43-80 | passes iff there is a user whose role is in the allowed list (so an empty list denies everyone); 401 "unauthorized" iff there is no user; 403 "access denied" iff the role is not in the list |

## Findings

| source | as written | input that shows it | evidently intended | confidence | as-written member | corrected member |
|---|---|---|---|---|---|---|
| repository/user.go:47 | `FindByEmail` treats only `sql.ErrNoRows` as "no user", but the pgx driver returns `pgx.ErrNoRows`, so an address no active user holds comes back as an error; `Create` then answers "failed to check email" and never inserts, and `Update` refuses every change to a free address the same way | a table with no active user at address `e` and a Create with `e`, no database failure | no row means no holder: the insert goes ahead (the other repositories compare against `pgx.ErrNoRows`) | high; not executed | UserService.CreateUserAsWritten, UserService.FreeAddressRefusedAsWritten, UserService.UpdateUserAsWritten, UserService.FreeAddressUpdateRefusedAsWritten | UserService.CreateUser, UserService.UpdateUserSpec |
| repository/user.go:66 | `FindByID` has the same comparison, so an absent or inactive user comes back as the driver's error; `GetUserByIDDetailed`, `Update` and `Delete` pass that error on and never say "user not found" | any id with no active user, no database failure | "user not found" | high; not executed | UserService.GetUserByIDDetailedAsWritten, UserService.MissingUserAsWritten, UserService.UpdateUserAsWritten, UserService.DeleteUserAsWritten, UserService.MissingUserChangeAsWritten | UserService.GetUserByIDDetailed, UserService.UpdateUserSpec, UserService.DeleteUser |

## Left out

- SQL text, the pgx pool type assertion at repository/sale.go:34-37, `context`, and logging. The tables are maps, and a database error is the statement a fault parameter names.
- The id sequences are not rolled back on failure, as in PostgreSQL. Timestamps (`NOW()`, `created_at`) are not modelled; only the deleted flag is kept. "Newest first" (`ORDER BY created_at DESC`) is modelled as descending sale id, since ids are drawn in creation order.
- Money is `float64` in the source and an `int` of minor units here. Nothing is claimed about floating-point rounding of totals.
- Concurrency is not modelled. Update and Delete read the old lines outside the transaction (repository/sale.go:220, 329), which matters only with concurrent writers. A single sequential store is modelled.
- SaleRepository.SaleStore.FindAll: a database error in the count or the page query is not modelled; only the refusal of a negative offset or limit is.
- `utils.TotalPage` is not part of this model, so the pagination record has no `TotalPages`. The handler's `page < 1` default is not modelled either.
- The list operations `GetAllItems`, `GetAllRacks`, `GetRacksByWarehouse`, `GetAllWarehouses`, `GetAllCategories` and `GetAllUsers` are all `Catalogue.Paged` over the repository's answer. The repositories' listing queries are not part of this model.
- The catalogue repositories are not part of this model; they are keyed maps. A lookup by key stands for the set of rows holding that key. The user repository's `Update` and `Delete` are not part of this model; they are a row write and a row removal. `UserService.GetUserByID` only passes through to the repository and is not modelled.
- RackService.UpdateRackSpec: when several racks hold a pair, the source's lookup returns one of them; the model refuses whenever a rack other than the updated one holds it. With unique codes the two agree (`ChangedPairSelfMatchImpossible`).
- model/warehouse.go and model/category.go are not part of this model. The warehouse and category fields are taken from how the services use them.
- Request validation (`gt=0` on item id and quantity, at least one line, dto/sale.go:4-9) is a precondition on quantities (`PositiveRequests`). The empty request is still handled as the service handles it.
- `ValidateToken` is not part of this model: the middleware hands the parsed token on.
- AuthMiddleware.CheckRole: takes the user's role name as an optional string, i.e. the role check as evidently intended. As written, `RoleMiddleware` asserts the context value to a pointer to an anonymous struct (middleware/auth.go:54-62). The value `AuthMiddleware` stores there is the `*model.User` that `ValidateToken` returns (middleware/auth.go:30-37, service/auth.go:82). That assertion panics whenever a user is present, so the 403 branch and the pass-through are never reached as written. No route applies `RoleMiddleware` (router/router.go:40-101), so no request reaches this panic.
- HTTP handlers, routing, JSON and response writing are left out; a rejection is a status code and a message.
