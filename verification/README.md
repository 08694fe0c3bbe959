# Product catalog: repository and service layer in Dafny

This project models the persistence and service logic of a small product
catalog: a repository that keeps products in a dictionary keyed by SKU, lists
them sorted by SKU, and loads them from a CSV file; and the catalog service
operations `add_product`, `get_product` and `list_products` with their
`InvalidSku` and `ProductNotFound` errors.

Modules, one per component:

- `Wrappers` (`wrappers.dfy`): `Option` (Python's `None`) and `Result` (a
  returned value or the exception that would have been raised).
- `Domain` (`domain.dfy`): the `Product` record of `src/domain/model.py`. The
  price is an abstract type, because the catalog stores it and never computes
  with it. Dates are year/month/day triples.
- `StringOrder` (`string_order.dfy`): Python's `<` on `str`, which orders the
  listing. It is lexicographic by code point, and a proper prefix sorts first.
  The file proves that this order is irreflexive, asymmetric, transitive and
  total.
- `Repository` (`repository.dfy`): `InMemoryRepository`. Its `add`, `get` and
  `list` code is repeated verbatim in `CsvRepository`
  (src/adapters/repository.py lines 66-73), so the same members model both. A
  repository is a map from SKU to product in which every product is stored
  under its own SKU. `list` is an insertion sort into a sequence kept strictly
  ascending by SKU. Its defining predicate, `IsListing`, is proved to have exactly
  one solution.
- `CsvRepository` (`csv_repository.dfy`): `CsvRepository._load`. Rows arrive
  already keyed by the header's column names. Python's `float`, `int` and
  `date.fromisoformat` are parameters: partial functions that return `None`
  where Python raises `ValueError`. A missing column is `MissingColumn`
  (Python's `KeyError`). A cell that does not parse is `InvalidValue`.
- `Services` (`services.dfy`): `src/service_layer/services.py`. The unit of
  work is a repository plus a `committed` flag, as in the test suite's fake unit of
  work. Exceptions are `Err` results that leave the unit of work unchanged.
  `date.today()` is the parameter `today`.

What the code does and does not do:

- Loading aborts on the first row that fails to decode. No row is skipped,
  because the only exceptions caught are `FileNotFoundError` and
  `StopIteration`.
- No service operation sets `updated_at`. A product has one only when it is
  loaded from a row whose `updated_at` cell is not empty. No edit or remove
  operation exists.
- There is no encoder and nothing is written back: the CSV unit of work's
  `commit` does nothing. So there is no encode/decode round trip to prove.
- Price and stock are not checked for being non-negative, and the SKU is not
  checked for being non-empty.

## Model

| member | source | states |
|---|---|---|
| StringOrder.LessIrreflexive | src/adapters/repository.py:34 | Python's `<` on `str` (lexicographic by code point, a proper prefix first), which orders the listing by SKU, never holds between a string and itself |
| StringOrder.LessAsymmetric | src/adapters/repository.py:34 | under Python's `str` order, if one SKU sorts before another then the second does not sort before the first |
| StringOrder.LessTransitive | src/adapters/repository.py:34 | Python's `str` order on SKUs is transitive |
| StringOrder.LessTotal | src/adapters/repository.py:34 | any two distinct SKUs are ordered one way or the other by Python's `str` order |
| Repository.FromProducts | src/adapters/repository.py:24-25 | every given product's SKU is a key, and every key is some product's SKU; the product stored for a SKU is the last one given with that SKU |
| Repository.FromProductsOrderIndependent | src/adapters/repository.py:24-25 | products with distinct SKUs build the same repository whatever order they are given in |
| Repository.Add | src/adapters/repository.py:27-28 | after `add(p)`, `get(p.sku)` is `p`; every other SKU's lookup is unchanged; the key set grows by exactly `p.sku` |
| Repository.Get | src/adapters/repository.py:30-31 | `get` returns a product exactly when the SKU is stored, and the returned product carries that SKU |
| Repository.AddThenGet | src/adapters/repository.py:27-34 | after `add(p)`, `get(p.sku)` returns `p` and the listing contains `p` |
| Repository.AddCommutes | src/adapters/repository.py:27-28 | adding two products with different SKUs in either order gives the same repository |
| Repository.Insert | src/adapters/repository.py:33-34 | inserting into a strictly SKU-sorted sequence keeps it sorted, adds exactly the new product, and adds exactly its SKU |
| Repository.List | src/adapters/repository.py:33-34 | `list()` is strictly ascending by SKU, lists every stored SKU, lists each product as stored, and has one entry per key |
| Repository.SortedSkusCardinality | src/adapters/repository.py:33-34 | a strictly SKU-sorted sequence has as many distinct SKUs as entries |
| Repository.ListingLength | src/adapters/repository.py:25-34 | any listing of a repository has as many entries as the repository has keys |
| Repository.SkusOfTail | src/adapters/repository.py:33-34 | dropping the first entry of a sorted listing removes exactly that entry's SKU |
| Repository.SortedAgreeingEqual | src/adapters/repository.py:33-34 | two SKU-sorted sequences with the same SKUs whose entries all agree with one repository are equal |
| Repository.ListingUnique | src/adapters/repository.py:33-34 | a repository has exactly one listing, so `list()` is deterministic and does not depend on insertion order |
| CsvRepository.DecodeRow | src/adapters/repository.py:48-60 | a row decodes exactly when all nine columns are present and the price, stock and created_at cells parse, and a non-empty updated_at parses too; text fields are copied; an empty updated_at gives `None` and any other value is parsed as a date; a failure names a column that is missing or does not parse |
| CsvRepository.DecodeRowReportsFirstFailure | src/adapters/repository.py:48-60 | the reported error names the first column, in the order the code reads them, that is missing or does not parse |
| CsvRepository.DecodeAll | src/adapters/repository.py:47-61 | the rows decode exactly when each row does, giving one product per row in file order; otherwise the error is the first failing row's error |
| CsvRepository.Load | src/adapters/repository.py:42-64 | a missing file gives an empty repository; a present file loads exactly when every row decodes; otherwise loading aborts with the first failing row's error |
| CsvRepository.LoadLastRowWins | src/adapters/repository.py:47-61 | a row whose SKU no later row repeats is the product stored for that SKU, so a repeated SKU replaces the earlier row |
| CsvRepository.LoadStoresRowSkus | src/adapters/repository.py:47-61 | every row's SKU is a key of the loaded repository, and every key comes from some row |
| Services.AddProduct | src/service_layer/services.py:15-40 | a stored SKU fails with `InvalidSku("Invalid sku <sku>")` and leaves the unit of work unchanged, so nothing is committed; a fresh SKU stores the given fields with `created_at` set to today and no `updated_at`, returns that product and commits; no other SKU's entry changes |
| Services.GetProduct | src/service_layer/services.py:43-48 | returns the stored product exactly when the SKU is present; otherwise fails with `ProductNotFound("Product with SKU <sku> not found")` |
| Services.ListProducts | src/service_layer/services.py:51-53 | returns the repository's SKU-sorted listing, one entry per stored product |
| Services.AddThenGetProduct | src/service_layer/services.py:26-48 | the product a successful `add_product` returns is what `get_product` then returns |
| Services.AddTwiceFails | src/service_layer/services.py:26-40 | adding the same SKU a second time fails with `InvalidSku`, changes nothing and leaves the first product in place |
| Services.AddProductListing | src/service_layer/services.py:26-40 | after a refused `add_product` the listing is the same as before; after a successful one it is the old listing plus the new product |

## Left out

- The unit of work's `__enter__`/`__exit__` are defined in a module that is not part of this model. They are treated as an abstract scope: an exception leaves the unit of work as it was.
- The CSV unit of work (`commit` and `rollback` do nothing) and the test double `FakeRepository` are not modelled.
- Tokenising the file with `csv.DictReader` is left out: rows arrive as header-keyed maps. A short row gets `None` for its missing cells from the CSV library. That case is not modelled: every present column holds a string.
- Opening the file: any I/O error other than a missing file is not modelled. The `StopIteration` that `_load` catches cannot escape the `for` loop; an empty file is a present file with no rows.
- `float`, `int` and `date.fromisoformat` are abstract partial parsers passed in as parameters. Float values and their arithmetic are not modelled.
- `date.today()` is the parameter `today`.
- Python `str` values may hold lone surrogate code points, which Dafny's `char` cannot represent.
- The HTTP routes and schemas, documentation and framework configuration are not modelled.
