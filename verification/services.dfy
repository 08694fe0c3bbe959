/** The catalog service operations (src/service_layer/services.py). Each runs
    inside a unit of work, modelled as the test suite's fake one: a repository
    and a flag recording whether `commit` was called. Raised exceptions become
    `Err` results; `date.today()` is the parameter `today`. */
module Services {
  import opened Wrappers
  import opened Domain
  import opened Repository

  /** `InvalidSku` and `ProductNotFound`, with the messages they carry. */
  datatype ServiceError = InvalidSku(message: string) | ProductNotFound(message: string)

  /** The unit of work a service call runs in. */
  datatype UnitOfWork = UnitOfWork(products: Repo, committed: bool)

  /** The outcome of a call that may change the unit of work. */
  datatype Reply = Reply(result: Result<Product, ServiceError>, uow: UnitOfWork)

  /** `add_product`: refuses a sku that is already stored; otherwise stores a
      new product created today and never updated, and commits. An exception
      leaves the unit of work as it was. */
  function AddProduct(
    sku: string, name: string, description: string, price: Price,
    brand: string, category: string, stock: int, today: Date, uow: UnitOfWork): (out: Reply)
    ensures Get(uow.products, sku).Some? ==>
      out == Reply(Err(InvalidSku("Invalid sku " + sku)), uow)
    ensures Get(uow.products, sku).None? ==>
      && out.result.Ok?
      && out.result.value == Product(sku, name, description, price, brand, category, stock, today, None)
      && Get(out.uow.products, sku) == Some(out.result.value)
      && out.uow.products.Keys == uow.products.Keys + {sku}
      && out.uow.committed
    ensures forall k | k != sku :: Get(out.uow.products, k) == Get(uow.products, k)
  {
    if Get(uow.products, sku).Some? then
      Reply(Err(InvalidSku("Invalid sku " + sku)), uow)
    else
      var product := Product(sku, name, description, price, brand, category, stock, today, None);
      Reply(Ok(product), UnitOfWork(Add(uow.products, product), true))
  }

  /** `get_product`: the stored product, or `ProductNotFound`. */
  function GetProduct(sku: string, uow: UnitOfWork): (r: Result<Product, ServiceError>)
    ensures r.Ok? <==> sku in uow.products
    ensures r.Ok? ==> r.value.sku == sku && Get(uow.products, sku) == Some(r.value)
    ensures r.Err? ==> r.error == ProductNotFound("Product with SKU " + sku + " not found")
  {
    match Get(uow.products, sku)
    case Some(product) => Ok(product)
    case None => Err(ProductNotFound("Product with SKU " + sku + " not found"))
  }

  /** `list_products`: the repository's listing, sorted ascending by sku. */
  method ListProducts(uow: UnitOfWork) returns (r: seq<Product>)
    ensures IsListing(uow.products, r)
    ensures |r| == |uow.products|
  {
    r := List(uow.products);
  }

  // ---------------------------------------------------------------------
  // Properties relating the operations

  /** A product `add_product` created is what `get_product` then returns. */
  lemma AddThenGetProduct(
    sku: string, name: string, description: string, price: Price,
    brand: string, category: string, stock: int, today: Date, uow: UnitOfWork)
    requires sku !in uow.products
    ensures
      var out := AddProduct(sku, name, description, price, brand, category, stock, today, uow);
      GetProduct(sku, out.uow) == out.result
  {
  }

  /** Adding the same sku twice: the second call fails with `InvalidSku`, does
      not commit again, and the first product stays as it was. */
  lemma AddTwiceFails(
    sku: string, name: string, description: string, price: Price,
    brand: string, category: string, stock: int, today: Date,
    name2: string, description2: string, price2: Price,
    brand2: string, category2: string, stock2: int, today2: Date,
    uow: UnitOfWork)
    requires sku !in uow.products
    ensures
      var first := AddProduct(sku, name, description, price, brand, category, stock, today, uow);
      var second := AddProduct(sku, name2, description2, price2, brand2, category2, stock2, today2, first.uow);
      && second.result == Err(InvalidSku("Invalid sku " + sku))
      && second.uow == first.uow
      && GetProduct(sku, second.uow) == first.result
  {
  }

  /** A failed `add_product` leaves the listing untouched; a successful one
      lists the new product among the others. */
  lemma AddProductListing(
    sku: string, name: string, description: string, price: Price,
    brand: string, category: string, stock: int, today: Date, uow: UnitOfWork,
    before: seq<Product>, after: seq<Product>)
    requires IsListing(uow.products, before)
    requires IsListing(AddProduct(sku, name, description, price, brand, category, stock, today, uow).uow.products, after)
    ensures sku in uow.products ==> after == before
    ensures sku !in uow.products ==>
      |after| == |before| + 1 &&
      forall p :: p in after <==> p in before || p == AddProduct(sku, name, description, price, brand, category, stock, today, uow).result.value
  {
    var out := AddProduct(sku, name, description, price, brand, category, stock, today, uow);
    if sku in uow.products {
      ListingUnique(uow.products, before, after);
    } else {
      var p := out.result.value;
      ListingLength(uow.products, before);
      ListingLength(out.uow.products, after);
      assert |out.uow.products.Keys| == |uow.products.Keys| + 1;
      forall q ensures q in after <==> q in before || q == p {
        if q in after {
          var i :| 0 <= i < |after| && after[i] == q;
          if q != p {
            assert q.sku in uow.products;
            assert q.sku in Skus(before);
            var j :| 0 <= j < |before| && before[j].sku == q.sku;
          }
        }
        if q in before {
          var j :| 0 <= j < |before| && before[j] == q;
          assert q.sku in Skus(after);
          var i :| 0 <= i < |after| && after[i].sku == q.sku;
        }
        if q == p {
          AddThenGet(uow.products, p, after);
        }
      }
    }
  }
}
