/** The catalog's single entity (src/domain/model.py). */
module Domain {
  import opened Wrappers

  /** A calendar date (Python's `datetime.date`). Date arithmetic is never used
      by the catalog, so the fields carry no validity constraint. */
  datatype Date = Date(year: int, month: int, day: int)

  /** A price. The source stores a floating-point number; the catalog only
      stores and compares it, so it is kept abstract. */
  type Price(==, !new)

  /** A catalog product. No service operation sets `updatedAt`; a product has
      one only when it is loaded from a row whose `updated_at` cell is not
      empty. */
  datatype Product = Product(
    sku: string,
    name: string,
    description: string,
    price: Price,
    brand: string,
    category: string,
    stock: int,
    createdAt: Date,
    updatedAt: Option<Date>)
}
