/** Failure-carrying result types used by every layer of the model. */
module Results {

  datatype Option<+T> = None | Some(value: T)

  datatype Result<+T, +E> = Ok(value: T) | Err(error: E)

  /** An operation that returns only an error or nothing. */
  datatype Outcome<+E> = Pass | Fail(error: E)
}

/**
 * The records of the inventory backend. Money (a float64 in the service) is an
 * int counted in minor units, so sums and products are exact; timestamps are
 * left out except for the soft-delete marker of a sale.
 */
module Model {
  import opened Results

  /** An item of the catalogue, whose stock is moved by sales. */
  datatype Item = Item(
    sku: string,
    name: string,
    categoryId: int,
    rackId: int,
    stock: int,
    minimumStock: int,
    price: int)

  /** A sale header; `deleted` stands for a non-null deleted_at. */
  datatype Sale = Sale(id: int, userId: int, totalAmount: int, deleted: bool)

  /** One line of a sale: the item, how many, and the price snapshot taken when it was priced. */
  datatype SaleItem = SaleItem(
    id: int,
    saleId: int,
    itemId: int,
    quantity: int,
    priceAtSale: int,
    subtotal: int)

  /** One `{item_id, quantity}` element of a sale request. */
  datatype SaleItemRequest = SaleItemRequest(itemId: int, quantity: int)

  datatype Rack = Rack(warehouseId: int, code: string, description: Option<string>)

  datatype Warehouse = Warehouse(name: string, location: string)

  datatype Category = Category(name: string, description: Option<string>)

  datatype User = User(
    name: string,
    email: string,
    passwordHash: string,
    roleId: int,
    isActive: bool)

  /** The failures of the sale transaction engine. */
  datatype SaleError =
    | EmptySale                      // no line in the request
    | ItemNotFound                   // a line names an unknown item
    | InsufficientStockFor(name: string)  // the service's pre-check, naming the item
    | InsufficientStock              // the repository's guarded decrement touched no row
    | SaleNotFound                   // absent or soft-deleted sale
    | StorageFailure                 // any error of the database itself

  /** The error text each failure carries. */
  function SaleErrorMessage(e: SaleError): string
  {
    match e
    case EmptySale => "sale must have at least one item"
    case ItemNotFound => "item not found"
    case InsufficientStockFor(name) => "insufficient stock for item: " + name
    case InsufficientStock => "insufficient stock for item"
    case SaleNotFound => "sale not found"
    case StorageFailure => "storage failure"
  }

  /** Page number, page size and the count of all rows, as echoed to the client. */
  datatype Pagination = Pagination(currentPage: int, limit: int, totalRecords: int)
}
