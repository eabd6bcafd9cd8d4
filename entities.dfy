/**
 * The four entity kinds of the store, the rows that tables hold, and the
 * error and result types shared by the store and the queries.
 *
 * String fields are `Option<string>`: a row read back from a file may carry a
 * null in any of them, and the table validators look for exactly that.
 */
module Entities {
  import opened Wrappers

  /** The kinds of table the store can hold; the source keys its tables by the
      run-time type of the row class, here by this tag. */
  datatype Kind = ShopKind | BuyerKind | GoodKind | SaleKind

  datatype Shop = Shop(id: int, name: Option<string>, city: Option<string>, country: Option<string>)

  datatype Buyer = Buyer(id: int, name: Option<string>, surname: Option<string>,
                         city: Option<string>, country: Option<string>)

  datatype Good = Good(id: int, name: Option<string>, shopId: int, category: Option<string>, price: int)

  datatype Sale = Sale(id: int, buyerId: int, shopId: int, goodId: int, goodCount: int)

  /** A row of some table. */
  datatype Entity =
    | ShopRow(shop: Shop)
    | BuyerRow(buyer: Buyer)
    | GoodRow(good: Good)
    | SaleRow(sale: Sale)
  {
    /** The kind of table this row belongs in (the row's class in the source). */
    function KindOf(): Kind {
      match this
      case ShopRow(_) => ShopKind
      case BuyerRow(_) => BuyerKind
      case GoodRow(_) => GoodKind
      case SaleRow(_) => SaleKind
    }
  }

  /** Every row of `rows` belongs in a table of kind `k`. */
  predicate OfKind(rows: seq<Entity>, k: Kind) {
    forall i | 0 <= i < |rows| :: rows[i].KindOf() == k
  }

  /** The failures the store reports (all of them a `DataBaseException` in the
      source, told apart here by their cause). */
  datatype DbError =
    | TableAlreadyExists(kind: Kind)
    | TableNotFound(kind: Kind)
    | FileAccessFailed       // the file could not be opened, written or parsed
    | DeserializationFailed  // the file decoded to a null document

  datatype Result<+T> = Ok(value: T) | Err(error: DbError)
}
