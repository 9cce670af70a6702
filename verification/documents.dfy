/**
 The JSON documents the sensors read, as immutable datatypes.

 Every field the sensors look up with `dict.get(key, default)` or `dict[key]`
 is an `Option`: `None` stands for a key that is absent from the document.
 */
module Documents {

  /** A value that may be absent (a missing JSON key). */
  datatype Option<+T> = None | Some(value: T) {

    /** The value, or `default` when absent: Python's `d.get(key, default)`. */
    function GetOr(default: T): T {
      match this
      case Some(v) => v
      case None => default
    }
  }

  /** One row of a shopping list: `{ "text": ..., "isStriked": ... }`, both keys optional. */
  datatype Row = Row(text: Option<string>, isStriked: Option<bool>)

  /** A shopping-list document: `{ "name": ..., "rows": [...] }`, both keys optional. */
  datatype ListDoc = ListDoc(name: Option<string>, rows: Option<seq<Row>>)

  /** One record of the purchase history; every field may be missing from the response. */
  datatype Transaction = Transaction(
    transactionId: Option<string>,
    transactionDate: Option<string>,
    transactionValue: Option<string>,
    totalDiscount: Option<string>,
    storeMarketingName: Option<string>)

  /** The body of a purchase-history response: `{ "transactions": [...] }`. */
  datatype PurchaseBody = PurchaseBody(transactions: Option<seq<Transaction>>)

  /** A row counts as struck only when `isStriked` is present and true. */
  predicate IsStruck(row: Row) {
    row.isStriked.GetOr(false)
  }

  /** The text a row projects to; a missing `text` reads as the empty string. */
  function TextOf(row: Row): string {
    row.text.GetOr("")
  }

  /** The rows of a list document; a missing `rows` reads as the empty list. */
  function RowsOf(doc: ListDoc): seq<Row> {
    doc.rows.GetOr([])
  }

  /** The name of a list document; a missing `name` reads as the empty string. */
  function NameOf(doc: ListDoc): string {
    doc.name.GetOr("")
  }

  /** The transactions of a purchase-history body; a missing key reads as the empty list. */
  function TransactionsOf(body: PurchaseBody): seq<Transaction> {
    body.transactions.GetOr([])
  }
}
