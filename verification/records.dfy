/**
 The plain data the sync engine passes around: the accounting service's
 accounts and transactions, the responses of its listing endpoints, the
 spreadsheet tabs as grids of cells, and the six-column ledger row.
 */
module Records {

  datatype Option<+T> = None | Some(value: T) {
    /** `x || d` for a value that is either present or null. */
    function GetOr(default: T): T {
      match this
      case Some(v) => v
      case None => default
    }
  }

  /** One spreadsheet tab as read by `getValues`: rows top to bottom, row 0 is sheet row 1. */
  type Sheet = seq<seq<string>>

  /** Column `col` (0-based) of a row; a cell the row does not reach reads as empty. */
  function CellAt(row: seq<string>, col: nat): (c: string)
    ensures col < |row| ==> c == row[col]
    ensures col >= |row| ==> c == ""
  {
    if col < |row| then row[col] else ""
  }

  /** A bank account as listed by `GET /bank_accounts`; the balance is in minor units. */
  datatype Account = Account(name: string, url: string, currentBalance: Option<int>)

  /** The reply to an account listing: the accounts, or an exception thrown by fetch or parse. */
  datatype Listing = Listed(accounts: seq<Account>) | ListingThrew

  /** A transaction as it comes out of the JSON reply, before an id has been given to it. */
  datatype RawTx = RawTx(
    url: Option<string>,
    datedOn: string,
    description: Option<string>,
    amount: string,
    categoryName: Option<string>)

  /** The reply to one page request: the records, or an exception thrown by fetch or parse. */
  datatype Page = Served(records: seq<RawTx>) | PageThrew

  /** A fetched transaction, carrying the id derived from its URL. */
  datatype Tx = Tx(
    id: string,
    datedOn: string,
    description: Option<string>,
    amount: string,
    categoryName: Option<string>)

  /** Column 6 of the ledger tab holds the transaction id. */
  const IdColumn: nat := 5

  /** One row appended to the ledger tab. */
  datatype LedgerRow = LedgerRow(
    datedOn: string,
    description: Option<string>,
    amount: string,
    category: string,
    department: string,
    id: string)
  {
    /** The six cells written for this row; a null description is written as a blank cell. */
    function Cells(): (cells: seq<string>)
      ensures |cells| == 6
      ensures cells[IdColumn] == id
      ensures cells[3] == category && cells[4] == department
    {
      [datedOn, description.GetOr(""), amount, category, department, id]
    }
  }
}
