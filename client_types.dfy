/** The records the console exchanges with the ledger service, as the
    browser sees them (JSON decoded into plain values). */
module ClientTypes {
  import opened Wrappers

  /** A borrower as listed by GET /users/enabled. Numbers are kept exact:
      balances are whole rupees, interest is a real. */
  datatype User = User(
    userId: string,
    mobile: string,
    name: string,
    startDate: string,
    endDate: string,
    balance: int,
    interest: real,
    remarks: bool,
    enabled: bool)

  /** The number of keys of a decoded borrower object, Object.keys(user).length. */
  const USER_KEY_COUNT: nat := 9

  /** One entry of a borrower's payment history as listed by
      GET /transactions/user/{userId}. */
  datatype TransactionRow = TransactionRow(
    transactionId: string,
    transactionDate: string,
    comment: string,
    amountPaid: int,
    balance: int)

  /** The number of keys of a decoded history entry. */
  const TRANSACTION_KEY_COUNT: nat := 5

  /** The requests the console sends; each is one HTTP call. */
  datatype Request =
    | ListEnabledUsers
    | CreateUser(name: string, mobile: string, balance: int, startDate: string)
    | DeleteUser(userId: string)
    | ListTransactions(userId: string)
    | CreateTransaction(userId: string, amountPaid: int, comment: Option<string>)

  /** A render that throws: Object.keys applied to the first element of an
      empty list (undefined). */
  datatype RenderError = KeysOfUndefined

  /** How a request ended, as seen by a mutation's callbacks. */
  datatype Outcome = Succeeded | Failed
}
