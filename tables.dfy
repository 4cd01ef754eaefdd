/** The three tables of the banking store (account_details, users and
    transaction_history) as Dafny values, plus the few helpers every layer
    shares. */
module Tables {

  datatype Option<T> = None | Some(value: T)

  /** Account numbers are compared as strings throughout the web layer. */
  type AccountNumber = string

  /** SHA-256 over the UTF-8 text, as a hex digest; left abstract. */
  type HashFunction = string -> string

  /** One row of account_details; the map key is its account number. */
  datatype Account = Account(
    holderName: string,
    branch: string,
    ifsc: string,
    upiId: Option<string>,
    balance: int)

  /** One row of users. */
  datatype UserRow = UserRow(
    userId: string,
    email: string,
    accountNumber: AccountNumber,
    passwordHash: string,
    salt: string)

  /** One row of transaction_history. Dates are instants on an integer clock. */
  datatype Transaction = Transaction(
    id: string,
    date: int,
    senderName: string,
    receiverName: string,
    senderAccount: AccountNumber,
    receiverAccount: AccountNumber,
    mode: string,
    amount: int,
    note: string,
    status: string)

  /** The only status the transfer engine ever writes. */
  const SuccessStatus := "SUCCESS"

  predicate AllNonNegative(accounts: map<AccountNumber, Account>) {
    forall k :: k in accounts ==> accounts[k].balance >= 0
  }

  /** The index of the first row satisfying p. */
  function FirstIndex<R>(rows: seq<R>, p: R -> bool): (r: Option<nat>)
    ensures r.Some? ==> r.value < |rows| && p(rows[r.value])
    ensures r.Some? ==> forall j :: 0 <= j < r.value ==> !p(rows[j])
    ensures r.None? ==> forall j :: 0 <= j < |rows| ==> !p(rows[j])
  {
    if rows == [] then None
    else if p(rows[0]) then Some(0)
    else
      match FirstIndex(rows[1..], p)
      case Some(i) => Some(i + 1)
      case None => None
  }

  /** Row i is the one and only row satisfying p. */
  predicate OnlyRow<R>(rows: seq<R>, p: R -> bool, i: int) {
    0 <= i < |rows| && p(rows[i]) && forall j :: 0 <= j < |rows| && j != i ==> !p(rows[j])
  }

  /** What `fetchone()` followed by `cursor.close()` yields on the unbuffered
      cursors the database manager uses: the row when exactly one row
      matches; nothing when none does; and nothing when several do, because
      closing a cursor with unread rows raises an error that the caller
      catches and turns into "no row". */
  function SingleIndex<R>(rows: seq<R>, p: R -> bool): (r: Option<nat>)
    ensures r.Some? ==> OnlyRow(rows, p, r.value)
    ensures r.None? ==> forall i :: 0 <= i < |rows| && p(rows[i]) ==>
      exists j :: 0 <= j < |rows| && j != i && p(rows[j])
  {
    match FirstIndex(rows, p)
    case None => None
    case Some(i) =>
      if exists j | i < j < |rows| :: p(rows[j]) then None else Some(i)
  }
}
