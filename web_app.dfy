/** The decisions the Flask routes of main.py take around the database
    manager: the login gate, the login answer, the beneficiary check, the
    resolution of a transfer's receiver, and the DEBIT/CREDIT tagging of
    the history. Requests arrive already decoded; the logged-in account is
    passed in as `current`. */
module WebApp {
  import opened Tables
  import Balances
  import Database

  // ------------------------------------------------------------ sessions

  type Session = map<string, AccountNumber>

  const SessionKey := "account_number"

  /** What a route guarded by login_required answers. */
  datatype Gate<R> = RedirectToLogin | Ran(response: R)

  /** login_required: a request without an account number in its session is
      sent to the login page; any other runs the wrapped handler. */
  function LoginRequired<R>(session: Session, handler: Session -> R): (r: Gate<R>)
    ensures r.RedirectToLogin? <==> SessionKey !in session
    ensures r.Ran? ==> r.response == handler(session)
  {
    if SessionKey !in session then RedirectToLogin else Ran(handler(session))
  }

  /** Without a login the handler's behaviour cannot show in the answer:
      it is not run. */
  lemma GateIgnoresHandlerWithoutLogin<R>(session: Session, h1: Session -> R, h2: Session -> R)
    requires SessionKey !in session
    ensures LoginRequired(session, h1) == LoginRequired(session, h2) == RedirectToLogin
  {
  }

  datatype LoginReply = LoggedIn(account: AccountNumber) | InvalidCredentials

  /** validate_user_login: the account number the session is bound to, taken
      from the row validate_user accepts. */
  function ValidateUserLogin(db: Database.DatabaseManager, identity: string, password: string,
                             hash: HashFunction): (r: LoginReply)
    reads db
    ensures r.LoggedIn? ==> (exists i :: Database.IsOnlyMatch(db.users, identity, i) &&
                                         r.account == db.users[i].accountNumber &&
                                         hash(password + db.users[i].salt) == db.users[i].passwordHash)
    ensures forall i :: Database.IsOnlyMatch(db.users, identity, i) ==>
      (r.LoggedIn? <==> hash(password + db.users[i].salt) == db.users[i].passwordHash)
    ensures (forall i :: !Database.IsOnlyMatch(db.users, identity, i)) ==> r == InvalidCredentials
  {
    match Database.ValidateUser(db.users, identity, password, hash)
    case Some(user) => LoggedIn(user.accountNumber)
    case None => InvalidCredentials
  }

  // --------------------------------------------------- beneficiary check

  const CannotTransferToSelf := "Cannot transfer to self"
  const InvalidDetails := "Invalid Details"

  /** The JSON answer of /api/lookup_beneficiary: valid with the branch (IMPS
      only) and the holder's name, or not valid with an error text. */
  datatype LookupReply = Accepted(branch: Option<string>, name: string) | Refused(error: string)

  /** The identifier names the requester's own account: for IMPS by being
      its number, for UPI by being an alias no other account shares. */
  predicate NamesSelf(accounts: map<AccountNumber, Account>, current: AccountNumber,
                      mode: string, value: string)
  {
    (mode == "IMPS" && value == current) ||
    (mode == "UPI" && Database.UpiOwner(accounts, value, current))
  }

  /** The identifier names exactly one existing account, and it is not the
      requester's. */
  predicate NamesOther(accounts: map<AccountNumber, Account>, current: AccountNumber,
                       mode: string, value: string)
  {
    (mode == "IMPS" && value != current && value in accounts) ||
    (mode == "UPI" && exists k :: k in accounts && k != current && Database.UpiOwner(accounts, value, k))
  }

  /** lookup_beneficiary (the route): IMPS refuses the requester's own number
      before the table is consulted; UPI refuses an alias that resolves to the
      requester; everything else that finds no row, or an unknown mode, is
      "Invalid Details". */
  function LookupBeneficiaryRoute(db: Database.DatabaseManager, current: AccountNumber,
                                  mode: string, value: string): (r: LookupReply)
    reads db
    ensures r == Refused(CannotTransferToSelf) <==> NamesSelf(db.accounts, current, mode, value)
    ensures r.Accepted? <==> NamesOther(db.accounts, current, mode, value)
    ensures r.Refused? ==> r.error == CannotTransferToSelf || r.error == InvalidDetails
    ensures r.Accepted? && mode == "IMPS" ==>
      r == Accepted(Some(db.accounts[value].branch), db.accounts[value].holderName)
    ensures r.Accepted? && mode == "UPI" ==>
      r.branch.None? &&
      exists k :: Database.UpiOwner(db.accounts, value, k) && r.name == db.accounts[k].holderName
  {
    if mode == "IMPS" then
      if value == current then Refused(CannotTransferToSelf)
      else
        match Database.LookupBeneficiary(db.accounts, "ACCOUNT", value)
        case Some(info) => Accepted(Some(info.branch), info.holderName)
        case None => Refused(InvalidDetails)
    else if mode == "UPI" then
      match Database.LookupBeneficiary(db.accounts, "UPI", value)
      case Some(info) =>
        if info.accountNumber == current then Refused(CannotTransferToSelf)
        else Accepted(None, info.holderName)
      case None => Refused(InvalidDetails)
    else Refused(InvalidDetails)
  }

  /** The IMPS self check does not depend on the table at all. */
  lemma ImpsSelfRefusedWithoutLookup(db1: Database.DatabaseManager, db2: Database.DatabaseManager,
                                     current: AccountNumber)
    ensures LookupBeneficiaryRoute(db1, current, "IMPS", current)
         == LookupBeneficiaryRoute(db2, current, "IMPS", current)
         == Refused(CannotTransferToSelf)
  {
  }

  // ------------------------------------------------------------ transfers

  /** The receiver transfer_funds passes on: the identifier itself for IMPS,
      and for every other mode the one account holding the UPI alias. An
      empty result is falsy and counts as unresolved. */
  function ResolveReceiver(db: Database.DatabaseManager, mode: string, identifier: string): (r: Option<AccountNumber>)
    reads db
    ensures r.Some? ==> r.value != ""
    ensures mode == "IMPS" ==> (r.Some? <==> identifier != "") && (r.Some? ==> r.value == identifier)
    ensures mode != "IMPS" ==>
      (r.Some? <==> exists k :: k != "" && Database.UpiOwner(db.accounts, identifier, k))
    ensures mode != "IMPS" && r.Some? ==> Database.UpiOwner(db.accounts, identifier, r.value)
  {
    if mode == "IMPS" then
      if identifier != "" then Some(identifier) else None
    else
      match Database.LookupBeneficiary(db.accounts, "UPI", identifier)
      case Some(info) => if info.accountNumber != "" then Some(info.accountNumber) else None
      case None => None
  }

  datatype TransferReply = TransferSuccessful | InvalidBeneficiary | TransferFailed

  /** transfer_funds: resolve the receiver, answer "Invalid Beneficiary"
      without touching the store when that fails, and otherwise report what
      perform_transfer did. Nothing here checks the amount or that the
      receiver differs from the sender. */
  method TransferFunds(db: Database.DatabaseManager, current: AccountNumber, mode: string,
                       identifier: string, amount: int, note: string, transactionId: string, now: int)
      returns (reply: TransferReply)
    modifies db
    ensures db.users == old(db.users)
    ensures old(ResolveReceiver(db, mode, identifier)).None? ==>
      reply == InvalidBeneficiary && db.accounts == old(db.accounts) && db.history == old(db.history)
    ensures old(ResolveReceiver(db, mode, identifier)).Some? ==>
      var receiver := old(ResolveReceiver(db, mode, identifier)).value;
      reply == (if Balances.CanTransfer(old(db.accounts), current, receiver, amount)
                then TransferSuccessful else TransferFailed)
    ensures reply != TransferSuccessful ==> db.accounts == old(db.accounts) && db.history == old(db.history)
    ensures reply == TransferSuccessful ==>
      var receiver := old(ResolveReceiver(db, mode, identifier)).value;
      db.accounts == Balances.Moved(old(db.accounts), current, receiver, amount) &&
      db.history == old(db.history) + [Transaction(transactionId, now,
                      old(db.accounts)[current].holderName, old(db.accounts)[receiver].holderName,
                      current, receiver, mode, amount, note, SuccessStatus)]
    ensures reply == TransferSuccessful && mode == "IMPS" && identifier == current ==>
      db.accounts == old(db.accounts) && |db.history| == |old(db.history)| + 1
  {
    var receiver := ResolveReceiver(db, mode, identifier);
    if receiver.None? {
      return InvalidBeneficiary;
    }
    var ok := db.PerformTransfer(current, receiver.value, amount, mode, note, transactionId, now);
    reply := if ok then TransferSuccessful else TransferFailed;
  }

  // -------------------------------------------------------------- history

  datatype TransactionType = Debit | Credit

  /** One element of the JSON list /api/transactions returns. */
  datatype FormattedTransaction = FormattedTransaction(
    id: string,
    date: int,
    from: string,
    to: string,
    mode: string,
    kind: TransactionType,
    amount: int,
    note: string)

  /** Row f is entry t as the viewer sees it: the entry's fields, tagged
      DEBIT exactly when the viewer is the sender. */
  predicate Presents(f: FormattedTransaction, t: Transaction, viewer: AccountNumber) {
    f.id == t.id && f.date == t.date && f.from == t.senderName && f.to == t.receiverName &&
    f.mode == t.mode && f.amount == t.amount && f.note == t.note &&
    (f.kind == Debit <==> t.senderAccount == viewer)
  }

  /** get_transactions: the account's history in the order the query returns
      it, each entry tagged DEBIT when the viewer sent it and CREDIT
      otherwise, which for a listed entry means the viewer received it. */
  method GetTransactions(db: Database.DatabaseManager, account: AccountNumber)
      returns (formatted: seq<FormattedTransaction>)
    ensures var h := Database.GetTransactionHistory(db.history, account);
      |formatted| == |h| &&
      (forall i :: 0 <= i < |h| ==> Presents(formatted[i], h[i], account)) &&
      (forall i :: 0 <= i < |h| && formatted[i].kind == Credit ==> h[i].receiverAccount == account)
    ensures forall i, j :: 0 <= i < j < |formatted| ==> formatted[i].date >= formatted[j].date
  {
    var transactions := Database.GetTransactionHistory(db.history, account);
    formatted := [];
    for i := 0 to |transactions|
      invariant |formatted| == i
      invariant forall j :: 0 <= j < i ==> Presents(formatted[j], transactions[j], account)
    {
      var t := transactions[i];
      var kind := if t.senderAccount == account then Debit else Credit;
      var row := FormattedTransaction(t.id, t.date, t.senderName, t.receiverName, t.mode, kind, t.amount, t.note);
      assert Presents(row, t, account);
      formatted := formatted + [row];
    }
    forall i, j | 0 <= i < j < |formatted| ensures formatted[i].date >= formatted[j].date {
      assert Presents(formatted[i], transactions[i], account);
      assert Presents(formatted[j], transactions[j], account);
    }
  }
}
