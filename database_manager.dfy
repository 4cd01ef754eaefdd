/** The DatabaseManager of packages/database_manager.py: the read-only
    queries as functions over the tables, and the two statements that
    write (the transfer and the password change) as methods of a class
    that holds the tables. */
module Database {
  import opened Tables
  import Balances
  import History

  /** The row lookup_beneficiary selects. */
  datatype Beneficiary = Beneficiary(accountNumber: AccountNumber, branch: string, holderName: string)

  /** The row get_account_details selects from users joined with account_details. */
  datatype AccountDetails = AccountDetails(
    userId: string,
    email: string,
    accountNumber: AccountNumber,
    ifsc: string,
    upiId: Option<string>,
    branch: string,
    holderName: string,
    balance: int)

  // ---------------------------------------------------------------- users

  /** The WHERE clause of validate_user: userId, email_id or account_number. */
  predicate MatchesIdentity(u: UserRow, identity: string) {
    u.userId == identity || u.email == identity || u.accountNumber == identity
  }

  /** Row i is the one and only users row matching the identity: the case in
      which the query's single fetched row is returned. */
  predicate IsOnlyMatch(users: seq<UserRow>, identity: string, i: int) {
    OnlyRow(users, (u: UserRow) => MatchesIdentity(u, identity), i)
  }

  /** validate_user: the row matching the identity, returned only if it is
      the only matching row and hashing the password with its salt gives its
      hash. No matching row, or several (the cursor is closed with rows still
      unread, which raises an error the method turns into None), give none. */
  function ValidateUser(users: seq<UserRow>, identity: string, password: string,
                        hash: HashFunction): (r: Option<UserRow>)
    ensures r.Some? ==> exists i :: IsOnlyMatch(users, identity, i) && r.value == users[i]
    ensures r.Some? ==> hash(password + r.value.salt) == r.value.passwordHash
    ensures forall i :: IsOnlyMatch(users, identity, i) ==>
      (r.Some? <==> hash(password + users[i].salt) == users[i].passwordHash)
    ensures (forall i :: 0 <= i < |users| ==> !MatchesIdentity(users[i], identity)) ==> r.None?
    ensures (exists i, j :: 0 <= i < j < |users| && MatchesIdentity(users[i], identity) &&
                           MatchesIdentity(users[j], identity)) ==> r.None?
  {
    match SingleIndex(users, (u: UserRow) => MatchesIdentity(u, identity))
    case None => None
    case Some(i) =>
      assert IsOnlyMatch(users, identity, i);
      var user := users[i];
      if hash(password + user.salt) == user.passwordHash then Some(user) else None
  }

  /** The users table after the password UPDATE: every row of the account
      gets the new hash and salt, and nothing else changes. */
  function SetCredential(users: seq<UserRow>, account: AccountNumber, newHash: string,
                         newSalt: string): (r: seq<UserRow>)
    ensures |r| == |users|
    ensures forall i :: 0 <= i < |users| ==>
      r[i].userId == users[i].userId && r[i].email == users[i].email &&
      r[i].accountNumber == users[i].accountNumber
    ensures forall i :: 0 <= i < |users| && users[i].accountNumber == account ==>
      r[i].passwordHash == newHash && r[i].salt == newSalt
    ensures forall i :: 0 <= i < |users| && users[i].accountNumber != account ==> r[i] == users[i]
  {
    seq(|users|, i requires 0 <= i < |users| =>
      if users[i].accountNumber == account then users[i].(passwordHash := newHash, salt := newSalt)
      else users[i])
  }

  /** A users row the UPDATE actually changes: it belongs to the account and
      holds a different hash or salt. These are the rows `rowcount` counts. */
  predicate RowChanged(u: UserRow, account: AccountNumber, newHash: string, newSalt: string) {
    u.accountNumber == account && (u.passwordHash != newHash || u.salt != newSalt)
  }

  /** Changing credentials leaves the identity columns alone, so exactly the
      same rows match each identity afterwards. */
  lemma SetCredentialKeepsMatches(users: seq<UserRow>, account: AccountNumber, newHash: string,
                                  newSalt: string, identity: string)
    ensures forall i :: IsOnlyMatch(SetCredential(users, account, newHash, newSalt), identity, i)
                    <==> IsOnlyMatch(users, identity, i)
  {
  }

  /** After a password change, an identity whose only matching row belongs to
      that account logs in with the new password. */
  lemma ValidateAfterPasswordChange(users: seq<UserRow>, account: AccountNumber, identity: string,
                                    password: string, salt: string, hash: HashFunction, i: int)
    requires IsOnlyMatch(users, identity, i) && users[i].accountNumber == account
    ensures var updated := SetCredential(users, account, hash(password + salt), salt);
            ValidateUser(updated, identity, password, hash) == Some(updated[i])
  {
    SetCredentialKeepsMatches(users, account, hash(password + salt), salt, identity);
  }

  /** The change does not alter how any other identity is answered: one with
      no single matching row, or whose only matching row belongs to another
      account, gets the same answer as before. */
  lemma ValidateOthersUnchanged(users: seq<UserRow>, account: AccountNumber, identity: string,
                                password: string, newHash: string, newSalt: string, hash: HashFunction)
    requires forall i :: IsOnlyMatch(users, identity, i) ==> users[i].accountNumber != account
    ensures ValidateUser(SetCredential(users, account, newHash, newSalt), identity, password, hash)
         == ValidateUser(users, identity, password, hash)
  {
    SetCredentialKeepsMatches(users, account, newHash, newSalt, identity);
  }

  // ------------------------------------------------------------- accounts

  /** Row i is the one and only users row of the account. */
  predicate IsOnlyRowOf(users: seq<UserRow>, account: AccountNumber, i: int) {
    OnlyRow(users, (u: UserRow) => u.accountNumber == account, i)
  }

  /** get_account_details: the users row of the account joined with its
      account_details row. No row when either side is missing, and none when
      the account has several users rows, since the unread second joined row
      makes closing the cursor fail. */
  function GetAccountDetails(users: seq<UserRow>, accounts: map<AccountNumber, Account>,
                             account: AccountNumber): (r: Option<AccountDetails>)
    ensures r.Some? <==> account in accounts && exists i :: IsOnlyRowOf(users, account, i)
    ensures r.Some? ==>
      var a := accounts[account];
      r.value.accountNumber == account && r.value.ifsc == a.ifsc && r.value.upiId == a.upiId &&
      r.value.branch == a.branch && r.value.holderName == a.holderName && r.value.balance == a.balance
    ensures r.Some? ==> (exists i :: IsOnlyRowOf(users, account, i) &&
                                     r.value.userId == users[i].userId && r.value.email == users[i].email)
  {
    if account !in accounts then None
    else
      match SingleIndex(users, (u: UserRow) => u.accountNumber == account)
      case None => None
      case Some(i) =>
        assert IsOnlyRowOf(users, account, i);
        var u := users[i];
        var a := accounts[account];
        Some(AccountDetails(u.userId, u.email, account, a.ifsc, a.upiId, a.branch, a.holderName, a.balance))
  }

  /** Account k is the one and only account whose UPI id is `value`. */
  predicate UpiOwner(accounts: map<AccountNumber, Account>, value: string, k: AccountNumber) {
    k in accounts && accounts[k].upiId == Some(value) &&
    forall k2 :: k2 in accounts && k2 != k ==> accounts[k2].upiId != Some(value)
  }

  /** lookup_beneficiary: by account number when asked for 'ACCOUNT', by UPI id
      for any other request. A UPI id held by several accounts finds nothing:
      the second row is left unread and closing the cursor fails. */
  function LookupBeneficiary(accounts: map<AccountNumber, Account>, lookFor: string,
                             value: string): (r: Option<Beneficiary>)
    ensures r.Some? ==> (r.value.accountNumber in accounts &&
                         r.value.branch == accounts[r.value.accountNumber].branch &&
                         r.value.holderName == accounts[r.value.accountNumber].holderName)
    ensures lookFor == "ACCOUNT" ==> (r.Some? <==> value in accounts)
    ensures lookFor == "ACCOUNT" && r.Some? ==> r.value.accountNumber == value
    ensures lookFor != "ACCOUNT" ==> (r.Some? <==> exists k :: UpiOwner(accounts, value, k))
    ensures lookFor != "ACCOUNT" && r.Some? ==> UpiOwner(accounts, value, r.value.accountNumber)
    ensures lookFor != "ACCOUNT" &&
            (exists k1, k2 :: k1 in accounts && k2 in accounts && k1 != k2 &&
                              accounts[k1].upiId == Some(value) && accounts[k2].upiId == Some(value)) ==>
            r.None?
  {
    if lookFor == "ACCOUNT" then
      if value in accounts then Some(Beneficiary(value, accounts[value].branch, accounts[value].holderName))
      else None
    else if exists k | k in accounts :: UpiOwner(accounts, value, k) then
      var k :| k in accounts && UpiOwner(accounts, value, k);
      Some(Beneficiary(k, accounts[k].branch, accounts[k].holderName))
    else None
  }

  /** get_transaction_history: every entry naming the account as sender or
      receiver, as often as it is logged and nothing else, newest first. */
  function GetTransactionHistory(log: seq<Transaction>, account: AccountNumber): (r: seq<Transaction>)
    ensures History.NewestFirst(r)
    ensures forall t :: multiset(r)[t] == if History.Involves(t, account) then multiset(log)[t] else 0
    ensures forall t :: t in r <==> t in log && History.Involves(t, account)
    ensures forall i :: 0 <= i < |r| ==> History.Involves(r[i], account)
  {
    History.SortNewestFirst(History.Involving(log, account))
  }

  // ---------------------------------------------------------------- state

  /** The store: account_details keyed by account number, the users rows,
      and the append-only transaction_history. */
  class DatabaseManager {
    var accounts: map<AccountNumber, Account>
    var users: seq<UserRow>
    var history: seq<Transaction>

    constructor (accounts0: map<AccountNumber, Account>, users0: seq<UserRow>, history0: seq<Transaction>)
      ensures accounts == accounts0 && users == users0 && history == history0
    {
      accounts := accounts0;
      users := users0;
      history := history0;
    }

    /** perform_transfer: both rows must exist and the sender must hold at
        least `amount`; then the sender is debited, the receiver credited and
        one SUCCESS entry logged with the names read before the update. Any
        rejection rolls back and leaves every table as it was. */
    method PerformTransfer(sender: AccountNumber, receiver: AccountNumber, amount: int,
                           mode: string, note: string, transactionId: string, now: int)
        returns (ok: bool)
      modifies this
      ensures users == old(users)
      ensures ok == Balances.CanTransfer(old(accounts), sender, receiver, amount)
      ensures !ok ==> accounts == old(accounts) && history == old(history)
      ensures ok ==> accounts == Balances.Moved(old(accounts), sender, receiver, amount)
      ensures ok ==> history == old(history) + [Transaction(transactionId, now,
                                  old(accounts)[sender].holderName, old(accounts)[receiver].holderName,
                                  sender, receiver, mode, amount, note, SuccessStatus)]
      ensures ok ==> Balances.Total(accounts) == Balances.Total(old(accounts))
      ensures ok && sender != receiver ==>
        accounts[sender].balance == old(accounts)[sender].balance - amount >= 0 &&
        accounts[receiver].balance == old(accounts)[receiver].balance + amount
      ensures ok && sender == receiver ==> accounts == old(accounts)
      ensures ok ==> forall k :: k in accounts && k != sender && k != receiver ==> accounts[k] == old(accounts)[k]
    {
      if sender !in accounts || receiver !in accounts {
        return false;
      }
      var senderBalance := accounts[sender].balance;
      var senderName := accounts[sender].holderName;
      var receiverName := accounts[receiver].holderName;
      if senderBalance < amount {
        return false;
      }
      ghost var before := accounts;
      accounts := accounts[sender := accounts[sender].(balance := accounts[sender].balance - amount)];
      accounts := accounts[receiver := accounts[receiver].(balance := accounts[receiver].balance + amount)];
      history := history + [Transaction(transactionId, now, senderName, receiverName,
                                        sender, receiver, mode, amount, note, SuccessStatus)];
      assert accounts == Balances.Moved(before, sender, receiver, amount);
      Balances.TransferConservesTotal(before, sender, receiver, amount);
      if sender == receiver {
        Balances.SelfTransferKeepsTable(before, sender, amount);
      }
      ok := true;
    }

    /** update_password: a fresh salt and the hash of password ++ salt are
        written to the account's users rows; the answer is whether the UPDATE
        changed any row, which it does not for a row already holding that
        hash and salt. */
    method UpdatePassword(account: AccountNumber, newPlainPassword: string, newSalt: string,
                          hash: HashFunction) returns (isUpdated: bool)
      modifies this
      ensures isUpdated <==>
        (exists i :: 0 <= i < |old(users)| &&
                     RowChanged(old(users)[i], account, hash(newPlainPassword + newSalt), newSalt))
      ensures users == SetCredential(old(users), account, hash(newPlainPassword + newSalt), newSalt)
      ensures accounts == old(accounts) && history == old(history)
    {
      var newHash := hash(newPlainPassword + newSalt);
      isUpdated := exists i | 0 <= i < |users| :: RowChanged(users[i], account, newHash, newSalt);
      users := SetCredential(users, account, newHash, newSalt);
    }
  }
}
