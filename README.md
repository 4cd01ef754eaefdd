# Banking ledger engine — a Dafny model

This project models the ledger engine of a small retail-banking web
application: the `DatabaseManager` class of `packages/database_manager.py`
and the decision logic of the Flask routes in `main.py` that drive it.

The store is three tables:

- `account_details`: a `map` from account number to the holder's name,
  branch, IFSC code, optional UPI id and balance (module `Tables`);
- `users`: a `seq` of rows (user id, email, account number, password hash,
  salt). Nothing makes the identity columns unique, so several rows can
  match one query;
- `transaction_history`: an append-only `seq` of entries.

Module layout:

- `Tables` defines the row types and `SingleIndex`, the meaning of a
  `fetchone()` on the unbuffered cursors the engine uses: a row comes back
  only when exactly one row matches. With two or more, `cursor.close()`
  finds rows left unread and raises an error. The `except Error` branch
  catches it, and the method returns `None`.
- `Balances` defines the two balance `UPDATE`s of a transfer (`Moved`) and
  the guard in front of them (`CanTransfer`). It also defines the bank's
  total balance and proves that a transfer conserves it.
- `History` gives the meaning of the history query: a filter, then an
  insertion sort by date, newest first. Of two equally dated entries it
  lists the later-logged one first, the reverse of a stable sort. It
  proves the result is sorted and is exactly the matching entries. It
  also proves that on a chronological log the result is the reversed
  filtered log.
- `Database` holds the read-only queries as functions over the tables. Its
  class `DatabaseManager` holds the tables as fields. `PerformTransfer` and
  `UpdatePassword` change those fields in place, as the SQL statements do.
- `WebApp` holds the login gate, the login answer, the beneficiary check,
  the resolution of a transfer's receiver, the transfer route and the
  DEBIT/CREDIT loop of the history route.

Amounts are integers in minor units. SHA-256 is a parameter
`hash: string -> string`. The random salt, the random transaction id and
the clock reading are parameters of the operations that use them. Account
numbers are strings: the `str(...)` conversions in `main.py` become plain
string equality.

## Behaviour as written

The model follows the code as written, including where a hardened engine
would check more:

- `perform_transfer` does not check that the amount is positive, nor that
  sender and receiver differ. A self-transfer that passes the balance guard
  leaves every balance as it was and still logs a SUCCESS entry
  (`Balances.SelfTransferKeepsTable`, `Database.DatabaseManager.PerformTransfer`).
  `transfer_funds` passes an IMPS identifier on unchecked, so a user can do
  this through the web layer (`WebApp.TransferFunds`).
- A negative amount passes the guard whenever the sender's balance is at
  least the amount, in particular whenever that balance is non-negative. It
  then moves money from the receiver to the sender
  (`Balances.NegativeAmountMovesMoneyBack`). It can drive a receiver below
  zero (`Balances.NegativeAmountCanOverdrawReceiver`). So "no balance ever
  goes negative" is guaranteed only for non-negative amounts
  (`Balances.NonNegativeAmountKeepsBalancesNonNegative`). The sender's new
  balance is guaranteed non-negative only when sender and receiver differ. A
  self-transfer keeps whatever balance the account had, negative or not.
- Every rejection collapses to `false`; there is no distinct error outcome.
  No rows are locked, and the hash comparison is ordinary equality.
- `validate_user` matches the identity against three columns. It accepts
  only when exactly one row matches and that row's hash agrees. An identity
  that matches two rows is always refused, even with a correct password.
  `get_account_details` likewise returns nothing for an account with two
  `users` rows. A UPI id shared by two accounts resolves to no beneficiary.
- `update_password` writes every `users` row with that account number. It
  reports whether the `UPDATE` changed at least one row. A row that already
  holds the new hash and salt is not counted.

## Model

| member | source | states |
|---|---|---|
| Tables.SingleIndex | packages/database_manager.py:43-45 | an index is returned only for the one and only row satisfying the condition; when none is returned, every satisfying row has another satisfying row beside it, so zero or several rows satisfy it |
| Balances.Moved | packages/database_manager.py:180-188 | after the debit and the credit the table has the same accounts; each row's balance has dropped by the amount if it is the sender and risen by the amount if it is the receiver; every other field and row is unchanged |
| Balances.TransferConservesTotal | packages/database_manager.py:180-188 | the sum of all balances after a transfer equals the sum before, for any amount and also when sender and receiver coincide |
| Balances.SelfTransferKeepsTable | packages/database_manager.py:180-188 | a transfer from an account to itself leaves the whole accounts table unchanged |
| Balances.SenderNotOverdrawn | packages/database_manager.py:176-183 | once the guard balance >= amount has passed, a sender distinct from the receiver ends with a non-negative balance |
| Balances.NegativeAmountMovesMoneyBack | packages/database_manager.py:168-188 | a negative amount between two distinct existing accounts passes the guard when the sender's balance is non-negative (so at least the amount), and then raises the sender's balance and lowers the receiver's |
| Balances.NonNegativeAmountKeepsBalancesNonNegative | packages/database_manager.py:176-188 | if every balance is non-negative and the amount is non-negative, every balance stays non-negative after a transfer |
| Balances.NegativeAmountCanOverdrawReceiver | packages/database_manager.py:176-188 | there is a table with all balances at zero where a transfer of -5 passes the guard and leaves the receiver below zero |
| History.Involving | packages/database_manager.py:223-225 | each entry occurs in the result exactly as often as in the log if it names the account as sender or receiver, and not at all otherwise |
| History.SortNewestFirst | packages/database_manager.py:226 | the result is ordered by date, newest first, and is a permutation of the input |
| History.EqualDatesLaterLoggedFirst | packages/database_manager.py:226 | of two entries with the same date, the sort lists the one logged second first |
| History.SortChronologicalIsReversed | packages/database_manager.py:226 | on a log whose dates never decrease, sorting newest-first gives the log reversed |
| History.HistoryOfChronologicalLog | packages/database_manager.py:223-226 | on a chronological log, the history of an account is its matching entries from the most recently logged back to the first |
| History.AppendedEntryListed | packages/database_manager.py:197-203 | an entry appended to the log appears in the history of each account it names |
| Database.ValidateUser | packages/database_manager.py:27-63 | a row is returned only if it is the only row matching the identity by user id, email or account number and the hash of password ++ salt equals its stored hash; when row i is the only match the answer is a row iff that hash check succeeds; no match, or two matching rows, give none |
| Database.SetCredential | packages/database_manager.py:79-80 | the users table keeps its length and every row's identity columns; rows of the account get the new hash and salt; every other row is unchanged |
| Database.SetCredentialKeepsMatches | packages/database_manager.py:79-80 | after the credential update exactly the same row is the only match of each identity as before |
| Database.ValidateAfterPasswordChange | packages/database_manager.py:65-86 | after the password change, an identity whose only matching row belongs to that account is accepted with the new password and gets the updated row back |
| Database.ValidateOthersUnchanged | packages/database_manager.py:65-86 | a password change answers exactly as before every identity that has no single matching row or whose only matching row belongs to another account |
| Database.GetAccountDetails | packages/database_manager.py:92-117 | a row is returned iff the account exists and exactly one users row has that account number; its account fields come from the account row and its user id and email from that users row |
| Database.LookupBeneficiary | packages/database_manager.py:119-145 | 'ACCOUNT' finds a row iff the account number exists and returns that account; any other kind finds a row iff exactly one account has that UPI id and returns that account, and finds none when two accounts share it; branch and name are the account's |
| Database.GetTransactionHistory | packages/database_manager.py:215-233 | the result is newest first, contains each entry naming the account as often as the log does and contains nothing else; the log is not changed |
| Database.DatabaseManager.PerformTransfer | packages/database_manager.py:147-213 | succeeds iff both accounts exist and the sender's balance is at least the amount; on failure nothing changes; on success balances are as in Moved, the total is conserved, other accounts are untouched, a distinct sender ends non-negative, and exactly one SUCCESS entry with the given id, time, names read before the update, accounts, mode, amount and note is appended after the unchanged earlier entries |
| Database.DatabaseManager.UpdatePassword | packages/database_manager.py:65-90 | reports true iff some users row of the account holds a hash or salt different from the new ones, which is what rowcount counts; all rows of the account get salt = the new salt and hash = H(new password ++ new salt); accounts and history are unchanged |
| WebApp.LoginRequired | main.py:20-26 | the answer is the login redirect iff the session holds no account number; otherwise it is the handler's answer |
| WebApp.GateIgnoresHandlerWithoutLogin | main.py:23-24 | without an account number in the session, the answer is the redirect whatever the wrapped handler is |
| WebApp.ValidateUserLogin | main.py:41-55 | the session is bound to an account only if the only row matching the identity accepts the password, and then to that row's account number; with no single matching row the answer is invalid credentials |
| WebApp.LookupBeneficiaryRoute | main.py:76-104 | "Cannot transfer to self" iff the IMPS value is the requester's number or the UPI id belongs to the requester alone; valid iff the identifier names exactly one existing account other than the requester's; every other refusal is "Invalid Details"; IMPS answers carry the branch and name, UPI ones only the name of the alias's one owner |
| WebApp.ImpsSelfRefusedWithoutLookup | main.py:86-89 | the IMPS self refusal gives the same answer whatever the tables hold |
| WebApp.ResolveReceiver | main.py:118-129 | for IMPS the receiver is the identifier itself when it is non-empty; for any other mode it is the non-empty account number of the one account holding the UPI id, and none when no account or several hold it |
| WebApp.TransferFunds | main.py:107-135 | an unresolved receiver answers "Invalid Beneficiary" and changes nothing; otherwise the answer is success iff perform_transfer's guard holds, with the store changed exactly as PerformTransfer states; an IMPS transfer to one's own number can succeed, leaves the balances unchanged and logs one entry |
| WebApp.GetTransactions | main.py:151-177 | one formatted row per history entry in the same order, newest first, with the entry's id, date, names, mode, amount and note; DEBIT iff the viewer is the sender, and a CREDIT row is one the viewer received |

## Left out

- Connection handling (`__get_connection`), cursors, and the `except Error`
  paths that print, roll back and return `False`, `None` or `[]`. The store
  is always reachable. The only failing statement modelled is the close of
  a cursor with unread rows, described above, which yields "no row". The
  model keeps the all-or-nothing outcome of a transfer: every table is
  either fully updated or unchanged.
- A duplicate `transaction_id` is not modelled. The random id is a
  parameter; a key violation would take the error path above.
- SHA-256 and the `secrets` generators are parameters, so salt freshness and
  id uniqueness are not modelled.
- `datetime.now()` is a parameter, an integer instant. The `strftime`
  formatting of dates in `get_transactions` is not modelled; the formatted
  row keeps the instant.
- `float(...)` on amounts, the `DECIMAL` column type and rounding: amounts
  are exact integers.
- SQL leaves the order of entries with equal dates unspecified. The model
  fixes one order: the later-logged entry comes first
  (`History.EqualDatesLaterLoggedFirst`).
- The `time.sleep` in the login route; Flask routing, JSON encoding, HTTP
  status codes, templates, the cache headers (`main.py:186-192`), and the
  thin routes `index`, `login`, `dashboard`, `logout`,
  `get_account_information` and `reset_password`. Each of the last two only
  calls a modelled query or method and wraps the answer.
- Missing or non-string JSON fields (`None` from `data.get`). Request fields
  are strings, and an empty string is the only falsy one.
- Concurrency and row locking: the source takes no locks.
- SQL comparisons in the `WHERE` clauses follow the columns' collation. A
  typical MySQL collation ignores letter case and trailing spaces. The model
  compares strings exactly, so `Alice` and `alice ` are different
  identities here.
- `account_number` is taken to be the key of `account_details`: the table is
  a map, so an account number names at most one account row. No schema
  ships with the code to say so. No such assumption is made for `users`
  rows or UPI ids: duplicates there are modelled, and yield no row.
- The hardened behaviours the code lacks: an amount check, a sender ≠
  receiver check in the engine, distinct error outcomes, constant-time hash
  comparison and idempotency tokens.
