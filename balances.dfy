/** Balance arithmetic of a transfer: the two UPDATE statements of
    perform_transfer, the guard in front of them, and the sum of all
    balances that a transfer conserves. */
module Balances {
  import opened Tables

  /** The guard perform_transfer applies before touching any row: both
      rows exist and the sender's balance is not below the amount. Nothing
      else is checked: the amount may be zero or negative and the two
      accounts may be the same. */
  predicate CanTransfer(accounts: map<AccountNumber, Account>, sender: AccountNumber,
                        receiver: AccountNumber, amount: int)
  {
    sender in accounts && receiver in accounts && accounts[sender].balance >= amount
  }

  /** The table after `balance := balance - amount` on the sender's row
      followed by `balance := balance + amount` on the receiver's row. */
  function Moved(accounts: map<AccountNumber, Account>, sender: AccountNumber,
                 receiver: AccountNumber, amount: int): (r: map<AccountNumber, Account>)
    requires sender in accounts && receiver in accounts
    ensures r.Keys == accounts.Keys
    ensures forall k :: k in r ==>
      r[k] == accounts[k].(balance := accounts[k].balance
                                       - (if k == sender then amount else 0)
                                       + (if k == receiver then amount else 0))
  {
    var debited := accounts[sender := accounts[sender].(balance := accounts[sender].balance - amount)];
    debited[receiver := debited[receiver].(balance := debited[receiver].balance + amount)]
  }

  /** The sum of the balances of the accounts named in `keys`. */
  ghost function SumOver(accounts: map<AccountNumber, Account>, keys: set<AccountNumber>): int
    requires keys <= accounts.Keys
    decreases keys
  {
    if keys == {} then 0
    else
      var k :| k in keys;
      accounts[k].balance + SumOver(accounts, keys - {k})
  }

  /** The money held by the whole bank. */
  ghost function Total(accounts: map<AccountNumber, Account>): int {
    SumOver(accounts, accounts.Keys)
  }

  /** SumOver does not depend on which key it picks first. */
  lemma {:induction false} SumOverRemove(accounts: map<AccountNumber, Account>,
                                         keys: set<AccountNumber>, k: AccountNumber)
    requires keys <= accounts.Keys && k in keys
    ensures SumOver(accounts, keys) == accounts[k].balance + SumOver(accounts, keys - {k})
    decreases keys
  {
    var j :| j in keys && SumOver(accounts, keys) == accounts[j].balance + SumOver(accounts, keys - {j});
    if j != k {
      SumOverRemove(accounts, keys - {j}, k);
      SumOverRemove(accounts, keys - {k}, j);
      assert keys - {j} - {k} == keys - {k} - {j};
    }
  }

  /** Two tables that agree on the balances of `keys` agree on their sum. */
  lemma {:induction false} SumOverFrame(a: map<AccountNumber, Account>, b: map<AccountNumber, Account>,
                                        keys: set<AccountNumber>)
    requires keys <= a.Keys && keys <= b.Keys
    requires forall k :: k in keys ==> a[k].balance == b[k].balance
    ensures SumOver(a, keys) == SumOver(b, keys)
    decreases keys
  {
    if keys != {} {
      var k :| k in keys;
      SumOverRemove(a, keys, k);
      SumOverRemove(b, keys, k);
      SumOverFrame(a, b, keys - {k});
    }
  }

  /** Replacing one row changes the total by exactly the change of that row's balance. */
  lemma TotalAfterUpdate(accounts: map<AccountNumber, Account>, k: AccountNumber, row: Account)
    requires k in accounts
    ensures Total(accounts[k := row]) == Total(accounts) - accounts[k].balance + row.balance
  {
    var updated := accounts[k := row];
    assert updated.Keys == accounts.Keys;
    SumOverRemove(accounts, accounts.Keys, k);
    SumOverRemove(updated, updated.Keys, k);
    SumOverFrame(accounts, updated, accounts.Keys - {k});
  }

  /** Conservation: a transfer neither creates nor destroys money, whatever
      the amount and even when the sender is the receiver. */
  lemma TransferConservesTotal(accounts: map<AccountNumber, Account>, sender: AccountNumber,
                               receiver: AccountNumber, amount: int)
    requires sender in accounts && receiver in accounts
    ensures Total(Moved(accounts, sender, receiver, amount)) == Total(accounts)
  {
    var debited := accounts[sender := accounts[sender].(balance := accounts[sender].balance - amount)];
    TotalAfterUpdate(accounts, sender, debited[sender]);
    TotalAfterUpdate(debited, receiver, debited[receiver].(balance := debited[receiver].balance + amount));
  }

  /** A transfer to oneself leaves the whole table as it was. */
  lemma SelfTransferKeepsTable(accounts: map<AccountNumber, Account>, account: AccountNumber, amount: int)
    requires account in accounts
    ensures Moved(accounts, account, account, amount) == accounts
  {
    var r := Moved(accounts, account, account, amount);
    forall k | k in r ensures r[k] == accounts[k] {
      assert r[k] == accounts[k].(balance := accounts[k].balance);
    }
  }

  /** Between two distinct accounts, the sender's new balance is never
      negative once the guard has passed. */
  lemma SenderNotOverdrawn(accounts: map<AccountNumber, Account>, sender: AccountNumber,
                           receiver: AccountNumber, amount: int)
    requires CanTransfer(accounts, sender, receiver, amount) && sender != receiver
    ensures Moved(accounts, sender, receiver, amount)[sender].balance >= 0
  {
  }

  /** A negative amount passes the guard whenever the sender's balance is at
      least the amount, in particular whenever that balance is non-negative,
      and then moves money from the receiver to the sender. */
  lemma NegativeAmountMovesMoneyBack(accounts: map<AccountNumber, Account>, sender: AccountNumber,
                                     receiver: AccountNumber, amount: int)
    requires sender in accounts && receiver in accounts && sender != receiver
    requires amount < 0 && accounts[sender].balance >= 0
    ensures CanTransfer(accounts, sender, receiver, amount)
    ensures Moved(accounts, sender, receiver, amount)[sender].balance > accounts[sender].balance
    ensures Moved(accounts, sender, receiver, amount)[receiver].balance < accounts[receiver].balance
  {
  }

  /** Non-negative balances stay non-negative under a non-negative amount. */
  lemma NonNegativeAmountKeepsBalancesNonNegative(accounts: map<AccountNumber, Account>,
                                                  sender: AccountNumber, receiver: AccountNumber, amount: int)
    requires AllNonNegative(accounts) && CanTransfer(accounts, sender, receiver, amount) && amount >= 0
    ensures AllNonNegative(Moved(accounts, sender, receiver, amount))
  {
  }

  /** The guard does not protect the receiver: a negative amount can drive a
      receiver that starts at zero below zero. */
  lemma NegativeAmountCanOverdrawReceiver()
    ensures var accounts := map["A" := Account("Asha", "Pune", "IFSC1", None, 0),
                                "B" := Account("Bala", "Pune", "IFSC1", None, 0)];
            AllNonNegative(accounts) && CanTransfer(accounts, "A", "B", -5) &&
            Moved(accounts, "A", "B", -5)["B"].balance < 0
  {
  }
}
