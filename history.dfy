/** The history query: the log entries that name the account as sender or
    receiver, newest first. It is a filter followed by an insertion sort on
    the date that lists the later-logged of two equally dated entries first. */
module History {
  import opened Tables

  predicate Involves(t: Transaction, account: AccountNumber) {
    t.senderAccount == account || t.receiverAccount == account
  }

  /** The WHERE clause: the entries naming `account` on either side, each
      kept as often as it occurs in the log. */
  function Involving(log: seq<Transaction>, account: AccountNumber): (r: seq<Transaction>)
    ensures forall t :: multiset(r)[t] == if Involves(t, account) then multiset(log)[t] else 0
    ensures |r| <= |log|
  {
    if log == [] then []
    else
      assert log == [log[0]] + log[1..];
      (if Involves(log[0], account) then [log[0]] else []) + Involving(log[1..], account)
  }

  /** Newest first: the dates never increase along the sequence. */
  predicate NewestFirst(s: seq<Transaction>) {
    forall i, j :: 0 <= i < j < |s| ==> s[i].date >= s[j].date
  }

  /** Oldest first: the order in which entries are appended when the clock
      never goes back. */
  predicate Chronological(s: seq<Transaction>) {
    forall i, j :: 0 <= i < j < |s| ==> s[i].date <= s[j].date
  }

  /** Places `x` after every entry at least as recent as it. */
  function InsertByDate(x: Transaction, s: seq<Transaction>): (r: seq<Transaction>)
    requires NewestFirst(s)
    ensures NewestFirst(r)
    ensures multiset(r) == multiset(s) + multiset{x}
    ensures |r| == |s| + 1 && (r[0] == x || (|s| > 0 && r[0] == s[0]))
  {
    if s == [] || s[0].date < x.date then [x] + s
    else
      assert s == [s[0]] + s[1..];
      [s[0]] + InsertByDate(x, s[1..])
  }

  /** An insertion sort, newest first. Equal dates come out in reverse log
      order, the later-logged entry first: the reverse of a stable sort. */
  function SortNewestFirst(s: seq<Transaction>): (r: seq<Transaction>)
    ensures NewestFirst(r)
    ensures multiset(r) == multiset(s)
  {
    if s == [] then []
    else
      assert s == [s[0]] + s[1..];
      InsertByDate(s[0], SortNewestFirst(s[1..]))
  }

  /** The tie order: of two entries with the same date, the one logged
      second is listed first. */
  lemma EqualDatesLaterLoggedFirst(a: Transaction, b: Transaction)
    requires a.date == b.date
    ensures SortNewestFirst([a, b]) == [b, a]
  {
    assert [a, b][1..] == [b];
  }

  function Reversed(s: seq<Transaction>): (r: seq<Transaction>)
    ensures |r| == |s|
    ensures forall k :: 0 <= k < |s| ==> r[k] == s[|s| - 1 - k]
  {
    if s == [] then [] else Reversed(s[1..]) + [s[0]]
  }

  /** An entry no more recent than all of a newest-first sequence goes last. */
  lemma {:induction false} InsertOldest(x: Transaction, s: seq<Transaction>)
    requires NewestFirst(s)
    requires forall j :: 0 <= j < |s| ==> s[j].date >= x.date
    ensures InsertByDate(x, s) == s + [x]
  {
    if s != [] {
      InsertOldest(x, s[1..]);
      assert s == [s[0]] + s[1..];
    }
  }

  /** On a chronological log, newest-first is simply the reverse order. */
  lemma {:induction false} SortChronologicalIsReversed(s: seq<Transaction>)
    requires Chronological(s)
    ensures SortNewestFirst(s) == Reversed(s)
  {
    if s != [] {
      var rest := s[1..];
      assert Chronological(rest);
      SortChronologicalIsReversed(rest);
      assert forall j :: 0 <= j < |rest| ==> Reversed(rest)[j] == s[|s| - 1 - j];
      InsertOldest(s[0], Reversed(rest));
    }
  }

  /** Filtering keeps only entries of the log, so a bound on the log's dates
      bounds the filtered dates. */
  lemma {:induction false} InvolvingDatesFrom(log: seq<Transaction>, account: AccountNumber, d: int)
    requires forall i :: 0 <= i < |log| ==> log[i].date >= d
    ensures forall j :: 0 <= j < |Involving(log, account)| ==> Involving(log, account)[j].date >= d
  {
    if log != [] {
      InvolvingDatesFrom(log[1..], account, d);
    }
  }

  /** Filtering keeps the relative order of the log, so a chronological log
      has chronological sub-histories. */
  lemma {:induction false} InvolvingKeepsChronological(log: seq<Transaction>, account: AccountNumber)
    requires Chronological(log)
    ensures Chronological(Involving(log, account))
  {
    if log != [] {
      var rest := log[1..];
      assert Chronological(rest);
      InvolvingKeepsChronological(rest, account);
      InvolvingDatesFrom(rest, account, log[0].date);
    }
  }

  /** The history query on a chronological log lists the matching entries
      from the most recently logged back to the first. */
  lemma HistoryOfChronologicalLog(log: seq<Transaction>, account: AccountNumber)
    requires Chronological(log)
    ensures SortNewestFirst(Involving(log, account)) == Reversed(Involving(log, account))
  {
    InvolvingKeepsChronological(log, account);
    SortChronologicalIsReversed(Involving(log, account));
  }

  /** An entry appended to the log is listed in the history of both of its accounts. */
  lemma AppendedEntryListed(log: seq<Transaction>, e: Transaction, account: AccountNumber)
    requires Involves(e, account)
    ensures e in SortNewestFirst(Involving(log + [e], account))
  {
    assert (log + [e])[|log|] == e;
    assert multiset(log + [e])[e] > 0;
    assert multiset(SortNewestFirst(Involving(log + [e], account)))[e] > 0;
  }
}
