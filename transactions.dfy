/** transactions.py: the fee schedule, the balance lookups and updates on the
    accounts file, the append-only transactions file, the transfer between two
    users and the history of one user. The two files are the fields of a Ledger
    object; each record is one line of a file, already split on its commas. */
module Transactions {
  import opened Util
  import opened Config

  /** One line of the accounts file: username, password digest, balance in cents. */
  datatype UserRec = UserRec(name: string, hash: string, balance: int)

  /** One line of the transactions file: sender, receiver, amount and fee in
      cents, and the date and time of the transfer as written by strftime. */
  datatype TxRec = TxRec(sender: string, receiver: string, amount: int, fee: int, timestamp: string)

  /** One row of the history table, amounts formatted for display. */
  datatype Row = Row(timestamp: string, sender: string, receiver: string, amount: string, fee: string)

  /** What envoyer_argent prints; it returns True only for Sent. */
  datatype SendOutcome = SelfTransfer | NonPositiveAmount | InsufficientFunds | Sent

  ghost predicate HasUser(users: seq<UserRec>, name: string)
  {
    exists i :: 0 <= i < |users| && users[i].name == name
  }

  /** No two records carry the same username (registration keeps it so). */
  ghost predicate UniqueNames(users: seq<UserRec>)
  {
    forall i, j :: 0 <= i < j < |users| ==> users[i].name != users[j].name
  }

  ghost predicate NonNegative(users: seq<UserRec>)
  {
    forall i :: 0 <= i < |users| ==> users[i].balance >= 0
  }

  // ---------------------------------------------------------------------------
  // calculer_frais

  /** Python's int() of the float quotient x / 100: truncation toward zero. */
  function TruncDiv100(x: int): int
  {
    if x >= 0 then x / 100 else -((-x) / 100)
  }

  /** The fee a tier charges on m cents: int(m * rate / 100). */
  function TierFee(t: Tier, m: int): int
  {
    TruncDiv100(m * t.rate)
  }

  /** Tier i is the first of the table that contains m. */
  predicate FirstMatch(tiers: seq<Tier>, m: int, i: int)
  {
    0 <= i < |tiers| && Contains(tiers[i], m) && forall j :: 0 <= j < i ==> !Contains(tiers[j], m)
  }

  /** Past a first tier that does not contain m, the first match moves one
      place down in the rest of the table. */
  lemma FirstMatchTail(tiers: seq<Tier>, m: int, i: int)
    requires |tiers| > 0 && !Contains(tiers[0], m) && FirstMatch(tiers, m, i)
    ensures i >= 1 && FirstMatch(tiers[1..], m, i - 1)
  {
    forall j | 0 <= j < i - 1 ensures !Contains(tiers[1..][j], m) {
      assert tiers[1..][j] == tiers[j + 1];
    }
  }

  /** The scan of calculer_frais over a tier table: the fee of the first tier
      containing m, and 0 when none does. */
  function FeeFrom(tiers: seq<Tier>, m: int): (fee: int)
    ensures (forall i :: 0 <= i < |tiers| ==> !Contains(tiers[i], m)) ==> fee == 0
    ensures forall i :: FirstMatch(tiers, m, i) ==> fee == TierFee(tiers[i], m)
  {
    if tiers == [] then 0
    else if Contains(tiers[0], m) then TierFee(tiers[0], m)
    else
      assert forall i :: 1 <= i < |tiers| ==> tiers[i] == tiers[1..][i - 1];
      assert forall i :: FirstMatch(tiers, m, i) ==> FirstMatch(tiers[1..], m, i - 1) by {
        forall i | FirstMatch(tiers, m, i) ensures FirstMatch(tiers[1..], m, i - 1) {
          FirstMatchTail(tiers, m, i);
        }
      }
      FeeFrom(tiers[1..], m)
  }

  /** The scan over the configured table, tier by tier: each tier's rate
      applies from its minimum to its maximum, and a negative amount lies in no
      tier. */
  lemma TableFeeByTier(m: int)
    ensures m < 0 ==> FeeFrom(FeeTiers, m) == 0
    ensures 0 <= m <= 100 ==> FeeFrom(FeeTiers, m) == m * 5 / 100
    ensures 101 <= m <= 500 ==> FeeFrom(FeeTiers, m) == m * 10 / 100
    ensures 501 <= m <= 1000 ==> FeeFrom(FeeTiers, m) == m * 15 / 100
    ensures 1001 <= m <= 5000 ==> FeeFrom(FeeTiers, m) == m * 20 / 100
    ensures 5001 <= m ==> FeeFrom(FeeTiers, m) == m * 25 / 100
  {
    var t := FeeTiers;
    if m < 0 {
      assert forall i :: 0 <= i < |t| ==> !Contains(t[i], m);
    } else if m <= 100 {
      assert FirstMatch(t, m, 0);
    } else if m <= 500 {
      assert FirstMatch(t, m, 1);
    } else if m <= 1000 {
      assert FirstMatch(t, m, 2);
    } else if m <= 5000 {
      assert FirstMatch(t, m, 3);
    } else {
      assert FirstMatch(t, m, 4);
    }
  }

  /** calculer_frais: the fee in cents of a transfer of m cents, in closed form
      for each configured tier: 5 % up to 100 cents, then 10 %, 15 %, 20 % and
      25 % above 5000 cents, truncated; a negative amount pays nothing. */
  function Fee(m: int): (fee: int)
    ensures m < 0 ==> fee == 0
    ensures 0 <= m <= 100 ==> fee == m * 5 / 100
    ensures 101 <= m <= 500 ==> fee == m * 10 / 100
    ensures 501 <= m <= 1000 ==> fee == m * 15 / 100
    ensures 1001 <= m <= 5000 ==> fee == m * 20 / 100
    ensures 5001 <= m ==> fee == m * 25 / 100
  {
    TableFeeByTier(m);
    FeeFrom(FeeTiers, m)
  }

  /** A fee is never negative and never more than a quarter of the amount. */
  lemma FeeBounds(m: int)
    requires m >= 0
    ensures 0 <= Fee(m) <= m / 4 && Fee(m) <= m
  {
  }

  /** The fee never decreases as the amount grows, across tier boundaries too. */
  lemma FeeMonotone(a: int, b: int)
    requires 0 <= a <= b
    ensures Fee(a) <= Fee(b)
  {
  }

  lemma FeeExamples()
    ensures Fee(100) == 5 && Fee(101) == 10 && Fee(5000) == 1000
    ensures Fee(5001) == 1250 && Fee(10000) == 2500 && Fee(0) == 0 && Fee(-1) == 0
  {
  }

  // ---------------------------------------------------------------------------
  // recuperer_solde and ajouter_au_solde

  /** recuperer_solde: the balance of the first record with that name, 0 when
      there is none. */
  function Balance(users: seq<UserRec>, name: string): (b: int)
    ensures !HasUser(users, name) ==> b == 0
    ensures forall i :: 0 <= i < |users| && users[i].name == name
                     && (forall j :: 0 <= j < i ==> users[j].name != name)
                     ==> b == users[i].balance
  {
    if users == [] then 0
    else if users[0].name == name then users[0].balance
    else Balance(users[1..], name)
  }

  /** One line as ajouter_au_solde rewrites it. */
  function Adjusted(rec: UserRec, name: string, delta: int): UserRec
  {
    if rec.name == name then rec.(balance := rec.balance + delta) else rec
  }

  /** The accounts file after ajouter_au_solde(name, delta): the same records in
      the same order with the same names and digests, every record named name
      changed by exactly delta and every other record untouched. */
  function Credit(users: seq<UserRec>, name: string, delta: int): (r: seq<UserRec>)
    ensures |r| == |users|
    ensures forall i :: 0 <= i < |users| ==>
      && r[i].name == users[i].name
      && r[i].hash == users[i].hash
      && r[i].balance == users[i].balance + (if users[i].name == name then delta else 0)
  {
    if users == [] then [] else [Adjusted(users[0], name, delta)] + Credit(users[1..], name, delta)
  }

  /** How ajouter_au_solde changes what recuperer_solde reports: by delta for
      the name it updates, when that name exists, and not at all otherwise. */
  lemma {:induction false} CreditBalance(users: seq<UserRec>, name: string, delta: int, other: string)
    ensures Balance(Credit(users, name, delta), other)
         == Balance(users, other) + (if other == name && HasUser(users, name) then delta else 0)
  {
    if users != [] {
      var c := Credit(users, name, delta);
      assert c[1..] == Credit(users[1..], name, delta);
      CreditBalance(users[1..], name, delta, other);
      if users[0].name != name {
        assert HasUser(users, name) == HasUser(users[1..], name) by {
          if HasUser(users, name) {
            var i :| 0 <= i < |users| && users[i].name == name;
            assert users[1..][i - 1].name == name;
          }
        }
      }
    }
  }

  /** The names of the accounts file are never altered by a balance update. */
  lemma CreditKeepsNames(users: seq<UserRec>, name: string, delta: int, other: string)
    ensures HasUser(Credit(users, name, delta), other) == HasUser(users, other)
    ensures UniqueNames(Credit(users, name, delta)) == UniqueNames(users)
  {
    var c := Credit(users, name, delta);
    if HasUser(users, other) {
      var i :| 0 <= i < |users| && users[i].name == other;
      assert c[i].name == other;
    }
    if HasUser(c, other) {
      var i :| 0 <= i < |c| && c[i].name == other;
      assert users[i].name == other;
    }
  }

  /** Sum of all balances. */
  function Total(users: seq<UserRec>): int
  {
    if users == [] then 0 else users[0].balance + Total(users[1..])
  }

  /** Number of records with that name. */
  function Count(users: seq<UserRec>, name: string): nat
  {
    if users == [] then 0 else (if users[0].name == name then 1 else 0) + Count(users[1..], name)
  }

  /** ajouter_au_solde adds delta once per record carrying the name. */
  lemma {:induction false} CreditTotal(users: seq<UserRec>, name: string, delta: int)
    ensures Total(Credit(users, name, delta)) == Total(users) + delta * Count(users, name)
  {
    if users != [] {
      var c := Credit(users, name, delta);
      assert c[1..] == Credit(users[1..], name, delta);
      CreditTotal(users[1..], name, delta);
      var k := Count(users[1..], name);
      if users[0].name == name {
        assert delta * (1 + k) == delta + delta * k;
      }
    }
  }

  lemma {:induction false} CountUnique(users: seq<UserRec>, name: string)
    requires UniqueNames(users)
    ensures Count(users, name) == if HasUser(users, name) then 1 else 0
  {
    if users != [] {
      var rest := users[1..];
      assert UniqueNames(rest) by {
        forall i, j | 0 <= i < j < |rest| ensures rest[i].name != rest[j].name {
          assert rest[i] == users[i + 1] && rest[j] == users[j + 1];
        }
      }
      CountUnique(rest, name);
      if users[0].name == name {
        assert !HasUser(rest, name) by {
          forall i | 0 <= i < |rest| ensures rest[i].name != name {
            assert rest[i] == users[i + 1];
          }
        }
      } else {
        assert HasUser(users, name) == HasUser(rest, name) by {
          if HasUser(users, name) {
            var i :| 0 <= i < |users| && users[i].name == name;
            assert rest[i - 1].name == name;
          }
        }
      }
    }
  }

  /** With unique names, the balance recuperer_solde reports is the balance of
      the one record with that name. */
  lemma BalanceOfUnique(users: seq<UserRec>, i: int)
    requires UniqueNames(users) && 0 <= i < |users|
    ensures Balance(users, users[i].name) == users[i].balance
  {
  }

  // ---------------------------------------------------------------------------
  // envoyer_argent

  /** The accounts file after the two updates of a transfer: the sender's
      records debited by amount plus fee, then the receiver's credited by amount. */
  function Moved(users: seq<UserRec>, sender: string, receiver: string, amount: int, fee: int): seq<UserRec>
  {
    Credit(Credit(users, sender, Debit(amount, fee)), receiver, amount)
  }

  /** The change a transfer makes to the sender's balance. */
  function Debit(amount: int, fee: int): int
  {
    -amount - fee
  }

  /** The accounts file after a transfer that passed every check, with the fee
      calculer_frais charges. */
  function Transferred(users: seq<UserRec>, sender: string, receiver: string, amount: int): seq<UserRec>
  {
    Moved(users, sender, receiver, amount, Fee(amount))
  }

  /** The checks of envoyer_argent, in the order the code makes them. A
      transfer goes ahead exactly when it is to someone else, its amount is
      positive and the sender's balance covers amount plus fee, so the debited
      balance is never negative. */
  function SendCheck(users: seq<UserRec>, sender: string, receiver: string, amount: int): (outcome: SendOutcome)
    ensures outcome == Sent ==> amount > 0 && Balance(users, sender) - amount - Fee(amount) >= 0
    ensures outcome == InsufficientFunds ==> Balance(users, sender) < amount + Fee(amount)
    ensures outcome == SelfTransfer <==> receiver == sender
    ensures outcome == NonPositiveAmount <==> receiver != sender && amount <= 0
  {
    if receiver == sender then SelfTransfer
    else if amount <= 0 then NonPositiveAmount
    else if Balance(users, sender) < amount + Fee(amount) then InsufficientFunds
    else Sent
  }

  /** A transfer that passes the checks has an existing sender: an absent
      sender reads as balance 0, which never covers a positive amount. */
  lemma SentHasSender(users: seq<UserRec>, sender: string, receiver: string, amount: int)
    requires SendCheck(users, sender, receiver, amount) == Sent
    ensures HasUser(users, sender) && amount > 0
  {
    FeeBounds(amount);
  }

  /** The balances after a transfer: the sender's drops by exactly amount plus
      fee, the receiver's rises by exactly amount when the receiver exists (and a
      missing receiver stays missing), and every other user's is untouched. */
  lemma TransferBalances(users: seq<UserRec>, sender: string, receiver: string, amount: int)
    requires SendCheck(users, sender, receiver, amount) == Sent
    ensures var after := Transferred(users, sender, receiver, amount);
      && Balance(after, sender) == Balance(users, sender) - amount - Fee(amount)
      && Balance(after, receiver) == Balance(users, receiver) + (if HasUser(users, receiver) then amount else 0)
      && HasUser(after, receiver) == HasUser(users, receiver)
      && (forall other :: other != sender && other != receiver ==> Balance(after, other) == Balance(users, other))
  {
    SentHasSender(users, sender, receiver, amount);
    var fee := Fee(amount);
    var d := Debit(amount, fee);
    var debited := Credit(users, sender, d);
    var after := Moved(users, sender, receiver, amount, fee);
    assert after == Transferred(users, sender, receiver, amount);
    assert after == Credit(debited, receiver, amount);
    assert Balance(after, sender) == Balance(users, sender) + d by {
      CreditBalance(users, sender, d, sender);
      CreditBalance(debited, receiver, amount, sender);
    }
    assert Balance(after, receiver) == Balance(users, receiver) + (if HasUser(users, receiver) then amount else 0)
        && HasUser(after, receiver) == HasUser(users, receiver) by {
      CreditBalance(users, sender, d, receiver);
      CreditKeepsNames(users, sender, d, receiver);
      CreditBalance(debited, receiver, amount, receiver);
      CreditKeepsNames(debited, receiver, amount, receiver);
    }
    forall other | other != sender && other != receiver
      ensures Balance(after, other) == Balance(users, other)
    {
      CreditBalance(users, sender, d, other);
      CreditBalance(debited, receiver, amount, other);
    }
  }

  /** A transfer rewrites the accounts file record by record: same length, the
      sender's record down by amount plus fee, the receiver's up by amount, and
      every other record exactly as it was. */
  lemma TransferRecords(users: seq<UserRec>, sender: string, receiver: string, amount: int)
    requires sender != receiver
    ensures var after := Transferred(users, sender, receiver, amount);
      && |after| == |users|
      && (forall i :: 0 <= i < |users| && users[i].name != sender && users[i].name != receiver ==> after[i] == users[i])
      && (forall i :: 0 <= i < |users| && users[i].name == sender ==>
            after[i] == users[i].(balance := users[i].balance - amount - Fee(amount)))
      && (forall i :: 0 <= i < |users| && users[i].name == receiver ==>
            after[i] == users[i].(balance := users[i].balance + amount))
  {
    var fee := Fee(amount);
    assert Moved(users, sender, receiver, amount, fee) == Transferred(users, sender, receiver, amount);
  }

  /** A transfer keeps the accounts file well formed: names stay unique and,
      when every balance was non-negative before, every balance still is. */
  lemma TransferKeepsInvariant(users: seq<UserRec>, sender: string, receiver: string, amount: int)
    requires SendCheck(users, sender, receiver, amount) == Sent
    requires UniqueNames(users) && NonNegative(users)
    ensures var after := Transferred(users, sender, receiver, amount);
      UniqueNames(after) && NonNegative(after)
  {
    var fee := Fee(amount);
    var d := Debit(amount, fee);
    var debited := Credit(users, sender, d);
    var after := Moved(users, sender, receiver, amount, fee);
    assert after == Transferred(users, sender, receiver, amount);
    assert after == Credit(debited, receiver, amount);
    CreditKeepsNames(users, sender, d, receiver);
    CreditKeepsNames(debited, receiver, amount, receiver);
    assert amount > 0 && Balance(users, sender) - amount - fee >= 0;
    forall i | 0 <= i < |users| ensures after[i].balance >= 0 {
      assert debited[i].balance == users[i].balance + (if users[i].name == sender then d else 0);
      assert after[i].balance == debited[i].balance + (if debited[i].name == receiver then amount else 0);
      if users[i].name == sender {
        BalanceOfUnique(users, i);
      }
    }
  }

  /** Where the money goes, with unique names: the total of all balances drops
      by the fee, and also by the amount when the receiver has no account (the
      credit then matches no record while the debit was applied). */
  lemma TransferTotal(users: seq<UserRec>, sender: string, receiver: string, amount: int)
    requires SendCheck(users, sender, receiver, amount) == Sent
    requires UniqueNames(users)
    ensures Total(Transferred(users, sender, receiver, amount))
         == Total(users) - Fee(amount) - (if HasUser(users, receiver) then 0 else amount)
  {
    SentHasSender(users, sender, receiver, amount);
    var fee := Fee(amount);
    var d := Debit(amount, fee);
    var debited := Credit(users, sender, d);
    assert Moved(users, sender, receiver, amount, fee) == Transferred(users, sender, receiver, amount);
    CreditTotal(users, sender, d);
    CountUnique(users, sender);
    CreditKeepsNames(users, sender, d, receiver);
    CreditTotal(debited, receiver, amount);
    CountUnique(debited, receiver);
  }

  // ---------------------------------------------------------------------------
  // consulter_transactions

  predicate Involves(tx: TxRec, name: string)
  {
    tx.sender == name || tx.receiver == name
  }

  /** The entries of the log in which name is sender or receiver, in log order. */
  function Involving(log: seq<TxRec>, name: string): (h: seq<TxRec>)
    ensures |h| <= |log|
    ensures forall k :: 0 <= k < |h| ==> Involves(h[k], name) && h[k] in log
    ensures forall k :: 0 <= k < |log| && Involves(log[k], name) ==> log[k] in h
  {
    if log == [] then []
    else (if Involves(log[0], name) then [log[0]] else []) + Involving(log[1..], name)
  }

  /** Appending to the log extends the history of an involved user by exactly
      that entry, at the end, and leaves every other user's history as it was. */
  lemma {:induction false} InvolvingAppend(log: seq<TxRec>, tx: TxRec, name: string)
    ensures Involving(log + [tx], name) == Involving(log, name) + (if Involves(tx, name) then [tx] else [])
  {
    if log == [] {
      assert log + [tx] == [tx];
    } else {
      var head := if Involves(log[0], name) then [log[0]] else [];
      var t := if Involves(tx, name) then [tx] else [];
      assert (log + [tx])[0] == log[0];
      assert (log + [tx])[1..] == log[1..] + [tx];
      assert Involving(log + [tx], name) == head + Involving(log[1..] + [tx], name);
      InvolvingAppend(log[1..], tx, name);
      assert head + (Involving(log[1..], name) + t) == (head + Involving(log[1..], name)) + t;
    }
  }

  /** The row consulter_transactions builds for an entry: its date and
      parties as stored, and its amount and fee formatted, which show their
      floor dollars. */
  function RowOf(tx: TxRec): (row: Row)
    ensures row.timestamp == tx.timestamp && row.sender == tx.sender && row.receiver == tx.receiver
    ensures ShownDollars(row.amount) == tx.amount / 100 && ShownDollars(row.fee) == tx.fee / 100
  {
    FormatMoneyShowsDollars(tx.amount);
    FormatMoneyShowsDollars(tx.fee);
    Row(tx.timestamp, tx.sender, tx.receiver, FormatMoney(tx.amount), FormatMoney(tx.fee))
  }

  // ---------------------------------------------------------------------------
  // The two files

  class Ledger {
    /** The accounts file, line by line. */
    var users: seq<UserRec>
    /** The transactions file, line by line. */
    var log: seq<TxRec>

    ghost predicate Valid()
      reads this
    {
      UniqueNames(users) && NonNegative(users)
    }

    /** The files as they are found on disk when the program starts. */
    constructor (users0: seq<UserRec>, log0: seq<TxRec>)
      ensures users == users0 && log == log0
      ensures users0 == [] ==> Valid()
    {
      users := users0;
      log := log0;
    }

    /** ajouter_au_solde: rebuilds every line, adding delta to the balance of
        each line with that name, rewrites the whole accounts file and reports
        success, even when no line matched. */
    method AddToBalance(name: string, delta: int) returns (ok: bool)
      modifies this`users
      ensures ok
      ensures users == Credit(old(users), name, delta)
    {
      var lines: seq<UserRec> := [];
      var i := 0;
      while i < |users|
        invariant 0 <= i <= |users|
        invariant |lines| == i
        invariant forall k :: 0 <= k < i ==> lines[k] == Adjusted(users[k], name, delta)
      {
        var rec := users[i];
        if rec.name == name {
          rec := rec.(balance := rec.balance + delta);
        }
        lines := lines + [rec];
        i := i + 1;
      }
      users := lines;
      ok := true;
    }

    /** enregistrer_transaction: appends one line to the transactions file; the
        fee defaults to 0 and the time is supplied by the caller. */
    method RecordTransaction(sender: string, receiver: string, amount: int, fee: int := 0, nameonly timestamp: string)
      modifies this`log
      ensures log == old(log) + [TxRec(sender, receiver, amount, fee, timestamp)]
    {
      log := log + [TxRec(sender, receiver, amount, fee, timestamp)];
    }

    /** The writing half of envoyer_argent: debits the sender by amount plus
        fee, credits the receiver by amount, then logs the transfer. */
    method Transfer(sender: string, receiver: string, amount: int, fee: int, timestamp: string)
      modifies this
      ensures users == Moved(old(users), sender, receiver, amount, fee)
      ensures log == old(log) + [TxRec(sender, receiver, amount, fee, timestamp)]
    {
      // The code stops with an error message when an update reports failure;
      // ajouter_au_solde always reports success, so neither branch is reachable.
      var debited := AddToBalance(sender, Debit(amount, fee));
      if !debited {
        assert false;
      }
      var credited := AddToBalance(receiver, amount);
      if !credited {
        assert false;
      }
      RecordTransaction(sender, receiver, amount, fee, timestamp := timestamp);
    }

    /** envoyer_argent, with the amount already in cents: refuses a transfer to
        oneself, then a non-positive amount, then one the sender's balance does
        not cover with its fee; otherwise debits the sender, credits the
        receiver (whether or not the receiver has an account) and logs
        the transfer. A refused transfer changes nothing. */
    method Send(sender: string, receiver: string, amount: int, timestamp: string) returns (outcome: SendOutcome)
      modifies this
      ensures outcome == SendCheck(old(users), sender, receiver, amount)
      ensures outcome != Sent ==> users == old(users) && log == old(log)
      ensures outcome == Sent ==>
        && users == Transferred(old(users), sender, receiver, amount)
        && log == old(log) + [TxRec(sender, receiver, amount, Fee(amount), timestamp)]
      ensures old(Valid()) ==> Valid()
    {
      if receiver == sender {
        return SelfTransfer;
      }
      if amount <= 0 {
        return NonPositiveAmount;
      }
      var senderBalance := Balance(users, sender);
      var fee := Fee(amount);
      if senderBalance < amount + fee {
        return InsufficientFunds;
      }
      // The receiver's balance is read and never used; there is no existence check.
      var receiverBalance := Balance(users, receiver);
      ghost var before := users;
      Transfer(sender, receiver, amount, fee, timestamp);
      outcome := Sent;
      if UniqueNames(before) && NonNegative(before) {
        TransferKeepsInvariant(before, sender, receiver, amount);
      }
    }

    /** consulter_transactions, without the printing: one row per entry of the
        log involving name, in log order. An empty result is the case in which
        the code prints that no transaction was found. */
    method History(name: string) returns (rows: seq<Row>)
      ensures |rows| == |Involving(log, name)|
      ensures forall k :: 0 <= k < |rows| ==> rows[k] == RowOf(Involving(log, name)[k])
    {
      rows := [];
      var i := 0;
      while i < |log|
        invariant 0 <= i <= |log|
        invariant |rows| == |Involving(log[..i], name)|
        invariant forall k :: 0 <= k < |rows| ==> rows[k] == RowOf(Involving(log[..i], name)[k])
      {
        var tx := log[i];
        assert log[..i + 1] == log[..i] + [tx];
        InvolvingAppend(log[..i], tx, name);
        if tx.sender == name || tx.receiver == name {
          rows := rows + [RowOf(tx)];
        }
        i := i + 1;
      }
      assert log[..i] == log;
    }
  }
}
