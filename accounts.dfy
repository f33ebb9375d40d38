/** gestion_utilisateurs.py: registration, login and the existence check, over
    the accounts file of a Ledger. The two prompts of each flow are parameters,
    and the printed messages are the outcomes returned. */
module Accounts {
  import opened Util
  import opened Config
  import opened Transactions

  /** What enregistrer_utilisateur prints; it returns True only for Registered. */
  datatype RegisterOutcome = EmptyCredentials | NameTaken | Registered

  /** utilisateur_existe: scans the accounts file for the name. */
  function Exists(users: seq<UserRec>, name: string): (found: bool)
    ensures found <==> HasUser(users, name)
  {
    if users == [] then false
    else if users[0].name == name then true
    else Exists(users[1..], name)
  }

  /** connecter_utilisateur: the name when some record carries both that name
      and the digest of the password, None otherwise. The digest comparison
      (secrets.compare_digest) is plain equality here. */
  function Login(users: seq<UserRec>, hash: Hasher, name: string, password: string): (session: Option<string>)
    ensures session.Some? <==> exists i :: 0 <= i < |users| && users[i].name == name && users[i].hash == hash(password)
    ensures session.Some? ==> session.value == name
  {
    if users == [] then None
    else if users[0].name == name && users[0].hash == hash(password) then Some(name)
    else Login(users[1..], hash, name, password)
  }

  /** The record a successful registration appends. */
  function NewAccount(hash: Hasher, name: string, password: string): UserRec
  {
    UserRec(name, hash(password), InitialBalance)
  }

  /** enregistrer_utilisateur: refuses an empty name or password, then a name
      already present; otherwise appends the new account with the opening
      balance and logs a transfer of that balance from the funding account,
      without adjusting any balance. A refused registration changes nothing. */
  method Register(ledger: Ledger, hash: Hasher, name: string, password: string, timestamp: string)
    returns (outcome: RegisterOutcome)
    modifies ledger
    ensures outcome == (if name == [] || password == [] then EmptyCredentials
                        else if Exists(old(ledger.users), name) then NameTaken
                        else Registered)
    ensures outcome != Registered ==> ledger.users == old(ledger.users) && ledger.log == old(ledger.log)
    ensures outcome == Registered ==>
      && ledger.users == old(ledger.users) + [NewAccount(hash, name, password)]
      && ledger.log == old(ledger.log) + [TxRec(AdminName, name, InitialBalance, 0, timestamp)]
    ensures old(ledger.Valid()) ==> ledger.Valid()
  {
    if name == [] || password == [] {
      return EmptyCredentials;
    }
    if Exists(ledger.users, name) {
      return NameTaken;
    }
    ghost var before := ledger.users;
    var digest := hash(password);
    ledger.users := ledger.users + [UserRec(name, digest, InitialBalance)];
    ledger.RecordTransaction(AdminName, name, InitialBalance, timestamp := timestamp);
    outcome := Registered;
    if UniqueNames(before) && NonNegative(before) {
      RegisterKeepsInvariant(before, NewAccount(hash, name, password));
    }
  }

  /** recuperer_solde after appending a record: a name already present keeps the
      balance of its first record, and a new name reads the appended balance. */
  lemma {:induction false} BalanceAppend(users: seq<UserRec>, rec: UserRec, other: string)
    ensures Balance(users + [rec], other)
         == if HasUser(users, other) then Balance(users, other)
            else if rec.name == other then rec.balance else 0
  {
    if users == [] {
      assert users + [rec] == [rec];
    } else {
      assert (users + [rec])[0] == users[0];
      assert (users + [rec])[1..] == users[1..] + [rec];
      BalanceAppend(users[1..], rec, other);
      if users[0].name != other {
        assert HasUser(users, other) == HasUser(users[1..], other) by {
          if HasUser(users, other) {
            var i :| 0 <= i < |users| && users[i].name == other;
            assert users[1..][i - 1].name == other;
          }
        }
      }
    }
  }

  /** After a successful registration the user exists, reads the opening
      balance, can log in with that password, and no other name's balance
      (the funding account's included) has moved. */
  lemma RegisteredAccount(users: seq<UserRec>, hash: Hasher, name: string, password: string)
    requires !Exists(users, name)
    ensures var after := users + [NewAccount(hash, name, password)];
      && Exists(after, name)
      && Balance(after, name) == InitialBalance
      && Login(after, hash, name, password) == Some(name)
      && (forall other :: other != name ==> Balance(after, other) == Balance(users, other))
  {
    var rec := NewAccount(hash, name, password);
    var after := users + [rec];
    assert after[|users|] == rec;
    BalanceAppend(users, rec, name);
    forall other | other != name ensures Balance(after, other) == Balance(users, other) {
      BalanceAppend(users, rec, other);
    }
  }

  /** A password whose digest differs from the stored one does not log the
      new user in. */
  lemma WrongPasswordRefused(users: seq<UserRec>, hash: Hasher, name: string, password: string, guess: string)
    requires !Exists(users, name) && hash(guess) != hash(password)
    ensures Login(users + [NewAccount(hash, name, password)], hash, name, guess) == None
  {
    var after := users + [NewAccount(hash, name, password)];
    forall i | 0 <= i < |after| ensures !(after[i].name == name && after[i].hash == hash(guess)) {
      if i < |users| {
        assert after[i] == users[i];
      }
    }
  }

  /** Registration keeps names unique and balances non-negative. */
  lemma RegisterKeepsInvariant(users: seq<UserRec>, rec: UserRec)
    requires UniqueNames(users) && NonNegative(users)
    requires !HasUser(users, rec.name) && rec.balance == InitialBalance
    ensures UniqueNames(users + [rec]) && NonNegative(users + [rec])
  {
    var after := users + [rec];
    forall i, j | 0 <= i < j < |after| ensures after[i].name != after[j].name {
      if j == |users| {
        assert after[i] == users[i];
      } else {
        assert after[i] == users[i] && after[j] == users[j];
      }
    }
  }

  /** A registration appends exactly one log entry, the funding transfer, which
      is the last entry of the new user's history; every other user's history,
      the sender's aside, is unchanged. */
  lemma FundingInHistory(log: seq<TxRec>, name: string, timestamp: string, other: string)
    requires other != name && other != AdminName
    ensures var funding := TxRec(AdminName, name, InitialBalance, 0, timestamp);
      && Involving(log + [funding], name) == Involving(log, name) + [funding]
      && Involving(log + [funding], other) == Involving(log, other)
  {
    var funding := TxRec(AdminName, name, InitialBalance, 0, timestamp);
    InvolvingAppend(log, funding, name);
    InvolvingAppend(log, funding, other);
  }
}
