# IFT-1004 Union ledger, in Dafny

A model of the ledger of IFT-1004 Union, a console money-transfer program.
Users register, log in, send money to one another, and read their transaction
history. The program keeps two comma-separated files: the accounts file (one
line per user: name, password digest, balance in cents) and the
transactions file (one line per transfer: sender, receiver, amount, fee, date).

Here the two files are the two fields of a `Ledger` object, `users` and `log`.
Each is a sequence of records, one record per line, already split into fields.
The operations that rewrite or append to a file are methods that reassign
those fields. The operations that only read a file are functions of the
sequence, except `Ledger.History`, which keeps the program's loop over the
transactions file.

- `Config` (configuration.py): the fee tiers `FeeTiers`, the opening balance
  `InitialBalance` (100000 cents) and the funding account's name `AdminName`
  (`"ift-1004-union"`). It also proves that the tiers partition the
  non-negative amounts.
- `Util` (utilitaires.py): the conversion of whole dollars to cents, and
  `FormatMoney` (formater_argent), written out as the program does it: floor
  `divmod`, thousands grouping, and the `" $"` suffix. The password digest
  (SHA-256) is a function parameter of type `Hasher`.
- `Transactions` (transactions.py): the fee computation `Fee`, the balance
  lookup `Balance`, and the balance update `Credit` with its loop method
  `Ledger.AddToBalance`. Also the log append `Ledger.RecordTransaction`, the
  transfer `Ledger.Send` (its checks `SendCheck`, its writes
  `Ledger.Transfer`) and the history query `Ledger.History`.
- `Accounts` (gestion_utilisateurs.py): `Exists`, `Login` and the registration
  method `Register`.

The prompts of each flow are parameters. The messages the program prints become
the returned outcome (`SendOutcome`, `RegisterOutcome`). The transfer time is
a parameter (`timestamp`). `Ledger.Valid()` says that names are unique and
balances are non-negative. `Send` and `Register` preserve it.

Where the program's comments and its code disagree, the model follows the code:

- The `envoyer_argent` docstring says the function checks that the receiver
  exists (transactions.py:48-49), but the code does not. The receiver's balance
  is read and never used (transactions.py:73). A credit to a missing name changes
  no record and still reports success. `TransferTotal` proves that the money
  then leaves the system: the total of the balances drops by the amount plus
  the fee.
- The tier bounds are compared with the amount in cents, although the comment
  beside the table says dollars. So 10000 cents (100 dollars) pays 2500 cents,
  not 500.
- The debit, the credit and the log append are three separate steps
  (transactions.py:75-80), each its own rewrite or append of a file, and the
  model keeps them as three steps.

## Model

| member | source | states |
|---|---|---|
| `Config.InitialBalanceValue` | configuration.py:25 | the opening balance is 1000 dollars, i.e. 100000 cents |
| `Config.FeeTiersShape` | configuration.py:32-38 | five tiers. The first starts at 0, and each later one starts one past the previous maximum. The last is unbounded. Rates strictly increase, from 5 to 25 |
| `Config.ContiguousPartition` | configuration.py:32-38 | a table that starts at lo, has no gaps and ends unbounded puts every amount at or above lo in exactly one tier |
| `Config.FeeTiersPartition` | configuration.py:33-37 | every non-negative number of cents lies in exactly one configured tier |
| `Util.DollarsToCents` | utilitaires.py:66-75 | a whole-dollar amount becomes an exact multiple of 100 cents, and dividing by 100 restores it |
| `Util.Split` | utilitaires.py:89 | divmod by 100 gives a remainder in [0, 100) with n = 100·dollars + cents, also for negative n (floor division) |
| `Util.GroupShape` | utilitaires.py:90 | comma grouping of a digit string adds (len-1)/3 commas, exactly at every fourth position from the right. Removing the commas gives the digits back |
| `Util.FormatMoney` | utilitaires.py:78-90 | formater_argent as written: the output always ends with " $", and it contains a decimal point iff n % 100 ≠ 0 |
| `Util.FormatMoneyLayout` | utilitaires.py:89-90 | with cents the output ends with ".00 $". Before the suffix comes the grouped floor dollars |
| `Util.FormatMoneyDollars` | utilitaires.py:89-90 | removing the suffix (" $", plus ".00" when present) and the commas yields the plain decimal form of floor(n / 100) |
| `Util.PlainRoundTrip` | utilitaires.py:89-90 | that plain decimal form reads back as the dollar amount |
| `Util.FormatMoneyShowsDollars` | utilitaires.py:89-90 | reading a formatted amount back (suffix and commas removed) gives exactly floor(n / 100), for every n |
| `Util.FormatMoneyDropsCents` | utilitaires.py:90 | as written, 150 and 199 cents both format as "1.00 $", which reads back as 100 cents |
| `Util.FormatMoneyWithCentsRoundTrip` | utilitaires.py:78-88 | the documented format (two decimals that are the cents) reads back as exactly n, for every n |
| `Util.FormatMoneyWithCentsExample` | utilitaires.py:84-87 | the documented format prints 150 cents as "1.50 $" |
| `Transactions.FeeFrom` | transactions.py:199-216 | the fee is the truncated m·rate/100 of the first tier containing m, and 0 when no tier does |
| `Transactions.TableFeeByTier` | transactions.py:213-216 | the scan over the configured table, tier by tier: 5 % up to 100 cents, 10 % up to 500, 15 % up to 1000, 20 % up to 5000, 25 % above, truncated. A negative amount gets 0 |
| `Transactions.Fee` | transactions.py:199-216 | calculer_frais on the configured table, in closed form: the same five rates over the same bounds, and 0 for a negative amount |
| `Transactions.FeeBounds` | transactions.py:213-215 | for m ≥ 0, 0 ≤ fee ≤ m/4 ≤ m |
| `Transactions.FeeMonotone` | transactions.py:213-216 | the fee never decreases as the amount grows, including across tier boundaries |
| `Transactions.FeeExamples` | transactions.py:213-216 | 100→5, 101→10, 5000→1000, 5001→1250, 10000→2500, 0→0, -1→0 |
| `Transactions.Balance` | transactions.py:86-103 | the balance of the first record with that name, or 0 when there is none |
| `Transactions.Credit` | transactions.py:163-173 | same length and order, same names and digests. Each record with that name changes by exactly delta. Every other balance is unchanged |
| `Transactions.CreditBalance` | transactions.py:148-175 | after the update, the looked-up balance of the updated name moves by delta if the name exists. The balance of any other name does not move |
| `Transactions.CreditKeepsNames` | transactions.py:167-170 | an update keeps the set of existing names and their uniqueness |
| `Transactions.CreditTotal` | transactions.py:163-175 | the total of balances grows by delta times the number of records with that name. With no match, nothing changes |
| `Transactions.Ledger.constructor` | utilitaires.py:61-63 | the ledger holds the two files as found. When the accounts file is empty, as it is when the program creates it, `Valid()` holds from the start, which gives the invariant that `Send` and `Register` preserve its base case |
| `Transactions.Ledger.AddToBalance` | transactions.py:148-175 | rewrites the accounts file to `Credit(old, name, delta)`, leaves the log alone and always returns true |
| `Transactions.Ledger.RecordTransaction` | transactions.py:178-196 | appends exactly one entry (sender, receiver, amount, fee, time). The fee defaults to 0 |
| `Transactions.SendCheck` | transactions.py:57-71 | a self-transfer is refused first, then an amount ≤ 0. A transfer goes ahead only when the sender's balance minus amount and fee stays ≥ 0. It is refused for insufficient funds only when the balance is below amount + fee |
| `Transactions.Ledger.Transfer` | transactions.py:73-80 | the accounts file becomes the sender's records debited by amount + fee, then the receiver's credited by amount. Exactly one entry (sender, receiver, amount, fee, time) is appended to the log |
| `Transactions.Ledger.Send` | transactions.py:38-83 | refuses a self-transfer, then an amount ≤ 0, then a balance below amount + fee, each leaving both files unchanged. Otherwise the result is the debited-then-credited accounts file plus one log entry. Preserves `Valid()` |
| `Transactions.SentHasSender` | transactions.py:65-71 | a transfer that passes the checks has a positive amount and an existing sender. An absent sender reads as 0 and is refused |
| `Transactions.TransferBalances` | transactions.py:73-80 | on success the sender's balance drops by exactly amount + fee. The receiver's rises by exactly amount when it exists; a missing receiver stays missing. No other name's balance moves |
| `Transactions.TransferRecords` | transactions.py:75-76 | the same change, record by record: the sender's record is debited, the receiver's credited, every other record is identical |
| `Transactions.TransferKeepsInvariant` | transactions.py:65-76 | with unique names and non-negative balances before, both still hold after a transfer |
| `Transactions.TransferTotal` | transactions.py:73-76 | with unique names, a transfer lowers the total of balances by the fee. When the receiver has no account, it lowers the total by the amount too |
| `Transactions.Involving` | transactions.py:134-140 | the history holds only entries of the log that involve the user, and every log entry that does |
| `Transactions.InvolvingAppend` | transactions.py:134-140 | appending to the log adds that entry at the end of the histories it involves and changes no other history. This is the log-order property |
| `Transactions.RowOf` | transactions.py:137-140 | a row carries the entry's date, sender and receiver unchanged. Its formatted amount and fee read back as the floor dollars of the stored cents |
| `Transactions.Ledger.History` | transactions.py:121-145 | one row per involved entry, in log order: date, sender, receiver, formatted amount, formatted fee |
| `Accounts.Exists` | gestion_utilisateurs.py:89-107 | true iff some record carries that name |
| `Accounts.Login` | gestion_utilisateurs.py:65-86 | returns the name iff some record has that name and a digest equal to hash(password), and None otherwise |
| `Accounts.Register` | gestion_utilisateurs.py:30-62 | an empty name or password is refused, then an existing name; both leave the files unchanged. Otherwise appends (name, hash(pw), 100000) and one log entry (admin, name, 100000, 0, time), adjusts no balance, preserves `Valid()` |
| `Accounts.BalanceAppend` | gestion_utilisateurs.py:53-57 | after a record is appended, an existing name keeps its balance and a new name reads the appended balance |
| `Accounts.RegisteredAccount` | gestion_utilisateurs.py:53-59 | after registration the user exists, reads 100000 and can log in with the password. Every other name's balance is unchanged, the funding account's included |
| `Accounts.WrongPasswordRefused` | gestion_utilisateurs.py:78-86 | a password with a different digest does not log the new user in |
| `Accounts.RegisterKeepsInvariant` | gestion_utilisateurs.py:49-57 | registration keeps names unique and balances non-negative |
| `Accounts.FundingInHistory` | gestion_utilisateurs.py:59 | the funding entry ends the new user's history. Every other name's history is unchanged, except the funding account's (a user may register under that name) |

## Findings

| source | as written | input that shows it | evidently intended | confidence | as-written member | corrected member |
|---|---|---|---|---|---|---|
| utilitaires.py:89-90 | the ".2f" branch formats the integer dollars, so it always prints ".00" and the cents are lost | 150 cents prints "1.00 $", the same as 199 cents. -150 cents prints "-2.00 $" | two decimals that are the cents, as the docstring at utilitaires.py:84-87 describes: "1.50 $" | not executed | `Util.FormatMoneyDropsCents` (on `Util.FormatMoney`) | `Util.FormatMoneyWithCentsRoundTrip` (on `Util.FormatMoneyWithCents`) |

The history rows (`Transactions.RowOf`) use `FormatMoney` as written, because
they model what the program displays.

## Left out

- File I/O is not modelled: opening, reading, appending and rewriting the two
  files, and `garantir_existence_fichier`. The files are the two sequences.
  The comma-line format is not modelled either; splitting a line back into
  fields is exact only for fields without commas, newlines or surrounding
  whitespace.
- `input()` and `print` are not modelled. Prompts are parameters, messages are
  outcomes. The menu loop (ift1004_union.py), affichages.py and
  `afficher_tableau` are console display. `consulter_solde` is `Balance`
  followed by `FormatMoney` and a print.
- Transactions.Ledger.Send: takes the amount as an integer number of cents.
  The program reads a float in dollars and truncates `dollars * 100`.
  Because it checks positivity on the dollars, a positive amount under one
  cent (0.001) passes the check, is sent as 0 cents and is logged. The model
  does not capture this. It also does not capture binary floating-point
  rounding in that conversion. Input that is not a number ends the program
  before either file is touched: `float()` rejects it, and "nan" and "inf"
  pass the positivity check and then make `int()` raise at
  utilitaires.py:75. The model has no such input.
- Transactions.FeeFrom: uses exact integer arithmetic. The program divides
  `m * rate` by 100 in floating point and truncates, which agrees at least
  while m·rate < 2^53.
- Util.FormatMoney: groups exact integers. Python's ".0f"/".2f" first turn
  the dollars into a float, which differs beyond 2^53.
- SHA-256 (`hacher_mot_de_passe`) is an arbitrary function parameter. The
  constant-time `secrets.compare_digest` is plain equality.
- `datetime.now().strftime` is not modelled: the caller passes the timestamp
  as a string.
- Concurrent access and atomicity are not modelled. The program has no
  locking, and the model runs one operation at a time.
