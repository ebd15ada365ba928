# Library circulation, bank accounts, alarm clock, odometer and match classifiers

A Dafny model of a small collection of Python programs:

- **Library circulation** (`library.dfy`, module `LibrarySystem`). Books carry copy counts and the list of borrowers. Members have a tier (Regular, Premium or Student) that fixes their loan limit and loan period. Members also have open loans, a loan history and pending fines. The library holds a catalog keyed by ISBN, a member registry keyed by id and a transaction log. Borrowing and returning go through the library. A return past the loan period costs 50 cents for each overdue day. Member ids come from a shared counter that starts at 1000.
- **Bank accounts** (`accounts.dfy`, module `Accounts`).
  - The base account guards deposit and withdraw and earns no interest.
  - The savings, checking and business accounts differ in their interest rate and their withdraw rule. Checking checks an overdraft limit, but as written never debits (see Findings); business charges a transaction fee.
  - The four classes are one Dafny class. Its constant `kind` records the subclass and that subclass's setting.
- **Alarm clock** (`alarm.dfy`, module `Alarm`): the HH:MM validator, adding and removing alarms, and the polling loop. The loop rings each alarm at most once per run.
- **Odometer** (`encapsulation.dfy`, module `Encapsulation`): a car whose private mileage can only grow.
- **Match classifiers** (`match_statement.dfy`, module `MatchStatement`): the phrase for an HTTP error status, and the case that a value matches.
- `wrappers.dfy` (module `Wrappers`) holds the `Option` type that the library and the alarm clock share.

Where the source changes objects in place, the model uses classes with `modifies` frames. The library classes carry `Valid`/`Consistent` invariants. The library's circulation methods are specified by the two-state predicates `BorrowEffect` and `ReturnEffect`. Pure code becomes functions with lemmas.

Conventions:
- Time is an integer day stamp passed in by the caller. The alarm loop sees a sequence of HH:MM clock readings.
- Library money is integer cents. Account amounts are whole currency units.
- Console input becomes parameters.

## Model

| member | source | states |
|---|---|---|
| LibrarySystem.TierPolicy | library_system.py:73-75 | a policy exists exactly for the three tier names; limits lie in 3..10 books and 14..30 days |
| LibrarySystem.TierTable | library_system.py:74-75 | Regular is 3 books for 14 days, Premium 10 for 30, Student 5 for 21 |
| LibrarySystem.OverdueFine | library_system.py:96-101 | the fine is zero exactly when the loan is within the loan period, and is a whole number of 50-cent days |
| LibrarySystem.OverdueFineSteps | library_system.py:98-100 | on the last allowed day the fine is 0; one day later it is 50 cents; each further day adds 50 cents |
| LibrarySystem.OverdueFineMonotone | library_system.py:98-100 | a longer loan never costs less |
| LibrarySystem.RegularTwentyDaysFine | library_system.py:74-75 | a Regular member returning after 20 days owes 300 cents (6 overdue days) |
| LibrarySystem.RemoveFirst | library_system.py:48 | removing a borrower id that is absent changes nothing; removing one that is present shortens the list by one |
| LibrarySystem.FirstIndex | library_system.py:48 | the index returned holds the id and no earlier index does |
| LibrarySystem.RemoveFirstCutsFirstIndex | library_system.py:48 | removal deletes exactly the first occurrence |
| LibrarySystem.RemoveFirstMultiset | library_system.py:48 | removal takes exactly one copy of the id out of the multiset of borrowers, or none if it was absent |
| LibrarySystem.RemoveFirstKeepsOthers | library_system.py:48 | every other id stays a borrower exactly when it was one before |
| LibrarySystem.RemoveFirstAppended | library_system.py:41-48 | removing an id just appended takes out its earlier entry when there is one, and otherwise the appended one |
| LibrarySystem.BorrowReturnRestores | library_system.py:38-50 | borrowing then returning leaves the same borrower entries; the list itself is restored when the member held no copy before |
| LibrarySystem.DoubleBorrowReorders | library_system.py:38-50 | after a second borrow by the same member and one return, the borrower list comes back reordered when another member borrowed in between, and unchanged when nobody did |
| LibrarySystem.BorrowThenReturn | library_system.py:38-50 | on a book with a copy available, a borrow and a return both succeed and restore the copy counts and the borrower entries, in their order when the member held no copy |
| LibrarySystem.Book.constructor | library_system.py:25-33 | all copies available, no borrowers, invariant `available + borrowers == total` established |
| LibrarySystem.Book.IsAvailable | library_system.py:35-36 | for a balanced book, a copy is available exactly when fewer copies are lent than owned |
| LibrarySystem.Book.Borrow | library_system.py:35-43 | succeeds exactly when a copy is available; then one fewer copy and the member is appended to the borrowers; otherwise nothing changes; the copy invariant is kept |
| LibrarySystem.Book.ReturnBook | library_system.py:45-50 | succeeds exactly when the member is a borrower; then one more copy and the first occurrence of the member is removed; otherwise nothing changes; the copy invariant is kept |
| LibrarySystem.Member.constructor | library_system.py:61-75 | the fields are set, the limits come from the tier table, and there are no loans, no history and no fines |
| LibrarySystem.Member.CanBorrow | library_system.py:77-78 | a member with fines can never borrow; a valid member without fines can borrow exactly until the limit is reached, and one more loan stays within it |
| LibrarySystem.Member.BorrowBook | library_system.py:80-87 | refused when the limit is reached or fines are pending; otherwise borrows the book if a copy is available and records the loan date, else reports it unavailable; a refusal changes neither object (`BorrowEffect`) |
| LibrarySystem.Member.ReturnBook | library_system.py:89-115 | succeeds exactly when the member has the book on loan; then the overdue fine is added to fines, the loan is closed, the member's first entry leaves the book's borrowers and, when the book listed the member, it gets a copy back; the history gains the record (book, dates, days, fine); otherwise nothing changes (`ReturnEffect`) |
| LibrarySystem.Member.PayFine | library_system.py:117-124 | paying at least the balance clears it and reports the old balance as paid; paying less deducts the amount; fines never go negative |
| LibrarySystem.MemberIdCounter.constructor | library_system.py:59 | the counter starts at 1000 |
| LibrarySystem.NewMember | library_system.py:61-75 | takes the counter value as the id and advances the counter in every case; succeeds exactly for a known tier, with an empty, valid member |
| LibrarySystem.Lower | library_system.py:166 | no capital letter remains, every other character is kept, and each capital becomes its own small letter; the length is kept |
| LibrarySystem.LowerIdempotent | library_system.py:166 | lower-casing an already lower-cased string changes nothing |
| LibrarySystem.Contains | library_system.py:166 | a contained pattern is no longer than the text; the empty pattern is in every text |
| LibrarySystem.ContainsIffOccurs | library_system.py:166 | the text contains the pattern exactly when the pattern occurs at some index of it, as Python's substring `in` means |
| LibrarySystem.SearchIgnoresQueryCase | library_system.py:163-175 | a title or author query finds the same books as its lower-cased form |
| LibrarySystem.Library.constructor | library_system.py:141-146 | empty catalog, registry and log; consistent |
| LibrarySystem.Library.AddBook | library_system.py:148-156 | a known ISBN adds the new object's total to the stored book's total and available copies (if it is the same object, its total doubles and its available copies grow by twice the old total); an unknown ISBN is stored and appended to catalog order; consistency is kept unless the same object is added twice |
| LibrarySystem.Library.LogTransaction | library_system.py:212-216 | appends exactly one entry to the log |
| LibrarySystem.Library.RegisterMember | library_system.py:158-161 | stores the member under its id (replacing any earlier one), logs the registration, returns the id, leaves the catalog alone, and keeps consistency for a member without loans |
| LibrarySystem.Library.Select | library_system.py:163-182 | every book returned is a catalog book satisfying the filter, every such book among the keys is returned, and none twice when the keys have no repeats |
| LibrarySystem.Library.SelectAll | library_system.py:163-182 | over the whole catalog, the selection is sound, complete and duplicate-free |
| LibrarySystem.Library.FindBookByTitle | library_system.py:163-168 | exactly the books whose lower-cased title contains the lower-cased query |
| LibrarySystem.Library.FindBooksByAuthor | library_system.py:170-175 | exactly the books whose lower-cased author contains the lower-cased query |
| LibrarySystem.Library.FindBooksByGenre | library_system.py:177-182 | exactly the books of the genre |
| LibrarySystem.Library.BorrowBook | library_system.py:184-196 | an unknown member, then an unknown book, is reported first, and then neither the book nor the member changes; otherwise the member's borrow takes effect (`BorrowEffect`) and a success is logged; catalog and registry keys are unchanged and consistency is kept |
| LibrarySystem.Library.ReturnBook | library_system.py:198-210 | an unknown member, then an unknown book, is reported first, and then neither the book nor the member changes; otherwise the member's return takes effect (`ReturnEffect`), a success is logged with its fine, and in a consistent library the book regains exactly one copy |
| LibrarySystem.Library.CatalogAdditionKeepsIndexed | library_system.py:155 | adding a new ISBN keeps the catalog keyed by ISBN and listed once in order |
| LibrarySystem.Library.CatalogAdditionKeepsBalanced | library_system.py:155 | adding a new valid book keeps every book's copy invariant |
| LibrarySystem.Library.CatalogChangeKeepsFiled | library_system.py:148-156 | catalog changes that keep the borrower lists keep every loan filed under its book |
| LibrarySystem.Library.RegistrationKeepsIndexed | library_system.py:159 | storing a member keeps the registry keyed by id and listed once in order |
| LibrarySystem.Library.RegistrationKeepsFiled | library_system.py:159 | storing a member without loans keeps every loan filed under its book |
| LibrarySystem.Library.OtherMembersUnchanged | library_system.py:190-193 | a loan step touches only the member it names |
| LibrarySystem.Library.OtherBooksUnchanged | library_system.py:191-193 | a loan step touches only the book it names |
| LibrarySystem.Library.LoanChangeKeepsWellformed | library_system.py:184-210 | a loan step keeps the catalog and registry indexes |
| LibrarySystem.Library.BookChangeKeepsBalanced | library_system.py:38-50 | changing one book in a way that keeps its copy invariant keeps all of them |
| LibrarySystem.Library.LoanChangeKeepsFiled | library_system.py:80-104 | a borrow or return that files the new loan under the book and keeps the other borrowers keeps every loan filed |
| LibrarySystem.Library.CopiesBalance | library_system.py:219-221 | total copies minus available copies equals the number of open borrower entries |
| LibrarySystem.Library.AvailableNonNegative | library_system.py:220 | the available-copies sum is never negative |
| LibrarySystem.Library.FinesNonNegative | library_system.py:222 | the pending-fines sum is never negative |
| LibrarySystem.Library.StatsFacts | library_system.py:218-231 | in a consistent library the borrowed count equals the number of borrower entries (one per copy lent, so a double borrow counts twice), and available copies and pending fines are non-negative |
| LibrarySystem.Library.Stats | library_system.py:218-231 | unique titles and member counts are the map sizes; fines pending are non-negative; in a consistent library, 0 <= borrowed <= total and borrowed equals the number of borrower entries |
| Accounts.DepositCredits | examples/oop_demo.py:20-25 | a deposit changes the balance exactly when the amount is positive, and then by exactly that amount |
| Accounts.WithdrawDebits | examples/oop_demo.py:28-33 | a withdraw changes the balance exactly when 0 < amount <= balance, by exactly that amount; never raises the balance; keeps it non-negative |
| Accounts.WithdrawUndoesDeposit | examples/oop_demo.py:20-33 | withdrawing a just-deposited positive amount restores a non-negative balance |
| Accounts.CheckingWithdrawn | examples/oop_demo.py:80-87 | as written: never raises the balance, and an amount outside 0 < amount <= balance + limit leaves it alone |
| Accounts.BusinessWithdrawn | examples/oop_demo.py:104-110 | never raises the balance; an amount plus fee above the balance leaves it alone; a debit takes exactly amount plus fee and leaves a non-negative balance |
| Accounts.WithdrawnFrom | examples/oop_demo.py:28-110 | the override each kind runs: no withdraw raises the balance; base and savings debit exactly an amount the balance covers; checking as written never debits; business debits amount plus fee |
| Accounts.CheckingWithdrawNeverMoves | examples/oop_demo.py:80-87 | as written, the checking withdraw leaves the balance unchanged for every input |
| Accounts.CheckingOverdraftExample | examples/oop_demo.py:133-144 | 600 from 500 with a 200 overdraft: 500 as written, -100 as intended |
| Accounts.CheckingIntendedWithinOverdraft | examples/oop_demo.py:80-87 | the intended checking withdraw debits exactly when 0 < amount <= balance + limit, by exactly the amount, and never below minus the limit |
| Accounts.BusinessChargesFee | examples/oop_demo.py:104-110 | a business withdraw debits amount + fee exactly when 0 < amount + fee <= balance |
| Accounts.NonNegativeBalanceStays | examples/oop_demo.py:20-33 | except for the checking account, deposit and withdraw keep a non-negative balance non-negative |
| Accounts.BankAccount.constructor | examples/oop_demo.py:6-9 | number, holder and balance (default 0) as given, base kind |
| Accounts.BankAccount.Savings | examples/oop_demo.py:50-52 | savings kind with the given rate (default 3 percent) |
| Accounts.BankAccount.Checking | examples/oop_demo.py:69-71 | checking kind with the given overdraft limit (default 100) |
| Accounts.BankAccount.Business | examples/oop_demo.py:93-95 | business kind with the given fee (default 2) |
| Accounts.BankAccount.GetBalance | examples/oop_demo.py:12-13 | the current balance |
| Accounts.BankAccount.GetAccountNumber | examples/oop_demo.py:16-17 | the account number fixed at opening |
| Accounts.BankAccount.Deposit | examples/oop_demo.py:20-25 | the balance becomes `Deposited(old balance, amount)` |
| Accounts.BankAccount.BaseWithdraw | examples/oop_demo.py:28-33 | the balance becomes `Withdrawn(old balance, amount)` |
| Accounts.BankAccount.Withdraw | examples/oop_demo.py:80-110 | the balance follows the withdraw rule of the account's own class, the checking one as written |
| Accounts.BankAccount.OverdraftWithdraw | examples/oop_demo.py:80-87 | the checking withdraw as intended: debits the amount when it is within balance plus overdraft |
| Accounts.BankAccount.CalculateInterest | examples/oop_demo.py:36-37 | the base account earns no interest; a non-negative balance at a non-negative rate earns non-negative interest; a positive rate earns at least one cent per unit of balance |
| Accounts.OperationsDemo | examples/oop_demo.py:132-145 | after the demonstration's operations, savings holds 1200, checking still 500, business 4895 |
| Alarm.DigitsValue | alarm.py:13 | the decimal value integer conversion gives: one digit is its own value, two digits are ten times the first plus the second, so below 100 |
| Alarm.TrimStart | alarm.py:19 | drops exactly the leading whitespace |
| Alarm.TrimEnd | alarm.py:19 | drops exactly the trailing whitespace |
| Alarm.Strip | alarm.py:19 | the result neither starts nor ends with whitespace |
| Alarm.StripKeepsTrimmed | alarm.py:19 | a string without outer whitespace strips to itself |
| Alarm.StripIdempotent | alarm.py:19 | stripping twice equals stripping once |
| Alarm.Split | alarm.py:10 | a split yields one more piece than there are separators, none containing the separator |
| Alarm.JoinSplit | alarm.py:10 | joining the pieces with the separator gives the original string |
| Alarm.SplitWithoutSep | alarm.py:10 | a string without the separator is a single piece |
| Alarm.SplitAtFirstSep | alarm.py:10 | splitting at the first separator gives the piece before it followed by the split of the rest |
| Alarm.SplitAtOnlySep | alarm.py:10 | with one separator the pieces are what lies before and after it |
| Alarm.ValidateTime | alarm.py:6-14 | acceptance implies length 5 with ':' at index 2 |
| Alarm.RejectsWrongShape | alarm.py:8-9 | wrong length or no ':' at index 2 gives false without raising |
| Alarm.ValidateSingleColon | alarm.py:10-14 | with ':' only at index 2: accepted exactly when both halves are digits, hours <= 23 and minutes <= 59 |
| Alarm.AcceptedIsClockTime | alarm.py:8-14 | an accepted string is two digits, ':', two digits, with hours 0..23 and minutes 0..59 |
| Alarm.SecondColonRaises | alarm.py:10 | a second ':' makes the two-way unpacking raise instead of returning false |
| Alarm.AcceptsSevenThirty | alarm.py:19 | "07:30" is accepted |
| Alarm.AcceptsLastMinute | alarm.py:14 | "23:59" is accepted |
| Alarm.RejectsOutOfRangeHour | alarm.py:14 | "24:00" is rejected |
| Alarm.RejectsNonDigits | alarm.py:11-12 | "ab:cd" is rejected |
| Alarm.RaisesOnSecondColon | alarm.py:10 | "12:3:" raises |
| Alarm.FirstAccepted | alarm.py:18-22 | the outcome names the first line that passes or raises; every earlier line was rejected; when the lines run out, all were rejected |
| Alarm.AppendKeepsTimesValid | alarm.py:24 | appending a validated time keeps every stored time valid |
| Alarm.AlarmClock.constructor | alarm.py:3 | the list starts empty |
| Alarm.AlarmClock.AddAlarm | alarm.py:17-26 | appends exactly one entry (stripped time, stripped message) for the first line that passes validation; otherwise the list is unchanged; every stored time stays valid |
| Alarm.AlarmClock.RemoveAlarm | alarm.py:39-52 | removes and returns the entry at idx-1 exactly when 1 <= idx <= length; otherwise (empty list, non-number, out of range) nothing changes; the multiset loses exactly the removed entry |
| Alarm.Tick | alarm.py:68-74 | rings, in list order, exactly the alarms set for `now` that have not rung; the triggered set grows by exactly those |
| Alarm.RunAlarmLoop | alarm.py:55-74 | an empty list returns at once; otherwise one tick per reading; an alarm rings at a reading exactly when the reading equals its time and no earlier reading did; no alarm rings twice; the triggered set is exactly the alarms whose time was read |
| Encapsulation.KmAddedExactly | encapsulation.py:23-28 | a non-negative increase adds exactly itself; a negative one changes nothing; mileage never drops |
| Encapsulation.KmAfterAddsAccepted | encapsulation.py:23-28 | any series of increases adds exactly the sum of its non-negative entries, so mileage never drops |
| Encapsulation.KmAfterPrefixMonotone | encapsulation.py:23-28 | mileage after a prefix of the series is at most the mileage after the whole series |
| Encapsulation.AcceptedTotalSplit | encapsulation.py:23-28 | the accepted total of a series is the sum over any split of it |
| Encapsulation.Avto.constructor | encapsulation.py:7-15 | every attribute as given, mileage defaulting to 0 |
| Encapsulation.Avto.GetKm | encapsulation.py:17-18 | the current mileage |
| Encapsulation.Avto.GetId | encapsulation.py:20-21 | the identifier given at construction |
| Encapsulation.Avto.AddKm | encapsulation.py:23-28 | mileage becomes `KmAdded(old mileage, delta)`, never less than before; nothing else can change |
| Encapsulation.OdometerDemo | encapsulation.py:30-34 | 10000 km plus 30000 reads 40000 |
| MatchStatement.HttpError | match_statement.py:25-34 | 400, 404 and 418 each get their own phrase, and exactly the other statuses get the fallback phrase |
| MatchStatement.HttpErrorDistinguishesNamed | match_statement.py:25-34 | two statuses share a phrase only if they are equal or both unnamed |
| MatchStatement.CheckValue | match_statement.py:11-20 | the first case whose pattern matches is taken: 1 (True included), then 2, then any two-element sequence (binding both elements), else the wildcard |
| MatchStatement.CheckValueDemo | match_statement.py:22 | [10, 20] takes the two-element case; True takes the first case; a string takes the wildcard |

## Left out

- Printing, `__str__`, the `display_*` methods and the interactive menus: presentation only.
- Wall-clock time: dates and `now` are parameters. This covers `datetime.now()`, `timedelta`, `get_membership_duration`, log timestamps, `time.strftime`, `time.sleep` and the Ctrl-C stop of the alarm loop. The loop's run is the finite sequence of clock readings it sees.
- `uuid4` in the car: the identifier is a parameter.
- Console input: the lines typed and the number chosen are parameters. End of input during `add_alarm` is modelled as the lines running out.
- Floating point:
  - Fines are integer cents.
  - Account interest is an exact integer: balance times percent, in cents. Float rounding and `add_interest` are not modelled.
  - A balance made fractional by interest is not modelled.
- Unicode: lower-casing, whitespace and digit tests are ASCII only. Python's `isdigit` also accepts other Unicode digits, which `int()` may then reject.
- Accounts.BankAccount.CalculateInterest: states only the base account's zero and the sign and size of subclass interest, not the float value the source prints.
- Transaction log entries are structured records rather than formatted strings, and carry no timestamp.
- The library's statistics are computed over the catalog and registry in insertion order; Python's dict ordering is modelled by explicit key-order sequences.
- `Member.__init__` looks up an unknown tier with a `KeyError` after the id has been consumed. NewMember returns None in that case, and the counter still advances.
- Library.AddBook: when the same book object is added twice, the source doubles its total and adds twice the old total to its available copies. Its copy invariant then breaks, so consistency is promised only when the stored object differs from the argument.
- Borrowing the same ISBN twice is kept as written. The loan map keeps one date, while the book's borrower list gets the member twice.
- Values the match classifier does not distinguish (floats, bytes, other objects) are `Other`. A float equal to 1 or 2 would take the literal cases in Python.
- Paying a fine: there is only `Member.pay_fine`, and it does not check the amount, so a negative payment raises the fines.
- The remaining scripts of the repository are not part of this model: expense tracking, number guessing, list/loop/range/text tutorials and the small class demos.

## Findings

| source | as written | input that shows it | evidently intended | confidence | as-written member | corrected member |
|---|---|---|---|---|---|---|
| examples/oop_demo.py:80-87 | checking withdraw passes the overdraft guard, then deposits the negated amount; the base deposit ignores non-positive amounts, so the balance never moves | balance 500, overdraft 200, withdraw 600: the balance stays 500 | debit the amount, down to minus the overdraft limit (balance -100) | high, not executed | Accounts.CheckingWithdrawNeverMoves | Accounts.CheckingIntendedWithinOverdraft |
