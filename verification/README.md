# Shared-expense ledger: a verified model

The system is a small shared-expense tracker for a group of friends. This
project models its money logic, which sits inside the page script `app.py`:

- **Member list.** The settings box holds the member names separated by
  commas. On update, the text is split at every comma, each piece is
  stripped of surrounding whitespace, and empty pieces are dropped. The box
  is pre-filled with the current names joined by ", ".
- **Share split.** An expense has a payer, a total and one text box per
  member.
  - If every box is blank, each member pays `total / |members|`.
  - Otherwise each member pays the number in their box, and a blank box
    counts as 0.
  - If the typed amounts differ from the total by more than 0.1, a warning
    is shown. The row is written all the same.
- **Ledger.** The expense rows are folded, in order, into two tables:
  - how much each member advanced (the rows they paid for);
  - how much each member consumed (their shares).

  Names that are not members are ignored. A row whose share payload cannot
  be decoded is skipped. A member's balance is consumed minus advanced: a
  positive balance means the member owes, a negative one means the member is
  owed.
- **Settlement.** Debtors are members whose balance is above 0.1. Creditors
  are members whose balance is below -0.1, kept as a positive amount owed.
  Each list is sorted by amount, largest first, with ties keeping member
  order. A two-pointer loop then suggests transfers:
  - each transfer goes from the current debtor to the current creditor;
  - its amount is the smaller of the two remainders, which is subtracted
    from both;
  - a pointer moves on once its remainder drops below 0.1.

The Dafny modules follow these four parts:

| module | file | contents |
|---|---|---|
| `Model` | `model.dfy` | the tolerance, rows, entries, transfers, and sums over names |
| `Members` | `members.dfy` | whitespace as Python defines it, strip, split, join, the member parser, dictionary key order |
| `Splitter` | `splitter.dfy` | the even split, the manual split loop, the form submission |
| `Ledger` | `ledger.dfy` | the aggregation loops, the balances and the zero-sum property |
| `Settlement` | `settlement.dfy` | the filters, the stable sort, the settlement loop, the planner and the whole report |

Amounts are exact reals, and `Tolerance` is the constant 0.1 used at every
comparison. A decoded share payload is `Option<map<string, real>>`, where
`None` means the stored text did not decode. A share box is
`Option<real>`, where `None` means the box is blank. The aggregation loops,
the manual split and the settlement loop are methods with loop invariants,
each proved against specification functions (`TotalPaid`, `TotalSpent`,
`Flow`, `SumOver`). The settlement loop is also proved equal to `Greedy`,
the same two-pointer rule written as a recursive function. The settlement loop works on local copies of the two
lists, as the script does, and returns them with the transfers.

## Model

| member | source | states |
|---|---|---|
| Members.IsSpaceRanges | app.py:28 | A character counts as whitespace for `strip()` exactly when its code point lies in one of the ten ranges that Python's `str.isspace()` accepts: tab to carriage return, 0x1C to space, 0x85, 0xA0, 0x1680, 0x2000 to 0x200A, 0x2028 to 0x2029, 0x202F, 0x205F and 0x3000. |
| Members.TrimLeft | app.py:28 | The result is a suffix of the input. The prefix removed from the input is all whitespace. |
| Members.TrimLeftHead | app.py:28 | After left-trimming, the first character is not whitespace. |
| Members.TrimRight | app.py:28 | The result is a prefix of the input. The suffix removed is all whitespace, and the last character kept is not. |
| Members.Strip | app.py:28 | The result is a slice `s[i..j]` of the input with only whitespace before `i` and after `j`, and neither end of the result is whitespace. The result is empty exactly when the input is all whitespace. An already-stripped string comes back unchanged. Every character of the result comes from the input. |
| Members.Split | app.py:28 | Splitting at commas gives at least one piece, and no piece contains a comma. |
| Members.JoinSplit | app.py:28 | Joining the pieces with "," gives back the original text, so splitting loses nothing. |
| Members.ParseMembers | app.py:28 | Every parsed name is non-empty, has no whitespace at either end and contains no comma. |
| Members.ParseNoComma | app.py:28 | Text without a comma gives one name, the text stripped, or no name when the text is all whitespace. |
| Members.ParseAtComma | app.py:28 | A comma ends a name: the text before the first comma and the text after it are parsed separately, and the two lists are joined in order. |
| Members.ParseJoinRoundTrip | app.py:26-28 | Parsing the pre-filled text (names joined by ", ") gives back the same member list, for any list of names the parser can produce. |
| Members.ParseIdempotent | app.py:26-28 | Parse, join with ", " and parse again gives the same list as the first parse. |
| Members.Dedup | app.py:113 | A dictionary built from the member list has the member names as keys, each once. The keys are in order of first appearance: an earlier key first appears earlier in the list. A list without repeats keeps its order. |
| Splitter.ReadBox | app.py:58 | A box holding only whitespace is blank. Any other box reads as its number. |
| Splitter.HasManualText | app.py:51 | The form has typed shares exactly when some member's box holds more than whitespace. |
| Splitter.EvenSplit | app.py:53-55 | The even split has exactly the members as keys. Each share multiplied by the number of members gives the total. |
| Splitter.EvenSplitConserves | app.py:53-55 | The even shares, summed over a non-empty member list, give back the total. |
| Splitter.ManualSplit | app.py:56-60 | Every member gets a key. A member's share is the number in their box, or 0 when the box is blank. The running sum equals the sum of the shares over the member list. |
| Splitter.SubmitExpense | app.py:47-73 | Submission fails exactly when there are no members: with no members every box is blank, and the even split divides by zero. Otherwise the row carries the payer, the total and one share per member. With all boxes blank it holds the even split and no warning. With any box filled it holds the typed shares, and it warns exactly when their sum differs from the total by more than 0.1; the row is written either way. Without a warning, and with the payer a member, the row's imbalance is at most 0.1; an even split with the payer a member is exactly balanced. |
| Ledger.FoldRow | app.py:86-96 | One row leaves the table keys unchanged. It adds the row's amount to its payer and each share to the member it names, among the names already in the tables. An undecodable row adds nothing. |
| Ledger.Aggregate | app.py:83-96 | Both tables have exactly the members as keys. A member's entries are the total paid and the total consumed over all rows. Undecodable rows and names that are not members contribute nothing. |
| Ledger.UndecodableRowSkipped | app.py:90-96 | Inserting an undecodable row anywhere in the log changes no member's totals, and the rows after it still count. |
| Ledger.BalanceItems | app.py:113 | The balance table lists every member once, in member order, each with consumed minus paid. |
| Ledger.NetTotalIsImbalance | app.py:101 | For distinct members, the balances add up to the sum over the rows of each row's shares among the members minus the amount credited to its payer among the members. |
| Ledger.ZeroSum | app.py:101 | If every decoded row's payer and share names are members and its shares add up to its amount, the members' balances add up to zero. |
| Ledger.NearZeroSum | app.py:101 | If, for each row, its shares among the members are within 0.1 of the amount credited to its payer among the members (the split check's tolerance), the balances of distinct members add up to at most 0.1 per row in absolute value. |
| Settlement.Debtors | app.py:114 | The debtors are exactly the balance entries above the tolerance. |
| Settlement.Creditors | app.py:115 | The creditors are exactly the entries whose negated balance is in the table and is above the tolerance, each stored as the positive amount owed. |
| Settlement.DebtorsUnique | app.py:114 | Filtering a table without repeated names gives debtors without repeated names. |
| Settlement.CreditorsUnique | app.py:115 | Filtering a table without repeated names gives creditors without repeated names. |
| Settlement.DebtorsKeepOrder | app.py:114 | Debtors with the same amount appear in their balance-table order. |
| Settlement.CreditorsKeepOrder | app.py:115 | Creditors owed the same amount appear in their balance-table order. |
| Settlement.SortDesc | app.py:114-115 | The sorted list is a permutation of its input. |
| Settlement.SortDescSorted | app.py:114-115 | The sorted list does not increase. |
| Settlement.SortDescStable | app.py:114-115 | For every amount, the entries with that amount keep their input order (the sort is stable). |
| Settlement.SortDescUnique | app.py:114-115 | Sorting does not create repeated names. |
| Settlement.SettleStep | app.py:119-124 | One step pays the smaller of the two current remainders. It keeps both lists accounted for and no remainder negative, and it moves at least one pointer. |
| Settlement.Settle | app.py:117-124 | The loop computes the run of `Greedy`, the settlement loop written as a recursive function. Every transfer is the smaller of what its payer still owed and what its payee was still owed, after the transfers before it. Each debtor's payments plus what is left of their debt equal the debt, and each creditor's receipts plus what is still owed equal the credit. Every remainder stays between 0 and its original amount. Every transfer is at least 0.1 and goes from a debtor to a creditor. On exit one side is wholly below 0.1. There are no transfers exactly when a side is empty, and otherwise fewer transfers than the two lists have entries. With equal debt and credit totals, no remainder exceeds 0.1 per party. |
| Settlement.Completeness | app.py:118-124 | With equal debt and credit totals, once one side is settled below the tolerance, no remainder on either side exceeds the tolerance times the number of parties. |
| Settlement.UnsettledDebtor | app.py:114-124 | Debts of 1.0, 1.0 and 0.15 against credits of 1.075 and 1.075 have equal totals. The run pays 1.0 from the first debtor to the first creditor and 1.0 from the second to the second. It then stops with the third debtor still owing 0.15, above the tolerance, because both creditors are left 0.075, below it. |
| Settlement.Plan | app.py:113-124 | The transfers are the `Greedy` run on the debtors and on the creditors, each sorted by amount, largest first. Each transfer is the smaller of its payer's balance less what the payer already sent, and its payee's negated balance less what the payee already received. On one side everybody ends within 0.1 of settled. Every transfer is at least 0.1 and goes from a debtor to a creditor. No debtor pays more than they owe, and no creditor receives more than they are owed. There are no transfers exactly when there are no debtors or no creditors, and otherwise fewer transfers than parties. With equal debt and credit totals, everyone is settled to within 0.1 per party. |
| Settlement.Suggest | app.py:81-124 | The report lists each member once, in member order, with their balance over the log; reading the report by name gives the member's balance. The transfers are the `Greedy` run on the sorted debtors and creditors of the report. Each transfer is the smaller of its payer's balance less what the payer already sent, and its payee's negated balance less what the payee already received. Every suggested transfer is at least 0.1 and goes from a member owing more than 0.1 to a member owed more than 0.1. Nobody pays more than their balance or receives more than they are owed. There are no transfers exactly when nobody owes more than 0.1 or nobody is owed more than 0.1. On one side everybody ends within 0.1 of settled. With equal debt and credit totals, everybody ends within 0.1 times the number of parties of settled. |

## Left out

- The page itself is not modelled: the form, the widgets, the tables shown, the messages and the reruns. These are presentation.
- Reading and writing the Google Sheets log is not modelled, nor is appending a row to the data frame. The log is a parameter: a sequence of rows.
- Evaluating the stored share text is not modelled. A payload arrives already decoded, and `None` marks one that fails.
- One failure case is not modelled: the payload decodes to something that is not a mapping after the payer was already credited (app.py:92-93). Neither is a share value that is not a number.
- Parsing the typed share amounts into numbers is not modelled (app.py:58). A box arrives already parsed, with `None` for blank. Text that is not a number raises an error there, and that is not modelled.
- Floating-point arithmetic and rounding for display are not modelled (app.py:106, 120). Amounts are exact reals.
- The guard that shows the report only for a non-empty log is not modelled (app.py:81). `Suggest` is defined for every log.
- Keeping the member list across page runs is not modelled (app.py:22-31). Only the parsing rule of line 28 is.
- The share boxes are keyed by member name (app.py:43), so a repeated member name makes the page fail before any split. The split lemmas therefore sum over the member list, and they do not model a repeated name.
- Members.ParseJoinRoundTrip: holds only for names the parser can produce: non-empty, with no whitespace at either end and no comma. Any other name is changed by parsing.
- Settlement.Completeness: the residue bound is stated only for equal debt and credit totals. Members within 0.1 of zero are filtered out, so the two totals need not be equal. The bound is the tolerance times the number of parties, not a tighter one. `Settlement.UnsettledDebtor` shows that the bound cannot be the tolerance itself: a creditor left below 0.1 is passed over, and a later debtor keeps its debt.
- Settlement.Plan: settles everyone only up to the same per-party bound, and only when the debt and credit totals are equal.
- Settlement.Suggest: the same. The bound for both sides is stated only when the debtors' and creditors' totals are equal. Otherwise only one side is promised to be settled.
