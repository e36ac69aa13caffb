# Oldest-first points spender, modelled in Dafny

This project models the core of `Spend.java`, a small command-line tool that spends
reward points. Each transaction records a payer, a point count (a negative count is a
correction) and a timestamp. The tool loads these from a comma-separated file and
sorts them oldest first. It then draws the requested number of points greedily from the
oldest transactions, and reports for each payer how many points were drawn from it, as
a negative delta.

The model has seven modules, one per file:

- `Wrappers` (`wrappers.dfy`): `Option` and `Result`.
- `Transactions` (`transactions.dfy`): the `Transaction` class.
  - Fields: `payer` and `timestamp` are immutable; `points` is mutable.
  - Members: its constructor, `SetPoints` and `CompareTo`.
  - `Records` is a ghost value view of a list of transactions (one `Record` per object).
  - `Distinct` says that no object occurs twice in a list.
- `Sorting` (`sorting.dfy`): `Collections.sort` on the list.
  - `SortByTime` is the reference stable sort, proved sorted, a permutation and stable.
  - `SortByTimestamp` is an in-place insertion sort on an `array<Transaction>`, proved to produce exactly `SortByTime`.
- `SpendSpec` (`spend_spec.dfy`): the greedy loop as a function of the record values.
  - `Step` is one loop turn. It includes the `break` once nothing remains.
  - `Run` covers the first k records, and `Spend` the whole list.
  - `Applied` gives the records after the pass.
  - Lemmas cover: conservation, the per-record take, the stop point, the keys and values of the delta map, and the bounds and saturation when no points are negative.
- `Spender` (`spender.dfy`): `spendPoints` as an imperative method.
  - It sorts the array in place.
  - It loops with a mutable remaining counter and lowers each visited transaction through `SetPoints`.
  - It builds the map step by step.
  - It is proved against `SortByTime` and `Spend`.
- `Text` and `Loader` (`text.dfy`, `loader.dfy`): the line-to-record part of `readTransactionsFromFile`.
  - `Text` models `String.split(",")` (with Java's removal of trailing empty strings) and `Integer.parseInt` (sign, decimal digits, 32-bit range).
  - `Loader` parses one line, then the whole file. It skips the header, and the first bad line aborts the load.
  - `ReadTransactions` is the imperative loop that appends one fresh `Transaction` per line.
  - Round trips: `ParseInt(Show(n))`, `Split(Join(fields))`, and writing records to lines and loading them back.

Points are mathematical integers. Timestamps are `int`, compared by `<`, and stand for
`LocalDateTime`. The date-time parser is a parameter `parseTime: string -> Option<int>`
of the loader. The file arrives as its sequence of lines.

### Where the code departs from its evident intent

- Line 76 of `Spend.java` reads `Math.min(points, pointsAvail)`, but no `pointsAvail` is declared anywhere, so the file does not compile as written. The model reads it as the running counter `pointsToSpend`, the only variable that makes sense there, and says so in a comment in `Spender.ConsumeOne`.
- Negative points are modelled as the code computes them.
  - `take = min(points, remaining)` is then negative.
  - So the record's points rise to 0, the payer's delta rises, and `remaining` grows.
  - A transaction's points can thus increase, although spending is evidently meant only to lower them.
  - Take a spend of 5000 over `UNILEVER 200`, `DANNON -200`, `MILLER COORS 10000` and `DANNON 1000` (oldest first). The correction is reached before any DANNON grant was drawn from. `SpendSpec.NegativeCorrectionScenario` proves that the code yields `{UNILEVER=-200, DANNON=200, MILLER COORS=-5000}`. Netting the correction against DANNON's only grant, the later 1000, would give `{UNILEVER=-200, MILLER COORS=-4800}`.
  - When a DANNON grant of 300 is drawn before the correction is reached, the code gives the netted answer `{DANNON=-100, UNILEVER=-200, MILLER COORS=-4700}`. `SpendSpec.CorrectionAfterGrantScenario` proves this. Even then, the correction record's own points rise from -200 to 0.
  - `SpendSpec.CorrectionStep` states the general rule: a correction reached while points remain grows both its payer's delta and the amount left to spend by its size.
  - The clean bounds are stated under the precondition that no points are negative.
- A payer would be expected in the map only when points are actually drawn from it. The code puts a payer in the map as soon as one of its records is visited, even when it takes 0 points from it. `SpendSpec.SpendBalances` states the code's rule.
- Only `IOException` is caught by the loader. A line with too few fields, a bad integer or a bad date makes `readTransactionsFromFile` throw. The model returns `Err`, with the 1-based line number and the fault, where the code throws.

## Model

| member | source | states |
|---|---|---|
| Transactions.Transaction.constructor | Spend.java:100-104 | a new transaction holds the given payer, points and timestamp |
| Transactions.Transaction.SetPoints | Spend.java:118-120 | the points become the argument; payer and timestamp are immutable fields |
| Transactions.Transaction.CompareTo | Spend.java:122-125 | negative, zero or positive exactly when this timestamp is earlier than, equal to or later than the other's |
| Transactions.CompareToIsTotalPreorder | Spend.java:122-125 | the ordering is reflexive, total, sign-antisymmetric and transitive, as `Comparable` requires for `Collections.sort` |
| Sorting.SortByTime | Spend.java:60 | the reference stable sort: each element is inserted after every earlier-inserted element whose timestamp is not later; its properties are `SortByTimeSorted`, `SortByTimePermutes`, `SortByTimeIsStable` and `SortByTimeDistinct` |
| Sorting.SortByTimestamp | Spend.java:60 | the list ends up as `SortByTime` of its old contents |
| Sorting.InsertLast | Spend.java:60 | one insertion pass: the prefix up to i becomes the insertion of the old a[i] into the old prefix; the rest is untouched |
| Sorting.SortByTimeSorted | Spend.java:60 | the sorted list is non-decreasing by timestamp |
| Sorting.SortByTimePermutes | Spend.java:60 | the sorted list is a permutation (same multiset) of the input |
| Sorting.SortByTimeIsStable | Spend.java:60 | for every timestamp, the transactions carrying it keep their relative input order |
| Sorting.SortByTimeDistinct | Spend.java:60 | sorting a list without repeated objects gives a list without repeated objects |
| SpendSpec.Step | Spend.java:66-86 | one loop turn: no change once nothing remains, otherwise take = min(points, remaining) is subtracted from remaining and from the payer's entry (default 0); `CorrectionStep` states its effect on a correction record |
| SpendSpec.Run | Spend.java:66-86 | the loop offered the first k records, from remaining = amount and an empty map; its properties are the `Run…` lemmas below |
| SpendSpec.Spend | Spend.java:66-86 | the loop offered the whole sorted list; its properties are `SpendNothing`, `SpendOutcome`, `SpendBalances` and `SpendWithinBounds` |
| SpendSpec.Applied | Spend.java:79 | the records after the pass: each visited record lowered by its take, the rest unchanged |
| SpendSpec.RunConserves | Spend.java:66-86 | after any prefix: the visited records form a prefix, the loop has stopped if that prefix is shorter, taken + remaining = amount, and remaining = amount + sum of deltas (negative points included) |
| SpendSpec.RunTakes | Spend.java:76-79 | each visited record was reached with something still to spend and gave up min(points, what remained) |
| SpendSpec.RunStopped | Spend.java:68-69 | once nothing remains, further records change nothing |
| SpendSpec.RunBalances | Spend.java:82 | a payer is a key exactly when one of its records was visited; its delta is minus what was taken from its records |
| SpendSpec.RunBounds | Spend.java:66-86 | with no negative points and amount >= 0: remaining stays >= 0, each take lies between 0 and the record's points, every delta is <= 0 |
| SpendSpec.RunSaturates | Spend.java:66-86 | with no negative points and amount >= 0: exactly min(amount, total points offered) is taken |
| SpendSpec.SpendNothing | Spend.java:63-69 | a non-positive amount gives an empty map and leaves every record unchanged |
| SpendSpec.SpendOutcome | Spend.java:66-86 | whole-list outcome: payers and timestamps unchanged; each visited record lowered by min(points, remaining before it); records after the stop point unchanged; the loop stops early only when nothing remains |
| SpendSpec.SpendBalances | Spend.java:82 | whole-list map: keys are the visited payers, values minus their takes, the values sum to minus the total taken, remaining = amount + that sum |
| SpendSpec.SpendWithinBounds | Spend.java:66-86 | with no negative points and amount >= 0: nothing goes negative, no record gains points, deltas <= 0, and both the total taken and minus the delta sum equal min(amount, total points) |
| SpendSpec.NegativeCorrectionScenario | Spend.java:76-85 | with a -200 correction record, the code yields DANNON=+200 and MILLER COORS=-5000, not a netted DANNON delta, and the correction record's points rise to 0 |
| SpendSpec.CorrectionAfterGrantScenario | Spend.java:66-86 | with a DANNON grant of 300 drawn before the -200 correction, the code yields DANNON=-100, UNILEVER=-200, MILLER COORS=-4700, and the correction record's points rise to 0 |
| SpendSpec.CorrectionStep | Spend.java:76-85 | a record with negative points reached while points remain: remaining and the payer's delta both grow by its size, its take is its points, and its points become 0 |
| Spender.ConsumeOne | Spend.java:71-85 | one loop turn: the i-th transaction is lowered by min(points, remaining), its payer's delta and remaining follow, and the state equals `Run` over i + 1 records |
| Spender.ConsumeInOrder | Spend.java:63-88 | the returned map is `Spend`'s deltas for the list's records, and the transactions now hold `Applied` of the old records |
| Spender.SpendPoints | Spend.java:57-89 | the list becomes `SortByTime` of the input; the map and the new points are `Spend` and `Applied` over the sorted records |
| Text.Split | Spend.java:34 | `split(",")`: a comma-free line is its one field; otherwise the pieces between commas with trailing empty pieces dropped; its properties are `SplitFields` and `SplitJoin` |
| Text.DropTrailingEmptyKeeps | Spend.java:34 | trailing-empty removal keeps a prefix that is empty or ends in a non-empty piece, and only drops empty pieces |
| Text.SplitFields | Spend.java:34 | no field returned by `split(",")` contains a comma |
| Text.JoinPieces | Spend.java:34 | joining the comma-separated pieces of a line with commas gives the line back |
| Text.PiecesJoin | Spend.java:34 | the pieces of comma-free fields joined with commas are those fields |
| Text.SplitJoin | Spend.java:34 | `split(",")` returns comma-free fields joined by commas, provided the last field is non-empty |
| Text.ParseInt | Spend.java:37 | a parsed value always lies in the 32-bit `int` range |
| Text.ParseShow | Spend.java:37 | every `int` written in decimal parses back to itself |
| Text.ParseIntRejectsNonDigit | Spend.java:37 | any character that is not a decimal digit, other than a leading sign, makes the text refused |
| Text.ParseIntDigits | Spend.java:37 | a non-empty run of digits, leading zeros included, parses to its decimal value when that fits; after '+' the same; after '-' its negation when that fits |
| Text.ParseIntSigns | Spend.java:37 | examples: "", "-" and "+" are refused, "+7" gives 7, "-0" gives 0, and "1 " is refused |
| Text.ParseIntRange | Spend.java:37 | 2147483647 and -2147483648 parse; one step beyond either is refused |
| Loader.ParseLine | Spend.java:34-38 | one data line to a record, or the fault Java would throw, in Java's evaluation order; its properties are `ParseLineFields`, `ParseLineFault` and `LineRoundTrip` |
| Loader.ParseLineFields | Spend.java:34-38 | a line that parses has at least three fields: payer is field 1, points the integer value of field 2, timestamp the parse of field 3 |
| Loader.ParseLineFault | Spend.java:34-38 | a line that fails reports the first missing or unparsable field, in the order the code uses them |
| Loader.Load | Spend.java:29-41 | the whole file: header skipped, then the data lines parsed in order, the first failing one ending the load; its properties are `LoadOk`, `LoadErr` and `LoadRoundTrip` |
| Loader.LoadOk | Spend.java:29-41 | the header is skipped; the load succeeds exactly when every later line parses, and then yields one record per line, in file order |
| Loader.LoadErr | Spend.java:33-41 | a failed load names the first data line that fails and its fault |
| Loader.LineRoundTrip | Spend.java:34-38 | a record written as `payer,points,timestamp` is read back unchanged |
| Loader.LoadRoundTrip | Spend.java:29-41 | a file written from records under any header loads back to those records |
| Loader.CollectTransactions | Spend.java:29-42 | the loop yields fresh, distinct transactions whose values are `Load`'s records, or `Load`'s error |
| Loader.ReadTransactions | Spend.java:23-48 | the loaded list is a new array of fresh, distinct transactions holding `Load`'s records, or `Load`'s error |

## Left out

- File I/O: opening and reading the file, and the `IOException` handler that prints a stack trace and returns what was read so far (`Spend.java:26-33`, `43-45`). The lines are an input sequence.
- `LocalDateTime.parse` with `ISO_DATE_TIME`: it is a library parser, so it is the parameter `parseTime`, and timestamps are integers.
- `Text.ParseInt`: digits are ASCII only. `Integer.parseInt` also accepts other Unicode decimal digits.
- `Transactions.Transaction.CompareTo`: returns -1, 0 or 1; `LocalDateTime.compareTo` may return other values of the same sign. Only the sign is stated, because that is all `Collections.sort` uses.
- `Sorting.SortByTimestamp`: an insertion sort stands in for the library's merge sort. Both are stable sorts under the same order, so the resulting list is the same; the algorithm's internals are not modelled.
- `Spender.SpendPoints`: no 32-bit wrap-around for `pointsToSpend` or the map values; the arithmetic is on mathematical integers.
- `Spender.SpendPoints`: its precondition is that no transaction object occurs twice in the list (aliasing). The loader only ever builds such lists.
- `main` (`Spend.java:132-152`): argument checking, `System.exit`, and printing the map.
