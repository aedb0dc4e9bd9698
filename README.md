# Classroom badge store: a Dafny model of the server's core

The server keeps a classroom reward ledger in a spreadsheet. It has three
sheets: students (`Sheet1`), badges (`Badges`) and an append-only purchase
log (`Purchases`). It also keeps an in-memory map of password-reset codes.
This project models the logic of `server.js` that sits between the HTTP
handlers and the spreadsheet:

- the level step function (`calculateLevel`);
- the login: the credential lookup in the student sheet and the badge
  holdings folded from the purchase log;
- the badge catalogue listing;
- the purchase: validation, the coin and stock checks, the batch write of
  the two cells, and the log append;
- the reset-code store: issue, check and consume, and the two reset
  handlers built from them;
- the password policy `/^[A-Z0-9]{4}$/`.

Each sheet is a `Table`, a sequence of rows of cell texts. Row 0 is the
header. An empty table stands for a read that returned no values. The
JavaScript readings of a cell are written out: `row[i] === s` is `CellIs`,
`row[i] || d` is `CellOr`, and `parseInt(row[i]) || 0` is `IntCell`. In
the holdings fold, `Login.ItemKey` is the property name `row[2]`, so a row
without column C is counted under the key `"undefined"` (server.js:95), and
`Login.Credit` is `acc[name] = (acc[name] || 0) + qty` (server.js:97). The
purchase total `quantityToBuy * itemCost` (server.js:154) is
`PurchaseRules.TotalCost`. The
integer parse covers an optional sign followed by the longest run of decimal
digits; text without digits reads as 0. A number written to a cell reads
back as its decimal text (`IntToString`). Text written with the
`USER_ENTERED` input option is parsed by the sheet as if typed into it. The
model covers the one reinterpretation the handlers run into
(`UserEntered`): a run of digits is stored as a number and shown without
its leading zeros. The purchase log append (server.js:196) and the password
write (server.js:306) use that option. The coin and stock writes use `RAW`
(server.js:189) and write numbers. A single-cell write (`SetCell`)
grows the sheet when the row or column is beyond its data, and a read of a
row beyond the data reads as empty. Both hold only inside the sheet's grid:
the store refuses a range past the grid's last row, and the model covers
that refusal by the failed-call flags (`readsOk`, `batchOk`, `readOk`,
`writeOk`).

Module layout:

- `SheetData` (sheet_data.dfy): rows, cells, parsing, `SetCell`, and the
  header-skipping `findIndex`.
- `Level` (level.dfy): `CalculateLevel`.
- `Login` (login.dfy): the lookup, the holdings fold, and `Authenticate`.
- `Badges` (badges.dfy): the catalogue listing.
- `Password` (password.dfy): the password policy.
- `PurchaseRules` (purchase.dfy): the pure purchase decision and lemmas
  about the sheets after a purchase.
- `Server` (server.dfy): the class `Backend`. It holds the three sheets and
  `resetCodes` as fields, and its methods change them step by step, as the
  handlers do.

Store calls, the mail transport and the clock are not modelled. Each store
call and each mail send becomes a boolean parameter that says whether the
call succeeded. The purchase timestamp is an opaque string parameter. The
random reset code is any integer from 100000 to 999999, chosen
nondeterministically.

Three properties of the code as written are worth knowing:

- The purchase debits the coin cell of whatever row number the request
  carries, and nothing checks that this row belongs to `studentId`.
  `PurchaseRules.LoginCoinsAreCheckedCoins` shows that a request carrying
  the `rowIndex` a login returned does debit that student's row.
- The purchase charges the request's own `itemCost` (server.js:154). The
  cost in column C of the badge sheet is read (server.js:158, 162) but never
  used, so a client that sends `itemCost: 0` gets any badge for free. The
  corrected decision `PurchaseRules.DecideChecked` rejects negative costs
  but still accepts a cost of 0, so it does not close this gap.
- After a failed call, the sheets keep every write made so far. If the
  append fails, coins and stock are already written and the log has no
  row. If the mail fails, every write is done. Every failure answers with
  the same 500 response. The model tells these cases apart
  (`AppendFailed`, `MailFailed`) so that its contracts can say what was
  written.

## Model

| member | source | states |
|---|---|---|
| `SheetData.ParseIntToString` | server.js:179-187 | A number written to a cell (coins, stock, logged quantity) reads back under `parseInt(x) \|\| 0` as exactly that number. |
| `SheetData.NatToStringLength` | server.js:254 | A number from 10^(k-1) to 10^k - 1 prints as k digits, the first of them not 0. |
| `SheetData.ParseInt` | server.js:165 | `parseInt` on cell text, as at lines 82, 96, 135-136, 165 and 174: an optional sign, then the longest digit run. No digit after the sign gives NaN (None), in both directions. A result after a `-` is never positive, and otherwise never negative. |
| `SheetData.ParseOr0` | server.js:174 | `parseInt(x) \|\| 0`: text without digits after the sign reads as 0, and otherwise the reading is the parse. |
| `SheetData.DigitsParse` | server.js:165 | `parseInt` of a run of digits is the number the digits denote. |
| `SheetData.StripZeros` | server.js:306 | Stripping leading zeros leaves a non-empty digit run that starts with a non-zero digit unless it is a single digit, and changes the text exactly when it had a leading zero and more than one digit. |
| `SheetData.UserEntered` | server.js:306 | What a later read shows for text written with USER_ENTERED (here and at line 196) is never longer than the text written. |
| `SheetData.UserEnteredChanges` | server.js:306 | USER_ENTERED changes a text exactly when the text is two or more digits starting with 0, and then shortens it. |
| `SheetData.LeadingZeroValue` | server.js:306 | A leading zero does not change the value of a digit string. |
| `SheetData.UserEnteredKeepsNumber` | server.js:306 | For a digit string, the number USER_ENTERED stores parses to the same value as the text written: only the shown text changes. |
| `SheetData.SetCell` | server.js:182-191 | A single-cell write changes the text of that cell only. Every other row stays identical, and the sheet grows to reach the row. |
| `SheetData.CellIsAfterSetCell` | server.js:186-187 | After a write, a comparison `row[j] === s` with a non-empty s has its old answer everywhere except in the written cell. |
| `SheetData.FindAfterHeader` | server.js:71 | `findIndex` with `i > 0`: the found row is after the header and satisfies the test, no earlier row after the header does, and no match means no row after the header satisfies it. |
| `SheetData.FindAfterHeaderAgree` | server.js:71 | Two sheets that agree on the test at every row index give the same search result. |
| `Level.CalculateLevel` | server.js:43-50 | The level is always between 0 and 5. |
| `Level.LevelIsThresholdsReached` | server.js:43-50 | The level equals the number of thresholds in 10, 25, 50, 75, 100 that the points reach. So it is 5 from 100 points, 4 from 75 to 99, 3 from 50 to 74, 2 from 25 to 49, 1 from 10 to 24, and 0 below 10. |
| `Level.ReachedMonotonic` | server.js:43-50 | More points never reach fewer thresholds. |
| `Level.LevelMonotonic` | server.js:43-50 | The level never decreases as points increase. |
| `Login.FindStudent` | server.js:71 | The found row is after the header and carries both the id in column A and the password in column E, and no earlier row after the header does. No row found means no row after the header carries both. |
| `Login.OwnRows` | server.js:91 | The `filter` keeps only rows whose column B is the student id, and never more rows than the log has. |
| `Login.OwnRowsMembers` | server.js:91 | Every row the filter keeps comes from the log, and every row of the log whose column B is the student id is kept. |
| `Login.Fold` | server.js:94-99 | The `reduce` never drops a name already in the accumulator, and every row it folds leaves its badge name in the result. |
| `Login.Holdings` | server.js:90-92 | A purchase log that is empty or holds only its header gives an empty holdings map. |
| `Login.FoldOwnRows` | server.js:91-99 | Folding a student's filtered rows into an accumulator adds, per badge name, the sum of that student's quantities. A name ends up present exactly when it was in the accumulator or one of the student's rows names it. |
| `Login.HoldingsAreTotals` | server.js:90-99 | Each badge name maps to the sum of parsed quantities over the log rows after the header whose column B is the student id. A name is present exactly when such a row names it. Other students' rows contribute nothing. |
| `Login.OwnRowsAppend` | server.js:91 | Filtering a log with one more row gives the old filtered rows, plus the new row if it belongs to the student. |
| `Login.FoldAppend` | server.js:94-99 | Reducing over one more row credits that row's quantity to its badge name. |
| `Login.HoldingsAfterAppend` | server.js:90-99 | Appending a row to a log that has its header credits the row's quantity to its badge for the buyer and leaves every other student's holdings unchanged. A row appended to an empty log becomes the header and credits nothing. |
| `Login.ViewOf` | server.js:76-114 | The `student` object: the id given, `rowIndex` the 0-based row plus 1, the holdings, the level of the parsed points (at most 5). Name, homework, attendance, coins and badge count are never empty. The name is column B or `N/A`, and coins are column G or `0`. |
| `Login.Authenticate` | server.js:58-115 | A missing id or password is refused first. A student sheet with no rows gives NoStudents. No row after the header with both `row[0] === id` and `row[4] === password` gives InvalidCredentials. A failed student read, or a failed log read after a match, gives ReadFailed. Otherwise the login succeeds. Each of these holds in both directions. On success, `rowIndex` is the 0-based index of the first matching row plus 1, never the header's, and the view carries that row's fields with their defaults, the level of its points, and the holdings. |
| `Badges.BadgeOf` | server.js:133-137 | The name is the text in column A, or `N/A` when that cell is missing or empty. Quantity and cost are the numbers `parseInt` reads from columns B and C, and 0 when a cell does not parse. |
| `Badges.MapBadges` | server.js:133-137 | The `map` gives one badge per row, in the same order. |
| `Badges.ListBadges` | server.js:129-139 | A failed read gives ReadFailed. Fewer than two rows gives NoBadges. Otherwise the listing has one entry per row after the header, in sheet order. |
| `Badges.ListingAfterStockWrite` | server.js:133-137 | After a new stock number is written into column B of a badge row, the listing differs only in that badge's quantity, which is the number written. |
| `Password.MatchesRepeat` | server.js:284 | Matching `[A-Z0-9]{n}` anchored at both ends accepts exactly the strings of length n made of upper-case letters and digits. |
| `Password.ValidPassword` | server.js:284 | An accepted password is never empty, so the `!password` test in the same guard passes. |
| `PurchaseRules.WellFormed` | server.js:150 | The definition: the id and the item name are non-empty, the row number is not 0, and the quantity and the cost are numbers. |
| `PurchaseRules.CoinsAt` | server.js:157-165 | `parseInt` of cell G at the 1-based row the request names, or 0. A row beyond the sheet reads as 0. |
| `PurchaseRules.FindBadge` | server.js:171 | The found badge row is after the header and names the item in column A, and no earlier row after the header does. No row found means no row after the header names it. |
| `PurchaseRules.Decide` | server.js:149-180 | The checks run in the handler's order. An invalid request gives InvalidData. A failed read or a negative coin row gives ReadFailed. Coins below `quantity*cost` give InsufficientCoins. A badge not found gives BadgeNotFound, and an empty badge sheet fails the read. Stock below the quantity gives InsufficientStock with the stock read. Each case holds in both directions. The purchase is accepted exactly when the request is well formed, both reads succeed, the coins cover the total, the badge is found and its stock covers the quantity. When accepted, newCoins is coins minus `quantity*cost` and newQty is stock minus quantity, both at least 0. The coin row is the 0-based row `studentRowIndex - 1`. The badge row is the first row after the header named so. |
| `PurchaseRules.PurchaseRow` | server.js:193-205 | The appended log row reads back as the quantity bought. It names the badge as USER_ENTERED shows the name. It belongs to the buyer exactly when the sheet keeps the buyer's id as text. |
| `PurchaseRules.CoinsReadBack` | server.js:157-186 | The coin number written at `Sheet1!G<row>` is what a later read of that cell parses to. |
| `PurchaseRules.LoginCoinsAreCheckedCoins` | server.js:157-165 | With the `rowIndex` a login returned, the purchase checks the coins the login showed, and an accepted purchase debits the logged-in student's own row. |
| `PurchaseRules.CoinWriteKeepsLookup` | server.js:186 | A write to column G leaves every login lookup unchanged. |
| `PurchaseRules.LoginAfterPurchase` | server.js:182-205 | For a buyer id the sheet keeps as text and a log that already has its header row: after the coin write and the log append, logging in again gives the same view, except that the coins show the new balance and the bought quantity is credited to the badge name as the log shows it. |
| `PurchaseRules.LeadingZeroIdNotCredited` | server.js:193-202 | A buyer id of digits with a leading zero is logged as a number, and the filter at line 91 then misses it, so the purchase never reaches that student's holdings. |
| `PurchaseRules.NegativeQuantityCredits` | server.js:150-180 | As written, a negative quantity with a positive cost passes every check and raises both the coins and the stock. |
| `PurchaseRules.DecideChecked` | server.js:150-180 | With the intended positive-quantity guard, a request is refused as InvalidData exactly when it fails the handler's guard or has a quantity of 0 or less or a negative cost. An accepted purchase never raises the coins and always lowers the stock. Every request the guard lets through is decided as the handler decides it. |
| `PurchaseRules.PurchaseRowAsText` | server.js:193-205 | The log row appended as text belongs to the buyer, names the badge as given and reads back as the quantity bought. |
| `PurchaseRules.TextAppendCredits` | server.js:193-205 | With the row appended as text to a log that already has its header row, the purchase credits its quantity to the badge's own name in the buyer's holdings, for every id. On an empty log the row becomes the header and credits nothing (`Login.HoldingsAfterAppend`). |
| `Server.IssuedCodeIsResetCode` | server.js:254 | Each code that can be drawn is a six-digit string whose first digit is not 0. |
| `Server.ResetRequestValid` | server.js:284 | An accepted reset request carries a password of exactly four upper-case letters or digits. |
| `Server.FindId` | server.js:297 | The found row is after the header and carries the id in column A, and no earlier row after the header does. No row found means no row after the header carries it. |
| `Server.LoginAfterReset` | server.js:297-308 | If the cell keeps the password text verbatim, then after the password is written into column E of the row the reset found, logging in with the id and that password succeeds and finds that same row. |
| `Server.ResetLocksOutLeadingZero` | server.js:303-308 | As written, a policy password of digits with a leading zero (such as `0042`) is shown shortened after the USER_ENTERED write. Logging in with it then gives InvalidCredentials when no other row carries the id and that password. |
| `Server.ResetCheck` | server.js:284-300 | The checks before the write, in the handler's order. A request failing the guard gives InvalidData. A missing or different stored code gives WrongCode. A failed read or empty sheet gives ReadFailed. No row with the id gives IdNotFound. Otherwise the result is the first row after the header with the id. Each of these holds in both directions. |
| `Server.Backend.constructor` | server.js:40 | The reset-code map starts empty. |
| `Server.Backend.Commit` | server.js:182-244 | Writes happen in order: the batch write, the log append of the given row, then the mail. A failed batch changes nothing. A failed append leaves both cells written and the log unchanged. A failed mail leaves every write done. Reset codes are never touched. |
| `Server.Backend.Purchase` | server.js:146-245 | A refused purchase leaves every sheet and the codes unchanged. An accepted one writes only the coin cell G of the named row and the stock cell B of the matched badge row, both as Decide computed them, and appends exactly one row: the row as the sheet shows it after the USER_ENTERED append (`PurchaseRow`). |
| `Server.Backend.PurchaseChecked` | server.js:150-205 | The purchase decided by DecideChecked, with the log row appended as text (`PurchaseRowAsText`). A successful one never leaves the buyer with more coins than before, and, when the log already had its header row, credits the quantity to the badge in the buyer's holdings. |
| `Server.Backend.IssueCode` | server.js:255 | Stores the code for the id, overwriting any earlier one, and leaves the other ids' codes unchanged. |
| `Server.Backend.CodeMatches` | server.js:289 | True exactly when a code is stored for the id and it equals the given one. |
| `Server.Backend.ConsumeCode` | server.js:310 | Removes the id's code and nothing else. |
| `Server.Backend.SendResetCode` | server.js:249-278 | A missing id is refused and nothing is stored. Otherwise some code from 100000 to 999999 is stored for the id, replacing any earlier one, the other ids keep theirs, and a failed mail still leaves the code stored. |
| `Server.Backend.Reset` | server.js:280-317 | The handler's steps for a given shown password text. Every refusal of ResetCheck, and a failed write, changes nothing and keeps the code. Otherwise it writes the shown text into column E of the row ResetCheck found, and deletes that id's code. |
| `Server.Backend.ResetPassword` | server.js:280-317 | As written, with the USER_ENTERED write: the refusals and the state after each are those of ResetCheck, and a failed write changes nothing. Success writes the shown form of the password into column E of the first row after the header for the id, and deletes the code. After a success, a login with a password the sheet keeps as text finds that row. |
| `Server.Backend.ResetPasswordAsText` | server.js:280-317 | The reset with the password written as text: the same refusals and state, and after every success a login with the new password finds the row the reset wrote. |
| `Server.Backend.CodeIsSingleUse` | server.js:289-310 | After a reset succeeds, a second reset with the same code is refused as a wrong code. |

## Left out

- HTTP plumbing is not modelled: the Express setup, CORS headers, static
  files, `app.listen`, and request parsing (lines 8-17, 52, 320-322).
- The Google client set-up and `process.exit` are not modelled (lines
  21-39). The `if (!sheets)` guard (lines 55, 123, 147) is not modelled
  either. An uninitialised client behaves in the model like any failing
  store call, except that the guard answers before the request is
  validated.
- Mail sending is a foreign call, so it is modelled only as a flag. The
  receipt and code mail contents (lines 207-233, 257-272) are not modelled.
- `Math.random` floating point (line 254) is replaced by a nondeterministic
  integer from 100000 to 999999.
- `new Date().toLocaleString()` (line 199) depends on the clock and locale,
  so it is an opaque string parameter.
- Concurrency is not modelled: the two parallel reads of `Promise.all`
  share one success flag, and races between requests are left out.
- `SheetData.UserEntered` models only one reinterpretation: digit runs stored as numbers. The sheet also reinterprets other text, such as exponent forms like `1E05`, dates, times, booleans and formulas. The model keeps those unchanged. So for such a password or id, `Server.Backend.ResetPassword`'s login clause and `PurchaseRules.LoginAfterPurchase` say more than the sheet guarantees.
- `parseInt` is modelled only for an optional sign and decimal digits. The
  model leaves out leading whitespace, the `0x` prefix, and precision loss
  beyond 2^53. It also leaves out how the sheet formats numbers when they
  are read, such as thousands separators.
- The purchase arithmetic (server.js:154, 179-180) is JavaScript double
  arithmetic. It loses precision beyond 2^53 and can overflow to plus or
  minus Infinity. The model computes on unbounded integers.
- `SheetData.UserEntered` keeps every digit of a digit run. The sheet keeps
  only 15 significant digits of a number, so a longer digit-run id or item
  name written by the append (server.js:196) also loses digits. The model
  does not capture that.
- JavaScript typing of request fields is simplified. Ids, codes, item names
  and passwords are strings. The row number is an integer, so a row number
  sent as text is not modelled. `quantityToBuy` and `itemCost` are integers
  or "not a number". Fractional quantities and costs are not modelled.
- Object-property quirks of `resetCodes` and of the holdings accumulator
  (`__proto__`, `constructor` and other inherited names) are not modelled.
  Both are plain maps from strings.
- A negative row number makes the coin range `Sheet1!G-<n>` malformed. The
  model assumes the store refuses such a range, which gives ReadFailed.
- Error message texts and `console.log`/`console.error` are not modelled.
- `server.js` has no reset-code expiry, no locks, no leaderboard, no
  experience crediting, no level-up flag and no registration, so the model
  has none either. A mail failure after a purchase, and a purchase whose
  writes stopped part way, both answer 500, as every other failure does.

## Findings

| source | as written | input that shows it | evidently intended | confidence | as-written member | corrected member |
|---|---|---|---|---|---|---|
| server.js:303-308 | The new password is written with `valueInputOption: 'USER_ENTERED'`, and the login compares `row[4] === password` with the text a read shows (server.js:71). A policy password of digits with a leading zero is stored as a number and shown without the zero. | Reset with password `0042`. The cell then shows `42`, and logging in with `0042` gives 401 Invalid credentials. | Write the password as text (`RAW`), so that the new password logs in. | not executed; rests on the sheet's documented parsing of user-entered text | `Server.ResetLocksOutLeadingZero` | `Server.Backend.ResetPasswordAsText` |
| server.js:193-205 | The log row is appended with `valueInputOption: 'USER_ENTERED'`, and the login credits only rows whose column B shows `=== studentId` (server.js:91). A buyer id of digits with a leading zero is stored as a number and shown without the zero. | A student with id `007` buys a badge. Coins and stock are written, the log shows buyer `7`, and the next login shows no such purchase. | Append the row as text (`RAW`), so that every purchase is credited to its buyer. | not executed; rests on the sheet's documented parsing of user-entered text | `PurchaseRules.LeadingZeroIdNotCredited` | `PurchaseRules.TextAppendCredits` (used by `Server.Backend.PurchaseChecked`) |
| server.js:150-180 | `quantityToBuy` only has to be a number. A negative quantity makes `totalCost` negative, so both `currentCoins < totalCost` and `currentQty < quantityToBuy` are false. | `quantityToBuy = -1` and `itemCost = 10`, for a student with 0 coins and a badge with stock 0. The handler writes 10 coins and stock 1, and logs -1. | Reject a quantity that is not positive, and a negative cost, as invalid data. | not executed | `PurchaseRules.NegativeQuantityCredits` | `PurchaseRules.DecideChecked` (used by `Server.Backend.PurchaseChecked`) |
