# Bill splitting: share distribution and ledger rules

This project models the server core of a small bill-splitting web
application (`app.py`). It has two parts.

**The share distributor** (`distribute_shares`). Given a total, an ordered
list of participant names, a creator and a discount flag, it strips the
names, drops the empty ones and duplicates (first occurrence wins), appends
the creator when absent, splits the total equally or with the creator paying
three quarters of what every other participant pays, rounds each share to the
cent, pushes the whole rounding remainder onto the last share, and marks the
creator's share as paid at the distribution time. Module `Distributor` gives
it as a specification function `Distribute` and as the method
`DistributeShares`, whose deduplication pass `DedupNames` is the loop of the
source, proved equal to it. Module `Text` models `str.strip()`; module `Cents` models rounding to the
cent and sums.

**The ledger** (`Ledger.Store`). The users, bills and bill_shares tables are
fields of a class, and each request handler that changes them is a method:
adding and deleting users, creating a bill, paying a share, deleting a bill,
and the bill listing. Every method keeps the invariant `Tables.Consistent`:
the seeded administrator exists and is the only administrator; bill ids are
positive, ascending and below the next id; every share belongs to an existing
bill; there is one share per (bill, user); the shares of a bill sum to its
amount and include the creator's share, already paid; a share is paid exactly
when it carries a payment time. Each handler's error outcomes are a
`Tables.Error` value: `InvalidInput` for a 400 with its message,
`Unauthorized` for 403 "Not authorized", `Conflict` for "user exists",
`NotFound` for 404 "share not found", `AlreadyPaid` for "already paid".

Money is counted in whole cents (`int`); exact shares before rounding are
`real`, and Python's `round(x, 2)` is round-half-to-even on the exact value.
The test `abs(diff) >= 0.01` on a difference of cent amounts becomes
`diff != 0`. Timestamps are integers (seconds) passed in as parameters; the
due time is `now + 86400`. Bill creation reads the clock twice, as the source
does: `paidNow` inside the distribution stamps the creator's share, and `now`
afterwards stamps the bill.

Where the code differs from the application's own description, the model
follows the code:
- A whitespace-only participant name passes the `if p` test, strips to the
  empty name and is kept (`Distributor.BlankNameKept`).
- The creator is compared unstripped with the stripped names, so a creator
  with surrounding blanks is appended as a separate participant.
- The administrator filter at bill creation tests each name before it is
  stripped, so `" admin"` passes it and the distributor turns it into
  `"admin"` (`Ledger.StripPaddedAdmin`, `Ledger.PaddedAdminPassesFilter`).
- The "no participants" error cannot happen: the creator is always appended,
  even when it is empty (`Distributor.Distribute` never returns an empty list).
- One share per (bill, user) is not a schema constraint; it follows from the
  distributor's distinct names and is kept as part of the invariant.

## Model

| member | source | states |
|---|---|---|
| `Text.Strip` | app.py:179-181 | the stripped name is no longer than the name and has no whitespace at either end |
| `Text.StripTrimmed` | app.py:179-181 | a name without whitespace at either end strips to itself |
| `Text.StripAllSpace` | app.py:179-181 | an all-whitespace name strips to the empty name |
| `Text.StripIsSlice` | app.py:178-182 | the stripped name is a slice of the name with only whitespace around it |
| `Text.StripIdempotent` | app.py:178-182 | stripping a stripped name changes nothing, so comparing stripped names against `seen` is stable |
| `Cents.RoundHalfEven` | app.py:202 | the rounded amount is within half a cent of the exact share, and on a tie it is the even cent |
| `Cents.RoundIsNearest` | app.py:202 | no whole number of cents is nearer to the exact share than its rounding |
| `Cents.RoundingDrift` | app.py:202-203 | rounding n shares moves their sum by at most n half-cents |
| `Distributor.DedupFrom` | app.py:177-182 | deduplication yields distinct names, none of them already seen |
| `Distributor.WithCreator` | app.py:183-184 | appending the creator when absent keeps the names distinct and contains the creator |
| `Distributor.DedupNames` | app.py:177-182 | the pass over the names with its `seen` set yields exactly the participants (`Participants`) |
| `Distributor.DistributeShares` | app.py:174-212 | the procedure, step by step, returns exactly `Distribute` of the inputs |
| `Distributor.ParticipantsAreFirstOccurrences` | app.py:177-182 | the participants are the stripped non-empty names in first-occurrence order |
| `Distributor.ParticipantsMembers` | app.py:177-182 | the participants are distinct, and a name is among them iff some non-empty input strips to it |
| `Distributor.CreatorOnce` | app.py:183-184 | the usernames are distinct, the creator occurs exactly once, at the end when it was absent, otherwise the list is unchanged |
| `Distributor.Distribute` | app.py:174-212 | the result is never empty, so "no participants" is unreachable, and its amounts sum exactly to the total in cents |
| `Distributor.ExactShares` | app.py:190-200 | one exact share per participant; when the creator is among the distinct participants they sum to the total in both split modes |
| `Distributor.DiscountedShares` | app.py:195-197 | with the discount, the creator's 0.75y and the others' y add up to the total when the creator is among the distinct participants |
| `Distributor.EqualShares` | app.py:198-200 | the n equal shares add up to the total |
| `Distributor.ExactSharesUnique` | app.py:190-200 | the shares are the only ones of the required form that sum to the total: others all pay the same y, the creator 0.75y with discount and y without (the derivation at app.py:191-194) |
| `Distributor.Corrected` | app.py:202-205 | the corrected amounts sum exactly to the total and differ from the rounded ones at most in the last entry |
| `Distributor.Amounts` | app.py:202-205 | one cent amount per participant, summing exactly to the total |
| `Distributor.Mark` | app.py:207-211 | the tuples keep the names and amounts in order; a tuple is paid iff it is the creator's, and only a paid tuple carries the time |
| `Distributor.DistributeRounding` | app.py:202-205 | every share but the last is its own rounded exact share; the last is off from its own by at most n half-cents |
| `Distributor.CorrectedDrift` | app.py:202-205 | when exact amounts sum to the total, the corrected rounding keeps all but the last rounded and moves the last by at most n half-cents |
| `Distributor.DistributeMarks` | app.py:207-211 | exactly the creator's share is paid, with the distribution time; every other share is unpaid with no time |
| `Distributor.EqualSplitExample` | app.py:196-211 | 100.00 between two people is 50.00 each, the creator's share paid |
| `Distributor.DiscountSplitExample` | app.py:190-211 | 100.00 with discount between two people is 42.86 for the creator and 57.14 for the other |
| `Distributor.SoloExample` | app.py:183-211 | a creator alone pays the whole total and is marked paid |
| `Distributor.BlankNameKept` | app.py:178-182 | a whitespace-only name is kept as the empty name |
| `Tables.FindShare` | app.py:339-346 | the lookup by (bill_id, username) returns the first matching row, and nothing iff no row matches |
| `Tables.FoundIsOnly` | app.py:339-348 | with one row per key the row found is the only one, and it alone decides "already paid" |
| `Tables.SharesOf` | app.py:241-248 | a bill's listed shares are exactly the rows with its id, each listed once when there is one row per (bill, user) |
| `Tables.BillsSharedWith` | app.py:226-233 | a bill is listed for a user iff it is a bill and the user has a share row in it |
| `Tables.WithoutShares` | app.py:411 | deleting by bill_id removes exactly the rows of that bill |
| `Tables.WithoutBill` | app.py:412 | deleting by id removes exactly that bill |
| `Tables.NewBill` | app.py:300-317 | the inserted bill carries the given id, creator, amount, date, description and discount, is created now and is due one day later |
| `Tables.RowsFor` | app.py:320-324 | one row per distributed tuple, in order, all with the new bill id and the tuple's user, amount and payment state; together they total the sum of the tuples' amounts |
| `Tables.PaidAt` | app.py:352-355 | the one row becomes paid at `now` with its key and amount unchanged, no other row changes and no bill's total changes |
| `Tables.PaidOnlyThatRow` | app.py:339-355 | with one row per key, paying the row found for (bill, user) changes exactly that user's row on that bill |
| `Tables.CreateKeepsConsistent` | app.py:300-327 | inserting a new bill with the distributed shares keeps the table invariant |
| `Tables.PayKeepsConsistent` | app.py:351-355 | marking one share paid at `now` keeps the table invariant |
| `Tables.DeleteBillKeepsConsistent` | app.py:411-412 | deleting a bill and its shares keeps the table invariant |
| `Ledger.Insert` | app.py:229-238 | inserting a bill into a newest-first list keeps it newest first and adds exactly that bill |
| `Ledger.SortByCreatedDesc` | app.py:229-238 | `ORDER BY created_at DESC`: newest first and a permutation of the selected bills |
| `Ledger.Store.constructor` | app.py:49-56 | empty tables and the seeded administrator, satisfying the invariant |
| `Ledger.Store.IsAdminUsername` | app.py:65-71 | the empty name is never an administrator; in a consistent store exactly "admin" is one |
| `Ledger.Store.NonAdmin` | app.py:290 | the participants kept are exactly those that are not administrator names, and a single name is kept iff it is not an administrator's |
| `Ledger.Store.NonAdminAppend` | app.py:290 | the filter goes name by name: filtering a concatenation concatenates the filtered parts, so kept names stay in input order with their repeats |
| `Ledger.Store.Visible` | app.py:224-238 | with no username, the empty name or an administrator every bill is selected; otherwise a bill is selected iff it is in the table and the user has a share in it |
| `Ledger.Store.AddUser` | app.py:106-134 | missing fields, a non-administrator caller and an existing user fail with no change; otherwise exactly the new non-administrator user is added |
| `Ledger.Store.DeleteUser` | app.py:137-159 | deleting "admin" is refused before authorisation; a non-administrator caller changes nothing; otherwise exactly that user is removed and shares stay |
| `Ledger.Store.CreateBill` | app.py:275-327 | no creator fails with no change; otherwise the bill gets the next id, created at `now` and due a day later, and its share rows are the distribution, at the earlier reading `paidNow`, of the non-administrator participants |
| `Ledger.Store.InsertBill` | app.py:305-325 | inserting a bill with the next id and rows with distinct users that sum to its amount and include the creator's paid share keeps the invariant, and adds exactly that bill and those rows |
| `Ledger.Store.PayShare` | app.py:332-359 | no username, no share or an already paid share fail with no change; otherwise exactly that share becomes paid at `now` and nothing else changes |
| `Ledger.Store.MarkPaid` | app.py:349-355 | the update makes the found row paid at `now`, keeps the invariant, and changes no other row and no other table |
| `Ledger.Store.DeleteBill` | app.py:396-416 | a missing field or a non-administrator caller changes nothing; otherwise no bill and no share with that id remain and all others stay |
| `Ledger.Store.ExpandShares` | app.py:240-261 | the `bills_out` loop keeps the selected bills in order, each with exactly its share rows |
| `Ledger.Store.ListBills` | app.py:217-261 | a non-administrator sees exactly the bills they have a share in, an administrator or no username sees all, newest first, each with exactly its share rows |
| `Ledger.CreateDropsAdmins` | app.py:287-292 | "admin" never reaches the distributor through the participant list, and every other name does |
| `Ledger.StripPaddedAdmin` | app.py:178-182 | " admin" is not the administrator's name but strips to it |
| `Ledger.PaddedAdminPassesFilter` | app.py:290 | a name other than "admin" that strips to "admin" passes the administrator filter and reaches the distributor, which makes it "admin" |

## Left out

- HTTP routing, JSON parsing, CORS and status codes: each error outcome is an `Error` value instead of a response.
- SQLite connections, schema creation and transactions: the tables are fields of `Ledger.Store`; the bill insert is atomic in the model.
- Parsing the amount with `float()` and its "invalid amount" error, and the "participants must be a list" type check: inputs are already typed.
- Floating-point amounts and IEEE rounding: money is exact whole cents and the exact shares are reals. On a half-cent tie the two differ: 0.05 split between two gives 0.03 and 0.02 in the program, since the float 0.025 lies slightly above the tie, but 2 and 3 cents in the model. A total with a fraction of a cent (the front end sends any positive number) is outside the model too: the program's shares then add up to the total rounded to the cent, not to the total (0.001 for one participant gives a share of 0.0), so "a bill's shares sum to its amount" in `Tables.Consistent` holds only for whole-cent amounts.
- `datetime.utcnow()`, `timedelta` and ISO formatting: each clock reading is a parameter (`paidNow` and `now` at bill creation, `now` at payment) and times are integers; nothing relates the two readings at bill creation.
- Non-ASCII whitespace: `Text.Strip` removes ASCII whitespace only.
- The surrogate id of a share row: the pay update targets the row found by (bill_id, username), which the invariant makes unique.
- `Ledger.SortByCreatedDesc`: the order of bills created at the same time is whatever SQLite returns; the model fixes one order, and the contract states only descending order and permutation.
- Concurrent requests: serialising them is left to SQLite and not modelled.
- `login`, `list_users`, `get_bill` and the static front end are not part of this model.
