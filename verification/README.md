# Rental workflow of latihan-express, modelled in Dafny

The repository is an Express service for a small book-rental shop. It has
members, books and rentals ("sewa"). The only routes with domain rules are
the rental routes in `routes/sewa.js`:

- **Open a rental** (`POST /sewa`). Both the member and the book must exist,
  and the member may hold at most two rental records.
- **Update a rental** (`PUT /sewa/:id`). Every supplied field overwrites the
  stored one, and the other fields keep their values. The cap and the
  references are not checked again.
- **Close a rental** (`DELETE /sewa/:id`). The record is deleted. Then, if
  the closing time lies more than seven days from the rental's end date
  (counted in days, rounded up, in either direction), the member's `penalty`
  field is set to `'t'`.
- **Read** (`GET /sewa`, `GET /sewa/:id`). Rentals come back with their
  member and book resolved.

The model is sequential and purely functional. A `Store` holds three maps
from abstract ids to `Member`, `Book` and `Rental` records. Each handler is
a function from a store to `Result<Store>`: either `Err(NotFound)` /
`Err(LimitExceeded)`, which leaves the store as it was (`After`), or
`Ok(store')`. Timestamps are integer milliseconds, as JavaScript `Date`
values hold them, so the day arithmetic is integer arithmetic.

Modules:
- `Results` (`results.dfy`): `Option`, `Error`, `Result`.
- `Records` (`records.dfy`): the record shapes of `models/Members.js`,
  `models/Books.js` and `models/Sewa.js`.
- `Store` (`store.dfy`): the store, the per-member rental count behind
  `countDocuments({ memberId })`, and the cap invariant `CapHolds`.
- `Lateness` (`lateness.dfy`): the rounded-up day difference and the
  seven-day threshold.
- `Sewa` (`sewa.dfy`): the route handlers and the lemmas about them.

The comment at routes/sewa.js:199 says the check is for a late return. But
line 202 takes `Math.abs` of the difference between the closing time and the
end date. So closing more than seven days *before* the end date flags the
member too (`Lateness.EarlyClosureIsLate`). The model follows the code.

## Model

| member | source | states |
|---|---|---|
| Store.CountDocuments | routes/sewa.js:90 | the scan the count query performs returns exactly the number of rental records naming the member |
| Store.CountInsert | routes/sewa.js:95-101 | inserting a record under a fresh id raises its own member's count by one and leaves every other member's count unchanged |
| Store.CountRemove | routes/sewa.js:197 | removing a record lowers its own member's count by one and leaves every other member's count unchanged |
| Lateness.CeilDiv | routes/sewa.js:203 | the result is the least whole number of days that covers the millisecond difference (ceiling division) |
| Lateness.DiffDays | routes/sewa.js:202-203 | the day count is the fewest whole days that cover the absolute difference between closing time and end date |
| Lateness.IsLate | routes/sewa.js:202-205 | more than 7 days, rounded up, holds exactly when the absolute difference exceeds 7 × 86 400 000 ms |
| Lateness.EarlyClosureIsLate | routes/sewa.js:202-205 | because the difference is absolute, closing more than seven days before the end date also counts as late |
| Lateness.WithinGraceIsNotLate | routes/sewa.js:202-205 | a closure at most seven whole days from the end date, on either side, is not late |
| Sewa.FindById | routes/sewa.js:83-84 | a lookup finds a record exactly when its id is present, and returns that record |
| Sewa.Get | routes/sewa.js:216-229 | a missing id gives NotFound; otherwise the rental comes back with its dates, and its member and book resolved exactly when they still exist |
| Sewa.List | routes/sewa.js:69-76 | the listing has one entry per rental, and each entry equals what the by-id read returns |
| Sewa.Open | routes/sewa.js:78-102 | NotFound exactly when the member or the book is absent; LimitExceeded exactly when both exist and the member already holds 2 or more rentals; on success exactly one record with the given fields is added, nothing else changes, and the member's count grows by 1 |
| Sewa.HandleOpen | routes/sewa.js:83-101 | the handler's sequence of two lookups, the count query and the insert decides exactly as the open rule |
| Sewa.OpenPreservesCap | routes/sewa.js:90-101 | whatever the outcome, if every member holds at most 2 rentals before an open, every member does after it, and no other member's count changes |
| Sewa.OpenedRentalResolves | routes/sewa.js:83-101 | a freshly opened rental, read back by id, resolves to the validated member and book and carries the given dates |
| Sewa.Patched | routes/sewa.js:175-186 | each supplied field of the request replaces the stored value, and each absent field keeps the stored value |
| Sewa.Update | routes/sewa.js:172-189 | a missing id gives NotFound; otherwise each supplied field is overwritten, each absent field keeps its value, and every other rental, member and book is unchanged |
| Sewa.UpdateWithNothingIsIdentity | routes/sewa.js:175-186 | an update supplying no field leaves the store unchanged |
| Sewa.UpdateIdempotent | routes/sewa.js:175-188 | applying the same update twice gives the same store as applying it once |
| Sewa.UpdateCanBreakCap | routes/sewa.js:172-188 | update does not re-check the cap: from a store within the cap, moving a rental to a member already holding 2 leaves that member with 3 |
| Sewa.Penalize | routes/sewa.js:205-207 | the penalty update sets the named member's penalty to 't' and changes no other field and no other member; an id with no member changes nothing |
| Sewa.Close | routes/sewa.js:195-210 | a missing id gives NotFound; otherwise exactly that rental is removed, books are unchanged, no member other than the rental's own changes, a member not already flagged becomes flagged exactly when the absolute difference exceeds 7 days, and within 7 days no member changes |
| Sewa.CloseTwiceFails | routes/sewa.js:216-222 | after a successful close, closing the same id again fails with NotFound and changes nothing, so no penalty is applied twice |
| Sewa.ClosePenaltyIsMonotone | routes/sewa.js:205-208 | closing never resets a penalty: a flagged member stays flagged, and every member's penalty either stays or becomes 't' |
| Sewa.ClosePreservesCap | routes/sewa.js:197 | closing a rental keeps every member within the cap |
| Sewa.CloseNineDaysLateFlags | routes/sewa.js:200-208 | a rental ending 2023-06-01 and closed 2023-06-10 flags its member |
| Sewa.CloseFourDaysLateKeepsMembers | routes/sewa.js:200-208 | a rental ending 2023-06-01 and closed 2023-06-05 leaves every member as it was |

## Left out

- HTTP routing, status codes and JSON bodies. They become the `Result`
  datatype: `NotFound` is the 404 answer and `LimitExceeded` the 400 answer.
- Document-store failures and validation or cast errors, which become 500 or
  400 answers (routes/sewa.js:103-105, 190-192, 211-213, 223-225). They are
  opaque foreign errors.
- Id generation. The store assigns a fresh id to a new record, so `Open`
  takes that id as `newId` and requires it to be unused.
- Request bodies without a member or book id. `findById` on an absent id
  finds nothing, which is the same NotFound as an unknown id.
- "Now" is an input to `Close`, not `new Date()`.
- Float arithmetic in `Math.ceil(diffTime / 86400000)` is modelled as exact
  integer ceiling division. For non-negative millisecond differences of
  realistic size, a multiple of a day divides exactly and any other quotient
  stays far from an integer, so the rounded-up day count agrees.
- The race between the count query and the insert when two open requests
  arrive at once (routes/sewa.js:90-101). The model is sequential.
- Resolution of references on update and close. A populated reference whose
  record is gone becomes `null`. The penalty update by a `null` id then
  matches no member, so the model changes no member when the rental's member
  id is not in the store.
- The order of the listing. The source returns an array in the store's
  iteration order and sorts nothing; `Sewa.List` returns a map keyed by id.
- Book stock. The rental workflow never reads or changes it.
- The member, book and task routes and the server startup. They are plain
  create/read/update/delete over the document store, with no rules.
