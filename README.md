# Hotel bed occupancy ledger

A Dafny model of the occupancy core of a hotel bed-management back end: the
two transactional HTTP handlers that keep a bed's `status` column in step with
the customer ("stay") rows that reference the bed.

- **CreateCustomer** (check-in) locks the bed row, refuses a missing bed and a
  bed whose status is anything but `"available"`, inserts a customer row for
  that bed, marks the bed `"occupied"` and commits.
- **CheckoutCustomer** (check-out) locks the customer row if its `check_out`
  is NULL, stamps `check_out` with the database's current time, marks that
  customer's own bed `"available"` and commits.

Each handler runs in one transaction with row locks and a deferred rollback,
so each is modelled as one atomic step that commits all of its writes or none.

Files:

- `models.dfy` (module `Models`): the customer row `Stay`, the check-in
  request, and the row the check-in INSERT writes (`NewStay`).
- `occupancy.dfy` (module `Occupancy`): the ledger as a value (`Store`: bed
  id to status, customer id to row, next customer id), the injected store
  fault (`Fault`: the transaction does not start, the locking SELECT fails,
  the first or second write fails, the commit fails), the handler outcome
  (`Outcome`), one step of each handler (`OpenStep`, `CloseStep`) and the
  per-call properties.
- `invariants.dfy` (module `Invariants`): the "no bed is double-booked"
  invariant (`Sound`) and the bed-status rule (`Consistent`: a bed is occupied
  iff exactly one active stay holds it), their preservation one step at a
  time and over any sequence of requests, mutual exclusion of check-ins on
  one bed, double check-out, and the finding below.
- `hotel.dfy` (module `Hotel`): the class `Ledger` whose `beds`, `stays` and
  `nextId` fields the handler methods update in place. Each method works on a
  transaction-local copy and writes the fields only on commit. Its `ensures`
  equal the new state and the outcome to `OpenStep`/`CloseStep` of the old
  state.

Points where the model keeps the code's behaviour rather than a cleaner
reading of it:

- A check-in stores the request's check-out time, which is never NULL, even
  though the check-out handler (internal/handlers/hotel.go:202) and the beds
  listing (internal/handlers/hotel.go:51) only treat rows whose `check_out IS
  NULL` as current stays. See Findings.
- "Bed not found" and "bed not available" are both reported as 400, and any
  failure of the locking SELECT, not only a missing row, is reported as "not
  found": a `LockQueryFails` fault yields `BedNotFound` or `StayNotFound`.
- A customer row's `bed_id` is nullable. Scanning a NULL into the handler's
  `int` fails, so the check-out handler reports such a customer as not found.

## Model

| member | source | states |
|---|---|---|
| Models.NewStay | internal/handlers/hotel.go:158-165 | the row the check-in INSERT writes copies name, mobile number, check-in time, amount and payment mode from the request, references the requested bed, and carries the request's check-out time, so it is never an active stay |
| Occupancy.OpenStep | internal/handlers/hotel.go:136-183 | one check-in transaction: Begin failure gives Internal; a failing or empty locking SELECT gives BedNotFound; a locked bed that is not "available" gives BedNotAvailable; a failing insert, status update or commit on an available bed gives Internal; each of these leaves the ledger unchanged; otherwise the commit stores the row under the next id, occupies that bed, advances the id and returns Created with that id |
| Occupancy.CloseStep | internal/handlers/hotel.go:193-227 | one check-out transaction: Begin failure gives Internal; a failing locking SELECT, a customer that is absent, already checked out or has a NULL bed gives StayNotFound; a failing check-out update, bed update or commit on an active stay with a bed gives Internal; each of these leaves the ledger unchanged; otherwise the commit stamps the stay's check-out with `now`, frees its bed and keeps the next id |
| Occupancy.UpdateStatus | internal/handlers/hotel.go:216 | `UPDATE beds SET status ... WHERE id` keeps the set of beds, sets that bed's status when the row exists, changes no other bed, and is a no-op when no row matches |
| Occupancy.OpenUnknownBed | internal/handlers/hotel.go:141-149 | check-in on a bed id that is not in the ledger reports BedNotFound (Internal if the transaction never started) and writes nothing |
| Occupancy.OpenBusyBed | internal/handlers/hotel.go:151-154 | check-in on a bed whose status is any string other than "available" never succeeds, reports BedNotAvailable once the lock is held, and writes nothing |
| Occupancy.OpenFaultRollsBack | internal/handlers/hotel.go:136-181 | any store failure makes check-in fail with no write persisting; a failed Begin is reported as Internal, a failed locking SELECT as BedNotFound, and a failure of the insert, the status update or the commit on an available bed as Internal |
| Occupancy.OpenCommits | internal/handlers/hotel.go:157-183 | check-in succeeds iff the store does not fail and the bed exists and is available; it then adds exactly one row under an id not used before, occupies exactly that bed, leaves all other beds and rows as they were, and returns the id |
| Occupancy.OpenStoresRequest | internal/handlers/hotel.go:158-165 | the stored row copies every request field, check-out time included, and references the requested bed |
| Occupancy.CloseNotFound | internal/handlers/hotel.go:198-206 | check-out of an absent customer, an already checked-out one, or one with a NULL bed reports not found (Internal if the transaction never started) and writes nothing |
| Occupancy.CloseFaultRollsBack | internal/handlers/hotel.go:193-225 | any store failure makes check-out fail with no write persisting; a failed Begin is reported as Internal, a failed locking SELECT as not found, and a failure of either update or the commit on an active stay with a bed as Internal |
| Occupancy.CloseCommits | internal/handlers/hotel.go:208-227 | check-out succeeds iff the store does not fail and the customer is active with a bed; it then sets that customer's check-out to the given time, frees the customer's own bed if the bed row exists, and changes no other row or bed |
| Invariants.ConsistentCounts | internal/handlers/hotel.go:46-53 | under the bed-status rule a bed is occupied iff exactly one active stay holds it and available iff none does |
| Invariants.OpenKeepsSound | internal/handlers/hotel.go:143-176 | a check-in keeps every bed single-booked (each active stay holds an existing occupied bed, no two share a bed) and keeps ids fresh |
| Invariants.OpenActiveKeepsConsistent | internal/handlers/hotel.go:156-176 | a check-in that stores the stay as active keeps the bed-status rule |
| Invariants.CloseKeepsSound | internal/handlers/hotel.go:200-220 | a check-out keeps every bed single-booked |
| Invariants.CloseKeepsConsistent | internal/handlers/hotel.go:200-220 | a check-out keeps the bed-status rule: the bed it frees loses its only active stay |
| Invariants.RunKeepsSound | internal/handlers/hotel.go:129-228 | any sequence of check-ins and check-outs, with any store faults, keeps every bed single-booked |
| Invariants.RunKeepsConsistent | internal/handlers/hotel.go:129-228 | with check-ins that store the stay as active, any sequence of requests keeps the bed-status rule |
| Invariants.CheckInsOnTakenBedFail | internal/handlers/hotel.go:145-154 | once a bed is not available, every later check-in on it fails and leaves the ledger unchanged, and each one whose locking SELECT runs is refused with BedNotAvailable |
| Invariants.CheckInsOnOneBedSucceedOnce | internal/handlers/hotel.go:143-154 | of any number of check-ins on one bed applied one after another, at most one succeeds |
| Invariants.ExactlyOneSucceeds | internal/handlers/hotel.go:143-176 | of fault-free check-ins on one available bed, the first succeeds, every later one is refused with BedNotAvailable, and the bed ends occupied |
| Invariants.CloseTwice | internal/handlers/hotel.go:200-209 | after a successful check-out, a second check-out of the same customer reports not found (or Internal) and changes nothing, so the bed is never released twice |
| Invariants.WrittenOpenOrphansBed | internal/handlers/hotel.go:158-172 | as written, a successful check-in from a state that kept the bed-status rule leaves the bed occupied with no active stay, breaking the rule |
| Invariants.WrittenOpenThenCloseFails | internal/handlers/hotel.go:158-165 | as written, the customer a check-in just created can never be checked out: the check-out fails and changes nothing |
| Invariants.OpenActiveThenCloseSucceeds | internal/handlers/hotel.go:202-216 | when the stay is stored as active, the customer just created can be checked out and the bed becomes available again |
| Invariants.WalkthroughIntended | internal/handlers/hotel.go:129-228 | bed 5 free: Alice gets id 1, Bob is refused, Alice's check-out frees bed 5, a second check-out is not found |
| Invariants.WalkthroughAsWritten | internal/handlers/hotel.go:129-228 | the same requests against the code as written: Alice's check-out is not found and bed 5 stays occupied |
| Hotel.Ledger.Claim | internal/handlers/hotel.go:136-183 | the check-in transaction on the object: the new tables and the outcome are exactly `OpenStep` of the old tables, and ids stay fresh |
| Hotel.Ledger.Open | internal/handlers/hotel.go:129-184 | check-in as written, storing the request's check-out time; equals `OpenStep` with `NewStay` and keeps every bed single-booked |
| Hotel.Ledger.OpenActive | internal/handlers/hotel.go:158-165 | check-in storing the stay as active; equals `OpenStep` with `NewActiveStay` and keeps the bed-status rule |
| Hotel.Ledger.Close | internal/handlers/hotel.go:186-228 | the check-out transaction on the object: equals `CloseStep` of the old tables, keeps every bed single-booked and keeps the bed-status rule |
| Hotel.WalkthroughOnLedger | internal/handlers/hotel.go:129-228 | the walk-through run on a `Ledger` object with the corrected check-in `OpenActive` (see Findings) yields Created(1), BedNotAvailable, CheckedOut, StayNotFound |
| Hotel.WalkthroughOnLedgerAsWritten | internal/handlers/hotel.go:129-228 | the same walk-through with the check-in as written (`Open`) yields Created(1), BedNotAvailable, StayNotFound, StayNotFound |

## Left out

- `GetHotels` and `GetBeds` (internal/handlers/hotel.go:22-127): read-through listing queries; the join, the filter and the ordering happen in the database.
- `Login` (internal/handlers/auth.go) and the server set-up in cmd/server/main.go: password hashing, token issuing, routing and CORS are foreign calls and wiring.
- JSON binding of the request bodies and its 400 "Invalid request" reply: requests arrive already decoded.
- HTTP status codes and messages: mapped onto `Outcome`; both refusals of a check-in are 400 in the code.
- Concurrency and row locking: each handler is one atomic step; mutual exclusion is stated over sequential runs (`CheckInsOnOneBedSucceedOnce`), not over interleavings.
- `amount_paid` (a float) is a `real` that is only copied; timestamps are opaque integers; the database's `NOW()` is the `now` parameter.
- Display-only bed columns (hotel id, bed number, position) and `created_at`: neither check-in nor check-out reads or writes them.
- Adding and removing beds: catalog set-up is not part of this model, so the set of bed ids never changes.
- Hotel.Ledger.Claim: the next customer id advances only on commit; a PostgreSQL sequence also advances when the transaction rolls back, which changes which fresh id is handed out but not which rows exist.

## Findings

| source | as written | input that shows it | evidently intended | confidence | as-written member | corrected member |
|---|---|---|---|---|---|---|
| internal/handlers/hotel.go:158-165 | the check-in INSERT writes `check_out` from the request's `CheckOut`, a non-pointer `time.Time`, so the new customer row never has a NULL check-out | bed 5 available; check in Alice on bed 5 (id 1); check out customer 1: reported not found, bed 5 stays occupied for good | insert the stay with `check_out` NULL, since the check-out handler (line 202) and the beds listing (line 51) only consider rows whose `check_out IS NULL` | medium; not executed | Invariants.WrittenOpenThenCloseFails | Hotel.Ledger.OpenActive |
