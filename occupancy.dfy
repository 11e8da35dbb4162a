/**
 * The occupancy ledger as a value: the `beds` status column and the
 * `customers` rows, and one atomic step of the check-in handler
 * (CreateCustomer) and of the check-out handler (CheckoutCustomer).
 * Each handler runs in one transaction that locks the row it reads, so it
 * is modelled as one step that either commits all of its writes or none.
 */
module Occupancy {
  import opened Models

  const Available := "available"
  const Occupied := "occupied"

  /** Bed id to status, customer id to row, and the next id the store hands out. */
  datatype Store = Store(beds: map<int, string>, stays: map<int, Stay>, nextId: int)

  /**
   * Where the store fails, if it does: starting the transaction, the locking
   * SELECT, the first or second write, or the commit.
   */
  datatype Fault = NoFault | BeginFails | LockQueryFails | FirstWriteFails | SecondWriteFails | CommitFails

  /** What a handler reports. */
  datatype Outcome =
    | Created(id: int)      // 201 with the new customer's id
    | CheckedOut            // 200
    | BedNotFound           // 400 "Bed not found"
    | BedNotAvailable       // 400 "Bed is not available"
    | StayNotFound          // 400 "Customer not found or already checked out"
    | Internal              // 500

  datatype Step = Step(after: Store, outcome: Outcome)

  /** Every customer id in use is below the next id the store hands out. */
  ghost predicate FreshIds(st: Store)
  {
    forall id :: id in st.stays ==> id < st.nextId
  }

  /** Sets the status of bed `id` to `status`, as `UPDATE beds SET status = ... WHERE id = ...` does: no row matched is no change and no error. */
  function UpdateStatus(beds: map<int, string>, id: int, status: string): (r: map<int, string>)
    ensures r.Keys == beds.Keys
    ensures id in beds ==> r[id] == status
    ensures forall b :: b in beds && b != id ==> r[b] == beds[b]
  {
    if id in beds then beds[id := status] else beds
  }

  /**
   * CreateCustomer: lock bed `bedId`, require it to be available, insert
   * `row` under a fresh id, mark the bed occupied, commit.
   * Any failure of the locking SELECT is reported as "Bed not found".
   */
  function OpenStep(st: Store, bedId: int, row: Stay, fault: Fault): (r: Step)
    // the transaction does not start, or an insert, update or commit fails after the lock
    ensures r.outcome == Internal <==>
              fault == BeginFails
              || ((fault.FirstWriteFails? || fault.SecondWriteFails? || fault.CommitFails?)
                  && bedId in st.beds && st.beds[bedId] == Available)
    // the locking SELECT fails or finds no row
    ensures r.outcome == BedNotFound <==> fault != BeginFails && (fault == LockQueryFails || bedId !in st.beds)
    // the locked bed is not available
    ensures r.outcome == BedNotAvailable <==>
              fault != BeginFails && fault != LockQueryFails && bedId in st.beds && st.beds[bedId] != Available
    // commit
    ensures r.outcome.Created? <==> fault == NoFault && bedId in st.beds && st.beds[bedId] == Available
    ensures r.outcome.Created? || r.outcome in {Internal, BedNotFound, BedNotAvailable}
    ensures !r.outcome.Created? ==> r.after == st
    ensures r.outcome.Created? ==>
              && r.outcome.id == st.nextId
              && r.after == Store(UpdateStatus(st.beds, bedId, Occupied), st.stays[st.nextId := row], st.nextId + 1)
  {
    if fault == BeginFails then Step(st, Internal)
    else if fault == LockQueryFails || bedId !in st.beds then Step(st, BedNotFound)
    else if st.beds[bedId] != Available then Step(st, BedNotAvailable)
    else if fault != NoFault then Step(st, Internal)
    else
      var id := st.nextId;
      Step(Store(UpdateStatus(st.beds, bedId, Occupied), st.stays[id := row], id + 1), Created(id))
  }

  /**
   * CheckoutCustomer: lock customer `id` if its check-out is NULL, stamp
   * check-out with `now`, mark that customer's own bed available, commit.
   * Any failure of the locking SELECT (no row, or a NULL bed id that cannot
   * be scanned into an int) is reported as "not found".
   */
  function CloseStep(st: Store, id: int, now: Time, fault: Fault): (r: Step)
    // the transaction does not start, or an update or the commit fails after the lock
    ensures r.outcome == Internal <==>
              fault == BeginFails
              || ((fault.FirstWriteFails? || fault.SecondWriteFails? || fault.CommitFails?)
                  && id in st.stays && Active(st.stays[id]) && st.stays[id].bedId.Some?)
    // the locking SELECT fails, finds no active row, or cannot scan a NULL bed id
    ensures r.outcome == StayNotFound <==>
              fault != BeginFails
              && (fault == LockQueryFails || id !in st.stays || !Active(st.stays[id]) || st.stays[id].bedId.None?)
    // commit
    ensures r.outcome == CheckedOut <==>
              fault == NoFault && id in st.stays && Active(st.stays[id]) && st.stays[id].bedId.Some?
    ensures r.outcome in {Internal, StayNotFound, CheckedOut}
    ensures r.outcome != CheckedOut ==> r.after == st
    ensures r.outcome == CheckedOut ==>
              && r.after.stays == st.stays[id := st.stays[id].(checkOut := Some(now))]
              && r.after.beds == UpdateStatus(st.beds, st.stays[id].bedId.value, Available)
              && r.after.nextId == st.nextId
  {
    if fault == BeginFails then Step(st, Internal)
    else if fault == LockQueryFails || id !in st.stays || !Active(st.stays[id]) || st.stays[id].bedId.None?
    then Step(st, StayNotFound)
    else if fault != NoFault then Step(st, Internal)
    else
      var stay := st.stays[id];
      Step(Store(UpdateStatus(st.beds, stay.bedId.value, Available),
                 st.stays[id := stay.(checkOut := Some(now))],
                 st.nextId),
           CheckedOut)
  }

  // ---------------------------------------------------------------------
  // One check-in

  /** An unknown bed is reported as not found (or as an internal error when the transaction never started), and nothing is written. */
  lemma OpenUnknownBed(st: Store, bedId: int, row: Stay, fault: Fault)
    requires bedId !in st.beds
    ensures OpenStep(st, bedId, row, fault).after == st
    ensures OpenStep(st, bedId, row, fault).outcome == if fault == BeginFails then Internal else BedNotFound
  {
  }

  /** A bed whose status is any string other than "available" is refused, and nothing is written. */
  lemma OpenBusyBed(st: Store, bedId: int, row: Stay, fault: Fault)
    requires bedId in st.beds && st.beds[bedId] != Available
    ensures OpenStep(st, bedId, row, fault).after == st
    ensures !OpenStep(st, bedId, row, fault).outcome.Created?
    ensures fault != BeginFails && fault != LockQueryFails ==> OpenStep(st, bedId, row, fault).outcome == BedNotAvailable
  {
  }

  /** A store failure anywhere rolls the whole check-in back. */
  lemma OpenFaultRollsBack(st: Store, bedId: int, row: Stay, fault: Fault)
    requires fault != NoFault
    ensures OpenStep(st, bedId, row, fault).after == st
    ensures !OpenStep(st, bedId, row, fault).outcome.Created?
    ensures fault == BeginFails ==> OpenStep(st, bedId, row, fault).outcome == Internal
    ensures fault == LockQueryFails ==> OpenStep(st, bedId, row, fault).outcome == BedNotFound
    ensures fault in {FirstWriteFails, SecondWriteFails, CommitFails} && bedId in st.beds && st.beds[bedId] == Available
            ==> OpenStep(st, bedId, row, fault).outcome == Internal
  {
  }

  /**
   * A check-in succeeds exactly when the store does not fail and the bed
   * exists and is available; it then adds exactly the one row under a fresh
   * id, occupies exactly that bed, and returns the id.
   */
  lemma OpenCommits(st: Store, bedId: int, row: Stay, fault: Fault)
    requires FreshIds(st)
    ensures OpenStep(st, bedId, row, fault).outcome.Created?
            <==> fault == NoFault && bedId in st.beds && st.beds[bedId] == Available
    ensures OpenStep(st, bedId, row, fault).outcome.Created? ==>
              var id := OpenStep(st, bedId, row, fault).outcome.id;
              var after := OpenStep(st, bedId, row, fault).after;
              && id !in st.stays
              && after.stays.Keys == st.stays.Keys + {id}
              && after.stays[id] == row
              && (forall i :: i in st.stays ==> after.stays[i] == st.stays[i])
              && after.beds.Keys == st.beds.Keys
              && after.beds[bedId] == Occupied
              && (forall b :: b in st.beds && b != bedId ==> after.beds[b] == st.beds[b])
              && FreshIds(after)
  {
  }

  /** The stay a successful check-in stores is the request, field for field, with its check-out time as given. */
  lemma OpenStoresRequest(st: Store, req: CreateCustomerRequest, fault: Fault)
    requires OpenStep(st, req.bedId, NewStay(req), fault).outcome.Created?
    ensures
      var s := OpenStep(st, req.bedId, NewStay(req), fault);
      var stay := s.after.stays[s.outcome.id];
      && stay.fullName == req.fullName && stay.mobileNumber == req.mobileNumber
      && stay.checkIn == req.checkIn && stay.checkOut == Some(req.checkOut)
      && stay.amountPaid == req.amountPaid && stay.paymentMode == req.paymentMode
      && stay.bedId == Some(req.bedId)
  {
  }

  // ---------------------------------------------------------------------
  // One check-out

  /** A customer that is absent, already checked out, or without a bed is not found, and nothing is written. */
  lemma CloseNotFound(st: Store, id: int, now: Time, fault: Fault)
    requires id !in st.stays || !Active(st.stays[id]) || st.stays[id].bedId.None?
    ensures CloseStep(st, id, now, fault).after == st
    ensures CloseStep(st, id, now, fault).outcome == if fault == BeginFails then Internal else StayNotFound
  {
  }

  /** A store failure anywhere rolls the whole check-out back. */
  lemma CloseFaultRollsBack(st: Store, id: int, now: Time, fault: Fault)
    requires fault != NoFault
    ensures CloseStep(st, id, now, fault).after == st
    ensures CloseStep(st, id, now, fault).outcome != CheckedOut
    ensures fault == BeginFails ==> CloseStep(st, id, now, fault).outcome == Internal
    ensures fault == LockQueryFails ==> CloseStep(st, id, now, fault).outcome == StayNotFound
    ensures fault in {FirstWriteFails, SecondWriteFails, CommitFails} && id in st.stays && Active(st.stays[id])
            && st.stays[id].bedId.Some?
            ==> CloseStep(st, id, now, fault).outcome == Internal
  {
  }

  /**
   * A check-out succeeds exactly when the store does not fail and the
   * customer is an active stay with a bed; it then stamps that stay's
   * check-out with `now`, frees the stay's own bed (if that bed row still
   * exists) and changes nothing else.
   */
  lemma CloseCommits(st: Store, id: int, now: Time, fault: Fault)
    ensures CloseStep(st, id, now, fault).outcome == CheckedOut
            <==> fault == NoFault && id in st.stays && Active(st.stays[id]) && st.stays[id].bedId.Some?
    ensures CloseStep(st, id, now, fault).outcome == CheckedOut ==>
              var after := CloseStep(st, id, now, fault).after;
              var bed := st.stays[id].bedId.value;
              && after.stays.Keys == st.stays.Keys
              && after.stays[id] == st.stays[id].(checkOut := Some(now))
              && (forall i :: i in st.stays && i != id ==> after.stays[i] == st.stays[i])
              && after.beds.Keys == st.beds.Keys
              && (bed in st.beds ==> after.beds[bed] == Available)
              && (forall b :: b in st.beds && b != bed ==> after.beds[b] == st.beds[b])
              && after.nextId == st.nextId
  {
  }
}
