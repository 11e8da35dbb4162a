/**
 * The two transactional handlers of internal/handlers/hotel.go over a
 * ledger object whose tables they update in place. Each handler reads and
 * writes a transaction-local view and copies it into the tables only on
 * commit; every earlier return leaves the tables as they were, as the
 * deferred rollback does.
 */
module Hotel {
  import opened Models
  import opened Occupancy
  import opened Invariants

  class Ledger {
    var beds: map<int, string>
    var stays: map<int, Stay>
    var nextId: int

    /** The tables as a value. */
    function State(): Store
      reads this
    {
      Store(beds, stays, nextId)
    }

    ghost predicate Valid()
      reads this
    {
      FreshIds(State())
    }

    /** A ledger over the beds of the catalog, with no customers yet; ids start at 1. */
    constructor (catalog: map<int, string>)
      ensures Valid()
      ensures State() == Store(catalog, map[], 1)
    {
      beds := catalog;
      stays := map[];
      nextId := 1;
    }

    /**
     * The body of CreateCustomer's transaction: lock bed `bedId`, check that
     * it is available, insert `row`, occupy the bed, commit.
     */
    method Claim(bedId: int, row: Stay, fault: Fault) returns (r: Outcome)
      requires Valid()
      modifies this
      ensures Valid()
      ensures Step(State(), r) == OpenStep(old(State()), bedId, row, fault)
    {
      if fault == BeginFails {
        return Internal;
      }
      // SELECT status FROM beds WHERE id = bedId FOR UPDATE
      if fault == LockQueryFails || bedId !in beds {
        return BedNotFound;
      }
      var bedStatus := beds[bedId];
      if bedStatus != Available {
        return BedNotAvailable;
      }
      // INSERT INTO customers ... RETURNING id
      if fault == FirstWriteFails {
        return Internal;
      }
      var customerId := nextId;
      var txStays := stays[customerId := row];
      // UPDATE beds SET status = 'occupied' WHERE id = bedId
      if fault == SecondWriteFails {
        return Internal;
      }
      var txBeds := UpdateStatus(beds, bedId, Occupied);
      if fault == CommitFails {
        return Internal;
      }
      beds, stays, nextId := txBeds, txStays, nextId + 1;
      r := Created(customerId);
    }

    /** CreateCustomer as written: the stored row carries the request's check-out time. */
    method Open(req: CreateCustomerRequest, fault: Fault) returns (r: Outcome)
      requires Valid()
      modifies this
      ensures Valid()
      ensures Step(State(), r) == OpenStep(old(State()), req.bedId, NewStay(req), fault)
      ensures Sound(old(State())) ==> Sound(State())
    {
      if Sound(State()) {
        OpenKeepsSound(State(), req.bedId, NewStay(req), fault);
      }
      r := Claim(req.bedId, NewStay(req), fault);
    }

    /** CreateCustomer with the check-out column left NULL, so that the stay it opens is active. */
    method OpenActive(req: CreateCustomerRequest, fault: Fault) returns (r: Outcome)
      requires Valid()
      modifies this
      ensures Valid()
      ensures Step(State(), r) == OpenStep(old(State()), req.bedId, NewActiveStay(req), fault)
      ensures Consistent(old(State())) ==> Consistent(State())
    {
      if Consistent(State()) {
        OpenActiveKeepsConsistent(State(), req, fault);
      }
      r := Claim(req.bedId, NewActiveStay(req), fault);
    }

    /**
     * CheckoutCustomer: lock customer `customerId` if it has not checked
     * out, stamp its check-out with `now`, free its own bed, commit.
     */
    method Close(customerId: int, now: Time, fault: Fault) returns (r: Outcome)
      requires Valid()
      modifies this
      ensures Valid()
      ensures Step(State(), r) == CloseStep(old(State()), customerId, now, fault)
      ensures Sound(old(State())) ==> Sound(State())
      ensures Consistent(old(State())) ==> Consistent(State())
    {
      if Sound(State()) {
        CloseKeepsSound(State(), customerId, now, fault);
      }
      if Consistent(State()) {
        CloseKeepsConsistent(State(), customerId, now, fault);
      }
      if fault == BeginFails {
        return Internal;
      }
      // SELECT bed_id FROM customers WHERE id = customerId AND check_out IS NULL FOR UPDATE
      if fault == LockQueryFails || customerId !in stays || !Active(stays[customerId]) {
        return StayNotFound;
      }
      var stay := stays[customerId];
      if stay.bedId.None? {
        // a NULL bed_id cannot be scanned into an int
        return StayNotFound;
      }
      var bedId := stay.bedId.value;
      // UPDATE customers SET check_out = NOW() WHERE id = customerId
      if fault == FirstWriteFails {
        return Internal;
      }
      var txStays := stays[customerId := stay.(checkOut := Some(now))];
      // UPDATE beds SET status = 'available' WHERE id = bedId
      if fault == SecondWriteFails {
        return Internal;
      }
      var txBeds := UpdateStatus(beds, bedId, Available);
      if fault == CommitFails {
        return Internal;
      }
      beds, stays := txBeds, txStays;
      r := CheckedOut;
    }
  }

  /**
   * The walk-through on the object with the corrected check-in `OpenActive`:
   * bed 5 is free; Alice checks in, Bob is refused, Alice checks out, and a
   * second check-out is not found.
   */
  method WalkthroughOnLedger() returns (outcomes: seq<Outcome>)
    ensures outcomes == [Created(1), BedNotAvailable, CheckedOut, StayNotFound]
  {
    var ledger := new Ledger(map[5 := Available]);
    var alice := ledger.OpenActive(Alice(), NoFault);
    var bob := ledger.OpenActive(Bob(), NoFault);
    var first := ledger.Close(1, 150, NoFault);
    assert ledger.beds[5] == Available;
    var second := ledger.Close(1, 160, NoFault);
    outcomes := [alice, bob, first, second];
  }

  /**
   * The same walk-through with the check-in as written (`Open`): Alice's
   * check-out is not found, and bed 5 stays occupied.
   */
  method WalkthroughOnLedgerAsWritten() returns (outcomes: seq<Outcome>)
    ensures outcomes == [Created(1), BedNotAvailable, StayNotFound, StayNotFound]
  {
    var ledger := new Ledger(map[5 := Available]);
    var alice := ledger.Open(Alice(), NoFault);
    var bob := ledger.Open(Bob(), NoFault);
    var first := ledger.Close(1, 150, NoFault);
    assert ledger.beds[5] == Occupied;
    var second := ledger.Close(1, 160, NoFault);
    outcomes := [alice, bob, first, second];
  }
}
