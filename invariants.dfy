/**
 * What the two handlers keep true of the ledger, one step at a time and
 * over any sequence of requests, and where the check-in handler as written
 * breaks the bed-status rule.
 */
module Invariants {
  import opened Models
  import opened Occupancy

  /**
   * No bed is double-booked: every active stay holds an existing, occupied
   * bed, and no two active stays hold the same bed.
   */
  ghost predicate Sound(st: Store)
  {
    && (forall i :: i in st.stays && Active(st.stays[i]) ==>
          st.stays[i].bedId.Some? && st.stays[i].bedId.value in st.beds
          && st.beds[st.stays[i].bedId.value] == Occupied)
    && (forall i, j :: i in st.stays && j in st.stays && i != j && Active(st.stays[i]) && Active(st.stays[j]) ==>
          st.stays[i].bedId != st.stays[j].bedId)
  }

  /**
   * The bed-status rule: the status column mirrors the active stays, that is
   * a bed is occupied when exactly one active stay holds it and available
   * when none does.
   */
  ghost predicate Consistent(st: Store)
  {
    && Sound(st)
    && (forall b :: b in st.beds ==> st.beds[b] == Available || st.beds[b] == Occupied)
    && (forall b :: b in st.beds && st.beds[b] == Occupied ==> exists i :: i in st.stays && ActiveOn(st.stays[i], b))
  }

  /** The ids of the active stays that hold bed `b`. */
  function ActiveStaysOn(stays: map<int, Stay>, b: int): set<int>
  {
    set i | i in stays && ActiveOn(stays[i], b)
  }

  /** Under the bed-status rule, a bed is occupied iff one active stay holds it, and available iff none does. */
  lemma ConsistentCounts(st: Store, b: int)
    requires Consistent(st) && b in st.beds
    ensures st.beds[b] == Occupied <==> |ActiveStaysOn(st.stays, b)| == 1
    ensures st.beds[b] == Available <==> ActiveStaysOn(st.stays, b) == {}
  {
    var active := ActiveStaysOn(st.stays, b);
    if exists j :: j in st.stays && ActiveOn(st.stays[j], b) {
      var j :| j in st.stays && ActiveOn(st.stays[j], b);
      assert st.beds[b] == Occupied;
      assert active == {j} by {
        forall k | k in active ensures k == j {
          assert st.stays[k].bedId == st.stays[j].bedId;
        }
      }
    } else {
      assert active == {};
    }
  }

  // ---------------------------------------------------------------------
  // One step

  /** A check-in of any row that names the locked bed keeps every bed single-booked. */
  lemma OpenKeepsSound(st: Store, bedId: int, row: Stay, fault: Fault)
    requires Sound(st) && FreshIds(st)
    requires row.bedId == Some(bedId)
    ensures Sound(OpenStep(st, bedId, row, fault).after)
    ensures FreshIds(OpenStep(st, bedId, row, fault).after)
  {
  }

  /** A check-in that stores the stay as active keeps the bed-status rule. */
  lemma OpenActiveKeepsConsistent(st: Store, req: CreateCustomerRequest, fault: Fault)
    requires Consistent(st) && FreshIds(st)
    ensures Consistent(OpenStep(st, req.bedId, NewActiveStay(req), fault).after)
  {
    var row := NewActiveStay(req);
    OpenKeepsSound(st, req.bedId, row, fault);
    var s := OpenStep(st, req.bedId, row, fault);
    if s.outcome.Created? {
      var after := s.after;
      var id := st.nextId;
      forall b | b in after.beds && after.beds[b] == Occupied
        ensures exists i :: i in after.stays && ActiveOn(after.stays[i], b)
      {
        if b == req.bedId {
          assert ActiveOn(after.stays[id], b);
        } else {
          var i :| i in st.stays && ActiveOn(st.stays[i], b);
          assert after.stays[i] == st.stays[i];
        }
      }
    }
  }

  /** A check-out keeps every bed single-booked. */
  lemma CloseKeepsSound(st: Store, id: int, now: Time, fault: Fault)
    requires Sound(st)
    ensures Sound(CloseStep(st, id, now, fault).after)
  {
  }

  /** A check-out keeps the bed-status rule: it frees the one bed whose only active stay it closes. */
  lemma CloseKeepsConsistent(st: Store, id: int, now: Time, fault: Fault)
    requires Consistent(st)
    ensures Consistent(CloseStep(st, id, now, fault).after)
  {
    CloseKeepsSound(st, id, now, fault);
    var s := CloseStep(st, id, now, fault);
    if s.outcome == CheckedOut {
      var after := s.after;
      var freed := st.stays[id].bedId.value;
      forall b | b in after.beds && after.beds[b] == Occupied
        ensures exists i :: i in after.stays && ActiveOn(after.stays[i], b)
      {
        assert b != freed;
        var i :| i in st.stays && ActiveOn(st.stays[i], b);
        assert i != id;
        assert after.stays[i] == st.stays[i];
      }
    }
  }

  // ---------------------------------------------------------------------
  // Request sequences

  /** A request to either handler, with the store fault it meets. */
  datatype Request =
    | CheckIn(req: CreateCustomerRequest, fault: Fault)
    | CheckOut(customerId: int, now: Time, fault: Fault)

  datatype Trace = Trace(after: Store, outcomes: seq<Outcome>)

  /**
   * The row a check-in inserts: as the handler writes it, or, when
   * `intended`, with check-out left NULL.
   */
  function InsertedRow(req: CreateCustomerRequest, intended: bool): Stay
  {
    if intended then NewActiveStay(req) else NewStay(req)
  }

  function Apply(st: Store, q: Request, intended: bool): Step
  {
    match q
    case CheckIn(req, fault) => OpenStep(st, req.bedId, InsertedRow(req, intended), fault)
    case CheckOut(id, now, fault) => CloseStep(st, id, now, fault)
  }

  /** The requests applied one after another, each as one atomic step, with one outcome per request. */
  function Run(st: Store, qs: seq<Request>, intended: bool): (t: Trace)
    ensures |t.outcomes| == |qs|
    decreases |qs|
  {
    if qs == [] then Trace(st, [])
    else
      var s := Apply(st, qs[0], intended);
      var rest := Run(s.after, qs[1..], intended);
      Trace(rest.after, [s.outcome] + rest.outcomes)
  }

  /** Whatever the handlers are asked, in whatever order, no bed is ever double-booked. */
  lemma {:induction false} RunKeepsSound(st: Store, qs: seq<Request>, intended: bool)
    requires Sound(st) && FreshIds(st)
    ensures Sound(Run(st, qs, intended).after) && FreshIds(Run(st, qs, intended).after)
    decreases |qs|
  {
    if qs != [] {
      var next := Apply(st, qs[0], intended).after;
      match qs[0] {
        case CheckIn(req, fault) => OpenKeepsSound(st, req.bedId, InsertedRow(req, intended), fault);
        case CheckOut(id, now, fault) => CloseKeepsSound(st, id, now, fault);
      }
      RunKeepsSound(next, qs[1..], intended);
    }
  }

  /** With check-ins that store the stay as active, every sequence of requests keeps the bed-status rule. */
  lemma {:induction false} RunKeepsConsistent(st: Store, qs: seq<Request>)
    requires Consistent(st) && FreshIds(st)
    ensures Consistent(Run(st, qs, true).after)
    decreases |qs|
  {
    if qs != [] {
      var next := Apply(st, qs[0], true).after;
      match qs[0] {
        case CheckIn(req, fault) =>
          OpenActiveKeepsConsistent(st, req, fault);
          OpenKeepsSound(st, req.bedId, NewActiveStay(req), fault);
        case CheckOut(id, now, fault) => CloseKeepsConsistent(st, id, now, fault);
      }
      RunKeepsConsistent(next, qs[1..]);
    }
  }

  // ---------------------------------------------------------------------
  // Mutual exclusion and double check-out

  /**
   * Once a bed is not available, check-ins on it all fail and leave the
   * ledger as it is; each one whose locking SELECT runs is refused as not
   * available.
   */
  lemma {:induction false} CheckInsOnTakenBedFail(st: Store, qs: seq<Request>, b: int, intended: bool)
    requires b in st.beds && st.beds[b] != Available
    requires forall k :: 0 <= k < |qs| ==> qs[k].CheckIn? && qs[k].req.bedId == b
    ensures Run(st, qs, intended).after == st
    ensures forall k :: 0 <= k < |qs| ==> !Run(st, qs, intended).outcomes[k].Created?
    ensures forall k :: 0 <= k < |qs| && qs[k].fault != BeginFails && qs[k].fault != LockQueryFails
              ==> Run(st, qs, intended).outcomes[k] == BedNotAvailable
    decreases |qs|
  {
    if qs != [] {
      assert qs[0].CheckIn?;
      assert Apply(st, qs[0], intended).after == st;
      CheckInsOnTakenBedFail(st, qs[1..], b, intended);
      var t := Run(st, qs, intended);
      forall k | 0 <= k < |qs| && k > 0 ensures t.outcomes[k] == Run(st, qs[1..], intended).outcomes[k - 1] {
      }
    }
  }

  /** Of any number of check-ins on one bed, applied one after another, at most one succeeds. */
  lemma {:induction false} CheckInsOnOneBedSucceedOnce(st: Store, qs: seq<Request>, b: int, intended: bool)
    requires forall k :: 0 <= k < |qs| ==> qs[k].CheckIn? && qs[k].req.bedId == b
    ensures forall k, l :: 0 <= k < l < |qs| && Run(st, qs, intended).outcomes[k].Created?
              ==> !Run(st, qs, intended).outcomes[l].Created?
    decreases |qs|
  {
    if qs != [] {
      var s := Apply(st, qs[0], intended);
      var t := Run(st, qs, intended);
      var rest := Run(s.after, qs[1..], intended);
      if s.outcome.Created? {
        assert s.after.beds[b] == Occupied;
        CheckInsOnTakenBedFail(s.after, qs[1..], b, intended);
      } else {
        CheckInsOnOneBedSucceedOnce(s.after, qs[1..], b, intended);
      }
      forall k, l | 0 <= k < l < |qs| && t.outcomes[k].Created? ensures !t.outcomes[l].Created? {
        assert t.outcomes[l] == rest.outcomes[l - 1];
        if k > 0 {
          assert t.outcomes[k] == rest.outcomes[k - 1];
        }
      }
    }
  }

  /**
   * Fault-free check-ins on one available bed: the first succeeds, every
   * later one is refused as not available, and the bed ends occupied.
   */
  lemma {:induction false} ExactlyOneSucceeds(st: Store, qs: seq<Request>, b: int, intended: bool)
    requires b in st.beds && st.beds[b] == Available
    requires |qs| >= 1
    requires forall k :: 0 <= k < |qs| ==> qs[k].CheckIn? && qs[k].req.bedId == b && qs[k].fault == NoFault
    ensures Run(st, qs, intended).outcomes[0].Created?
    ensures forall k :: 1 <= k < |qs| ==> Run(st, qs, intended).outcomes[k] == BedNotAvailable
    ensures b in Run(st, qs, intended).after.beds && Run(st, qs, intended).after.beds[b] == Occupied
  {
    var s := Apply(st, qs[0], intended);
    assert s.outcome.Created? && s.after.beds[b] == Occupied;
    CheckInsOnTakenBedFail(s.after, qs[1..], b, intended);
    var t := Run(st, qs, intended);
    var rest := Run(s.after, qs[1..], intended);
    forall k | 1 <= k < |qs| ensures t.outcomes[k] == BedNotAvailable {
      assert t.outcomes[k] == rest.outcomes[k - 1];
      assert qs[1..][k - 1] == qs[k];
    }
  }

  /**
   * A second check-out of the same customer never succeeds and changes
   * nothing, so a bed is never released twice.
   */
  lemma CloseTwice(st: Store, id: int, now: Time, later: Time, fault: Fault)
    requires CloseStep(st, id, now, NoFault).outcome == CheckedOut
    ensures
      var first := CloseStep(st, id, now, NoFault).after;
      && CloseStep(first, id, later, fault).after == first
      && CloseStep(first, id, later, fault).outcome == if fault == BeginFails then Internal else StayNotFound
  {
  }

  // ---------------------------------------------------------------------
  // The check-in handler as written

  /**
   * The handler stores the request's check-out time, so the stay it creates
   * is never active: the bed is marked occupied while no active stay holds
   * it, which breaks the bed-status rule from any state that kept it.
   */
  lemma {:induction false} WrittenOpenOrphansBed(st: Store, req: CreateCustomerRequest, fault: Fault)
    requires Consistent(st) && FreshIds(st)
    requires OpenStep(st, req.bedId, NewStay(req), fault).outcome.Created?
    ensures
      var after := OpenStep(st, req.bedId, NewStay(req), fault).after;
      && after.beds[req.bedId] == Occupied
      && ActiveStaysOn(after.stays, req.bedId) == {}
      && !Consistent(after)
  {
    var after := OpenStep(st, req.bedId, NewStay(req), fault).after;
    assert forall i :: i in st.stays ==> !ActiveOn(st.stays[i], req.bedId);
    assert forall i :: i in after.stays && i != st.nextId ==> i in st.stays && after.stays[i] == st.stays[i];
    assert ActiveStaysOn(after.stays, req.bedId) == {};
  }

  /** The customer the handler just created cannot be checked out: the check-out handler reports it as not found. */
  lemma WrittenOpenThenCloseFails(st: Store, req: CreateCustomerRequest, now: Time, fault: Fault)
    requires FreshIds(st)
    requires OpenStep(st, req.bedId, NewStay(req), NoFault).outcome.Created?
    ensures
      var s := OpenStep(st, req.bedId, NewStay(req), NoFault);
      && CloseStep(s.after, s.outcome.id, now, fault).after == s.after
      && CloseStep(s.after, s.outcome.id, now, fault).outcome != CheckedOut
  {
  }

  /** Storing the stay as active instead, the customer just created can be checked out, and that frees the bed. */
  lemma OpenActiveThenCloseSucceeds(st: Store, req: CreateCustomerRequest, now: Time)
    requires FreshIds(st)
    requires OpenStep(st, req.bedId, NewActiveStay(req), NoFault).outcome.Created?
    ensures
      var s := OpenStep(st, req.bedId, NewActiveStay(req), NoFault);
      && CloseStep(s.after, s.outcome.id, now, NoFault).outcome == CheckedOut
      && CloseStep(s.after, s.outcome.id, now, NoFault).after.beds[req.bedId] == Available
  {
  }

  // ---------------------------------------------------------------------
  // The walk-through: bed 5 is free; Alice checks in, Bob is refused,
  // Alice checks out, and checks out again.

  function Alice(): CreateCustomerRequest
  {
    CreateCustomerRequest("Alice", "555-0100", 100, 200, 80.0, "cash", 5)
  }

  function Bob(): CreateCustomerRequest
  {
    CreateCustomerRequest("Bob", "555-0199", 110, 210, 80.0, "card", 5)
  }

  function Walkthrough(): seq<Request>
  {
    [CheckIn(Alice(), NoFault), CheckIn(Bob(), NoFault), CheckOut(1, 150, NoFault), CheckOut(1, 160, NoFault)]
  }

  /** With active stays: Alice gets id 1, Bob is refused, the first check-out frees bed 5, the second is not found. */
  lemma WalkthroughIntended()
    ensures
      var t := Run(Store(map[5 := Available], map[], 1), Walkthrough(), true);
      && t.outcomes == [Created(1), BedNotAvailable, CheckedOut, StayNotFound]
      && t.after.beds == map[5 := Available]
      && t.after.stays.Keys == {1}
  {
  }

  /** As written: Alice gets id 1 and Bob is refused, but Alice's check-out is not found and bed 5 stays occupied. */
  lemma WalkthroughAsWritten()
    ensures
      var t := Run(Store(map[5 := Available], map[], 1), Walkthrough(), false);
      && t.outcomes == [Created(1), BedNotAvailable, StayNotFound, StayNotFound]
      && t.after.beds == map[5 := Occupied]
  {
  }
}
