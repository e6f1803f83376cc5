/**
 * What the booking rule guarantees, stated over `BookStep`: the outcome of
 * each attempt, what it leaves alone, and what a series of attempts against
 * one event adds up to when they run one after another (as the row lock
 * makes them do).
 */
module Booking {
  import opened Model
  import opened Repository

  /** The (event, e-mail) pair already has a registration. */
  ghost predicate Registered(db: Db, eventId: string, email: string)
  {
    exists i :: 0 <= i < |db.registrations| &&
      db.registrations[i].eventId == eventId && db.registrations[i].userEmail == email
  }

  /** The transaction began and the row lock was taken without a database error. */
  predicate LockTaken(fault: Fault)
  {
    !FailsAt(fault, Begin) && !FailsAt(fault, LockRow)
  }

  /**
   * The outcome of one booking attempt, case by case: NotFound for a missing
   * event, then AlreadyRegistered for a registered pair, then EventFull for a
   * full event, and success only without any database error; every failure
   * leaves the database as it was, and a success adds one seat and one
   * registration carrying the requested event and e-mail.
   */
  lemma BookOutcomes(db: Db, eventId: string, email: string, regId: string, now: Time, fault: Fault)
    ensures var (db', res) := BookStep(db, eventId, email, regId, now, fault);
      && (res.Err? ==> db' == db)
      && (res == Err(NotFound) <==> LockTaken(fault) && eventId !in db.events)
      && (res == Err(AlreadyRegistered) <==>
            LockTaken(fault) && eventId in db.events && !FailsAt(fault, CheckDuplicate) &&
            Registered(db, eventId, email))
      && (res == Err(EventFull) <==>
            LockTaken(fault) && eventId in db.events && !FailsAt(fault, CheckDuplicate) &&
            !Registered(db, eventId, email) && db.events[eventId].IsFull())
      && (res.Ok? <==>
            fault == NoFault && eventId in db.events &&
            !Registered(db, eventId, email) && !db.events[eventId].IsFull())
      && (res.Ok? ==>
            && res.value == Registration(regId, eventId, email, now)
            && db'.registrations == db.registrations + [res.value]
            && db'.order == db.order
            && db'.events == db.events[eventId := db.events[eventId].(bookedCount := db.events[eventId].bookedCount + 1)])
  {
  }

  /** The duplicate check comes first: a registered e-mail on a full event is told AlreadyRegistered, not EventFull. */
  lemma DuplicateCheckedBeforeCapacity(db: Db, eventId: string, email: string, regId: string, now: Time, fault: Fault)
    requires LockTaken(fault) && !FailsAt(fault, CheckDuplicate)
    requires eventId in db.events && db.events[eventId].IsFull()
    requires Registered(db, eventId, email)
    ensures BookStep(db, eventId, email, regId, now, fault) == (db, Err(AlreadyRegistered))
  {
  }

  /** A full event never gains a registration, whatever else happens. */
  lemma FullEventGainsNothing(db: Db, eventId: string, email: string, regId: string, now: Time, fault: Fault)
    requires eventId in db.events && db.events[eventId].IsFull()
    ensures var (db', res) := BookStep(db, eventId, email, regId, now, fault);
      !res.Ok? && db' == db && ForEvent(db'.registrations, eventId) == ForEvent(db.registrations, eventId)
  {
  }

  /** A booking touches only its own event: every other event and its registrations stay the same. */
  lemma BookLeavesOtherEventsAlone(db: Db, eventId: string, email: string, regId: string, now: Time, fault: Fault, other: string)
    requires other != eventId
    ensures var (db', res) := BookStep(db, eventId, email, regId, now, fault);
      && (other in db'.events <==> other in db.events)
      && (other in db.events ==> db'.events[other] == db.events[other])
      && ForEvent(db'.registrations, other) == ForEvent(db.registrations, other)
  {
    var (db', res) := BookStep(db, eventId, email, regId, now, fault);
    if res.Ok? {
      ForEventAppend(db.registrations, res.value, other);
    }
  }

  /**
   * Booking the same e-mail for the same event twice: the second attempt is
   * told AlreadyRegistered and changes nothing, so the event keeps exactly one
   * extra seat and one registration for that e-mail.
   */
  lemma RebookingIsAlreadyRegistered(db: Db, eventId: string, email: string,
                                     id1: string, t1: Time, id2: string, t2: Time, fault2: Fault)
    requires BookStep(db, eventId, email, id1, t1, NoFault).1.Ok?
    requires LockTaken(fault2) && !FailsAt(fault2, CheckDuplicate)
    ensures var db1 := BookStep(db, eventId, email, id1, t1, NoFault).0;
      && BookStep(db1, eventId, email, id2, t2, fault2) == (db1, Err(AlreadyRegistered))
      && db1.events[eventId].bookedCount == db.events[eventId].bookedCount + 1
      && |ForEvent(db1.registrations, eventId)| == |ForEvent(db.registrations, eventId)| + 1
  {
    var (db1, res) := BookStep(db, eventId, email, id1, t1, NoFault);
    var n := |db.registrations|;
    assert db1.registrations[n] == res.value;
    assert DupCount(db1.registrations, eventId, email) > 0;
    ForEventAppend(db.registrations, res.value, eventId);
  }

  /** One booking attempt, with the fresh id, the clock reading and the database behaviour it meets. */
  datatype Attempt = Attempt(eventId: string, userEmail: string, regId: string, now: Time, fault: Fault)

  /** Attempts run one after another (as the row lock serialises them per event): the final database and every outcome. */
  function RunSerial(db: Db, attempts: seq<Attempt>): (r: (Db, seq<Result<Registration>>))
    ensures |r.1| == |attempts|
    ensures |r.0.registrations| == |db.registrations| + CountOk(r.1)
    ensures r.0.registrations[..|db.registrations|] == db.registrations
    ensures r.0.events.Keys == db.events.Keys && r.0.order == db.order
    decreases |attempts|
  {
    if attempts == [] then
      (db, [])
    else
      var a := attempts[0];
      var (db1, res) := BookStep(db, a.eventId, a.userEmail, a.regId, a.now, a.fault);
      var (db2, rest) := RunSerial(db1, attempts[1..]);
      assert ([res] + rest)[1..] == rest;
      assert db2.registrations[..|db.registrations|] == db1.registrations[..|db1.registrations|][..|db.registrations|];
      (db2, [res] + rest)
  }

  /** The number of successful outcomes. */
  function CountOk(rs: seq<Result<Registration>>): nat
  {
    if rs == [] then 0 else (if rs[0].Ok? then 1 else 0) + CountOk(rs[1..])
  }

  function Min(a: int, b: int): int
  {
    if a <= b then a else b
  }

  lemma DupCountAppend(regs: seq<Registration>, reg: Registration, eventId: string, email: string)
    ensures DupCount(regs + [reg], eventId, email)
         == DupCount(regs, eventId, email) + (if reg.eventId == eventId && reg.userEmail == email then 1 else 0)
  {
    assert (regs + [reg])[..|regs|] == regs;
  }

  /**
   * N attempts with distinct, unregistered e-mails against one event, without
   * database errors: exactly the first min(N, remaining seats) succeed, every
   * other one is told EventFull, and the counter grows by the number of
   * successes, so it never passes the capacity.
   */
  lemma {:induction false} DistinctAttendeesFillRemainingSeats(db: Db, eventId: string, attempts: seq<Attempt>)
    requires eventId in db.events
    requires 0 <= db.events[eventId].bookedCount <= db.events[eventId].capacity
    requires forall i :: 0 <= i < |attempts| ==> attempts[i].eventId == eventId && attempts[i].fault == NoFault
    requires forall i, j :: 0 <= i < j < |attempts| ==> attempts[i].userEmail != attempts[j].userEmail
    requires forall i :: 0 <= i < |attempts| ==> DupCount(db.registrations, eventId, attempts[i].userEmail) == 0
    ensures var (db', rs) := RunSerial(db, attempts);
      var granted := Min(|attempts|, db.events[eventId].Remaining());
      && CountOk(rs) == granted
      && (forall i :: 0 <= i < |rs| ==> (rs[i].Ok? <==> i < granted))
      && (forall i :: 0 <= i < |rs| && !rs[i].Ok? ==> rs[i] == Err(EventFull))
      && eventId in db'.events
      && db'.events[eventId].bookedCount == db.events[eventId].bookedCount + granted
      && db'.events[eventId].bookedCount <= db'.events[eventId].capacity
    decreases |attempts|
  {
    if attempts != [] {
      var a, rest := attempts[0], attempts[1..];
      var e := db.events[eventId];
      var (db1, res) := BookStep(db, a.eventId, a.userEmail, a.regId, a.now, a.fault);
      FirstAttempt(db, eventId, a);
      RestStillUnregistered(db, db1, eventId, attempts, if res.Ok? then res.value else Registration("", "", "", 0));
      DistinctAttendeesFillRemainingSeats(db1, eventId, rest);
      var (db2, rs') := RunSerial(db1, rest);
      var rs := [res] + rs';
      assert RunSerial(db, attempts) == (db2, rs);
      var granted := Min(|attempts|, e.Remaining());
      var granted' := Min(|rest|, db1.events[eventId].Remaining());
      assert granted == granted' + (if res.Ok? then 1 else 0);
      PrependOutcome(res, rs', granted', granted);
    }
  }

  /** Putting one more outcome in front of a run's outcomes: the first `granted` succeed, the rest are EventFull. */
  lemma PrependOutcome(res: Result<Registration>, rs': seq<Result<Registration>>, granted': int, granted: int)
    requires 0 <= granted'
    requires forall i :: 0 <= i < |rs'| ==> (rs'[i].Ok? <==> i < granted')
    requires forall i :: 0 <= i < |rs'| && !rs'[i].Ok? ==> rs'[i] == Err(EventFull)
    requires CountOk(rs') == granted'
    requires res.Ok? <==> 0 < granted
    requires granted == granted' + (if res.Ok? then 1 else 0)
    requires !res.Ok? ==> res == Err(EventFull)
    ensures var rs := [res] + rs';
      && CountOk(rs) == granted
      && (forall i :: 0 <= i < |rs| ==> (rs[i].Ok? <==> i < granted))
      && (forall i :: 0 <= i < |rs| && !rs[i].Ok? ==> rs[i] == Err(EventFull))
  {
    var rs := [res] + rs';
    assert rs[1..] == rs';
    forall i | 0 < i < |rs| ensures rs[i] == rs'[i - 1] {
    }
  }

  /** The first attempt succeeds exactly when a seat is left; otherwise it is told EventFull and changes nothing. */
  lemma FirstAttempt(db: Db, eventId: string, a: Attempt)
    requires eventId in db.events
    requires 0 <= db.events[eventId].bookedCount <= db.events[eventId].capacity
    requires a.eventId == eventId && a.fault == NoFault
    requires DupCount(db.registrations, eventId, a.userEmail) == 0
    ensures var (db1, res) := BookStep(db, a.eventId, a.userEmail, a.regId, a.now, a.fault);
      var e := db.events[eventId];
      && eventId in db1.events
      && db1.events[eventId].capacity == e.capacity
      && (res.Ok? <==> e.bookedCount < e.capacity)
      && (res.Ok? ==> db1 == Booked(db, res.value) && res.value.eventId == eventId && res.value.userEmail == a.userEmail
                      && db1.events[eventId].bookedCount == e.bookedCount + 1)
      && (!res.Ok? ==> res == Err(EventFull) && db1 == db)
  {
  }

  /** After the first attempt, the e-mails of the remaining ones are still unregistered for the event. */
  lemma RestStillUnregistered(db: Db, db1: Db, eventId: string, attempts: seq<Attempt>, reg: Registration)
    requires |attempts| > 0
    requires eventId in db.events
    requires forall i, j :: 0 <= i < j < |attempts| ==> attempts[i].userEmail != attempts[j].userEmail
    requires forall i :: 0 <= i < |attempts| ==> DupCount(db.registrations, eventId, attempts[i].userEmail) == 0
    requires db1 == db || (reg.userEmail == attempts[0].userEmail && reg.eventId in db.events && db1 == Booked(db, reg))
    ensures forall i, j :: 1 <= i < j < |attempts| ==> attempts[i].userEmail != attempts[j].userEmail
    ensures forall i :: 1 <= i < |attempts| ==> DupCount(db1.registrations, eventId, attempts[i].userEmail) == 0
  {
    if db1 != db {
      forall i | 1 <= i < |attempts| ensures DupCount(db1.registrations, eventId, attempts[i].userEmail) == 0 {
        DupCountAppend(db.registrations, reg, eventId, attempts[i].userEmail);
      }
    }
  }
}
