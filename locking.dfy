/**
 * The row lock and how a booking transaction ends.
 *
 * `Book` takes `SELECT … FOR UPDATE` on the event row and counts on a deferred
 * rollback to end the transaction on every error path. That deferred call
 * tests the local error variable, which the last successful query has
 * cleared by the time `Book` returns AlreadyRegistered or EventFull. Those
 * two returns therefore leave the transaction open: its pooled connection is
 * never released and the lock on the event row is never dropped, so every
 * later booking for that event waits on the lock until its own request is
 * cancelled.
 *
 * `held` below is the set of event rows still locked by such abandoned
 * transactions. `BookAsWritten` is the code as it stands; `BookReleasing`
 * ends the transaction on every path, which is what `Repository.Store.Book`
 * and `Repository.BookStep` model.
 */
module Locking {
  import opened Model
  import opened Repository
  import opened Booking

  /** What the caller of one booking observes: a returned result, or a call stuck waiting for the row lock. */
  datatype Call = Returned(result: Result<Registration>) | Blocked

  /**
   * One booking as written. A call on a row still locked blocks; any other
   * call has the outcome of the booking rule, and exactly the AlreadyRegistered
   * and EventFull outcomes leave the row locked behind them.
   */
  function BookAsWritten(db: Db, held: set<string>, a: Attempt): (r: (Db, set<string>, Call))
    ensures r.2 == Blocked <==> !FailsAt(a.fault, Begin) && a.eventId in held
    ensures r.2 == Blocked ==> r.0 == db && r.1 == held
    ensures r.2.Returned? ==> (r.0, r.2.result) == BookStep(db, a.eventId, a.userEmail, a.regId, a.now, a.fault)
    ensures r.1 == (if r.2 == Returned(Err(AlreadyRegistered)) || r.2 == Returned(Err(EventFull))
                    then held + {a.eventId} else held)
  {
    if FailsAt(a.fault, Begin) then
      (db, held, Returned(Err(FaultError(Begin, a.fault.cause))))
    else if a.eventId in held then
      (db, held, Blocked)
    else
      var (db', res) := BookStep(db, a.eventId, a.userEmail, a.regId, a.now, a.fault);
      var abandoned := res == Err(AlreadyRegistered) || res == Err(EventFull);
      (db', if abandoned then held + {a.eventId} else held, Returned(res))
  }

  /** One booking that rolls back on every failure: no lock outlives the call, and a returned call has the booking rule's outcome. */
  function BookReleasing(db: Db, held: set<string>, a: Attempt): (r: (Db, set<string>, Call))
    ensures r.1 == held
    ensures r.2 == Blocked <==> !FailsAt(a.fault, Begin) && a.eventId in held
    ensures r.2.Returned? ==> (r.0, r.2.result) == BookStep(db, a.eventId, a.userEmail, a.regId, a.now, a.fault)
  {
    if FailsAt(a.fault, Begin) then
      (db, held, Returned(Err(FaultError(Begin, a.fault.cause))))
    else if a.eventId in held then
      (db, held, Blocked)
    else
      var (db', res) := BookStep(db, a.eventId, a.userEmail, a.regId, a.now, a.fault);
      (db', held, Returned(res))
  }

  /** Bookings one after another as written: locks only accumulate. */
  function RunAsWritten(db: Db, held: set<string>, attempts: seq<Attempt>): (r: (Db, set<string>, seq<Call>))
    ensures |r.2| == |attempts|
    ensures held <= r.1
    decreases |attempts|
  {
    if attempts == [] then
      (db, held, [])
    else
      var (db1, held1, c) := BookAsWritten(db, held, attempts[0]);
      var (db2, held2, cs) := RunAsWritten(db1, held1, attempts[1..]);
      (db2, held2, [c] + cs)
  }

  /** Bookings one after another with the corrected ending: the set of locked rows never changes. */
  function RunReleasing(db: Db, held: set<string>, attempts: seq<Attempt>): (r: (Db, set<string>, seq<Call>))
    ensures |r.2| == |attempts|
    ensures r.1 == held
    decreases |attempts|
  {
    if attempts == [] then
      (db, held, [])
    else
      var (db1, held1, c) := BookReleasing(db, held, attempts[0]);
      var (db2, held2, cs) := RunReleasing(db1, held1, attempts[1..]);
      (db2, held2, [c] + cs)
  }

  /** The scenario below: one event with ten seats and no registrations yet. */
  function LaunchDb(): Db
  {
    Db(map["e1" := Event("e1", "Launch", "", 10, 0, 0)], ["e1"], [])
  }

  /** The same event after a@x.com has booked one seat. */
  function LaunchDbAfterFirst(): Db
  {
    Db(map["e1" := Event("e1", "Launch", "", 10, 1, 0)], ["e1"], [Registration("r1", "e1", "a@x.com", 1)])
  }

  function LaunchAttempts(): seq<Attempt>
  {
    [Attempt("e1", "a@x.com", "r1", 1, NoFault),
     Attempt("e1", "a@x.com", "r2", 2, NoFault),
     Attempt("e1", "b@x.com", "r3", 3, NoFault)]
  }

  lemma FirstLaunchBooking()
    ensures BookStep(LaunchDb(), "e1", "a@x.com", "r1", 1, NoFault)
         == (LaunchDbAfterFirst(), Ok(Registration("r1", "e1", "a@x.com", 1)))
  {
    var db := LaunchDb();
    assert DupCount([], "e1", "a@x.com") == 0;
    assert db.events["e1" := db.events["e1"].(bookedCount := 1)] == LaunchDbAfterFirst().events;
    assert [] + [Registration("r1", "e1", "a@x.com", 1)] == LaunchDbAfterFirst().registrations;
  }

  lemma SecondLaunchBooking()
    ensures BookStep(LaunchDbAfterFirst(), "e1", "a@x.com", "r2", 2, NoFault)
         == (LaunchDbAfterFirst(), Err(AlreadyRegistered))
  {
    assert DupCount(LaunchDbAfterFirst().registrations, "e1", "a@x.com") == 1;
  }

  lemma ThirdLaunchBooking()
    ensures BookStep(LaunchDbAfterFirst(), "e1", "b@x.com", "r3", 3, NoFault).1
         == Ok(Registration("r3", "e1", "b@x.com", 3))
  {
    assert ("a@x.com" == "b@x.com") == false by { assert "a@x.com"[0] != "b@x.com"[0]; }
    assert DupCount(LaunchDbAfterFirst().registrations, "e1", "b@x.com") == 0;
  }

  /**
   * The code as written: on an event with ten seats, booking a@x.com, then
   * a@x.com again, then b@x.com, leaves the third call waiting on the lock
   * that the second one never released, although a seat is free and the
   * serial booking rule books b@x.com.
   */
  lemma LeakedLockBlocksLaterBooking()
    ensures RunAsWritten(LaunchDb(), {}, LaunchAttempts()).2
         == [Returned(Ok(Registration("r1", "e1", "a@x.com", 1))), Returned(Err(AlreadyRegistered)), Blocked]
    ensures RunSerial(LaunchDb(), LaunchAttempts()).1[2] == Ok(Registration("r3", "e1", "b@x.com", 3))
  {
    var attempts := LaunchAttempts();
    var db1 := LaunchDbAfterFirst();
    var r1 := Registration("r1", "e1", "a@x.com", 1);
    FirstLaunchBooking();
    SecondLaunchBooking();
    ThirdLaunchBooking();
    assert attempts[1..][1..] == [attempts[2]];
    assert BookAsWritten(LaunchDb(), {}, attempts[0]) == (db1, {}, Returned(Ok(r1)));
    var noLocks: set<string> := {};
    assert attempts[1] == Attempt("e1", "a@x.com", "r2", 2, NoFault);
    assert noLocks + {"e1"} == {"e1"};
    assert BookAsWritten(db1, noLocks, attempts[1]) == (db1, {"e1"}, Returned(Err(AlreadyRegistered)));
    assert BookAsWritten(db1, {"e1"}, attempts[2]) == (db1, {"e1"}, Blocked);
    assert RunAsWritten(db1, {"e1"}, attempts[1..][1..]).2 == [Blocked];
    assert RunAsWritten(db1, {}, attempts[1..]).2 == [Returned(Err(AlreadyRegistered)), Blocked];
    var (db3, rs3) := RunSerial(db1, attempts[1..][1..]);
    assert rs3[0] == Ok(Registration("r3", "e1", "b@x.com", 3));
    var (db2, rs2) := RunSerial(db1, attempts[1..]);
    assert rs2 == [Err(AlreadyRegistered)] + rs3;
  }

  /**
   * The code as written: once a row is left locked, every later booking for
   * that event that gets as far as the lock blocks, whatever its e-mail and
   * whatever the seats left.
   */
  lemma {:induction false} HeldRowBlocksLaterBookings(db: Db, held: set<string>, attempts: seq<Attempt>, eventId: string)
    requires eventId in held
    ensures forall i :: 0 <= i < |attempts| && attempts[i].eventId == eventId && !FailsAt(attempts[i].fault, Begin) ==>
      RunAsWritten(db, held, attempts).2[i] == Blocked
    decreases |attempts|
  {
    if attempts != [] {
      var (db1, held1, c) := BookAsWritten(db, held, attempts[0]);
      HeldRowBlocksLaterBookings(db1, held1, attempts[1..], eventId);
      var (db2, held2, cs) := RunAsWritten(db1, held1, attempts[1..]);
      assert RunAsWritten(db, held, attempts).2 == [c] + cs;
      forall i | 0 < i < |attempts| ensures ([c] + cs)[i] == cs[i - 1] && attempts[i] == attempts[1..][i - 1] {
      }
    }
  }

  /** The second scenario: one event with a single seat and no registrations yet. */
  function SoloDb(): Db
  {
    Db(map["e1" := Event("e1", "Launch", "", 1, 0, 0)], ["e1"], [])
  }

  /** The same event after a@x.com has taken its only seat. */
  function SoloDbAfterFirst(): Db
  {
    Db(map["e1" := Event("e1", "Launch", "", 1, 1, 0)], ["e1"], [Registration("r1", "e1", "a@x.com", 1)])
  }

  function SoloAttempts(): seq<Attempt>
  {
    [Attempt("e1", "a@x.com", "r1", 1, NoFault),
     Attempt("e1", "b@x.com", "r2", 2, NoFault),
     Attempt("e1", "c@x.com", "r3", 3, NoFault)]
  }

  lemma FirstSoloBooking()
    ensures BookStep(SoloDb(), "e1", "a@x.com", "r1", 1, NoFault)
         == (SoloDbAfterFirst(), Ok(Registration("r1", "e1", "a@x.com", 1)))
  {
    var db := SoloDb();
    assert DupCount([], "e1", "a@x.com") == 0;
    assert db.events["e1" := db.events["e1"].(bookedCount := 1)] == SoloDbAfterFirst().events;
    assert [] + [Registration("r1", "e1", "a@x.com", 1)] == SoloDbAfterFirst().registrations;
  }

  /** Any e-mail other than a@x.com finds the single seat taken. */
  lemma LaterSoloBooking(email: string, regId: string, now: Time)
    requires email != "a@x.com"
    ensures BookStep(SoloDbAfterFirst(), "e1", email, regId, now, NoFault) == (SoloDbAfterFirst(), Err(EventFull))
  {
    assert DupCount(SoloDbAfterFirst().registrations, "e1", email) == 0;
  }

  /**
   * The code as written, on an event with one seat: a@x.com books it,
   * b@x.com is told EventFull and leaves the row locked, and c@x.com then
   * blocks, where the serial booking rule tells it EventFull.
   */
  lemma FullEventLeaksLock()
    ensures RunAsWritten(SoloDb(), {}, SoloAttempts()).2
         == [Returned(Ok(Registration("r1", "e1", "a@x.com", 1))), Returned(Err(EventFull)), Blocked]
    ensures RunSerial(SoloDb(), SoloAttempts()).1[2] == Err(EventFull)
  {
    var attempts := SoloAttempts();
    var db1 := SoloDbAfterFirst();
    var r1 := Registration("r1", "e1", "a@x.com", 1);
    FirstSoloBooking();
    assert ("b@x.com" == "a@x.com") == false by { assert "b@x.com"[0] != "a@x.com"[0]; }
    assert ("c@x.com" == "a@x.com") == false by { assert "c@x.com"[0] != "a@x.com"[0]; }
    LaterSoloBooking("b@x.com", "r2", 2);
    LaterSoloBooking("c@x.com", "r3", 3);
    assert attempts[1..][1..] == [attempts[2]];
    assert BookAsWritten(SoloDb(), {}, attempts[0]) == (db1, {}, Returned(Ok(r1)));
    var noLocks: set<string> := {};
    assert attempts[1] == Attempt("e1", "b@x.com", "r2", 2, NoFault);
    assert noLocks + {"e1"} == {"e1"};
    assert BookAsWritten(db1, noLocks, attempts[1]) == (db1, {"e1"}, Returned(Err(EventFull)));
    assert BookAsWritten(db1, {"e1"}, attempts[2]) == (db1, {"e1"}, Blocked);
    assert RunAsWritten(db1, {"e1"}, attempts[1..][1..]).2 == [Blocked];
    assert RunAsWritten(db1, {}, attempts[1..]).2 == [Returned(Err(EventFull)), Blocked];
    var (db3, rs3) := RunSerial(db1, attempts[1..][1..]);
    assert rs3[0] == Err(EventFull);
    var (db2, rs2) := RunSerial(db1, attempts[1..]);
    assert rs2 == [Err(EventFull)] + rs3;
  }

  /**
   * The corrected transaction: started with no abandoned lock, a run of
   * bookings never leaves one behind, never blocks, and is exactly the serial
   * booking rule.
   */
  lemma {:induction false} ReleasingRunNeverBlocks(db: Db, attempts: seq<Attempt>)
    ensures var (db', held', calls) := RunReleasing(db, {}, attempts);
      && held' == {}
      && db' == RunSerial(db, attempts).0
      && forall i :: 0 <= i < |calls| ==> calls[i] == Returned(RunSerial(db, attempts).1[i])
    decreases |attempts|
  {
    if attempts != [] {
      var a := attempts[0];
      var (db1, res) := BookStep(db, a.eventId, a.userEmail, a.regId, a.now, a.fault);
      ReleasingRunNeverBlocks(db1, attempts[1..]);
      var (db2, held2, cs) := RunReleasing(db1, {}, attempts[1..]);
      var (db3, rs) := RunSerial(db1, attempts[1..]);
      assert FailsAt(a.fault, Begin) ==> res == Err(FaultError(Begin, a.fault.cause));
      assert RunReleasing(db, {}, attempts) == (db2, held2, [Returned(res)] + cs);
      assert RunSerial(db, attempts) == (db3, [res] + rs);
      forall i | 0 <= i < |attempts| ensures ([Returned(res)] + cs)[i] == Returned(([res] + rs)[i]) {
        if i > 0 {
          assert ([Returned(res)] + cs)[i] == cs[i - 1];
          assert ([res] + rs)[i] == rs[i - 1];
        }
      }
    }
  }
}
