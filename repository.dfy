/**
 * The database behind the booking system: the events table (capacity and
 * live counter per event) and the registrations table, with the repository
 * operations that read and write them. Every operation runs as one atomic
 * step; calls for the same event are assumed to run one after another, which
 * is what the row lock taken by `Book` provides.
 */
module Repository {
  import opened Model

  /** The three sentinel errors, and every other (wrapped) database error by its text. */
  datatype Error = NotFound | EventFull | AlreadyRegistered | Failure(msg: string)

  /** The text of an error, as `Error()` reports it: a wrapped error carries its own message, a sentinel a fixed non-empty one. */
  function Text(e: Error): (t: string)
    ensures e.Failure? ==> t == e.msg
    ensures !e.Failure? ==> t != ""
  {
    match e
    case NotFound => "not found"
    case EventFull => "event is fully booked"
    case AlreadyRegistered => "email already registered for this event"
    case Failure(msg) => msg
  }

  datatype Result<T> = Ok(value: T) | Err(error: Error)

  /** The driver error a single query raises, if it fails. */
  datatype Option<T> = None | Some(value: T)

  /** The statements of the booking transaction, in the order they run. */
  datatype Stage = Begin | LockRow | CheckDuplicate | Increment | Insert | Commit

  /** Where, if anywhere, the database fails during one booking transaction, and the driver's text. */
  datatype Fault = NoFault | FailAt(stage: Stage, cause: string)

  predicate FailsAt(fault: Fault, stage: Stage)
  {
    fault.FailAt? && fault.stage == stage
  }

  /**
   * The wrapped error `Book` returns when the statement of a stage fails: never
   * one of the sentinels, and its message ends with the driver's text behind a
   * non-empty prefix naming the statement.
   */
  function FaultError(stage: Stage, cause: string): (r: Error)
    ensures r.Failure?
    ensures |r.msg| > |cause| && r.msg[|r.msg| - |cause|..] == cause
  {
    var prefix := match stage
      case Begin => "begin transaction: "
      case LockRow => "lock event row: "
      case CheckDuplicate => "check duplicate: "
      case Increment => "increment booked_count: "
      case Insert => "insert registration: "
      case Commit => "commit transaction: ";
    Failure(prefix + cause)
  }

  /** The contents of the database: events by id, their ids in creation order, and the registrations in insertion order. */
  datatype Db = Db(events: map<string, Event>, order: seq<string>, registrations: seq<Registration>)

  /** The registrations of one event, in table order. */
  function ForEvent(regs: seq<Registration>, eventId: string): (r: seq<Registration>)
    ensures |r| <= |regs|
    ensures forall x :: x in r <==> x in regs && x.eventId == eventId
  {
    if regs == [] then
      []
    else
      var last := regs[|regs| - 1];
      assert regs == regs[..|regs| - 1] + [last];
      ForEvent(regs[..|regs| - 1], eventId) + (if last.eventId == eventId then [last] else [])
  }

  lemma ForEventAppend(regs: seq<Registration>, reg: Registration, eventId: string)
    ensures ForEvent(regs + [reg], eventId)
         == ForEvent(regs, eventId) + (if reg.eventId == eventId then [reg] else [])
  {
    assert (regs + [reg])[..|regs|] == regs;
  }

  /** The number of registrations with this event id and e-mail address. */
  function DupCount(regs: seq<Registration>, eventId: string, email: string): (n: nat)
    ensures n > 0 <==> exists i :: 0 <= i < |regs| && regs[i].eventId == eventId && regs[i].userEmail == email
    ensures n <= |regs|
  {
    if regs == [] then
      0
    else
      var last := regs[|regs| - 1];
      var init := regs[..|regs| - 1];
      var n := DupCount(init, eventId, email);
      assert forall i :: 0 <= i < |init| ==> init[i] == regs[i];
      n + (if last.eventId == eventId && last.userEmail == email then 1 else 0)
  }

  /** Every event's counter lies within its capacity and equals the number of its registrations. */
  ghost predicate CountersAgree(db: Db)
  {
    forall id :: id in db.events ==>
      && db.events[id].id == id
      && 0 <= db.events[id].bookedCount <= db.events[id].capacity
      && |ForEvent(db.registrations, id)| == db.events[id].bookedCount
  }

  /** No registration outlives its event. */
  ghost predicate RegistrationsReferenceEvents(db: Db)
  {
    forall i :: 0 <= i < |db.registrations| ==> db.registrations[i].eventId in db.events
  }

  /** At most one registration per (event, e-mail) pair. */
  ghost predicate UniqueAttendees(regs: seq<Registration>)
  {
    forall i, j :: 0 <= i < j < |regs| ==>
      regs[i].eventId != regs[j].eventId || regs[i].userEmail != regs[j].userEmail
  }

  /** Registration ids are a primary key. */
  ghost predicate UniqueIds(regs: seq<Registration>)
  {
    forall i, j :: 0 <= i < j < |regs| ==> regs[i].id != regs[j].id
  }

  /** Registrations were inserted with non-decreasing creation times. */
  ghost predicate Chronological(regs: seq<Registration>)
  {
    forall i, j :: 0 <= i < j < |regs| ==> regs[i].createdAt <= regs[j].createdAt
  }

  /** `order` lists every event once, oldest first. */
  ghost predicate CreationOrder(db: Db)
  {
    && (forall id :: id in db.events <==> id in db.order)
    && (forall i, j :: 0 <= i < j < |db.order| ==> db.order[i] != db.order[j])
    && (forall i, j :: 0 <= i < j < |db.order| ==>
          db.order[i] in db.events && db.order[j] in db.events &&
          db.events[db.order[i]].createdAt <= db.events[db.order[j]].createdAt)
  }

  /** The invariant of every reachable database state. */
  ghost predicate Consistent(db: Db)
  {
    && CountersAgree(db)
    && RegistrationsReferenceEvents(db)
    && UniqueAttendees(db.registrations)
    && UniqueIds(db.registrations)
    && Chronological(db.registrations)
    && CreationOrder(db)
  }

  /** The id a booking generates is fresh and the clock has not gone back. */
  ghost predicate FreshRegistration(db: Db, regId: string, now: Time)
  {
    forall i :: 0 <= i < |db.registrations| ==>
      db.registrations[i].id != regId && db.registrations[i].createdAt <= now
  }

  /** One `Book` transaction over the database, as a pure transition: the new contents and the outcome. */
  function BookStep(db: Db, eventId: string, userEmail: string, regId: string, now: Time, fault: Fault)
    : (r: (Db, Result<Registration>))
    ensures r.1.Err? ==> r.0 == db
    ensures r.1.Ok? ==> && eventId in db.events
                        && r.1.value == Registration(regId, eventId, userEmail, now)
                        && r.0 == Booked(db, r.1.value)
  {
    if FailsAt(fault, Begin) || FailsAt(fault, LockRow) then
      (db, Err(FaultError(fault.stage, fault.cause)))
    else if eventId !in db.events then
      (db, Err(NotFound))
    else if FailsAt(fault, CheckDuplicate) then
      (db, Err(FaultError(fault.stage, fault.cause)))
    else if DupCount(db.registrations, eventId, userEmail) > 0 then
      (db, Err(AlreadyRegistered))
    else if db.events[eventId].bookedCount >= db.events[eventId].capacity then
      (db, Err(EventFull))
    else if fault.FailAt? then
      (db, Err(FaultError(fault.stage, fault.cause)))
    else
      var reg := Registration(regId, eventId, userEmail, now);
      (Booked(db, reg), Ok(reg))
  }

  /** `EventRepository.Create` as a pure transition. */
  function CreateStep(db: Db, req: CreateEventRequest, id: string, now: Time, dbError: Option<string>)
    : (r: (Db, Result<Event>))
    ensures r.1.Err? <==> dbError.Some?
    ensures r.1.Err? ==> r.0 == db && r.1.error == Failure("insert event: " + dbError.value)
    ensures r.1.Ok? ==> && r.1.value == Event(id, req.name, req.description, req.capacity, 0, now)
                        && r.0 == Created(db, r.1.value)
  {
    if dbError.Some? then
      (db, Err(Failure("insert event: " + dbError.value)))
    else
      var e := Event(id, req.name, req.description, req.capacity, 0, now);
      (Created(db, e), Ok(e))
  }

  /**
   * Every outcome of a booking keeps the invariant: counters stay within
   * capacity and equal to the number of registrations, and (event, e-mail)
   * pairs stay unique.
   */
  lemma BookPreservesConsistency(db: Db, eventId: string, userEmail: string, regId: string, now: Time, fault: Fault)
    requires Consistent(db)
    requires FreshRegistration(db, regId, now)
    ensures Consistent(BookStep(db, eventId, userEmail, regId, now, fault).0)
  {
    var (db', res) := BookStep(db, eventId, userEmail, regId, now, fault);
    if res.Ok? {
      assert db' == Booked(db, res.value);
      BookedStateConsistent(db, res.value);
    }
  }

  /** The database a successful booking commits: one more seat counted, one more registration. */
  function Booked(db: Db, reg: Registration): Db
    requires reg.eventId in db.events
  {
    var e := db.events[reg.eventId];
    db.(events := db.events[reg.eventId := e.(bookedCount := e.bookedCount + 1)],
        registrations := db.registrations + [reg])
  }

  /** The state a successful booking commits satisfies the invariant. */
  lemma BookedStateConsistent(db: Db, reg: Registration)
    requires Consistent(db)
    requires FreshRegistration(db, reg.id, reg.createdAt)
    requires reg.eventId in db.events
    requires DupCount(db.registrations, reg.eventId, reg.userEmail) == 0
    requires db.events[reg.eventId].bookedCount < db.events[reg.eventId].capacity
    ensures Consistent(Booked(db, reg))
  {
    var db' := Booked(db, reg);
    BookedCountersAgree(db, reg);
    BookedAttendeesUnique(db.registrations, reg);
    assert RegistrationsReferenceEvents(db');
    assert UniqueIds(db'.registrations);
    assert Chronological(db'.registrations);
    BookedCreationOrder(db, reg);
  }

  lemma BookedCountersAgree(db: Db, reg: Registration)
    requires CountersAgree(db)
    requires reg.eventId in db.events
    requires db.events[reg.eventId].bookedCount < db.events[reg.eventId].capacity
    ensures CountersAgree(Booked(db, reg))
  {
    var db' := Booked(db, reg);
    forall id | id in db'.events
      ensures db'.events[id].id == id
      ensures 0 <= db'.events[id].bookedCount <= db'.events[id].capacity
      ensures |ForEvent(db'.registrations, id)| == db'.events[id].bookedCount
    {
      ForEventAppend(db.registrations, reg, id);
    }
  }

  lemma BookedAttendeesUnique(regs: seq<Registration>, reg: Registration)
    requires UniqueAttendees(regs)
    requires DupCount(regs, reg.eventId, reg.userEmail) == 0
    ensures UniqueAttendees(regs + [reg])
  {
    var regs' := regs + [reg];
    forall i, j | 0 <= i < j < |regs'|
      ensures regs'[i].eventId != regs'[j].eventId || regs'[i].userEmail != regs'[j].userEmail
    {
      if j == |regs| {
        assert regs'[i] == regs[i] && regs'[j] == reg;
      } else {
        assert regs'[i] == regs[i] && regs'[j] == regs[j];
      }
    }
  }

  lemma BookedCreationOrder(db: Db, reg: Registration)
    requires CreationOrder(db)
    requires reg.eventId in db.events
    ensures CreationOrder(Booked(db, reg))
  {
    var db' := Booked(db, reg);
    assert db'.events.Keys == db.events.Keys;
    assert forall k :: k in db.events ==> db'.events[k].createdAt == db.events[k].createdAt;
  }

  /** The database after inserting a fresh event. */
  function Created(db: Db, e: Event): Db
  {
    db.(events := db.events[e.id := e], order := db.order + [e.id])
  }

  /**
   * Creating an event with a fresh id keeps the invariant exactly when its
   * capacity is not negative; the new event starts with no seat booked and no
   * registration.
   */
  lemma CreatePreservesConsistency(db: Db, req: CreateEventRequest, id: string, now: Time, dbError: Option<string>)
    requires Consistent(db)
    requires id !in db.events
    requires forall k :: k in db.events ==> db.events[k].createdAt <= now
    ensures var (db', res) := CreateStep(db, req, id, now, dbError);
      && (Consistent(db') <==> res.Err? || req.capacity >= 0)
      && (res.Ok? ==> res.value.bookedCount == 0 && ForEvent(db'.registrations, id) == [])
  {
    var (db', res) := CreateStep(db, req, id, now, dbError);
    if res.Ok? {
      var e := res.value;
      assert db' == Created(db, e);
      NoRegistrationsForOtherIds(db.registrations, id);
      if req.capacity >= 0 {
        CreatedCountersAgree(db, e);
        CreatedCreationOrder(db, e);
        assert RegistrationsReferenceEvents(db');
      } else {
        assert !(0 <= db'.events[id].bookedCount <= db'.events[id].capacity);
      }
    }
  }

  lemma CreatedCountersAgree(db: Db, e: Event)
    requires CountersAgree(db) && RegistrationsReferenceEvents(db)
    requires e.id !in db.events
    requires e.bookedCount == 0 <= e.capacity
    ensures CountersAgree(Created(db, e))
  {
    var db' := Created(db, e);
    forall id | id in db'.events
      ensures db'.events[id].id == id
      ensures 0 <= db'.events[id].bookedCount <= db'.events[id].capacity
      ensures |ForEvent(db'.registrations, id)| == db'.events[id].bookedCount
    {
      if id == e.id {
        NoRegistrationsForOtherIds(db.registrations, id);
      }
    }
  }

  /** An event id that no registration mentions has no registrations. */
  lemma {:induction false} NoRegistrationsForOtherIds(regs: seq<Registration>, eventId: string)
    requires forall i :: 0 <= i < |regs| ==> regs[i].eventId != eventId
    ensures ForEvent(regs, eventId) == []
  {
    if regs != [] {
      NoRegistrationsForOtherIds(regs[..|regs| - 1], eventId);
    }
  }

  lemma CreatedCreationOrder(db: Db, e: Event)
    requires CreationOrder(db)
    requires e.id !in db.events
    requires forall k :: k in db.events ==> db.events[k].createdAt <= e.createdAt
    ensures CreationOrder(Created(db, e))
  {
    var db' := Created(db, e);
    var n := |db.order|;
    forall i, j | 0 <= i < j < |db'.order|
      ensures db'.order[i] != db'.order[j]
      ensures db'.order[i] in db'.events && db'.order[j] in db'.events
      ensures db'.events[db'.order[i]].createdAt <= db'.events[db'.order[j]].createdAt
    {
      assert db'.order[i] == db.order[i];
      if j < n {
        assert db'.order[j] == db.order[j];
      } else {
        assert db.order[i] in db.events;
      }
    }
  }

  /** The listing of `List`: the events, newest first. */
  function NewestFirst(db: Db): (r: seq<Event>)
    requires forall i :: 0 <= i < |db.order| ==> db.order[i] in db.events
  {
    seq(|db.order|, k requires 0 <= k < |db.order| => db.events[db.order[|db.order| - 1 - k]])
  }

  /**
   * The database itself. The fields are its two tables; `order` stands for
   * `ORDER BY created_at` on the events table.
   */
  class Store {
    var events: map<string, Event>
    var order: seq<string>
    var registrations: seq<Registration>

    function State(): Db
      reads this
    {
      Db(events, order, registrations)
    }

    ghost predicate Valid()
      reads this
    {
      Consistent(State())
    }

    /** An empty database. */
    constructor ()
      ensures Valid()
      ensures State() == Db(map[], [], [])
    {
      events, order, registrations := map[], [], [];
    }

    /**
     * `EventRepository.Create`: inserts an event with the given fresh id and
     * timestamp and a counter of 0. The repository does not check the
     * capacity, so the invariant survives exactly when it is not negative.
     */
    method Create(req: CreateEventRequest, id: string, now: Time, dbError: Option<string>) returns (res: Result<Event>)
      requires Valid()
      requires id !in events
      requires forall k :: k in events ==> events[k].createdAt <= now
      modifies this
      ensures (State(), res) == CreateStep(old(State()), req, id, now, dbError)
      ensures Valid() <==> res.Err? || req.capacity >= 0
      ensures res.Ok? ==> res.value.bookedCount == 0 && res.value.id == id && res.value.capacity == req.capacity
      ensures res.Err? ==> State() == old(State())
    {
      ghost var before := State();
      CreatePreservesConsistency(before, req, id, now, dbError);
      var event := Event(id, req.name, req.description, req.capacity, 0, now);
      if dbError.Some? {
        return Err(Failure("insert event: " + dbError.value));
      }
      events := events[id := event];
      order := order + [id];
      res := Ok(event);
    }

    /** `EventRepository.List`: every event exactly once, newest first. */
    method List(dbError: Option<string>) returns (res: Result<seq<Event>>)
      requires Valid()
      ensures dbError.Some? ==> res == Err(Failure("list events: " + dbError.value))
      ensures dbError.None? ==> res.Ok?
      ensures res.Ok? ==> res.value == NewestFirst(State())
      ensures res.Ok? ==> forall e :: e in res.value <==> e in events.Values
      ensures res.Ok? ==> forall i, j :: 0 <= i < j < |res.value| ==>
                res.value[i].createdAt >= res.value[j].createdAt && res.value[i].id != res.value[j].id
    {
      if dbError.Some? {
        return Err(Failure("list events: " + dbError.value));
      }
      var listed: seq<Event> := [];
      var i := |order|;
      while i > 0
        invariant 0 <= i <= |order|
        invariant |listed| == |order| - i
        invariant forall k :: 0 <= k < |listed| ==> listed[k] == events[order[|order| - 1 - k]]
      {
        listed := listed + [events[order[i - 1]]];
        i := i - 1;
      }
      ListingCoversEvents(State(), listed);
      res := Ok(listed);
    }

    /** `EventRepository.GetByID`: the stored event unchanged, or NotFound. */
    method GetByID(id: string, dbError: Option<string>) returns (res: Result<Event>)
      ensures res.Ok? <==> dbError.None? && id in events
      ensures res.Ok? ==> res.value == events[id]
      ensures dbError.None? && id !in events ==> res == Err(NotFound)
      ensures dbError.Some? ==> res == Err(Failure("get event: " + dbError.value))
    {
      if dbError.Some? {
        return Err(Failure("get event: " + dbError.value));
      }
      if id !in events {
        return Err(NotFound);
      }
      res := Ok(events[id]);
    }

    /**
     * `RegistrationRepository.Book`: one booking transaction. The event row is
     * looked up (NotFound), the (event, e-mail) pair checked (AlreadyRegistered),
     * the counter compared with the capacity (EventFull); only then are the
     * counter incremented and the registration inserted, and a failure of
     * either statement or of the commit rolls both back.
     */
    method Book(eventId: string, userEmail: string, regId: string, now: Time, fault: Fault)
      returns (res: Result<Registration>)
      requires Valid()
      requires FreshRegistration(State(), regId, now)
      modifies this
      ensures Valid()
      ensures (State(), res) == BookStep(old(State()), eventId, userEmail, regId, now, fault)
      ensures res.Err? ==> State() == old(State())
    {
      ghost var before := State();
      if FailsAt(fault, Begin) {
        return Err(FaultError(Begin, fault.cause));
      }
      // What a rollback restores.
      var snapshot := State();

      // Step 1: lock the event row and read its counter.
      if FailsAt(fault, LockRow) {
        return Err(FaultError(LockRow, fault.cause));
      }
      if eventId !in events {
        return Err(NotFound);
      }
      var capacity, bookedCount := events[eventId].capacity, events[eventId].bookedCount;

      // Step 2: the duplicate check.
      if FailsAt(fault, CheckDuplicate) {
        return Err(FaultError(CheckDuplicate, fault.cause));
      }
      var dupCount := DupCount(registrations, eventId, userEmail);
      if dupCount > 0 {
        return Err(AlreadyRegistered);
      }

      // Step 3: the capacity guard.
      if bookedCount >= capacity {
        return Err(EventFull);
      }

      // Step 4: increment the counter.
      if FailsAt(fault, Increment) {
        return Err(FaultError(Increment, fault.cause));
      }
      var e := events[eventId];
      events := events[eventId := e.(bookedCount := e.bookedCount + 1)];

      // Step 5: insert the registration.
      var reg := Registration(regId, eventId, userEmail, now);
      if FailsAt(fault, Insert) {
        events, order, registrations := snapshot.events, snapshot.order, snapshot.registrations;
        return Err(FaultError(Insert, fault.cause));
      }
      registrations := registrations + [reg];
      assert State() == Booked(before, reg);
      BookedStateConsistent(before, reg);

      // Step 6: commit.
      if FailsAt(fault, Commit) {
        events, order, registrations := snapshot.events, snapshot.order, snapshot.registrations;
        return Err(FaultError(Commit, fault.cause));
      }
      res := Ok(reg);
    }

    /** `RegistrationRepository.ListByEvent`: exactly the event's registrations, oldest first. */
    method ListByEvent(eventId: string, dbError: Option<string>) returns (res: Result<seq<Registration>>)
      requires Valid()
      ensures dbError.Some? ==> res == Err(Failure("list registrations: " + dbError.value))
      ensures dbError.None? ==> res == Ok(ForEvent(registrations, eventId))
      ensures res.Ok? ==> forall r :: r in res.value <==> r in registrations && r.eventId == eventId
      ensures res.Ok? ==> forall i, j :: 0 <= i < j < |res.value| ==> res.value[i].createdAt <= res.value[j].createdAt
      ensures res.Ok? && eventId in events ==> |res.value| == events[eventId].bookedCount
    {
      if dbError.Some? {
        return Err(Failure("list registrations: " + dbError.value));
      }
      var regs: seq<Registration> := [];
      var i := 0;
      while i < |registrations|
        invariant 0 <= i <= |registrations|
        invariant regs == ForEvent(registrations[..i], eventId)
      {
        assert registrations[..i + 1][..i] == registrations[..i];
        if registrations[i].eventId == eventId {
          regs := regs + [registrations[i]];
        }
        i := i + 1;
      }
      assert registrations[..i] == registrations;
      ForEventChronological(registrations, eventId);
      res := Ok(regs);
    }
  }

  /** The registrations of one event keep the order of the table, so they stay oldest first. */
  lemma {:induction false} ForEventChronological(regs: seq<Registration>, eventId: string)
    requires Chronological(regs)
    ensures Chronological(ForEvent(regs, eventId))
  {
    if regs != [] {
      var init := regs[..|regs| - 1];
      var last := regs[|regs| - 1];
      assert Chronological(init) by {
        forall i, j | 0 <= i < j < |init| ensures init[i].createdAt <= init[j].createdAt {
          assert init[i] == regs[i] && init[j] == regs[j];
        }
      }
      ForEventChronological(init, eventId);
      var f := ForEvent(init, eventId);
      forall x | x in f ensures x.createdAt <= last.createdAt {
        var k :| 0 <= k < |init| && init[k] == x;
        assert regs[k] == x;
      }
    }
  }

  /** The newest-first listing holds every stored event, once, with non-increasing creation times. */
  lemma ListingCoversEvents(db: Db, listed: seq<Event>)
    requires Consistent(db)
    requires |listed| == |db.order|
    requires forall k :: 0 <= k < |listed| ==> listed[k] == db.events[db.order[|db.order| - 1 - k]]
    ensures listed == NewestFirst(db)
    ensures forall e :: e in listed <==> e in db.events.Values
    ensures forall i, j :: 0 <= i < j < |listed| ==> listed[i].createdAt >= listed[j].createdAt && listed[i].id != listed[j].id
  {
    assert forall id :: id in db.events ==> db.events[id].id == id;
    ListingHasEveryEvent(db, listed);
    ListingNewestFirst(db, listed);
  }

  /** Every event in the table occurs in a listing that follows `order` backwards. */
  lemma ListingHasEveryEvent(db: Db, listed: seq<Event>)
    requires CreationOrder(db)
    requires |listed| == |db.order|
    requires forall k :: 0 <= k < |listed| ==> listed[k] == db.events[db.order[|db.order| - 1 - k]]
    ensures forall e :: e in listed <==> e in db.events.Values
  {
    var n := |db.order|;
    forall e | e in db.events.Values ensures e in listed {
      var id :| id in db.events && db.events[id] == e;
      var p :| 0 <= p < n && db.order[p] == id;
      assert listed[n - 1 - p] == e;
    }
  }

  /** A listing that follows `order` backwards has non-increasing creation times and distinct ids. */
  lemma ListingNewestFirst(db: Db, listed: seq<Event>)
    requires CreationOrder(db)
    requires forall id :: id in db.events ==> db.events[id].id == id
    requires |listed| == |db.order|
    requires forall k :: 0 <= k < |listed| ==> listed[k] == db.events[db.order[|db.order| - 1 - k]]
    ensures forall i, j :: 0 <= i < j < |listed| ==> listed[i].createdAt >= listed[j].createdAt && listed[i].id != listed[j].id
  {
    var n := |db.order|;
    forall i, j | 0 <= i < j < |listed|
      ensures listed[i].createdAt >= listed[j].createdAt && listed[i].id != listed[j].id
    {
      var a, b := db.order[n - 1 - j], db.order[n - 1 - i];
      assert a != b;
      assert db.events[a].id == a && db.events[b].id == b;
    }
  }
}
