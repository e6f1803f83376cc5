/**
 * The service layer: input validation and normalisation in front of the
 * repository. The checks are pure functions; the operations are methods of
 * `EventService`, which owns the store they call into.
 */
module Service {
  import opened Model
  import opened Strings
  import opened Repository
  import opened Booking

  /** The largest capacity an event may be created with. */
  const MaxCapacity := 100000

  /**
   * The guard chain of `CreateEvent`: the trimmed name must be non-empty, then
   * the capacity positive, then at most MaxCapacity; an accepted request
   * carries the trimmed name and is otherwise unchanged.
   */
  function CheckCreateRequest(req: CreateEventRequest): (r: Result<CreateEventRequest>)
    ensures r.Ok? <==> !AllSpace(req.name) && 1 <= req.capacity <= MaxCapacity
    ensures r.Ok? ==> r.value == req.(name := TrimSpace(req.name))
    ensures r.Ok? ==> r.value.name != [] && !IsSpace(r.value.name[0]) && !IsSpace(r.value.name[|r.value.name| - 1])
    ensures AllSpace(req.name) ==> r == Err(Failure("event name is required"))
    ensures !AllSpace(req.name) && req.capacity <= 0 ==> r == Err(Failure("capacity must be a positive integer"))
    ensures !AllSpace(req.name) && req.capacity > MaxCapacity ==> r == Err(Failure("capacity cannot exceed 100,000"))
  {
    var name := TrimSpace(req.name);
    if name == "" then
      Err(Failure("event name is required"))
    else if req.capacity <= 0 then
      Err(Failure("capacity must be a positive integer"))
    else if req.capacity > MaxCapacity then
      Err(Failure("capacity cannot exceed 100,000"))
    else
      Ok(req.(name := name))
  }

  /**
   * `isValidEmail`: splitting at '@' gives exactly two pieces, the first
   * non-empty and the second containing a '.'.
   */
  predicate IsValidEmail(email: string): (valid: bool)
    ensures valid ==> '@' in email && email[0] != '@' && email[|email| - 1] != '@'
  {
    var parts := Split(email, '@');
    |parts| == 2 && |parts[0]| > 0 && '.' in parts[1]
  }

  /**
   * The structural test holds exactly when the address has one '@', at a
   * position k > 0, and a '.' somewhere after it.
   */
  lemma IsValidEmailIff(email: string)
    ensures IsValidEmail(email) <==>
      exists k :: 0 < k < |email| && email[k] == '@' && '@' !in email[..k] && '@' !in email[k + 1..] &&
        '.' in email[k + 1..]
  {
    if IsValidEmail(email) {
      var k := IndexOf(email, '@');
      assert Split(email, '@') == [email[..k]] + Split(email[k + 1..], '@');
      assert email[k] == '@';
    }
    if exists k :: 0 < k < |email| && email[k] == '@' && '@' !in email[..k] && '@' !in email[k + 1..] &&
         '.' in email[k + 1..]
    {
      var k :| 0 < k < |email| && email[k] == '@' && '@' !in email[..k] && '@' !in email[k + 1..] &&
        '.' in email[k + 1..];
      assert IndexOf(email, '@') == k;
      assert Split(email[k + 1..], '@') == [email[k + 1..]];
    }
  }

  /**
   * The attendee key: `TrimSpace(ToLower(email))`. It is the input's middle,
   * lower-cased, with only white space cut away before and after it; it has no
   * upper-case letter and no white space at either end.
   */
  function NormalizeEmail(email: string): (key: string)
    ensures forall i :: 0 <= i < |key| ==> !IsUpper(key[i])
    ensures key == [] || (!IsSpace(key[0]) && !IsSpace(key[|key| - 1]))
    ensures key == [] <==> AllSpace(email)
    ensures exists i :: 0 <= i <= |email| - |key| && AllSpace(email[..i]) && AllSpace(email[i + |key|..]) &&
                        key == ToLower(email[i..i + |key|])
  {
    ToLowerKeepsSpace(email);
    LowerThenTrim(email);
    TrimSpace(ToLower(email))
  }

  /**
   * Addresses that differ only in the case of their letters and in white space
   * around them get the same attendee key.
   */
  lemma NormalizeEmailIgnoresCaseAndPadding(w1: string, s: string, w2: string, t: string)
    requires AllSpace(w1) && AllSpace(w2)
    requires SameUpToCase(s, t)
    ensures NormalizeEmail(w1 + s + w2) == NormalizeEmail(t)
  {
    ToLowerPadded(w1, s, w2);
    ToLowerIgnoresCase(s, t);
    TrimSpacePadded(w1, ToLower(s), w2);
  }

  /** Normalising twice is normalising once, so a key always maps to itself. */
  lemma NormalizeEmailIdempotent(email: string)
    ensures NormalizeEmail(NormalizeEmail(email)) == NormalizeEmail(email)
  {
    var key := NormalizeEmail(email);
    ToLowerFixed(key);
    TrimSpaceFixed(key);
  }

  /**
   * The guard chain of `Register`: the normalised e-mail must be non-empty,
   * then structurally valid, then the event id non-empty; an accepted request
   * yields the attendee key passed to `Book`.
   */
  function CheckRegistration(eventId: string, email: string): (r: Result<string>)
    ensures r.Ok? <==> IsValidEmail(NormalizeEmail(email)) && eventId != ""
    ensures r.Ok? ==> r.value == NormalizeEmail(email)
    ensures AllSpace(email) ==> r == Err(Failure("user_email is required"))
    ensures !AllSpace(email) && !IsValidEmail(NormalizeEmail(email)) ==>
              r == Err(Failure("user_email is not a valid email address"))
    ensures IsValidEmail(NormalizeEmail(email)) && eventId == "" ==> r == Err(Failure("event id is required"))
  {
    var key := NormalizeEmail(email);
    if key == "" then
      assert Split(key, '@') == [key];
      Err(Failure("user_email is required"))
    else if !IsValidEmail(key) then
      Err(Failure("user_email is not a valid email address"))
    else if eventId == "" then
      Err(Failure("event id is required"))
    else
      Ok(key)
  }

  /**
   * How `Register` reports a booking error: the three sentinels unchanged,
   * every other error wrapped with the operation's name.
   */
  function RegisterError(e: Error): (r: Error)
    ensures e.Failure? <==> r.Failure?
    ensures !e.Failure? ==> r == e
    ensures e.Failure? ==> r.msg == "register for event: " + e.msg
  {
    match e
    case Failure(msg) => Failure("register for event: " + msg)
    case _ => e
  }

  /** What `Register` returns for the outcome of `Book`. */
  function RegisterResult(res: Result<Registration>): Result<Registration>
  {
    match res
    case Ok(reg) => Ok(reg)
    case Err(e) => Err(RegisterError(e))
  }

  /**
   * E-mails that differ only in case or surrounding white space are the same
   * attendee: once `email` is booked for an event, registering `w1 + s + w2`
   * (with `s` equal to `email` up to case and `w1`, `w2` white space) for that
   * event is told AlreadyRegistered by the booking step, as long as that
   * booking begins, locks the row and checks for duplicates without a
   * database error.
   */
  lemma SameKeySameAttendee(db: Db, eventId: string, email: string, w1: string, s: string, w2: string,
                            id1: string, t1: Time, id2: string, t2: Time, fault2: Fault)
    requires AllSpace(w1) && AllSpace(w2) && SameUpToCase(s, email)
    requires BookStep(db, eventId, NormalizeEmail(email), id1, t1, NoFault).1.Ok?
    requires LockTaken(fault2) && !FailsAt(fault2, CheckDuplicate)
    ensures var db1 := BookStep(db, eventId, NormalizeEmail(email), id1, t1, NoFault).0;
      RegisterResult(BookStep(db1, eventId, NormalizeEmail(w1 + s + w2), id2, t2, fault2).1) == Err(AlreadyRegistered)
  {
    NormalizeEmailIgnoresCaseAndPadding(w1, s, w2, email);
    RebookingIsAlreadyRegistered(db, eventId, NormalizeEmail(email), id1, t1, id2, t2, fault2);
  }

  /** The service object: business operations over one database. */
  class EventService {
    const repo: Store

    constructor (repo: Store)
      ensures this.repo == repo
    {
      this.repo := repo;
    }

    /**
     * `CreateEvent`: a rejected request changes nothing; an accepted one is
     * created with the trimmed name, so every event created through the
     * service has a capacity in [1, MaxCapacity] and keeps the invariant.
     */
    method CreateEvent(req: CreateEventRequest, id: string, now: Time, dbError: Option<string>)
      returns (res: Result<Event>)
      requires repo.Valid()
      requires id !in repo.events
      requires forall k :: k in repo.events ==> repo.events[k].createdAt <= now
      modifies repo
      ensures repo.Valid()
      ensures CheckCreateRequest(req).Err? ==> res == Err(CheckCreateRequest(req).error) && repo.State() == old(repo.State())
      ensures CheckCreateRequest(req).Ok? ==>
                (repo.State(), res) == CreateStep(old(repo.State()), CheckCreateRequest(req).value, id, now, dbError)
      ensures res.Ok? ==> 1 <= res.value.capacity <= MaxCapacity && res.value.bookedCount == 0 &&
                          res.value.name == TrimSpace(req.name) && repo.events == old(repo.events)[id := res.value]
    {
      var checked := CheckCreateRequest(req);
      if checked.Err? {
        return Err(checked.error);
      }
      res := repo.Create(checked.value, id, now, dbError);
    }

    /** `ListEvents`: the repository's listing, unchanged. */
    method ListEvents(dbError: Option<string>) returns (res: Result<seq<Event>>)
      requires repo.Valid()
      ensures dbError.Some? ==> res == Err(Failure("list events: " + dbError.value))
      ensures dbError.None? ==> res == Ok(NewestFirst(repo.State()))
    {
      res := repo.List(dbError);
    }

    /** `GetEvent`: an empty id is rejected, NotFound passes through, other errors are wrapped once more. */
    method GetEvent(id: string, dbError: Option<string>) returns (res: Result<Event>)
      ensures id == "" ==> res == Err(Failure("event id is required"))
      ensures id != "" && dbError.None? && id in repo.events ==> res == Ok(repo.events[id])
      ensures id != "" && dbError.None? && id !in repo.events ==> res == Err(NotFound)
      ensures id != "" && dbError.Some? ==> res == Err(Failure("get event: " + ("get event: " + dbError.value)))
    {
      if id == "" {
        return Err(Failure("event id is required"));
      }
      var found := repo.GetByID(id, dbError);
      if found.Ok? {
        res := Ok(found.value);
      } else if found.error == NotFound {
        res := Err(NotFound);
      } else {
        res := Err(Failure("get event: " + Text(found.error)));
      }
    }

    /**
     * `Register`: normalise the e-mail, reject a bad request before any
     * booking is attempted (the store is then unchanged), otherwise book with
     * the attendee key and report the outcome through RegisterError.
     */
    method Register(eventId: string, email: string, regId: string, now: Time, fault: Fault)
      returns (res: Result<Registration>)
      requires repo.Valid()
      requires FreshRegistration(repo.State(), regId, now)
      modifies repo
      ensures repo.Valid()
      ensures CheckRegistration(eventId, email).Err? ==>
                res == Err(CheckRegistration(eventId, email).error) && repo.State() == old(repo.State())
      ensures CheckRegistration(eventId, email).Ok? ==>
                var (db', booked) := BookStep(old(repo.State()), eventId, NormalizeEmail(email), regId, now, fault);
                repo.State() == db' && res == RegisterResult(booked)
      ensures res.Ok? ==> res.value.userEmail == NormalizeEmail(email) && res.value.eventId == eventId
    {
      var checked := CheckRegistration(eventId, email);
      if checked.Err? {
        return Err(checked.error);
      }
      ghost var before := repo.State();
      var key := checked.value;
      BookOutcomes(before, eventId, key, regId, now, fault);
      var booked := repo.Book(eventId, key, regId, now, fault);
      assert (repo.State(), booked) == BookStep(before, eventId, key, regId, now, fault);
      res := RegisterResult(booked);
    }

    /**
     * `ListRegistrations`: any failure to find the event (absent id or a
     * database error) is reported as NotFound; otherwise the event's
     * registrations, oldest first.
     */
    method ListRegistrations(eventId: string, lookupError: Option<string>, listError: Option<string>)
      returns (res: Result<seq<Registration>>)
      requires repo.Valid()
      ensures lookupError.Some? || eventId !in repo.events ==> res == Err(NotFound)
      ensures lookupError.None? && eventId in repo.events && listError.None? ==>
                res == Ok(ForEvent(repo.registrations, eventId))
      ensures lookupError.None? && eventId in repo.events && listError.Some? ==>
                res == Err(Failure("list registrations: " + listError.value))
      ensures res.Ok? ==> |res.value| == repo.events[eventId].bookedCount
    {
      var found := repo.GetByID(eventId, lookupError);
      if found.Err? {
        return Err(NotFound);
      }
      res := repo.ListByEvent(eventId, listError);
    }
  }
}
