# Event booking: a verified model of the reservation rule

This project models the core of an event-registration service written in Go.
Organisers create events with a fixed capacity. Attendees book a seat by e-mail
address. The database holds an `events` table (capacity and a live
`booked_count` per event) and a `registrations` table (id, event id, e-mail,
creation time). `RegistrationRepository.Book` runs one booking as a
transaction. It locks the event row, rejects a missing event (NotFound), then
an (event, e-mail) pair that is already registered (AlreadyRegistered), then a
full event (EventFull). Only after those checks does it increment the counter
and insert the registration, together or not at all.

The model is sequential. Each repository call is one atomic step, and calls
for the same event run one after another. The source gets that ordering from
the `SELECT … FOR UPDATE` row lock, provided every transaction ends on every
path. As written it does not (see Findings): the first AlreadyRegistered or
EventFull on an event leaves its row locked, so every later booking for that
event blocks. The serial results below are therefore about a transaction that
ends on every path (`Locking.BookReleasing`, equal to `Booking.RunSerial` by
`Locking.ReleasingRunNeverBlocks`). Under that assumption the model proves:

- every outcome of `Book` preserves the store invariant:
  - `0 <= bookedCount <= capacity`;
  - the number of an event's registrations equals its `bookedCount`;
  - every registration refers to an existing event;
  - (event, e-mail) pairs and registration ids are unique;
  - registrations are in creation order;
- N serial attempts on one event, with distinct e-mails not yet registered
  for it and no database error, yield exactly min(N, remaining seats)
  successes, and every other attempt gets EventFull (with the transaction
  ending on every path; as written, the attempts after the first EventFull
  block instead);
- the service layer's own checks: the name and capacity guards, e-mail
  normalisation, and the structural e-mail test.

Files and modules:

- `model.dfy` (`Model`): the `Event` and `Registration` records, `Remaining`, `IsFull`.
- `strings.dfy` (`Strings`): Go's `unicode.IsSpace`, `strings.TrimSpace`, `ToLower` (ASCII letters), `Index`, `Split` (one-character separator) and `Join`.
- `repository.dfy` (`Repository`):
  - the database as a value `Db`;
  - the invariant `Consistent`;
  - the transitions `BookStep` and `CreateStep`;
  - the class `Store`, whose methods `Create`, `List`, `GetByID`, `Book` and `ListByEvent` change or read its fields and are proved against those transitions.
- `booking.dfy` (`Booking`): properties of the booking rule, one attempt at a time and over a serial run of attempts.
- `locking.dfy` (`Locking`): the transaction-ending defect described under Findings.
- `service.dfy` (`Service`): the validation functions and the class `EventService` (`CreateEvent`, `ListEvents`, `GetEvent`, `Register`, `ListRegistrations`) over a `Store`.

Inputs the code gets from the outside are method parameters:

- fresh UUIDs (`id`, `regId`), with freshness as a precondition;
- readings of `time.Now()` (`now`), which must not go back;
- database failures: `Fault` says which statement of the booking transaction fails and with what driver text; `Option<string>` gives the driver error of a single query.

## Model

| member | source | states |
|---|---|---|
| `Model.Event.Remaining` | internal/model/model.go:16-19 | booked plus remaining seats make up the capacity; under `0 <= booked <= capacity` the remaining count lies in [0, capacity]; it equals the capacity exactly when nothing is booked |
| `Model.Event.IsFull` | internal/model/model.go:21-24 | an event is full exactly when no seat remains (`Remaining() <= 0`), and within bounds exactly when `Remaining() == 0` |
| `Repository.Text` | internal/repository/repository.go:17-24 | a wrapped error's text is its own message; each of the three sentinels has a fixed, non-empty text |
| `Repository.FaultError` | internal/repository/repository.go:138-216 | a failing statement of the booking transaction yields a wrapped error, never a sentinel, whose message ends with the driver's text behind a non-empty prefix |
| `Repository.BookStep` | internal/repository/repository.go:136-219 | one booking transaction as a transition: every error leaves the database unchanged; a success returns a registration with the requested id, event, e-mail and time, and commits exactly one more seat and that one registration |
| `Repository.CreateStep` | internal/repository/repository.go:36-56 | an event insert fails exactly when the driver reports an error, wrapped as "insert event: …", and then changes nothing; otherwise the event has the request's fields, counter 0 and the new id, and is added to the table and the creation order |
| `Repository.DupCount` | internal/repository/repository.go:171-181 | the duplicate count is positive exactly when some registration has this event id and e-mail |
| `Repository.ForEvent` | internal/repository/repository.go:222-228 | the rows for one event are exactly the stored registrations with that event id |
| `Repository.Store.Create` | internal/repository/repository.go:36-56 | inserts the event with the given fresh id, the request's fields and counter 0, or changes nothing on an insert error; the invariant survives exactly when the capacity is not negative, since the repository does not check it |
| `Repository.CreatePreservesConsistency` | internal/repository/repository.go:37-45 | creating an event with a fresh id keeps the store invariant if and only if its capacity is not negative; the new event has counter 0 and no registrations |
| `Repository.Store.List` | internal/repository/repository.go:58-79 | on success, every stored event exactly once, newest first (non-increasing creation time); a query error gives the wrapped "list events" error |
| `Repository.ListingCoversEvents` | internal/repository/repository.go:59-63 | the newest-first listing holds exactly the stored events, with distinct ids and non-increasing creation times |
| `Repository.Store.GetByID` | internal/repository/repository.go:81-96 | the stored event unchanged when present; NotFound when absent; the wrapped "get event" error on a query error |
| `Repository.Store.Book` | internal/repository/repository.go:136-219 | a single booking transaction: keeps the store invariant, its new state and result are those of `BookStep`, and any error leaves the store exactly as before (a failed increment, insert or commit is rolled back) |
| `Repository.BookPreservesConsistency` | internal/repository/repository.go:136-219 | every outcome of a booking preserves the counters-within-capacity, counters-equal-registrations, foreign-key, (event, e-mail) uniqueness, id uniqueness and ordering invariants |
| `Repository.BookedStateConsistent` | internal/repository/repository.go:188-211 | the state a successful booking commits (counter + 1, one registration appended) satisfies the invariant when the pair was unregistered and a seat was free |
| `Repository.Store.ListByEvent` | internal/repository/repository.go:221-244 | on success, exactly the registrations with that event id, oldest first, and as many as the event's counter; a query error gives the wrapped "list registrations" error |
| `Repository.ForEventChronological` | internal/repository/repository.go:224-227 | the registrations of one event come out in non-decreasing creation time, as `ORDER BY created_at ASC` promises |
| `Booking.BookOutcomes` | internal/repository/repository.go:156-218 | NotFound iff the event is missing; AlreadyRegistered iff the pair is registered; EventFull iff unregistered and `IsFull()`; success iff no database error, present, unregistered and not full; every error changes nothing; success appends the registration with the requested fields and adds exactly one to that event's counter |
| `Booking.DuplicateCheckedBeforeCapacity` | internal/repository/repository.go:179-186 | an already registered e-mail on a full event is told AlreadyRegistered, not EventFull, and nothing changes |
| `Booking.FullEventGainsNothing` | internal/repository/repository.go:184-186 | when `IsFull()` holds, a booking never succeeds and the event's registrations stay the same |
| `Booking.BookLeavesOtherEventsAlone` | internal/repository/repository.go:189-192 | a booking leaves every other event's record and that event's registrations unchanged |
| `Booking.RebookingIsAlreadyRegistered` | internal/repository/repository.go:171-181 | after a successful booking, booking the same e-mail for the same event again yields AlreadyRegistered and changes nothing; the counter and the registration count each grew by exactly one |
| `Booking.RunSerial` | internal/repository/repository.go:125-133 | bookings one after another, as the row lock serialises them for a transaction that ends on every path (`BookReleasing`, equal to `RunSerial` by `ReleasingRunNeverBlocks`); as written, the first AlreadyRegistered or EventFull on an event leaves its row locked and later bookings for it block. One outcome per attempt; the registrations only grow, by exactly the number of successes; the set of events and their creation order stay the same |
| `Booking.RestStillUnregistered` | internal/repository/repository.go:171-181 | after one attempt, the other attendees of a run with distinct e-mails are still unregistered for the event |
| `Booking.DistinctAttendeesFillRemainingSeats` | internal/repository/repository.go:149-211 | for a transaction that ends on every path (`BookReleasing`, equal to `RunSerial` by `ReleasingRunNeverBlocks`), N serial attempts with distinct unregistered e-mails on one event, without database errors: exactly the first min(N, remaining seats) succeed, all others get EventFull, and the counter grows by the number of successes and never passes the capacity |
| `Locking.BookAsWritten` | internal/repository/repository.go:143-186 | as written: a booking on a row still locked blocks and changes nothing; any other call has the booking rule's outcome, and exactly an AlreadyRegistered or EventFull outcome leaves the row locked |
| `Locking.BookReleasing` | internal/repository/repository.go:143-147 | with the transaction ended on every path: no call leaves a lock behind, and a returned call has the booking rule's outcome |
| `Locking.RunAsWritten` | internal/repository/repository.go:143-147 | a run as written has one call per attempt, and its set of locked rows only grows |
| `Locking.RunReleasing` | internal/repository/repository.go:143-147 | a run with the corrected ending has one call per attempt and never changes the set of locked rows |
| `Locking.LeakedLockBlocksLaterBooking` | internal/repository/repository.go:143-147 | as written, a repeated e-mail on a ten-seat event leaves the row locked, so a third, valid booking blocks; the serial rule would book it |
| `Locking.ReleasingRunNeverBlocks` | internal/repository/repository.go:143-147 | when every failing transaction is rolled back, a run of bookings never blocks, leaves no lock held, and behaves exactly as the serial booking rule |
| `Locking.HeldRowBlocksLaterBookings` | internal/repository/repository.go:143-147 | as written, once a row is left locked, every later booking for that event that gets past `Begin` blocks, whatever its e-mail or the seats left |
| `Locking.FullEventLeaksLock` | internal/repository/repository.go:143-186 | as written, on a one-seat event, a@x.com books the seat, b@x.com is told EventFull and leaves the row locked, and c@x.com blocks, where the serial rule tells it EventFull |
| `Strings.IsSpace` | internal/service/service.go:31 | Go's `unicode.IsSpace` set; among ASCII characters exactly the blank and '\t' to '\r', and never a letter |
| `Strings.TrimSpace` | internal/service/service.go:31 | the trimmed string is empty exactly when the input is all white space, and otherwise starts and ends with a non-space |
| `Strings.TrimSpaceSlice` | internal/service/service.go:31 | the trimmed string is a contiguous slice of the input with only white space before and after it |
| `Strings.TrimSpaceUnique` | internal/service/service.go:31 | any slice with only white space around it and non-space ends is the trimmed string, so trimming removes the maximal leading and trailing white-space runs |
| `Strings.TrimSpacePadded` | internal/service/service.go:31 | white space added around a string does not change its trimming |
| `Strings.LowerChar` | internal/service/service.go:67 | 'A'..'Z' become the letter 32 code points later, in 'a'..'z'; every other character is unchanged, and white space stays white space |
| `Strings.ToLower` | internal/service/service.go:67 | same length; every upper-case ASCII letter becomes its lower-case letter (code point + 32); every other character is unchanged; no upper-case letter is left |
| `Strings.ToLowerIgnoresCase` | internal/service/service.go:67 | strings that differ only in the case of their letters lower-case to the same string |
| `Strings.ToLowerPadded` | internal/service/service.go:67 | lower-casing leaves white space around a string alone: `w1 + x + w2` with all-white-space `w1`, `w2` becomes `w1 + ToLower(x) + w2` |
| `Strings.LowerThenTrim` | internal/service/service.go:67 | trimming a lower-cased string keeps the lower-cased middle of the input, with only white space of the input dropped before and after it |
| `Strings.Split` | internal/service/service.go:101 | at least one piece, none containing the separator, a single piece exactly when the separator does not occur, and joining the pieces with the separator gives the input back |
| `Service.CheckCreateRequest` | internal/service/service.go:30-40 | accepted iff the name is not all white space and 1 <= capacity <= 100000; the empty-name error comes first, then the non-positive and too-large capacity errors; an accepted request carries the trimmed name |
| `Service.EventService.CreateEvent` | internal/service/service.go:29-42 | a rejected request changes nothing; an accepted one is `Create` with the trimmed name, so a created event has capacity in [1, 100000] and counter 0, and the store invariant always holds afterwards |
| `Service.EventService.ListEvents` | internal/service/service.go:44-47 | the repository's newest-first listing, unchanged |
| `Service.EventService.GetEvent` | internal/service/service.go:49-62 | an empty id is rejected; NotFound passes through; the stored event otherwise; other errors are wrapped with "get event: " a second time |
| `Service.IsValidEmail` | internal/service/service.go:99-106 | an address that passes contains an '@' and neither starts nor ends with one |
| `Service.IsValidEmailIff` | internal/service/service.go:99-106 | the structural test holds exactly when the address has one '@', at a position after the first character, and a '.' somewhere after it |
| `Service.NormalizeEmail` | internal/service/service.go:67 | the attendee key is the input's middle, lower-cased, with only white space cut away before and after it; it has no upper-case letter and no white space at either end, and is empty exactly when the input is all white space |
| `Service.NormalizeEmailIgnoresCaseAndPadding` | internal/service/service.go:67 | addresses that differ only in the case of their letters and in white space around them get the same attendee key |
| `Service.NormalizeEmailIdempotent` | internal/service/service.go:67 | normalising a key again returns it unchanged |
| `Service.CheckRegistration` | internal/service/service.go:66-77 | accepted iff the normalised e-mail passes the structural test and the event id is non-empty; the required-e-mail, invalid-e-mail and required-event-id errors come in that order; an accepted request yields the normalised key |
| `Service.RegisterError` | internal/service/service.go:78-88 | NotFound, EventFull and AlreadyRegistered pass through unchanged; every other error is wrapped with "register for event: " |
| `Service.EventService.Register` | internal/service/service.go:64-89 | a rejected request returns its validation error and leaves the store unchanged, before any booking; otherwise the store and result are those of `Book` on the normalised key, and the invariant is kept |
| `Service.SameKeySameAttendee` | internal/service/service.go:67-78 | once an address is booked for an event without a database error, a later booking of any variant of it that differs only in case and surrounding white space, after validation, is told AlreadyRegistered, provided that booking begins its transaction, locks the row and runs its duplicate check without a database error (a fault there yields the wrapped error instead) |
| `Service.EventService.ListRegistrations` | internal/service/service.go:91-97 | an absent event, or any error looking it up, gives NotFound; otherwise the event's registrations, as many as its counter, or the wrapped listing error |

## Left out

- Concurrency: goroutines, interleaving and the transaction machinery are not modelled. `Store` has no locks; each repository call is one atomic step, and calls for one event are assumed serial. That the row lock provides this ordering is assumed, not proved. `Locking` models only which rows abandoned transactions leave locked, to exhibit the lock-release defect.
- SQL text, pgx scanning and the connection pool: a failing statement is a `Fault` or `Option<string>` parameter. A `Scan` or row-iteration error in `List`/`ListByEvent` is folded into the query error.
- A commit that fails after the server has in fact committed (for example on a lost connection) is modelled as not committed.
- UUID generation and `time.Now()` are parameters. Freshness of ids and timestamps that never go back are preconditions. Where SQL leaves the order of equal timestamps unspecified, `ListByEvent` lists ties in insertion order and `List` in reverse insertion order.
- Timestamp precision: stored timestamps are truncated to microseconds, while the event or registration that `Create` and `Book` return carries the full clock reading; `Time` abstracts both as one value. Truncation keeps the order, which is all the model relies on.
- The database schema is not part of this model, so its uniqueness and capacity CHECK constraints are not modelled. Uniqueness of (event, e-mail) and counter bounds are proved as invariants instead.
- `Strings.ToLower`: lower-cases ASCII letters only; Go's Unicode case mapping for other characters is not modelled.
- `Strings.TrimSpace`: uses Go's `unicode.IsSpace` white-space set. Invalid UTF-8 handling is not modelled.
- `Event.description` and `name` are carried unchanged; JSON encoding and empty-versus-nil slices are not modelled.
- The HTTP handlers and status-code mapping, routing, static files, server lifecycle, environment configuration and pool retries are not part of this model.
- Go's `int` is 64-bit; the model uses unbounded integers. This is safe: capacities pass through the 100000 ceiling at the service, and counters never pass the capacity.

## Findings

| source | as written | input that shows it | evidently intended | confidence | as-written member | corrected member |
|---|---|---|---|---|---|---|
| internal/repository/repository.go:143-147, 179-186 | The deferred rollback runs only when the local `err` is non-nil. The AlreadyRegistered and EventFull returns happen after a successful query has set `err` to nil. Those transactions are never committed or rolled back, so their pooled connection and the `FOR UPDATE` lock on the event row are never released. | An event with 10 seats: book a@x.com (Ok), book a@x.com again (AlreadyRegistered), then book b@x.com. The third call waits on the row lock until its own request is cancelled, and the abandoned lock stays. On an event with one seat: book a@x.com (Ok), book b@x.com (EventFull), then book c@x.com, which blocks the same way (`Locking.FullEventLeaksLock`); a full event thus stops answering instead of saying EventFull. Each such return also keeps one of the pool's 20 connections. | Every non-success path ends the transaction, so a business rejection releases the lock and the next booking proceeds. | likely; not executed | `Locking.LeakedLockBlocksLaterBooking` | `Locking.ReleasingRunNeverBlocks` |

The rest of the model uses the corrected behaviour: `Repository.Store.Book` and `Repository.BookStep` end the transaction on every path.
