/** The domain records of the booking system: events and registrations. */
module Model {

  /** An instant as returned by the wall clock; only its order matters here. */
  type Time = int

  /** A bookable event with a fixed capacity and a live counter of confirmed seats. */
  datatype Event = Event(
    id: string,
    name: string,
    description: string,
    capacity: int,
    bookedCount: int,
    createdAt: Time)
  {
    /** The number of seats still available: booked and remaining seats make up the capacity. */
    function Remaining(): (r: int)
      ensures bookedCount + r == capacity
      ensures 0 <= bookedCount <= capacity ==> 0 <= r <= capacity
      ensures r == capacity <==> bookedCount == 0
    {
      capacity - bookedCount
    }

    /** No seat remains. */
    function IsFull(): (full: bool)
      ensures full <==> Remaining() <= 0
      ensures 0 <= bookedCount <= capacity ==> (full <==> Remaining() == 0)
    {
      bookedCount >= capacity
    }
  }

  /** One attendee's confirmed booking, keyed by the normalised e-mail address. */
  datatype Registration = Registration(
    id: string,
    eventId: string,
    userEmail: string,
    createdAt: Time)

  /** The payload of an event-creation request. */
  datatype CreateEventRequest = CreateEventRequest(
    name: string,
    description: string,
    capacity: int)
}
