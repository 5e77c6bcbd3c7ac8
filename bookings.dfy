/** The booking lifecycle (BookingServiceImpl): creating a booking, the owner's
    single approve/reject decision, retrieval by a party to the booking, and the
    per-state listings for bookers and owners. The booking table is a sequence of
    records in insertion order; the clock reading is the parameter `now`. */
module Bookings {
  import opened Common
  import opened Domain
  import opened Sequences
  import opened BookingStates

  /** Booking ids are a primary key. */
  predicate UniqueIds(bookings: seq<Booking>) {
    UniqueKeys(bookings, BookingIdOf)
  }

  /** getBookingById: the stored booking with this id, or NotFound. */
  function GetBookingById(bookings: seq<Booking>, id: int): (r: Result<Booking>)
    ensures r.Ok? <==> exists b :: b in bookings && b.id == id
    ensures r.Ok? ==> r.value in bookings && r.value.id == id
    ensures r.Err? ==> r.error == NotFound
  {
    match IndexOf(bookings, BookingIdOf, id)
    case None => Err(NotFound)
    case Some(k) => Ok(bookings[k])
  }

  /** getByIdBooking: only the booker and the item's owner may see a booking;
      anyone else is told it does not exist. */
  function GetByIdBooking(bookings: seq<Booking>, userId: int, id: int): (r: Result<Booking>)
    ensures r.Ok? <==> GetBookingById(bookings, id).Ok? &&
                       (userId == GetBookingById(bookings, id).value.bookerId ||
                        userId == GetBookingById(bookings, id).value.ownerId)
    ensures r.Ok? ==> r.value in bookings && r.value.id == id
    ensures r.Err? ==> r.error == NotFound
  {
    match GetBookingById(bookings, id)
    case Err(e) => Err(e)
    case Ok(b) =>
      if userId != b.bookerId && userId != b.ownerId then Err(NotFound) else Ok(b)
  }

  /** With unique ids: a booking is visible to a user exactly when the user is its
      booker or its item's owner. */
  lemma {:induction false} VisibleExactlyToParties(bookings: seq<Booking>, b: Booking, userId: int)
    requires UniqueIds(bookings) && b in bookings
    ensures GetByIdBooking(bookings, userId, b.id).Ok? <==> userId == b.bookerId || userId == b.ownerId
    ensures GetByIdBooking(bookings, userId, b.id).Ok? ==> GetByIdBooking(bookings, userId, b.id).value == b
  {
    var j :| 0 <= j < |bookings| && bookings[j] == b;
    IndexOfUnique(bookings, BookingIdOf, j);
  }

  /** The state filters of the listing queries, as the derived query names say:
      CURRENT is StartBefore(now) and EndAfter(now), both strict; PAST is
      EndBefore(now) and APPROVED; FUTURE is StartAfter(now). */
  predicate InState(b: Booking, state: BookingState, now: Time) {
    match state
    case ALL => true
    case CURRENT => b.start < now && b.end > now
    case PAST => b.end < now && b.status == Status.APPROVED
    case FUTURE => b.start > now
    case WAITING => b.status == Status.WAITING
    case REJECTED => b.status == Status.REJECTED
  }

  /** Whose bookings a listing shows: those made by the user, or those of the user's items. */
  datatype Side = Booker | Owner

  predicate Involves(b: Booking, side: Side, userId: int) {
    match side
    case Booker => b.bookerId == userId
    case Owner => b.ownerId == userId
  }

  /** All bookings of one user in one state, newest start first
      (findBy...OrderByStartDesc before paging). */
  function Listing(bookings: seq<Booking>, side: Side, userId: int, state: BookingState, now: Time): (r: seq<Booking>)
    ensures SortedBy(r, StartOf, true)
    ensures forall b :: b in r <==> b in bookings && Involves(b, side, userId) && InState(b, state, now)
    ensures forall b :: multiset(r)[b] == (if Involves(b, side, userId) && InState(b, state, now)
                                           then multiset(bookings)[b] else 0)
  {
    SortBy(Filter(bookings, b => Involves(b, side, userId) && InState(b, state, now)), StartOf, true)
  }

  /** getAllByBookerId / getAllByOwnerId: the user must exist; the result is one
      page of the listing. */
  function GetAll(bookings: seq<Booking>, users: set<int>, side: Side, userId: int,
                  state: BookingState, now: Time, page: nat, size: nat): (r: Result<seq<Booking>>)
    requires size > 0
    ensures r.Err? <==> userId !in users
    ensures r.Err? ==> r.error == NotFound
    ensures r.Ok? ==> |r.value| <= size && SortedBy(r.value, StartOf, true)
    ensures r.Ok? ==> forall b :: b in r.value ==> b in bookings && Involves(b, side, userId) && InState(b, state, now)
    ensures r.Ok? ==> r.value == Page(Listing(bookings, side, userId, state, now), page, size)
  {
    if userId !in users then Err(NotFound)
    else
      var all := Listing(bookings, side, userId, state, now);
      PageSorted(all, page, size, StartOf, true);
      Ok(Page(all, page, size))
  }

  function GetAllByBookerId(bookings: seq<Booking>, users: set<int>, userId: int,
                            state: BookingState, now: Time, page: nat, size: nat): (r: Result<seq<Booking>>)
    requires size > 0
    ensures r.Err? <==> userId !in users
    ensures r.Ok? ==> forall b :: b in r.value ==> b in bookings && b.bookerId == userId && InState(b, state, now)
  {
    GetAll(bookings, users, Booker, userId, state, now, page, size)
  }

  function GetAllByOwnerId(bookings: seq<Booking>, users: set<int>, userId: int,
                           state: BookingState, now: Time, page: nat, size: nat): (r: Result<seq<Booking>>)
    requires size > 0
    ensures r.Err? <==> userId !in users
    ensures r.Ok? ==> forall b :: b in r.value ==> b in bookings && b.ownerId == userId && InState(b, state, now)
  {
    GetAll(bookings, users, Owner, userId, state, now, page, size)
  }

  /** For a booking whose window is not inverted, CURRENT, PAST and FUTURE are
      mutually exclusive; a booking with start == now is neither CURRENT nor FUTURE. */
  lemma TemporalStatesExclusive(b: Booking, now: Time)
    requires !(b.end < b.start)
    ensures !(InState(b, CURRENT, now) && InState(b, PAST, now))
    ensures !(InState(b, CURRENT, now) && InState(b, FUTURE, now))
    ensures !(InState(b, PAST, now) && InState(b, FUTURE, now))
    ensures b.start == now ==> !InState(b, CURRENT, now) && !InState(b, FUTURE, now)
  {
  }

  /** How a stored booking may evolve: it stays as it is, or a WAITING booking
      receives a final status and nothing else about it changes. */
  predicate StepsTo(before: Booking, after: Booking) {
    after == before ||
    (before.status == Status.WAITING && after.status != Status.WAITING &&
     after == before.(status := after.status))
  }

  /** How the booking table may evolve: rows are only appended, and existing rows
      only take a step of the status machine. */
  predicate Evolves(before: seq<Booking>, after: seq<Booking>) {
    |before| <= |after| && forall i :: 0 <= i < |before| ==> StepsTo(before[i], after[i])
  }

  lemma {:induction false} EvolvesTransitive(a: seq<Booking>, b: seq<Booking>, c: seq<Booking>)
    requires Evolves(a, b) && Evolves(b, c)
    ensures Evolves(a, c)
  {
    forall i | 0 <= i < |a| ensures StepsTo(a[i], c[i]) {
      assert StepsTo(a[i], b[i]) && StepsTo(b[i], c[i]);
      if b[i] != a[i] {
        assert b[i].status != Status.WAITING;
      }
    }
  }

  /** A decided booking never changes again, however the table evolves. */
  lemma DecidedIsFinal(before: seq<Booking>, after: seq<Booking>, i: int)
    requires Evolves(before, after) && 0 <= i < |before|
    requires before[i].status != Status.WAITING
    ensures after[i] == before[i]
  {
    assert StepsTo(before[i], after[i]);
  }

  /** The table the booking service keeps, with its id sequence. */
  class BookingService {
    var bookings: seq<Booking>
    var nextId: int

    /** Ids are unique and below the next id to hand out; every stored booking
        passed the creation guards: its end is not before its start and its
        booker is not its item's owner. */
    ghost predicate Valid()
      reads this
    {
      && UniqueIds(bookings)
      && (forall b :: b in bookings ==> b.id < nextId)
      && (forall b :: b in bookings ==> !(b.end < b.start) && b.bookerId != b.ownerId)
    }

    constructor ()
      ensures Valid() && bookings == [] && nextId == 1
    {
      bookings := [];
      nextId := 1;
    }

    /** createBooking: rejects an inverted window, an unknown or unavailable item,
        an unknown user, and an owner booking their own item (in that order); on
        success stores one WAITING booking and returns it. */
    method CreateBooking(userId: int, itemId: int, start: Time, end: Time,
                         items: map<int, Item>, users: set<int>) returns (r: Result<Booking>)
      requires Valid()
      modifies this
      ensures Valid()
      ensures Evolves(old(bookings), bookings)
      ensures r.Ok? <==> (!(end < start) && itemId in items && items[itemId].available &&
                          userId in users && userId != items[itemId].ownerId)
      ensures end < start ==> r == Err(BookingError)
      ensures !(end < start) && itemId !in items ==> r == Err(NotFound)
      ensures !(end < start) && itemId in items && !items[itemId].available ==> r == Err(BookingError)
      ensures !(end < start) && itemId in items && items[itemId].available && userId !in users ==>
                r == Err(NotFound)
      ensures (!(end < start) && itemId in items && items[itemId].available && userId in users &&
               userId == items[itemId].ownerId) ==> r == Err(NotFound)
      ensures r.Err? ==> bookings == old(bookings) && nextId == old(nextId)
      ensures r.Ok? ==> (itemId in items &&
                         r.value == Booking(old(nextId), start, end, itemId, items[itemId].ownerId, userId, Status.WAITING) &&
                         bookings == old(bookings) + [r.value] && nextId == old(nextId) + 1)
    {
      if end < start {
        return Err(BookingError);
      }
      if itemId !in items {
        return Err(NotFound);
      }
      var item := items[itemId];
      if !item.available {
        return Err(BookingError);
      }
      if userId !in users {
        return Err(NotFound);
      }
      if userId == item.ownerId {
        return Err(NotFound);
      }
      var booking := Booking(nextId, start, end, itemId, item.ownerId, userId, Status.WAITING);
      bookings := bookings + [booking];
      nextId := nextId + 1;
      r := Ok(booking);
    }

    /** updateBooking: only the item's owner may decide, and only once; the
        decision sets APPROVED or REJECTED and touches nothing else. */
    method UpdateBooking(userId: int, id: int, approved: bool) returns (r: Result<Booking>)
      requires Valid()
      modifies this
      ensures Valid() && nextId == old(nextId)
      ensures Evolves(old(bookings), bookings) && |bookings| == |old(bookings)|
      ensures r.Ok? <==> (GetBookingById(old(bookings), id).Ok? &&
                          userId == GetBookingById(old(bookings), id).value.ownerId &&
                          GetBookingById(old(bookings), id).value.status == Status.WAITING)
      ensures GetBookingById(old(bookings), id).Err? ==> r == Err(NotFound)
      ensures GetBookingById(old(bookings), id).Ok? && userId != GetBookingById(old(bookings), id).value.ownerId ==>
                r == Err(NotFound)
      ensures (GetBookingById(old(bookings), id).Ok? && userId == GetBookingById(old(bookings), id).value.ownerId &&
               GetBookingById(old(bookings), id).value.status != Status.WAITING) ==> r == Err(BookingError)
      ensures r.Err? ==> bookings == old(bookings)
      ensures r.Ok? ==> (IndexOf(old(bookings), BookingIdOf, id).Some? &&
                         r.value == old(bookings)[IndexOf(old(bookings), BookingIdOf, id).value].(status := if approved then Status.APPROVED else Status.REJECTED) &&
                         bookings == old(bookings)[IndexOf(old(bookings), BookingIdOf, id).value := r.value])
    {
      var k := IndexOf(bookings, BookingIdOf, id);
      if k.None? {
        return Err(NotFound);
      }
      var booking := bookings[k.value];
      if userId != booking.ownerId {
        return Err(NotFound);
      }
      if booking.status != Status.WAITING {
        return Err(BookingError);
      }
      booking := booking.(status := if approved then Status.APPROVED else Status.REJECTED);
      bookings := bookings[k.value := booking];
      r := Ok(booking);
    }
  }

  /** A booking whose end equals its start is accepted, its owner's approval
      succeeds, and a second decision on it is refused. */
  method SameInstantBookingDecidedOnce() returns (created: Result<Booking>, approved: Result<Booking>,
                                                  again: Result<Booking>)
    ensures created.Ok? && created.value.start == created.value.end && created.value.status == Status.WAITING
    ensures approved.Ok? && approved.value.status == Status.APPROVED
    ensures again == Err(BookingError)
  {
    var service := new BookingService();
    var items := map[1 := Item(1, "Drill", "Cordless drill", true, 1, None)];
    created := service.CreateBooking(2, 1, 5, 5, items, {1, 2});
    approved := service.UpdateBooking(1, created.value.id, true);
    again := service.UpdateBooking(1, created.value.id, true);
  }

  /** A booking just appended under a fresh id is found by its id, and its booker
      and its item's owner may see it. */
  lemma {:induction false} CreatedIsVisible(bookings: seq<Booking>, b: Booking)
    requires UniqueIds(bookings) && forall x :: x in bookings ==> x.id != b.id
    ensures GetByIdBooking(bookings + [b], b.bookerId, b.id) == Ok(b)
    ensures GetByIdBooking(bookings + [b], b.ownerId, b.id) == Ok(b)
  {
    var all := bookings + [b];
    assert UniqueIds(all) by {
      forall i, j | 0 <= i < j < |all| ensures all[i].id != all[j].id {
        if j == |bookings| { assert all[i] in bookings; }
      }
    }
    assert all[|bookings|] == b;
    VisibleExactlyToParties(all, b, b.bookerId);
    VisibleExactlyToParties(all, b, b.ownerId);
  }
}
