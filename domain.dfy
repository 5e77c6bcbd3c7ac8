/** The entities the services store and return. References between entities
    (an item's owner, a booking's item and booker) are held as ids. */
module Domain {
  import opened Common

  /** The persisted status of a booking. */
  datatype Status = WAITING | APPROVED | REJECTED

  datatype User = User(id: int, name: string, email: string)

  datatype Item = Item(
    id: int,
    name: string,
    description: string,
    available: bool,
    ownerId: int,
    requestId: Option<int>)

  /** A booking of item `itemId` by `bookerId` for the window [start, end].
      `ownerId` is the owner of the booked item (booking.getItem().getOwner()). */
  datatype Booking = Booking(
    id: int,
    start: Time,
    end: Time,
    itemId: int,
    ownerId: int,
    bookerId: int,
    status: Status)

  datatype Comment = Comment(id: int, text: string, itemId: int, authorId: int, created: Time)

  datatype ItemRequest = ItemRequest(id: int, description: string, requesterId: int, created: Time)

  /** The primary keys. */
  function UserIdOf(u: User): int { u.id }
  function ItemIdOf(i: Item): int { i.id }
  function BookingIdOf(b: Booking): int { b.id }
  function RequestIdOf(r: ItemRequest): int { r.id }
  function CommentIdOf(c: Comment): int { c.id }

  /** The ordering key of bookings (ORDER BY start). */
  function StartOf(b: Booking): Time { b.start }

  /** The ordering key of item requests (ORDER BY created). */
  function CreatedOf(r: ItemRequest): Time { r.created }
}
