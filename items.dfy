/** The item service (ItemServiceImpl): the owner's partial update, the item view
    with its last and next approved bookings, the text search and the comment
    gate. The item and comment tables are sequences in insertion order; the
    booking table is read-only here and `now` stands for the clock. */
module Items {
  import opened Common
  import opened Domain
  import opened Sequences
  import opened JavaText

  /** An approved booking of the item that started before now. */
  predicate LastCandidate(b: Booking, itemId: int, now: Time) {
    b.itemId == itemId && b.start < now && b.status == Status.APPROVED
  }

  /** An approved booking of the item that starts after now. */
  predicate NextCandidate(b: Booking, itemId: int, now: Time) {
    b.itemId == itemId && b.start > now && b.status == Status.APPROVED
  }

  /** getLastBooking: the first of the item's approved bookings that started
      before now, ordered by start descending; so the latest of them. */
  function LastBooking(bookings: seq<Booking>, itemId: int, now: Time): (r: Option<Booking>)
    ensures r.None? <==> forall b :: b in bookings ==> !LastCandidate(b, itemId, now)
    ensures r.Some? ==> r.value in bookings && LastCandidate(r.value, itemId, now)
    ensures r.Some? ==> forall b :: b in bookings && LastCandidate(b, itemId, now) ==> b.start <= r.value.start
  {
    var found := Filter(bookings, b => LastCandidate(b, itemId, now));
    var r := First(found, StartOf, true);
    assert r.None? ==> forall b :: b !in found;
    assert r.Some? ==> forall b :: b in found ==> Ordered(r.value, b, StartOf, true);
    r
  }

  /** getNextBooking: the first of the item's approved bookings that start after
      now, ordered by start ascending; so the earliest of them. */
  function NextBooking(bookings: seq<Booking>, itemId: int, now: Time): (r: Option<Booking>)
    ensures r.None? <==> forall b :: b in bookings ==> !NextCandidate(b, itemId, now)
    ensures r.Some? ==> r.value in bookings && NextCandidate(r.value, itemId, now)
    ensures r.Some? ==> forall b :: b in bookings && NextCandidate(b, itemId, now) ==> r.value.start <= b.start
  {
    var found := Filter(bookings, b => NextCandidate(b, itemId, now));
    var r := First(found, StartOf, false);
    assert r.None? ==> forall b :: b !in found;
    assert r.Some? ==> forall b :: b in found ==> Ordered(r.value, b, StartOf, false);
    r
  }

  /** The last booking precedes now and the next one follows it, so they are
      never the same booking. */
  lemma LastBeforeNext(bookings: seq<Booking>, itemId: int, now: Time)
    ensures LastBooking(bookings, itemId, now).Some? && NextBooking(bookings, itemId, now).Some? ==>
              LastBooking(bookings, itemId, now).value.start < NextBooking(bookings, itemId, now).value.start
  {
  }

  /** An item as shown to a user (ItemExtendedDto): the last and next bookings are
      present only for the owner, together with the item's comments. */
  datatype ItemView = ItemView(
    item: Item,
    lastBooking: Option<Booking>,
    nextBooking: Option<Booking>,
    comments: seq<Comment>)

  /** getItemById: the stored item with this id, or NotFound. */
  function GetItemById(items: seq<Item>, id: int): (r: Result<Item>)
    ensures r.Ok? <==> exists it :: it in items && it.id == id
    ensures r.Ok? ==> r.value in items && r.value.id == id
    ensures r.Err? ==> r.error == NotFound
  {
    match IndexOf(items, ItemIdOf, id)
    case None =>
      assert forall it :: it in items ==> it.id != id by {
        forall it | it in items ensures it.id != id {
          var i :| 0 <= i < |items| && items[i] == it;
          assert ItemIdOf(items[i]) != id;
        }
      }
      Err(NotFound)
    case Some(k) => Ok(items[k])
  }

  /** getByIdItem: anyone may view an item, but only its owner sees its last
      and next bookings. */
  function GetByIdItem(items: seq<Item>, bookings: seq<Booking>, comments: seq<Comment>,
                       userId: int, id: int, now: Time): (r: Result<ItemView>)
    ensures r.Err? <==> GetItemById(items, id).Err?
    ensures r.Err? ==> r.error == NotFound
    ensures r.Ok? ==> r.value.item == GetItemById(items, id).value
    ensures r.Ok? && userId != r.value.item.ownerId ==> r.value.lastBooking.None? && r.value.nextBooking.None?
    ensures r.Ok? && userId == r.value.item.ownerId ==>
              r.value.lastBooking == LastBooking(bookings, id, now) &&
              r.value.nextBooking == NextBooking(bookings, id, now)
    ensures r.Ok? ==> forall c :: c in r.value.comments <==> c in comments && c.itemId == id
  {
    match GetItemById(items, id)
    case Err(e) => Err(e)
    case Ok(item) =>
      if userId != item.ownerId then Ok(ItemView(item, None, None, CommentsOf(comments, id)))
      else Ok(OwnerView(item, bookings, comments, now))
  }

  /** item.getComments(): the comments left on item `id`. */
  function CommentsOf(comments: seq<Comment>, id: int): (r: seq<Comment>)
    ensures forall c :: c in r <==> c in comments && c.itemId == id
  {
    Filter(comments, (c: Comment) => c.itemId == id)
  }

  /** An item as its owner sees it: with its last and next bookings and its comments. */
  function OwnerView(item: Item, bookings: seq<Booking>, comments: seq<Comment>, now: Time): ItemView {
    ItemView(item, LastBooking(bookings, item.id, now), NextBooking(bookings, item.id, now),
             CommentsOf(comments, item.id))
  }

  /** The owner's items ordered by id (findByOwnerIdOrderByIdAsc): sorted by id
      ascending, and holding each of the owner's items as many times as the table does. */
  function OwnerItems(items: seq<Item>, userId: int): (r: seq<Item>)
    ensures SortedBy(r, ItemIdOf, false)
    ensures forall it :: it in r <==> it in items && it.ownerId == userId
    ensures forall it :: multiset(r)[it] == (if it.ownerId == userId then multiset(items)[it] else 0)
  {
    SortBy(Filter(items, (it: Item) => it.ownerId == userId), ItemIdOf, false)
  }

  /** Each item of `s`, in order, as its owner sees it. */
  function OwnerViews(s: seq<Item>, bookings: seq<Booking>, comments: seq<Comment>, now: Time): (r: seq<ItemView>)
    ensures |r| == |s|
    ensures forall i :: 0 <= i < |r| ==> r[i] == OwnerView(s[i], bookings, comments, now)
    ensures forall i :: 0 <= i < |r| ==> r[i].item == s[i]
  {
    if s == [] then [] else [OwnerView(s[0], bookings, comments, now)] + OwnerViews(s[1..], bookings, comments, now)
  }

  /** A page of the owner's items holds only stored items of that owner, in id order. */
  lemma PageOfOwnerItems(items: seq<Item>, userId: int, page: nat, size: nat)
    requires size > 0
    ensures var p := Page(OwnerItems(items, userId), page, size);
            && (forall i :: 0 <= i < |p| ==> p[i] in items && p[i].ownerId == userId)
            && (forall i, j :: 0 <= i < j < |p| ==> p[i].id <= p[j].id)
  {
    var p := Page(OwnerItems(items, userId), page, size);
    PageSorted(OwnerItems(items, userId), page, size, ItemIdOf, false);
    assert forall i :: 0 <= i < |p| ==> p[i] in OwnerItems(items, userId);
    assert forall i, j :: 0 <= i < j < |p| ==> Ordered(p[i], p[j], ItemIdOf, false);
  }

  /** getByOwnerId: one page of the owner's items in id order, each shown with its
      last and next bookings and its comments. The owner is not looked up. */
  function GetByOwnerId(items: seq<Item>, bookings: seq<Booking>, comments: seq<Comment>,
                        userId: int, page: nat, size: nat, now: Time): (r: seq<ItemView>)
    requires size > 0
    ensures |r| <= size
    ensures var p := Page(OwnerItems(items, userId), page, size);
            |r| == |p| && forall i :: 0 <= i < |r| ==> r[i] == OwnerView(p[i], bookings, comments, now)
    ensures forall i :: 0 <= i < |r| ==> r[i].item in items && r[i].item.ownerId == userId
    ensures forall i, j :: 0 <= i < j < |r| ==> r[i].item.id <= r[j].item.id
  {
    var p := Page(OwnerItems(items, userId), page, size);
    var r := OwnerViews(p, bookings, comments, now);
    PageOfOwnerItems(items, userId, page, size);
    r
  }

  /** The item search query: an available item whose name or description contains
      the text, ignoring case. */
  predicate MatchesText(item: Item, text: string) {
    item.available &&
    (Contains(Upper(item.name), Upper(text)) || Contains(Upper(item.description), Upper(text)))
  }

  /** searchItem: a blank text gives an empty list without reading the table;
      otherwise one page of the matching items, in table order. */
  function SearchItem(items: seq<Item>, text: string, page: nat, size: nat): (r: seq<Item>)
    requires size > 0
    ensures IsBlank(text) ==> r == []
    ensures |r| <= size
    ensures forall it :: it in r ==> it in items && MatchesText(it, text)
    ensures !IsBlank(text) ==> r == Page(Filter(items, it => MatchesText(it, text)), page, size)
  {
    if IsBlank(text) then []
    else Page(Filter(items, it => MatchesText(it, text)), page, size)
  }

  /** An available item is found by its own (non-blank) name, on the first page
      when the page is large enough for every match. */
  lemma {:induction false} SearchFindsOwnName(items: seq<Item>, it: Item, size: nat)
    requires it in items && it.available && !IsBlank(it.name)
    requires size >= |items| && size > 0
    ensures it in SearchItem(items, it.name, 0, size)
  {
    ContainsItself(Upper(it.name));
    var all := Filter(items, x => MatchesText(x, it.name));
    assert it in all;
    var p := Page(all, 0, size);
    var i :| 0 <= i < |all| && all[i] == it;
    assert p[i] == it;
  }

  /** hasCompletedRental: the user has an approved booking of the item that ended
      before now (findByItemIdAndBookerIdAndEndIsBeforeAndStatusEquals is not empty). */
  function HasCompletedRental(bookings: seq<Booking>, userId: int, itemId: int, now: Time): (r: bool)
    ensures r <==> exists b :: b in bookings && b.itemId == itemId && b.bookerId == userId &&
                               b.end < now && b.status == Status.APPROVED
  {
    Filter(bookings, (b: Booking) => b.itemId == itemId && b.bookerId == userId && b.end < now && b.status == Status.APPROVED) != []
  }

  /** The fields of an item update request; None stands for an absent (null) field. */
  datatype ItemPatch = ItemPatch(name: Option<string>, description: Option<string>, available: Option<bool>)

  /** A text field of an update is used only when it is present and not blank. */
  function PatchText(current: string, patch: Option<string>): string {
    if patch.Some? && !IsBlank(patch.value) then patch.value else current
  }

  /** The item table, the comment table and their id sequence. */
  class ItemService {
    var items: seq<Item>
    var comments: seq<Comment>
    var nextCommentId: int

    ghost predicate Valid()
      reads this
    {
      && UniqueKeys(items, ItemIdOf)
      && UniqueKeys(comments, CommentIdOf)
      && (forall c :: c in comments ==> c.id < nextCommentId)
    }

    constructor (items: seq<Item>)
      requires UniqueKeys(items, ItemIdOf)
      ensures Valid() && this.items == items && comments == []
    {
      this.items := items;
      comments := [];
      nextCommentId := 1;
    }

    /** updateItem: NotFound for an unknown item, Forbidden for anyone but the
        owner; otherwise name and description are replaced when given and not
        blank, availability when given, and nothing else changes. */
    method UpdateItem(userId: int, id: int, patch: ItemPatch) returns (r: Result<Item>)
      requires Valid()
      modifies this
      ensures Valid() && comments == old(comments) && nextCommentId == old(nextCommentId)
      ensures r.Ok? <==> GetItemById(old(items), id).Ok? && userId == GetItemById(old(items), id).value.ownerId
      ensures GetItemById(old(items), id).Err? ==> r == Err(NotFound)
      ensures GetItemById(old(items), id).Ok? && userId != GetItemById(old(items), id).value.ownerId ==>
                r == Err(Forbidden)
      ensures r.Err? ==> items == old(items)
      ensures r.Ok? ==> (
        var k := IndexOf(old(items), ItemIdOf, id).value;
        var before := old(items)[k];
        && IndexOf(old(items), ItemIdOf, id).Some?
        && userId == before.ownerId
        && r.value == before.(name := PatchText(before.name, patch.name),
                              description := PatchText(before.description, patch.description),
                              available := if patch.available.Some? then patch.available.value else before.available)
        && items == old(items)[k := r.value])
    {
      var k := IndexOf(items, ItemIdOf, id);
      if k.None? {
        return Err(NotFound);
      }
      var item := items[k.value];
      if userId != item.ownerId {
        return Err(Forbidden);
      }
      if patch.name.Some? && !IsBlank(patch.name.value) {
        item := item.(name := patch.name.value);
      }
      if patch.description.Some? && !IsBlank(patch.description.value) {
        item := item.(description := patch.description.value);
      }
      if patch.available.Some? {
        item := item.(available := patch.available.value);
      }
      items := items[k.value := item];
      r := Ok(item);
    }

    /** addCommentItem: the author must exist (checked first) and must have an
        approved booking of the item that has ended; then one comment is stored. */
    method AddCommentItem(userId: int, itemId: int, text: string, users: set<int>,
                          bookings: seq<Booking>, now: Time) returns (r: Result<Comment>)
      requires Valid()
      modifies this
      ensures Valid() && items == old(items)
      ensures r.Ok? <==> userId in users && HasCompletedRental(bookings, userId, itemId, now)
      ensures userId !in users ==> r == Err(NotFound)
      ensures userId in users && !HasCompletedRental(bookings, userId, itemId, now) ==> r == Err(BookingError)
      ensures r.Err? ==> comments == old(comments) && nextCommentId == old(nextCommentId)
      ensures r.Ok? ==> (userId in users && HasCompletedRental(bookings, userId, itemId, now) &&
                         r.value == Comment(old(nextCommentId), text, itemId, userId, now) &&
                         comments == old(comments) + [r.value] && nextCommentId == old(nextCommentId) + 1)
    {
      if userId !in users {
        return Err(NotFound);
      }
      if !HasCompletedRental(bookings, userId, itemId, now) {
        return Err(BookingError);
      }
      var comment := Comment(nextCommentId, text, itemId, userId, now);
      comments := comments + [comment];
      nextCommentId := nextCommentId + 1;
      r := Ok(comment);
    }
  }
}
