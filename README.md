# ShareIt booking and item core, in Dafny

A model of the core of ShareIt, a peer-to-peer item-rental service. Users list items, book them
for a time window and leave comments after a finished rental. The model covers:

- the booking lifecycle of `BookingServiceImpl`:
  - the creation guards;
  - the owner's single approve/reject decision (WAITING to APPROVED or REJECTED, never back);
  - visibility limited to the booker and the item's owner;
  - the six state filters (ALL, CURRENT, PAST, FUTURE, WAITING, REJECTED), listed newest start first, one page at a time;
- the item rules of `ItemServiceImpl`:
  - the owner-only partial update;
  - the last and next approved bookings, shown only to the owner, on one item or on each page of the
    owner's items listed by id;
  - the case-insensitive search, where blank text finds nothing;
  - the comment gate (only after a finished, approved rental);
- the two in-memory repositories, `ItemRepositoryInMemory` and `UserRepositoryInMemory`. Each is
  a class with an invariant. For users, the invariant includes the e-mail set that must equal the
  stored users' e-mails;
- the partial update and lookups of `UserServiceImpl`;
- the request queries of `ItemRequestServiceImpl`;
- the gateway's case-insensitive `BookingState.stringToState` parser.

Layout:

| file | module | models |
|---|---|---|
| common.dfy | Common | `Option`, `Result`, the error kinds (NotFound, Forbidden, Conflict, BookingError) and `Time` |
| java_text.dfy | JavaText | the `String` operations the core relies on: `isBlank`, `toUpperCase`, `toLowerCase` and `contains` |
| sequences.dfy | Sequences | what the stores do with query results: `findById`, filtering, `ORDER BY` on a key and `PageRequest` pages |
| domain.dfy | Domain | users, items, bookings, comments, item requests |
| booking_state.dfy | BookingStates | `BookingState` and `stringToState` |
| bookings.dfy | Bookings | `BookingServiceImpl` |
| items.dfy | Items | `ItemServiceImpl` |
| item_store.dfy | ItemStore | `ItemRepositoryInMemory` |
| user_store.dfy | UserStore | `UserRepositoryInMemory` |
| users.dfy | Users | `UserServiceImpl` |
| item_requests.dfy | ItemRequests | `ItemRequestServiceImpl` |

How the model represents the system:

- Where the source mutates a store (saving a booking, deciding it, updating an item or a user,
  adding a comment or a request), the model is a class. Its fields are the table (a `seq` in
  table order, or a `map` for the in-memory repositories) and the id counter. Its methods have
  `modifies this` and state the whole new state. A `Valid()` invariant holds the keys unique and
  the counter fresh.
- The read-only queries are functions over the table values.
- The clock (`LocalDateTime.now()`) is a parameter `now`.
- The collaborating services (`userService.getUserById`, `itemService.getItemById`) are
  parameters: the set of existing user ids, and the item table.
- A database id is the table's next id (`nextId`).

Where the code and the system's written description differ, the model follows the code:

- `createBooking` rejects only `end < start`. `end == start` is accepted
  (server/src/main/java/ru/practicum/shareit/booking/BookingServiceImpl.java:35).
- CURRENT is strict on both sides, `start < now < end`. The repository method is
  "StartBefore…EndAfter" (BookingServiceImpl.java:87).
- The last booking needs `start < now` strictly
  (src/main/java/ru/practicum/shareit/item/ItemServiceImpl.java:120).
- Three failures are not conflicts in the code:
  - an unavailable item fails with a booking error (BookingServiceImpl.java:39-41);
  - a second decision on a booking fails with a booking error (BookingServiceImpl.java:59-61);
  - an owner booking their own item fails with NotFound (BookingServiceImpl.java:44-46).

## Model

Three shared helpers in `sequences.dfy` carry the query semantics the rows below rely on:
`Sequences.Filter` is a stream filter or a derived query's WHERE clause, `Sequences.SortBy` is
`ORDER BY ... ASC` or `DESC` (an insertion sort, proved sorted and a permutation), and `Sequences.Page`
is the slice a `PageRequest` of the given page and size selects. The predicates the contracts are
stated in are defined once and used by every row: `Bookings.InState` is the per-state condition of
the derived booking queries (CURRENT, PAST, FUTURE, WAITING, REJECTED, ALL), `Items.MatchesText` is
the search query's WHERE clause, and `JavaText.Upper`, `JavaText.Lower` and `JavaText.IsBlank` are
`String.toUpperCase`, `String.toLowerCase` and `String.isBlank`.

| member | source | states |
|---|---|---|
| Bookings.GetBookingById | server/src/main/java/ru/practicum/shareit/booking/BookingServiceImpl.java:146-149 | succeeds exactly when a booking with the id is stored, and returns it; otherwise NotFound |
| Bookings.GetByIdBooking | server/src/main/java/ru/practicum/shareit/booking/BookingServiceImpl.java:66-74 | succeeds exactly when the booking exists and the caller is its booker or its item's owner; every failure is NotFound |
| Bookings.VisibleExactlyToParties | server/src/main/java/ru/practicum/shareit/booking/BookingServiceImpl.java:70-72 | with unique ids, a stored booking is returned to a user if and only if that user is its booker or its owner |
| Bookings.Listing | server/src/main/java/ru/practicum/shareit/booking/BookingServiceImpl.java:82-105 | the user's bookings in the requested state, newest start first, each as many times as stored |
| Bookings.GetAll | server/src/main/java/ru/practicum/shareit/booking/BookingServiceImpl.java:77-109 | NotFound exactly when the user does not exist; otherwise at most `size` bookings, sorted by start descending, all of the user and in the state, and exactly the requested page of the listing |
| Bookings.GetAllByBookerId | server/src/main/java/ru/practicum/shareit/booking/BookingServiceImpl.java:77-109 | NotFound exactly for an unknown user; otherwise only bookings made by the user, in the requested state |
| Bookings.GetAllByOwnerId | server/src/main/java/ru/practicum/shareit/booking/BookingServiceImpl.java:112-144 | NotFound exactly for an unknown user; otherwise only bookings of the user's items, in the requested state |
| Bookings.SameInstantBookingDecidedOnce | server/src/main/java/ru/practicum/shareit/booking/BookingServiceImpl.java:33-64 | a booking whose end equals its start is created WAITING, the owner's approval makes it APPROVED, and a second decision gives BookingError |
| Bookings.TemporalStatesExclusive | server/src/main/java/ru/practicum/shareit/booking/BookingServiceImpl.java:86-97 | for a window that is not inverted, no booking is in two of CURRENT, PAST and FUTURE; at `start == now` it is neither CURRENT nor FUTURE |
| Bookings.EvolvesTransitive | server/src/main/java/ru/practicum/shareit/booking/BookingServiceImpl.java:59-62 | the allowed evolution of the booking table (append, or one WAITING booking decided) composes over any number of operations |
| Bookings.DecidedIsFinal | server/src/main/java/ru/practicum/shareit/booking/BookingServiceImpl.java:59-62 | once a booking is APPROVED or REJECTED it never changes again, however the table evolves |
| Bookings.BookingService.CreateBooking | server/src/main/java/ru/practicum/shareit/booking/BookingServiceImpl.java:33-49 | succeeds exactly when the window is not inverted (end equal to start is accepted), the item exists and is available, the user exists and is not the item's owner; guards in source order: end before start (BookingError), unknown item (NotFound), unavailable item (BookingError), unknown user (NotFound), owner booking own item (NotFound); on failure nothing is saved; on success exactly one WAITING booking with the given item, booker, start and end is appended under a fresh id |
| Bookings.BookingService.UpdateBooking | server/src/main/java/ru/practicum/shareit/booking/BookingServiceImpl.java:53-64 | succeeds exactly when the booking exists, the caller owns its item and it is still WAITING; unknown booking or non-owner: NotFound; already decided: BookingError; all failures leave the table unchanged; on success only that booking's status becomes APPROVED or REJECTED |
| Bookings.CreatedIsVisible | server/src/main/java/ru/practicum/shareit/booking/BookingServiceImpl.java:67-74 | a booking appended under a fresh id is returned by id to its booker and to its owner |
| Items.LastBooking | src/main/java/ru/practicum/shareit/item/ItemServiceImpl.java:119-126 | none exactly when the item has no approved booking that started before now; otherwise such a booking with the latest start |
| Items.NextBooking | src/main/java/ru/practicum/shareit/item/ItemServiceImpl.java:128-135 | none exactly when the item has no approved booking starting after now; otherwise such a booking with the earliest start |
| Items.LastBeforeNext | src/main/java/ru/practicum/shareit/item/ItemServiceImpl.java:119-135 | when both exist, the last booking starts strictly before the next one |
| Items.GetItemById | src/main/java/ru/practicum/shareit/item/ItemServiceImpl.java:113-117 | succeeds exactly when an item with the id is stored; otherwise NotFound |
| Items.GetByIdItem | src/main/java/ru/practicum/shareit/item/ItemServiceImpl.java:77-86 | NotFound exactly for an unknown item; a non-owner sees no last or next booking; the owner sees the computed ones; the comments are exactly the item's |
| Items.CommentsOf | src/main/java/ru/practicum/shareit/item/ItemMapper.java:27 | exactly the comments left on the item (the extended view's comment list) |
| Items.OwnerItems | src/main/java/ru/practicum/shareit/item/ItemServiceImpl.java:72 | the owner's items sorted by id ascending, each as many times as stored, and no other item |
| Items.PageOfOwnerItems | src/main/java/ru/practicum/shareit/item/ItemServiceImpl.java:72 | a page of the owner's items holds only stored items of that owner, in ascending id order |
| Items.OwnerViews | src/main/java/ru/practicum/shareit/item/ItemServiceImpl.java:73 | each item, in order, with its last and next bookings and its comments |
| Items.GetByOwnerId | src/main/java/ru/practicum/shareit/item/ItemServiceImpl.java:70-75 | at most `size` views; exactly the requested page of the owner's items in id order, each with its last and next booking (as in getLastBooking/getNextBooking) and its comments; only stored items of that owner, ids ascending |
| Items.SearchItem | src/main/java/ru/practicum/shareit/item/ItemServiceImpl.java:88-98 | blank text gives an empty list; otherwise at most `size` items, each available and holding the text in its name or description, ignoring case |
| Items.SearchFindsOwnName | server/src/main/java/ru/practicum/shareit/item/ItemRepository.java:11-16 | an available item is found by its own non-blank name when the page is large enough |
| Items.HasCompletedRental | src/main/java/ru/practicum/shareit/item/ItemServiceImpl.java:106-107 | true exactly when the user has an approved booking of the item that ended before now |
| Items.ItemService.UpdateItem | src/main/java/ru/practicum/shareit/item/ItemServiceImpl.java:42-60 | succeeds exactly when the item exists and the caller owns it; unknown item: NotFound; non-owner: Forbidden; both save nothing; otherwise name and description change only to non-null, non-blank values, availability only to a non-null value; id, owner and request are kept |
| Items.ItemService.AddCommentItem | src/main/java/ru/practicum/shareit/item/ItemServiceImpl.java:100-111 | succeeds exactly when the author exists and has a finished approved rental of the item; unknown author: NotFound (checked first); no such rental: BookingError; both save nothing; otherwise exactly one comment by the author on the item, created now |
| ItemStore.GetItemById | src/main/java/ru/practicum/shareit/item/ItemRepositoryInMemory.java:71-78 | succeeds exactly when the id is a key, with the item stored under it; otherwise NotFound |
| ItemStore.Search | src/main/java/ru/practicum/shareit/item/ItemRepositoryInMemory.java:56-62 | exactly the stored items that are available and whose lower-cased name or description contains the text as given |
| ItemStore.SearchMissesCapitalised | src/main/java/ru/practicum/shareit/item/ItemRepositoryInMemory.java:60 | a text holding an ASCII capital letter finds nothing, whatever is stored |
| ItemStore.SearchIgnoringCase | src/main/java/ru/practicum/shareit/item/ItemRepositoryInMemory.java:56-62 | exactly the stored available items whose lower-cased name or description contains the lower-cased text |
| ItemStore.SearchIgnoresCase | src/main/java/ru/practicum/shareit/item/ItemRepositoryInMemory.java:60 | the corrected search gives the same result for a text and its lower-case form |
| ItemStore.SearchIgnoringCaseFindsOwnName | src/main/java/ru/practicum/shareit/item/ItemRepositoryInMemory.java:60 | the corrected search finds every available item by its own name, whatever its case |
| ItemStore.SearchIgnoringCaseOnLowerText | src/main/java/ru/practicum/shareit/item/ItemRepositoryInMemory.java:60 | on a text without capitals the corrected search returns what the search as written returns |
| ItemStore.MixedCaseQueryExample | src/main/java/ru/practicum/shareit/item/ItemRepositoryInMemory.java:60 | "oTvErTkA" finds nothing as written but finds the available item "OtVeRtKa" with the corrected search |
| ItemStore.GetItemsByOwner | src/main/java/ru/practicum/shareit/item/ItemRepositoryInMemory.java:64-69 | exactly the stored items whose owner is the user |
| ItemStore.ItemRepositoryInMemory.CreateItem | src/main/java/ru/practicum/shareit/item/ItemRepositoryInMemory.java:23-29 | unknown owner: NotFound, nothing changes; otherwise the item is stored under the fresh id `idMax`, `idMax` grows by one, and no other entry changes |
| ItemStore.ItemRepositoryInMemory.UpdateItem | src/main/java/ru/practicum/shareit/item/ItemRepositoryInMemory.java:31-48 | succeeds exactly when the owner is a user, the item is stored and belongs to that owner; unknown owner or unknown item: NotFound; other owner: Forbidden; the map is unchanged on failure; otherwise exactly the non-null fields overwrite the stored item, the rest is kept, and the updated item is returned |
| ItemStore.ItemRepositoryInMemory.DeleteItem | src/main/java/ru/practicum/shareit/item/ItemRepositoryInMemory.java:50-54 | the key is removed if present and nothing else changes; the answer is always true |
| ItemStore.CreatedListedDeletedGone | src/main/java/ru/practicum/shareit/item/ItemRepositoryInMemory.java:24-54 | a created item is listed among its owner's items; after deletion its id is found neither by id, by owner nor by search |
| UserStore.EmailsOf | src/main/java/ru/practicum/shareit/user/UserRepositoryInMemory.java:11-12 | the e-mails of the stored users, each of which belongs to some stored user |
| UserStore.EmailsOfInsert | src/main/java/ru/practicum/shareit/user/UserRepositoryInMemory.java:19-20 | storing a user under a new id adds exactly its e-mail to the e-mail set |
| UserStore.EmailsOfReplace | src/main/java/ru/practicum/shareit/user/UserRepositoryInMemory.java:29-31 | with unique e-mails, replacing a user swaps its old e-mail for the new one in the set |
| UserStore.EmailsOfRemove | src/main/java/ru/practicum/shareit/user/UserRepositoryInMemory.java:41-44 | with unique e-mails, removing a user drops exactly its e-mail from the set |
| UserStore.GetUserById | src/main/java/ru/practicum/shareit/user/UserRepositoryInMemory.java:53-60 | succeeds exactly when the id is a key, with the user stored under it; otherwise NotFound |
| UserStore.GetAllUsers | src/main/java/ru/practicum/shareit/user/UserRepositoryInMemory.java:48-51 | exactly the stored users |
| UserStore.InsertKeepsInvariant | src/main/java/ru/practicum/shareit/user/UserRepositoryInMemory.java:15-22 | storing a user with an unregistered e-mail under `idMax`, registering the e-mail and advancing `idMax` keeps every user under its own id below `idMax`, the e-mail set equal to the users' e-mails, and e-mails unique |
| UserStore.ReplaceKeepsInvariant | src/main/java/ru/practicum/shareit/user/UserRepositoryInMemory.java:24-37 | replacing a user, id kept, by one whose e-mail is its old one or unregistered, and swapping the e-mails in the set, keeps the same invariant |
| UserStore.RemoveKeepsInvariant | src/main/java/ru/practicum/shareit/user/UserRepositoryInMemory.java:39-46 | removing a user together with its e-mail keeps the same invariant |
| UserStore.UserRepositoryInMemory.CreateUser | src/main/java/ru/practicum/shareit/user/UserRepositoryInMemory.java:15-22 | a registered e-mail gives Conflict and changes nothing; otherwise the user is stored under id `idMax`, `idMax` grows by one and the e-mail joins the set; the e-mail set keeps equal to the users' e-mails |
| UserStore.UserRepositoryInMemory.UpdateUser | src/main/java/ru/practicum/shareit/user/UserRepositoryInMemory.java:24-37 | succeeds exactly when the id is stored and the e-mail is null or not registered; unknown id: NotFound; a non-null e-mail already registered, the user's own included: Conflict, nothing changes; otherwise non-null e-mail and name replace the stored ones and the set swaps the old e-mail for the new one |
| UserStore.UserRepositoryInMemory.UpdateUserKeepingOwnEmail | src/main/java/ru/practicum/shareit/user/UserRepositoryInMemory.java:24-37 | succeeds exactly when the id is stored and the non-null e-mail, if any, is the user's own or not registered; Conflict exactly when it is another user's; resubmitting one's own e-mail with no name succeeds and changes nothing; on success the fields and the e-mail set change as in UpdateUser |
| UserStore.UserRepositoryInMemory.DeleteUser | src/main/java/ru/practicum/shareit/user/UserRepositoryInMemory.java:39-46 | removes the user and its e-mail when present, otherwise changes nothing; always true |
| UserStore.OwnEmailResubmitted | src/main/java/ru/practicum/shareit/user/UserRepositoryInMemory.java:27-28 | after creating user 1 with an e-mail, resubmitting that e-mail gives Conflict as written and succeeds, unchanged, when corrected |
| Users.ToDto | src/main/java/ru/practicum/shareit/user/UserServiceImpl.java:42 | mapping a user to its DTO and back gives the user |
| Users.GetByIdUser | src/main/java/ru/practicum/shareit/user/UserServiceImpl.java:60-65 | succeeds exactly when a user with the id is stored, with that user's DTO; otherwise NotFound |
| Users.GetAllUser | src/main/java/ru/practicum/shareit/user/UserServiceImpl.java:52-58 | one DTO per stored user, in table order |
| Users.UserService.UpdateUser | src/main/java/ru/practicum/shareit/user/UserServiceImpl.java:28-43 | unknown id: NotFound, nothing saved; otherwise non-null e-mail and name replace the stored ones, the id is kept, and a later lookup returns the updated user |
| ItemRequests.ItemsOf | server/src/main/java/ru/practicum/shareit/request/ItemRequestServiceImpl.java:39-41 | exactly the items offered for the request |
| ItemRequests.Views | server/src/main/java/ru/practicum/shareit/request/ItemRequestServiceImpl.java:49-57 | each request, in order, paired with exactly its items |
| ItemRequests.GetByIdRequest | server/src/main/java/ru/practicum/shareit/request/ItemRequestServiceImpl.java:33-43 | NotFound unless both the caller and the request exist; otherwise the request with exactly its items |
| ItemRequests.Mine | server/src/main/java/ru/practicum/shareit/request/ItemRequestServiceImpl.java:48 | exactly the caller's requests, each as many times as stored |
| ItemRequests.Others | server/src/main/java/ru/practicum/shareit/request/ItemRequestServiceImpl.java:63 | exactly the requests whose requester is not the caller, each as many times as stored |
| ItemRequests.MineAndOthersPartition | server/src/main/java/ru/practicum/shareit/request/ItemRequestServiceImpl.java:44-72 | the caller's requests and everybody else's together are the whole table, each request once |
| ItemRequests.MineByCreated | server/src/main/java/ru/practicum/shareit/request/ItemRequestServiceImpl.java:48 | the caller's requests sorted by creation time ascending, each as many times as stored |
| ItemRequests.GetByRequesterId | server/src/main/java/ru/practicum/shareit/request/ItemRequestServiceImpl.java:44-58 | NotFound exactly for an unknown caller; otherwise the caller's requests oldest first, each with its items |
| ItemRequests.GetAllRequest | server/src/main/java/ru/practicum/shareit/request/ItemRequestServiceImpl.java:59-72 | NotFound exactly for an unknown caller; otherwise at most `size` of the other users' requests, the requested page in table order, each with its items |
| ItemRequests.ItemRequestService.CreateRequest | server/src/main/java/ru/practicum/shareit/request/ItemRequestServiceImpl.java:25-32 | unknown caller: NotFound, nothing saved; otherwise exactly one request by the caller created now is appended, and it is then found by id |
| BookingStates.Name | gateway/src/main/java/ru/practicum/shareit/booking/BookingState.java:5-11 | every constant's name is a non-empty word of capital letters |
| BookingStates.NamesDistinct | gateway/src/main/java/ru/practicum/shareit/booking/BookingState.java:5-11 | different constants have different names |
| BookingStates.FindByName | gateway/src/main/java/ru/practicum/shareit/booking/BookingState.java:14-19 | a found constant is among the values and has the name; none found means no value has it |
| BookingStates.StringToState | gateway/src/main/java/ru/practicum/shareit/booking/BookingState.java:13-20 | a result exists exactly when some constant is named by the upper-cased input, and its name is that |
| BookingStates.StringToStateExact | gateway/src/main/java/ru/practicum/shareit/booking/BookingState.java:13-20 | the parser returns a constant if and only if the upper-cased input is its name |
| BookingStates.ParseName | gateway/src/main/java/ru/practicum/shareit/booking/BookingState.java:13-18 | parsing any constant's name gives the constant back |
| BookingStates.ParseLowerName | gateway/src/main/java/ru/practicum/shareit/booking/BookingState.java:15 | parsing the lower-case spelling of a name gives the same constant |
| JavaText.Contains | src/main/java/ru/practicum/shareit/item/ItemRepositoryInMemory.java:60 | `contains` holds exactly when the text occurs at some position |
| JavaText.CapitalNeverInLower | src/main/java/ru/practicum/shareit/item/ItemRepositoryInMemory.java:60 | a text with an ASCII capital never occurs in a lower-cased string |
| Sequences.PagesTile | src/main/java/ru/practicum/shareit/booking/BookingController.java:59 | the first n pages together are exactly the first n*size elements of the listing, clipped to its length |

## Left out

- Controllers, bean validation and the gateway's duplicate window check are left out. They are
  HTTP routing; the page number `from / size` is a parameter `page`.
- The REST clients of the gateway are left out, because they are network calls.
- `ErrorHandler` is left out. The model keeps the error kinds, not the HTTP status codes they map to.
- The MapStruct mappers are left out. Their implementations are generated at build time, so mapping is identity on the
  fields kept (`Users.ToDto` is the one mapping written out).
- `ItemServiceImpl.createItem` (a user lookup, then a save) and `deleteItem` (a delete by id) are
  left out. They are single repository calls outside the modelled rules.
- Items.SearchItem and ItemRequests.GetAllRequest page queries that have no ORDER BY (the JPQL
  search of `ItemRepository` and `findByRequesterId_IdNot` with an unsorted `PageRequest`). The
  database's row order is then unspecified; the model takes table order.
- The ordering of database ties is left out. Rows with equal `start` or `created` may come back in
  any order; the model fixes one (insertion sort, stable).
- Items.SearchItem: the SQL `LIKE` pattern is modelled as substring search after upper-casing.
  `%` and `_` inside the text are not treated as wildcards, and the database's `UPPER` is taken to
  be Java's `toUpperCase`.
- JavaText.UpperOf and JavaText.LowerOf cover ASCII, Latin-1 (the micro sign, whose upper case is
  the Greek capital mu, included) and Cyrillic from U+0400 to U+04FF. Beyond those, UpperOf maps the
  characters whose upper-case form consists only of ASCII letters (ß, ı, ſ, U+FB00 to U+FB06), and
  LowerOf the Kelvin sign, the Angstrom sign and İ. Not mapped: ŉ (U+0149), ǰ (U+01F0) and U+1E96
  to U+1E9A, whose upper-case forms are an ASCII letter with a modifier or combining mark; the rest
  of Greek and Latin Extended, the Cyrillic supplement from U+0500, other scripts, locale rules and
  the final sigma.
- ItemStore.Search, ItemStore.GetItemsByOwner and UserStore.GetAllUsers return lists in `HashMap`
  iteration order. The model returns the sets of their elements, because that order is unspecified.
- Items.GetByIdItem, Items.GetByOwnerId and Items.ItemService.AddCommentItem take a single `now`. The source reads the
  clock separately for the last and the next booking, and twice in addCommentItem (once for the
  rental check, once for the comment's creation time); these readings are collapsed into one.
- Ids are unbounded integers. The 64-bit `Long` overflow of `idMax++` and of database ids is not
  modelled.
- Nulls are not modelled for fields that create operations take as given: names, e-mails,
  descriptions and booking times.
- Aliasing is not modelled: the source stores and mutates the caller's own `Item` and `User`
  objects, while the model stores values.
- Transactions, concurrent updates (lost-update races) and logging are left out.
- Database uniqueness of e-mails in `UserServiceImpl` is left out. It is a database constraint,
  not code.
- Users.UserService.UpdateUser: the constraint failure the database raises on a duplicate e-mail
  is not modelled.

## Findings

| source | as written | input that shows it | evidently intended | confidence | as-written member | corrected member |
|---|---|---|---|---|---|---|
| src/main/java/ru/practicum/shareit/item/ItemRepositoryInMemory.java:60 | the name and description are lower-cased but the search text is not | an available item named "OtVeRtKa", searched for with "oTvErTkA" (a constructed input; no service in the repository calls this class, and the database-backed search ignores case), is not found; no text with a capital letter ever finds anything | lower-case the text as well, so the search ignores case on both sides | not executed | ItemStore.SearchMissesCapitalised | ItemStore.SearchIgnoringCase |
| src/main/java/ru/practicum/shareit/user/UserRepositoryInMemory.java:27-28 | a non-null e-mail is checked against every registered e-mail, the user's own included | user 1 registered with "ann@mail.ru" updates their e-mail to "ann@mail.ru" and gets Conflict | the user's own current e-mail counts as available to that user | not executed | UserStore.OwnEmailResubmitted | UserStore.UserRepositoryInMemory.UpdateUserKeepingOwnEmail |
