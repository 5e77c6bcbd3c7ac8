/** The item-request service (ItemRequestServiceImpl): creating a request and the
    three queries over the request table, each returning requests together with
    the items offered in answer to them. The request and item tables are
    sequences in table order; the user service is the set of ids of existing
    users and `now` stands for the clock. */
module ItemRequests {
  import opened Common
  import opened Domain
  import opened Sequences

  /** A request with the items offered for it (ItemRequestExtendedDto). */
  datatype RequestView = RequestView(request: ItemRequest, items: seq<Item>)

  /** itemRequest.getItems(): the items answering request `id`. */
  function ItemsOf(items: seq<Item>, id: int): (r: seq<Item>)
    ensures forall it :: it in r <==> it in items && it.requestId == Some(id)
  {
    Filter(items, (it: Item) => it.requestId == Some(id))
  }

  /** Each request of `rs`, in order, with its items. */
  function Views(rs: seq<ItemRequest>, items: seq<Item>): (r: seq<RequestView>)
    ensures |r| == |rs|
    ensures forall i :: 0 <= i < |r| ==> r[i].request == rs[i] && r[i].items == ItemsOf(items, rs[i].id)
  {
    if rs == [] then [] else [RequestView(rs[0], ItemsOf(items, rs[0].id))] + Views(rs[1..], items)
  }

  /** getByIdRequest: the caller must exist (checked first), then the request must
      exist; it is returned with exactly its items. */
  function GetByIdRequest(requests: seq<ItemRequest>, items: seq<Item>, users: set<int>,
                          userId: int, id: int): (r: Result<RequestView>)
    ensures r.Err? ==> r.error == NotFound
    ensures r.Ok? <==> userId in users && exists q :: q in requests && q.id == id
    ensures r.Ok? ==> r.value.request in requests && r.value.request.id == id
    ensures r.Ok? ==> forall it :: it in r.value.items <==> it in items && it.requestId == Some(id)
  {
    if userId !in users then Err(NotFound)
    else match IndexOf(requests, RequestIdOf, id)
      case None =>
        assert forall q :: q in requests ==> q.id != id by {
          forall q | q in requests ensures q.id != id {
            var i :| 0 <= i < |requests| && requests[i] == q;
            assert RequestIdOf(requests[i]) != id;
          }
        }
        Err(NotFound)
      case Some(k) => Ok(RequestView(requests[k], ItemsOf(items, id)))
  }

  /** The caller's own requests (findByRequesterId_Id...). */
  function Mine(requests: seq<ItemRequest>, userId: int): (r: seq<ItemRequest>)
    ensures forall q :: q in r <==> q in requests && q.requesterId == userId
    ensures forall q :: multiset(r)[q] == if q.requesterId == userId then multiset(requests)[q] else 0
  {
    Filter(requests, (q: ItemRequest) => q.requesterId == userId)
  }

  /** Everybody else's requests (findByRequesterId_IdNot). */
  function Others(requests: seq<ItemRequest>, userId: int): (r: seq<ItemRequest>)
    ensures forall q :: q in r <==> q in requests && q.requesterId != userId
    ensures forall q :: multiset(r)[q] == if q.requesterId != userId then multiset(requests)[q] else 0
  {
    Filter(requests, (q: ItemRequest) => q.requesterId != userId)
  }

  /** The caller's requests and everybody else's together are the whole table,
      each request counted once. */
  lemma {:induction false} MineAndOthersPartition(requests: seq<ItemRequest>, userId: int)
    ensures multiset(Mine(requests, userId)) + multiset(Others(requests, userId)) == multiset(requests)
  {
    var m, o := Mine(requests, userId), Others(requests, userId);
    forall q ensures (multiset(m) + multiset(o))[q] == multiset(requests)[q] {
      assert multiset(m)[q] == if q.requesterId == userId then multiset(requests)[q] else 0;
      assert multiset(o)[q] == if q.requesterId != userId then multiset(requests)[q] else 0;
    }
  }

  /** The caller's requests, oldest first (findByRequesterId_IdOrderByCreatedAsc):
      sorted by creation time, and holding each of the caller's requests as many
      times as the table does. */
  function MineByCreated(requests: seq<ItemRequest>, userId: int): (r: seq<ItemRequest>)
    ensures SortedBy(r, CreatedOf, false)
    ensures forall q :: q in r <==> q in requests && q.requesterId == userId
    ensures forall q :: multiset(r)[q] == (if q.requesterId == userId then multiset(requests)[q] else 0)
  {
    SortBy(Mine(requests, userId), CreatedOf, false)
  }

  /** getByRequesterId: the caller must exist; then the caller's requests, oldest
      first, each with its items. */
  function GetByRequesterId(requests: seq<ItemRequest>, items: seq<Item>, users: set<int>,
                            userId: int): (r: Result<seq<RequestView>>)
    ensures r.Err? <==> userId !in users
    ensures r.Err? ==> r.error == NotFound
    ensures r.Ok? ==> (
      var mine := MineByCreated(requests, userId);
      && |r.value| == |mine|
      && forall i :: 0 <= i < |r.value| ==>
           r.value[i].request == mine[i] && r.value[i].items == ItemsOf(items, mine[i].id))
  {
    if userId !in users then Err(NotFound)
    else Ok(Views(MineByCreated(requests, userId), items))
  }

  /** getAllRequest: the caller must exist; then one page of everybody else's
      requests, in table order (the page request carries no sort), each with its items. */
  function GetAllRequest(requests: seq<ItemRequest>, items: seq<Item>, users: set<int>,
                         userId: int, page: nat, size: nat): (r: Result<seq<RequestView>>)
    requires size > 0
    ensures r.Err? <==> userId !in users
    ensures r.Err? ==> r.error == NotFound
    ensures r.Ok? ==> |r.value| <= size
    ensures r.Ok? ==> (
      var p := Page(Others(requests, userId), page, size);
      && |r.value| == |p|
      && forall i :: 0 <= i < |r.value| ==>
           r.value[i].request == p[i] &&
           r.value[i].request in requests && r.value[i].request.requesterId != userId &&
           r.value[i].items == ItemsOf(items, r.value[i].request.id))
  {
    if userId !in users then Err(NotFound)
    else
      var p := Page(Others(requests, userId), page, size);
      assert forall i :: 0 <= i < |p| ==> p[i] in Others(requests, userId);
      Ok(Views(p, items))
  }

  /** The request table and its id sequence. */
  class ItemRequestService {
    var requests: seq<ItemRequest>
    var nextId: int

    ghost predicate Valid()
      reads this
    {
      && UniqueKeys(requests, RequestIdOf)
      && forall q :: q in requests ==> q.id < nextId
    }

    constructor ()
      ensures Valid() && requests == []
    {
      requests := [];
      nextId := 1;
    }

    /** createRequest: the caller must exist; then exactly one request is stored,
        made by the caller at `now`, and a later getByIdRequest finds it. */
    method CreateRequest(userId: int, description: string, users: set<int>, now: Time)
      returns (r: Result<ItemRequest>)
      requires Valid()
      modifies this
      ensures Valid()
      ensures userId !in users ==> r == Err(NotFound) && requests == old(requests) && nextId == old(nextId)
      ensures userId in users ==> (
        && r == Ok(ItemRequest(old(nextId), description, userId, now))
        && requests == old(requests) + [r.value]
        && nextId == old(nextId) + 1)
      ensures r.Ok? ==> forall items :: GetByIdRequest(requests, items, users, userId, r.value.id).Ok?
    {
      if userId !in users {
        return Err(NotFound);
      }
      var request := ItemRequest(nextId, description, userId, now);
      requests := requests + [request];
      nextId := nextId + 1;
      r := Ok(request);
      assert request in requests;
    }
  }
}
