/** The in-memory item repository (ItemRepositoryInMemory): a map from id to item
    and the next id to hand out. The user service it consults is the set of ids of
    existing users. HashMap iteration order is not modelled: the lists its queries
    return are modelled as the sets of their elements. */
module ItemStore {
  import opened Common
  import opened Domain
  import opened JavaText

  /** An item as passed to updateItem: id and owner, and the fields to change,
      where None stands for null. */
  datatype ItemUpdate = ItemUpdate(
    id: int,
    ownerId: int,
    name: Option<string>,
    description: Option<string>,
    available: Option<bool>)

  /** A nullable field of an update replaces the current value when present. */
  function OrKeep<T>(current: T, patch: Option<T>): T {
    if patch.Some? then patch.value else current
  }

  /** getItemById: the item stored under the id, or NotFound. */
  function GetItemById(items: map<int, Item>, id: int): (r: Result<Item>)
    ensures r.Ok? <==> id in items
    ensures r.Ok? ==> r.value == items[id]
    ensures r.Err? ==> r.error == NotFound
  {
    if id in items then Ok(items[id]) else Err(NotFound)
  }

  /** The search filter as written: the item's lower-cased name or description
      contains the text, which is used as given. */
  predicate MatchesAsWritten(item: Item, text: string) {
    item.available && (Contains(Lower(item.name), text) || Contains(Lower(item.description), text))
  }

  /** search: the available items whose lower-cased name or description contains the text. */
  function Search(items: map<int, Item>, text: string): (r: set<Item>)
    ensures forall k :: k in items && MatchesAsWritten(items[k], text) ==> items[k] in r
    ensures forall it :: it in r ==> it in items.Values && MatchesAsWritten(it, text)
  {
    set k | k in items && MatchesAsWritten(items[k], text) :: items[k]
  }

  /** Because only the items' fields are lower-cased, a text with an ASCII capital
      letter finds nothing, whatever is stored. */
  lemma {:induction false} SearchMissesCapitalised(items: map<int, Item>, text: string, k: int)
    requires 0 <= k < |text| && IsAsciiCapital(text[k])
    ensures Search(items, text) == {}
  {
    forall it: Item ensures !MatchesAsWritten(it, text) {
      CapitalNeverInLower(it.name, text, k);
      CapitalNeverInLower(it.description, text, k);
    }
  }

  /** The evident intent: lower-case the text too, so that the search ignores case
      on both sides. */
  predicate MatchesIgnoringCase(item: Item, text: string) {
    item.available &&
    (Contains(Lower(item.name), Lower(text)) || Contains(Lower(item.description), Lower(text)))
  }

  function SearchIgnoringCase(items: map<int, Item>, text: string): (r: set<Item>)
    ensures forall k :: k in items && MatchesIgnoringCase(items[k], text) ==> items[k] in r
    ensures forall it :: it in r ==> it in items.Values && MatchesIgnoringCase(it, text)
  {
    set k | k in items && MatchesIgnoringCase(items[k], text) :: items[k]
  }

  /** The corrected search does not depend on the case of the text. */
  lemma {:induction false} SearchIgnoresCase(items: map<int, Item>, text: string)
    ensures SearchIgnoringCase(items, text) == SearchIgnoringCase(items, Lower(text))
  {
    LowerIdempotent(text);
    assert forall it: Item :: MatchesIgnoringCase(it, text) == MatchesIgnoringCase(it, Lower(text));
  }

  /** The corrected search finds every available item by its own name. */
  lemma {:induction false} SearchIgnoringCaseFindsOwnName(items: map<int, Item>, text: string)
    ensures forall k :: k in items && items[k].available && items[k].name == text ==>
              items[k] in SearchIgnoringCase(items, text)
  {
    ContainsItself(Lower(text));
  }

  /** On a text without capitals the corrected search is the search as written. */
  lemma SearchIgnoringCaseOnLowerText(items: map<int, Item>, text: string)
    requires Lower(text) == text
    ensures SearchIgnoringCase(items, text) == Search(items, text)
  {
    assert forall it: Item :: MatchesIgnoringCase(it, text) == MatchesAsWritten(it, text);
  }

  /** A concrete store showing the difference: the mixed-case query "oTvErTkA"
      does not find an item named "OtVeRtKa" as written, and does with the
      corrected search. */
  lemma MixedCaseQueryExample()
    ensures var item := Item(1, "OtVeRtKa", "Item description 1", true, 1, None);
            var items := map[1 := item];
            Search(items, "oTvErTkA") == {} && item in SearchIgnoringCase(items, "oTvErTkA")
  {
    var item := Item(1, "OtVeRtKa", "Item description 1", true, 1, None);
    var items := map[1 := item];
    assert IsAsciiCapital("oTvErTkA"[1]);
    SearchMissesCapitalised(items, "oTvErTkA", 1);
    SameLowerForm();
    ContainsItself(Lower("oTvErTkA"));
    assert MatchesIgnoringCase(items[1], "oTvErTkA");
  }

  /** "OtVeRtKa" and "oTvErTkA" have the same lower-case form. */
  lemma SameLowerForm()
    ensures Lower("OtVeRtKa") == Lower("oTvErTkA")
  {
    LowerOfQuery();
    LowerOfName();
  }

  lemma LowerOfQuery()
    ensures Lower("oTvErTkA") == "otvertka"
  {
    var s := "oTvErTkA";
    LowerOfAscii(s);
    var l := Lower(s);
    assert l[0] == 'o' && l[1] == 't' && l[2] == 'v' && l[3] == 'e';
    assert l[4] == 'r' && l[5] == 't' && l[6] == 'k' && l[7] == 'a';
  }

  lemma LowerOfName()
    ensures Lower("OtVeRtKa") == "otvertka"
  {
    var s := "OtVeRtKa";
    LowerOfAscii(s);
    var l := Lower(s);
    assert l[0] == 'o' && l[1] == 't' && l[2] == 'v' && l[3] == 'e';
    assert l[4] == 'r' && l[5] == 't' && l[6] == 'k' && l[7] == 'a';
  }

  /** getItemsByOwner: exactly the stored items of that owner. */
  function GetItemsByOwner(items: map<int, Item>, userId: int): (r: set<Item>)
    ensures forall k :: k in items && items[k].ownerId == userId ==> items[k] in r
    ensures forall it :: it in r ==> it in items.Values && it.ownerId == userId
  {
    set k | k in items && items[k].ownerId == userId :: items[k]
  }

  class ItemRepositoryInMemory {
    var items: map<int, Item>
    var idMax: int

    /** Every item is stored under its own id, and every id is below idMax, so
        idMax is always fresh. */
    ghost predicate Valid()
      reads this
    {
      && idMax >= 1
      && forall k :: k in items ==> items[k].id == k && 1 <= k < idMax
    }

    constructor ()
      ensures Valid() && items == map[] && idMax == 1
    {
      items := map[];
      idMax := 1;
    }

    /** createItem: the owner must exist; the item gets id idMax, which then
        grows by one, and is stored under it; no other entry changes. */
    method CreateItem(item: Item, users: set<int>) returns (r: Result<Item>)
      requires Valid()
      modifies this
      ensures Valid()
      ensures item.ownerId !in users ==> r == Err(NotFound) && items == old(items) && idMax == old(idMax)
      ensures item.ownerId in users ==> (
        && r == Ok(item.(id := old(idMax)))
        && old(idMax) !in old(items)
        && items == old(items)[old(idMax) := r.value]
        && idMax == old(idMax) + 1)
    {
      if item.ownerId !in users {
        return Err(NotFound);
      }
      var stored := item.(id := idMax);
      idMax := idMax + 1;
      items := items[stored.id := stored];
      r := Ok(stored);
    }

    /** updateItem: the caller's owner id must be a user, the item must exist and
        belong to that owner; then every non-null field replaces the stored one. */
    method UpdateItem(update: ItemUpdate, users: set<int>) returns (r: Result<Item>)
      requires Valid()
      modifies this
      ensures Valid() && idMax == old(idMax)
      ensures r.Ok? <==> (update.ownerId in users && update.id in old(items) &&
                          update.ownerId == old(items)[update.id].ownerId)
      ensures update.ownerId !in users ==> r == Err(NotFound)
      ensures update.ownerId in users && update.id !in old(items) ==> r == Err(NotFound)
      ensures (update.ownerId in users && update.id in old(items) &&
               update.ownerId != old(items)[update.id].ownerId) ==> r == Err(Forbidden)
      ensures r.Err? ==> items == old(items)
      ensures r.Ok? ==> (
        var before := old(items)[update.id];
        && update.id in old(items)
        && update.ownerId == before.ownerId
        && r.value == before.(name := OrKeep(before.name, update.name),
                              description := OrKeep(before.description, update.description),
                              available := OrKeep(before.available, update.available))
        && items == old(items)[update.id := r.value])
    {
      if update.ownerId !in users {
        return Err(NotFound);
      }
      if update.id !in items {
        return Err(NotFound);
      }
      var item := items[update.id];
      if update.ownerId != item.ownerId {
        return Err(Forbidden);
      }
      if update.name.Some? {
        item := item.(name := update.name.value);
      }
      if update.description.Some? {
        item := item.(description := update.description.value);
      }
      if update.available.Some? {
        item := item.(available := update.available.value);
      }
      items := items[item.id := item];
      r := Ok(item);
    }

    /** deleteItem: removes the id if present, and always answers true. */
    method DeleteItem(id: int) returns (r: bool)
      requires Valid()
      modifies this
      ensures Valid() && r
      ensures items == old(items) - {id} && idMax == old(idMax)
    {
      items := items - {id};
      r := true;
    }
  }

  /** A created item is listed among its owner's items; a deleted one is never
      found again, neither by id nor by owner nor by search. */
  lemma CreatedListedDeletedGone(items: map<int, Item>, item: Item, id: int, text: string)
    requires forall k :: k in items ==> items[k].id == k
    requires id !in items
    ensures item.(id := id) in GetItemsByOwner(items[id := item.(id := id)], item.ownerId)
    ensures GetItemById(items - {id}, id) == Err(NotFound)
    ensures forall owner: int, it: Item :: it in GetItemsByOwner(items - {id}, owner) ==> it.id != id
    ensures forall it: Item :: it in Search(items - {id}, text) ==> it.id != id
  {
    var after := items[id := item.(id := id)];
    assert id in after && after[id] == item.(id := id);
  }
}
