/**
  The `/fooditems` endpoints over an in-memory item store: GET lists the
  items by expiration date, POST validates and inserts, DELETE removes by
  id. The database's `SaveChanges` is the assignment to `items`; the id the
  database assigns is the store's `nextId` counter, which never goes back,
  so an id is never reused after a deletion.
*/
module FoodStore {
  import opened Wrappers
  import opened FoodModel
  import opened Decimal
  import opened Ordering

  const NameRequired: string := "Name is required"
  const DateRequired: string := "ExpirationDate is required"
  const DuplicateName: string := "Food item with the same name already exists"
  const ItemsPath: string := "/fooditems/"

  /** The result objects the handlers return. */
  datatype Response =
    | Created(location: string, item: FoodItem)
    | NoContent
    | BadRequest(message: string)
    | Conflict(message: string)
    | NotFound

  /** Position of the item with primary key `id`, as `FindAsync(id)` looks it up. */
  function IndexOfId(items: seq<FoodItem>, id: int): (r: Option<nat>)
    ensures r.None? <==> forall k :: 0 <= k < |items| ==> items[k].Id != id
    ensures r.Some? ==> r.value < |items| && items[r.value].Id == id
    decreases |items|
  {
    if items == [] then None
    else if items[0].Id == id then Some(0)
    else match IndexOfId(items[1..], id)
      case None => None
      case Some(k) => Some(k + 1)
  }

  /** Every stored item passed the POST validation and carries a database-issued id. */
  ghost predicate WellFormed(items: seq<FoodItem>, nextId: int) {
    && (forall k :: 0 <= k < |items| ==> !IsNullOrWhiteSpace(items[k].Name) && items[k].ExpirationDate != DefaultDate)
    && (forall k :: 0 <= k < |items| ==> 1 <= items[k].Id < nextId)
    && (forall i, j :: 0 <= i < j < |items| ==> items[i].Id < items[j].Id)
    && NamesUnique(items)
  }

  class Store {
    var items: seq<FoodItem>
    var nextId: nat

    ghost predicate Valid()
      reads this
    {
      nextId >= 1 && WellFormed(items, nextId)
    }

    constructor ()
      ensures Valid() && items == [] && nextId == 1
    {
      items := [];
      nextId := 1;
    }

    /** GET /fooditems: the stored items in ascending order of expiration date. */
    function List(): (r: seq<FoodItem>)
      reads this
      ensures SortedByExpiration(r)
      ensures multiset(r) == multiset(items)
    {
      SortByExpiration(items)
    }

    /** POST /fooditems: the two required-field checks, then the uniqueness check, then the insert. */
    method Create(name: Option<string>, expirationDate: int) returns (r: Response)
      requires Valid()
      modifies this
      ensures Valid()
      ensures IsNullOrWhiteSpace(name) ==>
        r == BadRequest(NameRequired) && items == old(items) && nextId == old(nextId)
      ensures !IsNullOrWhiteSpace(name) && expirationDate == DefaultDate ==>
        r == BadRequest(DateRequired) && items == old(items) && nextId == old(nextId)
      ensures !IsNullOrWhiteSpace(name) && expirationDate != DefaultDate && NameTaken(old(items), name.value) ==>
        r == Conflict(DuplicateName) && items == old(items) && nextId == old(nextId)
      ensures !IsNullOrWhiteSpace(name) && expirationDate != DefaultDate && !NameTaken(old(items), name.value) ==>
        var item := FoodItem(old(nextId), name, expirationDate);
        && r == Created(ItemsPath + NatToString(old(nextId)), item)
        && items == old(items) + [item]
        && nextId == old(nextId) + 1
    {
      if IsNullOrWhiteSpace(name) {
        return BadRequest(NameRequired);
      }
      if expirationDate == DefaultDate {
        return BadRequest(DateRequired);
      }
      if NameTaken(items, name.value) {
        return Conflict(DuplicateName);
      }
      var item := FoodItem(nextId, name, expirationDate);
      AppendKeepsNamesUnique(items, item);
      items := items + [item];
      nextId := nextId + 1;
      r := Created(ItemsPath + NatToString(item.Id), item);
    }

    /** DELETE /fooditems/{id}: removes the item with that id, or reports NotFound. */
    method Delete(id: int) returns (r: Response)
      requires Valid()
      modifies this
      ensures Valid() && nextId == old(nextId)
      ensures IndexOfId(old(items), id).None? ==> r == NotFound && items == old(items)
      ensures IndexOfId(old(items), id).Some? ==>
        var k := IndexOfId(old(items), id).value;
        && r == NoContent
        && items == old(items)[..k] + old(items)[k + 1..]
    {
      var found := IndexOfId(items, id);
      if found.None? {
        return NotFound;
      }
      var k := found.value;
      RemoveKeepsWellFormed(items, nextId, k);
      items := items[..k] + items[k + 1..];
      r := NoContent;
    }
  }

  lemma RemoveKeepsWellFormed(items: seq<FoodItem>, nextId: int, k: nat)
    requires k < |items| && WellFormed(items, nextId)
    ensures WellFormed(items[..k] + items[k + 1..], nextId)
  {
    var s := items[..k] + items[k + 1..];
    RemoveKeepsNamesUnique(items, k);
    forall i, j | 0 <= i < j < |s| ensures s[i].Id < s[j].Id {
      var i', j' := if i < k then i else i + 1, if j < k then j else j + 1;
      assert s[i] == items[i'] && s[j] == items[j'];
    }
  }

  /** Deleting by id removes exactly the one item with that id: no item with that id is left, and every other item is kept. */
  lemma DeleteRemovesExactlyOne(items: seq<FoodItem>, nextId: int, id: int)
    requires WellFormed(items, nextId) && IndexOfId(items, id).Some?
    ensures var k := IndexOfId(items, id).value;
      var s := items[..k] + items[k + 1..];
      && multiset(s) == multiset(items) - multiset{items[k]}
      && (forall j :: 0 <= j < |s| ==> s[j].Id != id)
  {
    var k := IndexOfId(items, id).value;
    var s := items[..k] + items[k + 1..];
    assert items == s[..k] + [items[k]] + s[k..];
    assert s == s[..k] + s[k..];
    forall j | 0 <= j < |s| ensures s[j].Id != id {
      if j < k {
        assert s[j] == items[j];
      } else {
        assert s[j] == items[j + 1];
      }
    }
  }

  /** Once created, an item is listed by GET. */
  lemma CreatedItemIsListed(items: seq<FoodItem>, item: FoodItem)
    ensures item in SortByExpiration(items + [item])
  {
    SortKeepsItems(items + [item], item);
  }

  lemma MilkFacts(item: FoodItem)
    ensures !IsNullOrWhiteSpace(Some("Milk")) && !IsNullOrWhiteSpace(Some("milk"))
    ensures NatToString(1) == "1"
    ensures item.Name == Some("Milk") ==> SameName(item, "milk")
    ensures SortByExpiration([item]) == [item]
  {
    assert !IsWhiteSpace('M') && !IsWhiteSpace('m');
    ToLowerIgnoresCase("milk", "Milk");
    assert [item][1..] == [];
  }

  /** A store that accepted "Milk" rejects "milk" as a duplicate, and lists the one item it accepted. */
  method MilkThenMilk(expirationDate: int) returns (first: Response, second: Response, listed: seq<FoodItem>)
    requires expirationDate != DefaultDate
    ensures first == Created(ItemsPath + "1", FoodItem(1, Some("Milk"), expirationDate))
    ensures second == Conflict(DuplicateName)
    ensures listed == [FoodItem(1, Some("Milk"), expirationDate)]
  {
    var milk := FoodItem(1, Some("Milk"), expirationDate);
    MilkFacts(milk);
    var store := new Store();
    first := store.Create(Some("Milk"), expirationDate);
    assert store.items == [milk] && store.items[0] == milk;
    second := store.Create(Some("milk"), expirationDate);
    listed := store.List();
  }
}
