/** The list-backed item store of the earlier revision: items in insertion order, a counter
    that supplies the next id and advances only when a create succeeds, replace-in-place
    updates and a case-insensitive search over available items. */
module ItemDao {
  import opened Common
  import opened Lists
  import opened Store
  import opened ItemService

  /** The item `updateItem` stores: the incoming item, with a null or empty name or
      description and a null availability taken from the stored item. */
  function MergeStored(stored: Item, id: int, input: ItemInput, ownerId: int): (r: Item)
    ensures r.id == id && r.ownerId == ownerId && r.requestId == input.requestId
    ensures r.name == KeepUnlessBlank(input.name, stored.name)
    ensures r.description == KeepUnlessBlank(input.description, stored.description)
    ensures r.available == if input.available.Some? then input.available.value
                           else stored.available
  {
    var available := if input.available.None? then stored.available else input.available.value;
    Item(id, KeepUnlessBlank(input.name, stored.name),
         KeepUnlessBlank(input.description, stored.description), available, ownerId,
         input.requestId)
  }

  /** The search condition: available, and the lower-cased name or, failing that, the
      lower-cased description contains the lower-cased text. */
  function TextHit(text: string): Item -> bool
  {
    (x: Item) => x.available
                 && (Contains(Lower(x.name), Lower(text))
                     || Contains(Lower(x.description), Lower(text)))
  }

  /** Some stored item has id `id`. */
  ghost predicate HasItemId(items: seq<Item>, id: int)
  {
    exists k :: 0 <= k < |items| && items[k].id == id
  }

  /** `k` is the position of the first item with id `id`. */
  ghost predicate FirstItemWithId(items: seq<Item>, id: int, k: int)
  {
    0 <= k < |items| && items[k].id == id && forall j :: 0 <= j < k ==> items[j].id != id
  }

  class InMemoryItemDao {
    var nextId: int
    var items: seq<Item>

    /** Ids are positive, below the counter and distinct. */
    ghost predicate Valid()
      reads this
    {
      && nextId >= 1
      && (forall k :: 0 <= k < |items| ==> 1 <= items[k].id < nextId)
      && (forall i, j :: 0 <= i < j < |items| ==> items[i].id != items[j].id)
    }

    constructor ()
      ensures Valid() && nextId == 1 && items == []
    {
      nextId := 1;
      items := [];
    }

    /** `createItem`: the item gets the counter's id; when it passes `validate`, it is
        appended and the counter advances; otherwise nothing changes. */
    method CreateItem(input: ItemInput, ownerId: int) returns (r: Result<Item>)
      requires Valid()
      modifies this
      ensures Valid()
      ensures ItemChecker(input).Some? ==>
                r == Err(ValidationException) && items == old(items) && nextId == old(nextId)
      ensures ItemChecker(input).None? ==>
                && r == Ok(Item(old(nextId), input.name.value, input.description.value,
                                input.available.value, ownerId, input.requestId))
                && items == old(items) + [r.value]
                && nextId == old(nextId) + 1
    {
      var id := nextId;
      var fault := ItemChecker(input);
      if fault.Some? {
        return Err(fault.value);
      }
      var item := Item(id, input.name.value, input.description.value, input.available.value,
                       ownerId, input.requestId);
      items := items + [item];
      nextId := nextId + 1;
      r := Ok(item);
    }

    /** `updateItem`: an absent id fails; otherwise the merged item replaces the stored one
        at its position and every other item stays. */
    method UpdateItem(id: int, input: ItemInput, ownerId: int) returns (r: Result<Item>)
      requires Valid()
      modifies this
      ensures Valid()
      ensures nextId == old(nextId)
      ensures r.Err? <==> !HasItemId(old(items), id)
      ensures r.Err? ==> r.error == ItemNotFoundException && items == old(items)
      ensures r.Ok? ==>
                && (exists k :: FirstItemWithId(old(items), id, k)
                                && r.value == MergeStored(old(items)[k], id, input, ownerId)
                                && items == old(items)[k := r.value])
    {
      var index := -1;
      var i := 0;
      while i < |items|
        invariant 0 <= i <= |items|
        invariant index == -1
        invariant forall k :: 0 <= k < i ==> items[k].id != id
      {
        if items[i].id == id {
          index := i;
          break;
        }
        i := i + 1;
      }
      if index == -1 {
        return Err(ItemNotFoundException);
      }
      assert FirstItemWithId(items, id, index);
      var item := MergeStored(items[index], id, input, ownerId);
      items := items[index := item];
      r := Ok(item);
    }

    /** `getItemById`: the first item with the id, or ItemNotFoundException. */
    method GetItemById(id: int) returns (r: Result<Item>)
      ensures r.Err? <==> !HasItemId(items, id)
      ensures r.Err? ==> r.error == ItemNotFoundException
      ensures r.Ok? ==> exists k :: FirstItemWithId(items, id, k) && r.value == items[k]
    {
      var i := 0;
      while i < |items|
        invariant 0 <= i <= |items|
        invariant forall k :: 0 <= k < i ==> items[k].id != id
      {
        if items[i].id == id {
          assert FirstItemWithId(items, id, i);
          return Ok(items[i]);
        }
        i := i + 1;
      }
      return Err(ItemNotFoundException);
    }

    /** `search`: a null or empty text gives an empty list; otherwise the stored items the
        search condition selects, in list order. */
    method Search(text: Option<string>) returns (r: seq<Item>)
      ensures Blank(text) ==> r == []
      ensures !Blank(text) ==> r == Filter(items, TextHit(text.value))
    {
      r := [];
      if text.None? || text.value == "" {
        return;
      }
      var i := 0;
      while i < |items|
        invariant 0 <= i <= |items|
        invariant r == Filter(items[..i], TextHit(text.value))
      {
        assert items[..i + 1] == items[..i] + [items[i]];
        FilterSnoc(items[..i], items[i], TextHit(text.value));
        var item := items[i];
        if item.available {
          if Contains(Lower(item.name), Lower(text.value)) {
            r := r + [item];
          } else if Contains(Lower(item.description), Lower(text.value)) {
            r := r + [item];
          }
        }
        i := i + 1;
      }
      assert items[..i] == items;
    }
  }

  /** What a search answers, in terms of the stored list: exactly the matching items, in
      list order, and each of them once. */
  lemma SearchAnswers(items: seq<Item>, text: string, x: Item)
    requires forall i, j :: 0 <= i < j < |items| ==> items[i].id != items[j].id
    ensures x in Filter(items, TextHit(text)) <==>
              x in items && x.available
              && (Contains(Lower(x.name), Lower(text)) || Contains(Lower(x.description), Lower(text)))
    ensures Subsequence(Filter(items, TextHit(text)), items)
    ensures multiset(Filter(items, TextHit(text)))[x] <= 1
  {
    FilterIsSubsequence(items, TextHit(text));
    FilterCount(items, TextHit(text), x);
    DistinctAtMostOnce(items, x);
  }
}
