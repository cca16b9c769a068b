/** The two static tables of src/Structure.hpp: item kinds 1..7 with their
    recipes and prices, and station kinds 1..9 with the items they buy, their
    production cycle and the item they produce (0 for the sinks 8 and 9). */
module Catalog {
  import opened Lookup

  datatype ItemType = ItemType(formula: seq<int>, purchasePrice: real, originalSellingPrice: real)

  datatype WorktopType = WorktopType(purchasingItemTypes: seq<int>, producingItem: int, workCycle: int)

  /** A station kind; every station on a map has one of these nine kinds. */
  type StationKind = k: int | 1 <= k <= 9 witness 1

  /** Item table lookup; an item kind outside 1..7 is absent from the table. */
  function ItemTypeOf(t: int): (r: Option<ItemType>)
    ensures r.Some? <==> 1 <= t <= 7
  {
    if t == 1 then Some(ItemType([], 3000.0, 4000.0))
    else if t == 2 then Some(ItemType([], 4400.0, 7600.0))
    else if t == 3 then Some(ItemType([], 5800.0, 9200.0))
    else if t == 4 then Some(ItemType([1, 2], 15400.0, 22500.0))
    else if t == 5 then Some(ItemType([1, 3], 17200.0, 25000.0))
    else if t == 6 then Some(ItemType([2, 3], 19200.0, 27500.0))
    else if t == 7 then Some(ItemType([4, 5, 6], 76000.0, 105000.0))
    else None
  }

  /** Station table lookup. */
  function WorktopTypeOf(k: StationKind): WorktopType {
    match k
    case 1 => WorktopType([], 1, 50)
    case 2 => WorktopType([], 2, 50)
    case 3 => WorktopType([], 3, 50)
    case 4 => WorktopType([1, 2], 4, 500)
    case 5 => WorktopType([1, 3], 5, 500)
    case 6 => WorktopType([2, 3], 6, 500)
    case 7 => WorktopType([4, 5, 6], 7, 1000)
    case 8 => WorktopType([7], 0, 1)
    case 9 => WorktopType([1, 2, 3, 4, 5, 6, 7], 0, 1)
  }

  /** The two tables agree: a producing station buys exactly the recipe of the
      item it makes, every cycle is positive, every input is an item kind, the
      raw-material stations 1..3 buy nothing and the sinks 8, 9 make item 0. */
  lemma TablesConsistent(k: StationKind)
    ensures WorktopTypeOf(k).workCycle > 0
    ensures forall i :: 0 <= i < |WorktopTypeOf(k).purchasingItemTypes| ==>
              1 <= WorktopTypeOf(k).purchasingItemTypes[i] <= 7
    ensures k <= 7 ==> WorktopTypeOf(k).producingItem == k
    ensures k <= 7 ==> ItemTypeOf(k).value.formula == WorktopTypeOf(k).purchasingItemTypes
    ensures k >= 8 ==> WorktopTypeOf(k).producingItem == 0
    ensures WorktopTypeOf(k).purchasingItemTypes == [] <==> k <= 3
  {
    match k
    case 1 =>
    case 2 =>
    case 3 =>
    case 4 =>
    case 5 =>
    case 6 =>
    case 7 =>
    case 8 =>
    case 9 =>
  }
}
