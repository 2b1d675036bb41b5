/** `itemsReducer` (src/utils/reducers/itemsReducer.ts): the items shown and the selection. */
module ItemsReducer {
  import opened DataRoom
  import opened ItemLists

  datatype ItemsState = ItemsState(items: seq<Item>, selectedItems: seq<string>)

  /**
   * The actions of the reducer's union type. `UpdateItem` carries the tick
   * `new Date()` reads; `Unrecognised` is any other action type.
   */
  datatype ItemsAction =
    | SetItems(items: seq<Item>)
    | AddItem(item: Item)
    | UpdateItem(id: string, updates: Patch, now: nat)
    | DeleteItem(id: string)
    | DeleteItems(ids: seq<string>)
    | SetSelectedItems(selection: seq<string>)
    | ClearSelection
    | Unrecognised(tag: string)

  const InitialItemsState: ItemsState := ItemsState([], [])

  function Reduce(state: ItemsState, action: ItemsAction): ItemsState {
    match action
    case SetItems(items) => state.(items := items)
    case AddItem(item) => state.(items := state.items + [item])
    case UpdateItem(id, updates, now) => state.(items := UpdateWhereId(state.items, id, updates, now))
    case DeleteItem(id) => state.(items := WithoutId(state.items, id))
    case DeleteItems(ids) => state.(items := WithoutIds(state.items, ids))
    case SetSelectedItems(selection) => state.(selectedItems := selection)
    case ClearSelection => state.(selectedItems := [])
    case Unrecognised(_) => state
  }

  /** The list actions never touch the selection; the selection actions never touch the list. */
  lemma ActionsKeepTheirLane(state: ItemsState, action: ItemsAction)
    ensures !action.SetSelectedItems? && !action.ClearSelection? ==>
              Reduce(state, action).selectedItems == state.selectedItems
    ensures action.SetSelectedItems? || action.ClearSelection? || action.Unrecognised? ==>
              Reduce(state, action).items == state.items
    ensures action.ClearSelection? ==> Reduce(state, action).selectedItems == []
    ensures action.Unrecognised? ==> Reduce(state, action) == state
  {
  }

  /** ADD_ITEM appends at the end and the length grows by one. */
  lemma AddItemAppends(state: ItemsState, item: Item)
    ensures var r := Reduce(state, AddItem(item));
      && |r.items| == |state.items| + 1
      && r.items[..|state.items|] == state.items && r.items[|state.items|] == item
  {
  }

  /** UPDATE_ITEM keeps length and order and changes only the entries of that id. */
  lemma UpdateItemTouchesOnlyThatId(state: ItemsState, id: string, updates: Patch, now: nat)
    ensures var r := Reduce(state, UpdateItem(id, updates, now));
      && |r.items| == |state.items|
      && (forall i :: 0 <= i < |state.items| && state.items[i].id != id ==> r.items[i] == state.items[i])
      && (forall i :: 0 <= i < |state.items| && state.items[i].id == id ==>
            r.items[i] == Apply(state.items[i], updates).(updatedAt := now))
  {
  }

  /** DELETE_ITEM keeps exactly the entries of other ids, in their original order. */
  lemma DeleteItemKeepsOthers(state: ItemsState, id: string)
    ensures var r := Reduce(state, DeleteItem(id));
      && (forall x :: x in r.items <==> x in state.items && x.id != id)
      && IsSubsequence(r.items, state.items)
  {
    var r := Reduce(state, DeleteItem(id));
    assert r.items == WithoutId(state.items, id);
    WithoutIdKeepsOrder(state.items, id);
  }

  /** DELETE_ITEMS keeps exactly the entries whose id is not listed, in their original order. */
  lemma DeleteItemsKeepsOthers(state: ItemsState, ids: seq<string>)
    ensures var r := Reduce(state, DeleteItems(ids));
      && (forall x :: x in r.items <==> x in state.items && x.id !in ids)
      && (forall x: Item :: x.id !in ids ==> multiset(r.items)[x] == multiset(state.items)[x])
      && IsSubsequence(r.items, state.items)
  {
    var r := Reduce(state, DeleteItems(ids));
    assert r.items == WithoutIds(state.items, ids);
    WithoutIdsKeepsOrder(state.items, ids);
  }
}
