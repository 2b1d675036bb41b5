/**
 * The contract of the item repository (`IDataLayer` in src/services/DataLayer.ts)
 * stated on values: a snapshot of the store and what each operation returns and
 * leaves behind. The class `DataLayer.IndexedDBDataLayer` is proved against it.
 */
module Repository {
  import opened Wrappers
  import opened DataRoom
  import Text

  const NotInitialized: string := "Database not initialized"
  const CreateFailed: string := "Failed to create item"

  function NotFoundMessage(id: string): string {
    "Item with id " + id + " not found"
  }

  function DeleteFailedMessage(id: string): string {
    "Failed to delete item with id: " + id
  }

  /**
   * `initialized` is `db !== null`; `items` is the object store keyed by id; `clock`
   * is the next tick `new Date()` would read.
   */
  datatype Store = Store(initialized: bool, items: map<string, Item>, clock: nat)

  /** What an operation returns, and the store it leaves behind. */
  datatype Step<T> = Step(result: Result<T>, store: Store)

  /** Every record is stored under its own id, and no timestamp lies in the future. */
  predicate WellFormed(s: Store) {
    forall k :: k in s.items ==>
      s.items[k].id == k && s.items[k].createdAt <= s.items[k].updatedAt < s.clock
  }

  /** The records the `parentId` index yields for `parentId` (null selects the roots). */
  function Children(items: map<string, Item>, parentId: Option<string>): map<string, Item> {
    map k | k in items && items[k].parentId == parentId :: items[k]
  }

  /** `s` lists every record of `m` exactly once, in some order. */
  ghost predicate Lists(s: seq<Item>, m: map<string, Item>) {
    && |s| == |m|
    && (forall i :: 0 <= i < |s| ==> s[i].id in m && m[s[i].id] == s[i])
    && (forall i, j :: 0 <= i < j < |s| ==> s[i].id != s[j].id)
    && (forall k :: k in m ==> m[k] in s)
  }

  /** `items.map(item => item.id)`. */
  function IdsOf(s: seq<Item>): (ids: seq<string>)
    ensures |ids| == |s| && forall i :: 0 <= i < |s| ==> ids[i] == s[i].id
  {
    seq(|s|, i requires 0 <= i < |s| => s[i].id)
  }

  /** The ids of a listing are exactly the stored keys, each once. */
  lemma ListedIds(s: seq<Item>, m: map<string, Item>)
    requires Lists(s, m) && forall k :: k in m ==> m[k].id == k
    ensures forall k :: k in IdsOf(s) <==> k in m
    ensures forall i, j :: 0 <= i < j < |s| ==> IdsOf(s)[i] != IdsOf(s)[j]
  {
    var ids := IdsOf(s);
    forall k | k in m ensures k in ids {
      var i :| 0 <= i < |s| && s[i] == m[k];
    }
  }

  lemma {:induction false} DistinctIdsOccurOnce(s: seq<Item>, x: Item)
    requires forall i, j :: 0 <= i < j < |s| ==> s[i].id != s[j].id
    ensures multiset(s)[x] <= 1
  {
    if s != [] {
      assert s == [s[0]] + s[1..];
      DistinctIdsOccurOnce(s[1..], x);
      if s[0] == x {
        assert x !in s[1..];
      }
    }
  }

  /** A listing holds each stored record once: it is the multiset of the store's records. */
  lemma ListsAsMultiset(s: seq<Item>, m: map<string, Item>)
    requires Lists(s, m)
    ensures multiset(s) == multiset(m.Values)
  {
    forall x ensures multiset(s)[x] == multiset(m.Values)[x] {
      DistinctIdsOccurOnce(s, x);
      if x in m.Values {
        var k :| k in m && m[k] == x;
        assert x in s;
      } else {
        assert x !in s;
      }
    }
  }

  function ItemById(s: Store, id: string): Result<Option<Item>> {
    if !s.initialized then Err(NotInitialized)
    else if id in s.items then Ok(Some(s.items[id]))
    else Ok(None)
  }

  /**
   * `createItem`: the record gets the id the random source produced and two equal
   * timestamps; `store.add` refuses an id that is already stored.
   */
  function CreateItem(s: Store, data: NewItem, newId: string): Step<Item> {
    if !s.initialized then Step(Err(NotInitialized), s)
    else if newId in s.items then Step(Err(CreateFailed), s)
    else
      var item := Materialize(data, newId, s.clock);
      Step(Ok(item), s.(items := s.items[newId := item], clock := s.clock + 1))
  }

  /** `updateItem`: the patch spread over the stored record, then `id`, `createdAt` restored and `updatedAt` refreshed. */
  function UpdateItem(s: Store, id: string, patch: Patch): Step<Item> {
    if !s.initialized then Step(Err(NotInitialized), s)
    else if id !in s.items then Step(Err(NotFoundMessage(id)), s)
    else
      var existing := s.items[id];
      var updated := Apply(existing, patch).(id := id, createdAt := existing.createdAt, updatedAt := s.clock);
      Step(Ok(updated), s.(items := s.items[id := updated], clock := s.clock + 1))
  }

  /**
   * `deleteItem`: removes the record, silently when it is absent. `fault` says whether
   * the storage medium fails the request.
   */
  function DeleteItem(s: Store, id: string, fault: bool): Step<()> {
    if !s.initialized then Step(Err(NotInitialized), s)
    else if fault then Step(Err(DeleteFailedMessage(id)), s)
    else Step(Ok(()), s.(items := s.items - {id}))
  }

  /** While the database is not open every operation fails and changes nothing. */
  lemma UninitializedRefusesEverything(s: Store, id: string, data: NewItem, patch: Patch, fault: bool)
    requires !s.initialized
    ensures ItemById(s, id) == Err(NotInitialized)
    ensures CreateItem(s, data, id) == Step(Err(NotInitialized), s)
    ensures UpdateItem(s, id, patch) == Step(Err(NotInitialized), s)
    ensures DeleteItem(s, id, fault) == Step(Err(NotInitialized), s)
  {
  }

  /**
   * `createItem` stores one new record under a fresh id, with `createdAt == updatedAt`
   * and the given data, and leaves every other record as it was; an id that is
   * already stored makes it fail without change.
   */
  lemma CreateItemContract(s: Store, data: NewItem, newId: string)
    requires WellFormed(s)
    ensures var r := CreateItem(s, data, newId);
      && (r.result.Ok? <==> s.initialized && newId !in s.items)
      && (r.result.Err? ==> r.store == s)
      && (s.initialized && newId in s.items ==> r.result == Err(CreateFailed))
      && (r.result.Ok? ==>
            var item := r.result.value;
            && item.id == newId && item.createdAt == item.updatedAt && DataOf(item) == data
            && r.store.items.Keys == s.items.Keys + {newId}
            && r.store.items[newId] == item
            && (forall k :: k in s.items ==> r.store.items[k] == s.items[k])
            && (forall k :: k in s.items ==> s.items[k].updatedAt < item.createdAt)
            && WellFormed(r.store))
  {
  }

  /**
   * `updateItem` fails on an absent id without change; otherwise it merges the patch
   * over the record, keeps `id` and `createdAt`, sets an `updatedAt` later than any
   * stored timestamp, and touches no other record.
   */
  lemma UpdateItemContract(s: Store, id: string, patch: Patch)
    requires WellFormed(s)
    ensures var r := UpdateItem(s, id, patch);
      && (r.result.Ok? <==> s.initialized && id in s.items)
      && (r.result.Err? ==> r.store == s)
      && (s.initialized && id !in s.items ==> r.result == Err(NotFoundMessage(id)))
      && (r.result.Ok? ==>
            var old_ := s.items[id];
            var item := r.result.value;
            && item.id == id && item.createdAt == old_.createdAt
            && item.updatedAt > old_.updatedAt
            && item.name == Pick(patch.name, old_.name)
            && item.parentId == Pick(patch.parentId, old_.parentId)
            && item.Folder? == old_.Folder?
            && (item.File? ==>
                  && item.mimeType == Pick(patch.mimeType, old_.mimeType)
                  && item.size == Pick(patch.size, old_.size)
                  && item.content == Pick(patch.content, old_.content))
            && r.store.items == s.items[id := item]
            && WellFormed(r.store))
  {
  }

  /** `deleteItem(id)` removes key `id` and nothing else; it is idempotent. */
  lemma DeleteItemContract(s: Store, id: string)
    requires WellFormed(s) && s.initialized
    ensures var r := DeleteItem(s, id, false);
      && r.result.Ok?
      && r.store.items.Keys == s.items.Keys - {id}
      && (forall k :: k in r.store.items ==> r.store.items[k] == s.items[k])
      && WellFormed(r.store)
      && DeleteItem(r.store, id, false) == Step(Ok(()), r.store)
  {
  }

  ghost function MaxLength(keys: set<string>): (n: nat)
    ensures forall k :: k in keys ==> |k| <= n
  {
    if keys == {} then 0
    else
      var k :| k in keys;
      var rest := MaxLength(keys - {k});
      if |k| > rest then |k| else rest
  }

  /** However many records are stored, some id is still free, so `createItem` can succeed. */
  lemma FreshIdExists(s: Store)
    ensures exists id :: id !in s.items
  {
    var id := seq(MaxLength(s.items.Keys) + 1, _ => 'x');
    assert id !in s.items;
  }

  /**
   * A ranking of the stored records in which every parent that is stored ranks below
   * its child; it exists exactly when the parent links have no cycle.
   */
  ghost predicate Acyclic(items: map<string, Item>, rank: map<string, nat>) {
    && items.Keys <= rank.Keys
    && forall k :: k in items && items[k].parentId.Some? && items[k].parentId.value in items ==>
         rank[items[k].parentId.value] < rank[k]
  }

  /** `k` reaches `root` by following at most `n` `parentId` links. */
  predicate ReachesWithin(items: map<string, Item>, k: string, root: string, n: nat)
    decreases n
  {
    k == root ||
    (n > 0 && k in items && items[k].parentId.Some? &&
     ReachesWithin(items, items[k].parentId.value, root, n - 1))
  }

  /** `k` is `root` or one of its descendants through `parentId` links. */
  ghost predicate InSubtree(items: map<string, Item>, k: string, root: string) {
    exists n: nat :: ReachesWithin(items, k, root, n)
  }

  /** In an acyclic store a stored record below a stored root ranks at least as high as it. */
  lemma {:induction false} SubtreeRanksAbove(items: map<string, Item>, rank: map<string, nat>,
                                             k: string, root: string, n: nat)
    requires Acyclic(items, rank) && root in items && k in items
    requires ReachesWithin(items, k, root, n)
    ensures rank[root] <= rank[k]
    decreases n
  {
    if k != root {
      var p := items[k].parentId.value;
      if p != root {
        SubtreeRanksAbove(items, rank, p, root, n - 1);
      }
    }
  }

  /**
   * A record created under an id that no stored record names as its parent cannot
   * close a cycle: the new record ranks just above its parent.
   */
  lemma CreateItemKeepsAcyclic(s: Store, data: NewItem, newId: string, rank: map<string, nat>)
    requires Acyclic(s.items, rank)
    requires data.parentId != Some(newId)
    requires forall k :: k in s.items ==> s.items[k].parentId != Some(newId)
    ensures exists rank' :: Acyclic(CreateItem(s, data, newId).store.items, rank')
  {
    var r := CreateItem(s, data, newId);
    if r.result.Ok? {
      var p := data.parentId;
      var items' := r.store.items;
      assert items'[newId].parentId == p;
      var rank' := rank[newId := if p.Some? && p.value in s.items then rank[p.value] + 1 else 0];
      forall k | k in items' && items'[k].parentId.Some? && items'[k].parentId.value in items'
        ensures rank'[items'[k].parentId.value] < rank'[k]
      {
        if k != newId {
          assert items'[k] == s.items[k];
        }
      }
      assert Acyclic(items', rank');
    } else {
      assert Acyclic(r.store.items, rank);
    }
  }

  /** A patch that leaves `parentId` alone keeps every parent link, hence the ranking. */
  lemma UpdateItemKeepsAcyclic(s: Store, id: string, patch: Patch, rank: map<string, nat>)
    requires Acyclic(s.items, rank) && patch.parentId.None?
    ensures Acyclic(UpdateItem(s, id, patch).store.items, rank)
  {
  }

  /** Sibling uniqueness: no two records under one parent have equal lower-cased names. */
  ghost predicate SiblingNamesUnique(items: map<string, Item>) {
    forall a, b :: a in items && b in items && a != b && items[a].parentId == items[b].parentId ==>
      Text.Lower(items[a].name) != Text.Lower(items[b].name)
  }
}
