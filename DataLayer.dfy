/**
 * `IndexedDBDataLayer` (src/services/DataLayer.ts): the object that owns the
 * database handle and the object store of items. Every method is proved against
 * the value-level contract in `Repository`.
 */
module DataLayer {
  import opened Wrappers
  import opened DataRoom
  import opened Repository

  const OpenFailed: string := "Failed to open IndexedDB"

  /** A cursor over `m`: yields every record once, in whichever order the keys come. */
  method ListRecords(m: map<string, Item>) returns (s: seq<Item>)
    requires forall k :: k in m ==> m[k].id == k
    ensures Lists(s, m)
  {
    s := [];
    var rest := m.Keys;
    while rest != {}
      invariant rest <= m.Keys
      invariant |s| + |rest| == |m|
      invariant forall i :: 0 <= i < |s| ==> s[i].id in m && m[s[i].id] == s[i] && s[i].id !in rest
      invariant forall i, j :: 0 <= i < j < |s| ==> s[i].id != s[j].id
      invariant forall k :: k in m && k !in rest ==> m[k] in s
      decreases rest
    {
      var k :| k in rest;
      s := s + [m[k]];
      rest := rest - {k};
    }
  }

  class IndexedDBDataLayer {
    /** `db !== null`: `initialize` has opened the database. */
    var initialized: bool
    /** The object store `items`, keyed by `id`. */
    var items: map<string, Item>
    /** The next tick `new Date()` reads. */
    var clock: nat

    function Snapshot(): Store
      reads this
    {
      Store(initialized, items, clock)
    }

    ghost predicate Valid()
      reads this
    {
      WellFormed(Snapshot())
    }

    /** A data layer over the records earlier sessions left in the database, not yet opened. */
    constructor (persisted: map<string, Item>, now: nat)
      requires WellFormed(Store(false, persisted, now))
      ensures Valid() && Snapshot() == Store(false, persisted, now)
    {
      initialized, items, clock := false, persisted, now;
    }

    /** `initialize`: `openSucceeds` says whether `indexedDB.open` succeeds; on failure nothing changes. */
    method Initialize(openSucceeds: bool) returns (r: Result<()>)
      requires Valid()
      modifies this
      ensures Valid()
      ensures r == if openSucceeds then Ok(()) else Err(OpenFailed)
      ensures Snapshot() == old(Snapshot()).(initialized := old(initialized) || openSucceeds)
    {
      if !openSucceeds {
        return Err(OpenFailed);
      }
      initialized := true;
      r := Ok(());
    }

    method GetAllItems() returns (r: Result<seq<Item>>)
      requires Valid()
      ensures !initialized ==> r == Err(NotInitialized)
      ensures initialized ==> r.Ok? && Lists(r.value, items)
    {
      if !initialized {
        return Err(NotInitialized);
      }
      var all := ListRecords(items);
      r := Ok(all);
    }

    /** The stored record, or `undefined` (not an error) for an absent id. */
    method GetItemById(id: string) returns (r: Result<Option<Item>>)
      ensures r == ItemById(Snapshot(), id)
      ensures initialized && id in items ==> r == Ok(Some(items[id]))
      ensures initialized && id !in items ==> r == Ok(None)
    {
      if !initialized {
        return Err(NotInitialized);
      }
      if id in items {
        r := Ok(Some(items[id]));
      } else {
        r := Ok(None);
      }
    }

    /** Exactly the stored records whose `parentId` equals `parentId`, each once. */
    method GetItemsByParent(parentId: Option<string>) returns (r: Result<seq<Item>>)
      requires Valid()
      ensures !initialized ==> r == Err(NotInitialized)
      ensures initialized ==> r.Ok? && Lists(r.value, Children(items, parentId))
    {
      if !initialized {
        return Err(NotInitialized);
      }
      var children := ListRecords(Children(items, parentId));
      r := Ok(children);
    }

    method CreateItem(data: NewItem, newId: string) returns (r: Result<Item>)
      requires Valid()
      modifies this
      ensures Valid()
      ensures Step(r, Snapshot()) == Repository.CreateItem(old(Snapshot()), data, newId)
    {
      if !initialized {
        return Err(NotInitialized);
      }
      if newId in items {
        return Err(CreateFailed);
      }
      var item := Materialize(data, newId, clock);
      items := items[newId := item];
      clock := clock + 1;
      r := Ok(item);
    }

    method UpdateItem(id: string, patch: Patch) returns (r: Result<Item>)
      requires Valid()
      modifies this
      ensures Valid()
      ensures Step(r, Snapshot()) == Repository.UpdateItem(old(Snapshot()), id, patch)
    {
      if !initialized {
        return Err(NotInitialized);
      }
      var existing := GetItemById(id);
      if existing.value.None? {
        return Err(NotFoundMessage(id));
      }
      var current := existing.value.value;
      var updated := Apply(current, patch).(id := id, createdAt := current.createdAt, updatedAt := clock);
      items := items[id := updated];
      clock := clock + 1;
      r := Ok(updated);
    }

    /** `fault` says whether the storage medium fails the delete request. */
    method DeleteItem(id: string, fault: bool) returns (r: Result<()>)
      requires Valid()
      modifies this
      ensures Valid()
      ensures Step(r, Snapshot()) == Repository.DeleteItem(old(Snapshot()), id, fault)
    {
      if !initialized {
        return Err(NotInitialized);
      }
      if fault {
        return Err(DeleteFailedMessage(id));
      }
      items := items - {id};
      r := Ok(());
    }

    /**
     * Deletes every direct child of `parentId` (never grandchildren). All deletes are
     * issued; those whose ids are in `refused` fail, and then the whole call fails with
     * one of their errors.
     */
    method DeleteItemsInParent(parentId: string, refused: set<string>) returns (r: Result<()>)
      requires Valid()
      modifies this
      ensures Valid()
      ensures !old(initialized) ==> r == Err(NotInitialized) && Snapshot() == old(Snapshot())
      ensures old(initialized) ==>
        var doomed := Children(old(items), Some(parentId)).Keys;
        && initialized && clock == old(clock)
        && items == old(items) - (doomed - refused)
        && (r.Ok? <==> doomed * refused == {})
        && (r.Err? ==> exists k :: k in doomed && k in refused && r.msg == DeleteFailedMessage(k))
    {
      if !initialized {
        return Err(NotInitialized);
      }
      var listed := GetItemsByParent(Some(parentId));
      ListedIds(listed.value, Children(items, Some(parentId)));
      r := DeleteAll(IdsOf(listed.value), refused);
    }

    /** Issues a delete for every id (the `Promise.all` over the children, one at a time). */
    method DeleteAll(ids: seq<string>, refused: set<string>) returns (r: Result<()>)
      requires Valid() && initialized
      modifies this
      ensures Valid() && initialized && clock == old(clock)
      ensures items == old(items) - ((set k | k in ids) - refused)
      ensures r.Ok? <==> (set k | k in ids) * refused == {}
      ensures r.Err? ==> exists k :: k in ids && k in refused && r.msg == DeleteFailedMessage(k)
    {
      ghost var gone: set<string> := {};
      r := Ok(());
      var i := 0;
      while i < |ids|
        invariant 0 <= i <= |ids|
        invariant Valid() && initialized && clock == old(clock)
        invariant gone == (set k | k in ids[..i]) - refused && items == old(items) - gone
        invariant r.Ok? <==> forall j :: 0 <= j < i ==> ids[j] !in refused
        invariant r.Err? ==> exists k :: k in ids && k in refused && r.msg == DeleteFailedMessage(k)
      {
        var done := DeleteItem(ids[i], ids[i] in refused);
        if done.Err? && r.Ok? {
          r := Err(done.msg);
        }
        if ids[i] !in refused {
          gone := gone + {ids[i]};
        }
        assert ids[..i + 1] == ids[..i] + [ids[i]];
        i := i + 1;
      }
      assert ids[..i] == ids;
    }
  }
}
