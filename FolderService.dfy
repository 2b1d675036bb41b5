/**
 * `FolderService` (src/services/FolderService.ts): folder operations over a data
 * layer. Each method is proved against the store-level definitions in `Folders`,
 * or states outright what it leaves in the store.
 */
module FolderService {
  import opened Wrappers
  import opened DataRoom
  import opened Text
  import opened Validation
  import opened Repository
  import opened DataLayer
  import opened Folders

  /** The reply of `deleteFolder`: `{ success, deletedIds, error? }`. */
  datatype DeleteResult = DeleteResult(success: bool, deletedIds: seq<string>, error: Option<string>)

  predicate Distinct(s: seq<string>) {
    forall i, j :: 0 <= i < j < |s| ==> s[i] != s[j]
  }

  /** A record whose parent is in `visited` is in `visited` too: the walk has nothing left to find. */
  predicate ClosedUnderChildren(items: map<string, Item>, visited: seq<string>) {
    forall k :: k in items && items[k].parentId.Some? && items[k].parentId.value in visited ==> k in visited
  }

  /** A set closed under children that holds the root holds the root's whole subtree. */
  lemma {:induction false} ClosedHoldsSubtree(items: map<string, Item>, visited: seq<string>,
                                              root: string, k: string, n: nat)
    requires root in visited && ClosedUnderChildren(items, visited)
    requires ReachesWithin(items, k, root, n)
    ensures k in visited
    decreases n
  {
    if k != root {
      ClosedHoldsSubtree(items, visited, root, items[k].parentId.value, n - 1);
    }
  }

  /** In an acyclic store the root is nobody's child within its own subtree. */
  lemma RootIsNoChildOfItsSubtree(items: map<string, Item>, rank: map<string, nat>,
                                  root: string, current: string)
    requires Acyclic(items, rank) && root in items && InSubtree(items, current, root)
    ensures items[root].parentId != Some(current)
  {
    if items[root].parentId == Some(current) {
      var n: nat :| ReachesWithin(items, current, root, n);
      if current != root {
        SubtreeRanksAbove(items, rank, current, root, n);
      }
    }
  }

  /**
   * What the walk of `getFolderDescendants` keeps: `visited` and `stack` hold distinct
   * members of the root's subtree, each the root or a child of a visited record, and
   * every child of a visited record is visited or waiting on the stack.
   */
  ghost predicate Walking(items: map<string, Item>, root: string, visited: seq<string>, stack: seq<string>) {
    && (|visited| == 0 ==> stack == [root])
    && (|visited| > 0 ==> visited[0] == root)
    && Distinct(visited) && Distinct(stack)
    && (forall x :: x in visited ==> x !in stack)
    && ParentsVisited(items, root, visited, stack)
    && WithinSubtree(items, root, visited, stack)
    && ChildrenPending(items, visited, stack)
  }

  /** Every record the walk holds is the root or a child of a visited record. */
  ghost predicate ParentsVisited(items: map<string, Item>, root: string, visited: seq<string>, stack: seq<string>) {
    forall x :: x in visited || x in stack ==>
      x == root || (x in items && items[x].parentId.Some? && items[x].parentId.value in visited)
  }

  ghost predicate WithinSubtree(items: map<string, Item>, root: string, visited: seq<string>, stack: seq<string>) {
    forall x :: x in visited || x in stack ==> InSubtree(items, x, root)
  }

  /** Every child of a visited record is visited or waiting on the stack. */
  ghost predicate ChildrenPending(items: map<string, Item>, visited: seq<string>, stack: seq<string>) {
    forall k :: k in items && items[k].parentId.Some? && items[k].parentId.value in visited ==>
      k in visited || k in stack
  }

  /** The records the walk has still to visit: what bounds its number of rounds. */
  ghost function Unvisited(items: map<string, Item>, root: string, visited: seq<string>): set<string> {
    (items.Keys + {root}) - (set x | x in visited)
  }

  lemma WalkStarts(items: map<string, Item>, root: string)
    ensures Walking(items, root, [], [root])
  {
    assert ReachesWithin(items, root, root, 0);
  }

  /** Each round visits one record not visited before. */
  lemma WalkShrinks(items: map<string, Item>, root: string, visited: seq<string>, stack: seq<string>)
    requires Walking(items, root, visited, stack) && |stack| > 0
    ensures Unvisited(items, root, visited + [stack[|stack| - 1]]) < Unvisited(items, root, visited)
  {
    var current := stack[|stack| - 1];
    assert current == root || current in items;
    assert (set x | x in visited + [current]) == (set x | x in visited) + {current};
  }

  lemma AppendFresh(s: seq<string>, x: string)
    requires Distinct(s) && x !in s
    ensures Distinct(s + [x])
  {
    var s' := s + [x];
    forall i, j | 0 <= i < j < |s'| ensures s'[i] != s'[j] {
      if j == |s| {
        assert s'[i] in s;
      }
    }
  }

  lemma ConcatDistinct(a: seq<string>, b: seq<string>)
    requires Distinct(a) && Distinct(b) && forall x :: x in b ==> x !in a
    ensures Distinct(a + b)
  {
    var c := a + b;
    forall i, j | 0 <= i < j < |c| ensures c[i] != c[j] {
      if i < |a| <= j {
        assert c[j] in b && c[i] in a;
      }
    }
  }

  /** The children of the record on top of the stack are new to the walk and belong to the root's subtree. */
  lemma ChildrenAreNew(items: map<string, Item>, rank: map<string, nat>, root: string,
                       visited: seq<string>, stack: seq<string>, childIds: seq<string>)
    requires Acyclic(items, rank) && Walking(items, root, visited, stack) && |stack| > 0
    requires forall c :: c in childIds <==> c in items && items[c].parentId == Some(stack[|stack| - 1])
    ensures forall c :: c in childIds ==> c !in visited && c !in stack
    ensures WithinSubtree(items, root, visited + [stack[|stack| - 1]], stack[..|stack| - 1] + childIds)
  {
    var current := stack[|stack| - 1];
    assert current in stack && current !in visited;
    forall c | c in childIds
      ensures c !in visited && c !in stack
      ensures InSubtree(items, c, root)
    {
      if c == root {
        RootIsNoChildOfItsSubtree(items, rank, root, current);
      }
      var n: nat :| ReachesWithin(items, current, root, n);
      assert ReachesWithin(items, c, root, n + 1);
    }
    var visited', rest := visited + [current], stack[..|stack| - 1];
    assert stack == rest + [current];
    assert forall x :: x in visited' || x in rest + childIds ==> x in visited || x in stack || x in childIds;
  }

  /** After a round every record the walk holds is still the root or a child of a visited record. */
  lemma StepKeepsParentsVisited(items: map<string, Item>, root: string, visited: seq<string>,
                                stack: seq<string>, childIds: seq<string>)
    requires Walking(items, root, visited, stack) && |stack| > 0
    requires forall c :: c in childIds <==> c in items && items[c].parentId == Some(stack[|stack| - 1])
    ensures ParentsVisited(items, root, visited + [stack[|stack| - 1]], stack[..|stack| - 1] + childIds)
  {
    var current := stack[|stack| - 1];
    var visited', rest := visited + [current], stack[..|stack| - 1];
    var stack' := rest + childIds;
    assert stack == rest + [current];
    forall x | x in visited' || x in stack'
      ensures x == root || (x in items && items[x].parentId.Some? && items[x].parentId.value in visited')
    {
      if x in childIds {
        assert items[x].parentId.value == current;
      } else {
        assert x in visited || x == current || x in rest;
      }
    }
  }

  /** After a round every child of a visited record is visited or on the stack. */
  lemma StepKeepsChildrenPending(items: map<string, Item>, root: string, visited: seq<string>,
                                 stack: seq<string>, childIds: seq<string>)
    requires Walking(items, root, visited, stack) && |stack| > 0
    requires forall c :: c in childIds <==> c in items && items[c].parentId == Some(stack[|stack| - 1])
    ensures ChildrenPending(items, visited + [stack[|stack| - 1]], stack[..|stack| - 1] + childIds)
  {
    var current := stack[|stack| - 1];
    var visited', rest := visited + [current], stack[..|stack| - 1];
    var stack' := rest + childIds;
    assert stack == rest + [current];
    forall k | k in items && items[k].parentId.Some? && items[k].parentId.value in visited'
      ensures k in visited' || k in stack'
    {
      if items[k].parentId.value == current {
        assert k in childIds;
      } else {
        assert items[k].parentId.value in visited;
        assert k in visited || k in rest || k == current;
      }
    }
  }

  /** Popping the top of the stack and pushing its children keeps the walk's invariant. */
  lemma WalkSteps(items: map<string, Item>, rank: map<string, nat>, root: string,
                  visited: seq<string>, stack: seq<string>, childIds: seq<string>)
    requires Acyclic(items, rank) && Walking(items, root, visited, stack) && |stack| > 0
    requires Distinct(childIds)
    requires forall c :: c in childIds <==> c in items && items[c].parentId == Some(stack[|stack| - 1])
    ensures Walking(items, root, visited + [stack[|stack| - 1]], stack[..|stack| - 1] + childIds)
  {
    var current := stack[|stack| - 1];
    var visited', rest := visited + [current], stack[..|stack| - 1];
    var stack' := rest + childIds;
    assert stack == rest + [current];
    ChildrenAreNew(items, rank, root, visited, stack, childIds);
    AppendFresh(visited, current);
    assert Distinct(rest);
    ConcatDistinct(rest, childIds);
    StepKeepsParentsVisited(items, root, visited, stack, childIds);
    StepKeepsChildrenPending(items, root, visited, stack, childIds);
    assert forall x :: x in visited' ==> x !in stack';
  }

  /** When the stack is empty the visited records are exactly the root's subtree. */
  lemma WalkEnds(items: map<string, Item>, root: string, visited: seq<string>)
    requires Walking(items, root, visited, [])
    ensures |visited| > 0 && visited[0] == root && Distinct(visited)
    ensures forall k :: k in visited <==> InSubtree(items, k, root)
    ensures forall k :: k in visited ==> k == root || k in items
  {
    forall k | InSubtree(items, k, root) ensures k in visited {
      var n: nat :| ReachesWithin(items, k, root, n);
      ClosedHoldsSubtree(items, visited, root, k, n);
    }
  }

  /** `order` lists the ids of `subtree` once each, `root` first. */
  ghost predicate SubtreeOrder(order: seq<string>, root: string, subtree: set<string>) {
    |order| > 0 && order[0] == root && Distinct(order) && forall k :: k in order <==> k in subtree
  }

  /**
   * Deleting `order` one id at a time stopped at `order[j]`, the first refused id:
   * the ids before it are gone from `before`, nothing else changed, and `error`
   * is the message of the refused delete.
   */
  ghost predicate StoppedAtFirstRefused(order: seq<string>, refused: set<string>, before: map<string, Item>,
                                        after: map<string, Item>, error: Option<string>) {
    exists j :: && 0 <= j < |order| && order[j] in refused
                && (forall m :: 0 <= m < j ==> order[m] !in refused)
                && after == before - (set k | k in order[..j])
                && error == Some(DeleteFailedMessage(order[j]))
  }

  class FolderService {
    const dataLayer: IndexedDBDataLayer

    constructor (dataLayer: IndexedDBDataLayer)
      ensures this.dataLayer == dataLayer
    {
      this.dataLayer := dataLayer;
    }

    method GetFolderById(id: string) returns (r: Option<Item>)
      ensures r == Folders.GetFolderById(dataLayer.Snapshot(), id)
      ensures r.Some? <==> dataLayer.initialized && id in dataLayer.items && dataLayer.items[id].Folder?
      ensures r.Some? ==> r.value == dataLayer.items[id]
    {
      var item := dataLayer.GetItemById(id);
      if item.Ok? && item.value.Some? && item.value.value.Folder? {
        return Some(item.value.value);
      }
      return None;
    }

    /** `createFolder`, with the duplicate check run on the trimmed name that is stored (see `Folders.UntrimmedCheckAdmitsDuplicate`). */
    method CreateFolder(name: string, parentId: Option<string>, newId: string) returns (r: Result<Item>)
      requires dataLayer.Valid()
      modifies dataLayer
      ensures dataLayer.Valid()
      ensures Step(r, dataLayer.Snapshot()) == Folders.CreateFolderTrimmedCheck(old(dataLayer.Snapshot()), name, parentId, newId)
    {
      var nameValidation := ValidateFolderName(name);
      if nameValidation.Invalid? {
        return Err(nameValidation.error);
      }
      var existingItems := dataLayer.GetItemsByParent(parentId);
      if existingItems.Err? {
        return Err(existingItems.msg);
      }
      var trimmed := Trim(name);
      DuplicateCheckOverListing(trimmed, parentId, existingItems.value, dataLayer.items, None);
      var duplicateValidation := CheckDuplicateName(trimmed, parentId, existingItems.value, None);
      if duplicateValidation.Invalid? {
        return Err(duplicateValidation.error);
      }
      if parentId.Some? && parentId.value != "" {
        var parentFolder := GetFolderById(parentId.value);
        if parentFolder.None? {
          return Err(ParentNotFound);
        }
      }
      r := dataLayer.CreateItem(NewFolder(trimmed, parentId), newId);
    }

    /** `updateFolder`, with the duplicate check run on the trimmed name that is stored (see `Folders.UntrimmedRenameAdmitsDuplicate`). */
    method UpdateFolder(id: string, name: string) returns (r: Result<Item>)
      requires dataLayer.Valid()
      modifies dataLayer
      ensures dataLayer.Valid()
      ensures Step(r, dataLayer.Snapshot()) == Folders.UpdateFolderTrimmedCheck(old(dataLayer.Snapshot()), id, name)
    {
      var folder := GetFolderById(id);
      if folder.None? {
        return Err(FolderNotFound);
      }
      var nameValidation := ValidateFolderName(name);
      if nameValidation.Invalid? {
        return Err(nameValidation.error);
      }
      var existingSiblings := dataLayer.GetItemsByParent(folder.value.parentId);
      var trimmed := Trim(name);
      DuplicateCheckOverListing(trimmed, folder.value.parentId, existingSiblings.value, dataLayer.items, Some(id));
      var duplicateValidation := CheckDuplicateName(trimmed, folder.value.parentId, existingSiblings.value, Some(id));
      if duplicateValidation.Invalid? {
        return Err(duplicateValidation.error);
      }
      r := dataLayer.UpdateItem(id, Rename(trimmed));
    }

    /**
     * `getFolderDescendants`: a depth-first walk with an explicit stack. The result
     * starts with `folderId` and lists every record of its subtree exactly once; the
     * ghost `rank` witnesses that the parent links have no cycle, which is what makes
     * the walk end.
     */
    method GetFolderDescendants(folderId: string, ghost rank: map<string, nat>) returns (r: Result<seq<string>>)
      requires dataLayer.Valid() && Acyclic(dataLayer.items, rank)
      ensures !dataLayer.initialized ==> r == Err(NotInitialized)
      ensures dataLayer.initialized ==>
        && r.Ok? && |r.value| > 0 && r.value[0] == folderId && Distinct(r.value)
        && (forall k :: k in r.value <==> InSubtree(dataLayer.items, k, folderId))
        && (forall k :: k in r.value ==> k == folderId || k in dataLayer.items)
    {
      ghost var items := dataLayer.items;
      var descendants: seq<string> := [];
      var stack: seq<string> := [folderId];
      WalkStarts(items, folderId);
      while |stack| > 0
        invariant Walking(items, folderId, descendants, stack)
        invariant !dataLayer.initialized ==> descendants == []
        decreases Unvisited(items, folderId, descendants)
      {
        var currentId := stack[|stack| - 1];
        var children := dataLayer.GetItemsByParent(Some(currentId));
        if children.Err? {
          return Err(children.msg);
        }
        ListedIds(children.value, Children(items, Some(currentId)));
        var childIds := IdsOf(children.value);
        WalkShrinks(items, folderId, descendants, stack);
        WalkSteps(items, rank, folderId, descendants, stack, childIds);
        descendants := descendants + [currentId];
        stack := stack[..|stack| - 1] + childIds;
      }
      WalkEnds(items, folderId, descendants);
      return Ok(descendants);
    }

    /**
     * `deleteFolder`: deletes the folder's whole subtree, one record at a time, folder
     * first. `refused` names the records whose delete request the storage medium
     * fails; the first such failure ends the call with `deletedIds: []` while the
     * records deleted before it stay deleted.
     */
    method DeleteFolder(id: string, refused: set<string>, ghost rank: map<string, nat>) returns (r: DeleteResult)
      requires dataLayer.Valid() && Acyclic(dataLayer.items, rank)
      modifies dataLayer
      ensures dataLayer.Valid()
      ensures Folders.GetFolderById(old(dataLayer.Snapshot()), id).None? ==>
        r == DeleteResult(false, [], Some(FolderNotFound)) && dataLayer.Snapshot() == old(dataLayer.Snapshot())
      ensures Folders.GetFolderById(old(dataLayer.Snapshot()), id).Some? ==>
        var doomed := set k | k in old(dataLayer.items) && InSubtree(old(dataLayer.items), k, id);
        && dataLayer.initialized && dataLayer.clock == old(dataLayer.clock)
        && (forall k :: k in dataLayer.items ==> k in old(dataLayer.items) && dataLayer.items[k] == old(dataLayer.items)[k])
        && (forall k :: k in old(dataLayer.items) && k !in doomed ==> k in dataLayer.items)
        && (r.success <==> doomed * refused == {})
        && (r.success ==>
              && r.error.None? && |r.deletedIds| > 0 && r.deletedIds[0] == id && Distinct(r.deletedIds)
              && (forall k :: k in r.deletedIds <==> k in doomed)
              && dataLayer.items == old(dataLayer.items) - doomed)
        && (!r.success ==>
              && r.deletedIds == []
              && (exists k :: k in doomed && k in refused && k in dataLayer.items &&
                              r.error == Some(DeleteFailedMessage(k)))
              && exists order: seq<string> ::
                   && SubtreeOrder(order, id, doomed)
                   && StoppedAtFirstRefused(order, refused, old(dataLayer.items), dataLayer.items, r.error))
    {
      var folder := GetFolderById(id);
      if folder.None? {
        return DeleteResult(false, [], Some(FolderNotFound));
      }
      ghost var items := dataLayer.items;
      ghost var doomed := set k | k in items && InSubtree(items, k, id);
      var descendants := GetFolderDescendants(id, rank);
      var ids := descendants.value;
      assert forall k :: k in ids <==> k in doomed;
      var failure := DeleteInOrder(ids, refused);
      if failure.Some? {
        ghost var k :| k in ids && k in refused && (k in items ==> k in dataLayer.items) &&
                       failure == Some(DeleteFailedMessage(k));
        assert k in doomed * refused;
        assert SubtreeOrder(ids, id, doomed);
        return DeleteResult(false, [], failure);
      }
      assert (set k | k in ids) == doomed;
      return DeleteResult(true, ids, None);
    }

    /**
     * The loop of `deleteFolder`: deletes `ids` in order and stops at the first
     * refused delete, whose message it returns; the deletes before it stay done.
     */
    method DeleteInOrder(ids: seq<string>, refused: set<string>) returns (failure: Option<string>)
      requires dataLayer.Valid() && dataLayer.initialized && Distinct(ids)
      modifies dataLayer
      ensures dataLayer.Valid() && dataLayer.initialized && dataLayer.clock == old(dataLayer.clock)
      ensures forall k :: k in dataLayer.items ==> k in old(dataLayer.items) && dataLayer.items[k] == old(dataLayer.items)[k]
      ensures forall k :: k in old(dataLayer.items) && k !in ids ==> k in dataLayer.items
      ensures failure.None? <==> forall k :: k in ids ==> k !in refused
      ensures failure.None? ==> dataLayer.items == old(dataLayer.items) - (set k | k in ids)
      ensures failure.Some? ==>
        exists k :: k in ids && k in refused && (k in old(dataLayer.items) ==> k in dataLayer.items) &&
                    failure == Some(DeleteFailedMessage(k))
      ensures failure.Some? ==> StoppedAtFirstRefused(ids, refused, old(dataLayer.items), dataLayer.items, failure)
    {
      ghost var items := dataLayer.items;
      var i := 0;
      while i < |ids|
        invariant 0 <= i <= |ids|
        invariant dataLayer.Valid() && dataLayer.initialized && dataLayer.clock == old(dataLayer.clock)
        invariant dataLayer.items == items - (set k | k in ids[..i])
        invariant forall j :: 0 <= j < i ==> ids[j] !in refused
      {
        var done := dataLayer.DeleteItem(ids[i], ids[i] in refused);
        if done.Err? {
          assert ids[i] !in ids[..i];
          return Some(done.msg);
        }
        assert ids[..i + 1] == ids[..i] + [ids[i]];
        i := i + 1;
      }
      assert ids[..i] == ids;
      return None;
    }

    /**
     * `getFolderContents`: the direct children of `folderId`, folders and files apart,
     * each ordered by lower-cased name.
     */
    method GetFolderContents(folderId: Option<string>) returns (r: Result<FolderContents>)
      requires dataLayer.Valid()
      ensures !dataLayer.initialized ==> r == Err(NotInitialized)
      ensures dataLayer.initialized ==>
        exists children :: Lists(children, Children(dataLayer.items, folderId)) && r == Ok(Contents(children))
    {
      var children := dataLayer.GetItemsByParent(folderId);
      if children.Err? {
        return Err(children.msg);
      }
      var folders := SortByName(FoldersOf(children.value));
      var files := SortByName(FilesOf(children.value));
      r := Ok(FolderContents(folders, files, |children.value|));
    }
  }
}
