/**
 * What each operation of `FolderService` (src/services/FolderService.ts) returns
 * and leaves in the store, stated on store snapshots; the class
 * `FolderService.FolderService` is proved against these definitions.
 */
module Folders {
  import opened Wrappers
  import opened DataRoom
  import opened Text
  import opened Validation
  import opened Repository

  const FolderNotFound: string := "Folder not found"
  const ParentNotFound: string := "Parent folder not found"

  /** `if (parentId)`: null and the empty string are both falsy. */
  predicate Truthy(parentId: Option<string>) {
    parentId.Some? && parentId.value != ""
  }

  /** `getFolderById`: the record when it is a folder, null otherwise (also when the store fails). */
  function GetFolderById(s: Store, id: string): Option<Item> {
    match ItemById(s, id)
    case Ok(Some(item)) => if item.Folder? then Some(item) else None
    case _ => None
  }

  /** Some stored record clashes with the candidate name under `parentId`. */
  predicate HasClash(items: map<string, Item>, name: string, parentId: Option<string>,
                     excludeId: Option<string>) {
    exists k :: k in items && Clashes(items[k], name, parentId, excludeId)
  }

  /** Run over the children the `parentId` index lists, the duplicate check asks the store itself. */
  lemma DuplicateCheckOverListing(name: string, parentId: Option<string>, listing: seq<Item>,
                                  items: map<string, Item>, excludeId: Option<string>)
    requires Lists(listing, Children(items, parentId))
    ensures CheckDuplicateName(name, parentId, listing, excludeId).Invalid? <==>
            HasClash(items, name, parentId, excludeId)
  {
    var kids := Children(items, parentId);
    if HasClash(items, name, parentId, excludeId) {
      var k :| k in items && Clashes(items[k], name, parentId, excludeId);
      assert k in kids;
      assert kids[k] in listing;
    }
    if CheckDuplicateName(name, parentId, listing, excludeId).Invalid? {
      var x :| x in listing && Clashes(x, name, parentId, excludeId);
      var i :| 0 <= i < |listing| && listing[i] == x;
      assert x.id in items && items[x.id] == x;
    }
  }

  /**
   * `createFolder`: name check, then (reading the children of `parentId`) the
   * case-insensitive duplicate check on `checked`, then the existence of a truthy
   * parent as a folder, then `createItem` with the trimmed name.
   */
  function CreateFolderChecking(s: Store, name: string, checked: string, parentId: Option<string>,
                                newId: string): Step<Item> {
    match ValidateFolderName(name)
    case Invalid(e) => Step(Err(e), s)
    case Valid =>
      if !s.initialized then Step(Err(NotInitialized), s)
      else if HasClash(s.items, checked, parentId, None) then Step(Err(DuplicateMessage(checked)), s)
      else if Truthy(parentId) && GetFolderById(s, parentId.value).None? then Step(Err(ParentNotFound), s)
      else Repository.CreateItem(s, NewFolder(Trim(name), parentId), newId)
  }

  /** `createFolder` as written: the duplicate check runs on the untrimmed name. */
  function CreateFolder(s: Store, name: string, parentId: Option<string>, newId: string): Step<Item> {
    CreateFolderChecking(s, name, name, parentId, newId)
  }

  /**
   * `updateFolder`: the id must name a folder; then the name check and the duplicate
   * check of `checked` among the folder's siblings excluding itself; then only the
   * name changes, to the trimmed name.
   */
  function UpdateFolderChecking(s: Store, id: string, name: string, checked: string): Step<Item> {
    match GetFolderById(s, id)
    case None => Step(Err(FolderNotFound), s)
    case Some(folder) =>
      match ValidateFolderName(name)
      case Invalid(e) => Step(Err(e), s)
      case Valid =>
        if HasClash(s.items, checked, folder.parentId, Some(id)) then Step(Err(DuplicateMessage(checked)), s)
        else Repository.UpdateItem(s, id, Rename(Trim(name)))
  }

  /** `updateFolder` as written: the duplicate check runs on the untrimmed name. */
  function UpdateFolder(s: Store, id: string, name: string): Step<Item> {
    UpdateFolderChecking(s, id, name, name)
  }

  /**
   * Every way `createFolder` can end, whichever name the duplicate check is run on:
   * which error each failed check reports (the first failing check wins; the duplicate
   * check comes before the parent check), that a failure changes nothing, and that
   * success stores exactly one new folder named by the trimmed name under `parentId`,
   * leaving every other record as it was.
   */
  lemma CreateFolderOutcome(s: Store, name: string, checked: string, parentId: Option<string>, newId: string)
    requires WellFormed(s)
    ensures var r := CreateFolderChecking(s, name, checked, parentId, newId);
      && (r.result.Err? ==> r.store == s)
      && (ValidateFolderName(name).Invalid? ==> r.result == Err(ValidateFolderName(name).error))
      && (ValidateFolderName(name).Valid? && s.initialized && HasClash(s.items, checked, parentId, None) ==>
            r.result == Err(DuplicateMessage(checked)))
      && (ValidateFolderName(name).Valid? && s.initialized && !HasClash(s.items, checked, parentId, None) &&
          Truthy(parentId) && !(parentId.value in s.items && s.items[parentId.value].Folder?) ==>
            r.result == Err(ParentNotFound))
      && (r.result.Ok? <==>
            && ValidateFolderName(name).Valid? && s.initialized
            && !HasClash(s.items, checked, parentId, None)
            && (Truthy(parentId) ==> parentId.value in s.items && s.items[parentId.value].Folder?)
            && newId !in s.items)
      && (r.result.Ok? ==>
            && r.result.value == Folder(newId, Trim(name), parentId, s.clock, s.clock)
            && r.store.items == s.items[newId := r.result.value]
            && WellFormed(r.store))
  {
  }

  /** The parent check is a truthiness test: under parent id "" a folder is created without any parent record. */
  lemma EmptyParentIdSkipsParentCheck(s: Store, name: string, newId: string)
    requires WellFormed(s) && s.initialized && ValidateFolderName(name).Valid?
    requires !HasClash(s.items, name, Some(""), None) && newId !in s.items && "" !in s.items
    ensures CreateFolder(s, name, Some(""), newId).result.Ok?
  {
  }

  /** A folder created and then looked up comes back with its trimmed name, its parent and `createdAt == updatedAt`. */
  lemma CreateThenGetFolder(s: Store, name: string, parentId: Option<string>, newId: string)
    requires WellFormed(s)
    requires CreateFolder(s, name, parentId, newId).result.Ok?
    ensures var after := CreateFolder(s, name, parentId, newId).store;
      match GetFolderById(after, newId)
      case Some(f) => f.name == Trim(name) && f.parentId == parentId && f.createdAt == f.updatedAt
      case None => false
  {
  }

  /**
   * `updateFolder` reports "Folder not found" for an absent id or a file and changes
   * nothing on any failure; on success only the name changes, to the trimmed name,
   * and `updatedAt` moves forward.
   */
  lemma UpdateFolderOutcome(s: Store, id: string, name: string, checked: string)
    requires WellFormed(s)
    ensures var r := UpdateFolderChecking(s, id, name, checked);
      && (r.result.Err? ==> r.store == s)
      && (!(s.initialized && id in s.items && s.items[id].Folder?) ==> r.result == Err(FolderNotFound))
      && (r.result.Ok? <==>
            && s.initialized && id in s.items && s.items[id].Folder?
            && ValidateFolderName(name).Valid?
            && !HasClash(s.items, checked, s.items[id].parentId, Some(id)))
      && (r.result.Ok? ==>
            var before := s.items[id];
            && r.result.value == before.(name := Trim(name), updatedAt := s.clock)
            && before.updatedAt < s.clock
            && r.store.items == s.items[id := r.result.value]
            && WellFormed(r.store))
  {
  }

  /** Renaming a folder to its own name passes the duplicate check whenever its siblings are uniquely named. */
  lemma RenameToOwnName(s: Store, id: string)
    requires WellFormed(s) && s.initialized && id in s.items && s.items[id].Folder?
    requires SiblingNamesUnique(s.items) && ValidateFolderName(s.items[id].name).Valid?
    ensures UpdateFolder(s, id, s.items[id].name).result.Ok?
  {
  }

  /**
   * In a folder "Work" holding a folder "Docs", creating "docs" in "Work" fails as a
   * duplicate, while creating "docs" inside "Docs" succeeds.
   */
  lemma DuplicateCheckIgnoresCase()
    ensures var s := Store(true, WorkWithDocs(), 1);
      && CreateFolder(s, "docs", Some("p"), "b") == Step(Err(DuplicateMessage("docs")), s)
      && CreateFolder(s, "docs", Some("a"), "b").result.Ok?
  {
    LowerCaseNameClashes();
    LowerCaseNameFreeInside();
  }

  lemma LowerCaseNameClashes()
    ensures var s := Store(true, WorkWithDocs(), 1);
      CreateFolder(s, "docs", Some("p"), "b") == Step(Err(DuplicateMessage("docs")), s)
  {
    var s := Store(true, WorkWithDocs(), 1);
    PlainNameIsValid();
    WorkWithDocsFacts();
    assert Lower("Docs") == Lower("docs") by {
      assert LowerChar('D') == 'd';
    }
    assert Clashes(s.items["a"], "docs", Some("p"), None);
    CreateFolderOutcome(s, "docs", "docs", Some("p"), "b");
  }

  lemma LowerCaseNameFreeInside()
    ensures CreateFolder(Store(true, WorkWithDocs(), 1), "docs", Some("a"), "b").result.Ok?
  {
    var s := Store(true, WorkWithDocs(), 1);
    PlainNameIsValid();
    WorkWithDocsFacts();
    assert !HasClash(s.items, "docs", Some("a"), None);
    CreateFolderOutcome(s, "docs", "docs", Some("a"), "b");
  }




  /** "docs" passes the folder name checks and is its own trim. */
  lemma PlainNameIsValid()
    ensures Trim("docs") == "docs" && ValidateFolderName("docs").Valid?
  {
    PlainNameTrims();
    PlainNameHasNoReservedChar();
    assert Utf16Length("docs") <= 2 * |"docs"| <= MaxNameLength;
    assert FirstFault("docs") == None;
  }

  lemma PlainNameTrims()
    ensures Trim("docs") == "docs"
  {
    var name := "docs";
    assert name[0] == 'd' && name[|name| - 1] == 's';
    TrimOfUnpadded(name);
  }

  lemma PlainNameHasNoReservedChar()
    ensures !HasReservedChar("docs")
  {
    var name := "docs";
    forall i | 0 <= i < |name| ensures !IsReservedChar(name[i]) {
      assert name[i] in "docs";
    }
  }

  /* ---- sibling uniqueness and the trimmed name ---- */

  /** Storing a record whose name clashes with no sibling keeps sibling names unique. */
  lemma AddUnclashedKeepsSiblingsUnique(items: map<string, Item>, item: Item)
    requires SiblingNamesUnique(items) && item.id !in items
    requires !HasClash(items, item.name, item.parentId, None)
    ensures SiblingNamesUnique(items[item.id := item])
  {
    var items' := items[item.id := item];
    forall a, b | a in items' && b in items' && a != b && items'[a].parentId == items'[b].parentId
      ensures Lower(items'[a].name) != Lower(items'[b].name)
    {
      if a == item.id {
        assert items'[a] == item && items'[b] == items[b];
        assert !Clashes(items[b], item.name, item.parentId, None);
      } else if b == item.id {
        assert items'[b] == item && items'[a] == items[a];
        assert !Clashes(items[a], item.name, item.parentId, None);
      } else {
        assert items'[a] == items[a] && items'[b] == items[b];
      }
    }
  }

  /** Renaming a record to a name that clashes with no other sibling keeps sibling names unique. */
  lemma RenameUnclashedKeepsSiblingsUnique(items: map<string, Item>, id: string, item: Item)
    requires SiblingNamesUnique(items) && id in items && item.parentId == items[id].parentId
    requires forall k :: k in items ==> items[k].id == k
    requires !HasClash(items, item.name, item.parentId, Some(id))
    ensures SiblingNamesUnique(items[id := item])
  {
    var items' := items[id := item];
    forall a, b | a in items' && b in items' && a != b && items'[a].parentId == items'[b].parentId
      ensures Lower(items'[a].name) != Lower(items'[b].name)
    {
      if a == id {
        assert items'[a] == item && items'[b] == items[b];
        assert !Clashes(items[b], item.name, item.parentId, Some(id));
      } else if b == id {
        assert items'[b] == item && items'[a] == items[a];
        assert !Clashes(items[a], item.name, item.parentId, Some(id));
      } else {
        assert items'[a] == items[a] && items'[b] == items[b];
      }
    }
  }

  /**
   * `createFolder` keeps sibling names unique when the requested name has no
   * surrounding white space; it then checks the very name it stores.
   */
  lemma CreateFolderKeepsSiblingsUnique(s: Store, name: string, parentId: Option<string>, newId: string)
    requires WellFormed(s) && SiblingNamesUnique(s.items) && Trim(name) == name
    ensures SiblingNamesUnique(CreateFolder(s, name, parentId, newId).store.items)
  {
    var r := CreateFolder(s, name, parentId, newId);
    CreateFolderOutcome(s, name, name, parentId, newId);
    if r.result.Ok? {
      AddUnclashedKeepsSiblingsUnique(s.items, r.result.value);
    }
  }

  /** As `CreateFolderKeepsSiblingsUnique`, for `updateFolder`. */
  lemma UpdateFolderKeepsSiblingsUnique(s: Store, id: string, name: string)
    requires WellFormed(s) && SiblingNamesUnique(s.items) && Trim(name) == name
    ensures SiblingNamesUnique(UpdateFolder(s, id, name).store.items)
  {
    var r := UpdateFolder(s, id, name);
    UpdateFolderOutcome(s, id, name, name);
    if r.result.Ok? {
      RenameUnclashedKeepsSiblingsUnique(s.items, id, r.result.value);
    }
  }

  /**
   * Creating a folder under an id no stored record names as its parent keeps the
   * parent links acyclic, whichever name the duplicate check is run on.
   */
  lemma CreateFolderKeepsAcyclic(s: Store, rank: map<string, nat>, name: string, checked: string,
                                 parentId: Option<string>, newId: string)
    requires Acyclic(s.items, rank)
    requires parentId != Some(newId) && forall k :: k in s.items ==> s.items[k].parentId != Some(newId)
    ensures exists rank' :: Acyclic(CreateFolderChecking(s, name, checked, parentId, newId).store.items, rank')
  {
    var r := CreateFolderChecking(s, name, checked, parentId, newId);
    if || ValidateFolderName(name).Invalid? || !s.initialized || HasClash(s.items, checked, parentId, None)
       || (Truthy(parentId) && GetFolderById(s, parentId.value).None?) {
      assert r.store == s;
    } else {
      assert r == Repository.CreateItem(s, NewFolder(Trim(name), parentId), newId);
      CreateItemKeepsAcyclic(s, NewFolder(Trim(name), parentId), newId, rank);
    }
  }

  /** Renaming a folder never moves it, so the same ranking still witnesses acyclicity. */
  lemma UpdateFolderKeepsAcyclic(s: Store, rank: map<string, nat>, id: string, name: string, checked: string)
    requires Acyclic(s.items, rank)
    ensures Acyclic(UpdateFolderChecking(s, id, name, checked).store.items, rank)
  {
    var r := UpdateFolderChecking(s, id, name, checked);
    match GetFolderById(s, id)
    case None =>
      assert r.store == s;
    case Some(folder) =>
      if ValidateFolderName(name).Invalid? || HasClash(s.items, checked, folder.parentId, Some(id)) {
        assert r.store == s;
      } else {
        assert r == Repository.UpdateItem(s, id, Rename(Trim(name)));
        UpdateItemKeepsAcyclic(s, id, Rename(Trim(name)), rank);
      }
  }

  /**
   * As written, `createFolder` checks the untrimmed name but stores the trimmed one:
   * in a folder "Work" holding a folder "Docs", creating " Docs" in "Work" passes the
   * duplicate check and stores a second "Docs" there.
   */
  lemma UntrimmedCheckAdmitsDuplicate()
    ensures var s := Store(true, WorkWithDocs(), 1);
      var r := CreateFolder(s, " Docs", Some("p"), "b");
      && WellFormed(s) && SiblingNamesUnique(s.items)
      && r.result.Ok? && !SiblingNamesUnique(r.store.items)
  {
    SpacedNameIsValid();
    WorkWithDocsFacts();
    UntrimmedCreateDuplicates(Store(true, WorkWithDocs(), 1), " Docs", "p", "a", "b");
  }

  /**
   * The general form: when a sibling already carries `trim(name)` and the untrimmed
   * `name` clashes with nothing, `createFolder` as written succeeds and leaves two
   * siblings with the same name.
   */
  lemma UntrimmedCreateDuplicates(s: Store, name: string, parentId: string, sibling: string, newId: string)
    requires WellFormed(s) && s.initialized && ValidateFolderName(name).Valid?
    requires parentId != "" && parentId in s.items && s.items[parentId].Folder? && newId !in s.items
    requires !HasClash(s.items, name, Some(parentId), None)
    requires sibling in s.items && s.items[sibling].parentId == Some(parentId) && s.items[sibling].name == Trim(name)
    ensures var r := CreateFolder(s, name, Some(parentId), newId);
      r.result.Ok? && !SiblingNamesUnique(r.store.items)
  {
    CreateFolderOutcome(s, name, name, Some(parentId), newId);
    var items := CreateFolder(s, name, Some(parentId), newId).store.items;
    assert sibling != newId && items[sibling] == s.items[sibling];
    assert items[newId].parentId == items[sibling].parentId && items[newId].name == items[sibling].name;
  }

  /** A folder "Work" (id "p") at the root holding a folder "Docs" (id "a"). */
  function WorkWithDocs(): map<string, Item> {
    map["p" := Folder("p", "Work", None, 0, 0), "a" := Folder("a", "Docs", Some("p"), 0, 0)]
  }

  lemma WorkWithDocsFacts()
    ensures WellFormed(Store(true, WorkWithDocs(), 1)) && SiblingNamesUnique(WorkWithDocs())
    ensures "p" in WorkWithDocs() && WorkWithDocs()["p"].Folder? && "b" !in WorkWithDocs()
    ensures "a" in WorkWithDocs() && WorkWithDocs()["a"].parentId == Some("p") && WorkWithDocs()["a"].name == "Docs"
    ensures !HasClash(WorkWithDocs(), " Docs", Some("p"), None)
    ensures WorkWithDocs()["a"].Folder? && forall k :: k in WorkWithDocs() ==> WorkWithDocs()[k].parentId != Some("a")
  {
    var items := WorkWithDocs();
    assert items.Keys == {"p", "a"};
    assert |Lower(" Docs")| != |Lower("Docs")|;
  }

  /** "Work" holding "Docs" and one more record `x` (id "b", named "x"). */
  lemma WorkWithDocsAndFacts(x: Item)
    requires x.id == "b" && x.name == "x" && x.parentId == Some("p") && x.createdAt == 0 && x.updatedAt == 0
    ensures var items := WorkWithDocs()["b" := x];
      && WellFormed(Store(true, items, 1)) && SiblingNamesUnique(items)
      && !HasClash(items, " Docs", Some("p"), Some("b"))
  {
    var items := WorkWithDocs()["b" := x];
    assert items.Keys == {"p", "a", "b"};
    assert |Lower("Docs")| != |Lower("x")|;
    assert |Lower(" Docs")| != |Lower("Docs")|;
  }



  /** " Docs" passes the folder name checks and trims to "Docs". */
  lemma SpacedNameIsValid()
    ensures Trim(" Docs") == "Docs" && ValidateFolderName(" Docs").Valid?
  {
    SpacedNameTrims();
    SpacedNameHasNoReservedChar();
    assert Utf16Length(" Docs") <= 2 * |" Docs"| <= MaxNameLength;
    assert FirstFault(" Docs") == None;
  }

  lemma SpacedNameTrims()
    ensures Trim(" Docs") == "Docs"
  {
    var rest := "Docs";
    assert rest[0] == 'D' && rest[|rest| - 1] == 's';
    TrimLeadingSpace(rest);
    assert [' '] + rest == " Docs";
  }

  lemma SpacedNameHasNoReservedChar()
    ensures !HasReservedChar(" Docs")
  {
    var name := " Docs";
    forall i | 0 <= i < |name| ensures !IsReservedChar(name[i]) {
      assert name[i] in " Docs";
    }
  }

  /** `createFolder` with the duplicate check run on the name that is stored, `name.trim()`. */
  function CreateFolderTrimmedCheck(s: Store, name: string, parentId: Option<string>, newId: string): Step<Item> {
    CreateFolderChecking(s, name, Trim(name), parentId, newId)
  }

  /** With the corrected check every created folder keeps sibling names unique, whatever white space surrounds the name. */
  lemma TrimmedCheckKeepsSiblingsUnique(s: Store, name: string, parentId: Option<string>, newId: string)
    requires WellFormed(s) && SiblingNamesUnique(s.items)
    ensures SiblingNamesUnique(CreateFolderTrimmedCheck(s, name, parentId, newId).store.items)
  {
    var r := CreateFolderTrimmedCheck(s, name, parentId, newId);
    CreateFolderOutcome(s, name, Trim(name), parentId, newId);
    if r.result.Ok? {
      AddUnclashedKeepsSiblingsUnique(s.items, r.result.value);
    }
  }

  /** `updateFolder` with the duplicate check run on the name that is stored, `name.trim()`. */
  function UpdateFolderTrimmedCheck(s: Store, id: string, name: string): Step<Item> {
    UpdateFolderChecking(s, id, name, Trim(name))
  }

  /** With the corrected check every rename keeps sibling names unique, whatever white space surrounds the name. */
  lemma RenameTrimmedCheckKeepsSiblingsUnique(s: Store, id: string, name: string)
    requires WellFormed(s) && SiblingNamesUnique(s.items)
    ensures SiblingNamesUnique(UpdateFolderTrimmedCheck(s, id, name).store.items)
  {
    var r := UpdateFolderTrimmedCheck(s, id, name);
    UpdateFolderOutcome(s, id, name, Trim(name));
    if r.result.Ok? {
      RenameUnclashedKeepsSiblingsUnique(s.items, id, r.result.value);
    }
  }

  /** For a name with no surrounding white space the corrected `createFolder` is the one as written. */
  lemma CreateTrimmedCheckAgreesOnTrimmedNames(s: Store, name: string, parentId: Option<string>, newId: string)
    requires Trim(name) == name
    ensures CreateFolderTrimmedCheck(s, name, parentId, newId) == CreateFolder(s, name, parentId, newId)
  {
  }

  /** For a name with no surrounding white space the corrected `updateFolder` is the one as written. */
  lemma RenameTrimmedCheckAgreesOnTrimmedNames(s: Store, id: string, name: string)
    requires Trim(name) == name
    ensures UpdateFolderTrimmedCheck(s, id, name) == UpdateFolder(s, id, name)
  {
  }

  /**
   * As written, `updateFolder` also checks the untrimmed name: in a folder "Work"
   * holding folders "Docs" and "x", renaming "x" to " Docs" leaves two folders named
   * "Docs" in "Work".
   */
  lemma UntrimmedRenameAdmitsDuplicate()
    ensures var s := Store(true, WorkWithDocs()["b" := Folder("b", "x", Some("p"), 0, 0)], 1);
      var r := UpdateFolder(s, "b", " Docs");
      && WellFormed(s) && SiblingNamesUnique(s.items)
      && r.result.Ok? && !SiblingNamesUnique(r.store.items)
  {
    SpacedNameIsValid();
    WorkWithDocsFacts();
    WorkWithDocsAndFacts(Folder("b", "x", Some("p"), 0, 0));
    UntrimmedRenameDuplicates(Store(true, WorkWithDocs()["b" := Folder("b", "x", Some("p"), 0, 0)], 1),
                              "b", " Docs", "a");
  }

  /**
   * The general form: when a sibling already carries `trim(name)` and the untrimmed
   * `name` clashes with no other sibling, `updateFolder` as written succeeds and
   * leaves two siblings with the same name.
   */
  lemma UntrimmedRenameDuplicates(s: Store, id: string, name: string, sibling: string)
    requires WellFormed(s) && s.initialized && id in s.items && s.items[id].Folder?
    requires ValidateFolderName(name).Valid? && !HasClash(s.items, name, s.items[id].parentId, Some(id))
    requires sibling in s.items && sibling != id && s.items[sibling].parentId == s.items[id].parentId
    requires s.items[sibling].name == Trim(name)
    ensures var r := UpdateFolder(s, id, name);
      r.result.Ok? && !SiblingNamesUnique(r.store.items)
  {
    UpdateFolderOutcome(s, id, name, name);
    var items := UpdateFolder(s, id, name).store.items;
    assert items[sibling] == s.items[sibling];
    assert items[id].parentId == items[sibling].parentId && items[id].name == items[sibling].name;
  }



  /* ---- getFolderContents: partition by type, then order by lower-cased name ---- */

  datatype FolderContents = FolderContents(folders: seq<Item>, files: seq<Item>, totalItems: nat)

  function FoldersOf(s: seq<Item>): (r: seq<Item>)
    ensures forall x :: x in r ==> x.Folder?
    ensures forall x :: multiset(r)[x] == if x.Folder? then multiset(s)[x] else 0
  {
    if s == [] then []
    else
      assert s == [s[0]] + s[1..];
      if s[0].Folder? then [s[0]] + FoldersOf(s[1..]) else FoldersOf(s[1..])
  }

  function FilesOf(s: seq<Item>): (r: seq<Item>)
    ensures forall x :: x in r ==> x.File?
    ensures forall x :: multiset(r)[x] == if x.File? then multiset(s)[x] else 0
  {
    if s == [] then []
    else
      assert s == [s[0]] + s[1..];
      if s[0].File? then [s[0]] + FilesOf(s[1..]) else FilesOf(s[1..])
  }

  /** `a.name.toLowerCase().localeCompare(b.name.toLowerCase()) <= 0`. */
  predicate NameLeq(a: Item, b: Item) {
    LexLeq(Lower(a.name), Lower(b.name))
  }

  predicate SortedByName(s: seq<Item>) {
    forall i, j :: 0 <= i < j < |s| ==> NameLeq(s[i], s[j])
  }

  function InsertByName(x: Item, s: seq<Item>): (r: seq<Item>)
    ensures multiset(r) == multiset(s) + multiset{x}
    ensures forall y :: y in r ==> y == x || y in s
  {
    if s == [] then [x]
    else if NameLeq(x, s[0]) then [x] + s
    else
      assert s == [s[0]] + s[1..];
      [s[0]] + InsertByName(x, s[1..])
  }

  lemma SortedCons(a: Item, s: seq<Item>)
    requires SortedByName(s)
    requires forall y :: y in s ==> NameLeq(a, y)
    ensures SortedByName([a] + s)
  {
    var r := [a] + s;
    forall i, j | 0 <= i < j < |r| ensures NameLeq(r[i], r[j]) {
      assert r[j] == s[j - 1];
      if i > 0 {
        assert r[i] == s[i - 1];
      }
    }
  }

  lemma {:induction false} InsertKeepsSorted(x: Item, s: seq<Item>)
    requires SortedByName(s)
    ensures SortedByName(InsertByName(x, s))
  {
    if s == [] {
    } else if NameLeq(x, s[0]) {
      forall y | y in s ensures NameLeq(x, y) {
        var j :| 0 <= j < |s| && s[j] == y;
        if j > 0 {
          LexLeqTransitive(Lower(x.name), Lower(s[0].name), Lower(s[j].name));
        }
      }
      SortedCons(x, s);
    } else {
      LexLeqTotal(Lower(x.name), Lower(s[0].name));
      var rest := InsertByName(x, s[1..]);
      InsertKeepsSorted(x, s[1..]);
      forall y | y in rest ensures NameLeq(s[0], y) {
        if y != x {
          var j :| 0 <= j < |s[1..]| && s[1..][j] == y;
          assert s[j + 1] == y;
        }
      }
      SortedCons(s[0], rest);
    }
  }

  /** `Array.prototype.sort` with the lower-cased name comparison: a sorted permutation. */
  function SortByName(s: seq<Item>): (r: seq<Item>)
    ensures multiset(r) == multiset(s)
    ensures SortedByName(r)
  {
    if s == [] then []
    else
      assert s == [s[0]] + s[1..];
      InsertKeepsSorted(s[0], SortByName(s[1..]));
      InsertByName(s[0], SortByName(s[1..]))
  }

  /** The body of `getFolderContents` once the children are read. */
  function Contents(children: seq<Item>): FolderContents {
    FolderContents(SortByName(FoldersOf(children)), SortByName(FilesOf(children)), |children|)
  }

  /**
   * The children are split by type into `folders` and `files`, each ordered by
   * lower-cased name, and `totalItems` counts them all.
   */
  lemma ContentsPartitionsChildren(children: seq<Item>)
    ensures var c := Contents(children);
      && (forall x :: x in c.folders ==> x.Folder?)
      && (forall x :: x in c.files ==> x.File?)
      && multiset(c.folders) + multiset(c.files) == multiset(children)
      && SortedByName(c.folders) && SortedByName(c.files)
      && c.totalItems == |c.folders| + |c.files| == |children|
  {
    var c := Contents(children);
    assert multiset(c.folders) + multiset(c.files) == multiset(children) by {
      forall x ensures (multiset(c.folders) + multiset(c.files))[x] == multiset(children)[x] {
        assert multiset(c.folders)[x] == multiset(FoldersOf(children))[x];
        assert multiset(c.files)[x] == multiset(FilesOf(children))[x];
      }
    }
    assert |multiset(c.folders) + multiset(c.files)| == |multiset(children)|;
  }
}
