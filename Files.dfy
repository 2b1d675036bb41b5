/**
 * What each operation of `FileService` (src/services/FileService.ts) returns and
 * leaves in the store, stated on store snapshots; the class
 * `FileService.FileService` is proved against these definitions.
 */
module Files {
  import opened Wrappers
  import opened DataRoom
  import opened Text
  import opened Validation
  import opened Repository
  import opened FileHelpers
  import Folders

  const NotPdf: string := "Only PDF files are supported"
  const TooLarge: string := "File size must be less than 10MB"
  const UploadFailed: string := "Failed to upload file"
  const FileNotFound: string := "File not found"

  /** `10 * 1024 * 1024`, the upload limit in bytes. */
  const MaxUploadSize: nat := 10 * 1024 * 1024

  /** The browser `File` handed to `uploadFile`: its name, declared MIME type and size in bytes. */
  datatype Upload = Upload(name: string, mimeType: string, size: nat)

  /** What `fileToBase64` resolves to for the reader's data URL; an `undefined` segment is stored as "". */
  function StoredContent(dataUrl: string): string {
    match Base64Segment(dataUrl)
    case Some(payload) => payload
    case None => ""
  }

  /** `getFileById`: the record when it is a file, null otherwise (also when the store fails). */
  function GetFileById(s: Store, id: string): Option<Item> {
    match ItemById(s, id)
    case Ok(Some(item)) => if item.File? then Some(item) else None
    case _ => None
  }

  /**
   * `uploadFile`: type, then size, then the folder-name rules on the untrimmed file
   * name, then (reading the children of `parentId`) the duplicate check, then the
   * file is read (`dataUrl` is None when the reader fails) and stored under its
   * untrimmed name. The parent is never looked up.
   */
  function UploadFile(s: Store, file: Upload, parentId: Option<string>, dataUrl: Option<string>,
                      newId: string): Step<Item> {
    if file.mimeType != PdfMimeType then Step(Err(NotPdf), s)
    else if file.size > MaxUploadSize then Step(Err(TooLarge), s)
    else match ValidateFolderName(file.name)
      case Invalid(e) => Step(Err(e), s)
      case Valid =>
        if !s.initialized then Step(Err(NotInitialized), s)
        else if Folders.HasClash(s.items, file.name, parentId, None) then Step(Err(DuplicateMessage(file.name)), s)
        else match dataUrl
          case None => Step(Err(UploadFailed), s)
          case Some(url) =>
            Repository.CreateItem(s, NewFile(file.name, parentId, file.mimeType, file.size, StoredContent(url)), newId)
  }

  /** `updateFileName`: as `updateFolder`, for files, with the duplicate check run on `checked`. */
  function UpdateFileNameChecking(s: Store, id: string, name: string, checked: string): Step<Item> {
    match GetFileById(s, id)
    case None => Step(Err(FileNotFound), s)
    case Some(file) =>
      match ValidateFolderName(name)
      case Invalid(e) => Step(Err(e), s)
      case Valid =>
        if Folders.HasClash(s.items, checked, file.parentId, Some(id)) then Step(Err(DuplicateMessage(checked)), s)
        else Repository.UpdateItem(s, id, Rename(Trim(name)))
  }

  /** `updateFileName` as written: the duplicate check runs on the untrimmed name. */
  function UpdateFileName(s: Store, id: string, name: string): Step<Item> {
    UpdateFileNameChecking(s, id, name, name)
  }

  /** `deleteFile`; `fault` says whether the storage medium fails the delete request. */
  function DeleteFile(s: Store, id: string, fault: bool): Step<()> {
    match GetFileById(s, id)
    case None => Step(Err(FileNotFound), s)
    case Some(_) => Repository.DeleteItem(s, id, fault)
  }

  /** `getFileContent`: `file?.content || null`. */
  function GetFileContent(s: Store, id: string): (r: Option<string>)
    ensures r.Some? <==> s.initialized && id in s.items && s.items[id].File? && s.items[id].content != ""
    ensures r.Some? ==> r.value == s.items[id].content
  {
    match GetFileById(s, id)
    case Some(file) => if file.content == "" then None else Some(file.content)
    case None => None
  }

  /** The upload size check is `isValidFileSize` with its default limit. */
  lemma UploadLimitIsDefaultLimit(size: nat)
    ensures size > MaxUploadSize <==> !IsValidFileSize(size, DefaultMaxSizeInMB)
    ensures size == 10485760 ==> size <= MaxUploadSize
  {
  }

  /**
   * Every way `uploadFile` can end: the type check comes first, then the size check
   * (10485760 bytes pass), then the name rules, then the duplicate check; any failure
   * changes nothing; success stores exactly one file with the untrimmed name, the
   * type, size, payload and `parentId` given, whether or not that parent exists.
   */
  lemma UploadFileOutcome(s: Store, file: Upload, parentId: Option<string>, dataUrl: Option<string>, newId: string)
    requires WellFormed(s)
    ensures var r := UploadFile(s, file, parentId, dataUrl, newId);
      && (r.result.Err? ==> r.store == s)
      && (file.mimeType != PdfMimeType ==> r.result == Err(NotPdf))
      && (file.mimeType == PdfMimeType && file.size > MaxUploadSize ==> r.result == Err(TooLarge))
      && (file.mimeType == PdfMimeType && file.size <= MaxUploadSize && ValidateFolderName(file.name).Invalid? ==>
            r.result == Err(ValidateFolderName(file.name).error))
      && (r.result.Ok? <==>
            && file.mimeType == PdfMimeType && file.size <= MaxUploadSize
            && ValidateFolderName(file.name).Valid? && s.initialized
            && !Folders.HasClash(s.items, file.name, parentId, None)
            && dataUrl.Some? && newId !in s.items)
      && (r.result.Ok? ==>
            && r.result.value == File(newId, file.name, parentId, s.clock, s.clock,
                                      file.mimeType, file.size, StoredContent(dataUrl.value))
            && r.store.items == s.items[newId := r.result.value]
            && WellFormed(r.store))
  {
  }

  /** Uploading never breaks sibling uniqueness: the name checked is the name stored. */
  lemma UploadKeepsSiblingsUnique(s: Store, file: Upload, parentId: Option<string>, dataUrl: Option<string>,
                                  newId: string)
    requires WellFormed(s) && SiblingNamesUnique(s.items)
    ensures SiblingNamesUnique(UploadFile(s, file, parentId, dataUrl, newId).store.items)
  {
    var r := UploadFile(s, file, parentId, dataUrl, newId);
    UploadFileOutcome(s, file, parentId, dataUrl, newId);
    if r.result.Ok? {
      Folders.AddUnclashedKeepsSiblingsUnique(s.items, r.result.value);
    }
  }

  /** A file uploaded from a `data:<type>;base64,<payload>` URL reads back as its payload. */
  lemma UploadThenReadContent(s: Store, file: Upload, parentId: Option<string>, payload: string, newId: string)
    requires WellFormed(s) && ',' !in file.mimeType && ',' !in payload
    requires UploadFile(s, file, parentId, Some(DataUrl(file.mimeType, payload)), newId).result.Ok?
    ensures var after := UploadFile(s, file, parentId, Some(DataUrl(file.mimeType, payload)), newId).store;
      GetFileContent(after, newId) == if payload == "" then None else Some(payload)
  {
    var url := DataUrl(file.mimeType, payload);
    SegmentOfDataUrl(file.mimeType, payload);
    assert StoredContent(url) == payload;
    UploadFileOutcome(s, file, parentId, Some(url), newId);
    var after := UploadFile(s, file, parentId, Some(url), newId).store;
    assert after.initialized && newId in after.items;
    assert after.items[newId].File? && after.items[newId].content == payload;
  }

  /**
   * `updateFileName`, whichever name the duplicate check is run on, reports "File not
   * found" for an absent id or a folder and changes nothing on any failure; on success only the name changes, to the trimmed name,
   * and `updatedAt` moves forward.
   */
  lemma UpdateFileNameOutcome(s: Store, id: string, name: string, checked: string)
    requires WellFormed(s)
    ensures var r := UpdateFileNameChecking(s, id, name, checked);
      && (r.result.Err? ==> r.store == s)
      && (!(s.initialized && id in s.items && s.items[id].File?) ==> r.result == Err(FileNotFound))
      && (r.result.Ok? <==>
            && s.initialized && id in s.items && s.items[id].File?
            && ValidateFolderName(name).Valid?
            && !Folders.HasClash(s.items, checked, s.items[id].parentId, Some(id)))
      && (r.result.Ok? ==>
            var before := s.items[id];
            && r.result.value == before.(name := Trim(name), updatedAt := s.clock)
            && before.updatedAt < s.clock
            && r.store.items == s.items[id := r.result.value]
            && WellFormed(r.store))
  {
  }

  /** As for folders, renaming keeps sibling names unique when the new name has no surrounding white space. */
  lemma UpdateFileNameKeepsSiblingsUnique(s: Store, id: string, name: string)
    requires WellFormed(s) && SiblingNamesUnique(s.items) && Trim(name) == name
    ensures SiblingNamesUnique(UpdateFileName(s, id, name).store.items)
  {
    var r := UpdateFileName(s, id, name);
    UpdateFileNameOutcome(s, id, name, name);
    if r.result.Ok? {
      Folders.RenameUnclashedKeepsSiblingsUnique(s.items, id, r.result.value);
    }
  }

  /** `updateFileName` with the duplicate check run on the name that is stored, `name.trim()`. */
  function UpdateFileNameTrimmedCheck(s: Store, id: string, name: string): Step<Item> {
    UpdateFileNameChecking(s, id, name, Trim(name))
  }

  /** With the corrected check every file rename keeps sibling names unique, whatever white space surrounds the name. */
  lemma RenameFileTrimmedCheckKeepsSiblingsUnique(s: Store, id: string, name: string)
    requires WellFormed(s) && SiblingNamesUnique(s.items)
    ensures SiblingNamesUnique(UpdateFileNameTrimmedCheck(s, id, name).store.items)
  {
    var r := UpdateFileNameTrimmedCheck(s, id, name);
    UpdateFileNameOutcome(s, id, name, Trim(name));
    if r.result.Ok? {
      Folders.RenameUnclashedKeepsSiblingsUnique(s.items, id, r.result.value);
    }
  }

  /** For a name with no surrounding white space the corrected `updateFileName` is the one as written. */
  lemma RenameFileTrimmedCheckAgreesOnTrimmedNames(s: Store, id: string, name: string)
    requires Trim(name) == name
    ensures UpdateFileNameTrimmedCheck(s, id, name) == UpdateFileName(s, id, name)
  {
  }

  /**
   * As written, `updateFileName` checks the untrimmed name: in a folder "Work" holding
   * a folder "Docs", renaming the file "x" there to " Docs" leaves two items named
   * "Docs" in "Work".
   */
  lemma UntrimmedFileRenameAdmitsDuplicate()
    ensures var s := Store(true, Folders.WorkWithDocs()["b" := File("b", "x", Some("p"), 0, 0, PdfMimeType, 1, "")], 1);
      var r := UpdateFileName(s, "b", " Docs");
      && WellFormed(s) && SiblingNamesUnique(s.items)
      && r.result.Ok? && !SiblingNamesUnique(r.store.items)
  {
    var x := File("b", "x", Some("p"), 0, 0, PdfMimeType, 1, "");
    Folders.SpacedNameIsValid();
    Folders.WorkWithDocsFacts();
    Folders.WorkWithDocsAndFacts(x);
    UntrimmedFileRenameDuplicates(Store(true, Folders.WorkWithDocs()["b" := x], 1), "b", " Docs", "a");
  }

  /**
   * The general form: when a sibling already carries `trim(name)` and the untrimmed
   * `name` clashes with no other sibling, `updateFileName` as written succeeds and
   * leaves two siblings with the same name.
   */
  lemma UntrimmedFileRenameDuplicates(s: Store, id: string, name: string, sibling: string)
    requires WellFormed(s) && s.initialized && id in s.items && s.items[id].File?
    requires ValidateFolderName(name).Valid? && !Folders.HasClash(s.items, name, s.items[id].parentId, Some(id))
    requires sibling in s.items && sibling != id && s.items[sibling].parentId == s.items[id].parentId
    requires s.items[sibling].name == Trim(name)
    ensures var r := UpdateFileName(s, id, name);
      r.result.Ok? && !SiblingNamesUnique(r.store.items)
  {
    UpdateFileNameOutcome(s, id, name, name);
    var items := UpdateFileName(s, id, name).store.items;
    assert items[sibling] == s.items[sibling];
    assert items[id].parentId == items[sibling].parentId && items[id].name == items[sibling].name;
  }



  /**
   * `deleteFile` removes exactly that record when it is a file and the medium does not
   * fail; for a folder or an absent id it reports "File not found" and changes nothing.
   */
  lemma DeleteFileOutcome(s: Store, id: string, fault: bool)
    requires WellFormed(s)
    ensures var r := DeleteFile(s, id, fault);
      && (r.result.Err? ==> r.store == s)
      && (!(s.initialized && id in s.items && s.items[id].File?) ==> r.result == Err(FileNotFound))
      && (s.initialized && id in s.items && s.items[id].File? ==>
            if fault then r.result == Err(DeleteFailedMessage(id))
            else r.result.Ok? && r.store.items == s.items - {id})
  {
  }

  /** Folders and files never answer each other's lookups. */
  lemma LookupsAreTyped(s: Store, id: string)
    ensures GetFileById(s, id).Some? ==> Folders.GetFolderById(s, id).None?
    ensures GetFileById(s, id).Some? <==> s.initialized && id in s.items && s.items[id].File?
    ensures GetFileById(s, id).Some? ==> GetFileById(s, id).value == s.items[id]
  {
  }

  /** An upload never closes a cycle of parent links, given a new id that no record names as its parent. */
  lemma UploadKeepsAcyclic(s: Store, rank: map<string, nat>, file: Upload, parentId: Option<string>,
                           dataUrl: Option<string>, newId: string)
    requires WellFormed(s) && Acyclic(s.items, rank)
    requires parentId != Some(newId) && forall k :: k in s.items ==> s.items[k].parentId != Some(newId)
    ensures exists rank' :: Acyclic(UploadFile(s, file, parentId, dataUrl, newId).store.items, rank')
  {
    var r := UploadFile(s, file, parentId, dataUrl, newId);
    UploadFileOutcome(s, file, parentId, dataUrl, newId);
    if r.result.Ok? {
      var data := NewFile(file.name, parentId, file.mimeType, file.size, StoredContent(dataUrl.value));
      CreateItemKeepsAcyclic(s, data, newId, rank);
      assert CreateItem(s, data, newId).store.items == r.store.items;
    } else {
      assert Acyclic(r.store.items, rank);
    }
  }

  /** A rename keeps every parent link. */
  lemma UpdateFileNameKeepsAcyclic(s: Store, rank: map<string, nat>, id: string, name: string)
    requires WellFormed(s) && Acyclic(s.items, rank)
    ensures Acyclic(UpdateFileName(s, id, name).store.items, rank)
  {
    var r := UpdateFileName(s, id, name);
    if r.store != s {
      assert r.store == UpdateItem(s, id, Rename(Trim(name))).store;
      UpdateItemKeepsAcyclic(s, id, Rename(Trim(name)), rank);
    }
  }
}
