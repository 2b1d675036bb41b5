# Data room core, modelled in Dafny

The data room is a browser application that keeps PDF files in a tree of folders.
This project models its core and proves properties of it:

- the IndexedDB-backed data layer, a key-value store of items keyed by id with a
  `parentId` index;
- the name validators and the case-insensitive duplicate check;
- the folder and file services built on the data layer;
- the file helpers the upload path uses;
- the five reducers that hold the client's state.

Modules, in dependency order:

- `Wrappers`: `Option` and `Result`.
- `DataRoom`: the item record (a folder, or a file with MIME type, size and
  base64 content), the data `createItem` receives, and the partial update that
  `updateItem` spreads over a stored record.
- `Text`: `trim` with ECMAScript white space, ASCII `toLowerCase`, the UTF-16
  length behind `name.length`, and a lexicographic order standing in for
  `localeCompare`.
- `Validation`: `validateFileName`, `validateFolderName`, `checkDuplicateName`.
- `FileHelpers`: `isValidFileType`, `isValidFileSize`, and the `split(',')[1]`
  that cuts the base64 payload out of a data URL.
- `Repository`: the database as a value (`Store`: whether it is open, the items by
  id, a clock). Each data-layer operation is a function returning its result and
  the new store. This module also defines reachability through `parentId` links and
  acyclicity.
- `DataLayer`: the class `IndexedDBDataLayer`. Its fields (`initialized`, `items`,
  `clock`) change in place, and every method is proved equal to its `Repository`
  function.
- `Folders` and `Files`: the folder and file service operations as functions on a
  `Store`, with their outcome lemmas.
- `FolderService` and `FileService`: classes holding a shared `IndexedDBDataLayer`.
  Each method is proved equal to its `Folders` or `Files` function.
  - `getFolderDescendants` is a stack walk with loop invariants. It is proved to
    return exactly the folder's subtree, each id once, the folder first.
  - `deleteFolder` deletes that subtree one id at a time.
- `ItemLists`, `FilesReducer`, `ItemsReducer`, `FolderReducer`, `ErrorReducer`,
  `LoadingReducer`: the reducers and their initial states.

Nondeterminism and I/O are parameters:

- `crypto.randomUUID()` becomes `newId`.
- `new Date()` reads the store's `clock`, which every successful write advances.
- A failing delete request is the flag `fault`. In bulk and cascading deletes it
  is a set `refused` of ids whose delete fails.
- The `FileReader` result is `dataUrl`: `None` when the reader fails.
- Opening the database is the flag `openSucceeds`.

`Folders` and `Files` define each operation as the code is written. For
`createFolder`, `updateFolder` and `updateFileName` they also define a corrected
version that runs the duplicate check on the trimmed name, the name actually
stored (see Findings). The service classes implement the corrected versions.
Each corrected version is proved to behave as written for names without
surrounding white space. The corrected versions report the trimmed name in
their duplicate message.

Some behaviour of the code is easy to overlook; the model follows the code:

- `createFolder` checks the parent only when `parentId` is truthy, so a parent id
  of `""` is never looked up (`Folders.EmptyParentIdSkipsParentCheck`).
- `uploadFile` and `updateFileName` validate file names with `validateFolderName`,
  so their messages say "Folder name …".
- `uploadFile` never checks that the parent folder exists.
- `uploadFile` stores the file name untrimmed.
- `getFileContent` answers null for a stored file whose content is the empty
  string (`file?.content || null`).

## Model

| member | source | states |
|---|---|---|
| Text.TrimStart | src/utils/validation.ts:29 | the result is a suffix of the input that does not start with white space, and everything cut off is white space |
| Text.TrimEnd | src/utils/validation.ts:29 | the result is a prefix of the input that does not end with white space, and everything cut off is white space |
| Text.TrimOfUnpadded | src/utils/validation.ts:29 | a name that neither starts nor ends with white space is unchanged by `trim` |
| Text.TrimLeadingSpace | src/services/FolderService.ts:66 | one leading space in front of such a name is all that `trim` removes |
| Text.TrimEmptyIffBlank | src/utils/validation.ts:29-31 | `name.trim()` is empty exactly when every character of the name is white space |
| Text.TrimIdempotent | src/services/FolderService.ts:66 | trimming twice equals trimming once, and the trimmed name is a contiguous slice of the name |
| Text.Lower | src/utils/validation.ts:56-58 | lower-casing keeps the length |
| Text.LowerIdempotent | src/utils/validation.ts:56-58 | lower-casing a lower-cased name changes nothing |
| Text.Utf16Length | src/utils/validation.ts:33-35 | `name.length` lies between the number of code points and twice it, and equals it when every character is in the Basic Multilingual Plane |
| Text.LexLeqTotal | src/services/FolderService.ts:158-159 | the comparison used for sorting relates every pair of names |
| Text.LexLeqTransitive | src/services/FolderService.ts:158-159 | the comparison used for sorting is transitive |
| Validation.FirstFault | src/utils/validation.ts:28-43 | the first failing name check in the source's order (blank after trimming, more than 255 UTF-16 units, a reserved character), or none; its cases are pinned by `BlankNameRejected`, `LengthBoundary` and `ReservedCharRejected` |
| Validation.CheckName | src/utils/validation.ts:10-43 | valid when no check fails, otherwise invalid with the message of the first failing check for the given noun |
| Validation.ValidateFolderName | src/utils/validation.ts:28-43 | `validateFolderName`: the name checks with "Folder" messages |
| Validation.ValidateFileName | src/utils/validation.ts:10-25 | `validateFileName`: the same checks with "File" messages; `FileAndFolderRulesAgree` relates it to the folder validator |
| Validation.BlankNameRejected | src/utils/validation.ts:28-31 | a name of white space only, the empty name included, fails with "Folder name cannot be empty" |
| Validation.LengthBoundary | src/utils/validation.ts:33-35 | for a non-blank name without reserved characters, validity holds exactly when it has at most 255 characters, and a longer name fails on length |
| Validation.ReservedCharRejected | src/utils/validation.ts:37-40 | a name containing any of `<>:"/\|?*` is invalid, and the character check reports it when the earlier checks pass |
| Validation.FileAndFolderRulesAgree | src/utils/validation.ts:10-43 | the file and folder validators accept the same names and report the same fault, differing only in the noun of the message |
| Validation.Siblings | src/utils/validation.ts:52-54 | keeps exactly the items under the given parent whose id is not the excluded id |
| Validation.FindByName | src/utils/validation.ts:56-58 | finds an item exactly when some sibling's name equals the candidate's ignoring case, and the found item is such a sibling |
| Validation.CheckDuplicateName | src/utils/validation.ts:46-67 | invalid exactly when some item under the same parent, other than the excluded one, has the same name ignoring case, with the "already exists" message |
| Validation.RenameToOwnNameOnlyClashesWithOthers | src/utils/validation.ts:46-67 | renaming an item to its own name passes exactly when no other sibling shares that name ignoring case |
| Validation.OtherParentsIgnored | src/utils/validation.ts:52-54 | items under other parents never change the verdict |
| Validation.OrderIrrelevant | src/utils/validation.ts:46-67 | the verdict depends only on which items are listed, not on their order |
| FileHelpers.IsValidFileType | src/utils/fileHelpers.ts:17-19 | a file is accepted exactly when its type is `application/pdf`; `Files.UploadFileOutcome` states the upload error it gives otherwise |
| FileHelpers.IsValidFileSize | src/utils/fileHelpers.ts:24-27 | a size passes when it is at most the limit in megabytes times 1048576 bytes; bounded by `DefaultLimitBoundary` and `SizeLimitMonotone` |
| FileHelpers.DataUrl | src/utils/fileHelpers.ts:35-39 | the `data:<type>;base64,<payload>` string the reader produces; `SegmentOfDataUrl` proves the comma split recovers the payload |
| FileHelpers.DefaultLimitBoundary | src/utils/fileHelpers.ts:24-27 | with the default 10 MB limit, 10485760 bytes pass and 10485761 bytes fail |
| FileHelpers.SizeLimitMonotone | src/utils/fileHelpers.ts:24-27 | a size that passes a limit passes every larger limit |
| FileHelpers.UpToComma | src/utils/fileHelpers.ts:39 | the longest comma-free prefix of a string |
| FileHelpers.AfterComma | src/utils/fileHelpers.ts:39 | there is a rest exactly when the string has a comma, and the string is the part before the first comma, a comma, then the rest |
| FileHelpers.Base64Segment | src/utils/fileHelpers.ts:39 | `split(',')[1]` is undefined exactly when there is no comma, and otherwise contains no comma |
| FileHelpers.AfterFirstComma | src/utils/fileHelpers.ts:39 | splitting at the first comma recovers what follows a comma-free head |
| FileHelpers.SegmentOfDataUrl | src/utils/fileHelpers.ts:32-44 | from `data:<type>;base64,<payload>`, with no comma in the type or the payload, the helper recovers exactly the payload |
| DataRoom.Apply | src/services/DataLayer.ts:167-173 | spreading a patch takes every field the patch sets and keeps every other field, and it never changes a folder into a file |
| DataRoom.Materialize | src/services/DataLayer.ts:134-140 | the record `createItem` builds: the data with the new id and two equal timestamps; `MaterializeKeepsData` states it keeps exactly the data |
| DataRoom.MaterializeKeepsData | src/services/DataLayer.ts:134-140 | a created record carries the new id, two equal timestamps and exactly the data it was created from |
| Repository.Children | src/services/DataLayer.ts:103-127 | the records whose `parentId` equals the given one (the intended index query; see Left out for the root) |
| Repository.ItemById | src/services/DataLayer.ts:74-101 | the stored record, none when the id is absent, "Database not initialized" when closed |
| Repository.CreateItem | src/services/DataLayer.ts:129-155 | `createItem` on the store value; its behaviour is stated by `CreateItemContract` |
| Repository.UpdateItem | src/services/DataLayer.ts:157-188 | `updateItem` on the store value; its behaviour is stated by `UpdateItemContract` |
| Repository.DeleteItem | src/services/DataLayer.ts:190-208 | `deleteItem` on the store value, with `fault` for a failing request; its behaviour is stated by `DeleteItemContract` |
| Repository.ListsAsMultiset | src/services/DataLayer.ts:48-72 | a listing of the store holds each stored record exactly once |
| Repository.UninitializedRefusesEverything | src/services/DataLayer.ts:74-78 | before the database is open, every read and write fails with "Database not initialized" and changes nothing |
| Repository.CreateItemContract | src/services/DataLayer.ts:129-155 | succeeds exactly when the database is open and the id is fresh; on success it adds one record with that id, equal timestamps later than every stored one and the given data, and leaves the rest unchanged; a failure changes nothing |
| Repository.FreshIdExists | src/services/DataLayer.ts:134-140 | some id is always unused, so creation can always succeed |
| Repository.UpdateItemContract | src/services/DataLayer.ts:157-188 | succeeds exactly when the database is open and the id is stored, otherwise "Item with id … not found"; the record keeps its id, creation time and kind, takes every field the patch sets (name, parent, and for a file MIME type, size and content) and keeps the others, gets a later update time, and nothing else changes |
| Repository.DeleteItemContract | src/services/DataLayer.ts:190-208 | a delete removes exactly that id, keeps every other record, and deleting again succeeds without change |
| Repository.CreateItemKeepsAcyclic | src/services/DataLayer.ts:129-155 | adding a record whose id no record points to keeps the parent links acyclic |
| Repository.UpdateItemKeepsAcyclic | src/services/DataLayer.ts:157-188 | a patch that leaves the parent alone keeps the parent links acyclic |
| DataLayer.ListRecords | src/services/DataLayer.ts:48-72 | the loop over the store's keys lists every record exactly once |
| DataLayer.IndexedDBDataLayer.constructor | src/services/DataLayer.ts:18-19 | a new data layer starts closed over the given records |
| DataLayer.IndexedDBDataLayer.Initialize | src/services/DataLayer.ts:21-46 | opening succeeds or fails with "Failed to open IndexedDB"; only a successful open marks the database open, and the records are untouched |
| DataLayer.IndexedDBDataLayer.GetAllItems | src/services/DataLayer.ts:48-72 | fails when the database is not open, otherwise lists every stored record exactly once |
| DataLayer.IndexedDBDataLayer.GetItemById | src/services/DataLayer.ts:74-101 | the stored record for the id, undefined when there is none, an error when the database is not open |
| DataLayer.IndexedDBDataLayer.GetItemsByParent | src/services/DataLayer.ts:103-127 | fails when the database is not open, otherwise lists exactly the records whose parent is the given one, each once |
| DataLayer.IndexedDBDataLayer.CreateItem | src/services/DataLayer.ts:129-155 | result and new state are those of `Repository.CreateItem` |
| DataLayer.IndexedDBDataLayer.UpdateItem | src/services/DataLayer.ts:157-188 | result and new state are those of `Repository.UpdateItem` |
| DataLayer.IndexedDBDataLayer.DeleteItem | src/services/DataLayer.ts:190-208 | result and new state are those of `Repository.DeleteItem` |
| DataLayer.IndexedDBDataLayer.DeleteItemsInParent | src/services/DataLayer.ts:210-219 | removes every child of the parent whose delete is not refused; succeeds exactly when no child's delete is refused, and otherwise reports one refused child |
| DataLayer.IndexedDBDataLayer.DeleteAll | src/services/DataLayer.ts:217-218 | deleting a list of ids removes exactly the unrefused ones, and fails exactly when one of them is refused, naming that one |
| Folders.GetFolderById | src/services/FolderService.ts:181-191 | the record when the id names a folder, none for a file, an absent id or a closed store; `Files.LookupsAreTyped` relates it to the file lookup |
| Folders.CreateFolderChecking | src/services/FolderService.ts:42-78 | `createFolder` with the duplicate check run on a given name; its behaviour is stated by `CreateFolderOutcome` |
| Folders.CreateFolder | src/services/FolderService.ts:42-78 | `createFolder` as written: the duplicate check runs on the untrimmed name |
| Folders.CreateFolderTrimmedCheck | src/services/FolderService.ts:52-71 | the corrected `createFolder`: the duplicate check runs on the trimmed name that is stored |
| Folders.UpdateFolderChecking | src/services/FolderService.ts:83-115 | `updateFolder` with the duplicate check run on a given name; its behaviour is stated by `UpdateFolderOutcome` |
| Folders.UpdateFolder | src/services/FolderService.ts:83-115 | `updateFolder` as written: the duplicate check runs on the untrimmed name |
| Folders.UpdateFolderTrimmedCheck | src/services/FolderService.ts:98-106 | the corrected `updateFolder`: the duplicate check runs on the trimmed name that is stored |
| Folders.DuplicateCheckOverListing | src/services/FolderService.ts:52-53 | the duplicate check run on the parent's listing flags a clash exactly when the store holds a clashing record |
| Folders.CreateFolderOutcome | src/services/FolderService.ts:42-78 | whichever name the duplicate check is run on, the checks run in order (name, duplicate, then parent only when `parentId` is truthy) and the first failing one gives the error; success holds exactly when all pass and the id is fresh, and then one folder with the trimmed name is added and nothing else changes; a failure changes nothing |
| Folders.EmptyParentIdSkipsParentCheck | src/services/FolderService.ts:58-63 | with parent id `""` a folder is created even though no record `""` exists |
| Folders.CreateThenGetFolder | src/services/FolderService.ts:65-71 | after a successful create, `getFolderById` finds the new folder with the trimmed name, the given parent and equal timestamps |
| Folders.DuplicateCheckIgnoresCase | src/services/FolderService.ts:52-56 | in a folder "Work" holding a folder "Docs", creating "docs" in "Work" fails with the duplicate message, while creating "docs" inside "Docs" succeeds |
| Folders.UpdateFolderOutcome | src/services/FolderService.ts:83-115 | whichever name the duplicate check is run on: "Folder not found" unless the id names a folder; success holds exactly when the name is valid and no other sibling clashes, and then only the name (trimmed) and the update time change |
| Folders.RenameToOwnName | src/services/FolderService.ts:98-102 | in a store with unique sibling names, renaming a folder to its own valid name succeeds |
| Folders.CreateFolderKeepsSiblingsUnique | src/services/FolderService.ts:42-78 | creating a folder whose name has no surrounding white space keeps sibling names unique ignoring case |
| Folders.UpdateFolderKeepsSiblingsUnique | src/services/FolderService.ts:83-115 | renaming a folder to a name with no surrounding white space keeps sibling names unique ignoring case |
| Folders.CreateFolderKeepsAcyclic | src/services/FolderService.ts:42-78 | creating a folder under an id no record names as its parent keeps the parent links acyclic, whichever name the duplicate check is run on |
| Folders.UpdateFolderKeepsAcyclic | src/services/FolderService.ts:83-115 | renaming a folder keeps the parent links acyclic under the same ranking, whichever name the duplicate check is run on |
| Folders.UntrimmedCheckAdmitsDuplicate | src/services/FolderService.ts:52-71 | in a folder "Work" holding a folder "Docs", creating " Docs" in "Work" succeeds and leaves two folders named "Docs" there |
| Folders.UntrimmedCreateDuplicates | src/services/FolderService.ts:52-71 | for every store: when a sibling already carries the trimmed name and the untrimmed name clashes with nothing, `createFolder` as written succeeds and breaks sibling uniqueness |
| Folders.TrimmedCheckKeepsSiblingsUnique | src/services/FolderService.ts:52-71 | checking the trimmed name, the name actually stored, keeps sibling names unique for every name |
| Folders.CreateTrimmedCheckAgreesOnTrimmedNames | src/services/FolderService.ts:42-78 | for a name without surrounding white space the corrected `createFolder` behaves exactly as written |
| Folders.UntrimmedRenameAdmitsDuplicate | src/services/FolderService.ts:98-106 | in a folder "Work" holding folders "Docs" and "x", renaming "x" to " Docs" succeeds and leaves two folders named "Docs" there |
| Folders.UntrimmedRenameDuplicates | src/services/FolderService.ts:98-106 | for every store: when another sibling carries the trimmed name and the untrimmed name clashes with no sibling, `updateFolder` as written succeeds and breaks sibling uniqueness |
| Folders.RenameTrimmedCheckKeepsSiblingsUnique | src/services/FolderService.ts:98-106 | checking the trimmed name when renaming a folder keeps sibling names unique for every name |
| Folders.RenameTrimmedCheckAgreesOnTrimmedNames | src/services/FolderService.ts:83-115 | for a name without surrounding white space the corrected `updateFolder` behaves exactly as written |
| Folders.FoldersOf | src/services/FolderService.ts:155 | keeps exactly the folders of the listing, each as often as it occurs |
| Folders.FilesOf | src/services/FolderService.ts:156 | keeps exactly the files of the listing, each as often as it occurs |
| Folders.InsertByName | src/services/FolderService.ts:158-159 | insertion adds the item to the sequence and nothing else |
| Folders.InsertKeepsSorted | src/services/FolderService.ts:158-159 | inserting into a sequence sorted by lower-cased name keeps it sorted |
| Folders.SortByName | src/services/FolderService.ts:158-159 | the result is a permutation of the input, sorted by lower-cased name |
| Folders.Contents | src/services/FolderService.ts:155-172 | the folders and the files among the children, each sorted by lower-cased name, and their count; stated by `ContentsPartitionsChildren` |
| Folders.ContentsPartitionsChildren | src/services/FolderService.ts:148-174 | the children split into folders and files, each sorted by lower-cased name, together a permutation of the children, and `totalItems` counts them all |
| FolderService.WalkStarts | src/services/FolderService.ts:197-198 | the walk starts with nothing visited and only the folder on the stack, which satisfies its invariant |
| FolderService.WalkShrinks | src/services/FolderService.ts:200-207 | each round visits a record of the subtree not visited before, so the walk ends |
| FolderService.ChildrenAreNew | src/services/FolderService.ts:204-206 | in an acyclic store, the children pushed in a round are neither visited nor on the stack, and every record the walk holds stays in the folder's subtree |
| FolderService.StepKeepsParentsVisited | src/services/FolderService.ts:200-207 | after a round, every record the walk holds is the folder or a child of a visited record |
| FolderService.StepKeepsChildrenPending | src/services/FolderService.ts:200-207 | after a round, every child of a visited record is visited or waiting on the stack |
| FolderService.WalkSteps | src/services/FolderService.ts:200-207 | one round of the walk (pop, record, push the children) keeps the walk's invariant |
| FolderService.WalkEnds | src/services/FolderService.ts:196-210 | when the stack is empty the visited ids are exactly the folder's subtree, each once, the folder first |
| FolderService.FolderService.constructor | src/services/FolderService.ts:35-37 | the service keeps the data layer it is given |
| FolderService.FolderService.GetFolderById | src/services/FolderService.ts:181-191 | the record when the id names a folder, null otherwise, including when the database is not open |
| FolderService.FolderService.CreateFolder | src/services/FolderService.ts:42-78 | result and new state are those of `Folders.CreateFolderTrimmedCheck`, the corrected `createFolder` |
| FolderService.FolderService.UpdateFolder | src/services/FolderService.ts:83-115 | result and new state are those of `Folders.UpdateFolderTrimmedCheck`, the corrected `updateFolder` |
| FolderService.FolderService.GetFolderDescendants | src/services/FolderService.ts:196-210 | in an acyclic store: the folder first, then every id in its subtree exactly once and nothing else; "Database not initialized" when the database is not open |
| FolderService.FolderService.DeleteFolder | src/services/FolderService.ts:120-143 | "Folder not found" and no change unless the id names a folder; otherwise succeeds exactly when no delete in the subtree is refused, and then removes exactly the subtree and returns its ids, each once, the folder first; on a refused delete it returns no ids and names the first refused record in the walk order, which is still stored, while exactly the records before it in that order stay deleted; records outside the subtree always stay |
| FolderService.FolderService.DeleteInOrder | src/services/FolderService.ts:131-133 | deletes the ids in order and stops at the first refused delete: with none refused exactly the listed ids are removed; otherwise it reports the first refused id, which is still stored, exactly the ids before it are removed, and nothing else changes |
| FolderService.FolderService.GetFolderContents | src/services/FolderService.ts:148-174 | the contents computed from a listing of exactly the folder's children; an error when the database is not open |
| Files.GetFileById | src/services/FileService.ts:150-160 | the record when the id names a file, none otherwise; stated by `LookupsAreTyped` |
| Files.StoredContent | src/services/FileService.ts:66 | the content stored for the reader's data URL: the segment after the first comma, "" when there is none; `UploadThenReadContent` reads it back |
| Files.UploadFile | src/services/FileService.ts:36-87 | `uploadFile` on the store value; its behaviour is stated by `UploadFileOutcome` |
| Files.UpdateFileNameChecking | src/services/FileService.ts:92-125 | `updateFileName` with the duplicate check run on a given name; its behaviour is stated by `UpdateFileNameOutcome` |
| Files.UpdateFileName | src/services/FileService.ts:92-125 | `updateFileName` as written: the duplicate check runs on the untrimmed name |
| Files.UpdateFileNameTrimmedCheck | src/services/FileService.ts:108-116 | the corrected `updateFileName`: the duplicate check runs on the trimmed name that is stored |
| Files.DeleteFile | src/services/FileService.ts:130-145 | `deleteFile` on the store value; its behaviour is stated by `DeleteFileOutcome` |
| Files.GetFileContent | src/services/FileService.ts:165-172 | the stored content exactly when the id names a file with non-empty content, null otherwise |
| Files.UploadLimitIsDefaultLimit | src/services/FileService.ts:47-50 | the service's size limit rejects exactly what `isValidFileSize` with the default 10 MB rejects |
| Files.UploadFileOutcome | src/services/FileService.ts:36-87 | type, size and name checks fail in that order with their messages; success holds exactly when every check passes, no sibling clashes, the file could be read and the id is fresh; then one file with the untrimmed name and the base64 segment is added; a failure changes nothing |
| Files.UploadKeepsSiblingsUnique | src/services/FileService.ts:58-80 | uploading keeps sibling names unique ignoring case, since the name checked is the name stored |
| Files.UploadThenReadContent | src/services/FileService.ts:66-80 | after uploading a file read as `data:<type>;base64,<payload>`, its content reads back as the payload, or as null when the payload is empty |
| Files.UpdateFileNameOutcome | src/services/FileService.ts:92-125 | whichever name the duplicate check is run on: "File not found" unless the id names a file; success holds exactly when the name is valid and no other sibling clashes, and then only the name (trimmed) and the update time change |
| Files.UpdateFileNameKeepsSiblingsUnique | src/services/FileService.ts:92-125 | renaming a file to a name with no surrounding white space keeps sibling names unique ignoring case |
| Files.UntrimmedFileRenameAdmitsDuplicate | src/services/FileService.ts:108-116 | in a folder "Work" holding a folder "Docs" and a file "x", renaming "x" to " Docs" succeeds and leaves two items named "Docs" there |
| Files.UntrimmedFileRenameDuplicates | src/services/FileService.ts:108-116 | for every store: when another sibling carries the trimmed name and the untrimmed name clashes with no sibling, `updateFileName` as written succeeds and breaks sibling uniqueness |
| Files.RenameFileTrimmedCheckKeepsSiblingsUnique | src/services/FileService.ts:108-116 | checking the trimmed name when renaming a file keeps sibling names unique for every name |
| Files.RenameFileTrimmedCheckAgreesOnTrimmedNames | src/services/FileService.ts:92-125 | for a name without surrounding white space the corrected `updateFileName` behaves exactly as written |
| Files.DeleteFileOutcome | src/services/FileService.ts:130-145 | "File not found" unless the id names a file; then a failing delete reports its error and changes nothing, and a successful one removes exactly that file |
| Files.LookupsAreTyped | src/services/FileService.ts:150-160 | `getFileById` finds exactly the stored files, and an id it finds is never found as a folder |
| Files.UploadKeepsAcyclic | src/services/FileService.ts:69-80 | uploading under a fresh id keeps the parent links acyclic |
| Files.UpdateFileNameKeepsAcyclic | src/services/FileService.ts:114-116 | renaming a file keeps the parent links acyclic |
| FileService.FileService.constructor | src/services/FileService.ts:29-31 | the service keeps the data layer it is given |
| FileService.FileService.UploadFile | src/services/FileService.ts:36-87 | result and new state are those of `Files.UploadFile` |
| FileService.FileService.UpdateFileName | src/services/FileService.ts:92-125 | result and new state are those of `Files.UpdateFileNameTrimmedCheck`, the corrected `updateFileName` |
| FileService.FileService.DeleteFile | src/services/FileService.ts:130-145 | result and new state are those of `Files.DeleteFile` |
| FileService.FileService.GetFileById | src/services/FileService.ts:150-160 | the record when the id names a file, null otherwise |
| FileService.FileService.GetFileContent | src/services/FileService.ts:165-172 | the content of the named file, null when there is no such file or its content is empty |
| ItemLists.WithoutId | src/utils/reducers/filesReducer.ts:42-46 | keeps exactly the entries with another id, each as often as before |
| ItemLists.WithoutIds | src/utils/reducers/filesReducer.ts:47-51 | keeps exactly the entries whose id is not listed, each as often as before |
| ItemLists.UpdateWhereId | src/utils/reducers/filesReducer.ts:33-41 | entries with another id are untouched; entries with the id take every field the update sets (including a file's MIME type, size and content), keep the others, and get the new update time |
| ItemLists.WithoutIdKeepsOrder | src/utils/reducers/filesReducer.ts:42-46 | filtering out an id keeps the remaining entries in their order |
| ItemLists.WithoutIdsKeepsOrder | src/utils/reducers/filesReducer.ts:47-51 | filtering out several ids keeps the remaining entries in their order |
| ItemLists.WithoutSingleId | src/utils/reducers/filesReducer.ts:42-51 | deleting the one-element list of ids equals deleting that id |
| ItemLists.WithoutAbsentId | src/utils/reducers/filesReducer.ts:42-46 | deleting an id that no entry carries leaves the list unchanged |
| ItemLists.WithoutIdIdempotent | src/utils/reducers/filesReducer.ts:42-46 | deleting the same id twice equals deleting it once |
| FilesReducer.Reduce | src/utils/reducers/filesReducer.ts:27-58 | `filesReducer`, one case per action type; stated by the lemmas below |
| FilesReducer.ActionsKeepTheirLane | src/utils/reducers/filesReducer.ts:27-58 | list actions leave the selection alone, selection actions leave the list alone, clearing empties the selection, and an unknown action changes nothing |
| FilesReducer.AddFileAppends | src/utils/reducers/filesReducer.ts:31-32 | adding puts the file after the existing list, which is unchanged |
| FilesReducer.UpdateFileTouchesOnlyThatId | src/utils/reducers/filesReducer.ts:33-41 | an update keeps the length, leaves other ids alone, and gives each matching file the update merged over it with the new update time |
| FilesReducer.DeleteFileKeepsOthers | src/utils/reducers/filesReducer.ts:42-46 | deletion removes exactly the files with that id and keeps the rest, with their counts and order |
| FilesReducer.DeleteFilesKeepsOthers | src/utils/reducers/filesReducer.ts:47-51 | bulk deletion removes exactly the files whose id is listed and keeps the rest in order |
| FilesReducer.DeleteFilesOfOneId | src/utils/reducers/filesReducer.ts:42-51 | bulk deletion of one id equals single deletion of it |
| ItemsReducer.Reduce | src/utils/reducers/itemsReducer.ts:27-58 | `itemsReducer`, one case per action type; stated by the lemmas below |
| ItemsReducer.ActionsKeepTheirLane | src/utils/reducers/itemsReducer.ts:27-58 | list actions leave the selection alone, selection actions leave the list alone, clearing empties the selection, and an unknown action changes nothing |
| ItemsReducer.AddItemAppends | src/utils/reducers/itemsReducer.ts:31-32 | adding puts the item after the existing list, which is unchanged |
| ItemsReducer.UpdateItemTouchesOnlyThatId | src/utils/reducers/itemsReducer.ts:33-41 | an update keeps the length, leaves other ids alone, and gives each matching item the update merged over it with the new update time |
| ItemsReducer.DeleteItemKeepsOthers | src/utils/reducers/itemsReducer.ts:42-46 | deletion removes exactly the items with that id and keeps the rest in order |
| ItemsReducer.DeleteItemsKeepsOthers | src/utils/reducers/itemsReducer.ts:47-51 | bulk deletion removes exactly the listed ids and keeps the rest, with their counts and order |
| ErrorReducer.Reduce | src/utils/reducers/errorReducer.ts:40-68 | `errorReducer`, one case per action type; stated by the lemmas below |
| ErrorReducer.ReduceAll | src/utils/reducers/errorReducer.ts:40-68 | a run of actions folded through the reducer; `ErrorsComeFromSetError` is proved over it |
| ErrorReducer.SetErrorBindsKey | src/utils/reducers/errorReducer.ts:45-52 | setting binds the key to the error and leaves every other key as it was |
| ErrorReducer.RemoveErrorDropsKey | src/utils/reducers/errorReducer.ts:53-60 | removal unbinds the key, leaves every other key as it was, and changes nothing when the key is absent |
| ErrorReducer.SetThenRemove | src/utils/reducers/errorReducer.ts:45-60 | setting and then removing a key equals removing it |
| ErrorReducer.ClearingAndUnknownActions | src/utils/reducers/errorReducer.ts:35-67 | the initial state has no errors, clearing returns to it, and an unknown action changes nothing |
| ErrorReducer.ErrorsComeFromSetError | src/utils/reducers/errorReducer.ts:40-68 | after any run of actions, every bound key was bound at the start or by some set action |
| FolderReducer.Reduce | src/utils/reducers/folderReducer.ts:27-42 | `folderReducer`, one case per action type; stated by the lemmas below |
| FolderReducer.ReduceAll | src/utils/reducers/folderReducer.ts:27-42 | a run of actions folded through the reducer; `FolderPathNeverChanges` is proved over it |
| FolderReducer.NavigationActionsAgree | src/utils/reducers/folderReducer.ts:29-31 | both navigation actions set the current folder and change nothing else |
| FolderReducer.ActionsKeepTheirLane | src/utils/reducers/folderReducer.ts:32-41 | the creating flag action sets only that flag, list actions leave the current folder and the flag alone, and an unknown action changes nothing |
| FolderReducer.FolderListEdits | src/utils/reducers/folderReducer.ts:36-39 | adding appends the folder, and deleting removes exactly that id, keeping the rest in order |
| FolderReducer.FolderPathNeverChanges | src/utils/reducers/folderReducer.ts:19-42 | no run of actions changes the folder path, so from the initial state it stays empty |
| LoadingReducer.Reduce | src/utils/reducers/loadingReducer.ts:20-26 | `loadingReducer`: the set action sets the flag, any other action keeps the state |
| LoadingReducer.ReduceAll | src/utils/reducers/loadingReducer.ts:20-26 | a run of actions folded through the reducer; `LastSetLoadingWins` is proved over it |
| LoadingReducer.SetLoadingSetsFlag | src/utils/reducers/loadingReducer.ts:15-25 | the initial state is not loading, setting the flag sets it (twice is the same as once), and an unknown action changes nothing |
| LoadingReducer.LastSetLoadingWins | src/utils/reducers/loadingReducer.ts:20-26 | after a run of actions the flag is the one the last set action gave, or unchanged when there is none |

## Left out

- Text.Lower: lower-cases ASCII letters only; JavaScript's `toLowerCase` also maps other alphabets, so names that differ only in non-ASCII case clash in the source and not in the model.
- Text.LexLeqTotal: `localeCompare` is replaced by code-point order, because locale collation is not specified by the source; sortedness and permutation are proved for that order.
- Folders.CreateFolderKeepsSiblingsUnique: proved only for names without surrounding white space, because for other names the code as written breaks the property (see Findings).
- Folders.UpdateFolderKeepsSiblingsUnique: proved only for names without surrounding white space, for the same reason.
- Files.UpdateFileNameKeepsSiblingsUnique: proved only for names without surrounding white space, for the same reason.
- FolderService.FolderService.CreateFolder: runs the corrected duplicate check on the trimmed name; the source checks the untrimmed name, so next to a sibling "Docs" the source creates a second "Docs" from " Docs" where this method reports the duplicate. The code as written is `Folders.CreateFolder` (see Findings).
- FolderService.FolderService.UpdateFolder: runs the corrected duplicate check on the trimmed name; the source checks the untrimmed name, which `Folders.UpdateFolder` models (see Findings).
- FileService.FileService.UpdateFileName: runs the corrected duplicate check on the trimmed name; the source checks the untrimmed name, which `Files.UpdateFileName` models (see Findings).
- FolderService.FolderService.GetFolderDescendants: requires acyclic parent links (a ghost rank); the source has no visited set, so on a cycle it loops forever.
- FolderService.FolderService.DeleteFolder: requires acyclic parent links, as `getFolderDescendants` does.
- DataLayer.IndexedDBDataLayer.GetItemsByParent: modelled as the intended filter on `parentId`. Null is not a valid IndexedDB key, so `index.getAll(null)` selects every indexed record rather than the root records. Root records have a null `parentId` and are not in the index, so `checkDuplicateName` (src/utils/validation.ts:51-54) keeps none of them, and the program never detects a duplicate name at the root. The model compares root siblings like any others, so its duplicate checks and the witnesses in the Findings table concern folders below the root.
- DataLayer.IndexedDBDataLayer.DeleteItemsInParent: the concurrent deletes of `Promise.all` are made sequential, and the error is that of one refused delete.
- Request failures other than delete (`get`, `getAll`, `add`, `put` raising `onerror`) are not modelled; only a reused id makes `add` fail.
- `updateItem` patches and the `updates` of UPDATE_ITEM and UPDATE_FILE that change an item's `type` cannot be expressed, because the patch has no kind field: a merged entry always keeps its kind in the model, while the source's `Partial<DataRoomItem>` payload could turn a folder into a file; the services only ever patch the name.
- `Date` values are natural-number clock ticks; the re-wrapping of stored dates as `Date` objects is not modelled. Every successful write advances the tick, so a new record's timestamps are later than every stored one (`Repository.CreateItemContract`). In the program, two `new Date()` calls in the same millisecond give equal dates, so this ordering holds only in the model.
- The `FileReader` itself, `formatFileSize` and `openFileInNewTab` are I/O or display code and are not modelled; the reader's outcome is the `dataUrl` parameter.
- When the data URL has no comma, `split(',')[1]` is undefined and the record stores undefined content; the model stores the empty string, which `getFileContent` treats alike.
- The catch-all fallback messages ("Failed to create folder" and the like) apply only to non-`Error` throws other than the reader's, which the modelled operations do not raise.
- React components, contexts, hooks and the 100-character limit in the UI forms are not part of this model.
- `src/data-room.ts`, which wires the services together, is not part of this model.
- The action-type constants files lack some of the action types the reducers switch on; the reducers are modelled from their own action unions.
- The `folderReducer` payload casts are taken at their declared types.
- Interleaving of concurrent asynchronous operations is not modelled; each operation runs alone.

## Findings

| source | as written | input that shows it | evidently intended | confidence | as-written member | corrected member |
|---|---|---|---|---|---|---|
| src/services/FolderService.ts:52-71 | the duplicate check compares the untrimmed name, but the folder is stored under `name.trim()` | a folder "Work" holding a folder "Docs", then `createFolder(" Docs", <id of Work>)` succeeds and stores a second folder named "Docs" in "Work" | check the name that is stored, so no two siblings share a name ignoring case | not executed | Folders.UntrimmedCheckAdmitsDuplicate | Folders.TrimmedCheckKeepsSiblingsUnique |
| src/services/FolderService.ts:98-106 | the duplicate check compares the untrimmed name, but the folder is renamed to `name.trim()` | a folder "Work" holding folders "Docs" and "x", then `updateFolder` of "x" to " Docs" succeeds and leaves two folders named "Docs" in "Work" | check the name that is stored | not executed | Folders.UntrimmedRenameAdmitsDuplicate | Folders.RenameTrimmedCheckKeepsSiblingsUnique |
| src/services/FileService.ts:108-116 | the duplicate check compares the untrimmed name, but the file is renamed to `name.trim()` | a folder "Work" holding a folder "Docs" and a file "x", then `updateFileName` of "x" to " Docs" succeeds and leaves two items named "Docs" in "Work" | check the name that is stored | not executed | Files.UntrimmedFileRenameAdmitsDuplicate | Files.RenameFileTrimmedCheckKeepsSiblingsUnique |
