/** `filesReducer` (src/utils/reducers/filesReducer.ts): the list of files shown and the selection. */
module FilesReducer {
  import opened DataRoom
  import opened ItemLists

  datatype FilesState = FilesState(files: seq<Item>, selectedFiles: seq<string>)

  /**
   * The actions of the reducer's union type. `UpdateFile` carries the tick
   * `new Date()` reads; `Unrecognised` is any other action type.
   */
  datatype FilesAction =
    | SetFiles(files: seq<Item>)
    | AddFile(file: Item)
    | UpdateFile(id: string, updates: Patch, now: nat)
    | DeleteFile(id: string)
    | DeleteFiles(ids: seq<string>)
    | SetSelectedFiles(selection: seq<string>)
    | ClearSelection
    | Unrecognised(tag: string)

  const InitialFilesState: FilesState := FilesState([], [])

  function Reduce(state: FilesState, action: FilesAction): FilesState {
    match action
    case SetFiles(files) => state.(files := files)
    case AddFile(file) => state.(files := state.files + [file])
    case UpdateFile(id, updates, now) => state.(files := UpdateWhereId(state.files, id, updates, now))
    case DeleteFile(id) => state.(files := WithoutId(state.files, id))
    case DeleteFiles(ids) => state.(files := WithoutIds(state.files, ids))
    case SetSelectedFiles(selection) => state.(selectedFiles := selection)
    case ClearSelection => state.(selectedFiles := [])
    case Unrecognised(_) => state
  }

  /** The list actions never touch the selection; the selection actions never touch the list. */
  lemma ActionsKeepTheirLane(state: FilesState, action: FilesAction)
    ensures !action.SetSelectedFiles? && !action.ClearSelection? ==>
              Reduce(state, action).selectedFiles == state.selectedFiles
    ensures action.SetSelectedFiles? || action.ClearSelection? || action.Unrecognised? ==>
              Reduce(state, action).files == state.files
    ensures action.ClearSelection? ==> Reduce(state, action).selectedFiles == []
    ensures action.Unrecognised? ==> Reduce(state, action) == state
  {
  }

  /** ADD_FILE appends: the earlier entries keep their values and order. */
  lemma AddFileAppends(state: FilesState, file: Item)
    ensures var r := Reduce(state, AddFile(file));
      && |r.files| == |state.files| + 1
      && r.files[..|state.files|] == state.files && r.files[|state.files|] == file
  {
  }

  /** UPDATE_FILE keeps length and order and changes only the entries of that id, each refreshed. */
  lemma UpdateFileTouchesOnlyThatId(state: FilesState, id: string, updates: Patch, now: nat)
    ensures var r := Reduce(state, UpdateFile(id, updates, now));
      && |r.files| == |state.files|
      && (forall i :: 0 <= i < |state.files| && state.files[i].id != id ==> r.files[i] == state.files[i])
      && (forall i :: 0 <= i < |state.files| && state.files[i].id == id ==>
            r.files[i] == Apply(state.files[i], updates).(updatedAt := now))
  {
  }

  /** DELETE_FILE keeps exactly the entries of other ids, in their original order. */
  lemma DeleteFileKeepsOthers(state: FilesState, id: string)
    ensures var r := Reduce(state, DeleteFile(id));
      && (forall x :: x in r.files <==> x in state.files && x.id != id)
      && (forall x: Item :: x.id != id ==> multiset(r.files)[x] == multiset(state.files)[x])
      && IsSubsequence(r.files, state.files)
  {
    var r := Reduce(state, DeleteFile(id));
    assert r.files == WithoutId(state.files, id);
    WithoutIdKeepsOrder(state.files, id);
  }

  /** DELETE_FILES keeps exactly the entries whose id is not listed, in their original order. */
  lemma DeleteFilesKeepsOthers(state: FilesState, ids: seq<string>)
    ensures var r := Reduce(state, DeleteFiles(ids));
      && (forall x :: x in r.files <==> x in state.files && x.id !in ids)
      && IsSubsequence(r.files, state.files)
  {
    var r := Reduce(state, DeleteFiles(ids));
    assert r.files == WithoutIds(state.files, ids);
    WithoutIdsKeepsOrder(state.files, ids);
  }

  /** DELETE_FILES with a one-element list is DELETE_FILE. */
  lemma DeleteFilesOfOneId(state: FilesState, id: string)
    ensures Reduce(state, DeleteFiles([id])) == Reduce(state, DeleteFile(id))
  {
    WithoutSingleId(state.files, id);
  }
}
