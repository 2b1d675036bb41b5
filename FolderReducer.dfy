/** `folderReducer` (src/utils/reducers/folderReducer.ts): navigation and the folder list. */
module FolderReducer {
  import opened Wrappers
  import opened DataRoom
  import opened ItemLists

  datatype FolderState = FolderState(
    currentFolderId: Option<string>,
    folderPath: seq<Item>,
    folders: seq<Item>,
    isCreating: bool)

  /**
   * The action types the reducer's switch handles, each with its payload at the type
   * the reducer casts it to; `Unrecognised` is any other action type.
   */
  datatype FolderAction =
    | SetCurrentFolder(folderId: Option<string>)
    | NavigateToFolder(folderId: Option<string>)
    | SetIsCreating(isCreating: bool)
    | SetFolders(folders: seq<Item>)
    | AddFolder(folder: Item)
    | DeleteFolder(id: string)
    | Unrecognised(tag: string)

  const InitialFolderState: FolderState := FolderState(None, [], [], false)

  function Reduce(state: FolderState, action: FolderAction): FolderState {
    match action
    case SetCurrentFolder(folderId) => state.(currentFolderId := folderId)
    case NavigateToFolder(folderId) => state.(currentFolderId := folderId)
    case SetIsCreating(isCreating) => state.(isCreating := isCreating)
    case SetFolders(folders) => state.(folders := folders)
    case AddFolder(folder) => state.(folders := state.folders + [folder])
    case DeleteFolder(id) => state.(folders := WithoutId(state.folders, id))
    case Unrecognised(_) => state
  }

  /** Folds a sequence of actions over a state, as React's `useReducer` does. */
  function ReduceAll(state: FolderState, actions: seq<FolderAction>): FolderState
    decreases |actions|
  {
    if actions == [] then state else ReduceAll(Reduce(state, actions[0]), actions[1..])
  }

  /** SET_CURRENT_FOLDER and NAVIGATE_TO_FOLDER both set `currentFolderId` and nothing else. */
  lemma NavigationActionsAgree(state: FolderState, folderId: Option<string>)
    ensures Reduce(state, SetCurrentFolder(folderId)) == Reduce(state, NavigateToFolder(folderId))
    ensures var r := Reduce(state, SetCurrentFolder(folderId));
      r.currentFolderId == folderId && r.folderPath == state.folderPath &&
      r.folders == state.folders && r.isCreating == state.isCreating
  {
  }

  /** SET_IS_CREATING changes only `isCreating`; the folder-list actions change only `folders`. */
  lemma ActionsKeepTheirLane(state: FolderState, action: FolderAction)
    ensures action.SetIsCreating? ==> Reduce(state, action) == state.(isCreating := action.isCreating)
    ensures action.SetFolders? || action.AddFolder? || action.DeleteFolder? ==>
      var r := Reduce(state, action);
      r.currentFolderId == state.currentFolderId && r.isCreating == state.isCreating
    ensures action.Unrecognised? ==> Reduce(state, action) == state
  {
  }

  /** ADD_FOLDER appends; DELETE_FOLDER keeps exactly the folders of other ids, in their original order. */
  lemma FolderListEdits(state: FolderState, folder: Item, id: string)
    ensures var r := Reduce(state, AddFolder(folder));
      r.folders[..|state.folders|] == state.folders && r.folders[|state.folders|] == folder
    ensures var r := Reduce(state, DeleteFolder(id));
      && (forall x :: x in r.folders <==> x in state.folders && x.id != id)
      && IsSubsequence(r.folders, state.folders)
  {
    WithoutIdKeepsOrder(state.folders, id);
  }

  /** No action ever changes `folderPath`, so from the initial state it stays empty forever. */
  lemma {:induction false} FolderPathNeverChanges(state: FolderState, actions: seq<FolderAction>)
    ensures ReduceAll(state, actions).folderPath == state.folderPath
    ensures state == InitialFolderState ==> ReduceAll(state, actions).folderPath == []
    decreases |actions|
  {
    if actions != [] {
      FolderPathNeverChanges(Reduce(state, actions[0]), actions[1..]);
    }
  }
}
