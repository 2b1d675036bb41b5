/**
 * The persisted entity of the data room (src/types/dataroom.ts): an item is a
 * folder or a PDF file; both carry an id, a name, an optional parent id and two
 * timestamps. Timestamps are ticks of a monotone clock instead of `Date`s.
 */
module DataRoom {
  import opened Wrappers

  datatype Item =
    | Folder(id: string, name: string, parentId: Option<string>, createdAt: nat, updatedAt: nat)
    | File(id: string, name: string, parentId: Option<string>, createdAt: nat, updatedAt: nat,
           mimeType: string, size: nat, content: string)

  /** The argument of `createItem`: an item without `id`, `createdAt` and `updatedAt`. */
  datatype NewItem =
    | NewFolder(name: string, parentId: Option<string>)
    | NewFile(name: string, parentId: Option<string>, mimeType: string, size: nat, content: string)

  /**
   * A `Partial<...>` update record: every field it sets overrides the item's field
   * when spread over it (`{ ...item, ...updates }`). Fields a folder does not have
   * are ignored on folders.
   */
  datatype Patch = Patch(
    id: Option<string>,
    name: Option<string>,
    parentId: Option<Option<string>>,
    createdAt: Option<nat>,
    mimeType: Option<string>,
    size: Option<nat>,
    content: Option<string>)

  /** The patch `{ name }`, the only update the services ever issue. */
  function Rename(name: string): Patch {
    Patch(None, Some(name), None, None, None, None, None)
  }

  function Pick<T>(o: Option<T>, otherwise: T): T {
    match o
    case Some(v) => v
    case None => otherwise
  }

  /** `{ ...item, ...patch }`: the fields the patch sets win, the others are kept. */
  function Apply(item: Item, patch: Patch): (r: Item)
    ensures r.Folder? == item.Folder?
    ensures r.id == Pick(patch.id, item.id) && r.name == Pick(patch.name, item.name)
    ensures r.parentId == Pick(patch.parentId, item.parentId)
    ensures r.createdAt == Pick(patch.createdAt, item.createdAt) && r.updatedAt == item.updatedAt
    ensures r.File? ==> (r.mimeType == Pick(patch.mimeType, item.mimeType) &&
                         r.size == Pick(patch.size, item.size) &&
                         r.content == Pick(patch.content, item.content))
  {
    match item
    case Folder(id, name, parentId, createdAt, updatedAt) =>
      Folder(Pick(patch.id, id), Pick(patch.name, name), Pick(patch.parentId, parentId),
             Pick(patch.createdAt, createdAt), updatedAt)
    case File(id, name, parentId, createdAt, updatedAt, mimeType, size, content) =>
      File(Pick(patch.id, id), Pick(patch.name, name), Pick(patch.parentId, parentId),
           Pick(patch.createdAt, createdAt), updatedAt,
           Pick(patch.mimeType, mimeType), Pick(patch.size, size), Pick(patch.content, content))
  }

  /** The record `createItem` stores: the data plus an id and two equal timestamps. */
  function Materialize(data: NewItem, id: string, now: nat): Item {
    match data
    case NewFolder(name, parentId) => Folder(id, name, parentId, now, now)
    case NewFile(name, parentId, mimeType, size, content) =>
      File(id, name, parentId, now, now, mimeType, size, content)
  }

  /** The data an item was created from: `Materialize` forgets nothing else. */
  function DataOf(item: Item): NewItem {
    match item
    case Folder(_, name, parentId, _, _) => NewFolder(name, parentId)
    case File(_, name, parentId, _, _, mimeType, size, content) =>
      NewFile(name, parentId, mimeType, size, content)
  }

  lemma MaterializeKeepsData(data: NewItem, id: string, now: nat)
    ensures var it := Materialize(data, id, now);
      it.id == id && it.createdAt == now && it.updatedAt == now && DataOf(it) == data
      && it.Folder? == data.NewFolder?
  {
  }
}
