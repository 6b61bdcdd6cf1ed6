/** The records the storage layer hands out: a stored file (`StorageItem`)
    and the directory tree (`StorageFolder` holding `IStorageNode`s). */
module Items {
  import opened Nullable

  /** File content, as the bytes a stream yields from position 0. */
  type Bytes = seq<bv8>

  /** One stored file. `filePath` is the key the engine hands back to callers,
      `path` its directory. `lastModified` is absent on an item that was just
      saved; `content` is the open read stream, present only on an item read
      back from the backend. */
  datatype StorageItem = StorageItem(
    fileName: string,
    filePath: string,
    path: string,
    fileSize: nat,
    lastModified: Option<int>,
    content: Option<Bytes>)

  /** `IStorageNode`: a file or a folder of the tree. */
  datatype StorageNode =
    | ItemNode(item: StorageItem)
    | FolderNode(folder: StorageFolder)

  /** A directory of the tree with its children, as scanned when the tree was
      built. */
  datatype StorageFolder = StorageFolder(name: string, fullPath: string, children: seq<StorageNode>)
}
