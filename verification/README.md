# Sitko.Core storage layer in Dafny

This project models the pluggable file-storage layer of Sitko.Core. It has
two parts.

- `Storage<T>` is the generic engine. It derives a stored file's name and
  destination path, and builds the `StorageItem` it hands back. It keeps the
  optional `IStorageCache` in step with saves, deletions and wipes. It holds a
  snapshot of the directory tree and rebuilds it after every write and
  whenever the snapshot is older than 30 minutes. It walks that snapshot to
  list a directory, and it composes public addresses.
- `FileSystemStorage<T>` is the backend that keeps the files under a
  directory of the local filesystem, its `StoragePath`. It saves, deletes,
  checks for and reads single files, wipes its root, and lists the whole
  tree recursively.

Both parts are modelled over an abstract disk. A disk is a map from keys to
file data plus a set of directory keys. A key is the sequence of names a path
walks through from the filesystem root. The engine's state is an immutable
record: the options, the backend's disk, the cache, the snapshot and its build
time. Every operation takes that state and returns the new one. Time and the
fresh `Guid` are parameters.

Modules and files:

| file | module | what it holds |
|---|---|---|
| `nullable.dfy` | `Nullable` | `Option`, for the source's nullable references |
| `text.dfy` | `Text` | `Replace`, `Trim`, `Split`, `LastIndexOf` and the `Segments` of a path, with their lemmas |
| `paths.dfy` | `Paths` | `PreparePath`, stored names and destination paths, and `System.IO.Path` on Unix |
| `items.dfy` | `Items` | `StorageItem`, `StorageNode`, `StorageFolder` |
| `disk.dfy` | `Disk` | the disk and the `File`/`Directory` calls the backend makes |
| `filesystem_storage.dfy` | `FileSystemStorage` | the backend hooks and `ListFolder` |
| `cache.dfy` | `StorageCache` | the cache operations the engine calls |
| `storage.dfy` | `Storage` | the engine |

Behaviours of the code worth knowing:

- `PreparePath` is not idempotent. It makes one left-to-right pass that
  replaces non-overlapping "//", so "///" becomes "//"
  (`Paths.PreparePathNotIdempotent`).
- The `FilePath` that `DoGetFileAsync` returns is the normalised full path,
  with the storage root in front. It is not the logical path.
- A tree folder's `FullPath` is its logical path ("/a/b"), not a path under
  the root. `ListFolder` paths are rooted, and `Path.Combine` drops its first
  argument when the second is rooted.
- For the same reason, a save under a rooted directory ("/docs") writes at
  "/docs/…" itself, outside the storage root, and a wipe does not remove it
  (`Storage.RootedSaveIgnoresRoot`).
- A folder's `Name` is its last name without the extension, so directory
  "a.b" is reached by the segment "a" (`FileSystemStorage.FolderNameDropsExtension`).
- A top-level ".git" directory is named "" (`FolderName("/.git") == ""`,
  `FileSystemStorage.DotFolderName`). Listing "/" walks the single segment
  "", so it shows that directory's children instead of the root's.
- Sibling directories "a" and "a.b" both give folders named "a". Listing
  "a" returns whichever of them the directory enumeration yields first. The
  listing lemmas are stated for paths whose segments have no dot and no such
  competing sibling (`Storage.UniqueFolderName`, `Storage.Reachable`).

## Model

| member | source | states |
|---|---|---|
| Paths.Normalize | src/Sitko.Core.Storage/Storage.cs:168-171 | the result has no backslash and is never longer than the input; it walks through the same names as the input read with '\' as a separator; it equals the input exactly when the input has no backslash and no "//" |
| Paths.PreparePath | src/Sitko.Core.Storage/Storage.cs:168-171 | null maps to null and only null; a non-null result has the properties of `Normalize` |
| Paths.PreparePathNotIdempotent | src/Sitko.Core.Storage/Storage.cs:170 | "///" becomes "//", and only a second pass gives "/": the function is not idempotent |
| Paths.NormalizeKeepsSeparator | src/Sitko.Core.Storage/Storage.cs:170 | a path with a separator (either kind) still has a '/' after normalising, and a rooted path stays rooted |
| Paths.CombineSegments | src/Sitko.Core.Storage.FileSystem/FileSystemStorage.cs:29-35 | `Path.Combine(a, b)` walks through the names of `b` alone when `b` is rooted, and otherwise through those of `a` and then those of `b` |
| Paths.DirectoryNameIsParent | src/Sitko.Core.Storage/Storage.cs:66 | for a path that names something and does not end in a separator, `GetDirectoryName` exists and walks through every name of the path except the last |
| Paths.StripExtension | src/Sitko.Core.Storage.FileSystem/FileSystemStorage.cs:127 | with a '.', the result is the name up to its last '.'; without one, the name itself |
| Paths.Extension | src/Sitko.Core.Storage/Storage.cs:159 | the extension is the suffix of the name from its last '.', dot included, and holds no other '.' |
| Paths.StorageFileName | src/Sitko.Core.Storage/Storage.cs:157-161 | the stored name is the id followed by the original name's extension |
| Paths.StorageFileNameKeepsExtension | src/Sitko.Core.Storage/Storage.cs:157-161 | for every `Guid` text, the stored name's own extension is the original name's extension |
| Paths.DestinationPath | src/Sitko.Core.Storage/Storage.cs:52-57 | the destination has no backslash and walks through the directory's names and then the stored name's |
| Disk.CreateDirectory | src/Sitko.Core.Storage.FileSystem/FileSystemStorage.cs:30-33 | the directory exists afterwards, files are untouched, no directory disappears, and every new directory lies above the target |
| Disk.WriteFile | src/Sitko.Core.Storage.FileSystem/FileSystemStorage.cs:35-37 | the file holds exactly the given bytes, and every other file and every directory is unchanged |
| Disk.DeleteFile | src/Sitko.Core.Storage.FileSystem/FileSystemStorage.cs:48 | the file is gone, and every other file and every directory is unchanged |
| Disk.DeleteTree | src/Sitko.Core.Storage.FileSystem/FileSystemStorage.cs:70 | nothing at or below the directory remains, everything else is unchanged, and the disk stays well formed |
| FileSystemStorage.DoSave | src/Sitko.Core.Storage.FileSystem/FileSystemStorage.cs:21-39 | false exactly when the path has no directory part, and then the disk is unchanged; on true, the directory exists and the file holds exactly the stream's bytes; no other file changes and no directory disappears |
| FileSystemStorage.NoDirectoryMeansBareName | src/Sitko.Core.Storage.FileSystem/FileSystemStorage.cs:23-27 | a save is refused exactly for "/" and for paths with no separator |
| FileSystemStorage.SaveWritesIntoItsDirectory | src/Sitko.Core.Storage.FileSystem/FileSystemStorage.cs:29-35 | the file is created directly inside the directory the save makes sure exists |
| FileSystemStorage.DoDelete | src/Sitko.Core.Storage.FileSystem/FileSystemStorage.cs:41-58 | true exactly when the file existed and its deletion did not fail; on true only that file is gone; on false nothing changes |
| FileSystemStorage.DoDeleteAll | src/Sitko.Core.Storage.FileSystem/FileSystemStorage.cs:66-74 | afterwards the root directory does not exist and nothing is left below it; everything outside it is unchanged; without a root directory the disk is unchanged |
| FileSystemStorage.DoDeleteAllIdempotent | src/Sitko.Core.Storage.FileSystem/FileSystemStorage.cs:66-74 | wiping twice leaves the same disk as wiping once |
| FileSystemStorage.DoGetFile | src/Sitko.Core.Storage.FileSystem/FileSystemStorage.cs:76-95 | null exactly when no file is at root/path; otherwise the item has the file's last name, length, time and content, a `FilePath` that is the normalised full path with the root in front, and a `Path` naming the file's directory |
| FileSystemStorage.DoIsFileExists | src/Sitko.Core.Storage.FileSystem/FileSystemStorage.cs:60-64 | the backend's existence check holds exactly when reading the item's `FilePath` returns an item |
| FileSystemStorage.FolderNameDropsExtension | src/Sitko.Core.Storage.FileSystem/FileSystemStorage.cs:127 | the folder for directory "/a.b" is named "a", although its last name is "a.b" |
| FileSystemStorage.DotFolderName | src/Sitko.Core.Storage.FileSystem/FileSystemStorage.cs:127 | the folder for directory "/.git" is named "", the segment that listing "/" looks up |
| FileSystemStorage.FolderName | src/Sitko.Core.Storage.FileSystem/FileSystemStorage.cs:127 | the root folder is named "/"; any other folder's name is a prefix of its last name: all of it without a '.', and otherwise everything before its last '.' |
| FileSystemStorage.FolderKeyOf | src/Sitko.Core.Storage.FileSystem/FileSystemStorage.cs:104 | the directory a folder path is enumerated from is the root's names followed by the path's names |
| FileSystemStorage.ChildPathFacts | src/Sitko.Core.Storage.FileSystem/FileSystemStorage.cs:122 | the recursion path of a subdirectory is its parent's path plus "/" and its name, is itself a well-formed folder path, and ends in that name |
| FileSystemStorage.ChildFolderKey | src/Sitko.Core.Storage.FileSystem/FileSystemStorage.cs:122 | a subfolder is enumerated from its parent's directory extended by its name |
| FileSystemStorage.TreeFileItem | src/Sitko.Core.Storage.FileSystem/FileSystemStorage.cs:114-121 | for a folder path and a plain name, the item built for a tree file has the folder's logical path and the file's logical path, both without the leading separator |
| FileSystemStorage.ListedFileResolves | src/Sitko.Core.Storage.FileSystem/FileSystemStorage.cs:114-121 | a tree file's `FilePath` is relative and, read back through the backend, finds the same file with the same content |
| FileSystemStorage.FolderChildName | src/Sitko.Core.Storage.FileSystem/FileSystemStorage.cs:122-127 | a folder child of a listed folder stands for a subdirectory and is named after that directory's name without its extension |
| FileSystemStorage.ListFolder | src/Sitko.Core.Storage.FileSystem/FileSystemStorage.cs:102-130 | the folder is named after its path and has that path as `FullPath`; a missing directory gives no children; otherwise there is exactly one child per directory entry, with no name twice, each file as its item and each subdirectory listed the same way |
| FileSystemStorage.ListChildren | src/Sitko.Core.Storage.FileSystem/FileSystemStorage.cs:106-125 | enumerating a directory yields every entry once and lists each correctly |
| FileSystemStorage.ListEntry | src/Sitko.Core.Storage.FileSystem/FileSystemStorage.cs:112-124 | an entry becomes a file item if it is a file, and otherwise the subfolder listed from its directory |
| FileSystemStorage.ListSubfolder | src/Sitko.Core.Storage.FileSystem/FileSystemStorage.cs:122 | the subfolder's `FullPath` is the parent's path plus the name, and it is listed from the subdirectory |
| FileSystemStorage.DoBuildStorageTree | src/Sitko.Core.Storage.FileSystem/FileSystemStorage.cs:97-100 | the tree is never null; it is the folder "/" with full path "/", listed from the storage root |
| StorageCache.GetOrAdd | src/Sitko.Core.Storage/Storage.cs:97-100 | a cached entry is returned and nothing changes; on a miss the fetched item is returned and at most that key is added; no other entry changes |
| StorageCache.Remove | src/Sitko.Core.Storage/Storage.cs:80-83 | the key is forgotten and every other entry is kept |
| StorageCache.Clear | src/Sitko.Core.Storage/Storage.cs:114-117 | every entry is forgotten |
| StorageCache.RemoveThenGetFetches | src/Sitko.Core.Storage/Storage.cs:80-85 | the first lookup after a removal returns what the backend fetches |
| StorageCache.SecondLookupIsStable | src/Sitko.Core.Storage/Storage.cs:97-100 | once a lookup was remembered, the next lookup of that key returns the same item, whatever the backend would say |
| Storage.BuildStorageTree | src/Sitko.Core.Storage/Storage.cs:144-148 | the snapshot is the backend's tree of the current disk, stamped with the current time; nothing else changes |
| Storage.IsStale | src/Sitko.Core.Storage/Storage.cs:127 | without a snapshot the tree is stale; a snapshot built at `t` is stale exactly after `t` plus 30 minutes; one without a build time never is |
| Storage.CreateStorageItem | src/Sitko.Core.Storage/Storage.cs:59-69 | the item has the original name, the given size and the destination as `FilePath`, no time and no content; for a destination that names a file below a directory, its `Path` names that directory |
| Storage.DestinationHasDirectory | src/Sitko.Core.Storage/Storage.cs:52-57 | every destination has a directory part, so the backend never refuses the save, and it names something |
| Storage.NewItem | src/Sitko.Core.Storage/Storage.cs:59-69 | the new item has the original name, the stream's length, the destination as `FilePath` and that destination's directory as `Path` |
| Storage.ItemPathIsParent | src/Sitko.Core.Storage/Storage.cs:66 | for a destination that names something and does not end in a separator, the item's `Path` names every directory of the destination except the file itself |
| Storage.SaveAt | src/Sitko.Core.Storage/Storage.cs:42 | the backend call in a save succeeds and leaves the file holding the bytes written |
| Storage.SaveFile | src/Sitko.Core.Storage/Storage.cs:26-50 | the item has the original name, the stream's length, the destination as `FilePath` and its directory as `Path`; the disk is the backend's save; the cache forgets the `FilePath`; the tree is rebuilt now; reading the `FilePath` back gives the saved bytes |
| Storage.SaveThenGet | src/Sitko.Core.Storage/Storage.cs:26-50 | a file that is on the disk and not in the cache reads back with its bytes |
| Storage.RootedSaveIgnoresRoot | src/Sitko.Core.Storage/Storage.cs:52-57 | for a rooted directory the destination is rooted, and combining it with any root gives the destination itself |
| Storage.DeleteFile | src/Sitko.Core.Storage/Storage.cs:78-88 | the cache forgets the path; the result is true exactly when the file existed and its deletion did not fail; then only that file is gone and the path no longer resolves; the tree is rebuilt now |
| Storage.DeleteThenGet | src/Sitko.Core.Storage/Storage.cs:78-88 | a path whose file is gone and which is not cached resolves to null |
| Storage.GetFile | src/Sitko.Core.Storage/Storage.cs:95-103 | without a cache entry for the path, the answer is the backend's and is null exactly when no file is there; with one, the remembered item is returned and the state is unchanged; only the cache changes |
| Storage.CacheHitIgnoresBackend | src/Sitko.Core.Storage/Storage.cs:97-100 | a remembered path gives the same answer whatever the disk holds |
| Storage.IsFileExists | src/Sitko.Core.Storage/Storage.cs:106-110 | true exactly when the lookup returns an item; without a cache entry, exactly when a file is at the path |
| Storage.ExistsMatchesBackendCheck | src/Sitko.Core.Storage/Storage.cs:106-110 | without a cache, the engine's check agrees with the backend's own existence check |
| Storage.DeleteAll | src/Sitko.Core.Storage/Storage.cs:112-122 | the cache is empty, the snapshot and its time are unset, the root directory is gone with everything below it, and everything outside it is unchanged |
| Storage.DeleteAllThenGet | src/Sitko.Core.Storage/Storage.cs:112-122 | after a wipe no relative path that names something resolves |
| Storage.SnapshotStaysCoherent | src/Sitko.Core.Storage/Storage.cs:95-127 | lookups keep the snapshot unset or current and a wipe unsets it, so a snapshot that is not stale is current |
| Storage.WipeThenList | src/Sitko.Core.Storage/Storage.cs:112-141 | after a wipe the next listing rebuilds the snapshot, and a snapshot of the wiped disk lists nothing for any path |
| Storage.FindFolder | src/Sitko.Core.Storage/Storage.cs:138 | null exactly when no child is a folder with that name; otherwise the first such child |
| Storage.FindSubfolder | src/Sitko.Core.Storage/Storage.cs:138 | in a folder listed from the disk, looking up a subdirectory's name that has no dot and no competing sibling finds that subdirectory's listing |
| Storage.Walk | src/Sitko.Core.Storage/Storage.cs:135-139 | once a segment fails to match, the walk stays null; a folder it reaches is named after the last segment |
| Storage.WalkStep | src/Sitko.Core.Storage/Storage.cs:136-138 | from a listed folder, the first reachable segment leads to the listing of its subdirectory, from which the remaining segments are reachable |
| Storage.WalkReachable | src/Sitko.Core.Storage/Storage.cs:135-139 | walking a listed folder along segments that reach a directory ends at that directory's listing |
| Storage.WalkConcat | src/Sitko.Core.Storage/Storage.cs:136-139 | walking two runs of segments is walking the first, then the second from where it ended |
| Storage.Contents | src/Sitko.Core.Storage/Storage.cs:141 | without a snapshot nothing is listed; a non-empty answer is the children of the folder the walk reaches, named after the last segment |
| Storage.Parts | src/Sitko.Core.Storage/Storage.cs:134 | at least one segment; joined back with '/' they give the trimmed, normalised path, and none contains '/' |
| Storage.PartsAreSegments | src/Sitko.Core.Storage/Storage.cs:134 | for a path without backslashes whose segments are all names, the segments are exactly the path's names |
| Storage.ReachableStep | src/Sitko.Core.Storage/Storage.cs:136-138 | segments that reach a directory start with a subdirectory that has no dot and no competing sibling, and the rest reach the same directory from there |
| Storage.PartsOfRoot | src/Sitko.Core.Storage/Storage.cs:134 | "/" and "" both split to the single segment "" |
| Storage.RootListing | src/Sitko.Core.Storage/Storage.cs:132-141 | "/" and "" split to the single segment "", so they list the first top-level folder named "", or nothing |
| Storage.ListingShowsDirectory | src/Sitko.Core.Storage/Storage.cs:132-141 | from a snapshot of the current disk, a path whose segments reach a directory lists exactly that directory's entries, each once; without backslashes the segments are the path's names |
| Storage.MissingRootListsNothing | src/Sitko.Core.Storage/Storage.cs:132-141 | a snapshot of a disk without the storage root lists nothing, whatever the path |
| Storage.GetDirectoryContents | src/Sitko.Core.Storage/Storage.cs:125-142 | the snapshot is rebuilt now exactly when it is unset or older than 30 minutes, and is otherwise unchanged; when it answers from a snapshot of the current disk, a path whose segments reach a directory lists exactly that directory's entries, each once, and without a storage root nothing is listed |
| Storage.PublicUri | src/Sitko.Core.Storage/Storage.cs:152-155 | the address is the configured base, a '/', then the item's `FilePath`, and both parts can be read back from it |

## Left out

- Streams: content is the sequence of bytes the stream yields from position 0. `Seek` and `CopyToAsync` become "the whole content".
- Logging calls are not modelled. They have no effect on the state.
- `async`/`await` and concurrency are left out. Each call is one step, and two callers racing on the rebuild check are not modelled.
- `Guid.NewGuid()` and `DateTimeOffset.UtcNow` become parameters. Time is a whole number of seconds.
- `Uri` construction in `PublicUri` and its validation are not modelled; the address is the string.
- The `IStorageCache` implementation is not part of this model. It is a map plus a flag saying whether null results are remembered, and no promise about misses is made.
- The engine is modelled with the filesystem backend plugged in. Other backends are not part of this model.
- FileSystemStorage.DoSave: names that contain a backslash are left out. A valid disk holds no such name, and the engine normalises every destination.
- FileSystemStorage.DoSave: the exceptions `Directory.CreateDirectory` and `File.Create` throw are preconditions (`SaveCannotThrow`), not modelled error paths.
- Paths.StorageFileName: a name without a '.' is excluded by precondition. The source throws in `Substring` there.
- FileSystemStorage.ValidRoot: the storage root must name a directory below the filesystem root and hold no backslash. A relative root is read as relative to "/".
- Paths are modelled with Unix semantics only. "." and ".." are not resolved, and Windows drive roots are not modelled.
- FileSystemStorage.ListFolder: the source builds children lazily with `Select`. The model treats them as enumerated when the tree is built, in whatever order the directory yields them.
- FileSystemStorage.DoDeleteAll: when the root directory is missing but a file sits at the root path itself, that file stays. The contract allows exactly that file below the root.
- FileSystemStorage.DoIsFileExists is modelled, but the engine never calls it. `Storage.ExistsMatchesBackendCheck` relates it to the engine's check.
- FileSystemStorage.ListFolder: for a missing directory the source leaves the children list null, and `GetDirectoryContentsAsync` then calls `OfType` on it, which throws. The model takes a null children list as empty, so a listing after a wipe returns nothing. `StorageFolder` is not part of this model.
- Storage.GetDirectoryContents: the listing is tied to the disk only for paths whose segments have no dot and no sibling directory competing for their name, and only when the snapshot is current. Every engine operation keeps the snapshot current or unset (`Storage.SnapshotStaysCoherent`), but a change made to the disk outside the engine is not seen until the next rebuild.
- `GetFileAsync` only forwards to `GetFileInternalAsync`, so it is modelled by `Storage.GetFile`.
- `DisposeAsync` does nothing and is not modelled.
