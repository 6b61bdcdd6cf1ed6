/** `Storage<T>`: the engine every backend plugs into. It derives stored
    names and destination paths, keeps the cache in step with saves,
    deletions and wipes, and holds a snapshot of the directory tree that it
    rebuilds after every change and whenever it is older than 30 minutes.
    The backend here is the filesystem backend, `FileSystemStorage<T>`; its
    state (the disk) travels with the engine's. */
module Storage {
  import opened Nullable
  import opened Text
  import opened Paths
  import opened Items
  import opened Disk
  import opened StorageCache
  import opened FileSystemStorage

  /** The options the engine reads: the public base address and the
      backend's `StoragePath`. */
  datatype StorageOptions = StorageOptions(publicUri: string, storagePath: string)

  /** The engine's fields (`_cache`, `_tree`, `_treeLastBuild`) with the
      backend's disk. Times are seconds on the caller's clock. */
  datatype StorageState = StorageState(
    options: StorageOptions,
    disk: Disk,
    cache: Option<Cache>,
    tree: Option<StorageFolder>,
    treeLastBuild: Option<int>)
  {
    predicate Valid()
    {
      ValidRoot(options.storagePath) && disk.Valid()
    }

    function Root(): string
    {
      options.storagePath
    }
  }

  /** How long a tree snapshot is trusted: 30 minutes. */
  const TreeMaxAge: int := 30 * 60

  /** The rebuild test of `GetDirectoryContentsAsync`: no tree, or a build
      time older than the window. A snapshot built at `t` is kept until
      `t` + 30 minutes inclusive; one without a build time is kept for ever,
      since a missing build time compares false, as lifted comparisons do. */
  function IsStale(s: StorageState, now: int): (stale: bool)
    ensures s.tree.None? ==> stale
    ensures s.tree.Some? && s.treeLastBuild.Some? ==> (stale <==> now > s.treeLastBuild.value + TreeMaxAge)
    ensures s.tree.Some? && s.treeLastBuild.None? ==> !stale
  {
    s.tree.None? || (s.treeLastBuild.Some? && s.treeLastBuild.value < now - TreeMaxAge)
  }

  // ---------------------------------------------------------------------
  // BuildStorageTreeAsync

  /** The snapshot is the tree of the disk as it is: the backend's listing
      of the storage root as the folder "/". */
  ghost predicate SnapshotCurrent(s: StorageState)
  {
    s.tree.Some? && Lists(s.disk, KeyOf(s.Root()), "/", s.tree.value)
  }

  /** The engine's snapshot is either unset or current. Every operation
      keeps this, so a listing always answers from a snapshot of the disk as
      it is, rebuilding it first when it is unset. */
  ghost predicate Coherent(s: StorageState)
  {
    s.tree.None? || SnapshotCurrent(s)
  }

  /** `BuildStorageTreeAsync`: the snapshot is the backend's tree of the disk
      as it is now, stamped `now`; nothing else changes. */
  method BuildStorageTree(s: StorageState, now: int) returns (r: StorageState)
    requires s.Valid()
    ensures r.Valid()
    ensures r == s.(tree := r.tree, treeLastBuild := Some(now))
    ensures SnapshotCurrent(r)
  {
    var tree := DoBuildStorageTree(s.Root(), s.disk);
    r := s.(tree := tree, treeLastBuild := Some(now));
  }

  // ---------------------------------------------------------------------
  // SaveFileAsync

  /** `CreateStorageItem`: the item handed back for a save, before any
      backend call: the original name and size, the destination as its
      `FilePath`, and, for a destination that names a file below a
      directory, that directory as its `Path`. */
  function CreateStorageItem(fileName: string, size: nat, destinationPath: string): (item: StorageItem)
    requires GetDirectoryName(destinationPath).Some?
    ensures item.fileName == fileName && item.fileSize == size && item.filePath == destinationPath
    ensures item.lastModified.None? && item.content.None?
    ensures '\\' !in destinationPath && Segments(destinationPath) != [] &&
            destinationPath[|destinationPath| - 1] != '/' ==>
              var segs := Segments(destinationPath);
              Segments(item.path) == segs[..|segs| - 1]
  {
    var dir := GetDirectoryName(destinationPath).value;
    if '\\' !in destinationPath && Segments(destinationPath) != [] &&
       destinationPath[|destinationPath| - 1] != '/' then
      ItemPathIsParent(destinationPath);
      StorageItem(fileName, destinationPath, Normalize(dir), size, None, None)
    else
      StorageItem(fileName, destinationPath, Normalize(dir), size, None, None)
  }

  /** Every destination has a directory part and names the stored file below
      it; its last name comes from the stored name. */
  lemma DestinationHasDirectory(id: string, fileName: string, path: string)
    requires IsGuidText(id) && '.' in fileName
    ensures GetDirectoryName(DestinationPath(id, fileName, path)).Some?
    ensures !NoDirectory(DestinationPath(id, fileName, path))
    ensures Segments(DestinationPath(id, fileName, path)) != []
  {
    var sf := StorageFileName(id, fileName);
    var dest := DestinationPath(id, fileName, path);
    BackslashesPointwise(sf);
    assert sf[0] == id[0];
    KeyOfNotRoot(Backslashes(sf), 0);
    SegmentsOfRoot();
    NormalizeKeepsSeparator(path + "/" + sf);
    assert '/' in path + "/" + sf by {
      assert (path + "/" + sf)[|path|] == '/';
    }
    NoDirectoryMeansBareName(dest);
  }

  /** `SaveFileAsync(file, fileName, path)` with `id` standing for the fresh
      `Guid`. The item names the original file and the stream's length; its
      `FilePath` is the destination, which walks through the directory's
      names and then the stored name, and its `Path` that destination's
      directory. The backend's boolean is dropped: the file is written
      whatever it says, and the item is returned regardless. The cache
      forgets the destination, and the tree is rebuilt at `now`. */
  method SaveFile(s: StorageState, content: Bytes, fileName: string, path: string, id: string, now: int)
      returns (item: StorageItem, r: StorageState)
    requires s.Valid() && IsGuidText(id) && '.' in fileName
    requires SaveCannotThrow(s.Root(), s.disk, DestinationPath(id, fileName, path))
    ensures r.Valid() && r.options == s.options
    ensures item.fileName == fileName && item.fileSize == |content|
    ensures item.lastModified.None? && item.content.None?
    ensures item.filePath == DestinationPath(id, fileName, path)
    ensures item.filePath != "" && '\\' !in item.filePath && !NoDirectory(item.filePath)
    ensures Segments(item.filePath) != []
    ensures Segments(item.filePath) ==
            Segments(Backslashes(path)) + Segments(Backslashes(StorageFileName(id, fileName)))
    ensures item.filePath[|item.filePath| - 1] != '/' ==>
            var segs := Segments(item.filePath);
            Segments(item.path) == segs[..|segs| - 1]
    ensures r.disk == DoSave(s.Root(), s.disk, item.filePath, content, now).1
    ensures FileExists(r.disk, Combine(s.Root(), item.filePath))
    ensures r.disk.files[KeyOf(Combine(s.Root(), item.filePath))].content == content
    ensures r.cache.Some? <==> s.cache.Some?
    ensures r.cache.Some? ==> r.cache.value == Remove(s.cache.value, item.filePath)
    ensures r.treeLastBuild == Some(now) && SnapshotCurrent(r)
    ensures GetFile(r, item.filePath).0.Some?
    ensures GetFile(r, item.filePath).0.value.content == Some(content)
  {
    item := NewItem(content, fileName, path, id);
    var disk := SaveAt(s.Root(), s.disk, item.filePath, content, now);
    var cache := if s.cache.Some? then Some(Remove(s.cache.value, item.filePath)) else None;
    r := BuildStorageTree(s.(disk := disk, cache := cache), now);
    SaveThenGet(s, content, fileName, path, id, item, r);
  }

  /** The item `SaveFileAsync` builds for a new file, with what the
      destination path is made of. */
  method NewItem(content: Bytes, fileName: string, path: string, id: string) returns (item: StorageItem)
    requires IsGuidText(id) && '.' in fileName
    ensures item.fileName == fileName && item.fileSize == |content|
    ensures item.lastModified.None? && item.content.None?
    ensures item.filePath == DestinationPath(id, fileName, path)
    ensures item.filePath != "" && '\\' !in item.filePath && !NoDirectory(item.filePath)
    ensures Segments(item.filePath) != []
    ensures Segments(item.filePath) ==
            Segments(Backslashes(path)) + Segments(Backslashes(StorageFileName(id, fileName)))
    ensures item.filePath[|item.filePath| - 1] != '/' ==>
            var segs := Segments(item.filePath);
            Segments(item.path) == segs[..|segs| - 1]
  {
    var dest := DestinationPath(id, fileName, path);
    assert GetDirectoryName(dest).Some? && !NoDirectory(dest) && Segments(dest) != [] by {
      DestinationHasDirectory(id, fileName, path);
    }
    assert dest != "" by {
      SegmentsOfRoot();
    }
    item := CreateStorageItem(fileName, |content|, dest);
  }

  /** The `Path` of a new item names its file's directory. */
  lemma ItemPathIsParent(dest: string)
    requires '\\' !in dest && Segments(dest) != [] && dest[|dest| - 1] != '/'
    ensures GetDirectoryName(dest).Some?
    ensures var segs := Segments(dest);
            Segments(Normalize(GetDirectoryName(dest).value)) == segs[..|segs| - 1]
  {
    DirectoryNameIsParent(dest);
    var dir := GetDirectoryName(dest).value;
    DirectoryNameChars(dest);
    BackslashesNone(dir);
  }

  /** The backend's save of a path with a directory part: it reports
      success, so the file is there with the bytes written. */
  method SaveAt(root: string, disk: Disk, dest: string, content: Bytes, now: int) returns (r: Disk)
    requires ValidRoot(root) && disk.Valid() && '\\' !in dest
    requires SaveCannotThrow(root, disk, dest) && !NoDirectory(dest)
    ensures r.Valid() && r == DoSave(root, disk, dest, content, now).1
    ensures FileExists(r, Combine(root, dest))
    ensures r.files[KeyOf(Combine(root, dest))].content == content
  {
    var (ok, d) := DoSave(root, disk, dest, content, now);
    r := d;
  }

  /** A saved file reads back: looking its `FilePath` up right after the
      save finds the file with exactly the saved bytes. */
  lemma SaveThenGet(s: StorageState, content: Bytes, fileName: string, path: string, id: string,
                    item: StorageItem, r: StorageState)
    requires s.Valid() && r.Valid() && IsGuidText(id) && '.' in fileName
    requires item.filePath == DestinationPath(id, fileName, path)
    requires FileExists(r.disk, Combine(s.Root(), item.filePath))
    requires r.disk.files[KeyOf(Combine(s.Root(), item.filePath))].content == content
    requires r.options == s.options
    requires r.cache.Some? ==> item.filePath !in r.cache.value.entries
    ensures GetFile(r, item.filePath).0.Some?
    ensures GetFile(r, item.filePath).0.value.content == Some(content)
    ensures GetFile(r, item.filePath).0.value.fileSize == |content|
  {
  }

  /** A save under a rooted path ("/docs") keeps the leading separator in
      `FilePath`, and the backend then writes at that path itself: the
      storage root takes no part in where the file lands. */
  lemma RootedSaveIgnoresRoot(root: string, id: string, fileName: string, path: string)
    requires IsGuidText(id) && '.' in fileName && IsRooted(path)
    ensures IsRooted(DestinationPath(id, fileName, path))
    ensures Combine(root, DestinationPath(id, fileName, path)) == DestinationPath(id, fileName, path)
  {
    NormalizeKeepsSeparator(path + "/" + StorageFileName(id, fileName));
    assert (path + "/" + StorageFileName(id, fileName))[0] == path[0];
  }

  // ---------------------------------------------------------------------
  // DeleteFileAsync

  /** `DeleteFileAsync(filePath)`; `fails` stands for the backend's
      `File.Delete` throwing. The cache forgets the path first; the result is
      the backend's: true exactly when the file was there and went away.
      The tree is rebuilt at `now`. */
  method DeleteFile(s: StorageState, filePath: string, fails: bool, now: int) returns (ok: bool, r: StorageState)
    requires s.Valid()
    ensures r.Valid() && r.options == s.options
    ensures ok <==> FileExists(s.disk, Combine(s.Root(), filePath)) && !fails
    ensures ok ==> !FileExists(r.disk, Combine(s.Root(), filePath))
    ensures !ok ==> r.disk == s.disk
    ensures forall k :: k != KeyOf(Combine(s.Root(), filePath)) ==> (k in r.disk.files <==> k in s.disk.files)
    ensures forall k :: k in r.disk.files ==> r.disk.files[k] == s.disk.files[k]
    ensures r.cache.Some? <==> s.cache.Some?
    ensures r.cache.Some? ==> r.cache.value == Remove(s.cache.value, filePath)
    ensures r.treeLastBuild == Some(now) && SnapshotCurrent(r)
    ensures ok ==> GetFile(r, filePath).0.None?
  {
    var cache := if s.cache.Some? then Some(Remove(s.cache.value, filePath)) else None;
    var (result, disk) := DoDelete(s.Root(), s.disk, filePath, fails);
    r := BuildStorageTree(s.(disk := disk, cache := cache), now);
    ok := result;
    if ok {
      DeleteThenGet(s, filePath, r);
    }
  }

  /** After a successful deletion the path no longer resolves. */
  lemma DeleteThenGet(s: StorageState, filePath: string, r: StorageState)
    requires s.Valid() && r.Valid() && r.options == s.options
    requires !FileExists(r.disk, Combine(s.Root(), filePath))
    requires r.cache.Some? ==> filePath !in r.cache.value.entries
    ensures GetFile(r, filePath).0.None?
  {
  }

  // ---------------------------------------------------------------------
  // GetFileInternalAsync, IsFileExistsAsync

  /** `GetFileInternalAsync(path)`. Without a cache it is the backend
      lookup. With one, a remembered entry is returned without asking the
      backend; otherwise the backend's answer is returned (and the cache
      may remember it). Only the cache changes. */
  function GetFile(s: StorageState, path: string): (r: (Option<StorageItem>, StorageState))
    requires s.Valid()
    ensures r.1 == s.(cache := r.1.cache)
    ensures r.1.cache.Some? <==> s.cache.Some?
    ensures s.cache.Some? && path in s.cache.value.entries ==> r.0 == s.cache.value.entries[path] && r.1 == s
    ensures s.cache.None? || path !in s.cache.value.entries ==>
              (r.0.None? <==> !FileExists(s.disk, Combine(s.Root(), path))) &&
              (r.0.Some? ==> r.0 == DoGetFile(s.Root(), s.disk, path))
  {
    var fetched := DoGetFile(s.Root(), s.disk, path);
    match s.cache
    case None => (fetched, s)
    case Some(c) =>
      var (item, c') := GetOrAdd(c, path, fetched);
      (item, s.(cache := Some(c')))
  }

  /** A cache hit does not depend on the disk: two engines that differ only
      in their disks answer a remembered path alike. */
  lemma CacheHitIgnoresBackend(s: StorageState, disk: Disk, path: string)
    requires s.Valid() && disk.Valid()
    requires s.cache.Some? && path in s.cache.value.entries
    ensures GetFile(s.(disk := disk), path).0 == GetFile(s, path).0
  {
  }

  /** `IsFileExistsAsync(path)`: the lookup returned an item. Without a
      cache entry for the path that means a file is on the disk there. */
  function IsFileExists(s: StorageState, path: string): (r: (bool, StorageState))
    requires s.Valid()
    ensures r.0 <==> GetFile(s, path).0.Some?
    ensures r.1 == GetFile(s, path).1
    ensures s.cache.None? || path !in s.cache.value.entries ==>
              (r.0 <==> FileExists(s.disk, Combine(s.Root(), path)))
  {
    var (item, r) := GetFile(s, path);
    (item.Some?, r)
  }

  /** Without a cache, the engine's existence check and the backend's own
      (`DoIsFileExistsAsync`, which the engine never calls) agree. */
  lemma ExistsMatchesBackendCheck(s: StorageState, item: StorageItem)
    requires s.Valid() && s.cache.None?
    ensures IsFileExists(s, item.filePath).0 <==> DoIsFileExists(s.Root(), s.disk, item)
  {
  }

  // ---------------------------------------------------------------------
  // DeleteAllAsync

  /** `DeleteAllAsync`: the cache is emptied, the backend wipes its root
      directory, and the snapshot and its build time are dropped. */
  function DeleteAll(s: StorageState): (r: StorageState)
    requires s.Valid()
    ensures r.Valid() && r.options == s.options
    ensures r.cache.Some? <==> s.cache.Some?
    ensures r.cache.Some? ==> r.cache.value.entries == map[] && r.cache.value.keepsMisses == s.cache.value.keepsMisses
    ensures r.tree.None? && r.treeLastBuild.None?
    ensures !DirectoryExists(r.disk, s.Root())
    ensures DirectoryExists(s.disk, s.Root()) ==> forall k :: k in r.disk.files ==> !IsUnder(k, KeyOf(s.Root()))
    ensures forall k :: !IsUnder(k, KeyOf(s.Root())) ==> (k in r.disk.files <==> k in s.disk.files)
    ensures r.disk == DoDeleteAll(s.Root(), s.disk)
  {
    var cache := if s.cache.Some? then Some(Clear(s.cache.value)) else None;
    var disk := DoDeleteAll(s.Root(), s.disk);
    s.(disk := disk, cache := cache, tree := None, treeLastBuild := None)
  }

  /** After a wipe no relative path below the root resolves. */
  lemma DeleteAllThenGet(s: StorageState, path: string)
    requires s.Valid() && !IsRooted(path) && Segments(path) != []
    ensures GetFile(DeleteAll(s), path).0.None?
  {
    var root := s.Root();
    CombineSegments(root, path);
    var k := KeyOf(Combine(root, path));
    assert k[..|KeyOf(root)|] == KeyOf(root);
    assert IsUnder(k, KeyOf(root)) && k != KeyOf(root);
  }

  /** Lookups and wipes keep the snapshot coherent; saves, deletions and
      listings leave it current (see their contracts). A coherent snapshot
      that is not stale is current. */
  lemma SnapshotStaysCoherent(s: StorageState, path: string, now: int)
    requires s.Valid() && Coherent(s)
    ensures Coherent(GetFile(s, path).1)
    ensures Coherent(IsFileExists(s, path).1)
    ensures Coherent(DeleteAll(s))
    ensures IsStale(s, now) || SnapshotCurrent(s)
  {
  }

  /** After a wipe the next listing rebuilds the snapshot, and the rebuilt
      snapshot lists nothing, whatever the path. */
  lemma WipeThenList(s: StorageState, t: StorageFolder, path: string, now: int)
    requires s.Valid() && Lists(DeleteAll(s).disk, KeyOf(s.Root()), "/", t)
    ensures IsStale(DeleteAll(s), now)
    ensures Contents(Some(t), Parts(path)) == []
  {
    var w := DeleteAll(s);
    MissingRootListsNothing(w.(tree := Some(t)), Parts(path));
  }

  // ---------------------------------------------------------------------
  // GetDirectoryContentsAsync

  /** The segments `GetDirectoryContentsAsync` walks: the path with its
      outer separators trimmed, through `PreparePath`, split on '/'. */
  function Parts(path: string): (parts: seq<string>)
    ensures |parts| >= 1
    ensures Join(parts, '/') == Normalize(Trim(path, '/'))
    ensures forall i :: 0 <= i < |parts| ==> '/' !in parts[i]
  {
    var t := Normalize(Trim(path, '/'));
    SplitJoin(t, '/');
    Split(t, '/')
  }

  /** For a path without backslashes whose parts are all names, the parts
      are exactly the path's names. */
  lemma PartsAreSegments(path: string)
    requires '\\' !in path
    requires forall i :: 0 <= i < |Parts(path)| ==> Parts(path)[i] != ""
    ensures Parts(path) == Segments(path)
  {
    var a := TrimStart(path, '/');
    assert '\\' !in a by {
      forall i | 0 <= i < |a|
        ensures a[i] != '\\'
      {
        assert a[i] == path[|path| - |a| + i];
      }
    }
    var t := Trim(path, '/');
    assert '\\' !in t by {
      forall i | 0 <= i < |t|
        ensures t[i] != '\\'
      {
        assert t[i] == a[i];
      }
    }
    BackslashesNone(t);
    SegmentsTrim(path);
    NonEmptyKeepsAll(Parts(path));
  }

  /** The node is a folder named `name`. */
  predicate IsFolderNamed(n: StorageNode, name: string)
  {
    n.FolderNode? && n.folder.name == name
  }

  /** `Children.OfType<StorageFolder>().FirstOrDefault(f => f.Name == name)`:
      the first child folder with that name, or null when there is none. */
  function FindFolder(children: seq<StorageNode>, name: string): (r: Option<StorageFolder>)
    ensures r.None? <==> forall i :: 0 <= i < |children| ==> !IsFolderNamed(children[i], name)
    ensures r.Some? ==> exists i :: 0 <= i < |children| && children[i] == FolderNode(r.value) &&
                          r.value.name == name &&
                          forall j :: 0 <= j < i ==> !IsFolderNamed(children[j], name)
  {
    if children == [] then None
    else if IsFolderNamed(children[0], name) then
      assert children[0] == FolderNode(children[0].folder);
      Some(children[0].folder)
    else
      var r := FindFolder(children[1..], name);
      assert forall i :: 1 <= i < |children| ==> children[i] == children[1..][i - 1];
      if r.Some? then
        var i :| 0 <= i < |children[1..]| && children[1..][i] == FolderNode(r.value) &&
                 r.value.name == name &&
                 forall j :: 0 <= j < i ==> !IsFolderNamed(children[1..][j], name);
        assert children[i + 1] == FolderNode(r.value);
        assert forall j :: 0 <= j < i + 1 ==> !IsFolderNamed(children[j], name) by {
          forall j | 0 <= j < i + 1
            ensures !IsFolderNamed(children[j], name)
          {
            if j > 0 {
              assert children[j] == children[1..][j - 1];
            }
          }
        }
        r
      else
        r
  }

  /** The loop of `GetDirectoryContentsAsync`: each segment in turn moves to
      the child folder of that name; a null stays null. */
  function Walk(current: Option<StorageFolder>, parts: seq<string>): (r: Option<StorageFolder>)
    ensures current.None? ==> r.None?
    ensures r.Some? && parts != [] ==> r.value.name == parts[|parts| - 1]
    decreases |parts|
  {
    if parts == [] then current
    else
      var next := if current.None? then None else FindFolder(current.value.children, parts[0]);
      Walk(next, parts[1..])
  }

  /** What `GetDirectoryContentsAsync` returns for a snapshot: the children
      of the folder the walk reaches, which is named after the last segment,
      or nothing. */
  function Contents(tree: Option<StorageFolder>, parts: seq<string>): (nodes: seq<StorageNode>)
    ensures tree.None? ==> nodes == []
    ensures nodes != [] ==> Walk(tree, parts).Some? && nodes == Walk(tree, parts).value.children
    ensures nodes != [] && parts != [] ==> Walk(tree, parts).value.name == parts[|parts| - 1]
  {
    match Walk(tree, parts)
    case None => []
    case Some(f) => f.children
  }

  /** Walking `a + b` is walking `a`, then `b` from where that ended. */
  lemma {:induction false} WalkConcat(current: Option<StorageFolder>, a: seq<string>, b: seq<string>)
    ensures Walk(current, a + b) == Walk(Walk(current, a), b)
    decreases |a|
  {
    if a != [] {
      var next := if current.None? then None else FindFolder(current.value.children, a[0]);
      assert (a + b)[0] == a[0];
      assert (a + b)[1..] == a[1..] + b;
      WalkConcat(next, a[1..], b);
    } else {
      assert a + b == b;
    }
  }

  /** "/" and "" both split to the one segment "". */
  lemma PartsOfRoot()
    ensures Parts("/") == [""] && Parts("") == [""]
  {
    assert TrimStart("/", '/') == "" by {
      assert "/"[1..] == "";
    }
    assert Trim("/", '/') == "" && Trim("", '/') == "";
    assert Normalize("") == "" by {
      assert NoDoubleSlash("");
    }
  }

  /** Listing "/" (or ""): the walk has the one segment "", so it lists the
      first folder named "" at the top, and nothing when there is none. */
  lemma RootListing(tree: StorageFolder)
    ensures Parts("/") == [""] && Parts("") == [""]
    ensures Contents(Some(tree), Parts("/")) ==
            match FindFolder(tree.children, "") case None => [] case Some(f) => f.children
  {
    PartsOfRoot();
    var next := FindFolder(tree.children, "");
    assert Walk(Some(tree), [""]) == next by {
      assert [""][1..] == [];
    }
  }

  /** No other subdirectory of `key` is listed under the name `n`: a
      sibling whose name without its extension is `n` would compete for it. */
  ghost predicate UniqueFolderName(disk: Disk, key: Key, n: string)
  {
    forall m :: key + [m] in disk.dirs && m != n ==> StripExtension(m) != n
  }

  /** The segments `parts` lead from directory `key` to a directory, each
      one a name without a dot that no sibling competes for. */
  ghost predicate Reachable(disk: Disk, key: Key, parts: seq<string>)
  {
    && key + parts in disk.dirs
    && forall i :: 0 <= i < |parts| ==> '.' !in parts[i] && UniqueFolderName(disk, key + parts[..i], parts[i])
  }

  /** The logical folder path reached from `path` by descending through
      `parts`. */
  function Descend(path: string, parts: seq<string>): (r: string)
    ensures path != "" ==> r != ""
    decreases |parts|
  {
    if parts == [] then path else Descend(SubPath(path, parts[0]), parts[1..])
  }

  /** In a listed folder, looking up the name of a subdirectory that has no
      dot and no competing sibling finds that subdirectory's listing. */
  lemma FindSubfolder(disk: Disk, key: Key, path: string, f: StorageFolder, n: string)
    requires disk.Valid() && path != "" && Lists(disk, key, path, f)
    requires key + [n] in disk.dirs && '.' !in n && UniqueFolderName(disk, key, n)
    ensures FindFolder(f.children, n).Some?
    ensures Lists(disk, key + [n], SubPath(path, n), FindFolder(f.children, n).value)
  {
    assert Parent(key + [n]) == key;
    assert key in disk.dirs;
    EntryListed(disk, key, n);
    var i :| 0 <= i < |f.children| && EntryName(f.children[i]) == n;
    var c := f.children[i];
    assert ListsChild(disk, key, path, c);
    assert key + [n] !in disk.files;
    assert c.FolderNode?;
    FolderChildName(disk, key, path, c);
    assert IsFolderNamed(c, n);
    var g := FindFolder(f.children, n).value;
    var j :| 0 <= j < |f.children| && f.children[j] == FolderNode(g) && g.name == n;
    assert ListsChild(disk, key, path, f.children[j]);
    FolderChildName(disk, key, path, f.children[j]);
    assert EntryName(f.children[j]) == n;
    assert j == i;
  }

  /** The first `i` segments after the first, below the directory the
      first leads to, are the first `i + 1` below the start. */
  lemma StepDown(key: Key, parts: seq<string>, i: nat)
    requires i < |parts|
    ensures (key + [parts[0]]) + parts[1..][..i] == key + parts[..i + 1]
    ensures i < |parts| - 1 ==> parts[1..][i] == parts[i + 1]
  {
    ConcatAssociates(key, [parts[0]], parts[1..][..i]);
    assert [parts[0]] + parts[1..][..i] == parts[..i + 1];
  }

  /** Reachable segments start with a subdirectory that has no dot and no
      competing sibling, from which the rest are reachable. */
  lemma ReachableStep(disk: Disk, key: Key, parts: seq<string>)
    requires disk.Valid() && Reachable(disk, key, parts) && parts != []
    ensures key + [parts[0]] in disk.dirs && '.' !in parts[0] && UniqueFolderName(disk, key, parts[0])
    ensures key + parts == (key + [parts[0]]) + parts[1..]
    ensures Reachable(disk, key + [parts[0]], parts[1..])
  {
    var n := parts[0];
    var rest := parts[1..];
    var down := key + [n];
    assert parts[..0] == [] && key + [] == key;
    assert (key + parts)[..|key| + 1] == down;
    AncestorsExist(disk, key + parts, down);
    assert down + rest == key + parts by {
      StepDown(key, parts, |rest|);
      assert rest[..|rest|] == rest && parts[..|rest| + 1] == parts;
    }
    forall i | 0 <= i < |rest|
      ensures '.' !in rest[i] && UniqueFolderName(disk, down + rest[..i], rest[i])
    {
      StepDown(key, parts, i);
    }
  }

  /** One step of the walk: the first segment leads to the listing of its
      subdirectory, from which the remaining segments are reachable. */
  lemma WalkStep(disk: Disk, key: Key, path: string, f: StorageFolder, parts: seq<string>)
      returns (g: StorageFolder)
    requires disk.Valid() && path != "" && Lists(disk, key, path, f)
    requires Reachable(disk, key, parts) && parts != []
    ensures Walk(Some(f), parts) == Walk(Some(g), parts[1..])
    ensures Descend(path, parts) == Descend(SubPath(path, parts[0]), parts[1..])
    ensures key + parts == (key + [parts[0]]) + parts[1..]
    ensures Lists(disk, key + [parts[0]], SubPath(path, parts[0]), g)
    ensures Reachable(disk, key + [parts[0]], parts[1..])
  {
    ReachableStep(disk, key, parts);
    FindSubfolder(disk, key, path, f, parts[0]);
    g := FindFolder(f.children, parts[0]).value;
  }

  /** Walking a listed folder along reachable segments ends at the listing
      of the directory they lead to. */
  lemma {:induction false} WalkReachable(disk: Disk, key: Key, path: string, f: StorageFolder, parts: seq<string>)
    requires disk.Valid() && path != "" && Lists(disk, key, path, f)
    requires Reachable(disk, key, parts)
    ensures Walk(Some(f), parts).Some?
    ensures Lists(disk, key + parts, Descend(path, parts), Walk(Some(f), parts).value)
    decreases |parts|
  {
    if parts == [] {
      assert key + parts == key;
    } else {
      var g := WalkStep(disk, key, path, f, parts);
      WalkReachable(disk, key + [parts[0]], SubPath(path, parts[0]), g, parts[1..]);
    }
  }

  /** The listing of an existing directory has one child per entry. */
  lemma ListedChildren(disk: Disk, key: Key, path: string, f: StorageFolder)
    requires path != "" && Lists(disk, key, path, f) && key in disk.dirs
    ensures |f.children| == |Entries(disk, key)| && Names(f.children) == Entries(disk, key)
    ensures DistinctNames(f.children)
  {
  }

  /** The segments of a path that reach a directory are names, so for a
      path without backslashes they are the path's names. */
  lemma ReachedSegments(disk: Disk, key: Key, path: string)
    requires disk.Valid() && Reachable(disk, key, Parts(path)) && '\\' !in path
    ensures Parts(path) == Segments(path)
  {
    var parts := Parts(path);
    assert ValidKey(key + parts);
    forall i | 0 <= i < |parts|
      ensures parts[i] != ""
    {
      assert (key + parts)[|key| + i] == parts[i];
    }
    PartsAreSegments(path);
  }

  /** Listing a path from a snapshot of the current disk whose segments are
      reachable from the root gives exactly the entries of the directory
      they lead to, each once; for a path without backslashes those
      segments are the path's names. */
  lemma ListingShowsDirectory(s: StorageState, path: string)
    requires s.Valid() && SnapshotCurrent(s)
    requires Reachable(s.disk, KeyOf(s.Root()), Parts(path))
    ensures var dir := KeyOf(s.Root()) + Parts(path);
            var nodes := Contents(s.tree, Parts(path));
            |nodes| == |Entries(s.disk, dir)| && Names(nodes) == Entries(s.disk, dir) && DistinctNames(nodes)
    ensures '\\' !in path ==> Parts(path) == Segments(path)
  {
    var root := KeyOf(s.Root());
    var parts := Parts(path);
    WalkReachable(s.disk, root, "/", s.tree.value, parts);
    var w := Walk(s.tree, parts).value;
    ListedChildren(s.disk, root + parts, Descend("/", parts), w);
    if '\\' !in path {
      ReachedSegments(s.disk, root, path);
    }
  }

  /** A snapshot of a disk without the storage root lists nothing, whatever
      the path. */
  lemma MissingRootListsNothing(s: StorageState, parts: seq<string>)
    requires s.Valid() && SnapshotCurrent(s) && !DirectoryExists(s.disk, s.Root())
    ensures Contents(s.tree, parts) == []
  {
    var t := s.tree.value;
    assert KeyOf(s.Root()) !in s.disk.dirs;
    assert t.children == [];
    if parts != [] {
      assert Walk(Some(t), parts) == Walk(None, parts[1..]);
    }
  }

  /** `GetDirectoryContentsAsync(path)`: the snapshot is rebuilt at `now`
      exactly when it is stale, and otherwise left as it is; the answer is
      what the walk over the snapshot reaches. When the snapshot it answers
      from is current (rebuilt now, or kept after a change that rebuilt it),
      a path whose segments reach a directory lists exactly that
      directory's entries, and without a storage root nothing is listed. */
  method GetDirectoryContents(s: StorageState, path: string, now: int) returns (nodes: seq<StorageNode>, r: StorageState)
    requires s.Valid()
    ensures r.Valid()
    ensures IsStale(s, now) ==> r == s.(tree := r.tree, treeLastBuild := Some(now)) && SnapshotCurrent(r)
    ensures !IsStale(s, now) ==> r == s
    ensures Coherent(s) ==> SnapshotCurrent(r)
    ensures r.tree.Some?
    ensures nodes == Contents(r.tree, Parts(path))
    ensures (IsStale(s, now) || SnapshotCurrent(s)) && Reachable(s.disk, KeyOf(s.Root()), Parts(path)) ==>
              var dir := KeyOf(s.Root()) + Parts(path);
              |nodes| == |Entries(s.disk, dir)| && Names(nodes) == Entries(s.disk, dir) && DistinctNames(nodes)
    ensures (IsStale(s, now) || SnapshotCurrent(s)) && !DirectoryExists(s.disk, s.Root()) ==> nodes == []
  {
    r := s;
    if IsStale(s, now) {
      r := BuildStorageTree(s, now);
    }
    nodes := Contents(r.tree, Parts(path));
    if IsStale(s, now) || SnapshotCurrent(s) {
      assert SnapshotCurrent(r) && r.disk == s.disk && r.Root() == s.Root();
      if Reachable(s.disk, KeyOf(s.Root()), Parts(path)) {
        ListingShowsDirectory(r, path);
      }
      if !DirectoryExists(s.disk, s.Root()) {
        MissingRootListsNothing(r, Parts(path));
      }
    }
  }

  // ---------------------------------------------------------------------
  // PublicUri

  /** `PublicUri(item)`: the configured base, a separator, and the item's
      `FilePath`; both parts can be read back off the address. */
  function PublicUri(options: StorageOptions, item: StorageItem): (uri: string)
    ensures |uri| == |options.publicUri| + 1 + |item.filePath|
    ensures uri[..|options.publicUri|] == options.publicUri
    ensures uri[|options.publicUri|] == '/'
    ensures uri[|options.publicUri| + 1..] == item.filePath
  {
    options.publicUri + "/" + item.filePath
  }
}
