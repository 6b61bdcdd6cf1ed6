/** `FileSystemStorage<T>`: the backend that keeps the stored files in a
    directory of the local filesystem, its `StoragePath` (here `root`). Every
    hook takes the disk as it is and returns the disk as it is afterwards. */
module FileSystemStorage {
  import opened Nullable
  import opened Text
  import opened Paths
  import opened Items
  import opened Disk

  /** A usable `StoragePath`: it names a directory below the filesystem root
      (so a wipe never targets the filesystem root itself) and, like every
      name in this model, holds no backslash. */
  predicate ValidRoot(root: string)
  {
    KeyOf(root) != [] && '\\' !in root
  }

  // ---------------------------------------------------------------------
  // DoSaveAsync

  /** `string.IsNullOrEmpty(Path.GetDirectoryName(path))`. */
  predicate NoDirectory(path: string)
  {
    var dir := GetDirectoryName(path);
    dir.None? || dir.value == ""
  }

  /** The calls `DoSaveAsync` makes cannot throw: no directory it would
      create is an existing file, the target itself is not a directory (nor
      a directory it creates), and the target's directory exists once the
      directory has been created. */
  predicate SaveCannotThrow(root: string, disk: Disk, path: string)
  {
    NoDirectory(path) ||
    var dirKey := KeyOf(Combine(root, GetDirectoryName(path).value));
    var full := Combine(root, path);
    && (forall i :: 0 <= i <= |dirKey| ==> dirKey[..i] !in disk.files)
    && !EndsWithSeparator(full) && KeyOf(full) != []
    && KeyOf(full) !in disk.dirs && !IsUnder(dirKey, KeyOf(full))
    && (Parent(KeyOf(full)) in disk.dirs || IsUnder(dirKey, Parent(KeyOf(full))))
  }

  /** `DoSaveAsync(path, file)`. A path without a directory part is refused
      with false and the disk untouched. Otherwise the directory
      `root`/dir exists afterwards, the file `root`/`path` holds exactly the
      stream's bytes (whatever it held before), the result is true, and no
      other file changes. */
  function DoSave(root: string, disk: Disk, path: string, content: Bytes, now: int): (r: (bool, Disk))
    requires ValidRoot(root) && disk.Valid() && '\\' !in path
    requires SaveCannotThrow(root, disk, path)
    ensures r.1.Valid()
    ensures !r.0 <==> NoDirectory(path)
    ensures !r.0 ==> r.1 == disk
    ensures r.0 ==> DirectoryExists(r.1, Combine(root, GetDirectoryName(path).value))
    ensures r.0 ==> var full := Combine(root, path);
                    FileExists(r.1, full) && r.1.files[KeyOf(full)].content == content
                    && Parent(KeyOf(full)) in r.1.dirs
    ensures forall k :: k != KeyOf(Combine(root, path)) ==> (k in r.1.files <==> k in disk.files)
    ensures forall k :: k != KeyOf(Combine(root, path)) && k in disk.files ==> r.1.files[k] == disk.files[k]
    ensures disk.dirs <= r.1.dirs
  {
    var dirName := GetDirectoryName(path);
    if dirName.None? || dirName.value == "" then (false, disk)
    else
      var dirPath := Combine(root, dirName.value);
      var full := Combine(root, path);
      DirectoryNameChars(path);
      KeyOfValid(dirPath);
      KeyOfValid(full);
      var d1 := if DirectoryExists(disk, dirPath) then disk else CreateDirectory(disk, dirPath);
      assert Parent(KeyOf(full)) in d1.dirs by {
        if Parent(KeyOf(full)) !in disk.dirs {
          AncestorsExist(d1, KeyOf(dirPath), Parent(KeyOf(full)));
        }
      }
      assert KeyOf(full) !in d1.dirs;
      (true, WriteFile(d1, full, content, now))
  }

  /** A path has no directory part exactly when it is "/" or holds no
      separator at all. */
  lemma NoDirectoryMeansBareName(path: string)
    ensures NoDirectory(path) <==> path == "/" || '/' !in path
  {
    var rootLen := RootLength(path);
    if |path| > rootLen {
      var last := LastIndexOf(path, '/');
      var cut := if last >= rootLen then last else rootLen;
      var kept := |TrimEnd(path[..cut], '/')|;
      var end := if kept < rootLen then rootLen else kept;
      assert GetDirectoryName(path) == Some(SquashSlashes(path[..end]));
      if rootLen == 0 && '/' in path {
        assert last >= 1;
        assert kept >= 1;
      }
    }
  }

  /** A save lands in the directory it creates: for a target that does not
      end in a separator, the file's parent is the directory `DoSaveAsync`
      makes sure exists. */
  lemma SaveWritesIntoItsDirectory(root: string, path: string)
    requires ValidRoot(root) && !NoDirectory(path)
    requires path[|path| - 1] != '/'
    ensures var full := Combine(root, path);
            KeyOf(full) != [] &&
            Parent(KeyOf(full)) == KeyOf(Combine(root, GetDirectoryName(path).value))
  {
    var dir := GetDirectoryName(path).value;
    NoDirectoryMeansBareName(path);
    var j :| 0 <= j < |path| && path[j] == '/';
    KeyOfNotRoot(path, |path| - 1);
    DirectoryNameIsParent(path);
    CombineSegments(root, path);
    CombineSegments(root, dir);
    assert IsRooted(dir) <==> IsRooted(path) by {
      var rootLen := RootLength(path);
      var last := LastIndexOf(path, '/');
      var cut := if last >= rootLen then last else rootLen;
      var kept := |TrimEnd(path[..cut], '/')|;
      var end := if kept < rootLen then rootLen else kept;
      assert dir == SquashSlashes(path[..end]);
      assert dir[0] == path[..end][0] == path[0];
    }
  }

  // ---------------------------------------------------------------------
  // DoDeleteAsync, DoIsFileExistsAsync, DoDeleteAllAsync

  /** `DoDeleteAsync(filePath)`; `fails` stands for `File.Delete` throwing,
      which is caught and logged. The result is true exactly when the file
      existed and its deletion went through; then it is gone and nothing
      else changed; otherwise nothing changed at all. */
  function DoDelete(root: string, disk: Disk, filePath: string, fails: bool): (r: (bool, Disk))
    requires disk.Valid()
    ensures r.1.Valid()
    ensures r.0 <==> FileExists(disk, Combine(root, filePath)) && !fails
    ensures !r.0 ==> r.1 == disk
    ensures r.0 ==> !FileExists(r.1, Combine(root, filePath)) && r.1.dirs == disk.dirs
    ensures forall k :: k != KeyOf(Combine(root, filePath)) ==> (k in r.1.files <==> k in disk.files)
    ensures forall k :: k in r.1.files ==> k in disk.files && r.1.files[k] == disk.files[k]
  {
    var path := Combine(root, filePath);
    if FileExists(disk, path) && !fails then (true, DeleteFile(disk, path))
    else (false, disk)
  }

  /** `DoIsFileExistsAsync(item)`: a file exists at the item's path under
      the root. It agrees with the backend's read: an item exists exactly
      when reading its `FilePath` yields an item. */
  function DoIsFileExists(root: string, disk: Disk, item: StorageItem): (found: bool)
    requires disk.Valid()
    ensures found <==> DoGetFile(root, disk, item.filePath).Some?
  {
    FileExists(disk, Combine(root, item.filePath))
  }

  /** `DoDeleteAllAsync`: the root directory and everything in it are gone;
      everything outside it is as it was. Without a root directory nothing
      happens. */
  function DoDeleteAll(root: string, disk: Disk): (r: Disk)
    requires ValidRoot(root) && disk.Valid()
    ensures r.Valid()
    ensures !DirectoryExists(r, root)
    ensures forall k :: k in r.files && IsUnder(k, KeyOf(root)) ==> k == KeyOf(root) && !DirectoryExists(disk, root)
    ensures forall k :: k in r.dirs ==> !IsUnder(k, KeyOf(root))
    ensures forall k :: !IsUnder(k, KeyOf(root)) ==> (k in r.files <==> k in disk.files) && (k in r.dirs <==> k in disk.dirs)
    ensures forall k :: k in r.files ==> k in disk.files && r.files[k] == disk.files[k]
    ensures !DirectoryExists(disk, root) ==> r == disk
  {
    if DirectoryExists(disk, root) then DeleteTree(disk, KeyOf(root))
    else
      NothingUnderMissingDirectory(disk, KeyOf(root));
      disk
  }

  /** Nothing lies strictly below a directory that does not exist. */
  lemma NothingUnderMissingDirectory(disk: Disk, top: Key)
    requires disk.Valid() && top !in disk.dirs
    ensures forall k :: k in disk.dirs ==> !IsUnder(k, top)
    ensures forall k :: k in disk.files && IsUnder(k, top) ==> k == top
  {
    forall k | k in disk.dirs && IsUnder(k, top)
      ensures false
    {
      AncestorsExist(disk, k, top);
    }
  }

  /** Wiping twice is wiping once. */
  lemma DoDeleteAllIdempotent(root: string, disk: Disk)
    requires ValidRoot(root) && disk.Valid()
    ensures DoDeleteAll(root, DoDeleteAll(root, disk)) == DoDeleteAll(root, disk)
  {
  }

  // ---------------------------------------------------------------------
  // DoGetFileAsync

  /** `DoGetFileAsync(path)`: null exactly when no file exists at
      `root`/`path`. Otherwise the item carries the file's name, length,
      modification time and content; its `FilePath` is the normalised full
      path, root included, and its `Path` is that path's directory. */
  function DoGetFile(root: string, disk: Disk, path: string): (r: Option<StorageItem>)
    requires disk.Valid()
    ensures r.None? <==> !FileExists(disk, Combine(root, path))
    ensures r.Some? ==>
      var key := KeyOf(Combine(root, path));
      var data := disk.files[key];
      && key != []
      && r.value.fileName == key[|key| - 1]
      && r.value.fileSize == |data.content|
      && r.value.content == Some(data.content)
      && r.value.lastModified == Some(data.modified)
      && r.value.filePath == Normalize(Combine(root, path))
      && KeyOf(r.value.filePath) == key
      && KeyOf(r.value.path) == Parent(key)
    ensures r.Some? && !IsRooted(path) ==> KeyOf(r.value.filePath) == KeyOf(root) + KeyOf(path)
  {
    var full := Combine(root, path);
    if !FileExists(disk, full) then None
    else
      var key := KeyOf(full);
      var data := disk.files[key];
      assert '\\' !in full by {
        if '\\' in full {
          BackslashKeyInvalid(full);
        }
      }
      BackslashesNone(full);
      DirectoryNameIsParent(full);
      var dir := GetDirectoryName(full).value;
      DirectoryNameChars(full);
      BackslashesNone(dir);
      CombineSegments(root, path);
      Some(StorageItem(key[|key| - 1], Normalize(full), Normalize(dir),
                       |data.content|, Some(data.modified), Some(data.content)))
  }

  // ---------------------------------------------------------------------
  // DoBuildStorageTreeAsync / ListFolder

  /** A folder path as `ListFolder` receives it: "/" for the root, otherwise
      '/' followed by names joined with single separators. */
  predicate IsFolderPath(p: string)
  {
    p == "/" || (|p| >= 2 && p[0] == '/' && p[|p| - 1] != '/' && '\\' !in p && NoDoubleSlash(p))
  }

  /** The directory `ListFolder(path)` enumerates. */
  function FolderFullPath(root: string, path: string): string
  {
    if path == "/" then root else Combine(root, Trim(path, '/'))
  }

  /** The path `ListFolder` recurses into for subdirectory `name`. */
  function ChildPath(path: string, name: string): string
  {
    Normalize(Combine(path, name))
  }

  /** The logical path of entry `name` of the folder at `path`. */
  function SubPath(path: string, name: string): string
  {
    if path == "/" then "/" + name else path + "/" + name
  }

  /** A folder's `Name`: "/" for the root, otherwise its last name cut at
      its last dot, the dot and what follows dropped. */
  function FolderName(path: string): (name: string)
    ensures path == "/" ==> name == "/"
    ensures path != "/" ==> name <= GetFileName(path)
    ensures path != "/" && '.' !in GetFileName(path) ==> name == GetFileName(path)
    ensures path != "/" && '.' in GetFileName(path) ==>
              |name| < |GetFileName(path)| && GetFileName(path)[|name|] == '.' &&
              '.' !in GetFileName(path)[|name| + 1..]
  {
    if path == "/" then "/" else GetFileNameWithoutExtension(path)
  }

  /** A folder's `Name` is not its directory's name when that has a dot:
      the directory "a.b" is listed as a folder named "a". */
  lemma FolderNameDropsExtension()
    ensures FolderName("/a.b") == "a"
    ensures GetFileName("/a.b") == "a.b"
  {
    assert "/a.b"[..3] == "/a." && "/a."[..2] == "/a" && "/a"[..1] == "/";
    assert LastIndexOf("/a.b", '/') == 0;
    assert "/a.b"[1..] == "a.b";
    assert "a.b"[..2] == "a.";
    assert LastIndexOf("a.b", '.') == 1;
    assert "a.b"[..1] == "a";
  }

  /** A directory whose name starts with its only dot (".git") is listed as
      a folder named "", the name that listing "/" looks up. */
  lemma DotFolderName()
    ensures FolderName("/.git") == ""
    ensures GetFileName("/.git") == ".git"
  {
    assert "/.git"[..4] == "/.gi" && "/.gi"[..3] == "/.g" && "/.g"[..2] == "/." && "/."[..1] == "/";
    assert LastIndexOf("/.git", '/') == 0;
    assert "/.git"[1..] == ".git";
    assert ".git"[..3] == ".gi" && ".gi"[..2] == ".g" && ".g"[..1] == ".";
    assert LastIndexOf(".git", '.') == 0;
  }

  /** The item `ListFolder` makes for file `name` of the folder at `path`,
      computed as the backend computes it. For a folder path and a plain
      name it is the intended item: the file's logical path and its
      folder's, both without the leading separator. */
  function TreeFileItem(data: FileData, path: string, name: string): (item: StorageItem)
    ensures IsFolderPath(path) && ValidName(name) ==> item == ListedFile(data, path, name)
  {
    var item := StorageItem(name, Trim(Normalize(Combine(path, name)), '/'), Trim(Normalize(path), '/'),
                            |data.content|, Some(data.modified), None);
    if IsFolderPath(path) && ValidName(name) then
      ChildPathFacts(path, name);
      FolderPathFixed("", path);
      FolderPathFixed("", SubPath(path, name));
      item
    else
      item
  }

  /** The item a tree file is meant to be: its logical path and its folder's,
      without the leading separator, with the file's length and time and no
      content. */
  function ListedFile(data: FileData, path: string, name: string): StorageItem
    requires path != ""
  {
    StorageItem(name, SubPath(path, name)[1..], path[1..], |data.content|, Some(data.modified), None)
  }

  /** The directory entry a node stands for: a file item's name, or the last
      name of a folder's full path. */
  function EntryName(n: StorageNode): string
  {
    match n
    case ItemNode(item) => item.fileName
    case FolderNode(f) => GetFileName(f.fullPath)
  }

  /** The entry names a sequence of nodes stands for. */
  function Names(cs: seq<StorageNode>): set<string>
  {
    set i | 0 <= i < |cs| :: EntryName(cs[i])
  }

  /** No two nodes stand for the same entry. */
  predicate DistinctNames(cs: seq<StorageNode>)
  {
    forall i, j :: 0 <= i < j < |cs| ==> EntryName(cs[i]) != EntryName(cs[j])
  }

  /** `f` is the folder listed for logical path `path`, whose directory is
      `key`: named after the path, its full path the logical path; no
      children when the directory is missing; otherwise one child per
      directory entry (none twice, none left out), each file as its item and
      each subdirectory listed the same way. */
  ghost predicate Lists(disk: Disk, key: Key, path: string, f: StorageFolder)
    requires path != ""
    decreases f
  {
    && f.name == FolderName(path)
    && f.fullPath == path
    && if key !in disk.dirs then f.children == []
       else
         && |f.children| == |Entries(disk, key)|
         && Names(f.children) == Entries(disk, key)
         && DistinctNames(f.children)
         && AllListed(disk, key, path, f.children)
  }

  /** Every node of `cs` is listed correctly as a child of the folder at
      `path` (directory `key`). */
  ghost predicate AllListed(disk: Disk, key: Key, path: string, cs: seq<StorageNode>)
    requires path != ""
    decreases cs, 1
  {
    forall i :: 0 <= i < |cs| ==> ListsChild(disk, key, path, cs[i])
  }

  /** One child of the folder at `path` (directory `key`). */
  ghost predicate ListsChild(disk: Disk, key: Key, path: string, c: StorageNode)
    requires path != ""
    decreases c
  {
    var name := EntryName(c);
    if key + [name] in disk.files then c == ItemNode(ListedFile(disk.files[key + [name]], path, name))
    else c.FolderNode? && key + [name] in disk.dirs && Lists(disk, key + [name], SubPath(path, name), c.folder)
  }

  /** A folder child of a listed folder stands for a subdirectory, and is
      named after that directory's name without its extension. */
  lemma FolderChildName(disk: Disk, key: Key, path: string, c: StorageNode)
    requires disk.Valid() && path != "" && ListsChild(disk, key, path, c) && c.FolderNode?
    ensures key + [EntryName(c)] in disk.dirs
    ensures c.folder.name == StripExtension(EntryName(c))
  {
    var m := EntryName(c);
    assert key + [m] !in disk.files;
    assert ValidName((key + [m])[|key|]);
    assert SubPath(path, m) != "/";
    SubPathFileName(path, m);
  }

  lemma ConcatAssociates<T>(a: seq<T>, b: seq<T>, c: seq<T>)
    ensures (a + b) + c == a + (b + c)
  {
  }

  /** Trimming the separators off a folder path other than "/" drops just
      its leading one and keeps its names. */
  lemma TrimmedFolderPath(p: string)
    requires IsFolderPath(p) && p != "/"
    ensures Trim(p, '/') == p[1..]
    ensures p[1..] != "" && !IsRooted(p[1..]) && !EndsWithSeparator(p[1..])
    ensures Segments(p[1..]) == Segments(p)
  {
    var s := TrimStart(p, '/');
    assert p[0] == '/' && p[1] != '/';
    assert s == p[1..];
    assert s[|s| - 1] != '/';
    assert TrimEnd(s, '/') == s;
    SegmentsSlashPrefix(p[1..]);
    assert p == "/" + p[1..];
  }

  /** A folder path is its own full path, and `PreparePath` leaves it
      alone. */
  lemma FolderPathFixed(root: string, p: string)
    requires IsFolderPath(p)
    ensures Combine(root, p) == p && Normalize(p) == p
    ensures Trim(p, '/') == p[1..]
  {
    if p != "/" {
      TrimmedFolderPath(p);
    }
  }

  /** The directory a folder path leads to: the root's names, then the
      path's. */
  lemma FolderKeyOf(root: string, path: string)
    requires ValidRoot(root) && IsFolderPath(path)
    ensures KeyOf(FolderFullPath(root, path)) == KeyOf(root) + Segments(path)
    ensures FolderFullPath(root, path) != ""
  {
    SegmentsOfRoot();
    if path != "/" {
      TrimmedFolderPath(path);
      CombineSegments(root, path[1..]);
    }
  }

  /** Descending into entry `name` of a folder path gives its logical path, a
      folder path one name longer whose last name is `name`. */
  lemma ChildPathFacts(path: string, name: string)
    requires IsFolderPath(path) && ValidName(name)
    ensures ChildPath(path, name) == SubPath(path, name)
    ensures IsFolderPath(SubPath(path, name))
    ensures Segments(SubPath(path, name)) == Segments(path) + [name]
    ensures GetFileName(SubPath(path, name)) == name
  {
    SubPathIsFolderPath(path, name);
    SubPathSegments(path, name);
    SubPathFileName(path, name);
  }

  lemma SubPathIsFolderPath(path: string, name: string)
    requires IsFolderPath(path) && ValidName(name)
    ensures IsFolderPath(SubPath(path, name))
    ensures Normalize(Combine(path, name)) == SubPath(path, name)
  {
    var c := SubPath(path, name);
    assert Combine(path, name) == c;
    assert NoDoubleSlash(c) by {
      forall i | 0 <= i < |c| - 1
        ensures c[i] != '/' || c[i + 1] != '/'
      {
        if path == "/" {
          assert c[i + 1] == name[i];
        } else if i + 1 < |path| {
          assert c[i] == path[i] && c[i + 1] == path[i + 1];
        } else if i + 1 == |path| {
          assert c[i] == path[|path| - 1];
        } else {
          assert c[i + 1] == name[i - |path|];
        }
      }
    }
    assert '\\' !in c;
  }

  lemma SubPathSegments(path: string, name: string)
    requires IsFolderPath(path) && ValidName(name)
    ensures Segments(SubPath(path, name)) == Segments(path) + [name]
  {
    SegmentsOfName(name);
    if path == "/" {
      SegmentsSlashPrefix(name);
      SegmentsOfRoot();
    } else {
      SegmentsJoin(path, name);
    }
  }

  lemma SubPathFileName(path: string, name: string)
    requires ValidName(name)
    ensures GetFileName(SubPath(path, name)) == name
  {
    var c := SubPath(path, name);
    var k := LastIndexOf(c, '/');
    assert k == |c| - |name| - 1 by {
      assert c[|c| - |name| - 1] == '/';
      forall j | |c| - |name| - 1 < j < |c|
        ensures c[j] != '/'
      {
        assert c[j] == name[j - (|c| - |name|)];
      }
    }
    assert c[k + 1..] == name;
  }

  /** The directory of a subfolder is its parent's directory and its name. */
  lemma ChildFolderKey(root: string, path: string, name: string)
    requires ValidRoot(root) && IsFolderPath(path) && ValidName(name)
    ensures IsFolderPath(SubPath(path, name))
    ensures KeyOf(FolderFullPath(root, SubPath(path, name))) == KeyOf(FolderFullPath(root, path)) + [name]
  {
    ChildPathFacts(path, name);
    FolderKeyOf(root, path);
    FolderKeyOf(root, SubPath(path, name));
    ConcatAssociates(KeyOf(root), Segments(path), [name]);
  }

  /** Joining a relative path that does not end in a separator onto a
      non-empty root gives a path that does not end in one either. */
  lemma CombineKeepsLast(root: string, t: string)
    requires root != "" && t != "" && !IsRooted(t)
    ensures Combine(root, t) != "" && Combine(root, t)[|Combine(root, t)| - 1] == t[|t| - 1]
  {
  }

  /** The path a tree file's `FilePath` resolves to under the root is the
      file in the folder's directory. */
  lemma TreeFilePathLeadsToFile(root: string, path: string, name: string)
    requires ValidRoot(root) && IsFolderPath(path) && ValidName(name)
    ensures var t := SubPath(path, name)[1..];
            && Segments(t) == Segments(path) + [name]
            && !IsRooted(t)
            && !EndsWithSeparator(Combine(root, t))
            && KeyOf(Combine(root, t)) == KeyOf(FolderFullPath(root, path)) + [name]
  {
    var cp := SubPath(path, name);
    ChildPathFacts(path, name);
    assert |cp| > 1;
    TrimmedFolderPath(cp);
    assert FolderFullPath(root, cp) == Combine(root, cp[1..]);
    ChildFolderKey(root, path, name);
    CombineKeepsLast(root, cp[1..]);
  }

  /** A tree file's item locates its file: its `FilePath` names the folder's
      directory and the file, with no leading separator, its `Path` names
      the folder, and reading that `FilePath` back through the backend finds
      the file with the same content. */
  lemma ListedFileResolves(root: string, disk: Disk, path: string, name: string)
    requires ValidRoot(root) && disk.Valid() && IsFolderPath(path)
    requires KeyOf(FolderFullPath(root, path)) + [name] in disk.files
    ensures var data := disk.files[KeyOf(FolderFullPath(root, path)) + [name]];
            var item := ListedFile(data, path, name);
            && Segments(item.filePath) == Segments(path) + [name]
            && Segments(item.path) == Segments(path)
            && !IsRooted(item.filePath)
            && DoGetFile(root, disk, item.filePath).Some?
            && DoGetFile(root, disk, item.filePath).value.content == Some(data.content)
  {
    var key := KeyOf(FolderFullPath(root, path));
    assert ValidName(name) by {
      assert ValidKey(key + [name]);
      assert (key + [name])[|key|] == name;
    }
    TreeFilePathLeadsToFile(root, path, name);
    if path == "/" {
      SegmentsOfRoot();
    } else {
      TrimmedFolderPath(path);
    }
  }

  /** `ListFolder(path)`: the folder named after the path, with the logical
      path as its full path, and one child per entry of its directory; a
      missing directory gives a folder with no children. */
  method ListFolder(root: string, disk: Disk, path: string) returns (f: StorageFolder)
    requires ValidRoot(root) && disk.Valid() && IsFolderPath(path)
    ensures Lists(disk, KeyOf(FolderFullPath(root, path)), path, f)
    decreases Below(disk, KeyOf(FolderFullPath(root, path))), 4
  {
    var fullPath := if path == "/" then root else Combine(root, Trim(path, '/'));
    var children: seq<StorageNode> := [];
    FolderKeyOf(root, path);
    if DirectoryExists(disk, fullPath) {
      children := ListChildren(root, disk, path);
    }
    FolderPathFixed(root, path);
    f := StorageFolder(if path == "/" then "/" else GetFileNameWithoutExtension(path),
                       Normalize(Combine(root, path)), children);
  }

  /** The children `ListFolder` gathers from an existing directory, one per
      entry, in whatever order the operating system enumerates them (chosen
      here with `:|`). */
  method ListChildren(root: string, disk: Disk, path: string) returns (children: seq<StorageNode>)
    requires ValidRoot(root) && disk.Valid() && IsFolderPath(path)
    requires KeyOf(FolderFullPath(root, path)) in disk.dirs
    ensures var key := KeyOf(FolderFullPath(root, path));
            && |children| == |Entries(disk, key)|
            && Names(children) == Entries(disk, key)
            && DistinctNames(children)
            && AllListed(disk, key, path, children)
    decreases Below(disk, KeyOf(FolderFullPath(root, path))), 3
  {
    var key := KeyOf(FolderFullPath(root, path));
    var entries := Entries(disk, key);
    var todo := entries;
    children := [];
    while todo != {}
      invariant todo <= entries
      invariant |children| + |todo| == |entries|
      invariant Names(children) == entries - todo
      invariant DistinctNames(children)
      invariant AllListed(disk, key, path, children)
      decreases |todo|
    {
      var name :| name in todo;
      children := AppendEntry(root, disk, path, children, name);
      todo := todo - {name};
    }
  }

  /** One step of `ListFolder`'s enumeration: the node for entry `name`
      appended to the children gathered so far. */
  method AppendEntry(root: string, disk: Disk, path: string, children: seq<StorageNode>, name: string)
      returns (more: seq<StorageNode>)
    requires ValidRoot(root) && disk.Valid() && IsFolderPath(path)
    requires name in Entries(disk, KeyOf(FolderFullPath(root, path)))
    requires DistinctNames(children) && name !in Names(children)
    requires AllListed(disk, KeyOf(FolderFullPath(root, path)), path, children)
    ensures |more| == |children| + 1
    ensures Names(more) == Names(children) + {name}
    ensures DistinctNames(more)
    ensures AllListed(disk, KeyOf(FolderFullPath(root, path)), path, more)
    decreases Below(disk, KeyOf(FolderFullPath(root, path))), 2
  {
    var child := ListEntry(root, disk, path, name);
    NamesAppend(children, child);
    DistinctAppend(children, child);
    ListedAppend(disk, KeyOf(FolderFullPath(root, path)), path, children, child);
    more := children + [child];
  }

  /** The node `ListFolder` makes for one entry of its directory: the file's
      item, or the subdirectory listed in turn. */
  method ListEntry(root: string, disk: Disk, path: string, name: string) returns (child: StorageNode)
    requires ValidRoot(root) && disk.Valid() && IsFolderPath(path)
    requires name in Entries(disk, KeyOf(FolderFullPath(root, path)))
    ensures EntryName(child) == name
    ensures ListsChild(disk, KeyOf(FolderFullPath(root, path)), path, child)
    decreases Below(disk, KeyOf(FolderFullPath(root, path))), 1
  {
    var key := KeyOf(FolderFullPath(root, path));
    assert ValidName(name) && (key + [name] in disk.files || key + [name] in disk.dirs) by {
      EntryKey(disk, key, name);
      assert (key + [name])[|key|] == name;
    }
    if key + [name] in disk.files {
      var item := FileEntry(disk.files[key + [name]], path, name);
      child := ItemNode(item);
    } else {
      child := ListSubfolder(root, disk, path, name);
      SubPathFileName(path, name);
    }
  }

  /** The node `ListFolder` makes for subdirectory `name` of the folder at
      `path`: that subdirectory listed in turn. */
  method ListSubfolder(root: string, disk: Disk, path: string, name: string) returns (child: StorageNode)
    requires ValidRoot(root) && disk.Valid() && IsFolderPath(path) && ValidName(name)
    requires KeyOf(FolderFullPath(root, path)) + [name] in disk.dirs
    ensures child.FolderNode? && child.folder.fullPath == SubPath(path, name)
    ensures Lists(disk, KeyOf(FolderFullPath(root, path)) + [name], SubPath(path, name), child.folder)
    decreases Below(disk, KeyOf(FolderFullPath(root, path))), 0
  {
    var key := KeyOf(FolderFullPath(root, path));
    var cp := SubfolderPath(path, name);
    assert KeyOf(FolderFullPath(root, cp)) == key + [name] by {
      ChildFolderKey(root, path, name);
    }
    assert Below(disk, key + [name]) < Below(disk, key) by {
      BelowShrinks(disk, key, name);
    }
    var sub := ListFolder(root, disk, cp);
    assert sub.fullPath == cp;
    child := FolderNode(sub);
  }

  /** The item `ListFolder` makes for file `name` of the folder at `path`. */
  method FileEntry(data: FileData, path: string, name: string) returns (item: StorageItem)
    requires IsFolderPath(path) && ValidName(name)
    ensures item == ListedFile(data, path, name)
  {
    item := TreeFileItem(data, path, name);
  }

  /** The path `ListFolder` recurses into for subdirectory `name`. */
  method SubfolderPath(path: string, name: string) returns (cp: string)
    requires IsFolderPath(path) && ValidName(name)
    ensures cp == SubPath(path, name) && IsFolderPath(cp) && GetFileName(cp) == name
  {
    ChildPathFacts(path, name);
    cp := Normalize(Combine(path, name));
  }

  /** Appending a node adds exactly its name to the names listed. */
  lemma NamesAppend(cs: seq<StorageNode>, c: StorageNode)
    ensures Names(cs + [c]) == Names(cs) + {EntryName(c)}
  {
    var ds := cs + [c];
    forall x | x in Names(cs) + {EntryName(c)}
      ensures x in Names(ds)
    {
      if x == EntryName(c) {
        assert EntryName(ds[|cs|]) == x;
      } else {
        var i :| 0 <= i < |cs| && EntryName(cs[i]) == x;
        assert EntryName(ds[i]) == x;
      }
    }
  }

  /** Appending a node for an entry not yet listed lists no entry twice. */
  lemma DistinctAppend(cs: seq<StorageNode>, c: StorageNode)
    requires DistinctNames(cs) && EntryName(c) !in Names(cs)
    ensures DistinctNames(cs + [c])
  {
    var ds := cs + [c];
    forall i, j | 0 <= i < j < |ds|
      ensures EntryName(ds[i]) != EntryName(ds[j])
    {
      assert ds[i] == cs[i];
      if j == |cs| {
        assert EntryName(cs[i]) in Names(cs);
      }
    }
  }

  /** Appending a correctly listed node keeps every node listed correctly. */
  lemma ListedAppend(disk: Disk, key: Key, path: string, cs: seq<StorageNode>, c: StorageNode)
    requires path != ""
    requires AllListed(disk, key, path, cs)
    requires ListsChild(disk, key, path, c)
    ensures AllListed(disk, key, path, cs + [c])
  {
    var ds := cs + [c];
    forall i | 0 <= i < |ds|
      ensures ListsChild(disk, key, path, ds[i])
    {
      if i < |cs| {
        assert ds[i] == cs[i];
      }
    }
  }

  /** `DoBuildStorageTreeAsync`: never null; the whole tree listed from the
      root folder "/", whose directory is the storage root. */
  method DoBuildStorageTree(root: string, disk: Disk) returns (tree: Option<StorageFolder>)
    requires ValidRoot(root) && disk.Valid()
    ensures tree.Some? && Lists(disk, KeyOf(root), "/", tree.value)
    ensures tree.value.name == "/" && tree.value.fullPath == "/"
  {
    var f := ListFolder(root, disk, "/");
    tree := Some(f);
  }
}
