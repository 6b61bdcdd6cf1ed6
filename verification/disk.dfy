/** The physical medium under the filesystem backend: the part of
    `System.IO.File` and `System.IO.Directory` the backend calls, over an
    abstract disk. A location is its sequence of names (a "key"), so repeated
    and trailing separators resolve to the same place, as they do for the
    operating system. */
module Disk {
  import opened Text
  import opened Items

  /** A resolved location: the names from the filesystem root down. */
  type Key = seq<string>

  /** A name a directory entry can carry: not empty, no separator, and (a
      restriction of this model) no backslash. */
  predicate ValidName(n: string)
  {
    n != "" && '/' !in n && '\\' !in n
  }

  predicate ValidKey(k: Key)
  {
    forall i :: 0 <= i < |k| ==> ValidName(k[i])
  }

  function Parent(k: Key): Key
    requires k != []
  {
    k[..|k| - 1]
  }

  /** `k` is `top` or lies somewhere below it. */
  predicate IsUnder(k: Key, top: Key)
  {
    |top| <= |k| && k[..|top|] == top
  }

  /** Where a path string leads. */
  function KeyOf(p: string): Key
  {
    Segments(p)
  }

  datatype FileData = FileData(content: Bytes, modified: int)

  datatype Disk = Disk(files: map<Key, FileData>, dirs: set<Key>) {

    /** A well-formed tree: the filesystem root is a directory, nothing is
        both a file and a directory, every entry sits in an existing
        directory, and every name is valid. */
    predicate Valid()
    {
      && [] in dirs
      && files.Keys !! dirs
      && (forall k :: k in files ==> k != [] && Parent(k) in dirs && ValidKey(k))
      && (forall k :: k in dirs ==> ValidKey(k) && (k != [] ==> Parent(k) in dirs))
    }
  }

  predicate EndsWithSeparator(p: string)
  {
    p != "" && p[|p| - 1] == '/'
  }

  /** `Directory.Exists`. */
  predicate DirectoryExists(d: Disk, p: string)
  {
    p != "" && KeyOf(p) in d.dirs
  }

  /** `File.Exists`: a trailing separator asks for a directory, so it never
      names a file. */
  predicate FileExists(d: Disk, p: string)
  {
    !EndsWithSeparator(p) && KeyOf(p) in d.files
  }

  /** `k` and every directory above it. */
  function Ancestry(k: Key): set<Key>
  {
    set i | 0 <= i <= |k| :: k[..i]
  }

  /** `Directory.CreateDirectory`: the directory and every missing one above
      it come into existence. It throws when one of them is a file, hence the
      precondition. */
  function CreateDirectory(d: Disk, p: string): (r: Disk)
    requires d.Valid() && p != "" && ValidKey(KeyOf(p))
    requires forall i :: 0 <= i <= |KeyOf(p)| ==> KeyOf(p)[..i] !in d.files
    ensures r.Valid()
    ensures KeyOf(p) in r.dirs && r.files == d.files && d.dirs <= r.dirs
    ensures forall k :: k in r.dirs ==> k in d.dirs || IsUnder(KeyOf(p), k)
  {
    var key := KeyOf(p);
    var r := Disk(d.files, d.dirs + Ancestry(key));
    assert key == key[..|key|];
    forall k | k in Ancestry(key)
      ensures ValidKey(k) && (k != [] ==> Parent(k) in r.dirs)
    {
      var i :| 0 <= i <= |key| && k == key[..i];
      if k != [] {
        assert Parent(k) == key[..i - 1];
      }
    }
    r
  }

  /** `File.Create` followed by copying the whole stream: the file holds
      exactly `content`, whatever it held before. `File.Create` throws when
      the parent is missing or the path is a directory, hence the
      precondition. */
  function WriteFile(d: Disk, p: string, content: Bytes, now: int): (r: Disk)
    requires d.Valid()
    requires !EndsWithSeparator(p) && KeyOf(p) != [] && ValidKey(KeyOf(p))
    requires KeyOf(p) !in d.dirs && Parent(KeyOf(p)) in d.dirs
    ensures r.Valid() && r.dirs == d.dirs
    ensures FileExists(r, p) && r.files[KeyOf(p)] == FileData(content, now)
    ensures forall k :: k != KeyOf(p) ==> (k in r.files <==> k in d.files)
    ensures forall k :: k != KeyOf(p) && k in d.files ==> r.files[k] == d.files[k]
  {
    Disk(d.files[KeyOf(p) := FileData(content, now)], d.dirs)
  }

  /** `File.Delete` of an existing file. */
  function DeleteFile(d: Disk, p: string): (r: Disk)
    requires d.Valid() && FileExists(d, p)
    ensures r.Valid() && r.dirs == d.dirs
    ensures !FileExists(r, p)
    ensures forall k :: k != KeyOf(p) ==> (k in r.files <==> k in d.files)
    ensures forall k :: k != KeyOf(p) && k in d.files ==> r.files[k] == d.files[k]
  {
    Disk(d.files - {KeyOf(p)}, d.dirs)
  }

  /** `Directory.Delete(p, true)`: the directory and everything below it
      are gone and nothing else changes. */
  function DeleteTree(d: Disk, top: Key): (r: Disk)
    requires d.Valid() && top != []
    ensures r.Valid()
    ensures forall k :: k in r.files ==> !IsUnder(k, top)
    ensures forall k :: k in r.dirs ==> !IsUnder(k, top)
    ensures forall k :: !IsUnder(k, top) ==> (k in r.files <==> k in d.files) && (k in r.dirs <==> k in d.dirs)
    ensures forall k :: k in r.files ==> r.files[k] == d.files[k]
  {
    var r := Disk(map k | k in d.files && !IsUnder(k, top) :: d.files[k],
                  set k | k in d.dirs && !IsUnder(k, top));
    forall k | k in r.dirs && k != []
      ensures Parent(k) in r.dirs
    {
      assert !IsUnder(Parent(k), top);
    }
    forall k | k in r.files
      ensures Parent(k) in r.dirs
    {
      assert !IsUnder(Parent(k), top);
    }
    r
  }

  /** The names of the entries (files and directories) of directory `k`. */
  function Entries(d: Disk, k: Key): set<string>
  {
    set x | x in d.files.Keys + d.dirs && |x| == |k| + 1 && x[..|k|] == k :: x[|k|]
  }

  /** An entry name leads to the entry one level down. */
  lemma EntryKey(d: Disk, k: Key, name: string)
    requires name in Entries(d, k)
    ensures k + [name] in d.files || k + [name] in d.dirs
  {
    var x :| x in d.files.Keys + d.dirs && |x| == |k| + 1 && x[..|k|] == k && x[|k|] == name;
    assert x == k + [name];
  }

  /** Every existing entry of a directory is listed among its entries. */
  lemma EntryListed(d: Disk, k: Key, name: string)
    requires k + [name] in d.files || k + [name] in d.dirs
    ensures name in Entries(d, k)
  {
    var x := k + [name];
    assert x[..|k|] == k && x[|k|] == name;
  }

  /** The directories strictly below `k`. */
  function Below(d: Disk, k: Key): set<Key>
  {
    set x | x in d.dirs && |x| > |k| && x[..|k|] == k
  }

  /** Descending into a subdirectory leaves fewer directories below. */
  lemma BelowShrinks(d: Disk, k: Key, name: string)
    requires k + [name] in d.dirs
    ensures Below(d, k + [name]) < Below(d, k)
  {
    var c := k + [name];
    forall x | x in Below(d, c)
      ensures x in Below(d, k)
    {
      assert x[..|k|] == x[..|c|][..|k|];
    }
    assert c[..|k|] == k;
    assert c in Below(d, k) && c !in Below(d, c);
  }

  /** A path without backslashes leads through valid names only. */
  lemma KeyOfValid(p: string)
    requires '\\' !in p
    ensures ValidKey(KeyOf(p))
  {
    SegmentChars(p);
    forall i | 0 <= i < |KeyOf(p)|
      ensures ValidName(KeyOf(p)[i])
    {
      SplitJoin(p, '/');
      var seg := KeyOf(p)[i];
      assert seg in Split(p, '/');
      var j :| 0 <= j < |Split(p, '/')| && Split(p, '/')[j] == seg;
    }
  }

  /** A path with a backslash leads through a name no valid disk holds. */
  lemma BackslashKeyInvalid(p: string)
    requires '\\' in p
    ensures !ValidKey(KeyOf(p))
  {
    var i :| 0 <= i < |p| && p[i] == '\\';
    SegmentsCover(p, i);
  }

  /** A path with a name character in it leads somewhere below the
      filesystem root. */
  lemma KeyOfNotRoot(p: string, i: nat)
    requires i < |p| && p[i] != '/'
    ensures KeyOf(p) != []
  {
    SegmentsCover(p, i);
  }

  /** Every directory above an existing directory exists. */
  lemma {:induction false} AncestorsExist(d: Disk, k: Key, a: Key)
    requires d.Valid() && k in d.dirs && IsUnder(k, a)
    ensures a in d.dirs
    decreases |k|
  {
    if |k| > |a| {
      assert Parent(k)[..|a|] == k[..|a|];
      AncestorsExist(d, Parent(k), a);
    } else {
      assert k == k[..|a|];
    }
  }
}
