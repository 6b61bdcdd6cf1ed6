/** The path arithmetic of the storage layer: `Storage<T>.PreparePath`, the
    stored-name and destination-path derivation, and the parts of .NET's
    `System.IO.Path` the code relies on (`Combine`, `GetDirectoryName`,
    `GetFileName`, `GetFileNameWithoutExtension`), written out with their
    Unix semantics, where '/' is the only directory separator. */
module Paths {
  import opened Nullable
  import opened Text

  // ---------------------------------------------------------------------
  // PreparePath

  /** Every '\' read as a separator: `Replace("\\", "/")`. */
  function Backslashes(s: string): string
  {
    Replace(s, "\\", "/")
  }

  /** The non-null case of `PreparePath`: backslashes become slashes, then
      one left-to-right pass turns each non-overlapping "//" into "/". The
      path keeps its names, loses every backslash, never grows, and is left
      as it is exactly when it already had no backslash and no "//". */
  function Normalize(s: string): (r: string)
    ensures '\\' !in r
    ensures |r| <= |s|
    ensures Segments(r) == Segments(Backslashes(s))
    ensures r == s <==> '\\' !in s && NoDoubleSlash(s)
  {
    BackslashesPointwise(s);
    var t := Backslashes(s);
    ReplacePairsFacts(t);
    SegmentsReplacePairs(t);
    var r := Replace(t, "//", "/");
    assert r == s ==> t == s by {
      if r == s {
        assert '\\' !in t by {
          forall i | 0 <= i < |t|
            ensures t[i] != '\\'
          {
          }
        }
        assert '\\' !in s;
      }
    }
    r
  }

  /** `PreparePath`: null stays null, anything else is `Normalize`d. */
  function PreparePath(path: Option<string>): (r: Option<string>)
    ensures r.None? <==> path.None?
    ensures r.Some? ==> '\\' !in r.value && |r.value| <= |path.value|
    ensures r.Some? ==> Segments(r.value) == Segments(Backslashes(path.value))
    ensures r.Some? ==> (r.value == path.value <==> '\\' !in path.value && NoDoubleSlash(path.value))
  {
    match path
    case None => None
    case Some(p) => Some(Normalize(p))
  }

  lemma {:induction false} BackslashesPointwise(s: string)
    ensures |Backslashes(s)| == |s|
    ensures forall i :: 0 <= i < |s| ==> Backslashes(s)[i] == if s[i] == '\\' then '/' else s[i]
  {
    if s != [] {
      BackslashesPointwise(s[1..]);
      if s[..1] == "\\" {
        assert Backslashes(s) == "/" + Backslashes(s[1..]);
      } else {
        assert Backslashes(s) == [s[0]] + Backslashes(s[1..]);
      }
    }
  }

  /** What one pass of `Replace("//", "/")` does: it only drops separators,
      so it never adds a character that was not there, shortens exactly the
      strings that have a "//", and leaves the others alone. */
  lemma {:induction false} ReplacePairsFacts(s: string)
    ensures |Replace(s, "//", "/")| <= |s|
    ensures forall x :: x != '/' && x !in s ==> x !in Replace(s, "//", "/")
    ensures NoDoubleSlash(s) ==> Replace(s, "//", "/") == s
    ensures !NoDoubleSlash(s) ==> |Replace(s, "//", "/")| < |s|
    decreases |s|
  {
    if |s| < 2 {
    } else if s[..2] == "//" {
      ReplacePairsFacts(s[2..]);
      assert s[0] == '/' && s[1] == '/';
      assert !NoDoubleSlash(s);
      forall x | x != '/' && x !in s
        ensures x !in Replace(s, "//", "/")
      {
        assert x !in s[2..];
      }
    } else {
      var r := Replace(s, "//", "/");
      ReplacePairsFacts(s[1..]);
      assert r == [s[0]] + Replace(s[1..], "//", "/");
      assert !(s[0] == '/' && s[1] == '/');
      if NoDoubleSlash(s) {
        assert NoDoubleSlash(s[1..]) by {
          forall i | 0 <= i < |s[1..]| - 1
            ensures s[1..][i] != '/' || s[1..][i + 1] != '/'
          {
            assert s[1..][i] == s[i + 1] && s[1..][i + 1] == s[i + 2];
          }
        }
        assert s == [s[0]] + s[1..];
      } else {
        var i :| 0 <= i < |s| - 1 && s[i] == '/' && s[i + 1] == '/';
        assert i > 0;
        assert s[1..][i - 1] == '/' && s[1..][i] == '/';
        assert !NoDoubleSlash(s[1..]);
      }
      forall x | x != '/' && x !in s
        ensures x !in r
      {
        assert x !in s[1..];
      }
    }
  }

  /** A path with a separator (either kind) keeps one through `Normalize`,
      and a rooted path stays rooted. */
  lemma NormalizeKeepsSeparator(s: string)
    ensures '/' in s || '\\' in s ==> '/' in Normalize(s)
    ensures IsRooted(s) ==> IsRooted(Normalize(s))
  {
    BackslashesPointwise(s);
    var t := Backslashes(s);
    if '/' in s || '\\' in s {
      var i :| 0 <= i < |s| && (s[i] == '/' || s[i] == '\\');
      assert t[i] == '/';
      ReplacePairsKeepsSlash(t);
    }
    if IsRooted(s) {
      assert t[0] == '/';
      ReplacePairsKeepsRoot(t);
    }
  }

  lemma {:induction false} ReplacePairsKeepsSlash(t: string)
    requires '/' in t
    ensures '/' in Replace(t, "//", "/")
    decreases |t|
  {
    if |t| < 2 {
    } else if t[..2] == "//" {
      assert Replace(t, "//", "/")[0] == '/';
    } else if t[0] == '/' {
      assert Replace(t, "//", "/")[0] == '/';
    } else {
      assert '/' in t[1..] by {
        var i :| 0 <= i < |t| && t[i] == '/';
        assert t[1..][i - 1] == '/';
      }
      ReplacePairsKeepsSlash(t[1..]);
      var r := Replace(t[1..], "//", "/");
      var j :| 0 <= j < |r| && r[j] == '/';
      assert Replace(t, "//", "/")[j + 1] == '/';
    }
  }

  lemma ReplacePairsKeepsRoot(t: string)
    requires IsRooted(t)
    ensures IsRooted(Replace(t, "//", "/"))
  {
  }

  /** Reading backslashes as separators changes nothing in a path that has
      none. */
  lemma BackslashesNone(s: string)
    requires '\\' !in s
    ensures Backslashes(s) == s
  {
    BackslashesPointwise(s);
  }

  /** `PreparePath` is not idempotent: one pass turns "///" into "//", and
      only a second pass gets it down to "/". */
  lemma PreparePathNotIdempotent()
    ensures PreparePath(Some("///")) == Some("//")
    ensures PreparePath(PreparePath(Some("///"))) == Some("/")
  {
    assert Backslashes("///") == "///";
    assert Backslashes("//") == "//";
    assert "///"[..2] == "//";
    assert "///"[2..] == "/";
    assert "//"[..2] == "//";
    assert "//"[2..] == "";
  }

  // ---------------------------------------------------------------------
  // System.IO.Path on Unix

  /** `Path.IsPathRooted`. */
  predicate IsRooted(p: string)
  {
    |p| > 0 && p[0] == '/'
  }

  /** `Path.Combine(a, b)`: an empty side yields the other side, a rooted
      `b` replaces `a` altogether, and otherwise one separator joins them. */
  function Combine(a: string, b: string): string
  {
    if b == "" then a
    else if a == "" then b
    else if IsRooted(b) then b
    else if a[|a| - 1] == '/' then a + b
    else a + "/" + b
  }

  /** The names a combined path walks through: those of `b` alone when `b`
      is rooted (the first argument is discarded), else those of `a` then
      those of `b`. */
  lemma CombineSegments(a: string, b: string)
    ensures Segments(Combine(a, b)) ==
            if IsRooted(b) then Segments(b) else Segments(a) + Segments(b)
  {
    if b == "" {
      SegmentsNoSlash(b);
    } else if a == "" {
      SegmentsNoSlash(a);
    } else if IsRooted(b) {
    } else if a[|a| - 1] == '/' {
      var a' := a[..|a| - 1];
      assert a == a' + "/";
      assert a + b == a' + "/" + b;
      SegmentsJoin(a', b);
      SegmentsSlashSuffix(a');
    } else {
      SegmentsJoin(a, b);
    }
  }

  /** Length of the path root: 1 for a rooted path, else 0. */
  function RootLength(p: string): nat
  {
    if IsRooted(p) then 1 else 0
  }

  /** `Path.GetDirectoryName`: null for "" and "/"; otherwise everything
      before the last separator that follows the root, with the separators
      in front of it trimmed (but not the root) and every run of
      separators shortened to one. */
  function GetDirectoryName(p: string): Option<string>
  {
    var rootLen := RootLength(p);
    if |p| <= rootLen then None
    else
      var last := LastIndexOf(p, '/');
      var cut := if last >= rootLen then last else rootLen;
      var kept := |TrimEnd(p[..cut], '/')|;
      var end := if kept < rootLen then rootLen else kept;
      Some(SquashSlashes(p[..end]))
  }

  /** The directory name only holds characters of the path. */
  lemma DirectoryNameChars(p: string)
    requires GetDirectoryName(p).Some?
    ensures forall x :: x in GetDirectoryName(p).value ==> x in p
  {
  }

  /** `Path.GetFileName`: what follows the last separator. */
  function GetFileName(p: string): (r: string)
    ensures '/' !in r
    ensures |r| <= |p| && r == p[|p| - |r|..]
  {
    p[LastIndexOf(p, '/') + 1..]
  }

  /** The name with its extension (from the last '.') cut off. */
  function StripExtension(name: string): (r: string)
    ensures '.' in name ==> |r| < |name| && r + name[|r|..] == name && '.' !in name[|r| + 1..] && name[|r|] == '.'
    ensures '.' !in name ==> r == name
  {
    var dot := LastIndexOf(name, '.');
    if dot < 0 then name else name[..dot]
  }

  /** `Path.GetFileNameWithoutExtension`. */
  function GetFileNameWithoutExtension(p: string): string
  {
    StripExtension(GetFileName(p))
  }

  /** Neither "" nor "/" names anything. */
  lemma SegmentsOfRoot()
    ensures Segments("") == [] && Segments("/") == []
  {
    SegmentsNoSlash("");
    SegmentsSlashPrefix("");
    assert "/" + "" == "/";
  }

  /** `GetDirectoryName` is the parent: for a path that names something and
      does not end in a separator, the directory name walks through every
      name of the path but the last. */
  lemma DirectoryNameIsParent(p: string)
    requires Segments(p) != []
    requires p[|p| - 1] != '/'
    ensures GetDirectoryName(p).Some?
    ensures var segs := Segments(p);
            Segments(GetDirectoryName(p).value) == segs[..|segs| - 1]
  {
    var rootLen := RootLength(p);
    SegmentsOfRoot();
    assert p != "" && p != "/";
    var last := LastIndexOf(p, '/');
    if last >= rootLen {
      var head := p[..last];
      var tail := p[last + 1..];
      assert p == head + "/" + tail;
      assert tail != "" && '/' !in tail;
      SegmentsJoin(head, tail);
      SegmentsOfName(tail);
      var kept := |TrimEnd(head, '/')|;
      var end := if kept < rootLen then rootLen else kept;
      assert p[..end] == head[..end];
      SegmentsTrailingSlashes(head, end);
      SegmentsSquash(p[..end]);
    } else if rootLen == 0 {
      assert '/' !in p;
      SegmentsOfName(p);
      assert TrimEnd(p[..0], '/') == "";
      assert SquashSlashes("") == "";
    } else {
      var tail := p[1..];
      assert p == "/" + tail;
      assert '/' !in tail && tail != "";
      SegmentsSlashPrefix(tail);
      SegmentsOfName(tail);
      assert p[..1] == "/";
      assert TrimEnd("/", '/') == "";
      assert SquashSlashes("/") == "/";
    }
  }

  // ---------------------------------------------------------------------
  // Stored names

  /** The textual form of a `Guid` ("D" format): 32 hexadecimal digits in
      groups of 8-4-4-4-12 separated by hyphens. */
  predicate IsGuidText(id: string)
  {
    && |id| == 36
    && forall i :: 0 <= i < 36 ==>
         if i == 8 || i == 13 || i == 18 || i == 23 then id[i] == '-'
         else ('0' <= id[i] <= '9' || 'a' <= id[i] <= 'f')
  }

  /** The extension of a name: its suffix from the last '.', dot included. */
  function Extension(fileName: string): (ext: string)
    requires '.' in fileName
    ensures 1 <= |ext| <= |fileName| && ext[0] == '.' && '.' !in ext[1..]
    ensures ext == fileName[|fileName| - |ext|..]
  {
    fileName[LastIndexOf(fileName, '.')..]
  }

  /** `GetStorageFileName`, with the fresh `Guid` passed in as `id`: the
      original name is replaced by the id and the extension is kept. The
      source's `Substring(LastIndexOf('.'))` throws when there is no '.',
      hence the precondition. */
  function StorageFileName(id: string, fileName: string): (r: string)
    requires '.' in fileName
    ensures |id| < |r| <= |id| + |fileName| && r[..|id|] == id
    ensures var ext := r[|id|..];
            ext[0] == '.' && '.' !in ext[1..] && ext == fileName[|fileName| - |ext|..]
  {
    id + Extension(fileName)
  }

  /** The stored name has the extension of the original name whenever the id
      itself has no '.', which holds for every `Guid` text. */
  lemma StorageFileNameKeepsExtension(id: string, fileName: string)
    requires '.' in fileName
    requires IsGuidText(id)
    ensures '.' in StorageFileName(id, fileName)
    ensures Extension(StorageFileName(id, fileName)) == Extension(fileName)
  {
    var r := StorageFileName(id, fileName);
    var ext := Extension(fileName);
    assert r == id + ext;
    assert r[|id|] == '.';
    assert '.' !in id by {
      forall i | 0 <= i < |id|
        ensures id[i] != '.'
      {
      }
    }
    assert forall j :: |id| < j < |r| ==> r[j] != '.' by {
      forall j | |id| < j < |r|
        ensures r[j] != '.'
      {
        assert r[j] == ext[1..][j - |id| - 1];
      }
    }
    assert LastIndexOf(r, '.') == |id|;
  }

  /** `GetDestinationPath`: the directory, a separator and the stored name,
      through `PreparePath`. The destination has no backslash and walks
      through the directory's names and then the stored name's (backslashes
      read as separators). */
  function DestinationPath(id: string, fileName: string, path: string): (dest: string)
    requires '.' in fileName
    ensures '\\' !in dest
    ensures Segments(dest) ==
            Segments(Backslashes(path)) + Segments(Backslashes(StorageFileName(id, fileName)))
  {
    var name := StorageFileName(id, fileName);
    JoinedSegments(path, name);
    Normalize(path + "/" + name)
  }

  /** Two paths joined with a separator walk through the names of both, with
      backslashes read as separators. */
  lemma JoinedSegments(a: string, b: string)
    ensures Segments(Backslashes(a + "/" + b)) == Segments(Backslashes(a)) + Segments(Backslashes(b))
  {
    var s := a + "/" + b;
    BackslashesPointwise(s);
    BackslashesPointwise(a);
    BackslashesPointwise(b);
    assert Backslashes(s) == Backslashes(a) + "/" + Backslashes(b);
    SegmentsJoin(Backslashes(a), Backslashes(b));
  }
}
