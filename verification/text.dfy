/** String helpers with the semantics of the .NET string members the storage
    layer calls (`Replace`, `LastIndexOf`, `Trim`, `Split`), and the facts
    about '/'-separated segments that the path model is built on. */
module Text {

  /** Non-overlapping, left-to-right replacement of every occurrence of `pat`
      by `rep`: the semantics of .NET's `string.Replace(string, string)`. */
  function Replace(s: string, pat: string, rep: string): string
    requires pat != []
    decreases |s|
  {
    if |s| < |pat| then s
    else if s[..|pat|] == pat then rep + Replace(s[|pat|..], pat, rep)
    else [s[0]] + Replace(s[1..], pat, rep)
  }

  /** Position of the last `c` in `s`, or -1 (.NET's `LastIndexOf(char)`). */
  function LastIndexOf(s: string, c: char): (i: int)
    ensures -1 <= i < |s|
    ensures i >= 0 ==> s[i] == c
    ensures forall j :: i < j < |s| ==> s[j] != c
  {
    if s == [] then -1
    else if s[|s| - 1] == c then |s| - 1
    else LastIndexOf(s[..|s| - 1], c)
  }

  /** `s` without its leading run of `c`. */
  function TrimStart(s: string, c: char): (r: string)
    ensures |r| <= |s| && r == s[|s| - |r|..]
    ensures r == [] || r[0] != c
    ensures forall i :: 0 <= i < |s| - |r| ==> s[i] == c
  {
    if s != [] && s[0] == c then TrimStart(s[1..], c) else s
  }

  /** `s` without its trailing run of `c`. */
  function TrimEnd(s: string, c: char): (r: string)
    ensures |r| <= |s| && r == s[..|r|]
    ensures r == [] || r[|r| - 1] != c
    ensures forall i :: |r| <= i < |s| ==> s[i] == c
  {
    if s != [] && s[|s| - 1] == c then TrimEnd(s[..|s| - 1], c) else s
  }

  /** .NET's `Trim(char)`: both runs removed. */
  function Trim(s: string, c: char): string
  {
    TrimEnd(TrimStart(s, c), c)
  }

  /** .NET's `Split`: the pieces between occurrences of `c`, empty pieces
      included, so there is always at least one. */
  function Split(s: string, c: char): (parts: seq<string>)
    ensures |parts| >= 1
  {
    if s == [] then [""]
    else
      var rest := Split(s[1..], c);
      if s[0] == c then [""] + rest else [[s[0]] + rest[0]] + rest[1..]
  }

  /** The inverse of `Split`: the pieces glued back with `c`. */
  function Join(parts: seq<string>, c: char): string
    requires |parts| >= 1
  {
    if |parts| == 1 then parts[0] else parts[0] + [c] + Join(parts[1..], c)
  }

  /** The pieces that are not empty, in order. */
  function NonEmpty(parts: seq<string>): (r: seq<string>)
    ensures forall i :: 0 <= i < |r| ==> r[i] != ""
    ensures forall p :: p in r ==> p in parts
  {
    if parts == [] then []
    else (if parts[0] == "" then [] else [parts[0]]) + NonEmpty(parts[1..])
  }

  /** Pieces that are all non-empty are kept as they are. */
  lemma {:induction false} NonEmptyKeepsAll(parts: seq<string>)
    requires forall i :: 0 <= i < |parts| ==> parts[i] != ""
    ensures NonEmpty(parts) == parts
  {
    if parts != [] {
      NonEmptyKeepsAll(parts[1..]);
    }
  }

  /** The names along a '/'-separated path. Empty pieces are dropped, so a
      repeated, leading or trailing separator names nothing. */
  function Segments(s: string): seq<string>
  {
    NonEmpty(Split(s, '/'))
  }

  /** No separator directly follows another one. */
  predicate NoDoubleSlash(s: string)
  {
    forall i :: 0 <= i < |s| - 1 ==> s[i] != '/' || s[i + 1] != '/'
  }

  /** Every run of separators shortened to one separator (the
      `NormalizeDirectorySeparators` step of .NET's path functions on Unix). */
  function SquashSlashes(s: string): (r: string)
    ensures |r| <= |s|
    ensures s != [] ==> r != [] && r[0] == s[0]
    ensures NoDoubleSlash(r)
    ensures forall x :: x in r ==> x in s
  {
    if s == [] then []
    else if |s| >= 2 && s[0] == '/' && s[1] == '/' then SquashSlashes(s[1..])
    else [s[0]] + SquashSlashes(s[1..])
  }

  // ---------------------------------------------------------------------
  // Split, Join and segments

  /** `Split` cuts at every separator and at nothing else: gluing the pieces
      back gives the input, and no piece holds the separator. */
  lemma {:induction false} SplitJoin(s: string, c: char)
    ensures Join(Split(s, c), c) == s
    ensures forall i :: 0 <= i < |Split(s, c)| ==> c !in Split(s, c)[i]
  {
    if s != [] {
      var rest := Split(s[1..], c);
      SplitJoin(s[1..], c);
      if s[0] == c {
        assert Split(s, c) == [""] + rest;
        assert Join(Split(s, c), c) == "" + [c] + Join(rest, c);
        assert s == [s[0]] + s[1..];
      } else {
        var parts := Split(s, c);
        assert parts == [[s[0]] + rest[0]] + rest[1..];
        if |rest| == 1 {
          assert Join(parts, c) == [s[0]] + rest[0];
        } else {
          assert parts[1..] == rest[1..];
          assert Join(parts, c) == [s[0]] + rest[0] + [c] + Join(rest[1..], c);
          assert Join(rest, c) == rest[0] + [c] + Join(rest[1..], c);
        }
        assert s == [s[0]] + s[1..];
        forall i | 0 <= i < |parts|
          ensures c !in parts[i]
        {
          if i > 0 {
            assert parts[i] == rest[i];
          }
        }
      }
    }
  }

  /** A string without the separator is a single piece. */
  lemma {:induction false} SplitNoSeparator(s: string, c: char)
    requires c !in s
    ensures Split(s, c) == [s]
  {
    if s != [] {
      SplitNoSeparator(s[1..], c);
      assert s == [s[0]] + s[1..];
    }
  }

  /** Splitting at a separator splits the two sides independently. */
  lemma {:induction false} SplitConcat(a: string, b: string, c: char)
    ensures Split(a + [c] + b, c) == Split(a, c) + Split(b, c)
  {
    if a == [] {
      assert a + [c] + b == [c] + b;
      assert ([c] + b)[1..] == b;
    } else {
      var s := a + [c] + b;
      assert s[0] == a[0];
      assert s[1..] == a[1..] + [c] + b;
      SplitConcat(a[1..], b, c);
    }
  }

  lemma {:induction false} NonEmptyConcat(a: seq<string>, b: seq<string>)
    ensures NonEmpty(a + b) == NonEmpty(a) + NonEmpty(b)
  {
    if a != [] {
      assert (a + b)[0] == a[0];
      assert (a + b)[1..] == a[1..] + b;
      NonEmptyConcat(a[1..], b);
    } else {
      assert a + b == b;
    }
  }

  /** The segments of a path joined at a separator are the segments of the
      two sides. */
  lemma SegmentsJoin(a: string, b: string)
    ensures Segments(a + "/" + b) == Segments(a) + Segments(b)
  {
    SplitConcat(a, b, '/');
    NonEmptyConcat(Split(a, '/'), Split(b, '/'));
  }

  /** A single name is its own one segment. */
  lemma SegmentsOfName(n: string)
    requires n != "" && '/' !in n
    ensures Segments(n) == [n]
  {
    SplitNoSeparator(n, '/');
    assert NonEmpty([n]) == [n] + NonEmpty([n][1..]);
  }

  /** A path without separators names itself, or nothing when empty. */
  lemma SegmentsNoSlash(n: string)
    requires '/' !in n
    ensures Segments(n) == if n == "" then [] else [n]
  {
    SplitNoSeparator(n, '/');
    assert NonEmpty([n]) == (if n == "" then [] else [n]) + NonEmpty([n][1..]);
  }

  lemma SegmentsSlashPrefix(s: string)
    ensures Segments("/" + s) == Segments(s)
  {
    SegmentsJoin("", s);
    assert "" + "/" + s == "/" + s;
  }

  lemma SegmentsSlashSuffix(s: string)
    ensures Segments(s + "/") == Segments(s)
  {
    SegmentsJoin(s, "");
    assert s + "/" + "" == s + "/";
  }

  /** Trimming separators never changes the names a path walks through. */
  lemma {:induction false} SegmentsTrimStart(s: string)
    ensures Segments(TrimStart(s, '/')) == Segments(s)
  {
    if s != [] && s[0] == '/' {
      SegmentsTrimStart(s[1..]);
      SegmentsSlashPrefix(s[1..]);
      assert s == "/" + s[1..];
    }
  }

  lemma {:induction false} SegmentsTrimEnd(s: string)
    ensures Segments(TrimEnd(s, '/')) == Segments(s)
  {
    if s != [] && s[|s| - 1] == '/' {
      SegmentsTrimEnd(s[..|s| - 1]);
      SegmentsSlashSuffix(s[..|s| - 1]);
      assert s == s[..|s| - 1] + "/";
    }
  }

  lemma SegmentsTrim(s: string)
    ensures Segments(Trim(s, '/')) == Segments(s)
  {
    SegmentsTrimStart(s);
    SegmentsTrimEnd(TrimStart(s, '/'));
  }

  /** A doubled separator names the same segments as a single one. */
  lemma SegmentsDoubleSlash(a: string, b: string)
    ensures Segments(a + "//" + b) == Segments(a + "/" + b)
  {
    SegmentsJoin(a, "/" + b);
    SegmentsSlashPrefix(b);
    SegmentsJoin(a, b);
    assert a + "/" + ("/" + b) == a + "//" + b;
  }

  /** `Replace("//", "/")` keeps the segments of what follows any prefix. */
  lemma {:induction false} SegmentsReplacePairsAfter(pre: string, s: string)
    ensures Segments(pre + Replace(s, "//", "/")) == Segments(pre + s)
    decreases |s|
  {
    if |s| < 2 {
    } else if s[..2] == "//" {
      var r := s[2..];
      SegmentsReplacePairsAfter(pre + "/", r);
      assert pre + Replace(s, "//", "/") == (pre + "/") + Replace(r, "//", "/");
      assert s == "//" + r;
      assert pre + s == pre + "//" + r;
      SegmentsDoubleSlash(pre, r);
    } else {
      SegmentsReplacePairsAfter(pre + [s[0]], s[1..]);
      assert pre + Replace(s, "//", "/") == (pre + [s[0]]) + Replace(s[1..], "//", "/");
      assert pre + s == (pre + [s[0]]) + s[1..];
    }
  }

  /** `SquashSlashes` keeps the segments of what follows any prefix. */
  lemma {:induction false} SegmentsSquashAfter(pre: string, s: string)
    ensures Segments(pre + SquashSlashes(s)) == Segments(pre + s)
    decreases |s|
  {
    if s == [] {
    } else if |s| >= 2 && s[0] == '/' && s[1] == '/' {
      var r := s[2..];
      SegmentsSquashAfter(pre, s[1..]);
      assert s[1..] == "/" + r;
      assert s == "//" + r;
      assert pre + s[1..] == pre + "/" + r;
      assert pre + s == pre + "//" + r;
      SegmentsDoubleSlash(pre, r);
    } else {
      SegmentsSquashAfter(pre + [s[0]], s[1..]);
      assert pre + SquashSlashes(s) == (pre + [s[0]]) + SquashSlashes(s[1..]);
      assert pre + s == (pre + [s[0]]) + s[1..];
    }
  }

  lemma SegmentsReplacePairs(s: string)
    ensures Segments(Replace(s, "//", "/")) == Segments(s)
  {
    SegmentsReplacePairsAfter("", s);
    assert "" + s == s;
    assert "" + Replace(s, "//", "/") == Replace(s, "//", "/");
  }

  lemma SegmentsSquash(s: string)
    ensures Segments(SquashSlashes(s)) == Segments(s)
  {
    SegmentsSquashAfter("", s);
    assert "" + s == s;
    assert "" + SquashSlashes(s) == SquashSlashes(s);
  }

  /** A trailing run of separators names nothing. */
  lemma {:induction false} SegmentsTrailingSlashes(s: string, k: nat)
    requires k <= |s|
    requires forall i :: k <= i < |s| ==> s[i] == '/'
    ensures Segments(s[..k]) == Segments(s)
    decreases |s| - k
  {
    if k < |s| {
      SegmentsTrailingSlashes(s, k + 1);
      SegmentsSlashSuffix(s[..k]);
      assert s[..k + 1] == s[..k] + "/";
    } else {
      assert s[..k] == s;
    }
  }

  /** Every character of a piece comes from the input. */
  lemma {:induction false} SplitChars(s: string, c: char)
    ensures forall i, x :: 0 <= i < |Split(s, c)| && x in Split(s, c)[i] ==> x in s
  {
    if s != [] {
      SplitChars(s[1..], c);
      var rest := Split(s[1..], c);
      var parts := Split(s, c);
      forall i, x | 0 <= i < |parts| && x in parts[i]
        ensures x in s
      {
        if s[0] == c {
          assert i > 0 && parts[i] == rest[i - 1];
          assert x in s[1..];
        } else if i > 0 {
          assert parts[i] == rest[i];
          assert x in s[1..];
        } else if x != s[0] {
          assert parts[0] == [s[0]] + rest[0];
          assert x in rest[0];
          assert x in s[1..];
        }
      }
    }
  }

  /** Every character of a segment comes from the path. */
  lemma SegmentChars(s: string)
    ensures forall i, x :: 0 <= i < |Segments(s)| && x in Segments(s)[i] ==> x in s
  {
    SplitChars(s, '/');
    forall i, x | 0 <= i < |Segments(s)| && x in Segments(s)[i]
      ensures x in s
    {
      var seg := Segments(s)[i];
      assert seg in Split(s, '/');
      var j :| 0 <= j < |Split(s, '/')| && Split(s, '/')[j] == seg;
    }
  }

  /** Every character other than a separator lies in some segment. */
  lemma {:induction false} SegmentsCover(s: string, i: nat)
    requires i < |s| && s[i] != '/'
    ensures exists j :: 0 <= j < |Segments(s)| && s[i] in Segments(s)[j]
  {
    var rest := Split(s[1..], '/');
    if s[0] == '/' {
      assert s == "/" + s[1..];
      SegmentsSlashPrefix(s[1..]);
      SegmentsCover(s[1..], i - 1);
    } else {
      var parts := Split(s, '/');
      assert parts == [[s[0]] + rest[0]] + rest[1..];
      assert parts[0] != "";
      assert NonEmpty(parts) == [parts[0]] + NonEmpty(parts[1..]);
      if i == 0 {
        assert s[0] in Segments(s)[0];
      } else {
        var segs := Segments(s);
        assert s[1..][i - 1] == s[i];
        SplitCover(s[1..], i - 1);
        var k :| 0 <= k < |rest| && s[i] in rest[k];
        if k == 0 {
          assert s[i] in parts[0];
          assert s[i] in segs[0];
        } else {
          assert rest[k] == parts[k];
          NonEmptyCover(parts[1..], k - 1);
          var m :| 0 <= m < |NonEmpty(parts[1..])| && NonEmpty(parts[1..])[m] == parts[k];
          assert segs[m + 1] == parts[k];
        }
      }
    }
  }

  /** Every character other than the separator lies in some piece. */
  lemma {:induction false} SplitCover(s: string, i: nat)
    requires i < |s| && s[i] != '/'
    ensures exists k :: 0 <= k < |Split(s, '/')| && s[i] in Split(s, '/')[k]
  {
    var rest := Split(s[1..], '/');
    var parts := Split(s, '/');
    if i == 0 {
      assert parts[0] == [s[0]] + rest[0];
      assert s[0] in parts[0];
    } else {
      SplitCover(s[1..], i - 1);
      assert s[1..][i - 1] == s[i];
      var k :| 0 <= k < |rest| && s[i] in rest[k];
      if s[0] == '/' {
        assert parts[k + 1] == rest[k];
      } else if k == 0 {
        assert parts[0] == [s[0]] + rest[0];
        assert s[i] in parts[0];
      } else {
        assert parts[k] == rest[k];
      }
    }
  }

  /** A non-empty piece survives the filter. */
  lemma {:induction false} NonEmptyCover(parts: seq<string>, k: nat)
    requires k < |parts| && parts[k] != ""
    ensures exists m :: 0 <= m < |NonEmpty(parts)| && NonEmpty(parts)[m] == parts[k]
  {
    var head := if parts[0] == "" then [] else [parts[0]];
    assert NonEmpty(parts) == head + NonEmpty(parts[1..]);
    if k == 0 {
      assert NonEmpty(parts)[0] == parts[0];
    } else {
      NonEmptyCover(parts[1..], k - 1);
      var m :| 0 <= m < |NonEmpty(parts[1..])| && NonEmpty(parts[1..])[m] == parts[1..][k - 1];
      assert NonEmpty(parts)[|head| + m] == parts[k];
    }
  }
}
