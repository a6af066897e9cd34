/** The string helpers the engine applies to paths: Python's `str.split`,
    `str.join`, `str.rstrip` and `str.replace` on one character, and the path
    expressions built from them (gmcollage.py:145, 150, 172, 278). */
module PathStrings {
  import opened Wrappers

  /** `s.find(c)` for a single character: the first position of `c`. */
  function IndexOf(s: string, c: char): (r: Option<nat>)
    ensures r.Some? ==> r.value < |s| && s[r.value] == c && c !in s[..r.value]
    ensures r.None? ==> c !in s
  {
    if |s| == 0 then None
    else if s[0] == c then Some(0)
    else match IndexOf(s[1..], c)
      case None => None
      case Some(i) => assert s[..i + 1] == [s[0]] + s[1..][..i]; Some(i + 1)
  }

  /** `s.split(sep)`: cuts at every occurrence of `sep`, so there is always
      one more segment than separators ("" gives [""], "a/" gives ["a", ""]). */
  function Split(s: string, sep: char): (r: seq<string>)
    ensures |r| >= 1
    decreases |s|
  {
    match IndexOf(s, sep)
    case None => [s]
    case Some(i) => [s[..i]] + Split(s[i + 1..], sep)
  }

  /** No segment of a split contains the separator. */
  lemma {:induction false} SplitSegmentsFree(s: string, sep: char)
    ensures forall k :: 0 <= k < |Split(s, sep)| ==> sep !in Split(s, sep)[k]
    decreases |s|
  {
    match IndexOf(s, sep)
    case None =>
    case Some(i) =>
      SplitSegmentsFree(s[i + 1..], sep);
      var r := Split(s, sep);
      assert r == [s[..i]] + Split(s[i + 1..], sep);
      forall k | 0 <= k < |r| ensures sep !in r[k] {
        if k > 0 {
          assert r[k] == Split(s[i + 1..], sep)[k - 1];
        }
      }
  }

  /** `sep.join(ss)`. */
  function Join(ss: seq<string>, sep: string): string
  {
    if |ss| == 0 then ""
    else if |ss| == 1 then ss[0]
    else ss[0] + sep + Join(ss[1..], sep)
  }

  /** True when `p` is a prefix of `s`; `s.find(p) == 0` in the source. */
  predicate StartsWith(s: string, p: string) {
    |p| <= |s| && s[..|p|] == p
  }

  /** True when `s` ends with the character `c`. */
  predicate EndsWith(s: string, c: char) {
    |s| > 0 && s[|s| - 1] == c
  }

  /** `s.rstrip(c)`: the longest prefix of `s` that does not end in `c` and
      after which only `c`s follow. */
  function RStrip(s: string, c: char): string
  {
    if EndsWith(s, c) then RStrip(s[..|s| - 1], c) else s
  }

  /** What `RStrip` removes: a prefix of `s` remains, it does not end in `c`,
      and only `c`s followed it. */
  lemma {:induction false} RStripDrops(s: string, c: char)
    ensures StartsWith(s, RStrip(s, c)) && !EndsWith(RStrip(s, c), c)
    ensures forall k :: |RStrip(s, c)| <= k < |s| ==> s[k] == c
    decreases |s|
  {
    if EndsWith(s, c) {
      RStripDrops(s[..|s| - 1], c);
    }
  }

  /** `s.replace(a, b)` for single characters, as applied to the config path
      and to each part path at gmcollage.py:172. */
  function ReplaceChar(s: string, a: char, b: char): (r: string)
    ensures |r| == |s|
    ensures forall k :: 0 <= k < |s| ==> r[k] == (if s[k] == a then b else s[k])
  {
    if |s| == 0 then "" else [if s[0] == a then b else s[0]] + ReplaceChar(s[1..], a, b)
  }

  lemma {:induction false} ReplaceCharRemovesAll(s: string, a: char, b: char)
    requires a != b
    ensures a !in ReplaceChar(s, a, b)
    ensures ReplaceChar(ReplaceChar(s, a, b), a, b) == ReplaceChar(s, a, b)
  {
    var r := ReplaceChar(s, a, b);
    assert forall k :: 0 <= k < |r| ==> r[k] != a;
    var rr := ReplaceChar(r, a, b);
    assert forall k :: 0 <= k < |r| ==> rr[k] == r[k];
  }

  /** Joining the segments back with the separator gives the string again. */
  lemma {:induction false} JoinSplit(s: string, c: char)
    ensures Join(Split(s, c), [c]) == s
    decreases |s|
  {
    match IndexOf(s, c)
    case None =>
    case Some(i) =>
      var rest := s[i + 1..];
      var segs := Split(s, c);
      assert segs == [s[..i]] + Split(rest, c);
      assert Join(segs, [c]) == s[..i] + [c] + Join(Split(rest, c), [c]) by {
        assert segs[1..] == Split(rest, c);
      }
      JoinSplit(rest, c);
      assert s == s[..i] + [c] + rest;
  }

  /** The position `IndexOf` reports is the only first occurrence. */
  lemma IndexOfAt(s: string, c: char, i: nat)
    requires i < |s| && s[i] == c && c !in s[..i]
    ensures IndexOf(s, c) == Some(i)
  {
    var r := IndexOf(s, c);
    assert r.Some? by { assert s[i] in s; }
    var j := r.value;
    assert forall k :: 0 <= k < i ==> s[k] == s[..i][k];
    assert forall k :: 0 <= k < j ==> s[k] == s[..j][k];
  }

  /** Splitting a join of separator-free segments gives the segments again. */
  lemma {:induction false} SplitJoin(ss: seq<string>, c: char)
    requires |ss| >= 1
    requires forall k :: 0 <= k < |ss| ==> c !in ss[k]
    ensures Split(Join(ss, [c]), c) == ss
  {
    if |ss| == 1 {
      assert IndexOf(ss[0], c).None?;
    } else {
      var rest := Join(ss[1..], [c]);
      var s := ss[0] + [c] + rest;
      SplitConcat(ss[0], rest, c);
      SplitJoin(ss[1..], c);
      assert Split(ss[0], c) == [ss[0]] by { assert IndexOf(ss[0], c).None?; }
      assert ss == [ss[0]] + ss[1..];
    }
  }

  /** A separator between two strings splits exactly there. */
  lemma {:induction false} SplitConcat(x: string, y: string, c: char)
    ensures Split(x + [c] + y, c) == Split(x, c) + Split(y, c)
    decreases |x|
  {
    var s := x + [c] + y;
    match IndexOf(x, c)
    case None =>
      assert s[..|x|] == x;
      IndexOfAt(s, c, |x|);
      assert s[..|x|] == x && s[|x| + 1..] == y;
    case Some(i) =>
      assert s[..i] == x[..i];
      IndexOfAt(s, c, i);
      assert s[i + 1..] == x[i + 1..] + [c] + y;
      SplitConcat(x[i + 1..], y, c);
  }

  /** Join distributes over concatenation of non-empty segment lists. */
  lemma {:induction false} JoinConcat(u: seq<string>, v: seq<string>, sep: string)
    requires |u| >= 1 && |v| >= 1
    ensures Join(u + v, sep) == Join(u, sep) + sep + Join(v, sep)
  {
    if |u| == 1 {
      assert (u + v)[1..] == v;
    } else {
      assert (u + v)[1..] == u[1..] + v;
      JoinConcat(u[1..], v, sep);
    }
  }

  /** The first segment of a split is the prefix before the first separator. */
  lemma {:induction false} SplitFirst(s: string, c: char)
    ensures StartsWith(s, Split(s, c)[0])
    ensures |Split(s, c)[0]| == |s| || s[|Split(s, c)[0]|] == c
  {
  }

  /** The last segment of a split is the suffix after the last separator. */
  lemma {:induction false} SplitLast(s: string, c: char)
    ensures var segs := Split(s, c); var last := segs[|segs| - 1];
      |last| <= |s| && s[|s| - |last|..] == last &&
      (|last| == |s| || s[|s| - |last| - 1] == c)
    decreases |s|
  {
    match IndexOf(s, c)
    case None =>
    case Some(i) =>
      SplitLast(s[i + 1..], c);
  }

  /** One asset file move (`shutil.move`): from `src` to `dst`. */
  datatype Move = Move(src: string, dst: string)

  /** `m` takes a file from below `srcDir` to below `dstDir`, keeping the
      path under them. */
  predicate Relocates(m: Move, srcDir: string, dstDir: string) {
    StartsWith(m.src, srcDir) && StartsWith(m.dst, dstDir) && m.src[|srcDir|..] == m.dst[|dstDir|..]
  }

  /** The project directory as gmcollage.py:145 computes it AS WRITTEN: the
      directory segments are joined with "" instead of "/", and a bare file
      name yields "/" (the filesystem root). */
  function GmxDirectoryAsWritten(gmxPath: string): string {
    var segs := Split(gmxPath, '/');
    Join(segs[..|segs| - 1], "") + "/"
  }

  /** The directory the source evidently means at gmcollage.py:145: the
      prefix of the project path up to and including its last "/", or "" for
      a bare file name. */
  function DirectoryOf(gmxPath: string): (r: string)
    ensures r == "" || EndsWith(r, '/')
    ensures var segs := Split(gmxPath, '/'); r + segs[|segs| - 1] == gmxPath
  {
    var segs := Split(gmxPath, '/');
    var n := |segs|;
    if n == 1 then
      JoinSplit(gmxPath, '/');
      ""
    else
      JoinSplit(gmxPath, '/');
      JoinConcat(segs[..n - 1], [segs[n - 1]], "/");
      assert segs[..n - 1] + [segs[n - 1]] == segs;
      Join(segs[..n - 1], "/") + "/"
  }

  /** Splitting a string whose only separators are at the given positions. */
  lemma SplitAt(s: string, c: char, i: nat)
    requires i < |s| && s[i] == c && c !in s[..i]
    ensures Split(s, c) == [s[..i]] + Split(s[i + 1..], c)
  {
    IndexOfAt(s, c, i);
  }

  /** A string without the separator is its own only segment. */
  lemma SplitNone(s: string, c: char)
    requires c !in s
    ensures Split(s, c) == [s]
  {
  }

  /** For a project file two directories deep the two differ: the as-written
      directory loses the separator between the directory names (for
      "games/demo/demo.project.gmx" it is "gamesdemo/"); for a bare file name
      it is "/", the filesystem root, where the intended directory is "". */
  lemma GmxDirectoryLosesSeparators(d1: string, d2: string, f: string)
    requires '/' !in d1 && '/' !in d2 && '/' !in f && d1 != ""
    ensures GmxDirectoryAsWritten(d1 + "/" + d2 + "/" + f) == d1 + d2 + "/"
    ensures DirectoryOf(d1 + "/" + d2 + "/" + f) == d1 + "/" + d2 + "/"
    ensures GmxDirectoryAsWritten(d1 + "/" + d2 + "/" + f) != DirectoryOf(d1 + "/" + d2 + "/" + f)
    ensures GmxDirectoryAsWritten(f) == "/" && DirectoryOf(f) == ""
  {
    var segs := [d1, d2, f];
    assert Join(segs, "/") == d1 + "/" + d2 + "/" + f by {
      assert segs[1..] == [d2, f] && segs[1..][1..] == [f];
      assert Join([f], "/") == f;
      assert Join([d2, f], "/") == d2 + "/" + f;
      assert Join(segs, "/") == d1 + "/" + (d2 + "/" + f);
    }
    SplitJoin(segs, '/');
    assert segs[..2] == [d1, d2] && segs[..2][1..] == [d2];
    assert Join([d1, d2], "") == d1 + "" + d2;
    assert Join([d1, d2], "/") == d1 + "/" + d2;
    SplitNone(f, '/');
    var w := d1 + d2 + "/";
    var d := d1 + "/" + d2 + "/";
    if d2 == "" {
      assert |w| != |d|;
    } else {
      assert w[|d1|] == d2[0] && d[|d1|] == '/';
    }
  }

  /** A module's name in "out" mode: `path.split(".")[0]` (gmcollage.py:150),
      the config path up to its first dot. */
  function ConfigName(path: string): (r: string)
    ensures '.' !in r && StartsWith(path, r)
    ensures |r| == |path| || path[|r|] == '.'
  {
    SplitFirst(path, '.');
    Split(path, '.')[0]
  }

  /** A module's name in "in" mode: `directory.split("/")[-1]`
      (gmcollage.py:278), the directory path after its last slash. */
  function ModuleName(dir: string): (r: string)
    ensures '/' !in r && |r| <= |dir| && dir[|dir| - |r|..] == r
    ensures |r| == |dir| || dir[|dir| - |r| - 1] == '/'
  {
    SplitLast(dir, '/');
    SplitSegmentsFree(dir, '/');
    var segs := Split(dir, '/');
    segs[|segs| - 1]
  }
}
