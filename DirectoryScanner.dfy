/** The directory scanner: a sorted list of the image files of one directory
    and a cursor over it that steps forward and backward with wrap-around.

    The filesystem is an input: whether the path exists, whether it is a
    directory, and a `listing` that gives the immediate children of a
    directory in enumeration order. */
module Scanner {
  import opened Sorting

  /** A POSIX path, in its generic (slash-separated) form. */
  type Path = string

  /** One child reported by the directory iterator. */
  datatype DirEntry = DirEntry(path: Path, isRegularFile: bool)

  /** The allow-list of extensions, in lower case. */
  const SupportedExtensions: seq<string> := [".jpg", ".jpeg", ".png", ".bmp", ".tif", ".tiff", ".webp"]

  // ----- characters and case -----

  /** `tolower` in the "C" locale: only 'A'..'Z' change. */
  function ToLower(c: char): char
  {
    if 'A' <= c <= 'Z' then (c as int + 32) as char else c
  }

  function Lowercase(s: string): string
  {
    seq(|s|, i requires 0 <= i < |s| => ToLower(s[i]))
  }

  /** Case-insensitive equality, stated character by character. */
  predicate EqualsIgnoringCase(a: string, b: string)
  {
    |a| == |b| && forall i :: 0 <= i < |a| ==> ToLower(a[i]) == ToLower(b[i])
  }

  // ----- path decomposition -----

  /** Position of the last `c` in `s`, or -1 when there is none. */
  function LastIndexOf(s: string, c: char): (r: int)
    ensures -1 <= r < |s|
    ensures r >= 0 ==> s[r] == c
    ensures forall j :: r < j < |s| ==> s[j] != c
    decreases |s|
  {
    if |s| == 0 then -1
    else if s[|s| - 1] == c then |s| - 1
    else LastIndexOf(s[..|s| - 1], c)
  }

  /** `path::filename`: everything after the last separator. */
  function Filename(p: Path): (f: string)
    ensures |f| <= |p| && f == p[|p| - |f|..]
    ensures '/' !in f
    ensures |f| == |p| || p[|p| - |f| - 1] == '/'
  {
    var k := LastIndexOf(p, '/');
    p[k + 1..]
  }

  /** `path::extension`: from the last period of the file name to its end,
      except for the names "." and "..", a name without a period, and a name
      whose only period leads it (a hidden file such as ".png"). */
  function Extension(p: Path): (e: string)
    ensures |e| <= |p| && e == p[|p| - |e|..]
    ensures e != [] ==> e[0] == '.' && |e| < |Filename(p)|
    ensures forall i :: 0 < i < |e| ==> e[i] != '.' && e[i] != '/'
    ensures var f := Filename(p); f != ".." && (exists i :: 0 < i < |f| && f[i] == '.') ==> e != ""
    ensures Filename(p) == "." || Filename(p) == ".." ==> e == ""
  {
    var f := Filename(p);
    if f == "." || f == ".." then ""
    else
      var d := LastIndexOf(f, '.');
      if d <= 0 then "" else f[d..]
  }

  /** `path::parent_path`: everything before the last separator; the root
      "/" for a top-level entry and "" for a bare name. */
  function ParentPath(p: Path): (q: Path)
    ensures q == "" <==> '/' !in p
    ensures q == "/" ==> p[0] == '/' && forall j :: 2 <= j < |p| ==> p[j] != '/'
    ensures q != "" && q != "/" ==>
      |q| < |p| && p[..|q|] == q && p[|q|] == '/' && '/' !in p[|q| + 1..]
  {
    var k := LastIndexOf(p, '/');
    if k < 0 then "" else if k == 0 then "/" else p[..k]
  }

  /** `isSupported`: the lowercased extension is one of the allow-list. */
  predicate IsSupported(p: Path): (b: bool)
    ensures b ==> |p| > 0
  {
    var e := Extension(p);
    var l := Lowercase(e);
    assert l in SupportedExtensions ==> |l| >= 4 by {
      if l in SupportedExtensions {
        var k :| 0 <= k < |SupportedExtensions| && SupportedExtensions[k] == l;
      }
    }
    l in SupportedExtensions
  }

  lemma SupportedExtensionsAreLowercase(k: int, i: int)
    requires 0 <= k < |SupportedExtensions| && 0 <= i < |SupportedExtensions[k]|
    ensures ToLower(SupportedExtensions[k][i]) == SupportedExtensions[k][i]
  {
  }

  /** The allow-list test ignores case: a path is supported exactly when its
      extension equals one of the listed extensions up to case. */
  lemma IsSupportedIgnoresCase(p: Path)
    ensures IsSupported(p) <==>
      exists k :: 0 <= k < |SupportedExtensions| && EqualsIgnoringCase(Extension(p), SupportedExtensions[k])
  {
    var e := Extension(p);
    forall k | 0 <= k < |SupportedExtensions|
      ensures Lowercase(e) == SupportedExtensions[k] <==> EqualsIgnoringCase(e, SupportedExtensions[k])
    {
      var s := SupportedExtensions[k];
      if EqualsIgnoringCase(e, s) {
        forall i | 0 <= i < |s| ensures Lowercase(e)[i] == s[i] {
          SupportedExtensionsAreLowercase(k, i);
        }
      }
      if Lowercase(e) == s {
        forall i | 0 <= i < |e| ensures ToLower(e[i]) == ToLower(s[i]) {
          SupportedExtensionsAreLowercase(k, i);
        }
      }
    }
  }

  /** Two paths whose extensions differ only in case are both supported or both not. */
  lemma IsSupportedCaseInsensitive(p: Path, q: Path)
    requires EqualsIgnoringCase(Extension(p), Extension(q))
    ensures IsSupported(p) <==> IsSupported(q)
  {
    var a := Lowercase(Extension(p));
    var b := Lowercase(Extension(q));
    assert forall i :: 0 <= i < |a| ==> a[i] == b[i];
    assert a == b;
  }

  /** The extension of a supported path is a period and three or four characters. */
  lemma SupportedExtensionLength(p: Path)
    requires IsSupported(p)
    ensures 4 <= |Extension(p)| <= 5 && Extension(p)[0] == '.'
  {
    var e := Extension(p);
    var k :| 0 <= k < |SupportedExtensions| && SupportedExtensions[k] == Lowercase(e);
    assert |Lowercase(e)| == |e|;
    assert ToLower(e[0]) == SupportedExtensions[k][0];
  }

  // ----- the scan -----

  /** The entries the loop keeps: regular files with a supported extension. */
  predicate Admitted(e: DirEntry)
  {
    e.isRegularFile && IsSupported(e.path)
  }

  /** The paths the scan loop appends, in enumeration order. */
  function SupportedFiles(entries: seq<DirEntry>): (r: seq<Path>)
    ensures |r| <= |entries|
  {
    if entries == [] then []
    else
      var init := entries[..|entries| - 1];
      var last := entries[|entries| - 1];
      assert entries == init + [last];
      SupportedFiles(init) + (if Admitted(last) then [last.path] else [])
  }

  /** One more entry extends the collected paths by at most that entry's path. */
  lemma SupportedFilesSnoc(entries: seq<DirEntry>, i: int)
    requires 0 <= i < |entries|
    ensures SupportedFiles(entries[..i + 1]) ==
      SupportedFiles(entries[..i]) + (if Admitted(entries[i]) then [entries[i].path] else [])
  {
    assert entries[..i + 1][..i] == entries[..i];
  }

  /** The loop collects exactly the paths of the admitted entries. */
  lemma {:induction false} SupportedFilesMembers(entries: seq<DirEntry>)
    ensures forall p :: p in SupportedFiles(entries) <==> exists e :: e in entries && Admitted(e) && e.path == p
  {
    if entries != [] {
      var init := entries[..|entries| - 1];
      var last := entries[|entries| - 1];
      assert entries == init + [last];
      SupportedFilesMembers(init);
    }
  }

  /** A path is its parent joined to its file name by one separator. */
  lemma ParentJoinsFilename(p: Path)
    requires '/' in p
    ensures var q := ParentPath(p); q == "/" || q + "/" + Filename(p) == p
    ensures p[0] != '/' ==> ParentPath(p) + "/" + Filename(p) == p
  {
    var k := LastIndexOf(p, '/');
    assert p == p[..k] + "/" + p[k + 1..];
  }

  /** The directory that is scanned: the path itself, or its parent when it is not a directory. */
  function ScanRoot(filepath: Path, isDirectory: bool): (r: Path)
    ensures isDirectory ==> r == filepath
    ensures |r| <= |filepath|
  {
    if isDirectory then filepath else ParentPath(filepath)
  }

  /** The list a scan of `children` produces: sorted, and a permutation of
      what the scan loop collected. */
  function ImageList(children: seq<DirEntry>): (r: seq<Path>)
    ensures Sorted(r)
    ensures multiset(r) == multiset(SupportedFiles(children))
  {
    SortSorted(SupportedFiles(children));
    Sort(SupportedFiles(children))
  }

  /** The list holds exactly the admitted children; it is empty exactly when
      no child is admitted. */
  lemma ImageListMembers(children: seq<DirEntry>)
    ensures forall p :: p in ImageList(children) <==> exists e :: e in children && Admitted(e) && e.path == p
    ensures forall k :: 0 <= k < |ImageList(children)| ==> IsSupported(ImageList(children)[k])
    ensures ImageList(children) == [] <==> forall e :: e in children ==> !Admitted(e)
  {
    SupportedFilesMembers(children);
    var s := SupportedFiles(children);
    var r := ImageList(children);
    assert forall p :: p in r <==> p in s by {
      forall p ensures p in r <==> p in s {
        assert p in r <==> p in multiset(r);
        assert p in s <==> p in multiset(s);
      }
    }
    forall k | 0 <= k < |r| ensures IsSupported(r[k]) {
      assert r[k] in r;
    }
    if r == [] {
      assert |s| == |multiset(s)| == |multiset(r)| == 0;
      forall e | e in children ensures !Admitted(e) {
        assert e.path !in s;
      }
    } else {
      assert r[0] in r;
    }
  }

  /** Cutting a sequence at one position. */
  lemma SplitAt<T>(s: seq<T>, k: int)
    requires 0 <= k < |s|
    ensures s == s[..k] + [s[k]] + s[k + 1..]
    ensures multiset(s[..k] + s[k + 1..]) == multiset(s) - multiset{s[k]}
  {
    assert s == s[..k] + [s[k]] + s[k + 1..];
  }

  /** The scan of two listings one after the other is the two scans one after the other. */
  lemma {:induction false} SupportedFilesAppend(a: seq<DirEntry>, b: seq<DirEntry>)
    ensures SupportedFiles(a + b) == SupportedFiles(a) + SupportedFiles(b)
    decreases |b|
  {
    if b == [] {
      assert a + b == a;
    } else {
      var init := b[..|b| - 1];
      var last := b[|b| - 1];
      assert (a + b)[..|a + b| - 1] == a + init;
      assert (a + b)[|a + b| - 1] == last;
      var tail := if Admitted(last) then [last.path] else [];
      assert SupportedFiles(a + b) == SupportedFiles(a + init) + tail;
      assert SupportedFiles(b) == SupportedFiles(init) + tail;
      SupportedFilesAppend(a, init);
    }
  }

  /** Taking one entry out of a listing takes its path, if any, out of the scan. */
  lemma SupportedFilesRemove(b: seq<DirEntry>, k: int)
    requires 0 <= k < |b|
    ensures multiset(SupportedFiles(b)) ==
      multiset(SupportedFiles(b[..k] + b[k + 1..])) + multiset(SupportedFiles([b[k]]))
  {
    SplitAt(b, k);
    SupportedFilesAppend(b[..k], [b[k]]);
    SupportedFilesAppend(b[..k] + [b[k]], b[k + 1..]);
    SupportedFilesAppend(b[..k], b[k + 1..]);
  }

  /** Listings with the same entries, in whatever order, yield the same paths
      up to order. */
  lemma {:induction false} SupportedFilesPermutation(a: seq<DirEntry>, b: seq<DirEntry>)
    requires multiset(a) == multiset(b)
    ensures multiset(SupportedFiles(a)) == multiset(SupportedFiles(b))
    decreases |a|
  {
    if a == [] {
      assert |b| == |multiset(b)| == 0;
    } else {
      assert a[0] in multiset(b);
      var k :| 0 <= k < |b| && b[k] == a[0];
      SplitAt(a, 0);
      SplitAt(b, k);
      SupportedFilesPermutation(a[..0] + a[1..], b[..k] + b[k + 1..]);
      SupportedFilesRemove(a, 0);
      SupportedFilesRemove(b, k);
    }
  }

  /** The list does not depend on the order in which the file system
      enumerates the directory. */
  lemma ImageListOrderIndependent(a: seq<DirEntry>, b: seq<DirEntry>)
    requires multiset(a) == multiset(b)
    ensures ImageList(a) == ImageList(b)
  {
    SupportedFilesPermutation(a, b);
    SortedUnique(ImageList(a), ImageList(b));
  }

  /** `std::find`: the first position of `x` in `s`, or `|s|` when absent. */
  function IndexOf(s: seq<Path>, x: Path): (r: nat)
    ensures r <= |s|
    ensures r < |s| ==> s[r] == x
    ensures forall j :: 0 <= j < r ==> s[j] != x
  {
    if s == [] then 0
    else if s[0] == x then 0
    else 1 + IndexOf(s[1..], x)
  }

  /** The cursor after a successful open: the position of the given file, or 0. */
  function StartIndex(files: seq<Path>, filepath: Path, isDirectory: bool): (r: int)
    requires files != []
    ensures 0 <= r < |files|
    ensures !isDirectory && filepath in files ==>
      files[r] == filepath && forall j :: 0 <= j < r ==> files[j] != filepath
    ensures isDirectory || filepath !in files ==> r == 0
  {
    if !isDirectory && IndexOf(files, filepath) < |files| then IndexOf(files, filepath) else 0
  }

  // ----- stepping -----

  /** `next`: one step forward, the last position wrapping to the first. */
  function NextIndex(i: int, n: int): (r: int)
    requires 0 <= i < n
    ensures 0 <= r < n
    ensures r == if i == n - 1 then 0 else i + 1
  {
    (i + 1) % n
  }

  /** `previous`: one step back, the first position wrapping to the last. */
  function PrevIndex(i: int, n: int): (r: int)
    requires 0 <= i < n
    ensures 0 <= r < n
  {
    if i - 1 < 0 then n - 1 else i - 1
  }

  lemma PrevUndoesNext(i: int, n: int)
    requires 0 <= i < n
    ensures PrevIndex(NextIndex(i, n), n) == i
  {
  }

  lemma NextUndoesPrev(i: int, n: int)
    requires 0 <= i < n
    ensures NextIndex(PrevIndex(i, n), n) == i
  {
  }

  /** The cursor after `k` calls to `next` from `i`. */
  function Advance(i: int, k: nat, n: int): (r: int)
    requires 0 <= i < n
    ensures 0 <= r < n
  {
    if k == 0 then i else NextIndex(Advance(i, k - 1, n), n)
  }

  lemma {:induction false} AdvanceWithoutWrap(i: int, k: nat, n: int)
    requires 0 <= i && i + k < n
    ensures Advance(i, k, n) == i + k
  {
    if k > 0 { AdvanceWithoutWrap(i, k - 1, n); }
  }

  lemma {:induction false} AdvanceAdd(i: int, a: nat, b: nat, n: int)
    requires 0 <= i < n
    ensures Advance(i, a + b, n) == Advance(Advance(i, a, n), b, n)
  {
    if b > 0 { AdvanceAdd(i, a, b - 1, n); }
  }

  /** `n` calls to `next` on a list of `n` entries return to the start. */
  lemma AdvanceFullCircle(i: int, n: int)
    requires 0 <= i < n
    ensures Advance(i, n, n) == i
  {
    AdvanceWithoutWrap(i, n - 1 - i, n);
    AdvanceAdd(i, n - 1 - i, 1, n);
    AdvanceAdd(i, n - i, i, n);
    AdvanceWithoutWrap(0, i, n);
  }

  class DirectoryScanner {
    var imageFiles: seq<Path>
    var currentIndex: int

    /** The cursor is a position of a non-empty list; on an empty list it
        may be -1 (never opened) or left stale by a scan that found nothing. */
    ghost predicate Valid()
      reads this
    {
      -1 <= currentIndex &&
      (imageFiles != [] ==> 0 <= currentIndex < |imageFiles|) &&
      (forall k :: 0 <= k < |imageFiles| ==> IsSupported(imageFiles[k]))
    }

    constructor ()
      ensures Valid()
      ensures imageFiles == [] && currentIndex == -1
    {
      imageFiles := [];
      currentIndex := -1;
    }

    /** The scan loop of `openDirectory`: clears the list and appends, in
        enumeration order, every regular file with a supported extension. */
    method CollectSupported(entries: seq<DirEntry>)
      modifies this`imageFiles
      ensures imageFiles == SupportedFiles(entries)
    {
      imageFiles := [];
      var i := 0;
      while i < |entries|
        invariant 0 <= i <= |entries|
        invariant imageFiles == SupportedFiles(entries[..i])
      {
        var entry := entries[i];
        SupportedFilesSnoc(entries, i);
        if Admitted(entry) {
          imageFiles := imageFiles + [entry.path];
        }
        i := i + 1;
      }
      assert entries[..|entries|] == entries;
    }

    /** `openDirectory`: rebuilds the list from the scan root and places the cursor. */
    method OpenDirectory(filepath: Path, pathExists: bool, isDirectory: bool, listing: Path -> seq<DirEntry>)
      returns (ok: bool)
      requires Valid()
      modifies this
      ensures Valid()
      ensures !pathExists ==> !ok && imageFiles == old(imageFiles) && currentIndex == old(currentIndex)
      ensures pathExists ==> imageFiles == ImageList(listing(ScanRoot(filepath, isDirectory)))
      ensures pathExists ==> (forall p :: p in imageFiles <==>
        exists e :: e in listing(ScanRoot(filepath, isDirectory)) && Admitted(e) && e.path == p)
      ensures pathExists ==> (ok <==> imageFiles != [])
      ensures ok ==> currentIndex == StartIndex(imageFiles, filepath, isDirectory)
      ensures !ok ==> currentIndex == old(currentIndex)
    {
      if !pathExists {
        return false;
      }
      var dir := ScanRoot(filepath, isDirectory);
      var entries := listing(dir);
      CollectSupported(entries);
      ImageListMembers(entries);
      if imageFiles == [] {
        assert imageFiles == ImageList(entries);
        return false;
      }
      imageFiles := Sort(imageFiles);
      assert imageFiles == ImageList(entries);

      currentIndex := 0;
      if !isDirectory {
        var it := IndexOf(imageFiles, filepath);
        if it < |imageFiles| {
          currentIndex := it;
        }
      }
      return true;
    }

    /** `next`: steps forward with wrap-around and returns the new entry;
        an empty list gives the empty path and keeps the cursor. */
    method Next() returns (p: Path)
      requires Valid()
      modifies this`currentIndex
      ensures Valid()
      ensures old(imageFiles) == [] ==> p == "" && currentIndex == old(currentIndex)
      ensures old(imageFiles) != [] ==>
        currentIndex == NextIndex(old(currentIndex), |imageFiles|) && p == imageFiles[currentIndex] && p != ""
    {
      if imageFiles == [] {
        return "";
      }
      currentIndex := (currentIndex + 1) % |imageFiles|;
      p := imageFiles[currentIndex];
    }

    /** `previous`: steps back with wrap-around and returns the new entry;
        an empty list gives the empty path and keeps the cursor. */
    method Previous() returns (p: Path)
      requires Valid()
      modifies this`currentIndex
      ensures Valid()
      ensures old(imageFiles) == [] ==> p == "" && currentIndex == old(currentIndex)
      ensures old(imageFiles) != [] ==>
        currentIndex == PrevIndex(old(currentIndex), |imageFiles|) && p == imageFiles[currentIndex] && p != ""
    {
      if imageFiles == [] {
        return "";
      }
      currentIndex := currentIndex - 1;
      if currentIndex < 0 {
        currentIndex := |imageFiles| - 1;
      }
      p := imageFiles[currentIndex];
    }

    /** `current`: the entry under the cursor, or the empty path. */
    function Current(): (p: Path)
      reads this
      requires Valid()
      ensures imageFiles == [] || currentIndex < 0 ==> p == ""
      ensures imageFiles != [] ==> p in imageFiles && p != "" && p == imageFiles[currentIndex]
    {
      if imageFiles == [] || currentIndex < 0 then ""
      else imageFiles[currentIndex]
    }
  }
}
