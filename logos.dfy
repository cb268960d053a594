/** rename_logos.py: the extension filter, the extension-list argument, the
    logo<w>x<h>.png name, the search for a free target name, and the per-file
    and whole-run decisions. The file system is a class holding the set of
    files; the directories and the images PIL can open (with their sizes) are
    fixed values of it. */
module Logos {
  import opened Common
  import opened Paths
  import opened Roster

  // ---------------------------------------------------------------- extensions

  /** '.' + e.lower().lstrip('.'). */
  function NormalizeExt(e: string): (r: string)
    ensures r != [] && r[0] == '.'
    ensures |r| == 1 || r[1] != '.'
  {
    "." + LStripChar(Lower(e), '.')
  }

  lemma LowerIdempotent(s: string)
    ensures Lower(Lower(s)) == Lower(s)
  {
  }

  lemma LowerIsLowerCase(s: string)
    ensures IsLowerCase(Lower(s))
  {
  }

  lemma LStripCharOnce(x: string, c: char)
    ensures LStripChar([c] + x, c) == LStripChar(x, c)
  {
    assert ([c] + x)[1..] == x;
  }

  /** What is left after the leading dots of a lower-cased string is lower-case. */
  lemma StrippedLowerIsLowerCase(e: string)
    ensures IsLowerCase(LStripChar(Lower(e), '.'))
  {
    var l := Lower(e);
    var x := LStripChar(l, '.');
    LowerIsLowerCase(e);
    SuffixIsLowerCase(l, |l| - |x|);
  }

  lemma SuffixIsLowerCase(s: string, i: nat)
    requires IsLowerCase(s) && i <= |s|
    ensures IsLowerCase(s[i..])
  {
    assert forall k :: 0 <= k < |s| - i ==> s[i..][k] == s[i + k];
  }

  /** The normalised extension is lower-case. */
  lemma NormalizeExtLowerCase(e: string)
    ensures IsLowerCase(NormalizeExt(e))
  {
    StrippedLowerIsLowerCase(e);
  }

  /** Normalising twice is normalising once. */
  lemma NormalizeExtIdempotent(e: string)
    ensures NormalizeExt(NormalizeExt(e)) == NormalizeExt(e)
  {
    var x := LStripChar(Lower(e), '.');
    NormalizeExtLowerCase(e);
    LowerOfLowerCase("." + x);
    LStripCharOnce(x, '.');
  }

  /** A leading dot in the requested extension makes no difference. */
  lemma NormalizeExtIgnoresDot(e: string)
    ensures NormalizeExt("." + e) == NormalizeExt(e)
  {
    LowerAppend(".", e);
    assert Lower(".") == ".";
    LStripCharOnce(Lower(e), '.');
  }

  /** The letter case of the requested extension makes no difference. */
  lemma NormalizeExtIgnoresCase(e: string)
    ensures NormalizeExt(Lower(e)) == NormalizeExt(e)
  {
    LowerIdempotent(e);
  }

  /** tuple('.' + e.lower().lstrip('.') for e in exts). */
  function NormalizeExts(exts: seq<string>): (r: seq<string>)
    ensures |r| == |exts|
    ensures forall k :: 0 <= k < |exts| ==> r[k] == NormalizeExt(exts[k])
  {
    seq(|exts|, k requires 0 <= k < |exts| => NormalizeExt(exts[k]))
  }

  /** f.lower().endswith(exts): the lower-cased name ends with one of them. */
  predicate MatchesExt(name: string, exts: seq<string>)
  {
    exists k :: 0 <= k < |exts| && EndsWith(Lower(name), exts[k])
  }

  /** The file filter of find_image_files for the requested extensions. */
  predicate IsWanted(name: string, exts: seq<string>)
  {
    MatchesExt(name, NormalizeExts(exts))
  }

  /** Matching ignores the letter case of the file name and of the requested extensions. */
  lemma IsWantedIgnoresCase(name: string, exts: seq<string>)
    ensures IsWanted(Lower(name), exts) == IsWanted(name, exts)
    ensures IsWanted(name, exts) <==> exists k :: 0 <= k < |exts| && EndsWith(Lower(name), NormalizeExt(Lower(exts[k])))
  {
    LowerIdempotent(name);
    forall k | 0 <= k < |exts| ensures NormalizeExt(Lower(exts[k])) == NormalizeExt(exts[k]) {
      NormalizeExtIgnoresCase(exts[k]);
    }
  }

  /** A name ending in "." + e, in any letter case, is wanted when e is requested. */
  lemma IsWantedBySuffix(stem: string, e: string, exts: seq<string>)
    requires e in exts && e != [] && e[0] != '.'
    ensures IsWanted(stem + "." + e, exts)
    ensures IsWanted(Lower(stem + "." + e), exts)
  {
    var k :| 0 <= k < |exts| && exts[k] == e;
    var name := stem + "." + e;
    LowerAppend(stem + ".", e);
    LowerAppend(stem, ".");
    assert Lower(".") == ".";
    var le := Lower(e);
    assert le[0] != '.';
    assert LStripChar(le, '.') == le;
    assert Lower(name) == Lower(stem) + NormalizeExt(e);
    EndsWithAppend(Lower(stem), NormalizeExt(e));
    IsWantedIgnoresCase(name, exts);
  }

  // ---------------------------------------------------------------- extension list

  /** [x.strip() for x in arg.split(',') if x.strip()]. */
  function ParseExtList(arg: string): seq<string>
  {
    NonEmptyImages(Split(arg, ','), Strip)
  }

  /** The argument's default value. */
  const DefaultExtArg := "png,jpg,jpeg,gif,bmp,webp"

  /** Every item of the list is non-empty, stripped and free of commas. */
  lemma ParseExtListItems(arg: string)
    ensures forall k :: 0 <= k < |ParseExtList(arg)| ==>
      var e := ParseExtList(arg)[k]; e != "" && IsStripped(e) && ',' !in e
  {
    var parts := Split(arg, ',');
    var items := ParseExtList(arg);
    forall k | 0 <= k < |items| ensures items[k] != "" && IsStripped(items[k]) && ',' !in items[k] {
      NonEmptyImagesMembers(parts, Strip, items[k]);
      var j :| 0 <= j < |parts| && Strip(parts[j]) == items[k];
      StripKeepsOut(parts[j], ',');
    }
  }

  /** A comma-joined list of such items parses back into the same list. */
  lemma ParseExtListRoundTrip(items: seq<string>)
    requires |items| >= 1
    requires forall k :: 0 <= k < |items| ==> items[k] != "" && IsStripped(items[k]) && ',' !in items[k]
    ensures ParseExtList(Join(items, ',')) == items
  {
    SplitJoin(items, ',');
    forall k | 0 <= k < |items| ensures Strip(items[k]) == items[k] {
      StrippedIsFixed(items[k]);
    }
    NonEmptyImagesFixed(items, Strip);
  }

  // ---------------------------------------------------------------- file search

  /** The elements kept by `keep`, each mapped by f, in order. */
  function Selected(xs: seq<string>, keep: string -> bool, f: string -> string): (r: seq<string>)
    ensures |r| <= |xs|
  {
    if xs == [] then []
    else
      var n := |xs| - 1;
      Selected(xs[..n], keep, f) + (if keep(xs[n]) then [f(xs[n])] else [])
  }

  /** Position k of xs is kept and its image is y. */
  predicate PicksAt(xs: seq<string>, keep: string -> bool, f: string -> string, y: string, k: int)
  {
    0 <= k < |xs| && keep(xs[k]) && f(xs[k]) == y
  }

  lemma {:induction false} SelectedMembers(xs: seq<string>, keep: string -> bool, f: string -> string, y: string)
    ensures y in Selected(xs, keep, f) <==> exists k :: PicksAt(xs, keep, f, y, k)
  {
    if xs != [] {
      var n := |xs| - 1;
      var init := xs[..n];
      SelectedMembers(init, keep, f, y);
      assert Selected(xs, keep, f) == Selected(init, keep, f) + (if keep(xs[n]) then [f(xs[n])] else []);
      if keep(xs[n]) && f(xs[n]) == y {
        assert PicksAt(xs, keep, f, y, n);
      }
      if exists k :: PicksAt(xs, keep, f, y, k) {
        var k :| PicksAt(xs, keep, f, y, k);
        if k < n {
          assert init[k] == xs[k];
          assert PicksAt(init, keep, f, y, k);
        }
      }
      if exists k :: PicksAt(init, keep, f, y, k) {
        var k :| PicksAt(init, keep, f, y, k);
        assert xs[k] == init[k];
        assert PicksAt(xs, keep, f, y, k);
      }
    }
  }

  /** find_image_files without recursion: the entries of os.listdir(dir), in
      listing order, that are files with a wanted name, joined to dir. */
  function FindFlat(dir: string, names: seq<string>, files: set<string>, exts: seq<string>): seq<string>
  {
    Selected(names, f => PathJoin(dir, f) in files && IsWanted(f, exts), f => PathJoin(dir, f))
  }

  /** find_image_files with recursion, over os.walk's (root, file names) pairs in walk order. */
  function FindWalk(walk: seq<(string, seq<string>)>, exts: seq<string>): seq<string>
  {
    FlatMap(walk, entry => EntryFiles(entry, exts))
  }

  /** The wanted files of one walk entry, joined to its root. */
  function EntryFiles(entry: (string, seq<string>), exts: seq<string>): seq<string>
  {
    Selected(entry.1, f => IsWanted(f, exts), f => PathJoin(entry.0, f))
  }

  /** g applied to every element, the results concatenated in order. */
  function FlatMap<E>(xs: seq<E>, g: E -> seq<string>): seq<string>
  {
    if xs == [] then [] else FlatMap(xs[..|xs| - 1], g) + g(xs[|xs| - 1])
  }

  lemma {:induction false} FlatMapMembers<E>(xs: seq<E>, g: E -> seq<string>, p: string)
    ensures p in FlatMap(xs, g) <==> exists i :: 0 <= i < |xs| && p in g(xs[i])
  {
    if xs != [] {
      var n := |xs| - 1;
      var init := xs[..n];
      FlatMapMembers(init, g, p);
      assert FlatMap(xs, g) == FlatMap(init, g) + g(xs[n]);
      assert p in FlatMap(xs, g) <==> p in FlatMap(init, g) || p in g(xs[n]);
      if exists i :: 0 <= i < |xs| && p in g(xs[i]) {
        var i :| 0 <= i < |xs| && p in g(xs[i]);
        if i < n {
          assert init[i] == xs[i];
        }
      }
      if exists i :: 0 <= i < n && p in g(init[i]) {
        var i :| 0 <= i < n && p in g(init[i]);
        assert xs[i] == init[i];
      }
    }
  }

  lemma FindFlatMembers(dir: string, names: seq<string>, files: set<string>, exts: seq<string>, p: string)
    ensures p in FindFlat(dir, names, files, exts) <==>
      exists k :: 0 <= k < |names| && p == PathJoin(dir, names[k]) && p in files && IsWanted(names[k], exts)
  {
    var keep := f => PathJoin(dir, f) in files && IsWanted(f, exts);
    var join := f => PathJoin(dir, f);
    SelectedMembers(names, keep, join, p);
    assert forall k :: PicksAt(names, keep, join, p, k) <==>
      0 <= k < |names| && p == PathJoin(dir, names[k]) && p in files && IsWanted(names[k], exts);
  }

  /** One walk entry yields p: p is its root joined to one of its wanted file names. */
  predicate EntryYields(entry: (string, seq<string>), exts: seq<string>, p: string)
  {
    exists k :: 0 <= k < |entry.1| && IsWanted(entry.1[k], exts) && PathJoin(entry.0, entry.1[k]) == p
  }

  lemma FindWalkMembers(walk: seq<(string, seq<string>)>, exts: seq<string>, p: string)
    ensures p in FindWalk(walk, exts) <==> exists i :: 0 <= i < |walk| && EntryYields(walk[i], exts, p)
  {
    FlatMapMembers(walk, entry => EntryFiles(entry, exts), p);
    forall i | 0 <= i < |walk| ensures p in EntryFiles(walk[i], exts) <==> EntryYields(walk[i], exts, p) {
      EntryFilesMembers(walk[i], exts, p);
    }
  }

  lemma EntryFilesMembers(entry: (string, seq<string>), exts: seq<string>, p: string)
    ensures p in EntryFiles(entry, exts) <==> EntryYields(entry, exts, p)
  {
    var keep := f => IsWanted(f, exts);
    var join := f => PathJoin(entry.0, f);
    SelectedMembers(entry.1, keep, join, p);
    assert forall k :: PicksAt(entry.1, keep, join, p, k) <==>
      0 <= k < |entry.1| && IsWanted(entry.1[k], exts) && PathJoin(entry.0, entry.1[k]) == p;
  }

  // ---------------------------------------------------------------- names

  /** f"logo{w}x{h}.png". */
  function LogoName(w: nat, h: nat): string
  {
    "logo" + NatToString(w) + "x" + NatToString(h) + ".png"
  }

  /** splitext takes ".png" off a logo name. */
  lemma LogoNameSplitExt(w: nat, h: nat)
    ensures SplitExt(LogoName(w, h)) == ("logo" + NatToString(w) + "x" + NatToString(h), ".png")
  {
    var stem := "logo" + NatToString(w) + "x" + NatToString(h);
    var hs := NatToString(h);
    assert stem[|stem| - 1] == hs[|hs| - 1];
    assert LogoName(w, h) == stem + ".png";
    assert ".png"[1..] == "png";
    SplitExtOfStem(stem, ".png");
  }

  /** Two digit strings followed by "x" agree when the whole strings do. */
  lemma DigitsBeforeX(a: string, b: string, c: string, d: string)
    requires IsDecimal(a) && IsDecimal(c)
    requires a + "x" + b == c + "x" + d
    ensures a == c && b == d
  {
    var s := a + "x" + b;
    var t := c + "x" + d;
    assert s[|a|] == 'x' && t[|c|] == 'x';
    assert forall k :: 0 <= k < |a| ==> s[k] == a[k];
    assert forall k :: 0 <= k < |c| ==> t[k] == c[k];
    assert |a| == |c|;
    assert a == s[..|a|] && c == t[..|c|];
    assert b == s[|a| + 1..] && d == t[|c| + 1..];
  }

  /** Different sizes give different logo names. */
  lemma LogoNameInjective(w1: nat, h1: nat, w2: nat, h2: nat)
    requires LogoName(w1, h1) == LogoName(w2, h2)
    ensures w1 == w2 && h1 == h2
  {
    var a, b := NatToString(w1), NatToString(h1);
    var c, d := NatToString(w2), NatToString(h2);
    assert "logo" + (a + "x" + b) + ".png" == LogoName(w1, h1);
    assert "logo" + (c + "x" + d) + ".png" == LogoName(w2, h2);
    CancelAround("logo", a + "x" + b, c + "x" + d, ".png");
    DigitsBeforeX(a, b, c, d);
    NatToStringInjective(w1, w2);
    NatToStringInjective(h1, h2);
  }

  /** f"{name}_{i}{ext}" joined to dirpath, for the splitext parts of base_name. */
  function SuffixedPath(dirpath: string, baseName: string, i: nat): string
  {
    var (name, ext) := SplitExt(baseName);
    PathJoin(dirpath, name + "_" + NatToString(i) + ext)
  }

  /** Different suffixes give different paths, and none is the unsuffixed path. */
  lemma SuffixedPathDistinct(dirpath: string, baseName: string, i: nat, j: nat)
    ensures SuffixedPath(dirpath, baseName, i) == SuffixedPath(dirpath, baseName, j) ==> i == j
    ensures SuffixedPath(dirpath, baseName, i) != PathJoin(dirpath, baseName)
  {
    var (name, ext) := SplitExt(baseName);
    var x := name + "_" + NatToString(i) + ext;
    var y := name + "_" + NatToString(j) + ext;
    assert x[0] == y[0] == (name + "_")[0];
    if SuffixedPath(dirpath, baseName, i) == SuffixedPath(dirpath, baseName, j) {
      PathJoinInjective(dirpath, x, y);
      CancelAround(name + "_", NatToString(i), NatToString(j), ext);
      NatToStringInjective(i, j);
    }
    assert StartsWith(x, "/") == StartsWith(baseName, "/") by {
      if name == [] {
        assert x[0] == '_';
        assert baseName == ext;
      } else {
        assert x[0] == name[0] == baseName[0];
      }
    }
    assert |x| > |name + ext|;
    PathJoinInjective(dirpath, x, baseName);
  }

  /** The k-th path unique_target_path tries: the plain path for k = 0, suffix k after it. */
  function Candidate(dirpath: string, baseName: string, k: nat): string
  {
    if k == 0 then PathJoin(dirpath, baseName) else SuffixedPath(dirpath, baseName, k)
  }

  /** No path is tried twice. */
  lemma CandidatesDistinct(dirpath: string, baseName: string, a: nat, b: nat)
    ensures Candidate(dirpath, baseName, a) == Candidate(dirpath, baseName, b) ==> a == b
  {
    if a != 0 {
      SuffixedPathDistinct(dirpath, baseName, a, b);
    } else if b != 0 {
      SuffixedPathDistinct(dirpath, baseName, b, a);
    }
  }

  /** The values of f below n. */
  ghost function Image(f: nat -> string, n: nat): set<string>
  {
    if n == 0 then {} else Image(f, n - 1) + {f(n - 1)}
  }

  /** An injective f has n different values below n, none of them taken again later. */
  lemma {:induction false} ImageSize(f: nat -> string, n: nat)
    requires forall a: nat, b: nat :: f(a) == f(b) ==> a == b
    ensures |Image(f, n)| == n
    ensures forall m: nat :: m >= n ==> f(m) !in Image(f, n)
  {
    if n > 0 {
      ImageSize(f, n - 1);
    }
  }

  lemma {:induction false} ImageSubset(f: nat -> string, n: nat, s: set<string>)
    requires forall k: nat :: k < n ==> f(k) in s
    ensures Image(f, n) <= s
  {
    if n > 0 {
      ImageSubset(f, n - 1, s);
    }
  }

  /** A set holding n different values has at least n elements. */
  lemma ImageWithin(f: nat -> string, n: nat, s: set<string>)
    requires forall a: nat, b: nat :: f(a) == f(b) ==> a == b
    requires forall k: nat :: k < n ==> f(k) in s
    ensures n <= |s|
  {
    ImageSize(f, n);
    ImageSubset(f, n, s);
    SubsetSize(Image(f, n), s);
  }

  /** The first n candidates all exist already. */
  predicate AllTaken(dirpath: string, baseName: string, n: nat, existing: set<string>)
  {
    forall k: nat :: k < n ==> Candidate(dirpath, baseName, k) in existing
  }

  lemma AllTakenStep(dirpath: string, baseName: string, n: nat, existing: set<string>)
    requires AllTaken(dirpath, baseName, n, existing)
    requires Candidate(dirpath, baseName, n) in existing
    ensures AllTaken(dirpath, baseName, n + 1, existing)
  {
  }

  /** When the first n candidates all exist, there are at least n existing paths. */
  lemma CandidateCount(dirpath: string, baseName: string, n: nat, existing: set<string>)
    requires AllTaken(dirpath, baseName, n, existing)
    ensures n <= |existing|
  {
    var tried: nat -> string := (k: nat) => Candidate(dirpath, baseName, k);
    forall a: nat, b: nat ensures tried(a) == tried(b) ==> a == b {
      CandidatesDistinct(dirpath, baseName, a, b);
    }
    ImageWithin(tried, n, existing);
  }

  /** unique_target_path: dirpath/base_name when it does not exist, otherwise
      dirpath/name_i.ext for the smallest i >= 1 that does not exist: the first
      candidate that does not exist. The search ends within |existing| suffixes
      because the candidates are all different. */
  method UniqueTargetPath(dirpath: string, baseName: string, existing: set<string>) returns (target: string)
    ensures target !in existing
    ensures PathJoin(dirpath, baseName) !in existing ==> target == PathJoin(dirpath, baseName)
    ensures exists i: nat :: i <= |existing| && target == Candidate(dirpath, baseName, i) &&
                             AllTaken(dirpath, baseName, i, existing)
  {
    var candidate := PathJoin(dirpath, baseName);
    assert candidate == Candidate(dirpath, baseName, 0);
    assert AllTaken(dirpath, baseName, 0, existing);
    if candidate !in existing {
      return candidate;
    }
    AllTakenStep(dirpath, baseName, 0, existing);
    var i := 1;
    CandidateCount(dirpath, baseName, 1, existing);
    while true
      invariant 1 <= i <= |existing|
      invariant AllTaken(dirpath, baseName, i, existing)
      decreases |existing| - i
    {
      candidate := SuffixedPath(dirpath, baseName, i);
      assert candidate == Candidate(dirpath, baseName, i);
      if candidate !in existing {
        return candidate;
      }
      AllTakenStep(dirpath, baseName, i, existing);
      CandidateCount(dirpath, baseName, i + 1, existing);
      i := i + 1;
    }
  }

  /** The candidate unique_target_path settles on when the candidates before
      the i-th are all taken: the first one from the i-th on that is free. */
  function FreeTarget(dirpath: string, baseName: string, existing: set<string>, i: nat): (t: string)
    requires AllTaken(dirpath, baseName, i, existing)
    ensures t !in existing
    decreases |existing| - i
  {
    CandidateCount(dirpath, baseName, i, existing);
    var c := Candidate(dirpath, baseName, i);
    if c !in existing then c
    else
      AllTakenStep(dirpath, baseName, i, existing);
      CandidateCount(dirpath, baseName, i + 1, existing);
      FreeTarget(dirpath, baseName, existing, i + 1)
  }

  /** A free candidate with every earlier candidate taken is the one FreeTarget
      picks, from any earlier start. */
  lemma {:induction false} FreeTargetFrom(dirpath: string, baseName: string, existing: set<string>, j: nat, i: nat)
    requires j <= i
    requires AllTaken(dirpath, baseName, i, existing) && Candidate(dirpath, baseName, i) !in existing
    ensures AllTaken(dirpath, baseName, j, existing)
    ensures FreeTarget(dirpath, baseName, existing, j) == Candidate(dirpath, baseName, i)
    decreases i - j
  {
    if j < i {
      assert Candidate(dirpath, baseName, j) in existing;
      FreeTargetFrom(dirpath, baseName, existing, j + 1, i);
    }
  }

  lemma SubsetSize(a: set<string>, b: set<string>)
    requires a <= b
    ensures |a| <= |b|
  {
    assert b == a + (b - a);
  }

  // ---------------------------------------------------------------- processing

  /** How main ended: the target is not a directory, no file matched, or the files were processed. */
  datatype RenameRun = NoTargetDir | NoImages | Processed(found: seq<string>, success: nat)

  /** The number of paths PIL can open. */
  function Openable(paths: seq<string>, sizes: map<string, (nat, nat)>): (n: nat)
    ensures n <= |paths|
  {
    if paths == [] then 0
    else Openable(paths[..|paths| - 1], sizes) + (if paths[|paths| - 1] in sizes then 1 else 0)
  }

  /** The path already is dirname(path) joined to the logo name for its size. */
  predicate AlreadyNamed(path: string, size: (nat, nat))
  {
    PathJoin(Dirname(path), LogoName(size.0, size.1)) == path
  }

  lemma NoSlashInLogoName(w: nat, h: nat)
    ensures '/' !in LogoName(w, h)
  {
    var a, b := NatToString(w), NatToString(h);
    assert '/' !in a && '/' !in b;
    assert LogoName(w, h) == "logo" + a + "x" + b + ".png";
  }

  /** A file named logo<w>x<h>.png inside a directory is AlreadyNamed for the
      size (w, h): its own path is the first candidate unique_target_path tries. */
  lemma LogoNamedFileIsCandidate(dir: string, w: nat, h: nat)
    requires dir == "" || dir[|dir| - 1] != '/'
    ensures AlreadyNamed(PathJoin(dir, LogoName(w, h)), (w, h))
  {
    NoSlashInLogoName(w, h);
    DirnameBasenameOfJoin(dir, LogoName(w, h));
  }

  /** The target process_file picks for an image of the given size: its logo
      name in its directory, made unique among the files and directories. */
  function TargetOf(path: string, size: (nat, nat), existing: set<string>): (t: string)
    ensures t !in existing
  {
    FreeTarget(Dirname(path), LogoName(size.0, size.1), existing, 0)
  }

  /** The files after process_file as written on `path`, outside a dry run: an
      existing image gains its target and, when asked, loses itself; anything
      else leaves the files as they are. */
  function AfterProcess(files: set<string>, dirs: set<string>, sizes: map<string, (nat, nat)>,
                        path: string, deleteOriginal: bool): set<string>
  {
    if path in files && path in sizes then
      (files + {TargetOf(path, sizes[path], files + dirs)}) - (if deleteOriginal then {path} else {})
    else files
  }

  /** A step as process_file states it is the step AfterProcess describes. */
  lemma ProcessStep(before: set<string>, after: set<string>, dirs: set<string>, sizes: map<string, (nat, nat)>,
                    path: string, deleteOriginal: bool, ok: bool, target: Option<string>)
    requires ok <==> path in before && path in sizes
    requires ok <==> target.Some?
    requires !ok ==> after == before
    requires ok ==> target.value !in before + dirs
    requires ok ==> exists i: nat :: target.value == Candidate(Dirname(path), LogoName(sizes[path].0, sizes[path].1), i) &&
                                     AllTaken(Dirname(path), LogoName(sizes[path].0, sizes[path].1), i, before + dirs)
    requires ok ==> after == (before + {target.value}) - (if deleteOriginal then {path} else {})
    ensures after == AfterProcess(before, dirs, sizes, path, deleteOriginal)
  {
    if ok {
      var size := sizes[path];
      var i: nat :| target.value == Candidate(Dirname(path), LogoName(size.0, size.1), i) &&
                    AllTaken(Dirname(path), LogoName(size.0, size.1), i, before + dirs);
      FreeTargetFrom(Dirname(path), LogoName(size.0, size.1), before + dirs, 0, i);
    }
  }

  /** The files after process_file on each path in turn, outside a dry run. */
  function AfterAll(files: set<string>, dirs: set<string>, sizes: map<string, (nat, nat)>,
                    paths: seq<string>, deleteOriginal: bool): set<string>
  {
    if paths == [] then files
    else
      var n := |paths| - 1;
      AfterProcess(AfterAll(files, dirs, sizes, paths[..n], deleteOriginal), dirs, sizes, paths[n], deleteOriginal)
  }

  /** One more path: AfterAll and Openable extend by that path's step. */
  lemma AfterAllStep(files: set<string>, dirs: set<string>, sizes: map<string, (nat, nat)>,
                   paths: seq<string>, i: nat, deleteOriginal: bool)
    requires i < |paths|
    ensures AfterAll(files, dirs, sizes, paths[..i + 1], deleteOriginal) ==
      AfterProcess(AfterAll(files, dirs, sizes, paths[..i], deleteOriginal), dirs, sizes, paths[i], deleteOriginal)
    ensures Openable(paths[..i + 1], sizes) == Openable(paths[..i], sizes) + (if paths[i] in sizes then 1 else 0)
  {
    assert paths[..i + 1][..i] == paths[..i];
  }

  /** Processing removes no file except a processed one, and only when asked:
      every other file survives, and without -d no file is lost. */
  lemma {:induction false} AfterAllKeeps(files: set<string>, dirs: set<string>, sizes: map<string, (nat, nat)>,
                                         paths: seq<string>, deleteOriginal: bool, f: string)
    requires f in files
    requires !deleteOriginal || f !in paths
    ensures f in AfterAll(files, dirs, sizes, paths, deleteOriginal)
  {
    if paths != [] {
      var n := |paths| - 1;
      assert !deleteOriginal || f !in paths[..n] by {
        assert forall k :: 0 <= k < n ==> paths[..n][k] == paths[k];
      }
      AfterAllKeeps(files, dirs, sizes, paths[..n], deleteOriginal, f);
    }
  }

  /** Every file that processing adds is the target of some processed path: a
      logo name in that path's directory, numbered when the plain name was taken. */
  lemma {:induction false} AfterAllAdds(files: set<string>, dirs: set<string>, sizes: map<string, (nat, nat)>,
                                        paths: seq<string>, deleteOriginal: bool, f: string)
    requires f in AfterAll(files, dirs, sizes, paths, deleteOriginal) && f !in files
    ensures exists k, i: nat ::
              0 <= k < |paths| && paths[k] in sizes &&
              f == Candidate(Dirname(paths[k]), LogoName(sizes[paths[k]].0, sizes[paths[k]].1), i)
  {
    var n := |paths| - 1;
    var before := AfterAll(files, dirs, sizes, paths[..n], deleteOriginal);
    if f in before {
      AfterAllAdds(files, dirs, sizes, paths[..n], deleteOriginal, f);
      var k, i: nat :| 0 <= k < n && paths[..n][k] in sizes &&
        f == Candidate(Dirname(paths[..n][k]), LogoName(sizes[paths[..n][k]].0, sizes[paths[..n][k]].1), i);
      assert paths[..n][k] == paths[k];
    } else {
      var p := paths[n];
      var size := sizes[p];
      FreeTargetIsCandidate(Dirname(p), LogoName(size.0, size.1), before + dirs, 0);
    }
  }

  /** The free target is one of the candidates. */
  lemma FreeTargetIsCandidate(dirpath: string, baseName: string, existing: set<string>, i: nat)
    requires AllTaken(dirpath, baseName, i, existing)
    ensures exists j: nat :: FreeTarget(dirpath, baseName, existing, i) == Candidate(dirpath, baseName, j)
    decreases |existing| - i
  {
    CandidateCount(dirpath, baseName, i, existing);
    if Candidate(dirpath, baseName, i) in existing {
      AllTakenStep(dirpath, baseName, i, existing);
      CandidateCount(dirpath, baseName, i + 1, existing);
      FreeTargetIsCandidate(dirpath, baseName, existing, i + 1);
    }
  }

  /** The file system as rename_logos.py sees it: the files (which processing
      changes), the directories, and the images PIL opens with their sizes. */
  class Folder {
    var files: set<string>
    const dirs: set<string>
    const sizes: map<string, (nat, nat)>

    constructor (files0: set<string>, dirs0: set<string>, sizes0: map<string, (nat, nat)>)
      ensures files == files0 && dirs == dirs0 && sizes == sizes0
    {
      files := files0;
      dirs := dirs0;
      sizes := sizes0;
    }

    /** process_file as written: the target is dirname(path)/logo<w>x<h>.png
        made unique among the existing paths. A dry run changes nothing;
        otherwise the PNG is saved and then, when asked, the original is
        deleted. An image that cannot be opened gives False. The branch that
        skips a file whose target is the file itself is never taken: the file
        exists and the target does not, so a file already named for its size
        is copied to a suffixed name (see LogoNamedFileIsCandidate). */
    method ProcessFile(path: string, deleteOriginal: bool, dryRun: bool) returns (ok: bool, target: Option<string>)
      modifies this
      ensures ok <==> path in old(files) && path in sizes
      ensures ok <==> target.Some?
      ensures !ok || dryRun ==> files == old(files)
      ensures ok ==> target.value !in old(files) + dirs && target.value != path
      ensures ok ==> exists i: nat :: target.value == Candidate(Dirname(path), LogoName(sizes[path].0, sizes[path].1), i) &&
                                      AllTaken(Dirname(path), LogoName(sizes[path].0, sizes[path].1), i, old(files) + dirs)
      ensures ok && !dryRun ==>
        files == (old(files) + {target.value}) - (if deleteOriginal then {path} else {})
    {
      if path !in files || path !in sizes {
        return false, None;
      }
      var size := sizes[path];
      var dirpath := Dirname(path);
      var base := LogoName(size.0, size.1);
      var t := UniqueTargetPath(dirpath, base, files + dirs);
      if dryRun {
        return true, Some(t);
      }
      files := files + {t};
      if deleteOriginal {
        files := files - {path};
      }
      return true, Some(t);
    }

    /** process_file as its skip branch intends it: a file that already has the
        name logo<w>x<h>.png for its own size is left alone (outside a dry run,
        whose check comes first); every other file is handled as before. */
    method ProcessFileIntended(path: string, deleteOriginal: bool, dryRun: bool) returns (ok: bool, target: Option<string>)
      modifies this
      ensures ok <==> path in old(files) && path in sizes
      ensures ok <==> target.Some?
      ensures !ok || dryRun ==> files == old(files)
      ensures ok && dryRun ==> target.value !in old(files) + dirs
      ensures ok && !dryRun && AlreadyNamed(path, sizes[path]) ==> target == Some(path) && files == old(files)
      ensures ok && !dryRun && !AlreadyNamed(path, sizes[path]) ==>
        target.value !in old(files) + dirs &&
        files == (old(files) + {target.value}) - (if deleteOriginal then {path} else {})
    {
      if path !in files || path !in sizes {
        return false, None;
      }
      var (w, h) := sizes[path];
      var dirpath := Dirname(path);
      var base := LogoName(w, h);
      if !dryRun && PathJoin(dirpath, base) == path {
        return true, Some(path);
      }
      var t := UniqueTargetPath(dirpath, base, files + dirs);
      if dryRun {
        return true, Some(t);
      }
      files := files + {t};
      if deleteOriginal {
        files := files - {path};
      }
      return true, Some(t);
    }

    /** The loop of main: every path is processed in turn. A dry run changes no
        file; otherwise the files are those after process_file on each path.
        The count of successes never exceeds the number of paths, and for
        distinct paths that all exist it is the number of images PIL can open. */
    method ProcessAll(paths: seq<string>, deleteOriginal: bool, dryRun: bool) returns (success: nat)
      modifies this
      ensures success <= |paths|
      ensures dryRun ==> files == old(files)
      ensures !dryRun ==> files == AfterAll(old(files), dirs, sizes, paths, deleteOriginal)
      ensures NoDuplicates(paths) && (forall k :: 0 <= k < |paths| ==> paths[k] in old(files)) ==>
        success == Openable(paths, sizes)
    {
      success := 0;
      ghost var files0 := files;
      ghost var good := NoDuplicates(paths) && (forall k :: 0 <= k < |paths| ==> paths[k] in files);
      for i := 0 to |paths|
        invariant success <= i
        invariant dryRun ==> files == files0
        invariant !dryRun ==> files == AfterAll(files0, dirs, sizes, paths[..i], deleteOriginal)
        invariant good ==> success == Openable(paths[..i], sizes)
        invariant good ==> forall k :: i <= k < |paths| ==> paths[k] in files
      {
        ghost var before := files;
        var ok, target := ProcessFile(paths[i], deleteOriginal, dryRun);
        AfterAllStep(files0, dirs, sizes, paths, i, deleteOriginal);
        if !dryRun {
          ProcessStep(before, files, dirs, sizes, paths[i], deleteOriginal, ok, target);
        }
        if ok {
          success := success + 1;
        }
      }
      assert paths[..|paths|] == paths;
    }

    /** main: a missing target directory or an empty search stops before any
        processing; otherwise every file found is processed. */
    method RenameLogos(targetDir: string, extArg: string, recursive: bool, deleteOriginal: bool, dryRun: bool,
                       listing: seq<string>, walk: seq<(string, seq<string>)>) returns (run: RenameRun)
      modifies this
      ensures targetDir !in dirs ==> run == NoTargetDir && files == old(files)
      ensures targetDir in dirs ==>
        var exts := ParseExtList(extArg);
        var found := if recursive then FindWalk(walk, exts) else FindFlat(targetDir, listing, old(files), exts);
        (found == [] ==> run == NoImages && files == old(files)) &&
        (found != [] ==> run.Processed? && run.found == found && run.success <= |found|) &&
        (found != [] && dryRun ==> files == old(files)) &&
        (found != [] && !dryRun ==> files == AfterAll(old(files), dirs, sizes, found, deleteOriginal)) &&
        (found != [] && NoDuplicates(found) && (forall k :: 0 <= k < |found| ==> found[k] in old(files)) ==>
           run.success == Openable(found, sizes))
    {
      if targetDir !in dirs {
        return NoTargetDir;
      }
      var exts := ParseExtList(extArg);
      var found := if recursive then FindWalk(walk, exts) else FindFlat(targetDir, listing, files, exts);
      if found == [] {
        return NoImages;
      }
      var success := ProcessAll(found, deleteOriginal, dryRun);
      run := Processed(found, success);
    }
  }
}
