/** The posixpath operations the scripts use (join, dirname, basename, splitext)
    and the rule that puts configured file names under a fixed directory. */
module Paths {
  import opened Common

  /** os.path.join(a, b): an absolute `b` replaces `a`; otherwise `b` is appended,
      with a "/" in between unless `a` is empty or already ends with one. */
  function PathJoin(a: string, b: string): (r: string)
    ensures EndsWith(r, b)
    ensures StartsWith(b, "/") ==> r == b
    ensures !StartsWith(b, "/") ==> r == a + b || r == a + "/" + b
  {
    EndsWithAppend(a, b);
    EndsWithAppend(a + "/", b);
    if StartsWith(b, "/") then b
    else if a == "" || EndsWith(a, "/") then a + b
    else a + "/" + b
  }

  /** Joining the same directory to two names that are both relative or both
      absolute gives equal paths only for equal names. */
  lemma PathJoinInjective(a: string, x: string, y: string)
    requires StartsWith(x, "/") == StartsWith(y, "/")
    ensures PathJoin(a, x) == PathJoin(a, y) <==> x == y
  {
    if !StartsWith(x, "/") {
      var d := if a == "" || EndsWith(a, "/") then a else a + "/";
      assert PathJoin(a, x) == d + x && PathJoin(a, y) == d + y;
      assert x == (d + x)[|d|..];
      assert y == (d + y)[|d|..];
    }
  }

  /** os.path.basename: everything after the last "/". */
  function Basename(p: string): (r: string)
    ensures EndsWith(p, r) && '/' !in r
  {
    var i := RFind(p, '/') + 1;
    assert forall k :: 0 <= k < |p[i..]| ==> p[i..][k] == p[i + k];
    p[i..]
  }

  /** os.path.dirname: everything before the last "/", with trailing slashes
      removed unless the head consists of slashes only. */
  function Dirname(p: string): string
  {
    var head := p[..RFind(p, '/') + 1];
    if head != "" && exists k :: 0 <= k < |head| && head[k] != '/' then RStripChar(head, '/') else head
  }

  /** Joining a directory and a plain file name can be undone by dirname and basename. */
  lemma DirnameBasenameOfJoin(dir: string, name: string)
    requires '/' !in name
    requires dir == "" || dir[|dir| - 1] != '/'
    ensures Dirname(PathJoin(dir, name)) == dir
    ensures Basename(PathJoin(dir, name)) == name
  {
    var p := PathJoin(dir, name);
    if dir == "" {
      assert p == name;
      assert RFind(p, '/') == -1;
    } else {
      assert !EndsWith(dir, "/");
      assert p == dir + "/" + name;
      assert p[|dir|] == '/';
      assert forall k :: |dir| < k < |p| ==> p[k] == name[k - |dir| - 1];
      RFindAt(p, '/', |dir|);
      var head := p[..|dir| + 1];
      assert head == dir + "/";
      assert head[|dir| - 1] != '/';
      assert RStripChar(head, '/') == RStripChar(dir, '/');
      assert p[|dir| + 1..] == name;
    }
  }

  /** os.path.splitext: the extension starts at the last "." of the last path
      component, provided that component has a character other than "." before it. */
  function SplitExt(p: string): (parts: (string, string))
    ensures parts.0 + parts.1 == p
    ensures parts.1 == "" || (parts.1[0] == '.' && '.' !in parts.1[1..] && '/' !in parts.1)
  {
    var sep := RFind(p, '/');
    var dot := RFind(p, '.');
    if dot > sep && exists k :: sep + 1 <= k < dot && p[k] != '.' then
      assert forall k :: 0 <= k < |p[dot..]| ==> p[dot..][k] == p[dot + k];
      (p[..dot], p[dot..])
    else
      (p, "")
  }

  /** splitext takes off exactly an extension that was appended to a stem whose
      last character is neither "." nor "/". */
  lemma SplitExtOfStem(stem: string, ext: string)
    requires stem != [] && stem[|stem| - 1] != '.' && stem[|stem| - 1] != '/'
    requires ext != [] && ext[0] == '.' && '.' !in ext[1..] && '/' !in ext
    ensures SplitExt(stem + ext) == (stem, ext)
  {
    var p := stem + ext;
    assert p[|stem|] == '.';
    forall k | |stem| < k < |p| ensures p[k] != '.' && p[k] != '/' {
      assert p[k] == ext[k - |stem|];
      assert ext[1..][k - |stem| - 1] == ext[k - |stem|];
    }
    RFindAt(p, '.', |stem|);
    var sep := RFind(p, '/');
    assert p[|stem| - 1] == stem[|stem| - 1];
    assert sep < |stem| - 1;
    assert p[..|stem|] == stem && p[|stem|..] == ext;
  }

  /** The directory both scripts put their configured output paths under. */
  const OutputDir := "Output/"

  /** The rule that puts a configured path under `prefix`: a non-empty value that
      does not already start with `prefix` gets it; an empty or unset value is kept. */
  function WithPrefix(prefix: string, raw: Option<string>): (r: Option<string>)
    ensures r.None? <==> raw.None?
    ensures raw.Some? && raw.value != "" ==> StartsWith(r.value, prefix) && EndsWith(r.value, raw.value)
    ensures raw.Some? && raw.value != "" && !StartsWith(raw.value, prefix) ==> r == Some(prefix + raw.value)
    ensures raw.Some? && (raw.value == "" || StartsWith(raw.value, prefix)) ==> r == raw
  {
    match raw
    case None => None
    case Some(s) =>
      EndsWithAppend(prefix, s);
      assert EndsWith(s, s);
      if s != "" && !StartsWith(s, prefix) then Some(prefix + s) else Some(s)
  }

  /** Applying the prefix rule twice is the same as applying it once. */
  lemma WithPrefixIdempotent(prefix: string, raw: Option<string>)
    ensures WithPrefix(prefix, WithPrefix(prefix, raw)) == WithPrefix(prefix, raw)
  {
  }
}
