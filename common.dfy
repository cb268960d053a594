/** Shared vocabulary of the three scripts: an Option type and the Python string
    operations they rely on (str.strip, re.sub(r"\s+", ''), str.lower, str.split,
    str.find, str.rfind, startswith, endswith, `in`, and decimal formatting). */
module Common {

  datatype Option<T> = None | Some(value: T)

  /** Python's str.isspace(): the characters str.strip() removes and the regex
      class \s matches in a str pattern. */
  predicate IsSpace(c: char)
  {
    || c == ' '
    || ('\t' <= c <= '\r')
    || ('\U{1c}' <= c <= '\U{1f}')
    || c == '\U{85}' || c == '\U{a0}' || c == '\U{1680}'
    || ('\U{2000}' <= c <= '\U{200a}')
    || c == '\U{2028}' || c == '\U{2029}' || c == '\U{202f}' || c == '\U{205f}' || c == '\U{3000}'
  }

  predicate AllSpace(s: string)
  {
    forall k :: 0 <= k < |s| ==> IsSpace(s[k])
  }

  /** The number of whitespace characters at the start of s. */
  function LeadingSpaces(s: string): (n: nat)
    ensures n <= |s|
    ensures forall k :: 0 <= k < n ==> IsSpace(s[k])
    ensures n < |s| ==> !IsSpace(s[n])
  {
    if s != [] && IsSpace(s[0]) then 1 + LeadingSpaces(s[1..]) else 0
  }

  /** The number of whitespace characters at the end of s. */
  function TrailingSpaces(s: string): (n: nat)
    ensures n <= |s|
    ensures forall k :: |s| - n <= k < |s| ==> IsSpace(s[k])
    ensures n < |s| ==> !IsSpace(s[|s| - n - 1])
  {
    if s != [] && IsSpace(s[|s| - 1]) then 1 + TrailingSpaces(s[..|s| - 1]) else 0
  }

  /** str.lstrip(): drop leading whitespace. */
  function LStrip(s: string): string
  {
    s[LeadingSpaces(s)..]
  }

  /** str.rstrip(): drop trailing whitespace. */
  function RStrip(s: string): string
  {
    s[..|s| - TrailingSpaces(s)]
  }

  /** A string with no whitespace at either end: what str.strip() leaves. */
  predicate IsStripped(s: string)
  {
    s == [] || (!IsSpace(s[0]) && !IsSpace(s[|s| - 1]))
  }

  /** str.strip(): whitespace removed from both ends. */
  function Strip(s: string): (r: string)
    ensures IsStripped(r)
    ensures |r| <= |s|
  {
    var l := LStrip(s);
    assert l != [] ==> l[0] == s[LeadingSpaces(s)];
    RStrip(l)
  }

  /** What str.strip() keeps is a contiguous piece of `s`, and everything it cuts
      off on either side is whitespace. */
  lemma StripIsTrimmed(s: string)
    ensures exists i :: 0 <= i <= |s| - |Strip(s)| && Strip(s) == s[i..i + |Strip(s)|]
                        && AllSpace(s[..i]) && AllSpace(s[i + |Strip(s)|..])
  {
    var i := LeadingSpaces(s);
    var l := s[i..];
    var m := |l| - TrailingSpaces(l);
    assert Strip(s) == s[i..i + m];
    assert AllSpace(s[..i]);
    assert AllSpace(s[i + m..]) by {
      assert s[i + m..] == l[m..];
    }
  }

  lemma NotInSlice(s: string, c: char, i: nat, j: nat)
    requires c !in s && i <= j <= |s|
    ensures c !in s[i..j]
  {
    assert forall k :: 0 <= k < j - i ==> s[i..j][k] == s[i + k];
  }

  /** str.strip() introduces no character that was not there. */
  lemma StripKeepsOut(s: string, c: char)
    requires c !in s
    ensures c !in Strip(s)
  {
    var l := s[LeadingSpaces(s)..];
    NotInSlice(s, c, LeadingSpaces(s), |s|);
    NotInSlice(l, c, 0, |l| - TrailingSpaces(l));
    assert Strip(s) == l[0..|l| - TrailingSpaces(l)];
  }

  lemma StrippedIsFixed(s: string)
    requires IsStripped(s)
    ensures Strip(s) == s
  {
  }

  lemma StripEmptyIffAllSpace(s: string)
    ensures Strip(s) == [] <==> AllSpace(s)
  {
    var i := LeadingSpaces(s);
    if i < |s| {
      var l := s[i..];
      assert l[0] == s[i];
      assert TrailingSpaces(l) < |l|;
    }
  }

  /** re.sub(r"\s+", '', s): every whitespace character removed. */
  function RemoveSpaces(s: string): string
  {
    if s == [] then [] else (if IsSpace(s[0]) then [] else [s[0]]) + RemoveSpaces(s[1..])
  }

  /** What re.sub(r"\s+", '', s) leaves is no longer than s and holds no whitespace. */
  lemma {:induction false} RemoveSpacesHasNoSpace(s: string)
    ensures |RemoveSpaces(s)| <= |s|
    ensures forall k :: 0 <= k < |RemoveSpaces(s)| ==> !IsSpace(RemoveSpaces(s)[k])
  {
    if s != [] {
      RemoveSpacesHasNoSpace(s[1..]);
      var head: string := if IsSpace(s[0]) then [] else [s[0]];
      var r := RemoveSpaces(s);
      assert r == head + RemoveSpaces(s[1..]);
      forall k | 0 <= k < |r| ensures !IsSpace(r[k]) {
        if k >= |head| {
          assert r[k] == RemoveSpaces(s[1..])[k - |head|];
        }
      }
    }
  }

  lemma {:induction false} RemoveSpacesAppend(a: string, b: string)
    ensures RemoveSpaces(a + b) == RemoveSpaces(a) + RemoveSpaces(b)
  {
    if a == [] {
      assert a + b == b;
    } else {
      assert (a + b)[0] == a[0];
      assert (a + b)[1..] == a[1..] + b;
      RemoveSpacesAppend(a[1..], b);
    }
  }

  lemma {:induction false} RemoveSpacesOfSpaces(s: string)
    requires AllSpace(s)
    ensures RemoveSpaces(s) == []
  {
    if s != [] {
      RemoveSpacesOfSpaces(s[1..]);
    }
  }

  lemma {:induction false} RemoveSpacesNoSpace(s: string)
    requires forall k :: 0 <= k < |s| ==> !IsSpace(s[k])
    ensures RemoveSpaces(s) == s
  {
    if s != [] {
      RemoveSpacesNoSpace(s[1..]);
    }
  }

  lemma RemoveSpacesIgnoresLeading(s: string)
    ensures RemoveSpaces(LStrip(s)) == RemoveSpaces(s)
  {
    var i := LeadingSpaces(s);
    assert s == s[..i] + s[i..];
    RemoveSpacesAppend(s[..i], s[i..]);
    RemoveSpacesOfSpaces(s[..i]);
  }

  lemma RemoveSpacesIgnoresTrailing(s: string)
    ensures RemoveSpaces(RStrip(s)) == RemoveSpaces(s)
  {
    var j := |s| - TrailingSpaces(s);
    assert s == s[..j] + s[j..];
    RemoveSpacesAppend(s[..j], s[j..]);
    RemoveSpacesOfSpaces(s[j..]);
  }

  /** Removing all whitespace does not care whether the ends were stripped first. */
  lemma {:induction false} RemoveSpacesIgnoresStrip(s: string)
    ensures RemoveSpaces(Strip(s)) == RemoveSpaces(s)
  {
    RemoveSpacesIgnoresLeading(s);
    RemoveSpacesIgnoresTrailing(LStrip(s));
  }

  /** str.lstrip(c) for a single character c. */
  function LStripChar(s: string, c: char): (r: string)
    ensures |r| <= |s| && r == s[|s| - |r|..]
    ensures forall k :: 0 <= k < |s| - |r| ==> s[k] == c
    ensures r != [] ==> r[0] != c
  {
    if s != [] && s[0] == c then LStripChar(s[1..], c) else s
  }

  /** str.rstrip(c) for a single character c. */
  function RStripChar(s: string, c: char): (r: string)
    ensures |r| <= |s| && r == s[..|r|]
    ensures forall k :: |r| <= k < |s| ==> s[k] == c
    ensures r != [] ==> r[|r| - 1] != c
  {
    if s != [] && s[|s| - 1] == c then RStripChar(s[..|s| - 1], c) else s
  }

  /** str.lower(), on the ASCII letters. */
  function LowerChar(c: char): char
  {
    if 'A' <= c <= 'Z' then (c as int - 'A' as int + 'a' as int) as char else c
  }

  function Lower(s: string): (r: string)
    ensures |r| == |s|
    ensures forall k :: 0 <= k < |s| ==> r[k] == LowerChar(s[k])
  {
    seq(|s|, k requires 0 <= k < |s| => LowerChar(s[k]))
  }

  /** A string without upper-case ASCII letters, which str.lower() leaves alone. */
  predicate IsLowerCase(s: string)
  {
    forall k :: 0 <= k < |s| ==> !('A' <= s[k] <= 'Z')
  }

  lemma LowerOfLowerCase(s: string)
    requires IsLowerCase(s)
    ensures Lower(s) == s
  {
  }

  lemma LowerAppend(a: string, b: string)
    ensures Lower(a + b) == Lower(a) + Lower(b)
  {
    assert forall k :: 0 <= k < |a + b| ==> Lower(a + b)[k] == (Lower(a) + Lower(b))[k];
  }

  predicate StartsWith(s: string, prefix: string)
  {
    prefix <= s
  }

  predicate EndsWith(s: string, suffix: string)
  {
    |suffix| <= |s| && s[|s| - |suffix|..] == suffix
  }

  /** Python's `sub in s`. */
  predicate Contains(s: string, sub: string)
  {
    exists i :: 0 <= i <= |s| && sub <= s[i..]
  }

  /** EndsWith on a concatenation whose tail is the suffix. */
  lemma EndsWithAppend(a: string, b: string)
    ensures EndsWith(a + b, b)
  {
    assert (a + b)[|a + b| - |b|..] == b;
  }

  /** The index of the first element satisfying p, or -1 when none does. */
  function FirstWhere<T>(xs: seq<T>, p: T -> bool): (j: int)
    ensures -1 <= j < |xs|
    ensures j >= 0 ==> p(xs[j]) && forall k :: 0 <= k < j ==> !p(xs[k])
    ensures j < 0 ==> forall k :: 0 <= k < |xs| ==> !p(xs[k])
  {
    if xs == [] then -1
    else if p(xs[0]) then 0
    else (var k := FirstWhere(xs[1..], p); if k < 0 then -1 else k + 1)
  }

  /** str.find(c): the first index of c, or -1. */
  function Find(s: string, c: char): (r: int)
    ensures -1 <= r < |s|
    ensures r >= 0 ==> s[r] == c
    ensures forall k :: 0 <= k < |s| && (r < 0 || k < r) ==> s[k] != c
  {
    if s == [] then -1
    else if s[0] == c then 0
    else (var k := Find(s[1..], c); if k < 0 then -1 else k + 1)
  }

  /** str.rfind(c): the last index of c, or -1. */
  function RFind(s: string, c: char): (r: int)
    ensures -1 <= r < |s|
    ensures r >= 0 ==> s[r] == c
    ensures forall k :: 0 <= k < |s| && r < k ==> s[k] != c
  {
    if s == [] then -1
    else if s[|s| - 1] == c then |s| - 1
    else RFind(s[..|s| - 1], c)
  }

  /** The first occurrence of c is found at the first position that holds c. */
  lemma FindAt(s: string, c: char, i: nat)
    requires i < |s| && s[i] == c
    requires forall k :: 0 <= k < i ==> s[k] != c
    ensures Find(s, c) == i
  {
  }

  /** The last occurrence of c is found at the last position that holds c. */
  lemma RFindAt(s: string, c: char, i: nat)
    requires i < |s| && s[i] == c
    requires forall k :: i < k < |s| ==> s[k] != c
    ensures RFind(s, c) == i
  {
  }

  /** str.split(sep) for a one-character separator: never empty, no piece holds sep. */
  function Split(s: string, sep: char): (parts: seq<string>)
    ensures |parts| >= 1
    ensures forall k :: 0 <= k < |parts| ==> sep !in parts[k]
    decreases |s|
  {
    var k := Find(s, sep);
    FindLeavesOut(s, sep);
    if k < 0 then [s]
    else
      var rest := Split(s[k + 1..], sep);
      PiecesFreeCons(s[..k], rest, sep);
      [s[..k]] + rest
  }

  lemma PiecesFreeCons(x: string, rest: seq<string>, sep: char)
    requires sep !in x
    requires forall k :: 0 <= k < |rest| ==> sep !in rest[k]
    ensures forall k :: 0 <= k < |rest| + 1 ==> sep !in ([x] + rest)[k]
  {
    forall k | 0 <= k < |rest| + 1 ensures sep !in ([x] + rest)[k] {
      if k > 0 { assert ([x] + rest)[k] == rest[k - 1]; }
    }
  }

  /** Before the first occurrence of c, and in a string where Find fails, there is no c. */
  lemma FindLeavesOut(s: string, c: char)
    ensures Find(s, c) < 0 ==> c !in s
    ensures Find(s, c) >= 0 ==> c !in s[..Find(s, c)]
  {
    var k := Find(s, c);
    if k >= 0 {
      assert forall j :: 0 <= j < k ==> s[..k][j] == s[j];
    }
  }

  /** sep.join(parts). */
  function Join(parts: seq<string>, sep: char): string
  {
    if |parts| == 0 then "" else if |parts| == 1 then parts[0] else parts[0] + [sep] + Join(parts[1..], sep)
  }

  /** Splitting a joined list gives the pieces back, when no piece holds the separator. */
  lemma {:induction false} SplitJoin(parts: seq<string>, sep: char)
    requires |parts| >= 1
    requires forall k :: 0 <= k < |parts| ==> sep !in parts[k]
    ensures Split(Join(parts, sep), sep) == parts
  {
    if |parts| == 1 {
      assert Find(parts[0], sep) == -1;
    } else {
      var rest := Join(parts[1..], sep);
      var s := parts[0] + [sep] + rest;
      assert s[|parts[0]|] == sep;
      assert forall k :: 0 <= k < |parts[0]| ==> s[k] == parts[0][k];
      FindAt(s, sep, |parts[0]|);
      assert s[..|parts[0]|] == parts[0];
      assert s[|parts[0]| + 1..] == rest;
      SplitJoin(parts[1..], sep);
    }
  }

  lemma JoinCons(x: string, rest: seq<string>, sep: char)
    requires |rest| >= 1
    ensures Join([x] + rest, sep) == x + [sep] + Join(rest, sep)
  {
    assert ([x] + rest)[1..] == rest;
  }

  /** Joining the pieces of a split gives the string back. */
  lemma {:induction false} JoinSplit(s: string, sep: char)
    ensures Join(Split(s, sep), sep) == s
    decreases |s|
  {
    var k := Find(s, sep);
    if k >= 0 {
      var tail := s[k + 1..];
      var rest := Split(tail, sep);
      JoinSplit(tail, sep);
      JoinCons(s[..k], rest, sep);
      Around(s, k);
    }
  }

  lemma Around(s: string, k: nat)
    requires k < |s|
    ensures s == s[..k] + [s[k]] + s[k + 1..]
  {
  }

  predicate IsDigit(c: char)
  {
    '0' <= c <= '9'
  }

  /** One or more ASCII digits: what the regex \d+ matches. */
  predicate IsDecimal(s: string)
  {
    |s| > 0 && forall k :: 0 <= k < |s| ==> IsDigit(s[k])
  }

  function DigitChar(d: nat): (c: char)
    requires d < 10
    ensures IsDigit(c) && c as int - '0' as int == d
  {
    ('0' as int + d) as char
  }

  /** f"{n}" for a natural number. */
  function NatToString(n: nat): (r: string)
    ensures IsDecimal(r)
  {
    if n < 10 then [DigitChar(n)] else NatToString(n / 10) + [DigitChar(n % 10)]
  }

  /** int(s) for a string of digits. */
  function DecimalValue(s: string): nat
    requires forall k :: 0 <= k < |s| ==> IsDigit(s[k])
  {
    if s == [] then 0
    else
      assert IsDigit(s[|s| - 1]);
      DecimalValue(s[..|s| - 1]) * 10 + (s[|s| - 1] as int - '0' as int)
  }

  /** Reading back a formatted number gives the number. */
  lemma {:induction false} DecimalRoundTrip(n: nat)
    ensures DecimalValue(NatToString(n)) == n
  {
    if n >= 10 {
      DecimalRoundTrip(n / 10);
      var s := NatToString(n);
      assert s[..|s| - 1] == NatToString(n / 10);
    }
  }

  lemma NatToStringInjective(m: nat, n: nat)
    requires NatToString(m) == NatToString(n)
    ensures m == n
  {
    DecimalRoundTrip(m);
    DecimalRoundTrip(n);
  }

  /** The non-empty values f takes on xs, in the order of xs. */
  function NonEmptyImages(xs: seq<string>, f: string -> string): (r: seq<string>)
    ensures |r| <= |xs|
    ensures forall k :: 0 <= k < |r| ==> r[k] != ""
  {
    if xs == [] then []
    else
      var n := |xs| - 1;
      NonEmptyImages(xs[..n], f) + (if f(xs[n]) != "" then [f(xs[n])] else [])
  }

  /** A value is kept exactly when it is not empty and f takes it on some element. */
  lemma {:induction false} NonEmptyImagesMembers(xs: seq<string>, f: string -> string, x: string)
    ensures x in NonEmptyImages(xs, f) <==> x != "" && exists k :: 0 <= k < |xs| && f(xs[k]) == x
  {
    if xs != [] {
      var n := |xs| - 1;
      NonEmptyImagesMembers(xs[..n], f, x);
      if x != "" && f(xs[n]) != x && (exists k :: 0 <= k < |xs| && f(xs[k]) == x) {
        var k :| 0 <= k < |xs| && f(xs[k]) == x;
        assert xs[..n][k] == xs[k];
      }
      if x != "" && (exists k :: 0 <= k < n && f(xs[..n][k]) == x) {
        var k :| 0 <= k < n && f(xs[..n][k]) == x;
        assert xs[k] == xs[..n][k];
      }
    }
  }

  /** Nothing is dropped or changed when every element is non-empty and fixed by f. */
  lemma {:induction false} NonEmptyImagesFixed(xs: seq<string>, f: string -> string)
    requires forall k :: 0 <= k < |xs| ==> xs[k] != "" && f(xs[k]) == xs[k]
    ensures NonEmptyImages(xs, f) == xs
  {
    if xs != [] {
      var n := |xs| - 1;
      NonEmptyImagesFixed(xs[..n], f);
      assert xs == xs[..n] + [xs[n]];
    }
  }

  /** The lines of a text file written by f.write(f"{x}\n") for each x, as
      `for line in f` yields them back: each x with its "\n". */
  function Lines(xs: seq<string>): (ls: seq<string>)
    ensures |ls| == |xs|
    ensures forall k :: 0 <= k < |xs| ==> ls[k] == xs[k] + "\n"
  {
    seq(|xs|, k requires 0 <= k < |xs| => xs[k] + "\n")
  }

  /** A non-empty stripped string followed by a newline strips back to itself. */
  lemma StrippedLineStrips(s: string)
    requires s != [] && IsStripped(s)
    ensures Strip(s + "\n") == s
  {
    var t := s + "\n";
    assert t[0] == s[0];
    assert LStrip(t) == t;
    assert t[..|t| - 1] == s;
    assert RStrip(t) == RStrip(s);
  }

  /** A decimal string is stripped: digits are not whitespace. */
  lemma DecimalIsStripped(s: string)
    requires IsDecimal(s)
    ensures s != [] && IsStripped(s)
  {
    assert !IsSpace(s[0]) && !IsSpace(s[|s| - 1]);
  }

  /** Concatenations cancel: equal middles when prefix and suffix agree. */
  lemma CancelAround(a: string, x: string, y: string, b: string)
    requires a + x + b == a + y + b
    ensures x == y
  {
    assert |x| == |y|;
    assert x == (a + x + b)[|a|..|a| + |x|];
    assert y == (a + y + b)[|a|..|a| + |y|];
  }
}
