/** The part of urllib.parse.urlparse the avatar script relies on, the profile
    URL it builds for a user ID, and the resolution of protocol-relative and
    root-relative avatar links against that profile URL. */
module Urls {
  import opened Common

  /** The six fields of urlparse's result. */
  datatype Url = Url(scheme: string, netloc: string, path: string, params: string, query: string, fragment: string)

  predicate IsAsciiAlpha(c: char)
  {
    'a' <= c <= 'z' || 'A' <= c <= 'Z'
  }

  /** urllib.parse.scheme_chars: letters, digits, "+", "-" and ".". */
  predicate IsSchemeChar(c: char)
  {
    IsAsciiAlpha(c) || IsDigit(c) || c == '+' || c == '-' || c == '.'
  }

  /** Text urlsplit accepts as a scheme: a letter followed by scheme characters. */
  predicate IsScheme(s: string)
  {
    s != [] && IsAsciiAlpha(s[0]) && forall k :: 0 <= k < |s| ==> IsSchemeChar(s[k])
  }

  /** The characters that end a netloc. */
  predicate IsNetlocDelim(c: char)
  {
    c == '/' || c == '?' || c == '#'
  }

  /** The length of the netloc at the start of s: up to the first "/", "?" or "#". */
  function NetlocLength(s: string): (n: nat)
    ensures n <= |s|
    ensures forall k :: 0 <= k < n ==> !IsNetlocDelim(s[k])
    ensures n < |s| ==> IsNetlocDelim(s[n])
  {
    if s == [] || IsNetlocDelim(s[0]) then 0 else 1 + NetlocLength(s[1..])
  }

  /** The scheme step of urlsplit: the text before the first ":" is the scheme,
      lower-cased, when it is a valid scheme; otherwise the URL has none. */
  function SplitScheme(url: string): (string, string)
  {
    var i := Find(url, ':');
    if i > 0 && IsScheme(url[..i]) then (Lower(url[..i]), url[i + 1..]) else ("", url)
  }

  /** The netloc step: after a leading "//", the text up to the first "/", "?" or "#". */
  function SplitNetloc(rest: string): (r: (string, string))
    ensures forall k :: 0 <= k < |r.0| ==> !IsNetlocDelim(r.0[k])
    ensures r.1 == "" || IsNetlocDelim(r.1[0]) || (r.0 == "" && r.1 == rest)
  {
    if StartsWith(rest, "//") then
      var s := rest[2..];
      var n := NetlocLength(s);
      assert forall k :: 0 <= k < n ==> s[..n][k] == s[k];
      (s[..n], s[n..])
    else ("", rest)
  }

  /** Cutting at the first occurrence of c (str.split(c, 1)), when c occurs. */
  function SplitFirst(s: string, c: char): (r: (string, string))
    ensures c in s ==> s == r.0 + [c] + r.1 && c !in r.0
    ensures c !in s ==> r == (s, "")
  {
    var i := Find(s, c);
    if i < 0 then (s, "")
    else
      assert forall k :: 0 <= k < i ==> s[..i][k] == s[k];
      assert s == s[..i] + [c] + s[i + 1..];
      (s[..i], s[i + 1..])
  }

  /** urllib.parse.uses_params: the schemes whose last path segment may carry ";params". */
  const UsesParams: seq<string> := ["", "ftp", "hdl", "prospero", "http", "imap", "https", "shttp",
                                    "rtsp", "rtspu", "sip", "sips", "mms", "sftp", "tel"]

  /** _splitparams: the parameters start at the first ";" after the last "/". */
  function SplitParams(path: string): (r: (string, string))
    ensures r.0 <= path
  {
    var s := RFind(path, '/') + 1;
    var j := Find(path[s..], ';');
    if j < 0 then (path, "") else (path[..s + j], path[s + j + 1..])
  }

  /** urllib.parse's _WHATWG_C0_CONTROL_OR_SPACE: U+0000 to U+001F and the space. */
  predicate IsC0OrSpace(c: char)
  {
    c <= ' '
  }

  /** urllib.parse's _UNSAFE_URL_BYTES_TO_REMOVE: tab, carriage return and line feed. */
  predicate IsUnsafe(c: char)
  {
    c == '\t' || c == '\r' || c == '\n'
  }

  /** The number of C0 control and space characters at the start of s. */
  function LeadingC0(s: string): (n: nat)
    ensures n <= |s|
    ensures n < |s| ==> !IsC0OrSpace(s[n])
  {
    if s == [] || !IsC0OrSpace(s[0]) then 0 else 1 + LeadingC0(s[1..])
  }

  /** s with every tab, carriage return and line feed removed. */
  function RemoveUnsafe(s: string): (r: string)
    ensures |r| <= |s|
  {
    if s == [] then []
    else (if IsUnsafe(s[0]) then [] else [s[0]]) + RemoveUnsafe(s[1..])
  }

  /** The first steps of urlsplit: lstrip the C0 control and space characters,
      then remove every tab, carriage return and line feed. */
  function Clean(url: string): string
  {
    RemoveUnsafe(url[LeadingC0(url)..])
  }

  /** The split of a cleaned URL: scheme, netloc, then fragment at the first
      "#", query at the first "?", then the parameters of the last path segment. */
  function SplitUrl(url: string): (u: Url)
    ensures '?' !in u.path && '#' !in u.path
    ensures forall k :: 0 <= k < |u.netloc| ==> !IsNetlocDelim(u.netloc[k])
  {
    var (scheme, rest) := SplitScheme(url);
    var (netloc, rest1) := SplitNetloc(rest);
    var (rest2, fragment) := SplitFirst(rest1, '#');
    var (rest3, query) := SplitFirst(rest2, '?');
    var (path, params) := if scheme in UsesParams && ';' in rest3 then SplitParams(rest3) else (rest3, "");
    SplitFirstPrefix(rest1, '#');
    SplitFirstPrefix(rest2, '?');
    PrefixKeepsOut(rest3, rest2, '#');
    PrefixKeepsOut(path, rest3, '#');
    PrefixKeepsOut(path, rest3, '?');
    Url(scheme, netloc, path, params, query, fragment)
  }

  /** The part before the cut is a prefix without c. */
  lemma SplitFirstPrefix(s: string, c: char)
    ensures SplitFirst(s, c).0 <= s && c !in SplitFirst(s, c).0
  {
  }

  /** A prefix of a string without c has no c either. */
  lemma PrefixKeepsOut(p: string, s: string, c: char)
    requires p <= s && c !in s
    ensures c !in p
  {
    assert forall k :: 0 <= k < |p| ==> p[k] == s[k];
  }

  /** urlparse(url): the split of the cleaned URL. */
  function Parse(url: string): (u: Url)
    ensures '?' !in u.path && '#' !in u.path
    ensures forall k :: 0 <= k < |u.netloc| ==> !IsNetlocDelim(u.netloc[k])
  {
    SplitUrl(Clean(url))
  }

  lemma {:induction false} RemoveUnsafeAppend(a: string, b: string)
    ensures RemoveUnsafe(a + b) == RemoveUnsafe(a) + RemoveUnsafe(b)
  {
    if a == [] {
      assert a + b == b;
    } else {
      assert (a + b)[1..] == a[1..] + b;
      RemoveUnsafeAppend(a[1..], b);
    }
  }

  /** No tab, carriage return or line feed is left. */
  lemma {:induction false} RemoveUnsafeRemovesAll(s: string)
    ensures forall k :: 0 <= k < |RemoveUnsafe(s)| ==> !IsUnsafe(RemoveUnsafe(s)[k])
  {
    if s != [] {
      RemoveUnsafeRemovesAll(s[1..]);
      var head := if IsUnsafe(s[0]) then [] else [s[0]];
      assert RemoveUnsafe(s) == head + RemoveUnsafe(s[1..]);
    }
  }

  lemma {:induction false} RemoveUnsafeKeeps(s: string)
    requires forall k :: 0 <= k < |s| ==> !IsUnsafe(s[k])
    ensures RemoveUnsafe(s) == s
  {
    if s != [] {
      RemoveUnsafeKeeps(s[1..]);
    }
  }

  lemma {:induction false} LeadingC0Append(a: string, b: string)
    requires LeadingC0(a) < |a|
    ensures LeadingC0(a + b) == LeadingC0(a)
  {
    if IsC0OrSpace(a[0]) {
      assert (a + b)[1..] == a[1..] + b;
      LeadingC0Append(a[1..], b);
    }
  }

  lemma {:induction false} LeadingC0Skip(pre: string, url: string)
    requires forall k :: 0 <= k < |pre| ==> IsC0OrSpace(pre[k])
    ensures LeadingC0(pre + url) == |pre| + LeadingC0(url)
  {
    if pre != [] {
      var s := pre + url;
      assert s[0] == pre[0] && IsC0OrSpace(pre[0]);
      assert s[1..] == pre[1..] + url;
      LeadingC0Skip(pre[1..], url);
      assert LeadingC0(s) == 1 + LeadingC0(s[1..]);
    } else {
      assert pre + url == url;
    }
  }

  /** Leading C0 control and space characters do not change the parse. */
  lemma ParseSkipsLeadingC0(pre: string, url: string)
    requires forall k :: 0 <= k < |pre| ==> IsC0OrSpace(pre[k])
    ensures Parse(pre + url) == Parse(url)
  {
    CleanSkipsLeadingC0(pre, url);
  }

  lemma CleanSkipsLeadingC0(pre: string, url: string)
    requires forall k :: 0 <= k < |pre| ==> IsC0OrSpace(pre[k])
    ensures Clean(pre + url) == Clean(url)
  {
    LeadingC0Skip(pre, url);
    assert (pre + url)[|pre| + LeadingC0(url)..] == url[LeadingC0(url)..];
  }

  /** A tab, carriage return or line feed after the first visible character does
      not change the parse: "https://h/photo.jpg\n" parses as "https://h/photo.jpg". */
  lemma ParseSkipsUnsafe(a: string, c: char, b: string)
    requires IsUnsafe(c) && LeadingC0(a) < |a|
    ensures Parse(a + [c] + b) == Parse(a + b)
  {
    CleanSkipsUnsafe(a, c, b);
  }

  lemma CleanSkipsUnsafe(a: string, c: char, b: string)
    requires IsUnsafe(c) && LeadingC0(a) < |a|
    ensures Clean(a + [c] + b) == Clean(a + b)
  {
    var x := a + [c] + b;
    AppendAssoc(a, [c], b);
    CleanAfterStart(a, [c] + b);
    CleanAfterStart(a, b);
    RemoveUnsafeDrops(c, b);
  }

  lemma AppendAssoc(a: string, b: string, c: string)
    ensures a + b + c == a + (b + c)
  {
  }

  lemma RemoveUnsafeDrops(c: char, b: string)
    requires IsUnsafe(c)
    ensures RemoveUnsafe([c] + b) == RemoveUnsafe(b)
  {
    var cb := [c] + b;
    assert cb[0] == c && cb[1..] == b;
    assert RemoveUnsafe(cb) == [] + RemoveUnsafe(b);
  }

  /** Cleaning a + rest, when a has a visible character, cleans a and removes
      the unsafe characters of rest. */
  lemma CleanAfterStart(a: string, rest: string)
    requires LeadingC0(a) < |a|
    ensures Clean(a + rest) == RemoveUnsafe(a[LeadingC0(a)..]) + RemoveUnsafe(rest)
  {
    var n := LeadingC0(a);
    LeadingC0Append(a, rest);
    assert (a + rest)[n..] == a[n..] + rest;
    RemoveUnsafeAppend(a[n..], rest);
  }

  /** Cleaning a URL that starts with a scheme, "://" and a netloc keeps all of
      that and only removes the unsafe characters of the netloc and the rest. */
  lemma CleanAfterScheme(scheme: string, netloc: string, tail: string)
    requires IsScheme(scheme)
    ensures Clean(scheme + "://" + netloc + tail) == scheme + "://" + RemoveUnsafe(netloc) + RemoveUnsafe(tail)
  {
    var head := scheme + "://";
    var url := scheme + "://" + netloc + tail;
    assert url == head + (netloc + tail);
    assert url[0] == scheme[0];
    assert forall k :: 0 <= k < |head| ==> head[k] == if k < |scheme| then scheme[k] else if k == |scheme| then ':' else '/';
    assert forall k :: 0 <= k < |head| ==> !IsUnsafe(head[k]);
    RemoveUnsafeKeeps(head);
    RemoveUnsafeAppend(head, netloc + tail);
    RemoveUnsafeAppend(netloc, tail);
  }

  /** Removing the unsafe characters keeps a leading delimiter and adds no delimiter to a netloc. */
  lemma RemoveUnsafeParts(netloc: string, tail: string)
    requires forall k :: 0 <= k < |netloc| ==> !IsNetlocDelim(netloc[k])
    requires tail == "" || IsNetlocDelim(tail[0])
    ensures forall k :: 0 <= k < |RemoveUnsafe(netloc)| ==> !IsNetlocDelim(RemoveUnsafe(netloc)[k])
    ensures RemoveUnsafe(tail) == "" || IsNetlocDelim(RemoveUnsafe(tail)[0])
  {
    RemoveUnsafeNoDelim(netloc);
  }

  lemma {:induction false} RemoveUnsafeNoDelim(s: string)
    requires forall k :: 0 <= k < |s| ==> !IsNetlocDelim(s[k])
    ensures forall k :: 0 <= k < |RemoveUnsafe(s)| ==> !IsNetlocDelim(RemoveUnsafe(s)[k])
  {
    if s != [] {
      RemoveUnsafeNoDelim(s[1..]);
    }
  }

  /** A valid lower-case scheme before the first ":" is split off as it is. */
  lemma SplitSchemeOf(scheme: string, rest: string)
    requires IsScheme(scheme) && IsLowerCase(scheme)
    ensures SplitScheme(scheme + ":" + rest) == (scheme, rest)
  {
    var url := scheme + ":" + rest;
    assert url[|scheme|] == ':';
    assert forall k :: 0 <= k < |scheme| ==> url[k] == scheme[k] && url[k] != ':';
    FindAt(url, ':', |scheme|);
    assert url[..|scheme|] == scheme;
    LowerOfLowerCase(scheme);
  }

  /** After "//", the netloc runs up to the first delimiter. */
  lemma SplitNetlocOf(netloc: string, tail: string)
    requires forall k :: 0 <= k < |netloc| ==> !IsNetlocDelim(netloc[k])
    requires tail == "" || IsNetlocDelim(tail[0])
    ensures SplitNetloc("//" + netloc + tail) == (netloc, tail)
  {
    var rest := "//" + netloc + tail;
    var s := rest[2..];
    assert s == netloc + tail;
    NetlocLengthOf(s, |netloc|);
    assert s[..|netloc|] == netloc && s[|netloc|..] == tail;
  }

  lemma NetlocLengthOf(s: string, n: nat)
    requires n <= |s|
    requires forall k :: 0 <= k < n ==> !IsNetlocDelim(s[k])
    requires n < |s| ==> IsNetlocDelim(s[n])
    ensures NetlocLength(s) == n
  {
  }

  /** A URL of the form scheme://netloc followed by text that starts with "/", "?"
      or "#" (or nothing) splits into that scheme, that netloc and that text. */
  lemma SplitSchemeNetloc(scheme: string, netloc: string, tail: string)
    requires IsScheme(scheme) && IsLowerCase(scheme)
    requires forall k :: 0 <= k < |netloc| ==> !IsNetlocDelim(netloc[k])
    requires tail == "" || IsNetlocDelim(tail[0])
    ensures SplitScheme(scheme + "://" + netloc + tail) == (scheme, "//" + netloc + tail)
    ensures SplitNetloc("//" + netloc + tail) == (netloc, tail)
  {
    assert scheme + "://" + netloc + tail == scheme + ":" + ("//" + netloc + tail);
    SplitSchemeOf(scheme, "//" + netloc + tail);
    SplitNetlocOf(netloc, tail);
  }

  /** Such a URL parses into that scheme and netloc. */
  lemma ParseSchemeNetloc(scheme: string, netloc: string, tail: string)
    requires IsScheme(scheme) && IsLowerCase(scheme)
    requires forall k :: 0 <= k < |netloc| ==> !IsNetlocDelim(netloc[k]) && !IsUnsafe(netloc[k])
    requires tail == "" || IsNetlocDelim(tail[0])
    ensures Parse(scheme + "://" + netloc + tail).scheme == scheme
    ensures Parse(scheme + "://" + netloc + tail).netloc == netloc
  {
    CleanAfterScheme(scheme, netloc, tail);
    RemoveUnsafeKeeps(netloc);
    RemoveUnsafeParts(netloc, tail);
    SplitUrlSchemeNetloc(scheme, netloc, RemoveUnsafe(tail));
  }

  /** The split of scheme://netloc followed by a delimiter has that scheme and netloc. */
  lemma SplitUrlSchemeNetloc(scheme: string, netloc: string, tail: string)
    requires IsScheme(scheme) && IsLowerCase(scheme)
    requires forall k :: 0 <= k < |netloc| ==> !IsNetlocDelim(netloc[k])
    requires tail == "" || IsNetlocDelim(tail[0])
    ensures SplitUrl(scheme + "://" + netloc + tail).scheme == scheme
    ensures SplitUrl(scheme + "://" + netloc + tail).netloc == netloc
  {
    SplitSchemeNetloc(scheme, netloc, tail);
  }

  /** A URL with a lower-case scheme, a netloc and a path free of "?", "#" and ";"
      parses back into exactly those parts. */
  lemma ParseAbsolute(scheme: string, netloc: string, path: string)
    requires IsScheme(scheme) && IsLowerCase(scheme)
    requires forall k :: 0 <= k < |netloc| ==> !IsNetlocDelim(netloc[k])
    requires path == "" || path[0] == '/'
    requires '?' !in path && '#' !in path && ';' !in path
    requires forall k :: 0 <= k < |netloc| ==> !IsUnsafe(netloc[k])
    requires forall k :: 0 <= k < |path| ==> !IsUnsafe(path[k])
    ensures Parse(scheme + "://" + netloc + path) == Url(scheme, netloc, path, "", "", "")
  {
    CleanAfterScheme(scheme, netloc, path);
    RemoveUnsafeKeeps(netloc);
    RemoveUnsafeKeeps(path);
    SplitSchemeNetloc(scheme, netloc, path);
  }

  /** The query and fragment never reach the path: what follows "?" is cut off. */
  lemma ParseDropsQuery(scheme: string, netloc: string, path: string, query: string)
    requires IsScheme(scheme) && IsLowerCase(scheme)
    requires forall k :: 0 <= k < |netloc| ==> !IsNetlocDelim(netloc[k])
    requires path == "" || path[0] == '/'
    requires '?' !in path && '#' !in path && ';' !in path
    requires '#' !in query
    requires forall k :: 0 <= k < |netloc| ==> !IsUnsafe(netloc[k])
    requires forall k :: 0 <= k < |path| ==> !IsUnsafe(path[k])
    requires forall k :: 0 <= k < |query| ==> !IsUnsafe(query[k])
    ensures Parse(scheme + "://" + netloc + path + "?" + query).path == path
    ensures Parse(scheme + "://" + netloc + path + "?" + query).query == query
  {
    var tail := path + "?" + query;
    assert scheme + "://" + netloc + path + "?" + query == scheme + "://" + netloc + tail;
    CleanAfterScheme(scheme, netloc, tail);
    RemoveUnsafeKeeps(netloc);
    assert forall k :: 0 <= k < |tail| ==> tail[k] == if k < |path| then path[k] else if k == |path| then '?' else query[k - |path| - 1];
    RemoveUnsafeKeeps(tail);
    SplitSchemeNetloc(scheme, netloc, tail);
    SplitQuery(path, query);
  }

  /** The steps after the netloc on a path followed by "?" and a query without "#". */
  lemma SplitQuery(path: string, query: string)
    requires '?' !in path && '#' !in path
    requires '#' !in query
    ensures SplitFirst(path + "?" + query, '#') == (path + "?" + query, "")
    ensures SplitFirst(path + "?" + query, '?') == (path, query)
  {
    var tail := path + "?" + query;
    assert '#' !in tail by {
      assert forall k :: 0 <= k < |tail| ==> tail[k] == if k < |path| then path[k] else if k == |path| then '?' else query[k - |path| - 1];
    }
    FindAt(tail, '?', |path|);
    assert tail[..|path|] == path && tail[|path| + 1..] == query;
  }

  // ---------------------------------------------------------------- profile URL

  const ProfileScheme := "https"
  const ProfileHost := "ac.nowcoder.com"

  /** f'https://ac.nowcoder.com/acm/contest/profile/{uid}'. */
  function ProfileUrl(uid: string): string
  {
    ProfileScheme + "://" + ProfileHost + "/acm/contest/profile/" + uid
  }

  /** The profile URL's scheme is a valid lower-case scheme and its host has no delimiter. */
  lemma ProfileConstants()
    ensures IsScheme(ProfileScheme) && IsLowerCase(ProfileScheme)
    ensures forall k :: 0 <= k < |ProfileHost| ==> !IsNetlocDelim(ProfileHost[k]) && !IsUnsafe(ProfileHost[k])
  {
    assert forall k :: 0 <= k < |ProfileScheme| ==> IsAsciiAlpha(ProfileScheme[k]);
  }

  /** Whatever the ID, the profile URL parses with scheme https and host ac.nowcoder.com. */
  lemma ProfileUrlParts(uid: string)
    ensures Parse(ProfileUrl(uid)).scheme == ProfileScheme
    ensures Parse(ProfileUrl(uid)).netloc == ProfileHost
  {
    ProfileConstants();
    var tail := "/acm/contest/profile/" + uid;
    assert ProfileUrl(uid) == ProfileScheme + "://" + ProfileHost + tail;
    ParseSchemeNetloc(ProfileScheme, ProfileHost, tail);
  }

  // ---------------------------------------------------------------- normalisation

  /** The avatar link made absolute: a protocol-relative "//x" is handled first and
      gets "https:"; a root-relative "/p" gets the scheme and netloc of the
      profile URL it was found on; anything else is kept. */
  function NormalizeUrl(avatarUrl: string, profileUrl: string): string
  {
    if StartsWith(avatarUrl, "//") then "https:" + avatarUrl
    else if StartsWith(avatarUrl, "/") then
      var parsed := Parse(profileUrl);
      parsed.scheme + "://" + parsed.netloc + avatarUrl
    else avatarUrl
  }

  /** A protocol-relative link keeps its own host: it becomes https://x, never
      a path on the profile host; the host is read from x once cleaned. */
  lemma NormalizeProtocolRelative(uid: string, x: string)
    ensures NormalizeUrl("//" + x, ProfileUrl(uid)) == ProfileScheme + "://" + x
    ensures Parse(NormalizeUrl("//" + x, ProfileUrl(uid))).scheme == ProfileScheme
    ensures Parse(NormalizeUrl("//" + x, ProfileUrl(uid))).netloc == RemoveUnsafe(x)[..NetlocLength(RemoveUnsafe(x))]
  {
    NormalizeProtocolRelativeText(uid, x);
    ParseHttps(x);
  }

  lemma NormalizeProtocolRelativeText(uid: string, x: string)
    ensures NormalizeUrl("//" + x, ProfileUrl(uid)) == ProfileScheme + "://" + x
  {
    assert StartsWith("//" + x, "//");
    assert "https:" + ("//" + x) == ProfileScheme + "://" + x;
  }

  /** https://x parses with scheme https and the netloc at the start of x once cleaned. */
  lemma ParseHttps(x: string)
    ensures Parse(ProfileScheme + "://" + x).scheme == ProfileScheme
    ensures Parse(ProfileScheme + "://" + x).netloc == RemoveUnsafe(x)[..NetlocLength(RemoveUnsafe(x))]
  {
    ProfileConstants();
    assert ProfileScheme + "://" + x == ProfileScheme + "://" + "" + x;
    CleanAfterScheme(ProfileScheme, "", x);
    assert RemoveUnsafe("") == "";
    assert ProfileScheme + "://" + "" + RemoveUnsafe(x) == ProfileScheme + "://" + RemoveUnsafe(x);
    SplitHttps(RemoveUnsafe(x));
  }

  /** The split of https://y: scheme https and the netloc at the start of y. */
  lemma SplitHttps(y: string)
    ensures SplitUrl(ProfileScheme + "://" + y).scheme == ProfileScheme
    ensures SplitUrl(ProfileScheme + "://" + y).netloc == y[..NetlocLength(y)]
  {
    var n := NetlocLength(y);
    var netloc, tail := y[..n], y[n..];
    ProfileConstants();
    assert y == netloc + tail;
    assert forall k :: 0 <= k < n ==> netloc[k] == y[k];
    AppendAssoc(ProfileScheme + "://", netloc, tail);
    SplitUrlSchemeNetloc(ProfileScheme, netloc, tail);
  }

  /** A root-relative link "/p" (not "//") resolves against the profile host. */
  lemma NormalizeRootRelative(uid: string, p: string)
    requires !StartsWith("/" + p, "//")
    ensures NormalizeUrl("/" + p, ProfileUrl(uid)) == ProfileScheme + "://" + ProfileHost + ("/" + p)
    ensures Parse(NormalizeUrl("/" + p, ProfileUrl(uid))).scheme == ProfileScheme
    ensures Parse(NormalizeUrl("/" + p, ProfileUrl(uid))).netloc == ProfileHost
  {
    ProfileUrlParts(uid);
    assert StartsWith("/" + p, "/");
    ProfileConstants();
    ParseSchemeNetloc(ProfileScheme, ProfileHost, "/" + p);
  }

  /** Links that do not start with "/" are returned as they are. */
  lemma NormalizeKeepsOthers(avatarUrl: string, profileUrl: string)
    requires !StartsWith(avatarUrl, "/")
    ensures NormalizeUrl(avatarUrl, profileUrl) == avatarUrl
  {
  }

  /** Normalising against a profile URL twice is normalising once: the result
      never starts with "/". */
  lemma NormalizeIdempotent(avatarUrl: string, uid: string)
    ensures NormalizeUrl(NormalizeUrl(avatarUrl, ProfileUrl(uid)), ProfileUrl(uid)) == NormalizeUrl(avatarUrl, ProfileUrl(uid))
  {
    var r := NormalizeUrl(avatarUrl, ProfileUrl(uid));
    if StartsWith(avatarUrl, "/") {
      ProfileUrlParts(uid);
      assert r[0] == 'h';
    }
    NormalizeKeepsOthers(r, ProfileUrl(uid));
  }
}
