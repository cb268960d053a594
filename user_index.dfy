/** The nickname -> user ID index of get_user_id.py: which anchors of a
    leaderboard page count as user links, how a nickname is read off an anchor,
    how the numeric ID is read off its href, and how the per-page maps are merged. */
module UserIndex {
  import opened Common

  /** An anchor element of a parsed page: its text as get_text(strip=True)
      gives it (each descendant string stripped, the non-empty ones
      concatenated), its `title` attribute ("" when absent), the same text for
      each child node that offers get_text, in document order, and its `href`
      ("" when absent). */
  datatype Link = Link(text: string, title: string, childTexts: seq<string>, href: string)

  /** A configured HTML file that exists: either parsing raised, or it yields the
      anchors of the page in document order. */
  datatype Document = Unreadable(error: string) | Parsed(anchors: seq<Link>)

  /** An index well formed as parse_user_links builds it: non-empty nicknames
      mapped to IDs made of digits. */
  predicate WellFormedIndex(index: map<string, string>)
  {
    forall nick :: nick in index ==> nick != "" && IsDecimal(index[nick])
  }

  // ---------------------------------------------------------------- nicknames

  /** The position of the first non-empty string of xs, |xs| when there is none. */
  function FirstNonEmptyIndex(xs: seq<string>): (k: nat)
    ensures k <= |xs|
    ensures k < |xs| ==> xs[k] != ""
    ensures forall j :: 0 <= j < k ==> xs[j] == ""
  {
    if xs == [] || xs[0] != "" then 0 else 1 + FirstNonEmptyIndex(xs[1..])
  }

  /** The first non-empty string of xs, or "" when all are empty. */
  function FirstNonEmpty(xs: seq<string>): string
  {
    var k := FirstNonEmptyIndex(xs);
    if k < |xs| then xs[k] else ""
  }

  /** Looking for the first non-empty string past an empty one skips it. */
  lemma FirstNonEmptyCons(x: string, xs: seq<string>)
    ensures FirstNonEmpty([x] + xs) == if x != "" then x else FirstNonEmpty(xs)
  {
    if x == "" {
      assert ([x] + xs)[1..] == xs;
    }
  }

  /** Each text stripped, in order. */
  function StripAll(texts: seq<string>): (r: seq<string>)
    ensures |r| == |texts|
    ensures forall k :: 0 <= k < |texts| ==> r[k] == Strip(texts[k])
  {
    if texts == [] then [] else [Strip(texts[0])] + StripAll(texts[1..])
  }

  /** The nickname candidates in the order extract_nickname tries them: the
      stripped link text, the title as it is, then each stripped child text. */
  function Candidates(link: Link): seq<string>
  {
    [Strip(link.text)] + ([link.title] + StripAll(link.childTexts))
  }

  /** The loop over the children in extract_nickname: the first child text that
      is non-empty once stripped, stripped; "" if there is none. */
  function ChildNickname(texts: seq<string>): string
  {
    if texts == [] then ""
    else
      var nickname := Strip(texts[0]);
      if nickname != "" then nickname else ChildNickname(texts[1..])
  }

  /** extract_nickname: the stripped link text, else the title, else the loop
      over the children. */
  function ExtractNickname(link: Link): string
  {
    var nickname := Strip(link.text);
    if nickname != "" then nickname
    else if link.title != "" then link.title
    else ChildNickname(link.childTexts)
  }

  /** The loop over the children returns the first child text that is non-empty
      once stripped. */
  lemma {:induction false} ChildNicknameIsFirst(texts: seq<string>)
    ensures ChildNickname(texts) == FirstNonEmpty(StripAll(texts))
  {
    if texts != [] {
      FirstNonEmptyCons(Strip(texts[0]), StripAll(texts[1..]));
      ChildNicknameIsFirst(texts[1..]);
    }
  }

  /** extract_nickname returns the first candidate that is not empty, and "" only
      when every candidate is empty. */
  lemma ExtractNicknameIsFirst(link: Link)
    ensures ExtractNickname(link) == FirstNonEmpty(Candidates(link))
    ensures ExtractNickname(link) == "" <==>
      forall k :: 0 <= k < |Candidates(link)| ==> Candidates(link)[k] == ""
  {
    FirstNonEmptyCons(Strip(link.text), [link.title] + StripAll(link.childTexts));
    FirstNonEmptyCons(link.title, StripAll(link.childTexts));
    ChildNicknameIsFirst(link.childTexts);
  }

  // ---------------------------------------------------------------- user IDs

  const ProfilePath := "/acm/contest/profile/"

  /** The regex /acm/contest/profile/\d+ matches `href` starting at position i. */
  predicate MatchesAt(href: string, i: nat)
  {
    i + |ProfilePath| < |href| && href[i..i + |ProfilePath|] == ProfilePath && IsDigit(href[i + |ProfilePath|])
  }

  /** The digits \d+ consumes greedily at the start of s. */
  function DigitRun(s: string): (r: string)
    ensures r <= s
    ensures forall k :: 0 <= k < |r| ==> IsDigit(r[k])
    ensures |r| == |s| || !IsDigit(s[|r|])
  {
    if s != [] && IsDigit(s[0]) then [s[0]] + DigitRun(s[1..]) else []
  }

  /** The leftmost position at or after i where the pattern matches, or -1. */
  function MatchFrom(href: string, i: nat): (j: int)
    ensures j == -1 || (i <= j && MatchesAt(href, j))
    ensures forall j' :: i <= j' && (j == -1 || j' < j) ==> !MatchesAt(href, j')
    decreases |href| - i
  {
    if i + |ProfilePath| >= |href| then -1
    else if MatchesAt(href, i) then i
    else MatchFrom(href, i + 1)
  }

  /** re.search(r'/acm/contest/profile/(\d+)', href).group(1): the digits after the
      leftmost occurrence of the profile path that a digit follows, all of them. */
  function ProfileId(href: string): (r: Option<string>)
    ensures r.None? <==> forall j :: 0 <= j ==> !MatchesAt(href, j)
    ensures r.Some? ==> IsDecimal(r.value)
    ensures r.Some? ==> var j := MatchFrom(href, 0);
                        0 <= j && ProfilePath + r.value <= href[j..] &&
                        (j + |ProfilePath| + |r.value| < |href| ==> !IsDigit(href[j + |ProfilePath| + |r.value|]))
  {
    var j := MatchFrom(href, 0);
    if j < 0 then None
    else
      var rest := href[j + |ProfilePath|..];
      var id := DigitRun(rest);
      assert rest[0] == href[j + |ProfilePath|];
      assert href[j..] == ProfilePath + rest;
      assert ProfilePath + id <= href[j..];
      assert |id| < |rest| ==> rest[|id|] == href[j + |ProfilePath| + |id|];
      Some(id)
  }

  /** soup.find_all('a', href=re.compile(r'/acm/contest/profile/\d+')): the anchors
      whose href the pattern matches, in document order. */
  function UserLinks(anchors: seq<Link>): (links: seq<Link>)
    ensures |links| <= |anchors|
    ensures forall l :: l in links <==> l in anchors && ProfileId(l.href).Some?
  {
    if anchors == [] then []
    else
      var init := UserLinks(anchors[..|anchors| - 1]);
      var last := anchors[|anchors| - 1];
      assert anchors == anchors[..|anchors| - 1] + [last];
      if ProfileId(last.href).Some? then init + [last] else init
  }

  // ---------------------------------------------------------------- per-file map

  /** `link` makes parse_user_links record the pair (nick, its profile ID). */
  predicate Records(link: Link, nick: string)
  {
    nick != "" && ExtractNickname(link) == nick && ProfileId(link.href).Some?
  }

  /** One step of the loop in parse_user_links. */
  function Record(index: map<string, string>, link: Link): map<string, string>
  {
    var nickname := ExtractNickname(link);
    var idMatch := ProfileId(link.href);
    if idMatch.Some? && nickname != "" then index[nickname := idMatch.value] else index
  }

  /** The map parse_user_links returns for `links`, taken in order. */
  function LinksToMap(links: seq<Link>): (index: map<string, string>)
    ensures WellFormedIndex(index)
  {
    if links == [] then map[] else Record(LinksToMap(links[..|links| - 1]), links[|links| - 1])
  }

  /** Filtering the anchors down to the profile links loses nothing the map
      needs: the links it drops record nothing, and the ones it keeps stay in
      document order, so the map of the user links is the map of all anchors. */
  lemma {:induction false} UserLinksKeepMap(anchors: seq<Link>)
    ensures LinksToMap(UserLinks(anchors)) == LinksToMap(anchors)
  {
    if anchors != [] {
      var n := |anchors| - 1;
      var init := UserLinks(anchors[..n]);
      var last := anchors[n];
      UserLinksKeepMap(anchors[..n]);
      if ProfileId(last.href).Some? {
        assert (init + [last])[..|init|] == init;
      }
    }
  }

  /** The position of the last element of xs that satisfies p, or -1. */
  function LastWhere<T>(xs: seq<T>, p: T -> bool): (j: int)
    ensures -1 <= j < |xs|
    ensures j >= 0 ==> p(xs[j])
    ensures forall j' :: j < j' < |xs| ==> !p(xs[j'])
  {
    if xs == [] then -1
    else if p(xs[|xs| - 1]) then |xs| - 1
    else LastWhere(xs[..|xs| - 1], p)
  }

  /** The position of the last link that records `nick`, or -1. */
  function LastRecord(links: seq<Link>, nick: string): (j: int)
    ensures -1 <= j < |links|
    ensures j >= 0 ==> Records(links[j], nick)
    ensures forall j' :: j < j' < |links| ==> !Records(links[j'], nick)
  {
    LastWhere(links, l => Records(l, nick))
  }

  /** A nickname is in the per-file map exactly when some link records it, and it
      then holds the ID of the LAST link that records it. */
  lemma {:induction false} LinksToMapLastWins(links: seq<Link>, nick: string)
    ensures nick in LinksToMap(links) <==> LastRecord(links, nick) >= 0
    ensures nick in LinksToMap(links) ==>
      LinksToMap(links)[nick] == ProfileId(links[LastRecord(links, nick)].href).value
  {
    if links != [] {
      var n := |links| - 1;
      var init := links[..n];
      LinksToMapLastWins(init, nick);
      if !Records(links[n], nick) {
        var j := LastRecord(init, nick);
        assert LastRecord(links, nick) == j;
        assert j >= 0 ==> links[j] == init[j];
        assert nick in LinksToMap(links) <==> nick in LinksToMap(init);
      }
    }
  }

  /** parse_user_links: fills a dict over the user links of the page, a later link
      overwriting an earlier one with the same nickname. */
  method ParseUserLinks(anchors: seq<Link>) returns (userMappings: map<string, string>)
    ensures userMappings == LinksToMap(UserLinks(anchors))
    ensures WellFormedIndex(userMappings)
  {
    var userLinks := UserLinks(anchors);
    userMappings := map[];
    for i := 0 to |userLinks|
      invariant userMappings == LinksToMap(userLinks[..i])
    {
      var link := userLinks[i];
      var nickname := ExtractNickname(link);
      var userIdMatch := ProfileId(link.href);
      LinksToMapStep(userLinks, i);
      ghost var before := userMappings;
      if userIdMatch.Some? && nickname != "" {
        userMappings := userMappings[nickname := userIdMatch.value];
      }
      assert userMappings == Record(before, link);
    }
    assert userLinks[..|userLinks|] == userLinks;
  }

  lemma LinksToMapStep(links: seq<Link>, i: nat)
    requires i < |links|
    ensures LinksToMap(links[..i + 1]) == Record(LinksToMap(links[..i]), links[i])
  {
    assert links[..i + 1][..i] == links[..i];
    assert links[..i + 1][i] == links[i];
  }

  // ---------------------------------------------------------------- merging files

  /** What one configured file contributes: nothing when it is missing or parsing
      raised, otherwise the map of its user links. */
  function FileIndex(docs: map<string, Document>, file: string): (index: map<string, string>)
    ensures WellFormedIndex(index)
  {
    if file in docs && docs[file].Parsed? then LinksToMap(UserLinks(docs[file].anchors)) else map[]
  }

  /** The file is skipped by the loop of parse_html_files. */
  predicate Skipped(docs: map<string, Document>, file: string)
  {
    file !in docs || docs[file].Unreadable?
  }

  /** The mapping after the loop of parse_html_files: `update` with each file's
      map, left to right. */
  function MergeAll(index: map<string, string>, files: seq<string>, docs: map<string, Document>): (r: map<string, string>)
    ensures WellFormedIndex(index) ==> WellFormedIndex(r)
    ensures index.Keys <= r.Keys
  {
    if files == [] then index
    else MergeAll(index, files[..|files| - 1], docs) + FileIndex(docs, files[|files| - 1])
  }

  /** Merging a concatenation is merging the first part, then the second. */
  lemma {:induction false} MergeAllAppend(index: map<string, string>, a: seq<string>, b: seq<string>, docs: map<string, Document>)
    ensures MergeAll(index, a + b, docs) == MergeAll(MergeAll(index, a, docs), b, docs)
  {
    if b == [] {
      assert a + b == a;
    } else {
      var n := |b| - 1;
      assert (a + b)[..|a + b| - 1] == a + b[..n];
      assert (a + b)[|a + b| - 1] == b[n];
      MergeAllAppend(index, a, b[..n], docs);
    }
  }

  /** A missing or unreadable file changes nothing: the result is the one
      obtained without it in the list. */
  lemma SkippedFileContributesNothing(index: map<string, string>, a: seq<string>, file: string, b: seq<string>, docs: map<string, Document>)
    requires Skipped(docs, file)
    ensures MergeAll(index, a + [file] + b, docs) == MergeAll(index, a + b, docs)
  {
    MergeAllAppend(index, a + [file], b, docs);
    MergeAllAppend(index, a, b, docs);
    MergeAllSnoc(index, a, file, docs);
    assert FileIndex(docs, file) == map[];
    MapUnionEmpty(MergeAll(index, a, docs));
  }

  lemma MergeAllSnoc(index: map<string, string>, a: seq<string>, file: string, docs: map<string, Document>)
    ensures MergeAll(index, a + [file], docs) == MergeAll(index, a, docs) + FileIndex(docs, file)
  {
    assert (a + [file])[..|a|] == a;
  }

  lemma MapUnionEmpty(m: map<string, string>)
    ensures m + map[] == m
  {
  }

  /** The position of the last file whose map holds `nick`, or -1. */
  function LastFileWith(files: seq<string>, docs: map<string, Document>, nick: string): (j: int)
    ensures -1 <= j < |files|
    ensures j >= 0 ==> nick in FileIndex(docs, files[j])
    ensures forall j' :: j < j' < |files| ==> nick !in FileIndex(docs, files[j'])
  {
    LastWhere(files, f => nick in FileIndex(docs, f))
  }

  /** On a nickname several files define, the LAST such file in the list wins;
      one no file defines keeps its earlier value, or stays absent. */
  lemma {:induction false} MergeAllLastWins(index: map<string, string>, files: seq<string>, docs: map<string, Document>, nick: string)
    ensures nick in MergeAll(index, files, docs) <==> nick in index || LastFileWith(files, docs, nick) >= 0
    ensures nick in MergeAll(index, files, docs) ==>
      MergeAll(index, files, docs)[nick] ==
        var j := LastFileWith(files, docs, nick);
        if j >= 0 then FileIndex(docs, files[j])[nick] else index[nick]
  {
    if files != [] {
      var n := |files| - 1;
      var init := files[..n];
      MergeAllLastWins(index, init, docs, nick);
      if nick !in FileIndex(docs, files[n]) {
        var j := LastFileWith(init, docs, nick);
        assert LastFileWith(files, docs, nick) == j;
        assert j >= 0 ==> files[j] == init[j];
      }
    }
  }
}
