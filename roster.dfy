/** The reconciliation step of process_excel in get_user_id.py: finding the
    header columns by keyword, looking each roster nickname up in the
    nickname -> ID index, collecting the nicknames that were not found, the
    deduplicated ID list, and the name of the CSV file written. */
module Roster {
  import opened Common
  import opened Paths
  import opened UserIndex

  /** A spreadsheet as pandas reads it: the header names (str(col)) and the rows
      of cell texts (astype(str)). */
  datatype Sheet = Sheet(header: seq<string>, rows: seq<seq<string>>)

  /** The cell of a row in column c; "" past the end of a short row. */
  function Cell(row: seq<string>, c: nat): string
  {
    if c < |row| then row[c] else ""
  }

  /** The cells of column c, one per row, in row order. */
  function Column(sheet: Sheet, c: nat): (col: seq<string>)
    ensures |col| == |sheet.rows|
    ensures forall i :: 0 <= i < |col| ==> col[i] == Cell(sheet.rows[i], c)
  {
    seq(|sheet.rows|, i requires 0 <= i < |sheet.rows| => Cell(sheet.rows[i], c))
  }

  // ---------------------------------------------------------------- find_col

  const NicknameKeywords: seq<string> := ["昵称", "昵称名称"]
  const FallbackNicknameKeywords: seq<string> := ["nick", "Nick"]
  const RealNameKeywords: seq<string> := ["真实姓名", "真实名称", "姓名"]
  const SchoolKeywords: seq<string> := ["学校", "院校", "单位"]

  /** Some keyword occurs in the column name. */
  predicate HasKeyword(name: string, keywords: seq<string>)
  {
    exists k :: 0 <= k < |keywords| && Contains(name, keywords[k])
  }

  /** The inner loop of find_col: is any keyword a substring of the name? */
  function AnyKeyword(name: string, keywords: seq<string>): (b: bool)
    ensures b <==> HasKeyword(name, keywords)
  {
    if keywords == [] then false
    else
      assert forall k :: 1 <= k < |keywords| ==> keywords[k] == keywords[1..][k - 1];
      Contains(name, keywords[0]) || AnyKeyword(name, keywords[1..])
  }

  /** find_col: the first column, in header order, whose name holds a keyword;
      None when there is none. */
  function FindCol(cols: seq<string>, keywords: seq<string>): (r: Option<nat>)
    ensures r.Some? ==> r.value < |cols| && HasKeyword(cols[r.value], keywords)
    ensures r.Some? ==> forall c :: 0 <= c < r.value ==> !HasKeyword(cols[c], keywords)
    ensures r.None? <==> forall c :: 0 <= c < |cols| ==> !HasKeyword(cols[c], keywords)
  {
    if cols == [] then None
    else if AnyKeyword(cols[0], keywords) then Some(0)
    else
      match FindCol(cols[1..], keywords)
      case None =>
        assert forall c :: 1 <= c < |cols| ==> cols[c] == cols[1..][c - 1];
        None
      case Some(k) =>
        assert forall c :: 1 <= c <= k + 1 ==> cols[c] == cols[1..][c - 1];
        Some(k + 1)
  }

  /** The nickname column: one whose name holds 昵称, else one holding nick or Nick. */
  function NicknameColumn(cols: seq<string>): (r: Option<nat>)
    ensures r.Some? ==> r.value < |cols|
    ensures r.None? <==> forall c :: 0 <= c < |cols| ==>
      !HasKeyword(cols[c], NicknameKeywords) && !HasKeyword(cols[c], FallbackNicknameKeywords)
    ensures r.Some? && HasKeyword(cols[r.value], NicknameKeywords) ==>
      forall c :: 0 <= c < r.value ==> !HasKeyword(cols[c], NicknameKeywords)
    ensures r.Some? && !HasKeyword(cols[r.value], NicknameKeywords) ==>
      HasKeyword(cols[r.value], FallbackNicknameKeywords) &&
      (forall c :: 0 <= c < |cols| ==> !HasKeyword(cols[c], NicknameKeywords)) &&
      (forall c :: 0 <= c < r.value ==> !HasKeyword(cols[c], FallbackNicknameKeywords))
  {
    var primary := FindCol(cols, NicknameKeywords);
    if primary.Some? then primary else FindCol(cols, FallbackNicknameKeywords)
  }

  /** The real-name or school column as process_excel builds it: the column's
      cells when the header has one, otherwise a blank per row. */
  function OptionalColumn(sheet: Sheet, keywords: seq<string>): (col: seq<string>)
    ensures |col| == |sheet.rows|
    ensures FindCol(sheet.header, keywords).None? ==> forall i :: 0 <= i < |col| ==> col[i] == ""
    ensures FindCol(sheet.header, keywords).Some? ==>
      forall i :: 0 <= i < |col| ==> col[i] == Cell(sheet.rows[i], FindCol(sheet.header, keywords).value)
  {
    match FindCol(sheet.header, keywords)
    case Some(c) => Column(sheet, c)
    case None => seq(|sheet.rows|, i => "")
  }

  // ---------------------------------------------------------------- lookup

  /** dict.get(key, ''). */
  function Get(index: map<string, string>, key: string): string
  {
    if key in index then index[key] else ""
  }

  /** The lookup of one roster nickname: the stripped nickname first, then the
      stripped nickname with every whitespace character removed; "" on a miss. */
  function Lookup(index: map<string, string>, nick: string): string
  {
    LookupKey(index, Strip(nick))
  }

  /** The two dict.get calls on the stripped nickname nick_key. */
  function LookupKey(index: map<string, string>, nickKey: string): string
  {
    var uid := Get(index, nickKey);
    if uid != "" then uid else Get(index, RemoveSpaces(nickKey))
  }

  /** A found ID is the index entry of one of the two keys. */
  lemma LookupSound(index: map<string, string>, nick: string)
    ensures var uid := Lookup(index, nick);
      uid != "" ==>
        (Strip(nick) in index && uid == index[Strip(nick)]) ||
        (RemoveSpaces(Strip(nick)) in index && uid == index[RemoveSpaces(Strip(nick))])
  {
  }

  /** With a well-formed index, a nickname is missed exactly when neither key is in it. */
  lemma LookupMissIff(index: map<string, string>, nick: string)
    requires WellFormedIndex(index)
    ensures Lookup(index, nick) == "" <==> Strip(nick) !in index && RemoveSpaces(Strip(nick)) !in index
  {
  }

  /** With a well-formed index the stripped key takes priority, and the fallback
      key is the nickname with all its whitespace removed, stripped first or not. */
  lemma LookupKeys(index: map<string, string>, nick: string)
    requires WellFormedIndex(index)
    ensures Strip(nick) in index ==> Lookup(index, nick) == index[Strip(nick)]
    ensures Strip(nick) !in index ==> Lookup(index, nick) == Get(index, RemoveSpaces(nick))
  {
    RemoveSpacesIgnoresStrip(nick);
  }

  /** The ID of every row, in row order. */
  function LookupAll(index: map<string, string>, nicks: seq<string>): (ids: seq<string>)
    ensures |ids| == |nicks|
  {
    seq(|nicks|, k requires 0 <= k < |nicks| => Lookup(index, nicks[k]))
  }

  /** The keys whose ID is "", in order, duplicates kept. */
  function MissedKeys(keys: seq<string>, ids: seq<string>): (r: seq<string>)
    requires |keys| == |ids|
  {
    if keys == [] then []
    else
      var n := |keys| - 1;
      MissedKeys(keys[..n], ids[..n]) + (if ids[n] == "" then [keys[n]] else [])
  }

  /** The number of non-empty IDs: len([u for u in user_ids if u]). */
  function MatchedCount(ids: seq<string>): (n: nat)
    ensures n <= |ids|
  {
    if ids == [] then 0
    else MatchedCount(ids[..|ids| - 1]) + (if ids[|ids| - 1] != "" then 1 else 0)
  }

  /** Every row is either matched or missed, never both. */
  lemma {:induction false} MatchedPlusMissed(keys: seq<string>, ids: seq<string>)
    requires |keys| == |ids|
    ensures MatchedCount(ids) + |MissedKeys(keys, ids)| == |ids|
  {
    if keys != [] {
      var n := |keys| - 1;
      MatchedPlusMissed(keys[..n], ids[..n]);
    }
  }

  /** not_found: the stripped nicknames of the rows that were missed. */
  function Misses(index: map<string, string>, nicks: seq<string>): seq<string>
  {
    MissedKeys(StripAll(nicks), LookupAll(index, nicks))
  }

  /** Each entry of not_found is a stripped nickname. */
  lemma {:induction false} MissedKeysStripped(keys: seq<string>, ids: seq<string>)
    requires |keys| == |ids|
    requires forall k :: 0 <= k < |keys| ==> IsStripped(keys[k])
    ensures forall k :: 0 <= k < |MissedKeys(keys, ids)| ==> IsStripped(MissedKeys(keys, ids)[k])
  {
    if keys != [] {
      var n := |keys| - 1;
      MissedKeysStripped(keys[..n], ids[..n]);
    }
  }

  lemma PrefixStep(keys: seq<string>, ids: seq<string>, i: nat)
    requires |keys| == |ids| && i < |keys|
    ensures ids[..i + 1] == ids[..i] + [ids[i]]
    ensures MissedKeys(keys[..i + 1], ids[..i + 1]) ==
      MissedKeys(keys[..i], ids[..i]) + (if ids[i] == "" then [keys[i]] else [])
  {
    assert keys[..i + 1][..i] == keys[..i];
    assert ids[..i + 1][..i] == ids[..i];
  }

  lemma WholePrefix(keys: seq<string>, ids: seq<string>)
    requires |keys| == |ids|
    ensures ids[..|ids|] == ids && keys[..|keys|] == keys
    ensures MatchedCount(ids) + |MissedKeys(keys, ids)| == |ids|
  {
    assert ids[..|ids|] == ids && keys[..|keys|] == keys;
    MatchedPlusMissed(keys, ids);
  }

  /** The matching loop of process_excel: one ID per row, in row order ("" for
      a miss), and the stripped nickname of each miss appended to not_found. */
  method MatchNicknames(index: map<string, string>, nicks: seq<string>) returns (userIds: seq<string>, notFound: seq<string>)
    ensures userIds == LookupAll(index, nicks)
    ensures forall i :: 0 <= i < |nicks| ==> userIds[i] == Lookup(index, nicks[i])
    ensures notFound == Misses(index, nicks)
    ensures MatchedCount(userIds) + |notFound| == |nicks|
  {
    userIds := [];
    notFound := [];
    ghost var all := LookupAll(index, nicks);
    ghost var keys := StripAll(nicks);
    for i := 0 to |nicks|
      invariant userIds == all[..i]
      invariant notFound == MissedKeys(keys[..i], all[..i])
    {
      var nickKey := Strip(nicks[i]);
      var uid := LookupKey(index, nickKey);
      LookupAt(index, nicks, i);
      PrefixStep(keys, all, i);
      userIds := userIds + [uid];
      if uid == "" {
        notFound := notFound + [nickKey];
      }
    }
    WholePrefix(keys, all);
    LookupAllPointwise(index, nicks);
  }

  lemma LookupAt(index: map<string, string>, nicks: seq<string>, i: nat)
    requires i < |nicks|
    ensures LookupAll(index, nicks)[i] == LookupKey(index, Strip(nicks[i]))
    ensures StripAll(nicks)[i] == Strip(nicks[i])
  {
  }

  lemma LookupAllPointwise(index: map<string, string>, nicks: seq<string>)
    ensures forall i :: 0 <= i < |nicks| ==> LookupAll(index, nicks)[i] == Lookup(index, nicks[i])
  {
  }

  // ---------------------------------------------------------------- unique IDs

  predicate NoDuplicates(xs: seq<string>)
  {
    forall i, j :: 0 <= i < j < |xs| ==> xs[i] != xs[j]
  }

  /** list(dict.fromkeys([u for u in user_ids if u])): the non-empty IDs, each once,
      at the place of its first occurrence. */
  function UniqueIds(ids: seq<string>): (u: seq<string>)
    ensures forall x :: x in u <==> x in ids && x != ""
    ensures NoDuplicates(u)
  {
    if ids == [] then []
    else
      var init := ids[..|ids| - 1];
      var last := ids[|ids| - 1];
      var u := UniqueIds(init);
      assert ids == init + [last];
      if last == "" || last in u then u else u + [last]
  }

  /** The position of the first occurrence of x in xs. */
  function FirstIndex(xs: seq<string>, x: string): (k: nat)
    requires x in xs
    ensures k < |xs| && xs[k] == x
    ensures forall j :: 0 <= j < k ==> xs[j] != x
  {
    if xs[0] == x then 0 else 1 + FirstIndex(xs[1..], x)
  }

  lemma FirstIndexOfPrefix(xs: seq<string>, y: string, x: string)
    requires x in xs
    ensures FirstIndex(xs + [y], x) == FirstIndex(xs, x)
  {
    var k := FirstIndex(xs, x);
    assert (xs + [y])[k] == x;
  }

  /** The unique IDs come in the order of their first occurrence in user_ids. */
  lemma {:induction false} UniqueIdsFirstOccurrenceOrder(ids: seq<string>)
    ensures forall i, j :: 0 <= i < j < |UniqueIds(ids)| ==>
      FirstIndex(ids, UniqueIds(ids)[i]) < FirstIndex(ids, UniqueIds(ids)[j])
  {
    if ids != [] {
      var init := ids[..|ids| - 1];
      var last := ids[|ids| - 1];
      var u0 := UniqueIds(init);
      var u := UniqueIds(ids);
      assert ids == init + [last];
      UniqueIdsFirstOccurrenceOrder(init);
      forall x | x in u0 ensures FirstIndex(ids, x) == FirstIndex(init, x) {
        FirstIndexOfPrefix(init, last, x);
      }
      if u != u0 {
        assert u == u0 + [last];
        assert last !in init;
        assert FirstIndex(ids, last) == |init|;
        forall i, j | 0 <= i < j < |u| ensures FirstIndex(ids, u[i]) < FirstIndex(ids, u[j]) {
          assert u[i] == u0[i];
          if j < |u0| {
            assert u[j] == u0[j];
          }
        }
      }
    }
  }

  // ---------------------------------------------------------------- CSV name

  const DefaultCsvFile := "Output/output.csv"

  /** Any name with ".csv" appended ends with .csv once lower-cased. */
  lemma LowerEndsWithCsv(base: string)
    ensures EndsWith(Lower(base + ".csv"), ".csv")
  {
    LowerAppend(base, ".csv");
    assert Lower(".csv") == ".csv";
    EndsWithAppend(Lower(base), ".csv");
  }

  /** The CSV file name: the configured output file when it ends in .csv in any
      letter case, otherwise its splitext stem with ".csv", and Output/output.csv
      when no output file is configured. */
  function CsvFileName(outputFile: Option<string>): (r: string)
    ensures EndsWith(Lower(r), ".csv")
    ensures outputFile.Some? && EndsWith(Lower(outputFile.value), ".csv") ==> r == outputFile.value
    ensures outputFile.None? || outputFile.value == "" ==> r == DefaultCsvFile
  {
    if outputFile.Some? && outputFile.value != "" && EndsWith(Lower(outputFile.value), ".csv") then
      outputFile.value
    else if outputFile.Some? && outputFile.value != "" then
      var base := SplitExt(outputFile.value).0;
      LowerEndsWithCsv(base);
      base + ".csv"
    else
      LowerEndsWithCsv("Output/output");
      DefaultCsvFile
  }

  /** A configured name keeps everything up to its extension: the CSV name is the
      configured name with at most its last extension replaced by ".csv". */
  lemma CsvFileNameReplacesExtension(outputFile: string)
    requires outputFile != ""
    ensures var r := CsvFileName(Some(outputFile));
      |r| >= 4 && (exists ext :: outputFile == r[..|r| - 4] + ext && '/' !in ext) &&
      (!EndsWith(Lower(outputFile), ".csv") ==> r == SplitExt(outputFile).0 + ".csv")
  {
    var f := outputFile;
    var r := CsvFileName(Some(f));
    if EndsWith(Lower(f), ".csv") {
      var ext := f[|f| - 4..];
      assert f == r[..|r| - 4] + ext;
      forall k | 0 <= k < |ext| ensures ext[k] != '/' {
        assert LowerChar(ext[k]) == Lower(f)[|f| - 4 + k];
      }
      assert '/' !in ext;
    } else {
      var parts := SplitExt(f);
      assert r == parts.0 + ".csv";
      assert r[..|r| - 4] == parts.0;
      assert f == r[..|r| - 4] + parts.1 && '/' !in parts.1;
    }
  }

  /** Deriving the CSV name from a name already derived changes nothing. */
  lemma CsvFileNameIdempotent(outputFile: Option<string>)
    ensures CsvFileName(Some(CsvFileName(outputFile))) == CsvFileName(outputFile)
  {
  }
}
