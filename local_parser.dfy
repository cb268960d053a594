/** The NowCoderLocalParser class of get_user_id.py: the configured paths, the
    nickname -> ID mapping it accumulates over the HTML files, the spreadsheet
    step and the top-level run. Files are given as values: the HTML documents
    as a map from path to parse result, the set of existing paths, and the
    spreadsheet as it was read (or None when reading raised). */
module LocalParser {
  import opened Common
  import opened Paths
  import opened UserIndex
  import opened Roster

  /** The entries of config.json the class reads: local.html_files ([] when
      absent) and the five entries of files (None when absent). */
  datatype Config = Config(
    htmlFiles: seq<string>,
    inputFile: Option<string>,
    outputFile: Option<string>,
    userIdList: Option<string>,
    notFoundUsers: Option<string>,
    avatarDir: Option<string>)

  const InputDir := "Input/"

  /** An HTML file name under Input/: the prefix is added unless already there,
      to the empty name too. */
  function InputPath(f: string): (p: string)
    ensures StartsWith(p, InputDir) && EndsWith(p, f)
    ensures StartsWith(f, InputDir) ==> p == f
    ensures !StartsWith(f, InputDir) ==> p == InputDir + f
  {
    EndsWithAppend(InputDir, f);
    assert EndsWith(f, f);
    if StartsWith(f, InputDir) then f else InputDir + f
  }

  function InputPaths(fs: seq<string>): (ps: seq<string>)
    ensures |ps| == |fs|
    ensures forall k :: 0 <= k < |fs| ==> ps[k] == InputPath(fs[k])
  {
    seq(|fs|, k requires 0 <= k < |fs| => InputPath(fs[k]))
  }

  /** Prefixing the HTML file names twice is prefixing them once. */
  lemma InputPathsIdempotent(fs: seq<string>)
    ensures InputPaths(InputPaths(fs)) == InputPaths(fs)
  {
  }

  /** A text file as `for line in f` yields it: each line with its "\n". */
  datatype FileWrite = FileWrite(path: string, lines: seq<string>)

  /** A value Python treats as true: set and non-empty. */
  predicate Truthy(p: Option<string>)
  {
    p.Some? && p.value != ""
  }

  /** One row of the CSV: 用户ID, 昵称, 真实姓名, 学校. */
  datatype OutRow = OutRow(userId: string, nickname: string, realName: string, school: string)

  /** What a completed process_excel produced. */
  datatype Report = Report(
    csvFile: string,
    table: seq<OutRow>,
    matched: nat,
    notFound: seq<string>,
    notFoundWrite: Option<FileWrite>,
    uniqueIds: seq<string>,
    idListWrite: Option<FileWrite>)

  /** How process_excel ended: reading the spreadsheet raised, no nickname
      column was found (nothing is written), or the report was produced. */
  datatype ExcelOutcome = ReadFailed | NoNicknameColumn | Processed(report: Report)

  /** How run ended: os.path.exists(None) raised on an unset input file, the input
      file is missing, parse_html_files returned False, or process_excel ran. */
  datatype RunOutcome = Crashed | InputMissing | HtmlFailed | Ran(excel: ExcelOutcome)

  /** What the report of process_excel holds, for a mapping, the configured
      output paths, the spreadsheet and its nickname column `c`. */
  predicate ReportOf(r: Report, mapping: map<string, string>, outputFile: Option<string>,
                     notFoundFile: Option<string>, userIdListFile: Option<string>, s: Sheet, c: nat)
  {
    var nicks := Column(s, c);
    var realNames := OptionalColumn(s, RealNameKeywords);
    var schools := OptionalColumn(s, SchoolKeywords);
    var ids := LookupAll(mapping, nicks);
    |r.table| == |s.rows| &&
    (forall i :: 0 <= i < |r.table| ==> r.table[i] == OutRow(ids[i], nicks[i], realNames[i], schools[i])) &&
    r.notFound == Misses(mapping, nicks) &&
    r.matched == MatchedCount(ids) &&
    r.matched + |r.notFound| == |s.rows| &&
    r.csvFile == CsvFileName(outputFile) &&
    r.notFoundWrite == (if r.notFound != [] && Truthy(notFoundFile)
                        then Some(FileWrite(notFoundFile.value, Lines(r.notFound))) else None) &&
    r.uniqueIds == UniqueIds(ids) &&
    r.idListWrite == (if r.uniqueIds != [] && Truthy(userIdListFile)
                      then Some(FileWrite(userIdListFile.value, Lines(r.uniqueIds))) else None)
  }

  /** The full promise of process_excel for a mapping, the configured output
      paths and the spreadsheet as read. */
  predicate ReportsOn(outcome: ExcelOutcome, mapping: map<string, string>, outputFile: Option<string>,
                      notFoundFile: Option<string>, userIdListFile: Option<string>, sheet: Option<Sheet>)
  {
    match sheet
    case None => outcome == ReadFailed
    case Some(s) =>
      match NicknameColumn(s.header)
      case None => outcome == NoNicknameColumn
      case Some(c) =>
        outcome.Processed? && ReportOf(outcome.report, mapping, outputFile, notFoundFile, userIdListFile, s, c)
  }

  lemma MergeAllStep(index: map<string, string>, files: seq<string>, docs: map<string, Document>, i: nat)
    requires i < |files|
    ensures MergeAll(index, files[..i + 1], docs) == MergeAll(index, files[..i], docs) + FileIndex(docs, files[i])
  {
    assert files[..i + 1][..i] == files[..i];
    assert files[..i + 1][i] == files[i];
  }

  class NowCoderLocalParser {
    const htmlFiles: seq<string>
    const inputFile: Option<string>
    const outputFile: Option<string>
    const userIdListFile: Option<string>
    const notFoundFile: Option<string>
    const avatarDir: Option<string>
    var userMapping: map<string, string>

    /** __init__ on a loaded configuration: HTML and input files go under Input/,
        the output paths under Output/, and the mapping starts empty. */
    constructor (config: Config)
      ensures htmlFiles == InputPaths(config.htmlFiles)
      ensures inputFile == WithPrefix(InputDir, config.inputFile)
      ensures outputFile == WithPrefix(OutputDir, config.outputFile)
      ensures userIdListFile == WithPrefix(OutputDir, config.userIdList)
      ensures notFoundFile == WithPrefix(OutputDir, config.notFoundUsers)
      ensures avatarDir == WithPrefix(OutputDir, config.avatarDir)
      ensures userMapping == map[]
    {
      htmlFiles := InputPaths(config.htmlFiles);
      inputFile := WithPrefix(InputDir, config.inputFile);
      outputFile := WithPrefix(OutputDir, config.outputFile);
      userIdListFile := WithPrefix(OutputDir, config.userIdList);
      notFoundFile := WithPrefix(OutputDir, config.notFoundUsers);
      avatarDir := WithPrefix(OutputDir, config.avatarDir);
      userMapping := map[];
    }

    /** parse_html_files: False exactly when no HTML file is configured; otherwise
        every file's map is merged in list order (missing or unreadable files
        contribute nothing) and the result is True, even if no file parsed. */
    method ParseHtmlFiles(docs: map<string, Document>) returns (ok: bool)
      modifies this
      ensures ok <==> htmlFiles != []
      ensures ok ==> userMapping == MergeAll(old(userMapping), htmlFiles, docs)
      ensures !ok ==> userMapping == old(userMapping)
      ensures WellFormedIndex(old(userMapping)) ==> WellFormedIndex(userMapping)
    {
      if htmlFiles == [] {
        return false;
      }
      for i := 0 to |htmlFiles|
        invariant userMapping == MergeAll(old(userMapping), htmlFiles[..i], docs)
      {
        var htmlFile := htmlFiles[i];
        MergeAllStep(old(userMapping), htmlFiles, docs, i);
        if htmlFile !in docs {
          MapUnionEmpty(userMapping);
          continue;
        }
        match docs[htmlFile]
        case Unreadable(_) =>
          MapUnionEmpty(userMapping);
        case Parsed(anchors) =>
          var userMappingsFromFile := ParseUserLinks(anchors);
          userMapping := userMapping + userMappingsFromFile;
      }
      assert htmlFiles[..|htmlFiles|] == htmlFiles;
      return true;
    }

    /** process_excel on the spreadsheet as read: finds the columns, matches every
        row against the mapping, and decides the three files it writes. */
    method ProcessExcel(sheet: Option<Sheet>) returns (outcome: ExcelOutcome)
      ensures ReportsOn(outcome, userMapping, outputFile, notFoundFile, userIdListFile, sheet)
    {
      if sheet.None? {
        return ReadFailed;
      }
      var s := sheet.value;
      var nicknameCol := NicknameColumn(s.header);
      if nicknameCol.None? {
        return NoNicknameColumn;
      }
      var nickSeries := Column(s, nicknameCol.value);
      var userIds, notFound := MatchNicknames(userMapping, nickSeries);
      var matched := MatchedCount(userIds);
      var realSeries := OptionalColumn(s, RealNameKeywords);
      var schoolSeries := OptionalColumn(s, SchoolKeywords);
      var table := seq(|s.rows|, i requires 0 <= i < |s.rows| =>
        OutRow(userIds[i], nickSeries[i], realSeries[i], schoolSeries[i]));
      var csvFile := CsvFileName(outputFile);
      var notFoundWrite := None;
      if notFound != [] && Truthy(notFoundFile) {
        notFoundWrite := Some(FileWrite(notFoundFile.value, Lines(notFound)));
      }
      var uniqueIds := UniqueIds(userIds);
      var idListWrite := None;
      if uniqueIds != [] && Truthy(userIdListFile) {
        idListWrite := Some(FileWrite(userIdListFile.value, Lines(uniqueIds)));
      }
      var report := Report(csvFile, table, matched, notFound, notFoundWrite, uniqueIds, idListWrite);
      assert ReportOf(report, userMapping, outputFile, notFoundFile, userIdListFile, s, nicknameCol.value);
      outcome := Processed(report);
    }

    /** run: checks the input file, parses the HTML files, then processes the
        spreadsheet; the mapping changes only when the HTML step runs. */
    method Run(existing: set<string>, docs: map<string, Document>, sheet: Option<Sheet>) returns (outcome: RunOutcome)
      modifies this
      ensures inputFile.None? ==> outcome == Crashed
      ensures inputFile.Some? && inputFile.value !in existing ==> outcome == InputMissing
      ensures inputFile.Some? && inputFile.value in existing && htmlFiles == [] ==> outcome == HtmlFailed
      ensures inputFile.Some? && inputFile.value in existing && htmlFiles != [] ==>
        outcome.Ran? && userMapping == MergeAll(old(userMapping), htmlFiles, docs) &&
        ReportsOn(outcome.excel, userMapping, outputFile, notFoundFile, userIdListFile, sheet)
      ensures !outcome.Ran? ==> userMapping == old(userMapping)
    {
      if inputFile.None? {
        return Crashed;
      }
      if inputFile.value !in existing {
        return InputMissing;
      }
      var ok := ParseHtmlFiles(docs);
      if !ok {
        return HtmlFailed;
      }
      var excel := ProcessExcel(sheet);
      outcome := Ran(excel);
    }
  }

  /** A configured output file that ends in .csv, in any letter case, is used
      as it is once it is under Output/: the CSV name keeps it. */
  lemma ConfiguredCsvKept(f: string)
    requires EndsWith(Lower(f), ".csv")
    ensures var p := WithPrefix(OutputDir, Some(f)).value;
      StartsWith(p, OutputDir) && EndsWith(p, f) && CsvFileName(Some(p)) == p
  {
    var p := WithPrefix(OutputDir, Some(f)).value;
    if !StartsWith(f, OutputDir) {
      LowerAppend(OutputDir, f);
      assert Lower(p)[|Lower(p)| - 4..] == Lower(f)[|Lower(f)| - 4..];
    }
  }
}
