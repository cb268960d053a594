# NowCoder roster tools, modelled in Dafny

Three scripts prepare a contest roster. This project models their core logic in Dafny and proves properties of it.

- **get_user_id.py** (`NowCoderLocalParser`)
  - Reads a configuration and puts the configured file names under `Input/` or `Output/`.
  - Scans saved leaderboard pages for links `/acm/contest/profile/<digits>` and builds a nickname → user ID map. A later link or file overwrites an earlier one.
  - Matches every spreadsheet row's nickname against that map. It tries the stripped nickname first, then the nickname with all whitespace removed.
  - Produces the reconciled table, the CSV file name, the list of nicknames not found, and the user IDs de-duplicated in first-occurrence order.
- **get_user_avatar.py**
  - Reads the ID list back and fetches each user's profile page.
  - Picks the avatar link: the first `head-pic` anchor's image, otherwise the first `<img>` whose source mentions avatar, head or profile.
  - Makes the link absolute, chooses a file extension (from the URL path, else from a HEAD request's Content-Type, else `.png`) and downloads the image to `<avatar_dir>/<id>/photo<ext>`.
- **rename_logos.py**
  - Finds the images with a requested extension in a directory, recursively or not.
  - Gives each image the name `logo<w>x<h>.png`, choosing a free name `logo<w>x<h>_<i>.png` when that one is taken.
  - Reports how many images it processed.

Modules:
- `Common`: Python string operations.
- `Paths`: posixpath and the configured-path prefix rule.
- `UserIndex`: the nickname → ID map.
- `Roster`: spreadsheet matching.
- `LocalParser`: the class of get_user_id.py.
- `Urls`: the part of urlparse that is needed.
- `Avatars`: get_user_avatar.py.
- `Logos`: rename_logos.py.

How the model represents its inputs and effects:
- The state of `NowCoderLocalParser` is a Dafny class whose `userMapping` field the methods update. Other values are datatypes and functions.
- The HTML pages are given already parsed.
- The spreadsheet is given as read.
- HTTP responses and `mimetypes.guess_extension` are functions of the URL or the content type.
- The file system is a value: a set of paths and maps of contents. In rename_logos.py it is a `Folder` class whose set of files `process_file` changes.
- Behaviour of the code worth noting:
  - `parse_html_files` fails only when no HTML file is configured. When files are configured but none could be read, it still succeeds and the spreadsheet is processed.
  - The half-second pause in get_user_avatar.py follows only an identifier whose download was attempted. An identifier that stops early (non-200 page, no avatar link, an exception) gets no pause (`Avatars.PausesCountDownloads`).
  - An exception from the HEAD request ends that identifier's attempt without a download. The `.png` default applies only when the request returns.
  - An exception while opening or writing the image file is caught by download_image and becomes its error; a partly written file stays on disk.

## Model

| member | source | states |
|---|---|---|
| Common.Strip | get_user_avatar.py:25 | str.strip(): the result neither starts nor ends with whitespace and is no longer than the input |
| Common.StripIsTrimmed | get_user_avatar.py:25 | the stripped text is a slice of the input with only whitespace before and after it |
| Common.StrippedIsFixed | get_user_avatar.py:25 | stripping a string that is already stripped leaves it unchanged |
| Common.StripEmptyIffAllSpace | get_user_avatar.py:26 | a line strips to "" exactly when it is all whitespace, which is when the ID reader skips it |
| Common.StripKeepsOut | rename_logos.py:110 | stripping introduces no character that was not already in the string |
| Common.RemoveSpacesHasNoSpace | get_user_id.py:177 | re.sub(r"\s+", '', s) leaves no whitespace |
| Common.RemoveSpacesIgnoresStrip | get_user_id.py:177 | removing all whitespace from the stripped nickname is the same as removing it from the raw nickname |
| Common.RemoveSpacesNoSpace | get_user_id.py:177 | a string without whitespace is left unchanged, so the fallback key equals the first key for such nicknames |
| Common.LStripChar | rename_logos.py:22 | lstrip('.') removes exactly a run of leading dots and keeps the rest |
| Common.Split | rename_logos.py:110 | str.split(','): at least one piece, and no piece contains the separator |
| Common.SplitJoin | rename_logos.py:110 | splitting a joined list of separator-free pieces gives the pieces back |
| Common.JoinSplit | rename_logos.py:110 | joining the pieces of a split gives the string back |
| Common.NatToString | rename_logos.py:55 | f"{n}" is a non-empty string of decimal digits |
| Common.DecimalRoundTrip | get_user_avatar.py:52 | reading back a formatted number gives the number |
| Common.NatToStringInjective | rename_logos.py:55 | different numbers format differently |
| Common.NonEmptyImagesMembers | get_user_avatar.py:24-27 | keeping the non-empty stripped items keeps exactly the non-empty values, in order |
| Common.StrippedLineStrips | get_user_avatar.py:25 | a stripped item written with "\n" strips back to the item |
| Paths.PathJoin | rename_logos.py:27 | os.path.join: an absolute name replaces the directory; otherwise the name is appended after a "/" when needed; the result ends with the name |
| Paths.PathJoinInjective | rename_logos.py:44 | joining one directory to two names that are both relative or both absolute gives equal paths only for equal names |
| Paths.Basename | get_user_avatar.py:132 | os.path.basename: a suffix of the path that contains no "/" |
| Paths.DirnameBasenameOfJoin | rename_logos.py:54 | dirname and basename undo joining a directory to a plain file name |
| Paths.SplitExt | rename_logos.py:40 | os.path.splitext: the two parts concatenate to the path; the extension is empty or one "." followed by no "." or "/" |
| Paths.SplitExtOfStem | rename_logos.py:40 | splitext takes off exactly an extension appended to a stem that does not end in "." or "/" |
| Paths.WithPrefix | get_user_id.py:29-46 | a set, non-empty value not starting with the prefix becomes exactly the prefix followed by the value; a value already starting with it, an empty value and an unset one are kept |
| Paths.WithPrefixIdempotent | get_user_avatar.py:80-84 | applying the prefix rule twice is the same as applying it once |
| LocalParser.InputPath | get_user_id.py:25-26 | a name not under Input/ becomes exactly Input/ followed by the name; one already under Input/ is kept |
| LocalParser.InputPathsIdempotent | get_user_id.py:25-26 | prefixing the list twice is the same as prefixing it once |
| LocalParser.NowCoderLocalParser.constructor | get_user_id.py:19-53 | every configured path is prefixed as the script does, and the mapping starts empty |
| LocalParser.NowCoderLocalParser.ParseHtmlFiles | get_user_id.py:55-88 | False exactly when no HTML file is configured; otherwise the mapping is the old one updated with each file's map in list order; a well-formed mapping stays well formed |
| LocalParser.NowCoderLocalParser.ProcessExcel | get_user_id.py:133-257 | a read failure, no nickname column, or a report whose table, matched count, not-found list, CSV name, unique IDs and the files written are exactly those of the spreadsheet and the mapping |
| LocalParser.NowCoderLocalParser.Run | get_user_id.py:281-297 | an unset input file crashes; a missing one stops; an empty HTML list stops; otherwise the mapping is merged and the spreadsheet processed; the mapping changes only when the HTML step runs |
| LocalParser.ConfiguredCsvKept | get_user_id.py:202-204 | a configured output file ending in .csv, once put under Output/, still ends with the configured name and is itself the CSV name |
| UserIndex.ExtractNicknameIsFirst | get_user_id.py:112-131 | the nickname is the first non-empty candidate (stripped text, title, each stripped child text), and "" exactly when all are empty |
| UserIndex.ChildNicknameIsFirst | get_user_id.py:125-131 | the loop over the children returns the first non-empty stripped child text |
| UserIndex.ExtractNickname | get_user_id.py:112-131 | extract_nickname; `UserIndex.ExtractNicknameIsFirst` proves it returns the first non-empty candidate, and "" exactly when all are empty |
| UserIndex.ChildNickname | get_user_id.py:125-131 | the loop over the children; `UserIndex.ChildNicknameIsFirst` proves it returns the first non-empty stripped child text |
| UserIndex.DigitRun | get_user_id.py:103 | \d+ takes the longest run of digits at the start |
| UserIndex.MatchFrom | get_user_id.py:103 | re.search finds the leftmost position where /acm/contest/profile/\d+ matches |
| UserIndex.ProfileId | get_user_id.py:103-106 | None exactly when the pattern matches nowhere; otherwise the maximal digit run after the leftmost match |
| UserIndex.UserLinks | get_user_id.py:95 | find_all keeps exactly the anchors whose href matches the profile pattern, and no more of them than there are anchors |
| UserIndex.UserLinksKeepMap | get_user_id.py:95-107 | building the map from the selected links gives the same map as from all anchors, because an anchor without a profile ID is skipped by the loop anyway |
| UserIndex.LinksToMap | get_user_id.py:98-110 | the per-file map has non-empty nicknames and decimal IDs |
| UserIndex.LinksToMapLastWins | get_user_id.py:105-107 | a nickname is in the per-file map exactly when some link records it, and its ID comes from the last such link |
| UserIndex.ParseUserLinks | get_user_id.py:90-110 | the loop over the user links builds exactly that per-file map |
| UserIndex.MergeAll | get_user_id.py:63-84 | merging the files keeps every old key and keeps the map well formed |
| UserIndex.MergeAllAppend | get_user_id.py:63 | merging a concatenated file list is merging the first part and then the second |
| UserIndex.SkippedFileContributesNothing | get_user_id.py:64-66 | a missing or unreadable file leaves the result as if it were not in the list |
| UserIndex.MergeAllLastWins | get_user_id.py:79 | across files, the last file that defines a nickname wins; a nickname no file defines keeps its old value or stays absent |
| Roster.AnyKeyword | get_user_id.py:154-156 | true exactly when some keyword is a substring of the column name |
| Roster.FindCol | get_user_id.py:151-157 | the first column, in header order, whose name contains a keyword; None exactly when no column does |
| Roster.NicknameColumn | get_user_id.py:159 | a column holding 昵称 is preferred; otherwise one holding nick or Nick; None exactly when neither exists |
| Roster.OptionalColumn | get_user_id.py:185-186 | one cell per row: the found column's cell of that row, or "" for every row when no column name holds a keyword |
| Roster.Lookup | get_user_id.py:172-178 | the lookup of one nickname; `Roster.LookupSound`, `Roster.LookupMissIff` and `Roster.LookupKeys` state which key supplies the ID and when a row is missed |
| Roster.LookupKey | get_user_id.py:173-177 | the two dict.get calls on the stripped nickname; the Lookup lemmas above state their priority |
| Roster.LookupAll | get_user_id.py:169-178 | one ID per row; `Roster.LookupAllPointwise` proves that entry i is the lookup of row i |
| Roster.MissedKeys | get_user_id.py:176-180 | the not-found list; `Roster.MatchedPlusMissed` and `Roster.MissedKeysStripped` state that matched plus missed is the row count and every entry is stripped |
| Roster.LookupSound | get_user_id.py:172-178 | a found ID is the map's entry for the stripped nickname or for the whitespace-free one |
| Roster.LookupMissIff | get_user_id.py:176-180 | with a well-formed map, a row is missed exactly when neither key is in the map |
| Roster.LookupKeys | get_user_id.py:173-177 | the stripped key takes priority, and the whitespace-free key is used only when the stripped key is absent |
| Roster.MatchedPlusMissed | get_user_id.py:182 | every row is either matched or missed, never both |
| Roster.MissedKeysStripped | get_user_id.py:180 | every entry of not_found is a stripped nickname |
| Roster.MatchNicknames | get_user_id.py:169-180 | one ID per row in row order, the not-found rows' stripped nicknames in order, and matched plus not found equals the row count |
| Roster.UniqueIds | get_user_id.py:239 | the non-empty IDs, each exactly once |
| Roster.UniqueIdsFirstOccurrenceOrder | get_user_id.py:239 | the unique IDs appear in the order of their first occurrence |
| Roster.CsvFileName | get_user_id.py:202-210 | the CSV name ends with .csv in any letter case; a configured name already ending so is kept; an unset or empty output file gives Output/output.csv |
| Roster.CsvFileNameReplacesExtension | get_user_id.py:206-208 | a configured name not ending in .csv becomes its splitext stem followed by .csv; in every case the name minus its last four characters is the configured name minus an extension holding no "/" |
| Roster.CsvFileNameIdempotent | get_user_id.py:202-210 | deriving the CSV name again from the derived name changes nothing |
| Urls.NetlocLength | get_user_avatar.py:115 | the netloc runs up to the first "/", "?" or "#" |
| Urls.SplitFirst | get_user_avatar.py:119 | cutting at the first occurrence of a character gives the text before it and after it |
| Urls.Parse | get_user_avatar.py:119 | urlparse, after its cleaning of the input: the path contains no "?" or "#", and the netloc no delimiter |
| Urls.RemoveUnsafeRemovesAll | get_user_avatar.py:119 | the cleaning leaves no tab, carriage return or line feed |
| Urls.ParseSkipsLeadingC0 | get_user_avatar.py:119 | leading control characters and spaces make no difference to the parse |
| Urls.ParseSkipsUnsafe | get_user_avatar.py:119 | a tab, carriage return or line feed after the leading controls makes no difference to the parse |
| Urls.SplitSchemeOf | get_user_avatar.py:115 | a valid lower-case scheme before the first ":" is split off as it is |
| Urls.SplitNetlocOf | get_user_avatar.py:115 | after "//", the netloc runs up to the first delimiter |
| Urls.ParseSchemeNetloc | get_user_avatar.py:115-116 | scheme://netloc followed by a delimiter parses into that scheme and that netloc, for a netloc without delimiters, tabs or line breaks |
| Urls.ParseAbsolute | get_user_avatar.py:119 | a URL with a plain path and no tabs or line breaks parses into exactly its scheme, netloc and path |
| Urls.ParseDropsQuery | get_user_avatar.py:119-121 | the query never reaches the path |
| Urls.SplitQuery | get_user_avatar.py:119 | the fragment and query splits on a path followed by a query |
| Urls.ProfileUrlParts | get_user_avatar.py:100 | whatever the ID, the profile URL parses with scheme https and host ac.nowcoder.com |
| Urls.NormalizeUrl | get_user_avatar.py:111-116 | making the avatar link absolute; `Urls.NormalizeProtocolRelative`, `Urls.NormalizeRootRelative` and `Urls.NormalizeKeepsOthers` state each branch, and `Urls.NormalizeIdempotent` that it is idempotent |
| Urls.NormalizeProtocolRelative | get_user_avatar.py:112-113 | "//x" becomes https://x, which parses with scheme https and the host of x once tabs and line breaks are removed |
| Urls.ParseHttps | get_user_avatar.py:113-119 | https://x parses with scheme https and the cleaned x up to its first delimiter as the netloc |
| Urls.NormalizeRootRelative | get_user_avatar.py:114-116 | "/p" (not "//") resolves against the profile page's scheme and host |
| Urls.NormalizeKeepsOthers | get_user_avatar.py:111-116 | links that do not start with "/" are kept as they are |
| Urls.NormalizeIdempotent | get_user_avatar.py:111-116 | normalising a normalised link changes nothing |
| Avatars.ReadUserIds | get_user_avatar.py:20-30 | a missing file gives []; otherwise each line stripped, blank lines dropped, in file order |
| Avatars.IdLinesMembers | get_user_avatar.py:24-27 | an ID is read exactly when some line strips to it and it is non-empty; every ID read is stripped and non-empty |
| Avatars.IdLinesOfLines | get_user_avatar.py:24-27 | writing non-empty stripped IDs one per line and reading the file back gives the same IDs |
| Avatars.IdListRoundTrip | get_user_id.py:239-246 | the ID list get_user_id.py writes is read back by get_user_avatar.py as exactly the same de-duplicated, ordered IDs |
| Avatars.FindAvatarUrl | get_user_avatar.py:57-72 | a found avatar link is never empty |
| Avatars.HeadPicWins | get_user_avatar.py:60-64 | the first head-pic anchor decides when its first image has a non-empty source |
| Avatars.KeywordFallback | get_user_avatar.py:67-72 | otherwise the first image whose source mentions a keyword decides, and None means no image does |
| Avatars.OnlyFirstHeadPic | get_user_avatar.py:60 | anchors after the first head-pic anchor do not affect the result |
| Avatars.PathExt | get_user_avatar.py:119-121 | the extension of the parsed path; `Avatars.PathExtIsSplitExt` and `Avatars.ExtWithoutQuery` prove it is splitext's extension, "" or a "." followed by no "/" |
| Avatars.PathExtIsSplitExt | get_user_avatar.py:119-121 | the split on "?" never changes the extension, since the parsed path holds no "?" |
| Avatars.ContentTypeExt | get_user_avatar.py:125-127 | the extension from the Content-Type is never empty |
| Avatars.ContentTypeGuessed | get_user_avatar.py:126-127 | for a media type without parameters, the guess is used when it is a non-empty extension, and .png otherwise |
| Avatars.ContentTypeParameters | get_user_avatar.py:126 | parameters after ";" do not affect the guess, and an absent type gives .png |
| Avatars.ChooseExt | get_user_avatar.py:119-127 | a chosen extension is never empty |
| Avatars.ChooseExtWithoutHead | get_user_avatar.py:122 | with a path extension, the HEAD response is never consulted |
| Avatars.ChooseExtFromHead | get_user_avatar.py:122-127 | without a path extension, a raised HEAD request ends the attempt with its error; otherwise its Content-Type decides, and a media type the guess knows, with any parameters, gives the guessed extension |
| Avatars.ExtWithoutQuery | get_user_avatar.py:120-121 | on a path without "?", the split on "?" keeps the extension, which is empty or a "." followed by no "/" |
| Avatars.DownloadImage | get_user_avatar.py:38-54 | success exactly for status 200 with an image Content-Type whose file write completes; the file is created exactly when an image response opens it, and holds a prefix of the body, all of it on success; an exception from the request or from opening or writing the file is the error |
| Avatars.DownloadErrorDecodes | get_user_avatar.py:44-52 | for a response that arrived, the error text tells not-image from a bad status and gives the status back |
| Avatars.Destination | get_user_avatar.py:130-132 | the download's destination; `Avatars.DestinationParts` proves its directory is avatar_dir/uid and its file name photo<ext> |
| Avatars.DestinationParts | get_user_avatar.py:130-132 | the destination's directory is avatar_dir/uid and its file name is photo<ext> |
| Avatars.ProcessId | get_user_avatar.py:100-141 | one pass of the loop body; `Avatars.ProcessIdDownloads` states the page, link, extension and destination of every download it makes |
| Avatars.ProcessIdDownloads | get_user_avatar.py:98-141 | a download for an ID follows a 200 profile page with a non-empty avatar link; it fetches that link made absolute by NormalizeUrl, and goes to avatar_dir/uid/photo<ext> with the non-empty extension ChooseExt picks for that link |
| Avatars.SavedFiles | get_user_avatar.py:47-50 | a file exists afterwards exactly when it existed before or some download opened it, completely or partly written |
| Avatars.PausesCountDownloads | get_user_avatar.py:141 | the number of pauses is the number of identifiers whose download was attempted |
| Avatars.FetchAvatars | get_user_avatar.py:98-144 | every ID gets its attempt in list order, whatever happened to the earlier ones; the files and pauses are those of the attempts |
| Avatars.RunAvatars | get_user_avatar.py:75-144 | an unset ID list crashes; no IDs stops; an unset or empty avatar directory crashes; otherwise every ID is attempted |
| Logos.NormalizeExt | rename_logos.py:22 | the normalised extension starts with exactly one "." |
| Logos.NormalizeExtLowerCase | rename_logos.py:22 | the normalised extension is lower-case |
| Logos.NormalizeExtIdempotent | rename_logos.py:22 | normalising twice is normalising once |
| Logos.NormalizeExtIgnoresDot | rename_logos.py:22 | a leading dot in the requested extension makes no difference |
| Logos.NormalizeExtIgnoresCase | rename_logos.py:22 | the letter case of the requested extension makes no difference |
| Logos.IsWanted | rename_logos.py:22-31 | the extension test; `Logos.IsWantedIgnoresCase` and `Logos.IsWantedBySuffix` state its case-insensitivity and which names it accepts |
| Logos.IsWantedIgnoresCase | rename_logos.py:26 | matching ignores the letter case of the file name and of the requested extensions |
| Logos.IsWantedBySuffix | rename_logos.py:31 | a name ending in "." plus a requested extension, in any letter case, is wanted |
| Logos.ParseExtListItems | rename_logos.py:110 | every item of the extension list is non-empty, stripped and free of commas |
| Logos.ParseExtList | rename_logos.py:110 | the comma-separated extension list; `Logos.ParseExtListItems` and `Logos.ParseExtListRoundTrip` state its items and its round trip |
| Logos.ParseExtListRoundTrip | rename_logos.py:110 | a comma-joined list of such items parses back into the same list |
| Logos.SelectedMembers | rename_logos.py:29-32 | the selection holds exactly the images of the kept elements |
| Logos.FindFlatMembers | rename_logos.py:29-32 | without -r, a path is found exactly when it is the target directory joined to a listed name that is a file with a wanted extension |
| Logos.FindFlat | rename_logos.py:29-32 | the listing without -r; `Logos.FindFlatMembers` states exactly which paths it yields |
| Logos.FlatMapMembers | rename_logos.py:24-25 | walking the entries yields exactly what some entry yields |
| Logos.EntryFilesMembers | rename_logos.py:25-27 | one walk entry yields exactly its root joined to its wanted file names |
| Logos.FindWalkMembers | rename_logos.py:23-27 | with -r, a path is found exactly when some walk entry yields it |
| Logos.FindWalk | rename_logos.py:23-27 | the walk with -r; `Logos.FindWalkMembers` states exactly which paths it yields |
| Logos.LogoNameSplitExt | rename_logos.py:40 | splitext takes exactly ".png" off a logo name |
| Logos.LogoName | rename_logos.py:55 | f"logo{w}x{h}.png"; `Logos.LogoNameSplitExt` and `Logos.LogoNameInjective` state its extension and that distinct sizes give distinct names |
| Logos.LogoNameInjective | rename_logos.py:55 | different sizes give different logo names |
| Logos.SuffixedPathDistinct | rename_logos.py:43-44 | different suffixes give different paths, and none equals the unsuffixed path |
| Logos.CandidatesDistinct | rename_logos.py:37-44 | no path is tried twice |
| Logos.CandidateCount | rename_logos.py:42-47 | when the first n candidates all exist, at least n paths exist, so the loop ends |
| Logos.UniqueTargetPath | rename_logos.py:35-47 | the target does not exist; it is the plain path when that is free; otherwise it is the first free candidate, found within the number of existing paths |
| Logos.FreeTargetFrom | rename_logos.py:35-47 | a free candidate whose earlier candidates are all taken is the target the search settles on |
| Logos.FreeTargetIsCandidate | rename_logos.py:35-47 | the target the search settles on is one of the candidates |
| Logos.TargetOf | rename_logos.py:54-56 | the target process_file picks; it never exists, and `Logos.FreeTargetFrom` proves it is the first free candidate |
| Logos.LogoNamedFileIsCandidate | rename_logos.py:54-56 | a file named logo<w>x<h>.png for its own size is its own first candidate |
| Logos.Folder.ProcessFile | rename_logos.py:50-90 | as written: success exactly for an existing image PIL opens; a dry run changes nothing; otherwise the first free candidate is added and the original removed when asked; the target is never the file itself |
| Logos.ProcessStep | rename_logos.py:50-90 | a step that meets process_file's promise leaves exactly the files AfterProcess describes |
| Logos.AfterProcess | rename_logos.py:50-90 | the files after one process_file as written; `Logos.ProcessStep` proves that ProcessFile leaves exactly these |
| Logos.AfterAllStep | rename_logos.py:116-123 | processing one more path takes the files of the shorter list through one more step, and counts it when PIL opens it |
| Logos.AfterAll | rename_logos.py:116-123 | the files after processing a list in order; `Logos.AfterAllStep`, `Logos.AfterAllKeeps` and `Logos.AfterAllAdds` state its step, what survives and what is added |
| Logos.Folder.ProcessFileIntended | rename_logos.py:58-66 | corrected: outside a dry run, a file already named for its size is left alone; every other file is handled as before |
| Logos.Folder.ProcessAll | rename_logos.py:116-123 | each path goes through process_file as written, in order: a dry run changes nothing, otherwise the files are those of the steps in turn; the success count never exceeds the number of paths, and for distinct existing paths it is the number PIL can open |
| Logos.AfterAllKeeps | rename_logos.py:79-85 | a file that existed survives the run when deletion is not asked for or the file is not among the processed paths |
| Logos.AfterAllAdds | rename_logos.py:54-75 | every file the run adds is a candidate of the size-based name of some processed path PIL opens |
| Logos.Folder.RenameLogos | rename_logos.py:93-123 | a missing directory or an empty search stops with no change; otherwise every file found is processed as written, the final files are those of the steps in turn (none in a dry run), and the count is bounded, exact for distinct existing paths |

## Left out

- Console output, progress messages and the previews printed by every script are not modelled.
- `create_config_template` and its template, writing config.json and the `exit(1)` are not modelled.
- Loading config.json is not modelled: the configuration is an input, with values in the JSON types the scripts expect.
- `LocalParser.NowCoderLocalParser.ProcessExcel`: the pandas reading engines are one result, the sheet or a failure. `astype(str)` of a missing cell and duplicate column names are not modelled: a missing cell is "".
- `LocalParser.NowCoderLocalParser.ProcessExcel`: `os.makedirs`, the CSV write and the text-file writes are modelled as the file contents that would be written; their failures, caught and printed, are not modelled.
- `UserIndex.ExtractNickname`: `Link.text` and each child text stand for what `get_text(strip=True)` returns: every descendant string stripped, the non-empty ones concatenated. Deriving them from the tree is not modelled. The model's own `Strip` is the identity on such text (`Common.StrippedIsFixed`).
- `Common.Lower` handles ASCII letters only, and `\d` matches ASCII digits only. Unicode case mapping and Unicode digits are left out. `\s` and `str.strip` use the full `str.isspace` set (`Common.IsSpace`).
- `Urls.Parse` models the urlparse steps the avatar script reaches: stripping leading control characters and spaces, removing tabs and line breaks, then scheme, netloc, path, `;params`, query and fragment. IPv6 brackets, NFKC checks and the URL cache are left out.
- HTTP requests, timeouts, `time.sleep` and the request headers are inputs or counts. `Avatars.FetchAvatars` counts the pauses and does not model the time.
- `Avatars.RunAvatars`: exceptions from `os.makedirs` are not modelled per identifier.
- `Logos.Folder.RenameLogos`: the `os.walk` listing is an input not tied to the set of files, and the `os.listdir` listing is an input too. `os.path.abspath` is the identity, and no path normalisation is modelled.
- `Logos.Folder.ProcessFile`: PIL's `convert` and `save`, and a failing `os.remove`, are modelled as succeeding. The image mode is not modelled.
- `Logos.Folder.RenameLogos` states the success count exactly only for a search result of distinct existing paths. Otherwise it gives only the upper bound; the final files are stated for every search result.

## Findings

| source | as written | input that shows it | evidently intended | confidence | as-written member | corrected member |
|---|---|---|---|---|---|---|
| rename_logos.py:62-66 | the skip test compares the file with the target after `unique_target_path`, which never returns an existing path, so the branch is dead | `dir/logo800x600.png` of size 800x600 (not a dry run) gets the target `dir/logo800x600_1.png` and is copied | a file already named `logo<w>x<h>.png` for its own size is skipped | not executed | Logos.Folder.ProcessFile | Logos.Folder.ProcessFileIntended |

How the two Dafny members stand in for the finding:
- `Logos.Folder.ProcessFile` promises that the target is never the file itself.
- `Logos.LogoNamedFileIsCandidate` proves that a file named `logo<w>x<h>.png` for its own size is its own first candidate.
- `Logos.Folder.ProcessFileIntended` compares the file with the first candidate before the search, and otherwise behaves as `Logos.Folder.ProcessFile`.
- `Logos.Folder.ProcessAll` and `Logos.Folder.RenameLogos` run the code as written, so they call `Logos.Folder.ProcessFile`.
