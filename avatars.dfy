/** get_user_avatar.py: reading the ID list, choosing an avatar link on a
    profile page, resolving it, choosing the file extension and the destination,
    classifying the download, and the loop over all IDs. HTTP responses, the
    parsed pages and mimetypes.guess_extension are given as functions of the URL
    or the content type; the files are values. */
module Avatars {
  import opened Common
  import opened Paths
  import opened Urls
  import opened UserIndex
  import opened Roster

  newtype Byte = x: int | 0 <= x < 256

  // ---------------------------------------------------------------- ID list

  /** The IDs of a file's lines: each line stripped, blank ones dropped, in file order. */
  function IdLines(lines: seq<string>): seq<string>
  {
    NonEmptyImages(lines, Strip)
  }

  /** read_user_ids: the lines of the file, or None when it does not exist. */
  method ReadUserIds(file: Option<seq<string>>) returns (ids: seq<string>)
    ensures file.None? ==> ids == []
    ensures file.Some? ==> ids == IdLines(file.value)
  {
    ids := [];
    if file.None? {
      return;
    }
    var lines := file.value;
    for i := 0 to |lines|
      invariant ids == IdLines(lines[..i])
    {
      assert lines[..i + 1][..i] == lines[..i];
      var s := Strip(lines[i]);
      if s != "" {
        ids := ids + [s];
      }
    }
    assert lines[..|lines|] == lines;
  }

  /** What read_user_ids yields: exactly the non-empty stripped lines, each stripped
      and not empty. */
  lemma IdLinesMembers(lines: seq<string>, x: string)
    ensures x in IdLines(lines) <==> x != "" && exists k :: 0 <= k < |lines| && Strip(lines[k]) == x
    ensures forall k :: 0 <= k < |IdLines(lines)| ==> IdLines(lines)[k] != "" && IsStripped(IdLines(lines)[k])
  {
    NonEmptyImagesMembers(lines, Strip, x);
    var ids := IdLines(lines);
    forall k | 0 <= k < |ids| ensures IsStripped(ids[k]) {
      NonEmptyImagesMembers(lines, Strip, ids[k]);
    }
  }

  /** Writing non-empty stripped IDs one per line and reading the file back gives them again. */
  lemma {:induction false} IdLinesOfLines(ids: seq<string>)
    requires forall k :: 0 <= k < |ids| ==> ids[k] != "" && IsStripped(ids[k])
    ensures IdLines(Lines(ids)) == ids
  {
    if ids != [] {
      var n := |ids| - 1;
      assert Lines(ids)[..n] == Lines(ids[..n]);
      IdLinesOfLines(ids[..n]);
      StrippedLineStrips(ids[n]);
      assert ids == ids[..n] + [ids[n]];
    }
  }

  /** The ID list get_user_id.py writes for a well-formed index is read back by
      read_user_ids as exactly the same IDs. */
  lemma IdListRoundTrip(index: map<string, string>, nicks: seq<string>)
    requires WellFormedIndex(index)
    ensures IdLines(Lines(UniqueIds(LookupAll(index, nicks)))) == UniqueIds(LookupAll(index, nicks))
  {
    var ids := LookupAll(index, nicks);
    var u := UniqueIds(ids);
    forall k | 0 <= k < |u| ensures u[k] != "" && IsStripped(u[k]) {
      assert u[k] in ids;
      var i :| 0 <= i < |ids| && ids[i] == u[k];
      LookupSound(index, nicks[i]);
      DecimalIsStripped(u[k]);
    }
    IdLinesOfLines(u);
  }

  // ---------------------------------------------------------------- avatar link

  /** An <img> and its src attribute, None when absent. */
  datatype Img = Img(src: Option<string>)

  /** An <a> with its class values and the <img> elements inside it, in document order. */
  datatype Anchor = Anchor(classes: seq<string>, imgs: seq<Img>)

  /** A parsed profile page: its anchors and all its <img> elements, in document order. */
  datatype ProfilePage = ProfilePage(anchors: seq<Anchor>, imgs: seq<Img>)

  /** class_=lambda c: c and 'head-pic' in c: one of the class values contains "head-pic". */
  predicate IsHeadPic(a: Anchor)
  {
    exists k :: 0 <= k < |a.classes| && Contains(a.classes[k], "head-pic")
  }

  /** img.get('src', ''). */
  function SrcOf(img: Img): string
  {
    if img.src.Some? then img.src.value else ""
  }

  /** The fallback test on an <img>: its src mentions avatar, head or profile. */
  predicate HasAvatarKeyword(img: Img)
  {
    var src := SrcOf(img);
    Contains(src, "avatar") || Contains(src, "head") || Contains(src, "profile")
  }

  /** The src of the first <img> of the first head-pic anchor, when that src is set and non-empty. */
  function HeadPicSrc(page: ProfilePage): Option<string>
  {
    var a := FirstWhere(page.anchors, IsHeadPic);
    if a >= 0 && page.anchors[a].imgs != [] && SrcOf(page.anchors[a].imgs[0]) != "" then
      Some(SrcOf(page.anchors[a].imgs[0]))
    else None
  }

  /** find_avatar_url_from_profile: the head-pic src when there is one, else the
      src of the first <img> that mentions a keyword, else None. */
  function FindAvatarUrl(page: ProfilePage): (r: Option<string>)
    ensures r.Some? ==> r.value != ""
  {
    match HeadPicSrc(page)
    case Some(src) => Some(src)
    case None =>
      var i := FirstWhere(page.imgs, HasAvatarKeyword);
      if i >= 0 then
        KeywordSrcNonEmpty(page.imgs[i]);
        Some(SrcOf(page.imgs[i]))
      else None
  }

  /** A src that mentions a keyword is not empty. */
  lemma KeywordSrcNonEmpty(img: Img)
    requires HasAvatarKeyword(img)
    ensures SrcOf(img) != ""
  {
  }

  /** The first head-pic anchor decides when its first <img> has a non-empty src. */
  lemma HeadPicWins(page: ProfilePage, j: nat)
    requires j < |page.anchors| && IsHeadPic(page.anchors[j])
    requires forall k :: 0 <= k < j ==> !IsHeadPic(page.anchors[k])
    requires page.anchors[j].imgs != [] && SrcOf(page.anchors[j].imgs[0]) != ""
    ensures FindAvatarUrl(page) == Some(SrcOf(page.anchors[j].imgs[0]))
  {
    var a := FirstWhere(page.anchors, IsHeadPic);
    assert a == j;
  }

  /** Otherwise the first <img> mentioning a keyword decides, and None means no <img> does. */
  lemma KeywordFallback(page: ProfilePage)
    requires HeadPicSrc(page).None?
    ensures FindAvatarUrl(page).None? <==> forall k :: 0 <= k < |page.imgs| ==> !HasAvatarKeyword(page.imgs[k])
    ensures forall i :: (0 <= i < |page.imgs| && HasAvatarKeyword(page.imgs[i]) &&
                         (forall k :: 0 <= k < i ==> !HasAvatarKeyword(page.imgs[k]))) ==>
                        FindAvatarUrl(page) == Some(SrcOf(page.imgs[i]))
  {
    var i := FirstWhere(page.imgs, HasAvatarKeyword);
    forall i' | 0 <= i' < |page.imgs| && HasAvatarKeyword(page.imgs[i']) &&
      (forall k :: 0 <= k < i' ==> !HasAvatarKeyword(page.imgs[k]))
      ensures i' == i
    {
    }
  }

  /** Only the first head-pic anchor is looked at: the anchors after it do not matter. */
  lemma OnlyFirstHeadPic(page: ProfilePage, j: nat, later: seq<Anchor>)
    requires j < |page.anchors| && IsHeadPic(page.anchors[j])
    ensures FindAvatarUrl(ProfilePage(page.anchors[..j + 1] + later, page.imgs)) == FindAvatarUrl(page)
  {
    var other := ProfilePage(page.anchors[..j + 1] + later, page.imgs);
    var a := FirstWhere(page.anchors, IsHeadPic);
    var b := FirstWhere(other.anchors, IsHeadPic);
    assert 0 <= a <= j;
    assert forall k :: 0 <= k <= j ==> other.anchors[k] == page.anchors[k];
    assert HeadPicSrc(other) == HeadPicSrc(page);
  }

  // ---------------------------------------------------------------- extension

  /** os.path.splitext(urlparse(url).path)[1].split('?')[0]. */
  function PathExt(url: string): string
  {
    Split(SplitExt(Parse(url).path).1, '?')[0]
  }

  /** The split on "?" never changes anything: the parsed path has no "?" in it. */
  lemma PathExtIsSplitExt(url: string)
    ensures PathExt(url) == SplitExt(Parse(url).path).1
    ensures PathExt(url) == "" || (PathExt(url)[0] == '.' && '/' !in PathExt(url))
  {
    ExtWithoutQuery(Parse(url).path);
  }

  lemma ExtWithoutQuery(path: string)
    requires '?' !in path
    ensures Split(SplitExt(path).1, '?')[0] == SplitExt(path).1
    ensures SplitExt(path).1 == "" || (SplitExt(path).1[0] == '.' && '/' !in SplitExt(path).1)
  {
    var ext := SplitExt(path).1;
    assert '?' !in ext by {
      var stem := SplitExt(path).0;
      assert forall k :: 0 <= k < |ext| ==> ext[k] == path[|stem| + k];
    }
    assert Find(ext, '?') < 0;
  }

  /** The response to the HEAD request: its Content-Type ("" when absent), or the exception. */
  datatype HeadResponse = HeadRaised(error: string) | HeadOk(contentType: string)

  /** The extension from a Content-Type: the guess for the type before ";" when
      there is a type, ".png" when there is none or nothing is guessed. */
  function ContentTypeExt(contentType: string, guess: string -> Option<string>): (ext: string)
    ensures ext != ""
  {
    var guessed := if contentType != "" then guess(Split(contentType, ';')[0]) else None;
    if guessed.Some? && guessed.value != "" then guessed.value else ".png"
  }

  /** Parameters after ";" do not affect the guess, and with no type the result is ".png". */
  lemma ContentTypeParameters(mediaType: string, params: string, guess: string -> Option<string>)
    requires mediaType != "" && ';' !in mediaType
    ensures ContentTypeExt(mediaType + ";" + params, guess) == ContentTypeExt(mediaType, guess)
    ensures ContentTypeExt("", guess) == ".png"
  {
    var t := mediaType + ";" + params;
    assert t[|mediaType|] == ';';
    assert forall k :: 0 <= k < |mediaType| ==> t[k] == mediaType[k];
    FindAt(t, ';', |mediaType|);
    assert t[..|mediaType|] == mediaType;
    assert Find(mediaType, ';') < 0;
  }

  /** For a media type without parameters, a non-empty guess is the extension;
      when guess_extension gives None (or nothing), the extension is ".png". */
  lemma ContentTypeGuessed(mediaType: string, guess: string -> Option<string>)
    requires mediaType != "" && ';' !in mediaType
    ensures guess(mediaType).Some? && guess(mediaType).value != "" ==>
      ContentTypeExt(mediaType, guess) == guess(mediaType).value
    ensures guess(mediaType).None? || guess(mediaType).value == "" ==>
      ContentTypeExt(mediaType, guess) == ".png"
  {
    assert Find(mediaType, ';') < 0;
  }

  datatype ExtChoice = ExtRaised(error: string) | Ext(ext: string)

  /** The extension decision: the path extension when there is one; otherwise
      the HEAD response's Content-Type decides, and a raised HEAD request ends
      the attempt. */
  function ChooseExt(url: string, head: string -> HeadResponse, guess: string -> Option<string>): (c: ExtChoice)
    ensures c.Ext? ==> c.ext != ""
  {
    var ext := PathExt(url);
    if ext != "" then Ext(ext)
    else
      match head(url)
      case HeadRaised(e) => ExtRaised(e)
      case HeadOk(ct) => Ext(ContentTypeExt(ct, guess))
  }

  /** With a path extension the HEAD response is never consulted. */
  lemma ChooseExtWithoutHead(url: string, head1: string -> HeadResponse, head2: string -> HeadResponse,
                             guess: string -> Option<string>)
    requires SplitExt(Parse(url).path).1 != ""
    ensures ChooseExt(url, head1, guess) == ChooseExt(url, head2, guess) == Ext(SplitExt(Parse(url).path).1)
  {
    PathExtIsSplitExt(url);
  }

  /** Without a path extension the HEAD request decides: its exception ends the
      attempt, and otherwise the extension comes from its Content-Type. For
      example, a HEAD answer "image/png; charset=x" whose media type is guessed
      as ".png" gives ".png". */
  lemma ChooseExtFromHead(url: string, head: string -> HeadResponse, guess: string -> Option<string>,
                          mediaType: string, params: string)
    requires SplitExt(Parse(url).path).1 == ""
    requires mediaType != "" && ';' !in mediaType
    ensures head(url).HeadRaised? ==> ChooseExt(url, head, guess) == ExtRaised(head(url).error)
    ensures head(url).HeadOk? ==> ChooseExt(url, head, guess) == Ext(ContentTypeExt(head(url).contentType, guess))
    ensures head(url) == HeadOk(mediaType + ";" + params) && guess(mediaType).Some? && guess(mediaType).value != "" ==>
      ChooseExt(url, head, guess) == Ext(guess(mediaType).value)
  {
    PathExtIsSplitExt(url);
    ContentTypeParameters(mediaType, params, guess);
    ContentTypeGuessed(mediaType, guess);
  }

  // ---------------------------------------------------------------- download

  /** How writing the body went once the response was accepted: every chunk
      written; open(dst_path, 'wb') raised, so no file was made; or the stream
      or a write raised after the first `written` bytes of the body were written. */
  datatype WriteOutcome = Completed | OpenFailed(error: string) | StreamFailed(error: string, written: nat)

  /** The response to the image request: status, Content-Type ("" when absent),
      body and how writing it went, or the exception of the request itself. */
  datatype ImageResponse =
    | ImageRaised(error: string)
    | ImageOk(status: nat, contentType: string, body: seq<Byte>, write: WriteOutcome)

  /** download_image's (ok, err) pair and the bytes it leaves in the destination
      (None when it does not create the file). */
  datatype Download = Download(ok: bool, error: Option<string>, written: Option<seq<Byte>>)

  /** A response download_image accepts: status 200 and an image Content-Type. */
  predicate IsImage(resp: ImageResponse)
  {
    resp.ImageOk? && resp.status == 200 && StartsWith(resp.contentType, "image")
  }

  /** download_image: (True, None) and the whole body written for an image whose
      writing completes; an exception while writing gives its text and leaves
      the part of the body written so far; any other response writes nothing and
      gives 'not-image', 'status-<code>' or the exception text. */
  function DownloadImage(resp: ImageResponse): (d: Download)
    ensures d.ok <==> IsImage(resp) && resp.write.Completed?
    ensures d.ok <==> d.error.None?
    ensures d.written.Some? <==> IsImage(resp) && !resp.write.OpenFailed?
    ensures d.written.Some? ==> d.written.value <= resp.body
    ensures d.ok ==> d.written.value == resp.body
    ensures resp.ImageRaised? ==> d.error == Some(resp.error)
    ensures IsImage(resp) && !resp.write.Completed? ==> d.error == Some(resp.write.error)
  {
    match resp
    case ImageRaised(e) => Download(false, Some(e), None)
    case ImageOk(status, ct, body, write) =>
      if status == 200 then
        if !StartsWith(ct, "image") then Download(false, Some("not-image"), None)
        else
          match write
          case Completed => Download(true, None, Some(body))
          case OpenFailed(e) => Download(false, Some(e), None)
          case StreamFailed(e, n) => Download(false, Some(e), Some(body[..if n < |body| then n else |body|]))
      else Download(false, Some("status-" + NatToString(status)), None)
  }

  /** For a response that arrived, the error text tells the cases apart and gives
      the status back. */
  lemma DownloadErrorDecodes(resp: ImageResponse)
    requires resp.ImageOk? && !IsImage(resp)
    ensures var err := DownloadImage(resp).error.value;
      (resp.status == 200 <==> err == "not-image") &&
      (resp.status != 200 ==> StartsWith(err, "status-") && DecimalValue(err[7..]) == resp.status)
  {
    var err := DownloadImage(resp).error.value;
    if resp.status != 200 {
      var digits := NatToString(resp.status);
      assert err == "status-" + digits;
      assert err[7..] == digits;
      DecimalRoundTrip(resp.status);
      assert err[0] == 's';
    }
  }

  // ---------------------------------------------------------------- one ID

  /** avatar_dir/uid/photo<ext>. */
  function Destination(avatarDir: string, uid: string, ext: string): string
  {
    PathJoin(PathJoin(avatarDir, uid), "photo" + ext)
  }

  /** For an ID without "/" and an extension without "/", the destination's
      directory is avatar_dir/uid and its file name photo<ext>. */
  lemma DestinationParts(avatarDir: string, uid: string, ext: string)
    requires uid != "" && '/' !in uid && '/' !in ext
    ensures Dirname(Destination(avatarDir, uid, ext)) == PathJoin(avatarDir, uid)
    ensures Basename(Destination(avatarDir, uid, ext)) == "photo" + ext
  {
    var dir := PathJoin(avatarDir, uid);
    assert dir[|dir| - 1] == uid[|uid| - 1];
    assert '/' !in "photo" + ext by {
      assert forall k :: 0 <= k < |ext| ==> ("photo" + ext)[5 + k] == ext[k];
    }
    DirnameBasenameOfJoin(dir, "photo" + ext);
  }

  /** The responses the script sees, as functions of the URL, and mimetypes.guess_extension. */
  datatype Services = Services(
    page: string -> PageResponse,
    head: string -> HeadResponse,
    image: string -> ImageResponse,
    guess: string -> Option<string>)

  /** The response to the profile page request: status and parsed page, or the exception. */
  datatype PageResponse = PageRaised(error: string) | PageOk(status: nat, page: ProfilePage)

  /** How the body of the loop ended for one ID. Only Downloaded reaches the pause. */
  datatype Attempt =
    | ProfileStatus(status: nat)
    | NoAvatarLink
    | Raised(error: string)
    | Downloaded(dst: string, result: Download)

  /** One pass of the loop body: fetch the profile page, pick and resolve the
      avatar link, choose the extension, download to the destination. */
  function ProcessId(uid: string, avatarDir: string, s: Services): Attempt
  {
    var profileUrl := ProfileUrl(uid);
    match s.page(profileUrl)
    case PageRaised(e) => Raised(e)
    case PageOk(status, page) =>
      if status != 200 then ProfileStatus(status)
      else
        var found := FindAvatarUrl(page);
        if found.None? || found.value == "" then NoAvatarLink
        else
          var url := NormalizeUrl(found.value, profileUrl);
          match ChooseExt(url, s.head, s.guess)
          case ExtRaised(e) => Raised(e)
          case Ext(ext) => Downloaded(Destination(avatarDir, uid, ext), DownloadImage(s.image(url)))
  }

  /** A download, when it happens, follows a 200 profile page with a non-empty
      avatar link; it fetches that link made absolute and goes to
      avatar_dir/uid/photo<ext> with the non-empty extension chosen for it. */
  lemma ProcessIdDownloads(uid: string, avatarDir: string, s: Services)
    requires ProcessId(uid, avatarDir, s).Downloaded?
    ensures s.page(ProfileUrl(uid)).PageOk? && s.page(ProfileUrl(uid)).status == 200
    ensures var found := FindAvatarUrl(s.page(ProfileUrl(uid)).page);
      found.Some? && found.value != "" &&
      var url := NormalizeUrl(found.value, ProfileUrl(uid));
      ChooseExt(url, s.head, s.guess).Ext? && ChooseExt(url, s.head, s.guess).ext != "" &&
      ProcessId(uid, avatarDir, s) ==
        Downloaded(Destination(avatarDir, uid, ChooseExt(url, s.head, s.guess).ext), DownloadImage(s.image(url)))
  {
  }

  // ---------------------------------------------------------------- all IDs

  /** The attempt created or overwrote the file p, completely or in part. */
  predicate Saves(a: Attempt, p: string)
  {
    a.Downloaded? && a.result.written.Some? && a.dst == p
  }

  /** The files after the attempts, in order: each download that opened its
      destination (over)writes it with what it wrote. */
  function Saved(disk: map<string, seq<Byte>>, attempts: seq<Attempt>): (files: map<string, seq<Byte>>)
    ensures disk.Keys <= files.Keys
  {
    if attempts == [] then disk
    else
      var n := |attempts| - 1;
      var before := Saved(disk, attempts[..n]);
      var a := attempts[n];
      if a.Downloaded? && Saves(a, a.dst) then before[a.dst := a.result.written.value] else before
  }

  /** The number of pauses: one after every download attempt, none after an early exit. */
  function Pauses(attempts: seq<Attempt>): (n: nat)
    ensures n <= |attempts|
  {
    if attempts == [] then 0
    else Pauses(attempts[..|attempts| - 1]) + (if attempts[|attempts| - 1].Downloaded? then 1 else 0)
  }

  /** A file exists afterwards exactly when it existed before or some attempt saved it. */
  lemma {:induction false} SavedFiles(disk: map<string, seq<Byte>>, attempts: seq<Attempt>, p: string)
    ensures p in Saved(disk, attempts) <==>
      p in disk || exists i :: 0 <= i < |attempts| && Saves(attempts[i], p)
  {
    if attempts != [] {
      var n := |attempts| - 1;
      SavedFiles(disk, attempts[..n], p);
      if exists i :: 0 <= i < n && Saves(attempts[..n][i], p) {
        var i :| 0 <= i < n && Saves(attempts[..n][i], p);
        assert attempts[i] == attempts[..n][i];
      }
      if exists i :: 0 <= i < |attempts| && Saves(attempts[i], p) {
        var i :| 0 <= i < |attempts| && Saves(attempts[i], p);
        if i < n {
          assert attempts[..n][i] == attempts[i];
        }
      }
    }
  }

  /** The positions of the attempts that reached the download. */
  function Downloads(attempts: seq<Attempt>): (d: set<int>)
    ensures forall i :: i in d ==> 0 <= i < |attempts|
  {
    set i | 0 <= i < |attempts| && attempts[i].Downloaded?
  }

  lemma DownloadsSnoc(attempts: seq<Attempt>)
    requires attempts != []
    ensures var n := |attempts| - 1;
      Downloads(attempts) == Downloads(attempts[..n]) + (if attempts[n].Downloaded? then {n} else {})
  {
    var n := |attempts| - 1;
    assert forall i :: 0 <= i < n ==> attempts[..n][i] == attempts[i];
  }

  /** The pause count is the number of download attempts. */
  lemma {:induction false} PausesCountDownloads(attempts: seq<Attempt>)
    ensures Pauses(attempts) == |Downloads(attempts)|
  {
    if attempts != [] {
      var n := |attempts| - 1;
      PausesCountDownloads(attempts[..n]);
      DownloadsSnoc(attempts);
      assert n !in Downloads(attempts[..n]);
    }
  }

  lemma SavedStep(disk: map<string, seq<Byte>>, attempts: seq<Attempt>, a: Attempt)
    ensures Saved(disk, attempts + [a]) ==
      var before := Saved(disk, attempts);
      if a.Downloaded? && Saves(a, a.dst) then before[a.dst := a.result.written.value] else before
    ensures Pauses(attempts + [a]) == Pauses(attempts) + (if a.Downloaded? then 1 else 0)
  {
    assert (attempts + [a])[..|attempts|] == attempts;
  }

  /** The attempt for each ID, in list order. */
  function AttemptsFor(ids: seq<string>, avatarDir: string, s: Services): (attempts: seq<Attempt>)
    ensures |attempts| == |ids|
    ensures forall i :: 0 <= i < |ids| ==> attempts[i] == ProcessId(ids[i], avatarDir, s)
  {
    seq(|ids|, i requires 0 <= i < |ids| => ProcessId(ids[i], avatarDir, s))
  }

  /** The loop over the IDs in list order, for the loop body `attempt`: every ID
      gets its attempt whatever happened to the earlier ones; downloads write
      their files; a pause follows each download attempt. */
  method FetchAvatars(ids: seq<string>, attempt: string -> Attempt, disk: map<string, seq<Byte>>)
    returns (attempts: seq<Attempt>, files: map<string, seq<Byte>>, pauses: nat)
    ensures |attempts| == |ids|
    ensures forall i :: 0 <= i < |ids| ==> attempts[i] == attempt(ids[i])
    ensures files == Saved(disk, attempts)
    ensures pauses == Pauses(attempts)
  {
    attempts := [];
    files := disk;
    pauses := 0;
    for i := 0 to |ids|
      invariant |attempts| == i
      invariant forall k :: 0 <= k < i ==> attempts[k] == attempt(ids[k])
      invariant files == Saved(disk, attempts)
      invariant pauses == Pauses(attempts)
    {
      var a := attempt(ids[i]);
      SavedStep(disk, attempts, a);
      match a {
        case Downloaded(dst, result) =>
          if result.written.Some? {
            files := files[dst := result.written.value];
          }
          pauses := pauses + 1;
        case _ =>
      }
      attempts := attempts + [a];
    }
  }

  // ---------------------------------------------------------------- main

  /** How main ended: a crash (open(None) on an unset ID list, or creating an unset
      or empty avatar directory), nothing to do, or the loop ran. */
  datatype AvatarRun =
    | Crashed
    | NoIds
    | Fetched(ids: seq<string>, attempts: seq<Attempt>, files: map<string, seq<Byte>>, pauses: nat)

  /** main, for the files.user_id_list and files.avatar_dir entries of the
      configuration, the text files that exist, the services and the binary files. */
  method RunAvatars(userIdList: Option<string>, avatarDirRaw: Option<string>, textFiles: map<string, seq<string>>,
                    s: Services, disk: map<string, seq<Byte>>) returns (run: AvatarRun)
    ensures WithPrefix(OutputDir, userIdList).None? ==> run == Crashed
    ensures WithPrefix(OutputDir, userIdList).Some? ==>
      var path := WithPrefix(OutputDir, userIdList).value;
      var ids := if path in textFiles then IdLines(textFiles[path]) else [];
      var avatarDir := WithPrefix(OutputDir, avatarDirRaw);
      (ids == [] ==> run == NoIds) &&
      (ids != [] && (avatarDir.None? || avatarDir.value == "") ==> run == Crashed) &&
      (ids != [] && avatarDir.Some? && avatarDir.value != "" ==>
         run.Fetched? && run.ids == ids && run.attempts == AttemptsFor(ids, avatarDir.value, s) &&
         run.files == Saved(disk, run.attempts) && run.pauses == Pauses(run.attempts))
  {
    var userIdsFile := WithPrefix(OutputDir, userIdList);
    var avatarDir := WithPrefix(OutputDir, avatarDirRaw);
    if userIdsFile.None? {
      return Crashed;
    }
    var path := userIdsFile.value;
    var ids := ReadUserIds(if path in textFiles then Some(textFiles[path]) else None);
    if ids == [] {
      return NoIds;
    }
    if avatarDir.None? || avatarDir.value == "" {
      return Crashed;
    }
    var dir := avatarDir.value;
    var attempts, files, pauses := FetchAvatars(ids, uid => ProcessId(uid, dir, s), disk);
    run := Fetched(ids, attempts, files, pauses);
  }
}
