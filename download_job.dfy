/**
 * One download job, from the metadata probe to the upload, and the
 * per-user queue that runs a batch of jobs one after another.  What the
 * outside world does (the probe's answer, whether aria2c is installed,
 * exit codes, which files appear in the downloads directory, whether
 * the upload raises) is given to the job as an observation.
 */
module DownloadJob {
  import opened Wrappers
  import opened Strings
  import opened Filenames
  import opened GlobMatch

  // ---------------------------------------------------------------
  // Names
  // ---------------------------------------------------------------

  /** The job identifier: user id and start time in milliseconds. */
  function UniqueId(user: nat, startMs: nat): (uid: string)
    ensures Split(uid, '_') == [NatToString(user), NatToString(startMs)]
  {
    var a, b := NatToString(user), NatToString(startMs);
    assert Join([a, b], '_') == a + "_" + b;
    SplitJoin([a, b], '_');
    a + "_" + b
  }

  /** Two jobs with the same identifier have the same user and start time. */
  lemma UniqueIdInjective(u1: nat, t1: nat, u2: nat, t2: nat)
    requires UniqueId(u1, t1) == UniqueId(u2, t2)
    ensures u1 == u2 && t1 == t2
  {
    NatToStringInjective(u1, u2);
    NatToStringInjective(t1, t2);
  }

  /** The base name of every file a job writes: identifier, `_`, cleaned title. */
  function CleanTitle(uid: string, title: string): (base: string)
    ensures StartsWith(base, uid + "_")
    ensures NoUnsafe(uid) ==> NoUnsafe(base)
  {
    assert (uid + "_" + CleanFilename(title))[..|uid + "_"|] == uid + "_";
    uid + "_" + CleanFilename(title)
  }

  /** The thumbnail's name: the base name with `.jpg`. */
  function ThumbName(uid: string, title: string): (name: string)
    ensures |name| == |CleanTitle(uid, title)| + 4
    ensures StartsWith(name, CleanTitle(uid, title)) && name[|name| - 4..] == ".jpg"
  {
    assert (CleanTitle(uid, title) + ".jpg")[..|CleanTitle(uid, title)|] == CleanTitle(uid, title);
    CleanTitle(uid, title) + ".jpg"
  }

  lemma StartsWithConcat(a: string, b: string)
    ensures StartsWith(a + b, a)
  {
    assert (a + b)[..|a|] == a;
  }

  lemma StartsWithTrans(s: string, t: string, p: string)
    requires StartsWith(s, t) && StartsWith(t, p)
    ensures StartsWith(s, p)
  {
    assert s[..|p|] == s[..|t|][..|p|];
  }

  lemma StartsWithFront(s: string, a: string, b: string)
    requires StartsWith(s, a + b)
    ensures StartsWith(s, a)
  {
    StartsWithConcat(a, b);
    StartsWithTrans(s, a + b, a);
  }

  /** Any name starting with the job's base name starts with its identifier. */
  lemma JobFilesStartWithId(uid: string, title: string, name: string)
    requires StartsWith(name, CleanTitle(uid, title))
    ensures StartsWith(name, uid)
  {
    var c := CleanFilename(title);
    assert CleanTitle(uid, title) == uid + ("_" + c);
    StartsWithFront(name, uid, "_" + c);
  }

  /** Two digit strings each followed by `_` at the start of one name are equal. */
  lemma DigitsBeforeUnderscore(d1: string, d2: string, name: string)
    requires AllDigits(d1) && AllDigits(d2)
    requires StartsWith(name, d1 + "_") && StartsWith(name, d2 + "_")
    ensures d1 == d2
  {
    assert forall k :: 0 <= k < |d1| ==> name[k] == d1[k] by {
      assert forall k :: 0 <= k < |d1| ==> name[..|d1 + "_"|][k] == d1[k];
    }
    assert forall k :: 0 <= k < |d2| ==> name[k] == d2[k] by {
      assert forall k :: 0 <= k < |d2| ==> name[..|d2 + "_"|][k] == d2[k];
    }
    assert name[|d1|] == '_' by {
      assert name[..|d1 + "_"|][|d1|] == '_';
    }
    assert name[|d2|] == '_' by {
      assert name[..|d2 + "_"|][|d2|] == '_';
    }
    if |d1| != |d2| {
      assert false;
    }
    assert forall k :: 0 <= k < |d1| ==> d1[k] == d2[k];
  }

  /** Two texts of equal length after the same prefix of one name are equal. */
  lemma SameLengthAfterPrefix(p: string, e1: string, e2: string, name: string)
    requires |e1| == |e2|
    requires StartsWith(name, p + e1) && StartsWith(name, p + e2)
    ensures e1 == e2
  {
    assert p + e1 == p + e2 by {
      assert name[..|p + e1|] == name[..|p + e2|];
    }
    assert e1 == (p + e1)[|p|..] && e2 == (p + e2)[|p|..];
  }

  /**
   * Two jobs whose start times have as many digits share no file: a name
   * that starts with one job's identifier and with the other's identifier
   * followed by `_` forces the jobs to be the same.  With a millisecond
   * clock the digit count only changes once in centuries.
   */
  lemma JobsDoNotShareFiles(u1: nat, t1: nat, u2: nat, t2: nat, name: string)
    requires |NatToString(t1)| == |NatToString(t2)|
    requires StartsWith(name, UniqueId(u1, t1))
    requires StartsWith(name, UniqueId(u2, t2) + "_")
    ensures u1 == u2 && t1 == t2
  {
    var d1, e1 := NatToString(u1), NatToString(t1);
    var d2, e2 := NatToString(u2), NatToString(t2);
    assert UniqueId(u1, t1) == (d1 + "_") + e1;
    assert UniqueId(u2, t2) + "_" == (d2 + "_") + (e2 + "_");
    StartsWithFront(name, d1 + "_", e1);
    StartsWithFront(name, d2 + "_", e2 + "_");
    DigitsBeforeUnderscore(d1, d2, name);
    assert (d2 + "_") + (e2 + "_") == ((d1 + "_") + e2) + "_";
    StartsWithFront(name, (d1 + "_") + e2, "_");
    SameLengthAfterPrefix(d1 + "_", e1, e2, name);
    NatToStringInjective(u1, u2);
    NatToStringInjective(t1, t2);
  }

  /**
   * Without equal digit counts jobs can share names: the file of a job that
   * started at millisecond 55 starts with the identifier of one that
   * started at millisecond 5.
   */
  lemma ShorterStartTimeReachesLaterJob()
    ensures StartsWith(UniqueId(1, 55) + "_x.mp4", UniqueId(1, 5))
  {
    assert NatToString(1) == "1";
    assert NatToString(5) == "5";
    assert NatToString(55) == NatToString(5) + NatToString(5);
    assert (UniqueId(1, 55) + "_x.mp4")[..3] == "1_5";
  }

  // ---------------------------------------------------------------
  // Format selection
  // ---------------------------------------------------------------

  function HeightCap(quality: string): string {
    "[height<=" + quality + "]"
  }

  /** The three yt-dlp format choices, in order of preference. */
  function FormatChoices(quality: string): seq<string> {
    [ "bestvideo" + HeightCap(quality) + "[ext=mp4]+bestaudio[ext=m4a]",
      "bestvideo" + HeightCap(quality) + "+bestaudio",
      "best" + HeightCap(quality) ]
  }

  /**
   * yt-dlp's `-f` argument: the three choices separated by `/`. For a
   * quality without `/`, it splits back into exactly those three choices.
   */
  function FormatSpec(quality: string): (spec: string)
    ensures '/' !in quality ==> Split(spec, '/') == FormatChoices(quality)
  {
    var c := FormatChoices(quality);
    assert '/' !in quality ==> forall k :: 0 <= k < |c| ==> '/' !in c[k];
    if '/' !in quality then SplitJoin(c, '/'); Join(c, '/') else Join(c, '/')
  }

  /** Every alternative caps the height at the chosen quality. */
  lemma EveryChoiceCapsHeight(quality: string, k: nat)
    requires k < 3
    ensures Contains(FormatChoices(quality)[k], HeightCap(quality))
  {
    var c := FormatChoices(quality)[k];
    var i := if k == 2 then 4 else 9;
    assert c[i..][..|HeightCap(quality)|] == HeightCap(quality);
    assert OccursAt(c, HeightCap(quality), i);
    ContainsOccurs(c, HeightCap(quality));
  }

  // ---------------------------------------------------------------
  // Download attempts
  // ---------------------------------------------------------------

  /** The fast command uses aria2c as external downloader; the safe one does not. */
  datatype Tool = Turbo | Safe

  /**
   * The attempts a job makes: the fast command when aria2c is installed,
   * then the safe command unless the fast one reported exit code 0.  An
   * absent exit code (the child was not waited for) counts as a failure.
   */
  function AttemptPlan(ariaFound: bool, turboExit: Option<int>): (plan: seq<Tool>)
    ensures Turbo in plan <==> ariaFound
    ensures Safe in plan <==> !ariaFound || turboExit != Some(0)
    ensures 1 <= |plan| <= 2 && plan[0] == (if ariaFound then Turbo else Safe)
    ensures |plan| == 2 ==> plan == [Turbo, Safe]
  {
    (if ariaFound then [Turbo] else [])
      + (if !ariaFound || turboExit != Some(0) then [Safe] else [])
  }

  /**
   * What starting one yt-dlp command gave: the exit code once it ran (absent
   * when it was not waited for), or the error raised because the process
   * could not be started. Starting happens outside the runner's `try`, so
   * that error ends the job.
   */
  datatype Spawn = Spawned(exit: Option<int>) | SpawnFailed(error: string)

  /**
   * The attempts a job makes and the error that cuts them short. Aria2c's
   * attempt happens iff aria2c exists. If it cannot be started the job
   * stops there; otherwise the safe attempt follows iff aria2c is absent
   * or its exit code is not 0.
   */
  function Attempts(ariaFound: bool, turbo: Spawn, safe: Spawn): (r: (seq<Tool>, Option<string>))
    ensures Turbo in r.0 <==> ariaFound
    ensures Safe in r.0 <==> !ariaFound || (turbo.Spawned? && turbo.exit != Some(0))
    ensures 1 <= |r.0| <= 2 && r.0[0] == (if ariaFound then Turbo else Safe)
    ensures |r.0| == 2 ==> r.0 == [Turbo, Safe]
    ensures turbo.Spawned? ==> r.0 == AttemptPlan(ariaFound, turbo.exit)
    ensures r.1.Some? <==> (ariaFound && turbo.SpawnFailed?) || (Safe in r.0 && safe.SpawnFailed?)
    ensures r.1.Some? ==> r.1.value == if ariaFound && turbo.SpawnFailed? then turbo.error else safe.error
  {
    if ariaFound && turbo.SpawnFailed? then ([Turbo], Some(turbo.error))
    else
      var plan := AttemptPlan(ariaFound, if turbo.Spawned? then turbo.exit else None);
      (plan, if Safe in plan && safe.SpawnFailed? then Some(safe.error) else None)
  }

  /** The attempt sequence with the `ret_code` variable it is written with, starting at -1. */
  method Download(ariaFound: bool, turbo: Spawn, safe: Spawn) returns (plan: seq<Tool>, error: Option<string>)
    ensures (plan, error) == Attempts(ariaFound, turbo, safe)
  {
    plan, error := [], None;
    var retCode: Option<int> := Some(-1);
    if ariaFound {
      plan := plan + [Turbo];
      match turbo
      case SpawnFailed(e) =>
        assert plan == [Turbo];
        return plan, Some(e);
      case Spawned(exit) =>
        retCode := exit;
    }
    assert retCode == if ariaFound then turbo.exit else Some(-1);
    if retCode != Some(0) {
      plan := plan + [Safe];
      if safe.SpawnFailed? {
        error := Some(safe.error);
      }
    }
    assert plan == Attempts(ariaFound, turbo, safe).0;
  }

  // ---------------------------------------------------------------
  // Finding the downloaded file
  // ---------------------------------------------------------------

  const DOWNLOAD_FAILED := "Download failed."

  function LastDot(s: string): (i: Option<nat>)
    ensures i.Some? ==> i.value < |s| && s[i.value] == '.'
    ensures i.Some? ==> forall k :: i.value < k < |s| ==> s[k] != '.'
    ensures i.None? ==> forall k :: 0 <= k < |s| ==> s[k] != '.'
  {
    if s == [] then None
    else if s[|s| - 1] == '.' then Some(|s| - 1)
    else LastDot(s[..|s| - 1])
  }

  /** `PurePath.suffix`: from the last dot, unless it leads or ends the name. */
  function Suffix(name: string): (x: string)
    ensures x == [] || (2 <= |x| < |name| && x == name[|name| - |x|..] && x[0] == '.')
    ensures x != [] ==> forall k :: 1 <= k < |x| ==> x[k] != '.'
  {
    match LastDot(name)
    case Some(i) => if 0 < i < |name| - 1 then name[i..] else []
    case None => []
  }

  lemma SuffixOfExtension(stem: string, ext: string)
    requires stem != [] && 2 <= |ext| && ext[0] == '.'
    requires forall k :: 1 <= k < |ext| ==> ext[k] != '.'
    ensures Suffix(stem + ext) == ext
  {
    var s := stem + ext;
    var i := |stem|;
    assert s[i] == '.';
    assert forall k :: i < k < |s| ==> s[k] != '.' by {
      assert forall k :: i < k < |s| ==> s[k] == ext[k - i];
    }
    assert LastDot(s) == Some(i);
    assert s[i..] == ext;
  }

  predicate IsVideoSuffix(x: string) {
    x == ".mp4" || x == ".mkv" || x == ".webm"
  }

  /** How a job looks its file up in the directory listing. */
  datatype Lookup =
    | GlobAsWritten  // the pattern `<base>.*`, where `[` in the base opens a set
    | LiteralBase    // the names that start with `<base>.`

  predicate Candidate(lookup: Lookup, base: string, name: string) {
    match lookup
    case GlobAsWritten => GlobMatches(base + ".*", name)
    case LiteralBase => StartsWith(name, base + ".")
  }

  predicate IsArtifact(lookup: Lookup, base: string, name: string) {
    Candidate(lookup, base, name) && IsVideoSuffix(Suffix(name))
  }

  /** The first listed candidate with a video suffix, else the failure message. */
  function SelectArtifact(lookup: Lookup, listing: seq<string>, base: string): (r: Result<string, string>)
    ensures r.Ok? <==> exists k :: 0 <= k < |listing| && IsArtifact(lookup, base, listing[k])
    ensures r.Ok? ==> IsArtifact(lookup, base, r.value)
    ensures r.Ok? ==>
      exists k :: 0 <= k < |listing| && listing[k] == r.value && (forall j :: 0 <= j < k ==> !IsArtifact(lookup, base, listing[j]))
    ensures r.Err? ==> r.error == DOWNLOAD_FAILED
  {
    if listing == [] then Err(DOWNLOAD_FAILED)
    else if IsArtifact(lookup, base, listing[0]) then Ok(listing[0])
    else
      var r := SelectArtifact(lookup, listing[1..], base);
      SelectLater(lookup, listing, base, r);
      r
  }

  /** What the selection over the tail means for the whole listing, when its head is no artifact. */
  lemma SelectLater(lookup: Lookup, listing: seq<string>, base: string, r: Result<string, string>)
    requires listing != [] && !IsArtifact(lookup, base, listing[0])
    requires r.Ok? <==> exists k :: 0 <= k < |listing[1..]| && IsArtifact(lookup, base, listing[1..][k])
    requires r.Ok? ==>
      exists k :: 0 <= k < |listing[1..]| && listing[1..][k] == r.value
        && (forall j :: 0 <= j < k ==> !IsArtifact(lookup, base, listing[1..][j]))
    ensures r.Ok? <==> exists k :: 0 <= k < |listing| && IsArtifact(lookup, base, listing[k])
    ensures r.Ok? ==>
      exists k :: 0 <= k < |listing| && listing[k] == r.value && (forall j :: 0 <= j < k ==> !IsArtifact(lookup, base, listing[j]))
  {
    assert forall k :: 1 <= k < |listing| ==> listing[k] == listing[1..][k - 1];
    if r.Ok? {
      var k :| 0 <= k < |listing[1..]| && listing[1..][k] == r.value
        && (forall j :: 0 <= j < k ==> !IsArtifact(lookup, base, listing[1..][j]));
      assert listing[k + 1] == r.value;
      assert forall j :: 0 <= j < k + 1 ==> !IsArtifact(lookup, base, listing[j]);
    }
  }

  /** Cleaned titles never hold `*` or `?`, so only `[` can make the glob differ. */
  lemma CleanTitleWildcards(uid: string, title: string)
    requires AllDigitsOr(uid, '_')
    requires '[' !in title
    ensures HasNoWildcard(CleanTitle(uid, title) + ".")
  {
    var c := CleanFilename(title);
    assert NoUnsafe(c);
    CleanAddsOnlyUnderscore(title, '[');
    var p := CleanTitle(uid, title) + ".";
    assert p == uid + "_" + c + ".";
    forall k | 0 <= k < |p|
      ensures p[k] != '*' && p[k] != '?' && p[k] != '['
    {
      if k < |uid| {
        assert p[k] == uid[k];
      } else if |uid| < k < |uid| + 1 + |c| {
        assert p[k] == c[k - |uid| - 1];
        assert !Unsafe(c[k - |uid| - 1]);
      }
    }
  }

  predicate AllDigitsOr(s: string, c: char) {
    forall k :: 0 <= k < |s| ==> IsDigit(s[k]) || s[k] == c
  }

  lemma UniqueIdChars(user: nat, startMs: nat)
    ensures AllDigitsOr(UniqueId(user, startMs), '_')
  {
    var a, b := NatToString(user), NatToString(startMs);
    assert UniqueId(user, startMs) == a + "_" + b;
  }

  /** For titles without `[` the glob lookup and the literal lookup agree. */
  lemma LookupsAgreeWithoutBracket(user: nat, startMs: nat, title: string, name: string)
    requires '[' !in title
    ensures Candidate(GlobAsWritten, CleanTitle(UniqueId(user, startMs), title), name)
        <==> Candidate(LiteralBase, CleanTitle(UniqueId(user, startMs), title), name)
  {
    var base := CleanTitle(UniqueId(user, startMs), title);
    UniqueIdChars(user, startMs);
    CleanTitleWildcards(UniqueId(user, startMs), title);
    assert base + ".*" == (base + ".") + "*";
    PrefixPattern(base + ".", name);
  }

  /** The literal lookup always finds a video the download wrote under the base name. */
  lemma LiteralLookupFindsDownload(listing: seq<string>, base: string, ext: string, k: nat)
    requires base != [] && IsVideoSuffix(ext)
    requires k < |listing| && listing[k] == base + ext
    ensures SelectArtifact(LiteralBase, listing, base).Ok?
  {
    SuffixOfExtension(base, ext);
    assert base + ext == (base + ".") + ext[1..];
    StartsWithConcat(base + ".", ext[1..]);
    assert IsArtifact(LiteralBase, base, listing[k]);
  }

  lemma SmallId()
    ensures UniqueId(1, 2) == "1_2"
  {
    assert NatToString(1) == "1";
    assert NatToString(2) == "2";
  }

  lemma BracketTitleIsSafe()
    ensures CleanFilename("a[b]") == "a[b]"
  {
    assert NoUnsafe("a[b]");
    CleanSafeIsIdentity("a[b]");
  }

  lemma BracketTitleBase()
    ensures CleanTitle(UniqueId(1, 2), "a[b]") == "1_2_a[b]"
  {
    SmallId();
    BracketTitleIsSafe();
  }

  lemma CompileBracketPattern()
    ensures Compile("1_2_a[b].*") == Literals("1_2_a") + [CharSet(false, [Single('b')]), Literal('.'), AnyText]
  {
    var q := "[b].*";
    assert FindClose(q, 1) == 2 by {
      assert q[1] != ']' && q[2] == ']';
    }
    assert SetEnd(q, 1) == 2;
    assert q[1..2] == "b" && q[3..] == "." + "*";
    assert ParseItems("b") == [Single('b')] by {
      assert "b"[1..] == [];
    }
    CompileLiteralThenStar(".");
    assert Literals(".") == [Literal('.')];
    assert Compile(q) == [CharSet(false, [Single('b')]), Literal('.'), AnyText];
    assert "1_2_a[b].*" == "1_2_a" + q;
    CompileLiteralPrefix("1_2_a", q);
  }

  lemma BracketPatternRejectsFile()
    ensures !GlobMatches("1_2_a[b].*", "1_2_a[b].mp4")
  {
    CompileBracketPattern();
    var rest := [CharSet(false, [Single('b')]), Literal('.'), AnyText];
    var name := "1_2_a[b].mp4";
    assert StartsWith(name, "1_2_a") by {
      assert name[..5] == "1_2_a";
    }
    MatchAfterLiterals("1_2_a", rest, name);
    assert name[5..][0] == '[';
    assert !SetHas([Single('b')], '[');
  }

  /**
   * As written, a title with a bracketed part defeats the lookup: the file
   * `1_2_a[b].mp4` that yt-dlp wrote for the title `a[b]` is not matched by
   * the pattern `1_2_a[b].*`, whose `[b]` stands for the single letter b.
   */
  lemma GlobLookupMissesBracketTitle()
    ensures CleanTitle(UniqueId(1, 2), "a[b]") == "1_2_a[b]"
    ensures SelectArtifact(GlobAsWritten, ["1_2_a[b].mp4"], "1_2_a[b]") == Err(DOWNLOAD_FAILED)
  {
    BracketTitleBase();
    BracketPatternRejectsFile();
    assert "1_2_a[b]" + ".*" == "1_2_a[b].*";
    assert !Candidate(GlobAsWritten, "1_2_a[b]", "1_2_a[b].mp4");
  }

  /** Corrected, the same file is found. */
  lemma LiteralLookupFindsBracketTitle()
    ensures SelectArtifact(LiteralBase, ["1_2_a[b].mp4"], "1_2_a[b]") == Ok("1_2_a[b].mp4")
  {
    assert "1_2_a[b].mp4" == "1_2_a[b]" + ".mp4";
    LiteralLookupFindsDownload(["1_2_a[b].mp4"], "1_2_a[b]", ".mp4", 0);
  }

  // ---------------------------------------------------------------
  // Metadata, thumbnail and error text
  // ---------------------------------------------------------------

  /** The probe's answer; `None` is a missing (or, for width and height, null) entry. */
  datatype Probe = Probe(width: Option<int>, height: Option<int>, title: Option<string>, duration: Option<int>)

  datatype Media = Media(width: int, height: int, title: string, duration: int)

  /** Width and height fall back to 1280x720 when missing or zero; title to "Video"; duration to 0. */
  function MediaOf(p: Probe): (m: Media)
    ensures m.width != 0 && m.height != 0
    ensures p.width.Some? && p.width.value != 0 ==> m.width == p.width.value
    ensures p.width.None? || p.width.value == 0 ==> m.width == 1280
    ensures p.height.Some? && p.height.value != 0 ==> m.height == p.height.value
    ensures p.height.None? || p.height.value == 0 ==> m.height == 720
    ensures m.title == (if p.title.Some? then p.title.value else "Video")
    ensures m.duration == (if p.duration.Some? then p.duration.value else 0)
  {
    var w := if p.width.Some? && p.width.value != 0 then p.width.value else 1280;
    var h := if p.height.Some? && p.height.value != 0 then p.height.value else 720;
    Media(w, h, if p.title.Some? then p.title.value else "Video",
          if p.duration.Some? then p.duration.value else 0)
  }

  /** The thumbnail step's result: its path when ffmpeg left the file behind. */
  function ExtractedThumb(path: string, fileExists: bool): (t: Option<string>)
    ensures t.Some? <==> fileExists
    ensures t.Some? ==> t.value == path
  {
    if fileExists then Some(path) else None
  }

  /** As written: the upload's `thumb` argument is `str(actual_thumb)`. */
  function ThumbArgAsWritten(thumb: Option<string>): (arg: string)
    ensures thumb.Some? ==> arg == thumb.value
    ensures thumb.None? ==> arg == "None"
  {
    match thumb
    case Some(p) => p
    case None => "None"
  }

  /**
   * As written, a missing thumbnail becomes the path "None", which the
   * upload cannot tell from a thumbnail file of that name.
   */
  lemma MissingThumbBecomesPathNone()
    ensures ThumbArgAsWritten(ExtractedThumb("t.jpg", false)) == "None"
    ensures ThumbArgAsWritten(ExtractedThumb("t.jpg", false)) == ThumbArgAsWritten(ExtractedThumb("None", true))
  {
  }

  /** Corrected: no thumbnail is passed when none was made. */
  function ThumbArg(thumb: Option<string>): (arg: Option<string>)
    ensures arg.None? <==> thumb.None?
    ensures arg.Some? ==> arg.value == thumb.value
  {
    thumb
  }

  /** The upload receives a thumbnail exactly when the file exists, and then that file. */
  lemma ThumbOnlyWhenMade(path: string, fileExists: bool)
    ensures ThumbArg(ExtractedThumb(path, fileExists)) == (if fileExists then Some(path) else None)
  {
  }

  const ERROR_LIMIT := 100

  /** `str(e)[:100]`. */
  function Truncate(e: string): (t: string)
    ensures |t| <= ERROR_LIMIT && |t| <= |e| && t == e[..|t|]
    ensures |e| <= ERROR_LIMIT ==> t == e
    ensures |e| > ERROR_LIMIT ==> |t| == ERROR_LIMIT
  {
    if |e| <= ERROR_LIMIT then e else e[..ERROR_LIMIT]
  }

  lemma TruncateIdempotent(e: string)
    ensures Truncate(Truncate(e)) == Truncate(e)
  {
  }

  /** The error line: the prefix, at most 100 characters of the reason, a closing backtick. */
  function ErrorStatus(reason: string): (line: string)
    ensures |ERROR_PREFIX| < |line| <= |ERROR_PREFIX| + ERROR_LIMIT + 1
    ensures StartsWith(line, ERROR_PREFIX) && line[|line| - 1] == '`'
    ensures line[|ERROR_PREFIX|..|line| - 1] == Truncate(reason)
  {
    var line := ERROR_PREFIX + Truncate(reason) + "`";
    assert line[..|ERROR_PREFIX|] == ERROR_PREFIX;
    assert line[|ERROR_PREFIX|..|line| - 1] == Truncate(reason);
    line
  }

  // ---------------------------------------------------------------
  // One job
  // ---------------------------------------------------------------

  /** What the outside world did during one job. */
  datatype Observed = Observed(
    startMs: nat,
    probe: Result<Probe, string>,
    ariaFound: bool,
    turbo: Spawn,
    safe: Spawn,
    after: Aftermath)

  /** What the outside world did once yt-dlp had finished. */
  datatype Aftermath = Aftermath(
    listing: seq<string>,
    postError: Option<string>,   // raised by the remux or the thumbnail step (starting ffmpeg, `os.replace`)
    thumbMade: bool,
    uploadError: Option<string>)

  /** The video sent, its metadata and the upload's `thumb` argument (absent: none passed). */
  datatype Outcome =
    | Sent(video: string, media: Media, thumb: Option<string>)
    | Failed(reason: string)

  datatype Report = Report(url: string, uid: string, format: string, attempts: seq<Tool>, outcome: Outcome)

  /** On success the status message is deleted; on failure it shows the truncated reason. */
  function FinalStatus(o: Outcome): Option<string> {
    match o
    case Sent(_, _, _) => None
    case Failed(reason) => Some(ErrorStatus(reason))
  }

  const ERROR_PREFIX := "\U{274C} **Error:** `"

  /**
   * Every job resolves its one status message: deleted when the video was
   * sent, otherwise replaced by an error line no longer than the prefix,
   * 100 characters of reason and the closing backtick.
   */
  lemma StatusResolved(o: Outcome)
    ensures FinalStatus(o).None? <==> o.Sent?
    ensures o.Failed? ==> var line := FinalStatus(o).value;
              StartsWith(line, ERROR_PREFIX) && |line| <= |ERROR_PREFIX| + ERROR_LIMIT + 1
  {
  }

  /**
   * `AsWritten` is the job as `start_download` does it: the glob lookup and
   * `thumb=str(actual_thumb)`. `Corrected` looks the file up by its literal
   * base name and passes no thumbnail when none was made.
   */
  datatype Version = AsWritten | Corrected

  function LookupOf(v: Version): Lookup {
    if v.AsWritten? then GlobAsWritten else LiteralBase
  }

  /** The upload's thumbnail argument for the thumbnail step's result. */
  function ThumbFor(v: Version, thumb: Option<string>): Option<string> {
    if v.AsWritten? then Some(ThumbArgAsWritten(thumb)) else ThumbArg(thumb)
  }

  /** The base name of the job's files, once the probe has answered. */
  function JobBase(user: nat, obs: Observed): string
    requires obs.probe.Ok?
  {
    CleanTitle(UniqueId(user, obs.startMs), MediaOf(obs.probe.value).title)
  }

  /**
   * The job once the lookup has answered: post-processing, the thumbnail
   * step and the upload, the first error ending the job.
   */
  function AfterLookup(v: Version, uid: string, media: Media, found: Result<string, string>, obs: Aftermath): (o: Outcome)
    ensures found.Err? ==> o == Failed(found.error)
    ensures o.Sent? ==> found.Ok? && o.video == found.value && o.media == media
  {
    match found
    case Err(e) => Failed(e)
    case Ok(video) =>
      if obs.postError.Some? then Failed(obs.postError.value)
      else
        var thumb := ThumbFor(v, ExtractedThumb(ThumbName(uid, media.title), obs.thumbMade));
        match obs.uploadError
        case Some(e) => Failed(e)
        case None => Sent(video, media, thumb)
  }

  /** The job once yt-dlp has finished: the lookup, then the rest. */
  function AfterDownload(v: Version, uid: string, media: Media, obs: Aftermath): Outcome {
    AfterLookup(v, uid, media, SelectArtifact(LookupOf(v), obs.listing, CleanTitle(uid, media.title)), obs)
  }

  /**
   * `start_download` for one link: probe, attempts, then the rest of the job,
   * the first error ending it.
   */
  function RunJob(v: Version, user: nat, quality: string, url: string, obs: Observed): (r: Report)
    ensures r.url == url && r.uid == UniqueId(user, obs.startMs) && r.format == FormatSpec(quality)
    ensures obs.probe.Err? <==> r.attempts == []
  {
    var uid := UniqueId(user, obs.startMs);
    var fmt := FormatSpec(quality);
    match obs.probe
    case Err(e) => Report(url, uid, fmt, [], Failed(e))
    case Ok(info) =>
      var (attempts, spawnError) := Attempts(obs.ariaFound, obs.turbo, obs.safe);
      Report(url, uid, fmt, attempts,
             if spawnError.Some? then Failed(spawnError.value) else AfterDownload(v, uid, MediaOf(info), obs.after))
  }

  /** A failed probe ends the job before any download command runs. */
  lemma ProbeFailureStopsJob(v: Version, user: nat, quality: string, url: string, obs: Observed)
    requires obs.probe.Err?
    ensures RunJob(v, user, quality, url, obs).attempts == []
    ensures RunJob(v, user, quality, url, obs).outcome == Failed(obs.probe.error)
  {
  }

  /** After a successful probe the job makes exactly the attempts of the plan. */
  lemma ProbedJobRunsPlan(v: Version, user: nat, quality: string, url: string, obs: Observed)
    requires obs.probe.Ok?
    ensures RunJob(v, user, quality, url, obs).attempts == Attempts(obs.ariaFound, obs.turbo, obs.safe).0
  {
  }

  /**
   * A video is sent exactly when the probe answered, both commands could be
   * started, the lookup found a video file, post-processing raised nothing
   * and the upload did not raise.
   */
  lemma JobSentIff(v: Version, user: nat, quality: string, url: string, obs: Observed)
    ensures RunJob(v, user, quality, url, obs).outcome.Sent? <==>
      (&& obs.probe.Ok?
       && Attempts(obs.ariaFound, obs.turbo, obs.safe).1.None?
       && (exists k :: 0 <= k < |obs.after.listing| && IsArtifact(LookupOf(v), JobBase(user, obs), obs.after.listing[k]))
       && obs.after.postError.None? && obs.after.uploadError.None?)
  {
  }

  /** A name the job's glob matches starts with the job's identifier, whatever the title. */
  lemma GlobCandidateStartsWithId(user: nat, startMs: nat, title: string, name: string)
    requires Candidate(GlobAsWritten, CleanTitle(UniqueId(user, startMs), title), name)
    ensures StartsWith(name, UniqueId(user, startMs))
  {
    var uid := UniqueId(user, startMs);
    var rest := "_" + CleanFilename(title) + ".*";
    UniqueIdChars(user, startMs);
    assert HasNoWildcard(uid) by {
      assert forall k :: 0 <= k < |uid| ==> IsDigit(uid[k]) || uid[k] == '_';
    }
    assert CleanTitle(uid, title) + ".*" == uid + rest;
    CompileLiteralPrefix(uid, rest);
    MatchLiteralsPrefix(uid, Compile(rest), name);
  }

  /** What is sent is a listed file of this job, with the probed metadata and the thumbnail argument of its version. */
  lemma SentVideoBelongsToJob(v: Version, user: nat, quality: string, url: string, obs: Observed)
    requires RunJob(v, user, quality, url, obs).outcome.Sent?
    ensures obs.probe.Ok?
    ensures var o := RunJob(v, user, quality, url, obs).outcome;
      && o.video in obs.after.listing
      && IsArtifact(LookupOf(v), JobBase(user, obs), o.video)
      && StartsWith(o.video, UniqueId(user, obs.startMs))
      && o.media == MediaOf(obs.probe.value)
      && o.thumb == ThumbFor(v, if obs.after.thumbMade then Some(JobBase(user, obs) + ".jpg") else None)
  {
    var o := RunJob(v, user, quality, url, obs).outcome;
    var title := MediaOf(obs.probe.value).title;
    var base := JobBase(user, obs);
    if v.AsWritten? {
      GlobCandidateStartsWithId(user, obs.startMs, title, o.video);
    } else {
      StartsWithFront(o.video, base, ".");
      JobFilesStartWithId(UniqueId(user, obs.startMs), title, o.video);
    }
  }

  /** As written, a job whose thumbnail step made no file uploads with the thumbnail path "None". */
  lemma AsWrittenUploadsNoneThumb(user: nat, quality: string, url: string, obs: Observed)
    requires RunJob(AsWritten, user, quality, url, obs).outcome.Sent? && !obs.after.thumbMade
    ensures RunJob(AsWritten, user, quality, url, obs).outcome.thumb == Some("None")
  {
    SentVideoBelongsToJob(AsWritten, user, quality, url, obs);
  }

  /**
   * A failure reports the probe's error, the error of a command that could
   * not be started, the missing file, the post-processing error or the
   * upload's error.
   */
  lemma FailureReasons(v: Version, user: nat, quality: string, url: string, obs: Observed)
    requires RunJob(v, user, quality, url, obs).outcome.Failed?
    ensures var reason := RunJob(v, user, quality, url, obs).outcome.reason;
      || (obs.probe.Err? && reason == obs.probe.error)
      || (obs.probe.Ok? && obs.turbo.SpawnFailed? && reason == obs.turbo.error)
      || (obs.probe.Ok? && obs.safe.SpawnFailed? && reason == obs.safe.error)
      || (obs.probe.Ok? && reason == DOWNLOAD_FAILED)
      || (obs.probe.Ok? && obs.after.postError.Some? && reason == obs.after.postError.value)
      || (obs.probe.Ok? && obs.after.uploadError.Some? && reason == obs.after.uploadError.value)
  {
  }

  /** Once both commands start, their exit codes decide only which ones run, never the outcome. */
  lemma OutcomeIgnoresExitCodes(v: Version, user: nat, quality: string, url: string, obs: Observed,
                                turboExit: Option<int>, safeExit: Option<int>)
    requires obs.turbo.Spawned? && obs.safe.Spawned?
    ensures RunJob(v, user, quality, url, obs).outcome
         == RunJob(v, user, quality, url, obs.(turbo := Spawned(turboExit), safe := Spawned(safeExit))).outcome
  {
  }

  /** When both lookups agree on every listed name, they select the same file. */
  lemma {:induction false} LookupsSelectAlike(listing: seq<string>, base: string)
    requires forall k :: 0 <= k < |listing| ==>
               (Candidate(GlobAsWritten, base, listing[k]) <==> Candidate(LiteralBase, base, listing[k]))
    ensures SelectArtifact(GlobAsWritten, listing, base) == SelectArtifact(LiteralBase, listing, base)
  {
    if listing != [] {
      assert forall k :: 0 <= k < |listing[1..]| ==> listing[1..][k] == listing[k + 1];
      LookupsSelectAlike(listing[1..], base);
    }
  }

  /** For a title without `[` both lookups select the same file from any listing. */
  lemma SelectionsAgreeWithoutBracket(user: nat, startMs: nat, title: string, listing: seq<string>)
    requires '[' !in title
    ensures SelectArtifact(GlobAsWritten, listing, CleanTitle(UniqueId(user, startMs), title))
         == SelectArtifact(LiteralBase, listing, CleanTitle(UniqueId(user, startMs), title))
  {
    var base := CleanTitle(UniqueId(user, startMs), title);
    forall k | 0 <= k < |listing|
      ensures Candidate(GlobAsWritten, base, listing[k]) <==> Candidate(LiteralBase, base, listing[k])
    {
      LookupsAgreeWithoutBracket(user, startMs, title, listing[k]);
    }
    LookupsSelectAlike(listing, base);
  }

  /** Past the lookup, the versions differ only in the thumbnail argument, which agrees once the file is made. */
  lemma AfterLookupAgrees(uid: string, media: Media, found: Result<string, string>, after: Aftermath)
    requires after.thumbMade
    ensures AfterLookup(AsWritten, uid, media, found, after) == AfterLookup(Corrected, uid, media, found, after)
  {
    var thumb := ExtractedThumb(ThumbName(uid, media.title), after.thumbMade);
    assert ThumbFor(AsWritten, thumb) == ThumbFor(Corrected, thumb);
  }

  /** After the download, both versions do the same for a title without `[` whose thumbnail was made. */
  lemma AfterDownloadAgrees(user: nat, startMs: nat, media: Media, after: Aftermath)
    requires '[' !in media.title && after.thumbMade
    ensures AfterDownload(AsWritten, UniqueId(user, startMs), media, after)
         == AfterDownload(Corrected, UniqueId(user, startMs), media, after)
  {
    var uid := UniqueId(user, startMs);
    SelectionsAgreeWithoutBracket(user, startMs, media.title, after.listing);
    AfterLookupAgrees(uid, media, SelectArtifact(LiteralBase, after.listing, CleanTitle(uid, media.title)), after);
  }

  /**
   * For a title without `[` whose thumbnail was made, the job as written and
   * the corrected job do exactly the same.
   */
  lemma VersionsAgree(user: nat, quality: string, url: string, obs: Observed)
    requires obs.probe.Ok? ==> '[' !in MediaOf(obs.probe.value).title
    requires obs.after.thumbMade
    ensures RunJob(AsWritten, user, quality, url, obs) == RunJob(Corrected, user, quality, url, obs)
  {
    if obs.probe.Ok? {
      AfterDownloadAgrees(user, obs.startMs, MediaOf(obs.probe.value), obs.after);
    }
  }

  // ---------------------------------------------------------------
  // The per-user queue
  // ---------------------------------------------------------------

  /**
   * A batch runs its links in order, one job at a time, with the quality
   * chosen for the batch; a failed job does not stop the ones after it.
   */
  method ProcessQueue(v: Version, user: nat, quality: string, urls: seq<string>, world: seq<Observed>)
    returns (reports: seq<Report>)
    requires |world| == |urls|
    ensures |reports| == |urls|
    ensures forall k :: 0 <= k < |urls| ==> reports[k] == RunJob(v, user, quality, urls[k], world[k])
  {
    reports := [];
    for k := 0 to |urls|
      invariant |reports| == k
      invariant forall j :: 0 <= j < k ==> reports[j] == RunJob(v, user, quality, urls[j], world[j])
    {
      var report := RunJob(v, user, quality, urls[k], world[k]);
      reports := reports + [report];
    }
  }
}
