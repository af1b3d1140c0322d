# Telegram downloader bot: the decision layer, in Dafny

`b.py` is a Telegram bot. A user sends it one or more video links, picks a
quality from an inline keyboard, and the bot works through the links one at
a time. For each link it probes the metadata, downloads with yt-dlp (the
aria2c path first when aria2c is installed, otherwise or after a failure the
safe path), finds the downloaded file, uploads it, and removes the job's
files. Progress goes back to the user through throttled message edits.

This project models the part of that program that makes decisions, with the
outside world (the clock, exit codes, directory listings, the probe's
answer, upload errors) taken as inputs:

- `ProgressBar` (`progress_bar.dfy`): `create_progress_bar`. The percentage
  is an exact fraction. Python's `round` and the `:.0f` format are both
  round-half-to-even, and `RoundHalfEven` computes that exactly.
- `Filenames` (`filenames.dfy`): `clean_filename`, which turns every maximal
  run of `\ / : " * ? < > |` into one `_`.
- `AnsiEscapes` (`ansi_escapes.dfy`): `remove_ansi_codes`. It deletes the
  escape sequences of ECMA-48 (ISO/IEC 6429) that the pattern recognises:
  - Fe escapes, from section 5.3: ESC followed by 0x40-0x5A or 0x5C-0x5F;
  - control sequences, from section 5.4: ESC `[`, parameter bytes
    0x30-0x3F, intermediate bytes 0x20-0x2F, then one final byte 0x40-0x7E.
- `Strings` (`strings.dfy`): the Python string operations the bot uses,
  written out: `str.split`, `str.strip`, `in`, `str(n)` and prefix tests.
- `PendingBatches` (`pending_batches.dfy`): the `user_url` dictionary, as the
  class `BatchStore`. `Submit` is `handle_urls` and `Select` is `cb_handler`;
  the functions `AfterSubmit` and `TakeBatch` specify them.
- `Throttle` (`throttle.dfy`):
  - the percent token of `dl_progress`;
  - the `last_update` and `upload_last_update` variables, as the class
    `ProgressGate`, whose ghost `reports` records every update it let through;
  - the output loop of `run_subprocess_with_progress` feeding `dl_progress`
    (`FeedOutput`);
  - `Reports`, the reference definition of which samples are reported.
- `GlobMatch` (`glob_match.dfy`): the part of `fnmatch` that `glob` uses to
  find a job's files.
- `DownloadJob` (`download_job.dfy`): the body of `start_download`:
  - the job identifier and file names, and the `-f` format argument;
  - the attempt plan, the artifact lookup and the metadata defaults;
  - the thumbnail argument and error truncation;
  - the whole job as the function `RunJob`, and the sequential per-user
    queue `ProcessQueue`. Both take a `Version`: `AsWritten` is the job as
    the code does it, and `Corrected` is the job with the two repairs under
    Findings. `VersionsAgree` shows the two coincide for titles without `[`
    whose thumbnail was made.
- `DownloadsDir` (`downloads_dir.dfy`): the downloads directory as a set of
  names, and the `finally` cleanup loop as the method `Downloads.Cleanup`.

Time is a real parameter `now`, in seconds, as `time.time()` returns it.
Each closure reads `time.time()` twice (for the test and for the update),
and the model takes both reads to give the same value.

Where the code does something a reader might not expect, the model follows
the code:
- Escape removal keeps a lone ESC (`AnsiEscapes.LoneEscKept`). Deleting one
  sequence can also bring an ESC next to a byte it did not precede, so the
  output may still hold an escape sequence
  (`AnsiEscapes.RemovalCanLeaveEscape`).
- The download is judged by a glob over the downloads directory, not by
  testing the three names `<base>.mp4`, `<base>.mkv` and `<base>.webm`.
  The two differ for titles containing `[` (see Findings).
  `RunJob(AsWritten, ...)` uses the glob.
- A missing thumbnail is passed to the upload as `str(None)`, not omitted
  (see Findings). `RunJob(AsWritten, ...)` does the same.
- Starting a yt-dlp command (b.py:63) happens outside the runner's `try`.
  If it raises, the job fails with that error, and after a failed start of
  the aria2c command the safe command is never tried
  (`DownloadJob.Attempts`).

## Model

| member | source | states |
|---|---|---|
| `ProgressBar.Clamp` | b.py:50 | the clamped percentage lies in [0, 100]; an in-range one is left as it is, one below 0 becomes 0 and one above 100 becomes 100 |
| `ProgressBar.RoundHalfEven` | b.py:51 | the result is within half a unit of n/d, and is even when n/d lies exactly half-way |
| `ProgressBar.RoundHalfEvenUnique` | b.py:51 | those two properties leave exactly one integer, so `RoundHalfEven` is Python's `round` |
| `ProgressBar.RoundMonotone` | b.py:51 | a larger fraction never rounds to a smaller integer |
| `ProgressBar.Filled` | b.py:51-52 | the number of full glyphs is at most `width`, so `empty = width - filled` is never negative |
| `ProgressBar.Shown` | b.py:53 | the printed percentage of a clamped value is between 0 and 100 |
| `ProgressBar.CreateProgressBar` | b.py:49-53 | `width` glyphs, glyph i full exactly when i < `Filled`; then a blank, the decimal text of the rounded percentage, and `%` |
| `ProgressBar.GlyphsAddUp` | b.py:51-53 | the bar holds `filled` full glyphs and `width - filled` empty ones, with `filled <= width` |
| `ProgressBar.AboveHundredIsHundred` | b.py:50 | every percentage of 100 or more renders exactly as 100 |
| `ProgressBar.BelowZeroIsZero` | b.py:50 | every percentage of 0 or less renders exactly as 0 |
| `ProgressBar.FilledAtBounds` | b.py:51 | 0% fills no glyph and 100% fills all of them |
| `ProgressBar.FilledMonotoneInRange` | b.py:51 | for in-range percentages, the larger never draws fewer full glyphs |
| `ProgressBar.FilledMonotone` | b.py:50-51 | a larger percentage never draws fewer full glyphs |
| `Filenames.CleanFilename` | b.py:55-56 | the output holds no unsafe character, is no longer than the input, and is empty only for empty input |
| `Filenames.CleanAddsOnlyUnderscore` | b.py:56 | the only character cleaning can introduce is `_` |
| `Filenames.CleanSafeIsIdentity` | b.py:56 | a name without unsafe characters is returned unchanged |
| `Filenames.CleanIdempotent` | b.py:55-56 | cleaning twice equals cleaning once |
| `Filenames.RunIsOneUnderscore` | b.py:56 | a non-empty run made only of unsafe characters becomes a single `_` |
| `Filenames.CleanConcat` | b.py:56 | cleaning a concatenation cut outside a run is cleaning the two parts |
| `Filenames.MaximalRunBecomesUnderscore` | b.py:56 | a maximal run of unsafe characters becomes exactly one `_`, and the text around it is cleaned on its own, in order |
| `AnsiEscapes.MatchEscape` | b.py:59 | finds a length exactly when some prefix is an escape sequence, and that prefix is one |
| `AnsiEscapes.EscapeMatchUnique` | b.py:59 | any escape-sequence prefix is the one the matcher finds |
| `AnsiEscapes.EscapePrefixFree` | b.py:59 | no escape sequence is a proper prefix of another |
| `AnsiEscapes.RemoveAnsiCodes` | b.py:58-60 | the output is never longer than the input |
| `AnsiEscapes.RemoveIsSubsequence` | b.py:60 | the output is a subsequence of the input: characters are only deleted, and the rest keep their order |
| `AnsiEscapes.NoEscapeUnchanged` | b.py:60 | input without ESC is returned unchanged |
| `AnsiEscapes.RemoveLeadingEscape` | b.py:60 | a leading escape sequence is deleted whole, and scanning resumes after it |
| `AnsiEscapes.RemoveLeadingPlain` | b.py:60 | leading text without ESC is kept as it is |
| `AnsiEscapes.LoneEscKept` | b.py:59-60 | an ESC at the end, or before a byte that is neither a Fe byte nor `[`, starts no sequence and is kept, and removal goes on after it |
| `AnsiEscapes.RemovalCanLeaveEscape` | b.py:59-60 | ESC ESC `A` `B` becomes ESC `B`: the output can still be an escape sequence, and a second pass changes it again |
| `Strings.Split` | b.py:200 | `str.split('\n')` gives at least one piece, and no piece holds the separator |
| `Strings.JoinSplit` | b.py:200 | joining the pieces again gives the text back |
| `Strings.SplitJoin` | b.py:200 | splitting a join of separator-free pieces gives the pieces back |
| `Strings.SplitAround` | b.py:200 | a separator splits the text into the pieces before it, then the pieces after it |
| `Strings.Strip` | b.py:200 | `str.strip()` removes only leading and trailing white space, and what it keeps neither starts nor ends with white space |
| `Strings.StripIdempotent` | b.py:200 | stripping twice equals stripping once |
| `Strings.ContainsOccurs` | b.py:200 | `"http" in u` holds exactly when "http" occurs at some position of `u` |
| `Strings.StripKeepsWord` | b.py:200 | stripping cannot destroy an occurrence of a word without white space, such as "http" |
| `Strings.NatToString` | b.py:84 | `str(n)` is non-empty decimal digits without a leading zero |
| `Strings.DigitsValueOfNatToString` | b.py:84 | reading back `str(n)` gives `n` |
| `Strings.NatToStringInjective` | b.py:84 | different numbers have different decimal texts |
| `PendingBatches.ExtractUrls` | b.py:200 | at most one link per line, and every link contains "http", holds no line break and has no surrounding white space |
| `PendingBatches.ExtractUrlsOneLine` | b.py:200 | one line yields itself, stripped, when it contains "http", and nothing otherwise |
| `PendingBatches.ExtractUrlsLines` | b.py:200 | the links of two lines are those of the first line, then those of the second: original order is kept |
| `PendingBatches.AfterSubmit` | b.py:201-202 | a message without links leaves the store as it was; one with links stores exactly them for the sender; every other user's entry is unchanged |
| `PendingBatches.TakeBatch` | b.py:213-216 | a batch exactly when the user has a non-empty entry; it is that entry and the entry is deleted. Otherwise "Session expired" and the store is unchanged. Other users' entries are unchanged |
| `PendingBatches.LastBatchWins` | b.py:201-202 | a second message with links replaces the first message's batch |
| `PendingBatches.SubmitThenTake` | b.py:202-216 | choosing a quality after submitting returns exactly the submitted links and removes only that user's entry |
| `PendingBatches.TakeLeavesOthers` | b.py:213-216 | taking a batch leaves every other user's entry as it was |
| `PendingBatches.TakeTwiceExpires` | b.py:213-216 | once taken, the next choice finds the session expired |
| `PendingBatches.BatchStore.constructor` | b.py:46 | the store starts empty |
| `PendingBatches.BatchStore.Submit` | b.py:199-202 | returns the stripped "http" lines and stores them for the user, overwriting any earlier batch; with none, the store is untouched |
| `PendingBatches.BatchStore.Select` | b.py:213-216 | with an entry: returns it and deletes it. Without one: "Session expired" and the store is unchanged. Exactly as `TakeBatch` |
| `Throttle.MatchPercent` | b.py:102 | finds a number length exactly when `digits[.digits]%` starts the text |
| `Throttle.FindPercent` | b.py:102 | `re.search`: the leftmost position where the token begins, or no token anywhere |
| `Throttle.LinePercent` | b.py:102-105 | a line has a percentage exactly when it holds a `digits[.digits]%` token |
| `Throttle.NumberValue` | b.py:105 | `float` of the token is never negative, and a digit-only token is its decimal value |
| `Throttle.NumberValueWithPoint` | b.py:105 | a token `a.b` is the digits `ab` over 10 to the length of `b` |
| `Throttle.TwelveAndAHalf` | b.py:105 | "12.5" is 125/10 |
| `Throttle.CallbackLine` | b.py:70-71 | the callback receives the stripped line with some characters deleted and the rest in order; a line without ESC is only stripped |
| `Throttle.DownloadSamples` | b.py:67-71 | sample k is read at `times[k]` and is usable exactly when the stripped, escape-free line k holds a percent token |
| `Throttle.Reports` | b.py:103-104 | no more reports than samples, and each report comes more than 12 seconds after the gate's last update |
| `Throttle.DownloadBars` | b.py:100-113 | one bar per reported sample of the lines |
| `Throttle.BarsAdvance` | b.py:103-113 | feeding one line adds the bar of its percentage when the gate reports it, and the later bars follow from there |
| `Throttle.ReportsAdvance` | b.py:103-104 | feeding one sample either reports it (moving the gate's time) or not, and the later reports follow from there |
| `Throttle.ReportsAreReadySamples` | b.py:103-104 | only usable samples are reported, and no more reports than usable samples |
| `Throttle.ReportsSpaced` | b.py:103-104 | reports come strictly more than 12 seconds after the previous one, starting from the gate's reset time |
| `Throttle.OneReportPerWindow` | b.py:103-104 | however many samples arrive within one 12-unit window, at most one is reported |
| `Throttle.FirstUsableSampleReported` | b.py:99-104 | a gate starting at 0 reports its first usable sample that comes after 12 seconds |
| `Throttle.UploadPercent` | b.py:157 | the fraction equals `current / total * 100` |
| `Throttle.Megabytes` | b.py:165 | `x // 1024 // 1024` is the floor of x / 1048576 |
| `Throttle.ProgressGate.constructor` | b.py:99 | `last_update = 0`, nothing reported yet |
| `Throttle.ProgressGate.Pass` | b.py:103-104 | reports exactly when the sample is usable and `now - last > 12`; `last` moves to `now` only when it reports, so the reports stay spaced |
| `Throttle.ProgressGate.OnDownloadLine` | b.py:100-113 | an update exactly when the line holds a percent token and more than 12 seconds passed; its bar is the bar of that percentage; `last` changes only then |
| `Throttle.ProgressGate.OnUploadBytes` | b.py:153-165 | an update exactly when `total != 0` and more than 12 seconds passed, with the bar of `current/total*100` and the floored megabytes |
| `Throttle.ProgressGate.FeedOutput` | b.py:67-71 | feeding a subprocess's lines through the gate appends exactly `Reports` of their samples to the gate's reports, and the bars shown are exactly `DownloadBars` |
| `GlobMatch.GlobMatches` | b.py:131 | a pattern without wildcards matches exactly the name equal to it |
| `GlobMatch.MatchLiteralsExactly` | b.py:131 | a run of literal characters matches exactly its own text |
| `GlobMatch.MatchLiteralsPrefix` | b.py:131 | a name matched by a pattern that begins with literal text starts with that text |
| `GlobMatch.MatchAfterLiterals` | b.py:131 | a literal prefix of a pattern consumes the same prefix of the name |
| `GlobMatch.PrefixPattern` | b.py:177 | a wildcard-free text followed by `*` matches exactly the names starting with that text |
| `GlobMatch.PrefixPatternAll` | b.py:177 | the same, for every name at once |
| `DownloadJob.UniqueId` | b.py:84 | the identifier splits at `_` into the user id and the millisecond start time |
| `DownloadJob.UniqueIdInjective` | b.py:84 | equal identifiers mean the same user and start time |
| `DownloadJob.CleanTitle` | b.py:95 | the base name starts with the identifier and `_`, and holds no unsafe character when the identifier holds none |
| `DownloadJob.ThumbName` | b.py:97 | the thumbnail's name is the base name followed by `.jpg` |
| `DownloadJob.JobFilesStartWithId` | b.py:95-97 | every file named after the job's base name (video, thumbnail) starts with its identifier |
| `DownloadJob.JobsDoNotShareFiles` | b.py:84-97 | with start times of equal digit count, a name of one job starting with another job's identifier means the same job |
| `DownloadJob.ShorterStartTimeReachesLaterJob` | b.py:84 | without equal digit counts, job `1_5`'s cleanup pattern reaches the files of job `1_55` |
| `DownloadJob.FormatSpec` | b.py:119 | for a quality without `/`, the `-f` argument splits at `/` into exactly the three format choices |
| `DownloadJob.EveryChoiceCapsHeight` | b.py:119 | every alternative carries `[height<=quality]` |
| `DownloadJob.AttemptPlan` | b.py:120-129 | aria2c attempt iff aria2c exists. Safe attempt iff aria2c is absent or its exit code is not 0. At most two attempts, the safe one at most once and last |
| `DownloadJob.Attempts` | b.py:120-129 | the same plan once both commands start. A command that fails to start (b.py:63) ends the attempts with its error, so a failed aria2c start means no safe attempt |
| `DownloadJob.Download` | b.py:120-129 | the `ret_code` sequence, starting at -1, makes exactly the attempts of `Attempts` and stops at the same start error |
| `DownloadJob.Suffix` | b.py:131 | `Path.suffix`: empty, or a final part of the name that starts with its only dot |
| `DownloadJob.SuffixOfExtension` | b.py:131 | a non-empty stem followed by `.ext` has suffix `.ext` |
| `DownloadJob.SelectArtifact` | b.py:131-134 | Ok exactly when some listed file is a candidate with a .mp4/.mkv/.webm suffix. It is then the first such file. Otherwise "Download failed." |
| `DownloadJob.LookupsAgreeWithoutBracket` | b.py:131 | for titles without `[`, the glob lookup and the literal-prefix lookup agree |
| `DownloadJob.LookupsSelectAlike` | b.py:131-134 | lookups that agree on every listed name select the same file |
| `DownloadJob.SelectionsAgreeWithoutBracket` | b.py:131-134 | for a title without `[`, both lookups select the same file from any listing |
| `DownloadJob.GlobCandidateStartsWithId` | b.py:131 | whatever the title, every name the job's glob matches starts with the job's identifier |
| `DownloadJob.LiteralLookupFindsDownload` | b.py:124-134 | a video written as `<base>.mp4`, `.mkv` or `.webm` is always found by the literal lookup |
| `DownloadJob.GlobLookupMissesBracketTitle` | b.py:95-132 | as written, title `a[b]` gives file `1_2_a[b].mp4`, which the pattern `1_2_a[b].*` misses: "Download failed." |
| `DownloadJob.LiteralLookupFindsBracketTitle` | b.py:131-134 | the corrected lookup finds that file |
| `DownloadJob.MediaOf` | b.py:92-93 | width 1280 and height 720 when missing or zero, otherwise the probed values; title "Video" and duration 0 when missing |
| `DownloadJob.ExtractedThumb` | b.py:76-80 | the thumbnail path exactly when ffmpeg left the file |
| `DownloadJob.MissingThumbBecomesPathNone` | b.py:139-170 | as written, a missing thumbnail reaches the upload as the path "None", the same as a real file named None |
| `DownloadJob.ThumbArgAsWritten` | b.py:170 | `str(actual_thumb)`: the path when there is one, the text "None" otherwise |
| `DownloadJob.ThumbArg` | b.py:139-170 | corrected: no thumbnail argument exactly when there is no thumbnail |
| `DownloadJob.ThumbOnlyWhenMade` | b.py:139-170 | the upload gets a thumbnail exactly when the file exists, and then that file |
| `DownloadJob.Truncate` | b.py:174 | a prefix of the error text of at most 100 characters; the whole text when it fits |
| `DownloadJob.TruncateIdempotent` | b.py:174 | truncating twice equals truncating once |
| `DownloadJob.ErrorStatus` | b.py:174 | the error line is the prefix, the truncated reason and a closing backtick, at most prefix + 100 + 1 characters |
| `DownloadJob.StatusResolved` | b.py:171-174 | the status message is deleted exactly on success; on failure it is an error line bounded by prefix + 100 + 1 characters |
| `DownloadJob.RunJob` | b.py:83-179 | the report carries the job's url, identifier and format argument, and no attempt is made exactly when the probe failed |
| `DownloadJob.ProbeFailureStopsJob` | b.py:88-93 | a failed probe ends the job with the probe's error before any download attempt |
| `DownloadJob.ProbedJobRunsPlan` | b.py:120-129 | after a successful probe the job makes exactly the attempts of `Attempts` |
| `DownloadJob.JobSentIff` | b.py:88-171 | a video is sent iff the probe answered, both commands that ran could be started, a video file was found, post-processing raised nothing and the upload did not raise |
| `DownloadJob.SentVideoBelongsToJob` | b.py:131-170 | what is sent is a listed file of this job starting with its identifier, with the probed metadata, and the thumbnail argument of its version for the thumbnail made or not |
| `DownloadJob.AsWrittenUploadsNoneThumb` | b.py:139-170 | as written, a sent job whose thumbnail step made no file passes the thumbnail path "None" |
| `DownloadJob.FailureReasons` | b.py:173-174 | a failure reports the probe's error, a command's start error, "Download failed.", the post-processing error or the upload's error |
| `DownloadJob.OutcomeIgnoresExitCodes` | b.py:127-134 | once both commands start, their exit codes decide which commands run, never the outcome |
| `DownloadJob.AfterLookupAgrees` | b.py:139-170 | once the lookup has answered, the two versions differ only in the thumbnail argument, which agrees when the file was made |
| `DownloadJob.AfterDownloadAgrees` | b.py:131-170 | after the download, both versions do the same for a title without `[` whose thumbnail was made |
| `DownloadJob.VersionsAgree` | b.py:83-179 | the job as written and the corrected job give the same report for titles without `[` whose thumbnail was made |
| `DownloadJob.ProcessQueue` | b.py:218-220 | the batch's links run in order, one job each, with the batch's quality; a job that fails inside its `try` does not stop later links (a raise of the first `send_message`, b.py:85, is outside it and is not modelled) |
| `DownloadsDir.Junk` | b.py:177 | the cleanup only names files in the directory, and for an identifier without wildcards exactly those starting with it |
| `DownloadsDir.JunkByPrefix` | b.py:177 | the cleanup pattern `<uid>*` matches exactly the names starting with the identifier |
| `DownloadsDir.JobFilesAreJunk` | b.py:95-97 | every file named after the job is removed by its cleanup |
| `DownloadsDir.OtherJobsUntouched` | b.py:177-179 | a job's cleanup leaves another job's files alone (start times of equal digit count) |
| `DownloadsDir.Downloads.Cleanup` | b.py:176-179 | exactly the names matching `<uid>*` are removed, except those whose removal fails |

## Left out

- The Telegram client: sending, editing and deleting messages, the inline
  keyboard and answering the callback. These are network calls. The model
  keeps only the text decisions: the bar, the sizes and the error line.
- `DownloadJob.ProcessQueue`: the first `send_message` of a job (b.py:85)
  is outside the job's `try`, so a raise there ends the whole queue; the
  model takes that message to be sent.
- The caption, welcome, "Analyzing", "Downloading" and "Uploading" message
  layouts, including `title[:30]`. These are display text.
- Running yt-dlp, aria2c and ffmpeg. Exit codes, the directory listing after
  the download and whether the thumbnail file exists are inputs.
  - UTF-8 decoding with `errors='ignore'` is not modelled: lines are strings
    already.
  - The exceptions swallowed by the runner's `try` are not modelled; a
    command that was not waited for has no exit code (`Spawned(None)`).
  - A failure to start a command is the `SpawnFailed` input.
- `shutil.which("aria2c")` is the boolean input `ariaFound`.
- `yt_dlp.extract_info`: its answer is the `Probe` input, or an error text.
  A `title` present but null (which makes `clean_filename` raise) is not
  distinguished from a normal title. A null `duration` is modelled as
  missing (0), whereas the code would pass None on. `int(vid_width)` on a
  non-integer is not modelled.
- The ffmpeg remux, `os.replace` of the temporary file and the thumbnail
  step (b.py:135-139): only whether they raise (the `postError` input) and
  whether the thumbnail file exists are modelled, not the file contents.
- Concurrency: `asyncio.create_task` (b.py:222) starts one task per quality
  choice. Jobs of different users run at once, and so can two batches of
  the same user when a new batch is chosen before the previous one ends.
  Only one sequential loop is modelled (`ProcessQueue`).
- Floating point: percentages are exact fractions. `float("12.5")` is taken
  as exactly 125/10, ignoring binary representation error. The upload
  speed in MB/s (b.py:158) is omitted.
- The size-pair regex (b.py:106): it only feeds display text.
- `\d` is modelled as the ASCII digits; Python's `re` also accepts other
  Unicode decimal digits.
- `GlobMatch` covers `*`, `?` and `[...]` sets in the final path component.
  It does not cover a downloads directory path that itself contains
  wildcards, hidden-file rules or the order `glob` returns names in; the
  listing order is an input.
- Credentials, the client configuration and start-up cleanup (b.py:17-42,
  b.py:225-240).
- `DownloadsDir.OtherJobsUntouched` needs start times with the same number
  of digits. Without that the cleanup of one job can reach another's files
  (`DownloadJob.ShorterStartTimeReachesLaterJob`). Millisecond clocks change
  digit count only once in centuries.

## Findings

| source | as written | input that shows it | evidently intended | confidence | as-written member | corrected member |
|---|---|---|---|---|---|---|
| b.py:95-131 | the lookup `glob(str(base_path) + ".*")` uses the cleaned title as a pattern, and `clean_filename` keeps `[` and `]` | user 1 at millisecond 2, title `a[b]`: yt-dlp writes `1_2_a[b].mp4`, the pattern `1_2_a[b].*` needs the letter `b` where the name has `[`, so the job reports "Download failed." | find the file the download wrote under its literal base name | medium, not executed | `DownloadJob.GlobLookupMissesBracketTitle` | `DownloadJob.LiteralLookupFindsDownload` |
| b.py:139-170 | `thumb=str(actual_thumb)` turns a missing thumbnail (None) into the path "None" | the thumbnail step produces no file: the upload is asked to read a file named `None` | upload without a thumbnail when none was made | medium, not executed | `DownloadJob.MissingThumbBecomesPathNone` | `DownloadJob.ThumbOnlyWhenMade` |
