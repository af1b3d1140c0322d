/**
 * The throttled progress reports of `start_download`: the `dl_progress`
 * closure (one call per line of downloader output) and the `progress`
 * closure (one call per upload callback). Each keeps the time of its last
 * report and reports again only when its sample is usable and more than
 * 12 time units have passed. The clock is a parameter `now`; both reads of
 * `time.time()` in one call are taken to give the same value.
 */
module Throttle {
  import opened Wrappers
  import opened Strings
  import opened ProgressBar
  import opened AnsiEscapes

  /** Seconds, as `time.time()` gives them: a real number, not a whole one. */
  type Time = real

  const MIN_INTERVAL: Time := 12.0

  /** `time.time() - last_update > 12` together with the sample being usable. */
  predicate Admits(last: Time, now: Time, ready: bool) {
    ready && now - last > MIN_INTERVAL
  }

  // ---------------------------------------------------------------------------
  // The percent token: `re.search(r"(\d+(?:\.\d+)?)%", line)`

  /** The end of the run of digits starting at `i`. */
  function DigitRun(s: string, i: nat): (j: nat)
    requires i <= |s|
    ensures i <= j <= |s| && forall k :: i <= k < j ==> IsDigit(s[k])
    ensures j < |s| ==> !IsDigit(s[j])
    decreases |s| - i
  {
    if i < |s| && IsDigit(s[i]) then DigitRun(s, i + 1) else i
  }

  /** `\d+(?:\.\d+)?`: digits, optionally followed by a point and more digits. */
  ghost predicate IsNumber(t: string) {
    || (t != [] && AllDigits(t))
    || exists p :: 0 < p < |t| - 1 && t[p] == '.' && AllDigits(t[..p]) && AllDigits(t[p + 1..])
  }

  /** The token `number%` starts at position `i` of `s`, its number `n` characters long. */
  ghost predicate TokenAt(s: string, i: nat, n: nat) {
    i + n < |s| && IsNumber(s[i..i + n]) && s[i + n] == '%'
  }

  /** The length of the number of a token at the very start of `s`, if one is there. */
  function MatchPercent(s: string): (m: Option<nat>)
    ensures m.Some? ==> TokenAt(s, 0, m.value)
    ensures m.None? ==> forall n: nat :: !TokenAt(s, 0, n)
  {
    var d := DigitRun(s, 0);
    if d == 0 then
      assert forall n: nat :: !TokenAt(s, 0, n) by {
        forall n: nat | TokenAt(s, 0, n) ensures false { NumberStartsWithDigit(s[0..n]); }
      }
      None
    else if d < |s| && s[d] == '%' then
      assert s[0..d] == s[..d];
      Some(d)
    else if d < |s| && s[d] == '.' then
      var f := DigitRun(s, d + 1);
      if f > d + 1 && f < |s| && s[f] == '%' then
        assert s[0..f][..d] == s[..d] && s[0..f][d + 1..] == s[d + 1..f];
        Some(f)
      else
        NoTokenAfterPoint(s, d, f);
        None
    else
      NoTokenWithoutPoint(s, d);
      None
  }

  lemma NumberStartsWithDigit(t: string)
    requires IsNumber(t)
    ensures t != [] && IsDigit(t[0])
  {
    if !(t != [] && AllDigits(t)) {
      var p :| 0 < p < |t| - 1 && t[p] == '.' && AllDigits(t[..p]) && AllDigits(t[p + 1..]);
      assert t[..p][0] == t[0];
    }
  }

  /** In a number the digits before a point, or all of it, form one run. */
  lemma NumberShape(s: string, n: nat, d: nat)
    requires n < |s| && IsNumber(s[..n]) && s[n] == '%'
    requires d == DigitRun(s, 0)
    ensures d == n || (d < n && s[d] == '.' && DigitRun(s, d + 1) == n)
  {
    var t := s[..n];
    if t != [] && AllDigits(t) {
      assert forall k :: 0 <= k < n ==> IsDigit(s[k]) by {
        forall k | 0 <= k < n ensures IsDigit(s[k]) { assert t[k] == s[k]; }
      }
      var c := s[n];
    } else {
      var p :| 0 < p < |t| - 1 && t[p] == '.' && AllDigits(t[..p]) && AllDigits(t[p + 1..]);
      NumberWithPoint(s, n, p, d);
    }
  }

  lemma NumberWithPoint(s: string, n: nat, p: nat, d: nat)
    requires n < |s| && s[n] == '%' && 0 < p < n - 1
    requires s[p] == '.' && AllDigits(s[..n][..p]) && AllDigits(s[..n][p + 1..])
    requires d == DigitRun(s, 0)
    ensures d == p && DigitRun(s, d + 1) == n
  {
    var t := s[..n];
    assert forall k :: 0 <= k < p ==> IsDigit(s[k]) by {
      forall k | 0 <= k < p ensures IsDigit(s[k]) { assert t[..p][k] == s[k]; }
    }
    assert forall k :: p < k < n ==> IsDigit(s[k]) by {
      forall k | p < k < n ensures IsDigit(s[k]) { assert t[p + 1..][k - p - 1] == s[k]; }
    }
    var c := s[p];
    assert d == p;
    var f := DigitRun(s, d + 1);
    var c' := s[n];
    var c'' := s[f];
  }

  lemma NoTokenAfterPoint(s: string, d: nat, f: nat)
    requires d == DigitRun(s, 0) && 0 < d < |s| && s[d] == '.'
    requires f == DigitRun(s, d + 1) && !(f > d + 1 && f < |s| && s[f] == '%')
    ensures forall n: nat :: !TokenAt(s, 0, n)
  {
    forall n: nat | TokenAt(s, 0, n) ensures false {
      assert s[0..n] == s[..n];
      NumberShape(s, n, d);
    }
  }

  lemma NoTokenWithoutPoint(s: string, d: nat)
    requires d == DigitRun(s, 0) && 0 < d
    requires !(d < |s| && s[d] == '%') && !(d < |s| && s[d] == '.')
    ensures forall n: nat :: !TokenAt(s, 0, n)
  {
    forall n: nat | TokenAt(s, 0, n) ensures false {
      assert s[0..n] == s[..n];
      NumberShape(s, n, d);
    }
  }

  /** Moving the start of the text moves every token with it. */
  lemma TokenShift(s: string, i: nat, n: nat)
    requires i <= |s|
    ensures TokenAt(s, i, n) <==> TokenAt(s[i..], 0, n)
  {
    if i + n < |s| {
      assert s[i..][0..n] == s[i..i + n];
    }
  }

  /** `re.search` from position `i`: the leftmost start at or after `i` where a token begins. */
  function FindPercent(s: string, i: nat): (m: Option<(nat, nat)>)
    requires i <= |s|
    ensures m.Some? ==> i <= m.value.0 && TokenAt(s, m.value.0, m.value.1)
                        && forall q: nat, n: nat :: i <= q < m.value.0 ==> !TokenAt(s, q, n)
    ensures m.None? ==> forall q: nat, n: nat :: i <= q <= |s| ==> !TokenAt(s, q, n)
    decreases |s| - i
  {
    match MatchPercent(s[i..])
    case Some(n) =>
      TokenShift(s, i, n);
      Some((i, n))
    case None =>
      assert forall n: nat :: !TokenAt(s, i, n) by {
        forall n: nat ensures !TokenAt(s, i, n) { TokenShift(s, i, n); }
      }
      if i == |s| then None else FindPercent(s, i + 1)
  }

  function Pow10(k: nat): (p: int)
    ensures p > 0
  {
    if k == 0 then 1 else 10 * Pow10(k - 1)
  }

  /**
   * `float(match.group(1))` as an exact fraction: digits `a.b` give
   * `ab / 10^|b|`, so "12.5" is 125 / 10.
   */
  function NumberValue(t: string): (p: Percent)
    requires t == [] || IsDigit(t[0])
    ensures p.num >= 0
    ensures AllDigits(t) ==> p == Percent(DigitsValue(t), 1)
  {
    assert AllDigits(t) ==> DigitRun(t, 0) == |t| && t[..|t|] == t;
    var d := DigitRun(t, 0);
    if d < |t| && t[d] == '.' then
      var frac := t[d + 1..];
      if AllDigits(frac) then
        Percent(DigitsValue(t[..d] + frac), Pow10(|frac|))
      else Percent(DigitsValue(t[..d]), 1)
    else Percent(DigitsValue(t[..d]), 1)
  }

  /** A number with a point: its digits, read together, over the power of ten of its fraction. */
  lemma NumberValueWithPoint(whole: string, frac: string)
    requires whole != [] && AllDigits(whole) && frac != [] && AllDigits(frac)
    ensures NumberValue(whole + "." + frac) == Percent(DigitsValue(whole + frac), Pow10(|frac|))
  {
    var t := whole + "." + frac;
    assert forall k :: 0 <= k < |whole| ==> t[k] == whole[k];
    assert t[|whole|] == '.';
    assert DigitRun(t, 0) == |whole|;
    assert t[..|whole|] == whole && t[|whole| + 1..] == frac;
  }

  /** "12.5%" reports twelve and a half per cent. */
  lemma TwelveAndAHalf()
    ensures NumberValue("12.5") == Percent(125, 10)
  {
    NumberValueWithPoint("12", "5");
    assert "12" + "." + "5" == "12.5";
    assert "12" + "5" == "125";
    assert DigitsValue("125") == 125 by {
      assert "125"[..2] == "12" && "12"[..1] == "1" && "1"[..0] == "";
    }
  }

  /** The percentage a downloader line reports, if it holds a token. */
  function LinePercent(line: string): (p: Option<Percent>)
    ensures p.Some? <==> exists q: nat, n: nat :: TokenAt(line, q, n)
  {
    match FindPercent(line, 0)
    case Some((q, n)) =>
      NumberStartsWithDigit(line[q..q + n]);
      Some(NumberValue(line[q..q + n]))
    case None => None
  }

  // ---------------------------------------------------------------------------
  // The gate, as a state machine over samples

  /** One call of a progress closure: when it happens and whether its sample is usable. */
  datatype Sample = Sample(time: Time, ready: bool)

  /** The times at which a gate last reset at `last` reports, fed `samples` in order. */
  function Reports(last: Time, samples: seq<Sample>): (times: seq<Time>)
    ensures |times| <= |samples|
    ensures forall k :: 0 <= k < |times| ==> times[k] - last > MIN_INTERVAL
    decreases |samples|
  {
    if samples == [] then []
    else if Admits(last, samples[0].time, samples[0].ready) then
      [samples[0].time] + Reports(samples[0].time, samples[1..])
    else Reports(last, samples[1..])
  }

  /** Each report comes more than 12 units after the one before it. */
  ghost predicate Spaced(times: seq<Time>) {
    forall k :: 0 <= k < |times| - 1 ==> times[k + 1] - times[k] > MIN_INTERVAL
  }

  /** How many of the samples are usable. */
  function CountReady(samples: seq<Sample>): nat
    decreases |samples|
  {
    if samples == [] then 0 else (if samples[0].ready then 1 else 0) + CountReady(samples[1..])
  }

  /** Only usable samples are reported, each in at most one report. */
  lemma {:induction false} ReportsAreReadySamples(last: Time, samples: seq<Sample>)
    ensures |Reports(last, samples)| <= CountReady(samples)
    ensures forall t :: t in Reports(last, samples) ==> Sample(t, true) in samples
    decreases |samples|
  {
    if samples != [] {
      var s := samples[0];
      ReportsAreReadySamples(if Admits(last, s.time, s.ready) then s.time else last, samples[1..]);
      assert forall x :: x in samples[1..] ==> x in samples;
    }
  }

  /** Reports are spaced more than 12 units apart, starting from the gate's own reset time. */
  lemma {:induction false} ReportsSpaced(last: Time, samples: seq<Sample>)
    ensures Spaced([last] + Reports(last, samples))
    decreases |samples|
  {
    if samples != [] {
      var s := samples[0];
      if Admits(last, s.time, s.ready) {
        ReportsSpaced(s.time, samples[1..]);
        assert [last] + Reports(last, samples) == [last] + ([s.time] + Reports(s.time, samples[1..]));
      } else {
        ReportsSpaced(last, samples[1..]);
      }
    }
  }

  /**
   * However many samples arrive within one 12-unit window, at most one of
   * them is reported; a burst of 50 lines in 2 seconds gives one update.
   */
  lemma {:induction false} OneReportPerWindow(last: Time, samples: seq<Sample>, start: Time)
    requires forall k :: 0 <= k < |samples| ==> start <= samples[k].time <= start + MIN_INTERVAL
    ensures |Reports(last, samples)| <= 1
    decreases |samples|
  {
    if samples != [] {
      var s := samples[0];
      if Admits(last, s.time, s.ready) {
        NoneAfter(s.time, samples[1..], start);
      } else {
        OneReportPerWindow(last, samples[1..], start);
      }
    }
  }

  lemma {:induction false} NoneAfter(last: Time, samples: seq<Sample>, start: Time)
    requires start <= last
    requires forall k :: 0 <= k < |samples| ==> start <= samples[k].time <= start + MIN_INTERVAL
    ensures Reports(last, samples) == []
    decreases |samples|
  {
    if samples != [] {
      NoneAfter(last, samples[1..], start);
    }
  }

  /**
   * Feeding the sample at `k` to a gate reset at `last`: it is reported or
   * not, and the later reports follow from the time the gate is left at.
   */
  lemma ReportsAdvance(all: seq<Time>, done: seq<Time>, last: Time, samples: seq<Sample>, k: nat)
    requires k < |samples|
    requires all == done + Reports(last, samples[k..])
    ensures var s := samples[k];
            var report := Admits(last, s.time, s.ready);
            all == (if report then done + [s.time] else done)
                   + Reports(if report then s.time else last, samples[k + 1..])
  {
    assert samples[k..][0] == samples[k] && samples[k..][1..] == samples[k + 1..];
  }

  /** A fresh gate starts at 0, so its first usable sample later than 12 is reported. */
  lemma FirstUsableSampleReported(samples: seq<Sample>, k: nat)
    requires k < |samples| && samples[k].ready && samples[k].time > MIN_INTERVAL
    requires forall j :: 0 <= j < k ==> !samples[j].ready
    ensures Reports(0.0, samples) != [] && Reports(0.0, samples)[0] == samples[k].time
  {
    if k > 0 {
      FirstUsableSampleReported(samples[1..], k - 1);
    }
  }

  /**
   * The line `run_subprocess_with_progress` hands to its callback: the
   * decoded line, stripped, with its escape sequences removed. What is left
   * is the stripped line with characters deleted, in their order, and a
   * line without ESC is only stripped.
   */
  function CallbackLine(raw: string): (line: string)
    ensures IsSubsequence(line, Strip(raw))
    ensures ESC !in raw ==> line == Strip(raw)
  {
    RemoveIsSubsequence(Strip(raw));
    StrippedPlainUnchanged(raw);
    RemoveAnsiCodes(Strip(raw))
  }

  lemma StrippedPlainUnchanged(raw: string)
    ensures ESC !in raw ==> RemoveAnsiCodes(Strip(raw)) == Strip(raw)
  {
    if ESC !in raw {
      var (i, j) := StripBounds(raw);
      assert forall k :: 0 <= k < j - i ==> Strip(raw)[k] == raw[i + k];
      NoEscapeUnchanged(Strip(raw));
    }
  }

  /**
   * The samples the download closure sees for lines read at the given
   * times: sample k is usable exactly when the line its callback receives
   * holds a `digits[.digits]%` token.
   */
  function DownloadSamples(raws: seq<string>, times: seq<Time>): (samples: seq<Sample>)
    requires |times| == |raws|
    ensures |samples| == |raws|
    ensures forall k :: 0 <= k < |raws| ==> samples[k].time == times[k]
    ensures forall k :: 0 <= k < |raws| ==>
              (samples[k].ready <==> exists q: nat, n: nat :: TokenAt(CallbackLine(raws[k]), q, n))
  {
    seq(|raws|, k requires 0 <= k < |raws| => Sample(times[k], LinePercent(CallbackLine(raws[k])).Some?))
  }

  /**
   * The bars `dl_progress` shows for lines read at the given times, by a
   * gate last reset at `last`: the bar of each reported line's percentage.
   */
  function DownloadBars(last: Time, raws: seq<string>, times: seq<Time>): (bars: seq<string>)
    requires |times| == |raws|
    ensures |bars| == |Reports(last, DownloadSamples(raws, times))|
    decreases |raws|
  {
    if raws == [] then []
    else
      var pct := LinePercent(CallbackLine(raws[0]));
      var samples := DownloadSamples(raws, times);
      assert samples[1..] == DownloadSamples(raws[1..], times[1..]);
      if Admits(last, times[0], pct.Some?) then
        [CreateProgressBar(pct.value, DEFAULT_WIDTH)] + DownloadBars(times[0], raws[1..], times[1..])
      else DownloadBars(last, raws[1..], times[1..])
  }

  /** Feeding line `k`: its bar, if the gate reports it, and the bars of the later lines. */
  lemma BarsAdvance(all: seq<string>, done: seq<string>, last: Time, raws: seq<string>, times: seq<Time>, k: nat)
    requires |times| == |raws| && k < |raws|
    requires all == done + DownloadBars(last, raws[k..], times[k..])
    ensures var pct := LinePercent(CallbackLine(raws[k]));
            var report := Admits(last, times[k], pct.Some?);
            all == (if report then done + [CreateProgressBar(pct.value, DEFAULT_WIDTH)] else done)
                   + DownloadBars(if report then times[k] else last, raws[k + 1..], times[k + 1..])
  {
    assert raws[k..][0] == raws[k] && raws[k..][1..] == raws[k + 1..];
    assert times[k..][0] == times[k] && times[k..][1..] == times[k + 1..];
  }

  // ---------------------------------------------------------------------------
  // The two closures' state

  /** What the upload closure shows: bar, and megabytes sent of the total (floor division). */
  datatype UploadStatus = UploadStatus(bar: string, sentMB: int, totalMB: int)

  /** `current / total * 100` as an exact fraction, for a non-zero `total`. */
  function UploadPercent(current: int, total: int): (p: Percent)
    requires total != 0
    ensures p.num * total == 100 * current * p.den
  {
    if total > 0 then Percent(100 * current, total) else Percent(-100 * current, -total)
  }

  /**
   * `x // 1024 // 1024`. Dafny's division by a positive number rounds down,
   * like Python's `//`.
   */
  function Megabytes(x: int): (mb: int)
    ensures mb * 1048576 <= x < (mb + 1) * 1048576
  {
    x / 1024 / 1024
  }

  /** The `last_update` (or `upload_last_update`) variable of one closure. */
  class ProgressGate {
    var last: Time
    /** The times of all reports made so far, oldest first. */
    ghost var reports: seq<Time>

    ghost predicate Valid()
      reads this
    {
      Spaced([0.0] + reports) && last == ([0.0] + reports)[|reports|]
    }

    /** `last_update = 0` */
    constructor ()
      ensures Valid() && last == 0.0 && reports == []
    {
      last := 0.0;
      reports := [];
    }

    /** The test and the update that both closures share. */
    method Pass(now: Time, ready: bool) returns (report: bool)
      requires Valid()
      modifies this
      ensures Valid()
      ensures report == Admits(old(last), now, ready)
      ensures last == if report then now else old(last)
      ensures reports == if report then old(reports) + [now] else old(reports)
    {
      report := ready && now - last > MIN_INTERVAL;
      if report {
        ghost var before := [0.0] + reports;
        assert before[|before| - 1] == last;
        last := now;
        reports := reports + [now];
        assert [0.0] + reports == before + [now];
      }
    }

    /** `dl_progress(line)`: the bar for the line's percentage, when one is reported. */
    method OnDownloadLine(line: string, now: Time) returns (bar: Option<string>)
      requires Valid()
      modifies this
      ensures Valid()
      ensures bar.Some? <==> Admits(old(last), now, LinePercent(line).Some?)
      ensures bar.Some? ==> bar.value == CreateProgressBar(LinePercent(line).value, DEFAULT_WIDTH)
      ensures last == if bar.Some? then now else old(last)
      ensures reports == if bar.Some? then old(reports) + [now] else old(reports)
    {
      var pct := LinePercent(line);
      var report := Pass(now, pct.Some?);
      if report {
        bar := Some(CreateProgressBar(pct.value, DEFAULT_WIDTH));
      } else {
        bar := None;
      }
    }

    /**
     * The read loop of `run_subprocess_with_progress` driving `dl_progress`:
     * every line of output, read at `times[k]`, goes through the gate in
     * order; the bars returned are the updates it let through.
     */
    method FeedOutput(raws: seq<string>, times: seq<Time>) returns (bars: seq<string>)
      requires Valid() && |times| == |raws|
      modifies this
      ensures Valid()
      ensures reports == old(reports) + Reports(old(last), DownloadSamples(raws, times))
      ensures bars == DownloadBars(old(last), raws, times)
    {
      ghost var samples := DownloadSamples(raws, times);
      bars := [];
      var k := 0;
      while k < |raws|
        invariant 0 <= k <= |raws| && Valid()
        invariant old(reports) + Reports(old(last), samples) == reports + Reports(last, samples[k..])
        invariant DownloadBars(old(last), raws, times) == bars + DownloadBars(last, raws[k..], times[k..])
      {
        ReportsAdvance(old(reports) + Reports(old(last), samples), reports, last, samples, k);
        BarsAdvance(DownloadBars(old(last), raws, times), bars, last, raws, times, k);
        var line := CallbackLine(raws[k]);
        assert samples[k] == Sample(times[k], LinePercent(line).Some?);
        var bar := OnDownloadLine(line, times[k]);
        if bar.Some? {
          bars := bars + [bar.value];
        }
        k := k + 1;
      }
      assert samples[k..] == [] && raws[k..] == [];
    }

    /** `progress(current, total)`: bar and sizes, when reported; a zero total never is. */
    method OnUploadBytes(current: int, total: int, now: Time) returns (status: Option<UploadStatus>)
      requires Valid()
      modifies this
      ensures Valid()
      ensures status.Some? <==> Admits(old(last), now, total != 0)
      ensures status.Some? ==> status.value == UploadStatus(
                CreateProgressBar(UploadPercent(current, total), DEFAULT_WIDTH),
                Megabytes(current), Megabytes(total))
      ensures last == if status.Some? then now else old(last)
      ensures reports == if status.Some? then old(reports) + [now] else old(reports)
    {
      var report := Pass(now, total != 0);
      if report {
        status := Some(UploadStatus(
          CreateProgressBar(UploadPercent(current, total), DEFAULT_WIDTH),
          Megabytes(current), Megabytes(total)));
      } else {
        status := None;
      }
    }
  }
}
