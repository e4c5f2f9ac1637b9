/** What the two subprocess variants (the "final" and the "standalone"
    downloader) share: the url check, the yt-dlp argument lists, the statuses
    of their queue items, the progress scrape of yt-dlp's output lines and the
    monitored transfer, with the user's stop request as an oracle. */
module YtdlpCli {
  import opened Text

  // ---------------------------------------------------------------------
  // is_valid_url
  // ---------------------------------------------------------------------

  /** After the optional prefixes, `host` and at least one id character. */
  predicate HostThenId(r: string, host: string) {
    At(r, 0, host) && |host| < |r| && IsIdChar(r[|host|])
  }

  /** `is_valid_url`: `re.match` of one of
      `(?:https?://)?(?:www\.)?youtube\.com/watch\?v=[\w-]+`,
      `(?:https?://)?(?:www\.)?youtu\.be/[\w-]+` and
      `(?:https?://)?(?:www\.)?youtube\.com/playlist\?list=[\w-]+`. The match
      is anchored at the start only, so anything may follow the id. */
  function IsValidUrl(url: string): (r: bool)
    ensures r ==> |url| > 0
  {
    var a := AfterHostPrefix(url);
    HostThenId(a, "youtube.com/watch?v=") || HostThenId(a, "youtu.be/") || HostThenId(a, "youtube.com/playlist?list=")
  }

  predicate IsValidHost(h: string) {
    h == "youtube.com/watch?v=" || h == "youtu.be/" || h == "youtube.com/playlist?list="
  }

  /** The reference reading of the three patterns: an optional scheme, an
      optional `www.`, one of the three host paths, one id character and then
      anything. */
  predicate UrlParts(url: string, scheme: string, www: string, host: string, c: char, rest: string) {
    IsScheme(scheme) && IsWww(www) && IsValidHost(host) && IsIdChar(c)
    && url == scheme + www + host + [c] + rest
  }

  lemma HostStartsWithY(h: string)
    requires IsValidHost(h)
    ensures |h| > 4 && h[0] == 'y'
  {
  }

  /** Every url with the shape of the reference reading is accepted. */
  lemma ValidUrlIntro(url: string, scheme: string, www: string, host: string, c: char, rest: string)
    requires UrlParts(url, scheme, www, host, c, rest)
    ensures IsValidUrl(url)
  {
    HostStartsWithY(host);
    var tail := host + [c] + rest;
    assert url == scheme + www + tail;
    AfterHostPrefixOfParts(scheme, www, tail);
    assert tail[..|host|] == host;
    assert tail[|host|] == c;
    assert HostThenId(tail, host);
  }

  /** The host path that matched after the prefixes. */
  lemma MatchedHost(t: string) returns (host: string)
    requires HostThenId(t, "youtube.com/watch?v=") || HostThenId(t, "youtu.be/") || HostThenId(t, "youtube.com/playlist?list=")
    ensures IsValidHost(host) && HostThenId(t, host)
  {
    if HostThenId(t, "youtube.com/watch?v=") {
      host := "youtube.com/watch?v=";
    } else if HostThenId(t, "youtu.be/") {
      host := "youtu.be/";
    } else {
      host := "youtube.com/playlist?list=";
    }
  }

  lemma SplitAssoc(front: string, host: string, c: char, rest: string)
    ensures front + (host + [c] + rest) == front + host + [c] + rest
  {
  }

  /** Every accepted url has the shape of the reference reading. */
  lemma ValidUrlElim(url: string) returns (scheme: string, www: string, host: string, c: char, rest: string)
    requires IsValidUrl(url)
    ensures UrlParts(url, scheme, www, host, c, rest)
  {
    scheme, www := PrefixSplit(url);
    var t := AfterHostPrefix(url);
    host := MatchedHost(t);
    c := t[|host|];
    rest := t[|host| + 1..];
    HostSplit(t, host);
    SplitAssoc(scheme + www, host, c, rest);
  }

  /** A matched host path, the first id character and the rest make up `t`. */
  lemma HostSplit(t: string, host: string)
    requires HostThenId(t, host)
    ensures t == host + [t[|host|]] + t[|host| + 1..]
  {
    assert t == t[..|host|] + [t[|host|]] + t[|host| + 1..];
  }

  /** `is_valid_url` accepts exactly the urls of the reference reading. */
  lemma ValidUrlIff(url: string)
    ensures IsValidUrl(url) <==> exists scheme, www, host, c, rest :: UrlParts(url, scheme, www, host, c, rest)
  {
    if IsValidUrl(url) {
      var scheme, www, host, c, rest := ValidUrlElim(url);
    }
    if exists scheme, www, host, c, rest :: UrlParts(url, scheme, www, host, c, rest) {
      var scheme, www, host, c, rest :| UrlParts(url, scheme, www, host, c, rest);
      ValidUrlIntro(url, scheme, www, host, c, rest);
    }
  }

  /** `re.match` is anchored only at the start: appending text to an accepted
      url keeps it accepted. */
  lemma ValidUrlExtends(url: string, more: string)
    requires IsValidUrl(url)
    ensures IsValidUrl(url + more)
  {
    var scheme, www, host, c, rest := ValidUrlElim(url);
    var front := scheme + www + host + [c];
    Assoc(front, rest, more);
    ValidUrlIntro(url + more, scheme, www, host, c, rest + more);
  }

  /** What `add_to_queue` makes of the url entry: the stripped text, or one
      of the two warnings it shows instead of adding. */
  datatype EntryCheck = Accepted(url: string) | NoUrl | NotYoutube

  function CheckEntry(entry: string): (r: EntryCheck)
    ensures r.Accepted? ==> IsValidUrl(r.url) && NoSpaceAtStart(r.url) && NoSpaceAtEnd(r.url)
    ensures r == NoUrl <==> Strip(entry) == ""
  {
    var url := Strip(entry);
    if |url| == 0 then NoUrl else if !IsValidUrl(url) then NotYoutube else Accepted(url)
  }

  /** The accepted url is the entry with its surrounding whitespace removed. */
  lemma CheckEntrySlice(entry: string)
    requires CheckEntry(entry).Accepted?
    ensures exists i :: StrippedAt(entry, i, CheckEntry(entry).url)
  {
    var u := Strip(entry);
    assert CheckEntry(entry) == Accepted(u);
    StripSlice(entry);
    var i :| StrippedAt(entry, i, u);
  }

  /** The accepted url, entered again, is accepted as itself. */
  lemma CheckEntryIdempotent(entry: string)
    requires CheckEntry(entry).Accepted?
    ensures CheckEntry(CheckEntry(entry).url) == CheckEntry(entry)
  {
    StripOfTrimmed(CheckEntry(entry).url);
  }

  /** An entry that is already a trimmed YouTube url is accepted unchanged,
      whatever follows the video or playlist id. */
  lemma CheckEntryAcceptsUrl(url: string, more: string)
    requires IsValidUrl(url) && NoSpaceAtStart(url) && NoSpaceAtEnd(url + more)
    ensures CheckEntry(url + more) == Accepted(url + more)
  {
    ValidUrlExtends(url, more);
    assert (url + more)[0] == url[0];
    StripOfTrimmed(url + more);
  }

  // ---------------------------------------------------------------------
  // Statuses of the queue items
  // ---------------------------------------------------------------------

  datatype JobStatus = Queued | Downloading | Completed | Failed

  /** The status strings the two variants store in `item['status']`. */
  function StatusText(s: JobStatus): (r: string)
    ensures |r| > 0 && IsLetter(r[|r| - 1])
  {
    match s
    case Queued => "Queued"
    case Downloading => "Downloading"
    case Completed => "Completed"
    case Failed => "Failed"
  }

  lemma StatusTextInjective(s: JobStatus, t: JobStatus)
    requires StatusText(s) == StatusText(t)
    ensures s == t
  {
    var a := StatusText(s);
    var b := StatusText(t);
    assert |a| == |b|;
    assert a[0] == b[0];
  }

  // ---------------------------------------------------------------------
  // The yt-dlp argument lists
  // ---------------------------------------------------------------------

  const Mp3Label: string := "MP3 (Audio)"
  const VideoLabel: string := "MP4 (Video)"

  /** The speed limit the final variant passes: the stripped speed text when it
      is non-empty and all digits (`speed_limit and speed_limit.isdigit()`). */
  function SpeedLimit(speedText: string): (r: Option<string>)
    ensures r.Some? ==> IsDecimal(r.value)
  {
    var s := Strip(speedText);
    if IsDecimal(s) then Some(s) else None
  }

  /** A number typed with surrounding whitespace is taken as the limit. */
  lemma SpeedLimitOfNumber(lead: string, n: nat, trail: string)
    requires forall k :: 0 <= k < |lead| ==> IsSpace(lead[k])
    requires forall k :: 0 <= k < |trail| ==> IsSpace(trail[k])
    ensures SpeedLimit(lead + NatToString(n) + trail) == Some(NatToString(n))
  {
    var d := NatToString(n);
    var s := lead + d + trail;
    var r := Strip(s);
    StripSlice(s);
    var i :| StrippedAt(s, i, r);
    forall k | 0 <= k < |lead| ensures IsSpace(s[k]) {
      assert s[k] == lead[k];
    }
    forall k | |lead| <= k < |lead| + |d| ensures s[k] == d[k - |lead|] && !IsSpace(s[k]) {
      assert IsDigit(d[k - |lead|]);
    }
    forall k | |lead| + |d| <= k < |s| ensures IsSpace(s[k]) {
      assert s[k] == trail[k - |lead| - |d|];
    }
    assert !IsSpace(s[|lead|]) && !IsSpace(s[|lead| + |d| - 1]);
    assert i <= |lead| < i + |r|;
    assert r[0] == s[i];
    assert i == |lead|;
    assert r[|r| - 1] == s[i + |r| - 1];
    assert |r| == |d|;
    assert r == s[|lead|..|lead| + |d|];
  }

  /** Text holding a character that is neither a digit nor whitespace never
      sets a limit. */
  lemma SpeedLimitRejects(speedText: string, k: nat)
    requires k < |speedText| && !IsDigit(speedText[k]) && !IsSpace(speedText[k])
    ensures SpeedLimit(speedText) == None
  {
    var r := Strip(speedText);
    StripSlice(speedText);
    var i :| StrippedAt(speedText, i, r);
    assert i <= k < i + |r|;
    assert r[k - i] == speedText[k];
  }

  const AudioArgs: seq<string> := ["--extract-audio", "--audio-format", "mp3", "--audio-quality", "192K"]
  const VideoArgs: seq<string> := ["--format", "best[height<=720]"]

  /** The format arguments: audio extraction to 192K mp3 for the mp3 choice,
      the best stream of at most 720 lines for anything else. */
  function FormatArgs(formatType: string): seq<string> {
    if formatType == Mp3Label then AudioArgs else VideoArgs
  }

  /** `cmd.extend(["--limit-rate", f"{speed_limit}K"])` when there is a limit. */
  function LimitArgs(speedText: string): (r: seq<string>)
    ensures |r| == 0 <==> SpeedLimit(speedText).None?
  {
    match SpeedLimit(speedText)
    case Some(s) => ["--limit-rate", s + "K"]
    case None => []
  }

  /** The argument list of the final variant's `download_with_ytdlp`. */
  function FinalCommand(ytdlpPath: string, formatType: string, output: string, url: string,
                        speedText: string): (cmd: seq<string>)
    ensures |cmd| == 1 + |FormatArgs(formatType)| + 3 + |LimitArgs(speedText)|
    ensures cmd[0] == ytdlpPath
    ensures cmd[|cmd| - |LimitArgs(speedText)| - 1] == url
  {
    [ytdlpPath] + FormatArgs(formatType) + ["--output", output, url] + LimitArgs(speedText)
  }

  /** The rate limit is the last argument pair exactly when the stripped speed
      text is a digit string; its value is that number followed by `K`. */
  lemma FinalCommandLimit(ytdlpPath: string, formatType: string, output: string, url: string, speedText: string)
    ensures var cmd := FinalCommand(ytdlpPath, formatType, output, url, speedText);
      (IsDecimal(Strip(speedText)) ==> cmd[|cmd| - 2..] == ["--limit-rate", Strip(speedText) + "K"])
      && (!IsDecimal(Strip(speedText)) ==> |cmd| == |FormatArgs(formatType)| + 4)
  {
  }

  /** The mp3 choice selects the audio arguments and everything else the video
      arguments; they are followed by the output template and the url. */
  lemma FinalCommandFormat(ytdlpPath: string, formatType: string, output: string, url: string, speedText: string)
    ensures var cmd := FinalCommand(ytdlpPath, formatType, output, url, speedText);
      var f := |FormatArgs(formatType)|;
      (formatType == Mp3Label ==> cmd[1..1 + f] == AudioArgs)
      && (formatType != Mp3Label ==> cmd[1..1 + f] == VideoArgs)
      && cmd[1 + f..4 + f] == ["--output", output, url]
  {
    ConcatParts([ytdlpPath], FormatArgs(formatType), ["--output", output, url], LimitArgs(speedText));
  }

  /** The middle parts of a four-part concatenation, read back by slicing. */
  lemma ConcatParts(a: seq<string>, b: seq<string>, c: seq<string>, d: seq<string>)
    ensures (a + b + c + d)[|a|..|a| + |b|] == b
    ensures (a + b + c + d)[|a| + |b|..|a| + |b| + |c|] == c
  {
    var s := a + b + c + d;
    assert forall k :: 0 <= k < |b| ==> s[|a| + k] == b[k];
    assert forall k :: 0 <= k < |c| ==> s[|a| + |b| + k] == c[k];
  }

  /** The argument list of the standalone variant, which has no format choice
      and no speed limit. */
  function StandaloneCommand(ytdlpPath: string, output: string, url: string): (cmd: seq<string>)
    ensures |cmd| == 6 && cmd[0] == ytdlpPath && cmd[|cmd| - 1] == url
  {
    [ytdlpPath, "--format", "best[height<=720]", "--output", output, url]
  }

  /** The standalone command is the final variant's video command without a
      speed limit. */
  lemma StandaloneIsFinalVideo(ytdlpPath: string, output: string, url: string)
    ensures StandaloneCommand(ytdlpPath, output, url) == FinalCommand(ytdlpPath, VideoLabel, output, url, "")
  {
    VideoLabelArgs();
    EmptySpeedNoLimit();
    var cmd := FinalCommand(ytdlpPath, VideoLabel, output, url, "");
    assert cmd == [ytdlpPath] + VideoArgs + ["--output", output, url] + [];
  }

  lemma VideoLabelArgs()
    ensures FormatArgs(VideoLabel) == VideoArgs
  {
    assert VideoLabel[2] != Mp3Label[2];
  }

  /** An empty speed box sets no limit. */
  lemma EmptySpeedNoLimit()
    ensures LimitArgs("") == []
  {
    assert Strip("") == "";
  }

  // ---------------------------------------------------------------------
  // Progress scrape: re.search(r'(\d+(?:\.\d+)?)%', line)
  // ---------------------------------------------------------------------

  /** A fraction `.digits` starting at `e`, followed by `%`. */
  predicate FractionThenPercent(s: string, e: nat) {
    e + 1 < |s| && s[e] == '.' && IsDigit(s[e + 1]) &&
      var f := e + 1 + RunLength(s, e + 1, IsDigit);
      f < |s| && s[f] == '%'
  }

  /** The pattern matches at `p`. Greedy `\d+` can only succeed with the whole
      digit run, because what follows it (`.` or `%`) is not a digit. */
  predicate ProgressMatchAt(s: string, p: nat) {
    p < |s| && IsDigit(s[p]) &&
      var e := p + RunLength(s, p, IsDigit);
      (e < |s| && s[e] == '%') || FractionThenPercent(s, e)
  }

  /** Where `re.search` finds its match: the leftmost position. */
  function LeftmostMatch(s: string): (r: Option<nat>)
    ensures r.Some? ==> r.value < |s| && ProgressMatchAt(s, r.value)
    ensures r.Some? ==> forall q: nat :: q < r.value ==> !ProgressMatchAt(s, q)
    ensures r.None? ==> forall q: nat :: q <= |s| ==> !ProgressMatchAt(s, q)
  {
    var m := (q: nat) => ProgressMatchAt(s, q);
    assert forall q: nat :: m(q) == ProgressMatchAt(s, q);
    FirstFrom(|s|, 0, m)
  }

  /** `int(float(...))` of a match at `p`: the value of its integer digits. */
  function IntegerPart(s: string, p: nat): nat
    requires p <= |s|
  {
    DigitsValue(s[p..p + RunLength(s, p, IsDigit)])
  }

  /** The progress a line reports, if it reports one. */
  function ProgressValue(s: string): Option<nat> {
    match LeftmostMatch(s)
    case None => None
    case Some(p) => Some(IntegerPart(s, p))
  }

  predicate NoDigit(s: string) {
    forall k :: 0 <= k < |s| ==> !IsDigit(s[k])
  }

  /** The positional form of a progress line: no digit before `p`, the digits
      `d` at `p`, then an optional fraction and `%`. */
  lemma MatchOfNumber(s: string, p: nat, d: string, frac: string)
    requires IsDecimal(d) && p + |d| + |frac| < |s|
    requires forall k :: 0 <= k < p ==> !IsDigit(s[k])
    requires forall k :: p <= k < p + |d| ==> s[k] == d[k - p]
    requires forall k :: p + |d| <= k < p + |d| + |frac| ==> s[k] == frac[k - p - |d|]
    requires s[p + |d| + |frac|] == '%'
    requires frac == "" || (frac[0] == '.' && IsDecimal(frac[1..]))
    ensures LeftmostMatch(s) == Some(p)
    ensures s[p..p + RunLength(s, p, IsDigit)] == d
  {
    var e := p + |d|;
    RunLengthIs(s, p, IsDigit, |d|);
    if frac != "" {
      FractionAt(s, e, frac);
    }
    assert ProgressMatchAt(s, p);
    assert s[p..e] == d;
    LeftmostIs(s, p);
  }

  /** A fraction `frac` at `e` followed by `%` is what the pattern allows there. */
  lemma FractionAt(s: string, e: nat, frac: string)
    requires e + |frac| < |s| && frac != "" && frac[0] == '.' && IsDecimal(frac[1..])
    requires forall k :: e <= k < e + |frac| ==> s[k] == frac[k - e]
    requires s[e + |frac|] == '%'
    ensures FractionThenPercent(s, e)
  {
    assert forall k :: e + 1 <= k < e + |frac| ==> s[k] == frac[1..][k - e - 1];
    RunLengthIs(s, e + 1, IsDigit, |frac| - 1);
  }

  /** A match with no digit before it is the leftmost one. */
  lemma LeftmostIs(s: string, p: nat)
    requires ProgressMatchAt(s, p)
    requires forall k :: 0 <= k < p ==> !IsDigit(s[k])
    ensures LeftmostMatch(s) == Some(p)
  {
    var r := LeftmostMatch(s);
    if r.Some? {
      var q := r.value;
      assert IsDigit(s[q]);
      assert q >= p;
    }
  }

  /** The shape of a yt-dlp progress line: text without digits, then the
      percentage `n` or `n.f`, then `%` and anything. Its scrape gives `n`. */
  lemma ProgressRoundTrip(pre: string, n: nat, frac: string, post: string)
    requires NoDigit(pre)
    requires frac == "" || (frac[0] == '.' && IsDecimal(frac[1..]))
    ensures ProgressValue(pre + NatToString(n) + frac + "%" + post) == Some(n)
  {
    var d := NatToString(n);
    var s2 := pre + d + frac;
    var s := s2 + "%" + post;
    var p := |pre|;
    assert forall k :: 0 <= k < |s2| ==> s[k] == s2[k];
    assert forall k :: 0 <= k < p ==> s2[k] == pre[k];
    assert forall k :: p <= k < p + |d| ==> s2[k] == d[k - p];
    assert forall k :: p + |d| <= k < |s2| ==> s2[k] == frac[k - p - |d|];
    assert s[|s2|] == '%';
    MatchOfNumber(s, p, d, frac);
    ValueOfMatch(s, p, d);
    DigitsValueOfNatToString(n);
  }

  lemma ValueOfMatch(s: string, p: nat, d: string)
    requires LeftmostMatch(s) == Some(p) && AllDigits(d)
    requires s[p..p + RunLength(s, p, IsDigit)] == d
    ensures ProgressValue(s) == Some(DigitsValue(d))
  {
  }

  /** A line without digits leaves the progress alone. */
  lemma NoDigitNoProgress(s: string)
    requires NoDigit(s)
    ensures ProgressValue(s) == None
  {
  }

  /** The progress after one output line. */
  function ScrapeProgress(line: string, progress: nat): (r: nat)
    ensures r != progress ==> ProgressValue(line) == Some(r)
    ensures ProgressValue(line).None? ==> r == progress
  {
    match ProgressValue(line)
    case Some(v) => v
    case None => progress
  }

  /** The last line that reports a progress. */
  function LastMatch(lines: seq<string>): (r: Option<nat>)
    ensures r.Some? ==> r.value < |lines| && ProgressValue(lines[r.value]).Some?
    ensures r.Some? ==> forall k :: r.value < k < |lines| ==> ProgressValue(lines[k]).None?
    ensures r.None? ==> forall k :: 0 <= k < |lines| ==> ProgressValue(lines[k]).None?
    decreases |lines|
  {
    if |lines| == 0 then None
    else if ProgressValue(lines[|lines| - 1]).Some? then Some(|lines| - 1)
    else
      var front := lines[..|lines| - 1];
      assert forall k :: 0 <= k < |front| ==> front[k] == lines[k];
      LastMatch(front)
  }

  /** The progress after a sequence of output lines: the last reported one,
      or the starting value when no line reports one. */
  function ScrapeAll(lines: seq<string>, progress: nat): (r: nat)
    ensures LastMatch(lines).None? ==> r == progress
    ensures LastMatch(lines).Some? ==> r == ProgressValue(lines[LastMatch(lines).value]).value
    decreases |lines|
  {
    if |lines| == 0 then progress
    else
      var front := lines[..|lines| - 1];
      ScrapeProgress(lines[|lines| - 1], ScrapeAll(front, progress))
  }

  // ---------------------------------------------------------------------
  // The monitored transfer
  // ---------------------------------------------------------------------

  /** What one yt-dlp process does, as seen by the monitor loop: the lines it
      prints and its exit code. */
  datatype Run = Run(lines: seq<string>, returnCode: int)

  /** When the stop flag is first seen before reading line `k`, the lines read
      are `lines[..k]` (a stop after the last line is seen before the final
      end-of-output read). */
  function LinesRead(run: Run, stopLine: Option<nat>): (n: nat)
    ensures n <= |run.lines|
    ensures stopLine.None? ==> n == |run.lines|
  {
    match stopLine
    case None => |run.lines|
    case Some(k) => if k <= |run.lines| then k else |run.lines|
  }

  /** The check a stop is seen at, when the flag may already be set on entry
      (then the very first check sees it). */
  function Seen(stopped: bool, stopLine: Option<nat>): (r: Option<nat>)
    ensures stopped ==> r == Some(0)
    ensures !stopped ==> r == stopLine
  {
    if stopped then Some(0) else stopLine
  }

  datatype Outcome = Outcome(ok: bool, progress: nat)

  /** A stop flag already set on entry ends the transfer at the first check:
      it fails, no line is read and the progress is the one it started with. */
  lemma SeenFirstCheck(run: Run, stopLine: Option<nat>, progress: nat)
    ensures LinesRead(run, Seen(true, stopLine)) == 0
    ensures Transfer(run, Seen(true, stopLine), progress) == Outcome(false, progress)
  {
    assert run.lines[..0] == [];
  }

  /** `download_with_ytdlp`'s monitor loop: a stop seen before a read
      terminates the process and reports failure; otherwise success is exit
      code 0. The progress is scraped from the lines read. */
  function Transfer(run: Run, stopLine: Option<nat>, progress: nat): (o: Outcome)
    ensures stopLine.Some? ==> !o.ok
    ensures stopLine.None? ==> (o.ok <==> run.returnCode == 0)
    ensures o.progress == ScrapeAll(run.lines[..LinesRead(run, stopLine)], progress)
  {
    Outcome(stopLine.None? && run.returnCode == 0, ScrapeAll(run.lines[..LinesRead(run, stopLine)], progress))
  }

  /** The monitor loop from the check ahead of read `k`, with `progress` the
      value scraped so far: one step per line read. */
  function Monitor(run: Run, stopLine: Option<nat>, k: nat, progress: nat): (o: Outcome)
    requires k <= LinesRead(run, stopLine)
    decreases |run.lines| - k
  {
    if stopLine.Some? && k == LinesRead(run, stopLine) then Outcome(false, progress)
    else if k == |run.lines| then Outcome(run.returnCode == 0, progress)
    else Monitor(run, stopLine, k + 1, ScrapeProgress(run.lines[k], progress))
  }

  /** One more line read by the monitor loop. */
  lemma MonitorStep(run: Run, stopLine: Option<nat>, k: nat, progress: nat)
    requires k < LinesRead(run, stopLine) || (stopLine.None? && k < |run.lines|)
    ensures Monitor(run, stopLine, k, progress) == Monitor(run, stopLine, k + 1, ScrapeProgress(run.lines[k], progress))
  {
  }

  /** Run line by line, the monitor loop ends in the outcome Transfer states
      for the whole run. */
  lemma {:induction false} MonitorTransfer(run: Run, stopLine: Option<nat>, k: nat, progress: nat)
    requires k <= LinesRead(run, stopLine)
    ensures Monitor(run, stopLine, k, ScrapeAll(run.lines[..k], progress)) == Transfer(run, stopLine, progress)
    decreases |run.lines| - k
  {
    var p := ScrapeAll(run.lines[..k], progress);
    if stopLine.Some? && k == LinesRead(run, stopLine) {
    } else if k == |run.lines| {
      assert run.lines[..k] == run.lines;
    } else {
      assert run.lines[..k + 1][..k] == run.lines[..k];
      MonitorTransfer(run, stopLine, k + 1, progress);
    }
  }

  // ---------------------------------------------------------------------
  // The user's stop request
  // ---------------------------------------------------------------------

  /** Where, inside worker step `step`, the user's stop lands: before the
      step's own stop check, before the monitor loop's check ahead of line
      `line`, or after the transfer has returned. */
  datatype StopPoint = BeforeItem | BeforeLine(line: nat) | AfterTransfer
  datatype StopEvent = NoStop | StopAt(step: nat, point: StopPoint)

  /** The environment of a worker run: the process behaviour of each step and
      at most one stop request. */
  datatype CliEnv = CliEnv(runs: nat -> Run, stop: StopEvent)

  predicate StopsBefore(env: CliEnv, c: nat) {
    env.stop.StopAt? && env.stop.step == c && env.stop.point.BeforeItem?
  }

  /** A stop at step `c` that the step's own check does not see. */
  predicate StopsLate(env: CliEnv, c: nat) {
    env.stop.StopAt? && env.stop.step == c && !env.stop.point.BeforeItem?
  }

  predicate StopsAfter(env: CliEnv, c: nat) {
    env.stop.StopAt? && env.stop.step == c && env.stop.point.AfterTransfer?
  }

  /** The monitor-loop check at which a stop in step `c` is seen. */
  function StopLine(env: CliEnv, c: nat): (r: Option<nat>)
    ensures r.Some? <==> StopsLate(env, c) && !StopsAfter(env, c)
  {
    if env.stop.StopAt? && env.stop.step == c && env.stop.point.BeforeLine? then Some(env.stop.point.line) else None
  }

  /** The first step index (from `c`, below `n`) after which the worker does
      not go on: the stop step itself for a stop before the check, the one
      after it otherwise. */
  function EndFrom(env: CliEnv, c: nat, n: nat): (e: nat)
    requires c <= n
    ensures c <= e <= n
    ensures e < n ==> env.stop.StopAt? && (e == env.stop.step || e == env.stop.step + 1)
  {
    if env.stop.StopAt? && c <= env.stop.step < n then
      (if env.stop.point.BeforeItem? then env.stop.step else env.stop.step + 1)
    else n
  }
}
