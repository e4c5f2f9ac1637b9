# YouTube downloader GUIs: queue state machines and string builders

This project models the core of three GUI variants of a desktop YouTube
downloader, as sequential Dafny, and proves properties of that model.

- **The modern GUI** (`youtube-download-gui-modern.py`) needs three parts:
  - its download queue: `add_to_queue`, `clear_queue`, `start_queue_download`, `_process_queue`, `download_single_item`, the status writes of `_download_item_thread`, `stop_download` and `add_selected_playlist_items_to_queue`;
  - the string builders `sanitize_filename`, `format_duration`, `convert_to_playlist_url` and `get_format_selector`, plus the filename and format-selector code of the download thread and the status-icon table;
  - the URL classifiers `is_playlist_url` and `is_youtube_video_url`.
- **The "final" subprocess variant** (`youtube-downloader-final.py`) needs three parts:
  - its snapshot-driven worker over a list of item dictionaries;
  - remove, move up and move down, and the `start_downloads` guards;
  - the yt-dlp command line, the percentage scrape of yt-dlp's output, and the queue display string.
- **The "standalone" subprocess variant** (`youtube-downloader-standalone.py`) walks the live list. It has its own command line and display line.

The model has two layers:
- Each queue is a state machine on values: `ModernQueue`, `FinalQueue` and `StandaloneQueue`.
- Each application is a Dafny `class` whose methods update the queue and the flags in place: `ModernApp`, `FinalApp` and `StandaloneApp`. Every method's `ensures` ties its new state to the value-level function.

The queue, worker and monitor loops of the source are `while` loops with invariants: the worker loops, the reset loop of `start_queue_download`, the reversed delete loop of `remove_selected`, the append loop of `add_selected_playlist_items_to_queue` and the stdout monitor loop of `download_with_ytdlp`. The string rewrites, the `for char in invalid_chars` loop of `sanitize_filename` among them, are recursive functions, because they only reassign a local.

The shared modules are:
- `Text`: decimal numerals, ASCII character classes, `strip`, the 50-character shortening and the optional `https?://` / `www.` prefix.
- `YtdlpCli`: `is_valid_url`, the entry checks of `add_to_queue`, the argument lists, the progress scrape, the subprocess monitor and the stop model shared by the two subprocess variants.
- `ModernText` and `ModernUrls`: the modern GUI's string builders and URL recognisers.

Collaborators the model cannot see become parameters of the operations:
- Threads become one atomic step per item.
- The outcome of each transfer is an oracle.
- The items the user appends while a loop runs are a sequence of arrivals, one batch before each index.
- A press of Stop is an event at one named point of one step.
- The subprocess is a `Run`: its stdout lines and its exit code.

Decisions where the source reads two ways:
- In the modern GUI, the job of `_download_item_thread` returns without writing a status when it sees a cancel before its transfer (1033-1034). The item stays `Downloading`, and a restart only resets `Stopped` items (859-861). So such an item is never dispatched again. This is the code as written, and the model keeps it (`ModernQueue.StuckDownloading`).
- `get_status_icon` has no entry for `Stopped` (it lists `Paused`), so a stopped item shows the fallback icon (`ModernQueue.StatusIconOfStatus`).
- The `elif 'playlist?list=' in url` branch of `convert_to_playlist_url` never finds an id, because its pattern is an instance of the first search (`ModernUrls.PlaylistPathBranchDead`).
- The final variant's `start_downloads` with `selected_only` and an empty selection has already set `is_downloading` and cleared the stop event when it returns. It then resets `is_downloading`, so the net effect is a cleared stop event. The model keeps this as `FinalQueue.Plan.NoSelection`.

## Model

| member | source | states |
|---|---|---|
| Text.NatToString | youtube-downloader-standalone.py:260 | the decimal numeral of `n` is non-empty and all digits, and it starts with `0` exactly when `n` is 0 |
| Text.DigitsValueOfNatToString | youtube-downloader-standalone.py:260 | reading the numeral of `n` back gives `n` |
| Text.NatToStringInjective | youtube-downloader-standalone.py:260 | different numbers print differently |
| Text.Pad2 | youtube-download-gui-modern.py:1372-1375 | the `:02d` field is exactly two digits and reads back as its number |
| Text.Take | youtube-download-gui-modern.py:943 | `s[:n]` is a prefix of `s`, of length `min(n, len(s))` |
| Text.RStrip | youtube-download-gui-modern.py:928 | `rstrip()` gives a prefix with no trailing whitespace |
| Text.RStripDropsSpace | youtube-download-gui-modern.py:928 | everything `rstrip()` removed is whitespace |
| Text.LStrip | youtube-downloader-final.py:386 | `lstrip()` gives a suffix with no leading whitespace |
| Text.LStripDropsSpace | youtube-downloader-final.py:386 | everything `lstrip()` removed is whitespace |
| Text.Strip | youtube-downloader-final.py:386 | `strip()` leaves no whitespace at either end |
| Text.StripSlice | youtube-downloader-final.py:386 | the stripped text is a slice of the input with only whitespace before it |
| Text.StripOfTrimmed | youtube-downloader-final.py:386 | `strip()` is the identity on trimmed text, so it is idempotent |
| Text.StripOfNoSpace | youtube-downloader-final.py:386 | text with no whitespace is its own `strip()` |
| Text.Shorten | youtube-downloader-final.py:439-443 | text of at most 50 characters is kept; longer text becomes its first 50 characters plus `...` (53 characters) |
| Text.ShortenIdempotent | youtube-downloader-final.py:439-443 | shortening a shortened text changes nothing |
| Text.RunLength | youtube-downloader-final.py:600 | the maximal run of characters of a class starting at `i` |
| Text.AfterHostPrefix | youtube-downloader-final.py:420-422 | what the optional `https?://` and `www.` leave is a suffix of the url |
| Text.AfterHostPrefixOfParts | youtube-downloader-final.py:420-422 | a scheme and a `www.` in front of a host starting with `y` are both skipped |
| Text.PrefixSplit | youtube-downloader-final.py:420-422 | every url is its skipped scheme, its skipped `www.` and the rest |
| YtdlpCli.IsValidUrl | youtube-downloader-final.py:417-428 | the anchored match of the three patterns accepts only a non-empty url |
| YtdlpCli.ValidUrlIff | youtube-downloader-final.py:417-428 | a url is valid exactly when it splits into an optional scheme, an optional `www.`, one of the three hosts and a non-empty `[\w-]` character, followed by anything |
| YtdlpCli.ValidUrlIntro | youtube-downloader-standalone.py:240-251 | every url built from those parts is valid |
| YtdlpCli.ValidUrlElim | youtube-downloader-standalone.py:240-251 | every valid url has such parts |
| YtdlpCli.ValidUrlExtends | youtube-downloader-final.py:425-427 | `re.match` is anchored only at the start: a valid url stays valid with anything appended |
| YtdlpCli.CheckEntry | youtube-downloader-final.py:386-393 | the checks of `add_to_queue` on the stripped entry: empty (exactly when the entry strips to nothing), not YouTube, or an accepted valid url with no whitespace at either end |
| YtdlpCli.CheckEntrySlice | youtube-downloader-standalone.py:216-223 | an accepted url is a slice of the entry with only whitespace before it |
| YtdlpCli.CheckEntryIdempotent | youtube-downloader-standalone.py:216-223 | entering an accepted url again accepts the same url |
| YtdlpCli.CheckEntryAcceptsUrl | youtube-downloader-final.py:386-393 | a valid trimmed url with any trimmed tail is accepted unchanged |
| YtdlpCli.StatusText | youtube-downloader-final.py:446 | the status strings are non-empty and end in a letter |
| YtdlpCli.StatusTextInjective | youtube-downloader-final.py:446 | no two statuses print alike |
| YtdlpCli.SpeedLimit | youtube-downloader-final.py:561-563 | a limit is taken only when the stripped speed text is a non-empty run of digits |
| YtdlpCli.SpeedLimitOfNumber | youtube-downloader-final.py:561-563 | a number between whitespace is taken as its numeral |
| YtdlpCli.SpeedLimitRejects | youtube-downloader-final.py:561-563 | a character that is neither a digit nor whitespace means no limit |
| YtdlpCli.EmptySpeedNoLimit | youtube-downloader-final.py:561-562 | an empty speed box adds no `--limit-rate` |
| YtdlpCli.LimitArgs | youtube-downloader-final.py:562-563 | the `--limit-rate` arguments are empty exactly when there is no limit |
| YtdlpCli.FinalCommand | youtube-downloader-final.py:544-564 | the executable comes first, and the url comes right before the optional limit |
| YtdlpCli.FinalCommandLimit | youtube-downloader-final.py:561-564 | `--limit-rate <n>K` ends the command when the stripped speed text is decimal, and nothing is appended otherwise |
| YtdlpCli.FinalCommandFormat | youtube-downloader-final.py:544-559 | MP3 gives the extract-audio, mp3 and 192K arguments, and anything else gives `--format best[height<=720]`; `--output <template> <url>` follows either |
| YtdlpCli.StandaloneCommand | youtube-downloader-standalone.py:324-329 | six arguments, from the executable to the url |
| YtdlpCli.StandaloneIsFinalVideo | youtube-downloader-standalone.py:324-329 | the standalone command is the final variant's video command without a limit |
| YtdlpCli.LeftmostMatch | youtube-downloader-final.py:600 | the leftmost position where `\d+(\.\d+)?%` matches, and none when it matches nowhere |
| YtdlpCli.MatchOfNumber | youtube-downloader-final.py:600 | a numeral with an optional fraction and a `%`, preceded by no digit, is the leftmost match, and its integer digits are the numeral |
| YtdlpCli.LeftmostIs | youtube-downloader-final.py:600 | a match with no digit before it is the leftmost one |
| YtdlpCli.ProgressRoundTrip | youtube-downloader-final.py:600-603 | the line `pre + str(n) + frac + "%" + post` with a digit-free `pre` scrapes to `n`: `int(float(...))` keeps the integer part |
| YtdlpCli.ValueOfMatch | youtube-downloader-final.py:600-603 | the value scraped is the integer part of the leftmost match |
| YtdlpCli.NoDigitNoProgress | youtube-downloader-standalone.py:352-355 | a line with no digit gives no progress |
| YtdlpCli.ScrapeProgress | youtube-downloader-standalone.py:352-355 | a line changes the progress only to its scraped value, and a line without a match leaves it unchanged |
| YtdlpCli.LastMatch | youtube-downloader-final.py:597-604 | the last line that carries a percentage; no later line carries one |
| YtdlpCli.ScrapeAll | youtube-downloader-final.py:597-604 | after a run of lines, the progress is that of the last line with a percentage, or the old progress when no line has one |
| YtdlpCli.LinesRead | youtube-downloader-final.py:583-586 | the monitor reads every line when no stop comes, and at most all lines otherwise |
| YtdlpCli.SeenFirstCheck | youtube-downloader-final.py:577-579 | a stop flag already set on entry ends the transfer at the first check: it fails, no line is read and the progress is unchanged |
| YtdlpCli.Transfer | youtube-downloader-final.py:576-609 | `download_with_ytdlp` fails when a stop is seen, and otherwise succeeds exactly on exit code 0; the progress is the scrape of the lines read |
| YtdlpCli.MonitorStep | youtube-downloader-final.py:581-604 | one iteration of the read loop: the next line's scrape, then the rest of the loop |
| YtdlpCli.MonitorTransfer | youtube-downloader-final.py:576-609 | the monitor loop, from any point it reached, ends with the outcome Transfer states |
| YtdlpCli.StopLine | youtube-downloader-final.py:577-579 | the line check at which a stop inside a transfer is seen |
| YtdlpCli.EndFrom | youtube-downloader-final.py:498-499 | the worker ends at the stop step when the stop precedes its check, one step later when it comes inside the step, and at the end without a stop |
| ModernText.ReplaceChar | youtube-download-gui-modern.py:1095 | `str.replace` of one character keeps the length |
| ModernText.ReplaceAny | youtube-download-gui-modern.py:1090-1092 | replacing every character of a set keeps the length |
| ModernText.ReplaceEachIsReplaceAny | youtube-download-gui-modern.py:1090-1092 | the loop of replacements over `invalid_chars` equals one pass replacing any of them |
| ModernText.InvalidCharsAre | youtube-download-gui-modern.py:1090 | the `invalid_chars` string is exactly the characters the Invalid predicate names |
| ModernText.CollapseRuns | youtube-download-gui-modern.py:1098 | `re.sub(r'[_\s\-]+', '_')` never leaves two underscores in a row, never grows the text and never empties it |
| ModernText.CollapseRunsKeeps | youtube-download-gui-modern.py:1098 | a property of every character and of `_` holds throughout the collapsed text |
| ModernText.CollapseRunsFixed | youtube-download-gui-modern.py:1098 | text whose only separators are single `_` is unchanged |
| ModernText.LStripChar | youtube-download-gui-modern.py:1101 | `lstrip('_')` gives a suffix that does not start with `_` |
| ModernText.RStripChar | youtube-download-gui-modern.py:1101 | `rstrip('_')` gives a prefix that does not end with `_` |
| ModernText.StripChar | youtube-download-gui-modern.py:1101 | `strip('_')` gives a slice of the input that neither starts nor ends with `_` |
| ModernText.AsciiOnly | youtube-download-gui-modern.py:1086 | the `ascii`/`ignore` round trip never grows the text |
| ModernText.AsciiOnlyIsAscii | youtube-download-gui-modern.py:1086 | its result is all ASCII |
| ModernText.AsciiOnlyKeepsAscii | youtube-download-gui-modern.py:1086 | ASCII text is unchanged |
| ModernText.ReplacedIsClean | youtube-download-gui-modern.py:1090-1095 | after the replacements, no invalid character and no `.` is left |
| ModernText.CollapsedIsSafe | youtube-download-gui-modern.py:1098 | after collapsing, there is no whitespace, no `-`, no invalid character, no `.` and no `__` |
| ModernText.StrippedIsSafe | youtube-download-gui-modern.py:1101 | after `strip('_').strip()`, the text is still safe and neither starts nor ends with `_` |
| ModernText.StemIsSafe | youtube-download-gui-modern.py:1086-1101 | the whole rewrite chain yields safe text with no `__` and no `_` at either end |
| ModernText.PrefixedNumberIsSafe | youtube-download-gui-modern.py:1108-1109 | `video_` before a numeral is safe, not all digits, and does not start with `_` |
| ModernText.FinishNameSafe | youtube-download-gui-modern.py:1104-1109 | the cut to 80 characters and the `video` fallback give a non-empty name that is not all digits, with at most 86 characters, that is safe and has no leading `_` |
| ModernText.FallbackNameSafe | youtube-download-gui-modern.py:1109 | the fallback `video` is safe and not all digits |
| ModernText.SanitizeFilenameSafe | youtube-download-gui-modern.py:1077-1111 | the result of `sanitize_filename` has none of `invalid_chars`, no `.`, no whitespace, no `-` and no `__`; it does not start with `_`, is non-empty and not all digits, and has at most 86 characters |
| ModernText.SanitizeFilenameFixed | youtube-download-gui-modern.py:1077-1111 | a result of at most 80 characters that does not end in `_` is returned unchanged by a second call |
| ModernText.SafeNameFixed | youtube-download-gui-modern.py:1077-1111 | every safe trimmed name of 1 to 80 characters that is not all digits is a fixed point |
| ModernText.ShortNameFinished | youtube-download-gui-modern.py:1104-1109 | the final cut and fallback leave a short name that is not all digits alone |
| ModernText.SafeTextIsStem | youtube-download-gui-modern.py:1086-1101 | the rewrite chain leaves safe trimmed text alone |
| ModernText.KeepTitleChars | youtube-download-gui-modern.py:928 | the filter over `isalnum` and space, `-` and `_` never grows the title |
| ModernText.KeepTitleCharsChars | youtube-download-gui-modern.py:928 | the filter keeps only those characters, and a title made only of them is unchanged |
| ModernText.SafeTitleShape | youtube-download-gui-modern.py:928-930 | the safe title has only those characters, no double space and no space at either end |
| ModernText.CollapsedTitleChars | youtube-download-gui-modern.py:928-929 | the spaces collapsed by `\s+` keep the title characters |
| ModernText.SafeTitleIdempotent | youtube-download-gui-modern.py:928-930 | making a safe title safe again changes nothing |
| ModernText.SafeTitleFixed | youtube-download-gui-modern.py:928-930 | every title of that shape is its own safe title |
| ModernText.BestTagOnlyForBest | youtube-download-gui-modern.py:933-938 | the quality tag is `Best` exactly for quality `best` |
| ModernText.QualityTagInjective | youtube-download-gui-modern.py:933-938 | for a fixed download type, different qualities give different tags (`<q>kbps`, `<q>p`) |
| ModernText.VideoIdGroup | youtube-download-gui-modern.py:923-924 | the captured group is 11 characters of `[A-Za-z0-9_-]` |
| ModernText.VideoId | youtube-download-gui-modern.py:923-924 | `unknown` exactly when `(?:v=\|/)` followed by 11 id characters matches nowhere; otherwise the group of some match |
| ModernText.VideoIdIsLeftmost | youtube-download-gui-modern.py:923 | the id is the group of the leftmost match |
| ModernText.ShortLinkId | youtube-download-gui-modern.py:923-924 | `https://youtu.be/<id>` gives `<id>` |
| ModernText.WatchLinkId | youtube-download-gui-modern.py:923-924 | `https://www.youtube.com/watch?v=<id>...` gives `<id>` whatever follows |
| ModernText.WatchPrefixChars | youtube-download-gui-modern.py:923 | the watch prefix has no `v=` or `/` before its `v=` apart from its scheme and path slashes |
| ModernText.TitlePart | youtube-download-gui-modern.py:943 | `safe_title[:25].rstrip()` is a prefix of at most 25 characters with no trailing space, non-empty when the title is |
| ModernText.TitlePartShape | youtube-download-gui-modern.py:943 | that prefix ends in a non-space character |
| ModernText.SimpleFileNameShape | youtube-download-gui-modern.py:941-947 | the name is `<title part> [<tag>] [<id>]` with a title part as above, or `<tag> [<id>]` when the safe title is empty |
| ModernText.HeightCeiling | youtube-download-gui-modern.py:964 | the `height<=` ceiling read back from a selector is decimal |
| ModernText.ThreadFormatCeiling | youtube-download-gui-modern.py:957-964 | the download thread's selector for a numeric video quality `H` carries the ceiling `H`, and the mp3 selector and the video `best` selector carry none |
| ModernText.CeilingOf | youtube-download-gui-modern.py:964 | `bestvideo[height<=H]...` reads back as `H` |
| ModernText.AudioQuality | youtube-download-gui-modern.py:1001 | the mp3 quality is the chosen one except `best`, which becomes a decimal (`192`) |
| ModernText.SelectorsAgreeOnlyForAudio | youtube-download-gui-modern.py:1113-1122 | `get_format_selector` and the thread's selector agree exactly for mp3 |
| ModernText.DurationFields | youtube-download-gui-modern.py:1367-1369 | `3600*h + 60*m + s` is the input, minutes and seconds are below 60, and there are hours exactly from 3600 seconds on |
| ModernText.FormatDurationFields | youtube-download-gui-modern.py:1363-1375 | a positive duration prints as three colon fields from 3600 seconds on and as two below; every field after the first is two digits below 60 |
| ModernText.FormatDurationRoundTrip | youtube-download-gui-modern.py:1363-1375 | reading `H:MM:SS` or `M:SS` back gives the input |
| ModernText.SplitJoin | youtube-download-gui-modern.py:1372-1375 | splitting at colons undoes the joins of the duration text |
| ModernText.ThreeFields | youtube-download-gui-modern.py:1372 | `a:b:c` reads back as `3600a + 60b + c` |
| ModernText.TwoFields | youtube-download-gui-modern.py:1375 | `a:b` reads back as `60a + b` |
| ModernText.HoursText | youtube-download-gui-modern.py:1372 | the hours text splits into its three numerals and reads back as its seconds |
| ModernText.MinutesText | youtube-download-gui-modern.py:1375 | the minutes text splits into its two numerals and reads back as its seconds |
| ModernText.FormatDurationUnknown | youtube-download-gui-modern.py:1365-1366 | zero seconds print as `Unknown`, which reads back as no duration |
| ModernText.StatusIconFallback | youtube-download-gui-modern.py:820-829 | a status gets the fallback icon exactly when the table has no entry for it, and the table's icons differ |
| ModernUrls.IsPlaylistUrl | youtube-download-gui-modern.py:1329-1342 | the empty url is not a playlist url |
| ModernUrls.IsYoutubeVideoUrl | youtube-download-gui-modern.py:1344-1361 | a video url is non-empty and never a playlist url |
| ModernUrls.PlaylistIsNotVideo | youtube-download-gui-modern.py:1349-1350 | no url is both |
| ModernUrls.WatchLinkIsVideo | youtube-download-gui-modern.py:1344-1361 | `https://www.youtube.com/watch?v=<id>` is a video url |
| ModernUrls.WatchLinkWithListIsPlaylist | youtube-download-gui-modern.py:1329-1361 | adding `&list=<id>` makes it a playlist url and no longer a video url |
| ModernUrls.WatchLinkStripped | youtube-download-gui-modern.py:1341 | a watch link is its own `strip()` |
| ModernUrls.WatchLinkHost | youtube-download-gui-modern.py:1358 | the optional prefix of a watch link ends right before `youtube.com/watch?v=` |
| ModernUrls.SingleEqualsNotPlaylist | youtube-download-gui-modern.py:1333-1336 | a url shaped like a watch link whose only `=` is the one after `v` matches neither playlist pattern |
| ModernUrls.IdRun | youtube-download-gui-modern.py:1473 | the maximal run of `[a-zA-Z0-9_-]` from a position |
| ModernUrls.IdRunStartsAt | youtube-download-gui-modern.py:1473 | the run is non-empty where an id character stands |
| ModernUrls.ListParamIdLeftmost | youtube-download-gui-modern.py:1473-1475 | the id is taken from the leftmost `[&?]list=` that is followed by an id character, as its maximal id run, and there is none when no such position exists |
| ModernUrls.PlaylistPathBranchDead | youtube-download-gui-modern.py:1477-1481 | when the first search fails, the `playlist\?list=` search fails too |
| ModernUrls.ConvertToPlaylistUrlResult | youtube-download-gui-modern.py:1467-1486 | the result is `https://www.youtube.com/playlist?list=` plus the non-empty id run after the leftmost `[&?]list=`, or the input unchanged when there is none |
| ModernUrls.ConvertToPlaylistUrlIdempotent | youtube-download-gui-modern.py:1467-1486 | converting a converted url changes nothing |
| ModernUrls.CanonicalUrlConverts | youtube-download-gui-modern.py:1484-1486 | the canonical playlist url of an id is a fixed point |
| ModernUrls.CanonicalIdRun | youtube-download-gui-modern.py:1473-1475 | the id run of the canonical url is the id |
| ModernQueue.StatusName | youtube-download-gui-modern.py:820-829 | every status string with an icon belongs to a status other than `Stopped` |
| ModernQueue.StatusIconOfStatus | youtube-download-gui-modern.py:820-829 | of the statuses the source writes, exactly `Stopped` shows the fallback icon, and no two statuses share a name |
| ModernQueue.NewItem | youtube-download-gui-modern.py:794-803 | the entry of `add_to_queue`: `webpage_url` or the empty string, the title or `Unknown Title`, the chosen type and quality, `Queued`, not from a playlist |
| ModernQueue.EntryUrl | youtube-download-gui-modern.py:1600 | a playlist entry's url, or `watch?v=<id>` when the url is missing or empty; never empty |
| ModernQueue.EntryItem | youtube-download-gui-modern.py:1595-1605 | a playlist item is `Queued` and from the playlist, with the entry's url, the entry's title or `Video <index+1>`, the playlist's title or `Unknown Playlist`, and the download type and quality the user chose |
| ModernQueue.PlaylistItemsCount | youtube-download-gui-modern.py:1590-1609 | the selection adds one item per selected index below the number of entries, each `Queued`, from the playlist and carrying the chosen download type and quality |
| ModernQueue.PlaylistItemsOrder | youtube-download-gui-modern.py:1590-1609 | the `k`-th selected in-range index yields the item at the position counted by the in-range indices before it, so selection order is kept |
| ModernQueue.PlaylistItemsSnoc | youtube-download-gui-modern.py:1590-1612 | one more selected index appends its entry's item when in range, and nothing otherwise |
| ModernQueue.ResetStopped | youtube-download-gui-modern.py:859-861 | exactly the `Stopped` items become `Queued`, and every other item and the length are unchanged |
| ModernQueue.StartQueue | youtube-download-gui-modern.py:848-864 | an empty queue changes nothing; otherwise the cancel flags are cleared, `Stopped` items are reset and processing is on |
| ModernQueue.StartQueueKeepsOthers | youtube-download-gui-modern.py:859-861 | a restart leaves every non-`Stopped` item as it was, `Downloading` included |
| ModernQueue.Stop | youtube-download-gui-modern.py:1251-1264 | `stop_download` sets both cancel flags, clears processing and keeps the queue |
| ModernQueue.RunJob | youtube-download-gui-modern.py:1031-1057 | a job that sees a cancel writes nothing; otherwise its item becomes `Completed`, `Error` or, when interrupted, `Stopped`; no other item or flag changes |
| ModernQueue.JobStep | youtube-download-gui-modern.py:1031-1057 | a job with the step's stop at its point: the flags are set exactly when the stop falls inside this job, and only its item changes |
| ModernQueue.Advance | youtube-download-gui-modern.py:884-903 | one loop body: a `Queued` or `Stopped` item goes through `Downloading` to its fate, and any other item is left alone |
| ModernQueue.HandleOnce | youtube-download-gui-modern.py:1031-1057 | a handled item ends neither `Queued` nor `Stopped`, so the dispatch check at line 882 skips it on any later pass and handling it again changes nothing |
| ModernQueue.StoppedRunEnds | youtube-download-gui-modern.py:878-879 | a cancelled loop breaks at its next check and clears processing |
| ModernQueue.ProcessOutcome | youtube-download-gui-modern.py:874-895 | `_process_queue` over the live list: items appended before the loop ends are visited; every index meets its fate in order; the loop ends at the first check that sees the stop; processing is cleared; the cancel flags are set exactly when a stop came |
| ModernQueue.StepOutcome | youtube-download-gui-modern.py:877-887 | one step at `i` followed by the run from `i + 1` meets the run's outcome |
| ModernQueue.StopStepOutcome | youtube-download-gui-modern.py:877-887 | a stop inside step `i` ends the run at `i + 1` with the outcome stated |
| ModernQueue.ProcessWithoutStop | youtube-download-gui-modern.py:874-895 | without a stop, every item of the grown list is handled by its transfer and the run ends at the end of the list |
| ModernQueue.StuckDownloading | youtube-download-gui-modern.py:1033-1034 | a stop between dispatch and transfer leaves the item `Downloading`, and a restart that follows (whose reset at 859-861 only touches `Stopped`) does not dispatch it again |
| ModernApp.ModernDownloader.constructor | youtube-download-gui-modern.py:110-158 | an empty queue with all flags clear |
| ModernApp.ModernDownloader.AddToQueue | youtube-download-gui-modern.py:785-808 | nothing without a parsed video; otherwise NewItem is appended |
| ModernApp.ModernDownloader.ClearQueue | youtube-download-gui-modern.py:842-846 | the queue becomes empty unconditionally and the flags are kept |
| ModernApp.ModernDownloader.StopDownload | youtube-download-gui-modern.py:1251-1264 | the new state is Stop of the old |
| ModernApp.ModernDownloader.DownloadSingleItem | youtube-download-gui-modern.py:897-907 | an index past the end changes nothing; otherwise only that item becomes `Downloading` |
| ModernApp.ModernDownloader.RunItemJob | youtube-download-gui-modern.py:1031-1057 | the new state is RunJob of the old |
| ModernApp.ModernDownloader.StartDownload | youtube-download-gui-modern.py:831-840 | nothing without a parsed video; otherwise the video is appended, made `Downloading` and run through its job |
| ModernApp.ModernDownloader.StartQueueDownload | youtube-download-gui-modern.py:848-872 | an empty queue changes nothing; otherwise the reset loop gives StartQueue and the processing thread gives Process from index 0 |
| ModernApp.ModernDownloader.JobWithStop | youtube-download-gui-modern.py:1031-1057 | the new state is JobStep of the old |
| ModernApp.ModernDownloader.ProcessQueue | youtube-download-gui-modern.py:874-895 | the loop over the live list ends in the state Process computes |
| ModernApp.ModernDownloader.Visit | youtube-download-gui-modern.py:877-887 | one pass of the loop keeps the run's target and makes progress |
| ModernApp.ModernDownloader.AddSelectedPlaylistItems | youtube-download-gui-modern.py:1579-1619 | an empty selection or no playlist changes nothing; otherwise the queue grows by PlaylistItems |
| ModernApp.ModernDownloader.AddSelected | youtube-download-gui-modern.py:1590-1612 | one iteration appends the item of the next selected index |
| ModernApp.EmptyPlaylistAddsNothing | youtube-download-gui-modern.py:1582-1588 | no selection or no entries gives no items |
| FinalQueue.NewFinalItem | youtube-downloader-final.py:400-407 | the appended dictionary: the url, format and path given, `Queued`, progress 0, title `Unknown` |
| FinalQueue.Label | youtube-downloader-final.py:436-441 | the label has at most 53 characters and starts with the first 50 characters of the url (title `Unknown`) or of the title; a text of at most 50 characters is shown whole, a longer one is cut to 50 and ends in `...` |
| FinalQueue.ProgressSuffix | youtube-downloader-final.py:446-447 | the `(<p>%)` suffix is empty exactly at progress 0 |
| FinalQueue.DisplayLabel | youtube-downloader-final.py:436-445 | the display text starts with the shortened label |
| FinalQueue.DisplayProgress | youtube-downloader-final.py:445-447 | the text ends in `)` exactly when progress is positive; it then ends in ` (<p>%)`, and otherwise in the status |
| FinalQueue.DeleteAt | youtube-downloader-final.py:342-343 | `del q[i]` drops one item |
| FinalQueue.WithoutFromAgree | youtube-downloader-final.py:334-346 | deleting by the same set of indices gives the same list |
| FinalQueue.WithoutFromLength | youtube-downloader-final.py:334-346 | deletions above `x` keep position `x` |
| FinalQueue.DeleteBelow | youtube-downloader-final.py:342-343 | deleting `x` after deleting only larger indices is deleting `x` with them, so the reversed loop removes exactly the selected indices |
| FinalQueue.AscendingRoom | youtube-downloader-final.py:336 | an ascending in-range selection leaves room for its larger indices |
| FinalQueue.ElemsStep | youtube-downloader-final.py:342 | each turn of the reversed loop adds one index to the deleted set |
| FinalQueue.Swap | youtube-downloader-final.py:355-356 | the two positions trade items and every other position is unchanged |
| FinalQueue.SwapPermutes | youtube-downloader-final.py:355-356 | a swap is a permutation |
| FinalQueue.SwapTwice | youtube-downloader-final.py:355-356 | swapping twice restores the list |
| FinalQueue.MovedUp | youtube-downloader-final.py:348-359 | no selection or the top item changes nothing; otherwise the first selected item swaps with the one above; a permutation of the same length |
| FinalQueue.MovedDown | youtube-downloader-final.py:361-372 | no selection or the last item changes nothing; otherwise the first selected item swaps with the one below; a permutation of the same length |
| FinalQueue.MoveUpThenDown | youtube-downloader-final.py:348-372 | moving an item up and then down restores the list |
| FinalQueue.MoveDownThenUp | youtube-downloader-final.py:348-372 | moving an item down and then up restores the list |
| FinalQueue.Halt | youtube-downloader-final.py:615-619 | `stop_downloads` sets the stop event and clears `is_downloading` |
| FinalQueue.Range | youtube-downloader-final.py:478 | `list(range(n))` |
| FinalQueue.StartPlan | youtube-downloader-final.py:452-478 | the guards refuse an empty queue, a running download unless immediate, or no yt-dlp; otherwise the snapshot is the selection or `range(len)`, and an empty selection in selected-only mode stops there |
| FinalQueue.StartState | youtube-downloader-final.py:466-476 | a refusal changes nothing; otherwise the stop event is cleared and `is_downloading` is left set exactly when the worker starts |
| FinalQueue.Finish | youtube-downloader-final.py:516-520 | success gives `Completed` with progress 100, and failure gives `Failed` with the transfer's progress |
| FinalQueue.WithProgress | youtube-downloader-final.py:603 | only the item's progress changes |
| FinalQueue.Step | youtube-downloader-final.py:501-522 | an out-of-range or non-`Queued` index changes no item; a `Queued` one is finished by its transfer; the stop event is set exactly when a stop came inside the step |
| FinalQueue.Work | youtube-downloader-final.py:490-526 | the worker keeps the length and ends with `is_downloading` cleared |
| FinalQueue.WorkKeepsOthers | youtube-downloader-final.py:501-507 | a non-`Queued` item, or one no later step names, is left untouched |
| FinalQueue.WorkUntouched | youtube-downloader-final.py:497-507 | an item named by no step before the worker ends is left untouched |
| FinalQueue.WorkKeepsTidy | youtube-downloader-final.py:490-526 | if no item is `Downloading` and every `Completed` item shows 100 before the worker runs, the same holds after it; a `Failed` item keeps whatever progress the scrape last read, which may exceed 100 |
| FinalQueue.StepKeepsTidy | youtube-downloader-final.py:509-522 | one step keeps that invariant |
| FinalQueue.WorkStopFlag | youtube-downloader-final.py:497-499 | the stop event ends set exactly when a stop came during the worker's steps |
| FinalQueue.WorkHandles | youtube-downloader-final.py:497-522 | with distinct snapshot indices, each `Queued` item the worker reaches ends as its transfer finished it (a stop seen by the check at 577-579 makes it `Failed`); each index is handled once |
| FinalApp.FinalDownloader.constructor | youtube-downloader-final.py:25-67 | an empty queue, flags clear, and the yt-dlp path found at start-up |
| FinalApp.FinalDownloader.AddToQueue | youtube-downloader-final.py:384-415 | an empty or invalid entry changes nothing and answers its warning; a valid one appends NewFinalItem and clears the entry |
| FinalApp.FinalDownloader.ReadEntry | youtube-downloader-final.py:386-393 | the check is CheckEntry of the entry |
| FinalApp.FinalDownloader.Append | youtube-downloader-final.py:400-413 | one item at the end and a cleared entry |
| FinalApp.FinalDownloader.RemoveSelected | youtube-downloader-final.py:334-346 | the reversed delete loop removes exactly the selected indices, keeps the survivors' order and shortens the queue by the selection's size |
| FinalApp.FinalDownloader.MoveUp | youtube-downloader-final.py:348-359 | the queue becomes MovedUp of the old one |
| FinalApp.FinalDownloader.MoveDown | youtube-downloader-final.py:361-372 | the queue becomes MovedDown of the old one |
| FinalApp.FinalDownloader.ClearQueue | youtube-downloader-final.py:621-629 | refused while downloading, otherwise the queue is emptied |
| FinalApp.FinalDownloader.StopDownloads | youtube-downloader-final.py:615-619 | the new state is Halt of the old |
| FinalApp.FinalDownloader.DownloadWithYtdlp | youtube-downloader-final.py:534-613 | the result and the item's progress are those of Transfer, with a stop seen during the run halting the downloader |
| FinalApp.FinalDownloader.MonitorLoop | youtube-downloader-final.py:576-609 | the read loop ends with Monitor's outcome from the first check |
| FinalApp.FinalDownloader.CheckStop | youtube-downloader-final.py:577-579 | the check fails when the stop event is set or the user's stop lands now |
| FinalApp.FinalDownloader.ReadLine | youtube-downloader-final.py:600-604 | one line sets the progress to its scrape |
| FinalApp.FinalDownloader.DownloadWorker | youtube-downloader-final.py:490-532 | the loop over the snapshot ends in the state Work computes |
| FinalApp.FinalDownloader.HandleItem | youtube-downloader-final.py:509-522 | the body for a `Queued` item gives the state Step computes |
| FinalApp.FinalDownloader.StartDownloads | youtube-downloader-final.py:452-488 | the state StartPlan and StartState decide, then Work over the snapshot when started |
| FinalApp.WithoutNothing | youtube-downloader-final.py:334-346 | deleting no index changes nothing |
| StandaloneQueue.NewItem | youtube-downloader-standalone.py:226-230 | the appended dictionary: the url, `Queued`, progress 0 |
| StandaloneQueue.NewItems | youtube-downloader-standalone.py:226-230 | one item per url |
| StandaloneQueue.NewItemsAt | youtube-downloader-standalone.py:226-230 | item `k` is the new item of url `k` |
| StandaloneQueue.DisplayLineNumber | youtube-downloader-standalone.py:253-261 | the line starts with the numeral of `i + 1` followed by `. ` and ends with `%)` |
| StandaloneQueue.LeadingNumber | youtube-downloader-standalone.py:260 | a numeral followed by `. ` is read back as its number |
| StandaloneQueue.DisplayLinesDiffer | youtube-downloader-standalone.py:256-261 | lines for different positions differ |
| StandaloneQueue.Halt | youtube-downloader-standalone.py:364-368 | `stop_downloads` sets the stop event and clears `is_downloading` |
| StandaloneQueue.StartCheck | youtube-downloader-standalone.py:263-278 | refusal on an empty queue, a running download or no yt-dlp, in that order; no refusal exactly otherwise |
| StandaloneQueue.Finish | youtube-downloader-standalone.py:304-308 | success gives `Completed` with progress 100, and failure gives `Failed` with the transfer's progress |
| StandaloneQueue.WithProgress | youtube-downloader-standalone.py:355 | only the item's progress changes |
| StandaloneQueue.Step | youtube-downloader-standalone.py:292-310 | one step of the worker keeps the length of the live list |
| StandaloneQueue.StepOutcome | youtube-downloader-standalone.py:292-310 | a non-`Queued` item is skipped; a `Queued` one is finished by its transfer, so a stop inside it (seen at 342-344) makes it `Failed`; only that item changes; the stop event is set exactly when a stop came inside the step |
| StandaloneQueue.StepHandles | youtube-downloader-standalone.py:292-310 | without a stop, the step leaves its item no longer `Queued` and the stop event clear |
| StandaloneQueue.Work | youtube-downloader-standalone.py:286-318 | the live list never shrinks, and the worker ends with `is_downloading` cleared |
| StandaloneQueue.TidyAppend | youtube-downloader-standalone.py:226-230 | appending new items keeps the invariant |
| StandaloneQueue.WorkKeepsTidy | youtube-downloader-standalone.py:286-318 | if no item is `Downloading` and every `Completed` item shows 100 before the worker runs, the same holds after it, whatever arrives mid-run; a `Failed` item keeps whatever progress the scrape last read |
| StandaloneQueue.WorkDrainsQueue | youtube-downloader-standalone.py:289-310 | without a stop, every item from the start position of the grown list, including those appended mid-run, ends handled, and the stop event stays clear |
| StandaloneQueue.WorkKeepsPrefix | youtube-downloader-standalone.py:289 | the worker never touches an index it has passed |
| StandaloneQueue.WorkStopsOnlyOnRequest | youtube-downloader-standalone.py:290-291 | the stop event ends set only when it was set before or a stop came |
| StandaloneQueue.StoppedWorkerDoesNothing | youtube-downloader-standalone.py:290-291 | a worker that starts stopped breaks at once and changes no item |
| StandaloneQueue.WorkStopFlag | youtube-downloader-standalone.py:290-291 | starting clear, the stop event ends set exactly when the user's stop falls on a step the worker reaches, from the start position to the end of the grown list |
| StandaloneQueue.WorkUntouched | youtube-downloader-standalone.py:290-291 | the break: once a stop lands at a reached step, every item after that step is left as it was |
| StandaloneQueue.WorkKeepsOthers | youtube-downloader-standalone.py:293-294 | over the whole run, an item that is not `Queued` is left as it was |
| StandaloneApp.StandaloneDownloader.constructor | youtube-downloader-standalone.py:27-65 | an empty queue, flags clear, and the yt-dlp path found at start-up |
| StandaloneApp.StandaloneDownloader.AddToQueue | youtube-downloader-standalone.py:214-238 | an empty or invalid entry changes nothing and answers its warning; a valid one appends one `Queued` item with progress 0 and clears the entry |
| StandaloneApp.StandaloneDownloader.ReadEntry | youtube-downloader-standalone.py:216-223 | the check is CheckEntry of the entry |
| StandaloneApp.StandaloneDownloader.Append | youtube-downloader-standalone.py:226-236 | one item at the end and a cleared entry |
| StandaloneApp.StandaloneDownloader.ClearQueue | youtube-downloader-standalone.py:370-378 | refused while downloading, otherwise the queue is emptied |
| StandaloneApp.StandaloneDownloader.StopDownloads | youtube-downloader-standalone.py:364-368 | the new state is Halt of the old |
| StandaloneApp.StandaloneDownloader.StartDownloads | youtube-downloader-standalone.py:263-284 | StartCheck's refusal changes nothing; otherwise the flags are set and the worker runs to Work |
| StandaloneApp.StandaloneDownloader.Arrive | youtube-downloader-standalone.py:226 | the urls added while the worker runs are appended |
| StandaloneApp.StandaloneDownloader.DownloadWorker | youtube-downloader-standalone.py:286-318 | the loop over the live list ends in the state Work computes |
| StandaloneApp.StandaloneDownloader.Visit | youtube-downloader-standalone.py:289-310 | one pass keeps the worker's target and makes progress |
| StandaloneApp.StandaloneDownloader.HandleItem | youtube-downloader-standalone.py:297-310 | the body for a `Queued` item gives the state Step computes |
| StandaloneApp.StandaloneDownloader.DownloadWithYtdlp | youtube-downloader-standalone.py:320-362 | the result and the item's progress are those of Transfer, with a stop seen during the run halting the downloader |
| StandaloneApp.StandaloneDownloader.MonitorLoop | youtube-downloader-standalone.py:341-358 | the read loop ends with Monitor's outcome from the first check |
| StandaloneApp.StandaloneDownloader.CheckStop | youtube-downloader-standalone.py:342-344 | the check fails when the stop event is set or the user's stop lands now |
| StandaloneApp.StandaloneDownloader.ReadLine | youtube-downloader-standalone.py:351-355 | one line sets the progress to its scrape |

## Left out

- Threads: `threading.Thread`, daemon threads, the 0.5 s polling wait of `_process_queue` and the per-download `stop_events` are left out. Each transfer is one atomic step, and a press of Stop lands at one of a few named points of one step.
- The queue display of the modern GUI (`update_queue_display`, 810-818) is left out. It is a widget refresh over a truncated title.
- Concurrent mutation beyond appends is left out. This covers a `clear_queue`, `remove_selected` or move made while a worker runs, and a second worker started with `immediate=True`. Only appends made while a loop runs are modelled, as arrivals.
- yt-dlp, ffmpeg and `subprocess.Popen` are foreign calls. Their behaviour is a parameter: the transfer outcome in the modern GUI, and stdout lines plus the exit code in the subprocess variants. Exceptions they raise count as a failed transfer.
- `progress_hook` is left out, because its progress and speed are floating point. In the line scrape, `int(float(m))` is modelled as the integer part of the decimal numeral.
- YtdlpCli.ProgressValue: the integer part differs from Python's `int(float(m))` in two cases. A numeral with more digits than a double holds is rounded first, so `99.99999999999999999%` gives 100 in the source and 99 in the model. A numeral of 309 or more integer digits reads as infinity, `int` raises `OverflowError`, and the handler at youtube-downloader-final.py:611-613 (youtube-downloader-standalone.py:360-362) fails the transfer; the model records the huge number as the progress instead.
- `unicodedata.normalize('NFKD')` is a library call and is not modelled. The ASCII encode/decode is modelled as dropping characters above 127.
- Python's `\w`, `\s`, `isalnum` and `isdigit` are read on ASCII characters only.
- `os.path.join` and the output template are left out, because path separators are platform dependent. The template is a parameter of the command builders.
- The `Destination:` title scrape of the final variant (587-595) is left out, because it depends on `os.path.basename`/`splitext`. Final items keep the title they were appended with.
- Message boxes, status labels, buttons, `root.after`, config load/save, theme, settings and clipboard monitoring are left out. Warnings are returned as `EntryCheck`, `StartRefusal` or `Plan` values.
- `get_ffmpeg_path`, `setup_ytdlp` and `download_ytdlp` probe or change the file system. The yt-dlp path is a constructor parameter, and the empty string means none was found.
- The parse threads (`_parse_video_thread`, `_parse_playlist_thread`) are left out. A missing `video_info` is `None` for `add_to_queue` and `start_download`.
- ModernQueue.NewItem: the `video_info` and `available_formats` copies stored in the entry are not modelled.
- ModernUrls.IsPlaylistUrl: only its structure is stated (empty input is false, and its pattern rejects video urls). Its regular expressions are hand-written recognisers that the structure lemmas and a few concrete url lemmas constrain.
- ModernUrls.IsYoutubeVideoUrl: the same holds for the three video patterns with their `(?!list=)` lookahead.
- ModernText.FormatDuration: takes a `nat` number of seconds. The source accepts any truthy value yt-dlp reports (callers at 729-730 and 1534-1535). A float duration makes the `:02d` format raise `ValueError` (1372-1375), and a negative integer is floor-divided. Neither case is modelled.
- ModernQueue.RunJob: a job that sees a cancel writes nothing, and that is the only cancelled outcome modelled. The source can also raise an exception before its cancel check at 1033, from `os.makedirs` (950) or the `InterruptibleYoutubeDL` constructor (1028). The handler at 1053-1057 then writes `Error` even when `cancel_requested` is set. Such an exception is not modelled. So `ModernApp.ModernDownloader.RunItemJob` and `ModernQueue.StuckDownloading` do not cover it: on that path the cancelled item ends `Error` rather than stuck at `Downloading`.
