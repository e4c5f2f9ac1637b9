/** The pure string builders of the modern GUI: `sanitize_filename`, the
    file-name, quality-tag, video-id and format-selector construction at the
    start of `_download_item_thread`, `get_format_selector`, `format_duration`
    and the `get_status_icon` table. */
module ModernText {
  import opened Text

  // ---------------------------------------------------------------------------
  // Generic rewrites
  // ---------------------------------------------------------------------------

  /** `s.replace(c, rep)`. */
  function ReplaceChar(s: string, c: char, rep: char): (r: string)
    ensures |r| == |s|
  {
    seq(|s|, k requires 0 <= k < |s| => if s[k] == c then rep else s[k])
  }

  /** Every character of `cs` replaced by `rep`, everything else kept. */
  function ReplaceAny(s: string, cs: string, rep: char): (r: string)
    ensures |r| == |s|
  {
    seq(|s|, k requires 0 <= k < |s| => if s[k] in cs then rep else s[k])
  }

  /** `for c in cs: s = s.replace(c, rep)`, the loop as written. */
  function ReplaceEach(s: string, cs: string, rep: char): string
    decreases |cs|
  {
    if |cs| == 0 then s else ReplaceEach(ReplaceChar(s, cs[0], rep), cs[1..], rep)
  }

  /** For a replacement character outside `cs` the loop replaces exactly the
      characters of `cs`. */
  lemma {:induction false} ReplaceEachIsReplaceAny(s: string, cs: string, rep: char)
    requires rep !in cs
    ensures ReplaceEach(s, cs, rep) == ReplaceAny(s, cs, rep)
    decreases |cs|
  {
    if |cs| > 0 {
      var t := ReplaceChar(s, cs[0], rep);
      ReplaceEachIsReplaceAny(t, cs[1..], rep);
      assert ReplaceAny(t, cs[1..], rep) == ReplaceAny(s, cs, rep);
    }
  }

  predicate NoDouble(s: string, rep: char) {
    forall k :: 0 <= k < |s| - 1 ==> !(s[k] == rep && s[k + 1] == rep)
  }

  /** `re.sub(r'[...]+', rep, s)`: every maximal run of separator characters
      becomes one `rep`. Scanning from the left, a separator extends the current
      run exactly when the text produced so far ends with `rep`, because a `rep`
      can only have come from a run. */
  function CollapseRuns(s: string, sep: char -> bool, rep: char): (r: string)
    requires sep(rep)
    ensures |r| <= |s| && (|s| > 0 ==> |r| > 0)
    ensures NoDouble(r, rep)
    decreases |s|
  {
    if |s| == 0 then ""
    else
      var p := CollapseRuns(s[..|s| - 1], sep, rep);
      var c := s[|s| - 1];
      if sep(c) then (if |p| > 0 && p[|p| - 1] == rep then p else p + [rep])
      else p + [c]
  }

  /** A property held by `rep` and by every non-separator of `s` holds for
      every character of the result. */
  lemma {:induction false} CollapseRunsKeeps(s: string, sep: char -> bool, rep: char, P: char -> bool)
    requires sep(rep) && P(rep)
    requires forall k :: 0 <= k < |s| ==> P(s[k]) || sep(s[k])
    ensures forall k :: 0 <= k < |CollapseRuns(s, sep, rep)| ==> P(CollapseRuns(s, sep, rep)[k])
    decreases |s|
  {
    if |s| > 0 {
      var t := s[..|s| - 1];
      assert forall k :: 0 <= k < |t| ==> t[k] == s[k];
      CollapseRunsKeeps(t, sep, rep, P);
    }
  }

  /** A text already made of single separators `rep` and other characters is
      left alone. */
  lemma {:induction false} CollapseRunsFixed(s: string, sep: char -> bool, rep: char)
    requires sep(rep) && NoDouble(s, rep)
    requires forall k :: 0 <= k < |s| ==> sep(s[k]) ==> s[k] == rep
    ensures CollapseRuns(s, sep, rep) == s
    decreases |s|
  {
    if |s| > 0 {
      CollapseRunsFixed(s[..|s| - 1], sep, rep);
    }
  }

  /** `s.lstrip(c)` and `s.rstrip(c)` then `strip(c)`. */
  function LStripChar(s: string, c: char): (r: string)
    ensures |r| <= |s| && r == s[|s| - |r|..]
    ensures |r| > 0 ==> r[0] != c
    decreases |s|
  {
    if |s| > 0 && s[0] == c then LStripChar(s[1..], c) else s
  }

  function RStripChar(s: string, c: char): (r: string)
    ensures r <= s
    ensures |r| > 0 ==> r[|r| - 1] != c
    decreases |s|
  {
    if |s| > 0 && s[|s| - 1] == c then RStripChar(s[..|s| - 1], c) else s
  }

  function StripChar(s: string, c: char): (r: string)
    ensures exists i :: 0 <= i <= |s| - |r| && SliceAt(s, i, r)
    ensures |r| > 0 ==> r[0] != c && r[|r| - 1] != c
  {
    var t := RStripChar(s, c);
    var r := LStripChar(t, c);
    SuffixOfPrefix(s, t, r);
    r
  }

  /** A suffix of a prefix of `s` is a slice of `s`. */
  lemma SuffixOfPrefix(s: string, t: string, r: string)
    requires t <= s && |r| <= |t| && r == t[|t| - |r|..]
    ensures SliceAt(s, |t| - |r|, r)
  {
    assert t == s[..|t|];
  }

  predicate SliceAt(s: string, i: nat, r: string) {
    i + |r| <= |s| && r == s[i..i + |r|]
  }

  // ---------------------------------------------------------------------------
  // sanitize_filename
  // ---------------------------------------------------------------------------

  /** The characters `sanitize_filename` replaces with `_` in its loop. */
  const InvalidChars: string := "<>:\"/\\|?*()[]{}'`~!@#$%^&+=,;"

  /** Membership in InvalidChars, written out character by character. */
  predicate Invalid(c: char) {
    c == '<' || c == '>' || c == ':' || c == '\"' || c == '/' || c == '\\'
    || c == '|' || c == '?' || c == '*' || c == '(' || c == ')' || c == '['
    || c == ']' || c == '{' || c == '}' || c == '\'' || c == '`' || c == '~'
    || c == '!' || c == '@' || c == '#' || c == '$' || c == '%' || c == '^'
    || c == '&' || c == '+' || c == '=' || c == ',' || c == ';'
  }

  lemma InvalidCharsAre(c: char)
    ensures c in InvalidChars <==> Invalid(c)
  {
  }

  /** `[_\s\-]`: the characters whose runs collapse into one `_`. */
  predicate IsRunChar(c: char) {
    c == '_' || IsSpace(c) || c == '-'
  }

  /** What `sanitize_filename` guarantees of every character it returns. */
  predicate SafeChar(c: char) {
    !Invalid(c) && c != '.' && !IsSpace(c) && c != '-' && IsAscii(c)
  }

  predicate SafeText(s: string) {
    forall k :: 0 <= k < |s| ==> SafeChar(s[k])
  }

  /** `filename.encode('ascii', 'ignore').decode('ascii')`: non-ASCII
      characters are dropped. */
  function AsciiOnly(s: string): (r: string)
    ensures |r| <= |s|
    decreases |s|
  {
    if |s| == 0 then ""
    else AsciiOnly(s[..|s| - 1]) + (if IsAscii(s[|s| - 1]) then [s[|s| - 1]] else [])
  }

  /** Only ASCII characters are kept. */
  lemma {:induction false} AsciiOnlyIsAscii(s: string)
    ensures forall k :: 0 <= k < |AsciiOnly(s)| ==> IsAscii(AsciiOnly(s)[k])
    decreases |s|
  {
    if |s| > 0 {
      AsciiOnlyIsAscii(s[..|s| - 1]);
    }
  }

  /** An all-ASCII text is kept whole. */
  lemma {:induction false} AsciiOnlyKeepsAscii(s: string)
    requires forall k :: 0 <= k < |s| ==> IsAscii(s[k])
    ensures AsciiOnly(s) == s
    decreases |s|
  {
    if |s| > 0 {
      var t := s[..|s| - 1];
      forall k | 0 <= k < |t| ensures IsAscii(t[k]) {
        assert t[k] == s[k];
      }
      AsciiOnlyKeepsAscii(t);
      assert s == t + [s[|s| - 1]];
    }
  }

  /** The body of `sanitize_filename` before its length cut. */
  function SanitizeStem(s: string): string {
    var a := AsciiOnly(s);
    var b := ReplaceAny(a, InvalidChars, '_');
    var c := ReplaceChar(b, '.', '_');
    var d := CollapseRuns(c, IsRunChar, '_');
    Strip(StripChar(d, '_'))
  }

  /** `sanitize_filename`, from the ASCII step on. */
  function SanitizeFilename(s: string): string {
    FinishName(SanitizeStem(s))
  }

  /** The length cut and the guard against an empty or all-digit name. */
  function FinishName(t: string): string {
    var f := Take(t, 80);
    if |f| == 0 || IsDecimal(f) then (if |f| > 0 then "video_" + f else "video") else f
  }

  lemma SliceKeeps(s: string, i: nat, r: string)
    requires SliceAt(s, i, r)
    requires SafeText(s) && NoDouble(s, '_')
    ensures SafeText(r) && NoDouble(r, '_')
  {
    SliceKeepsChars(s, i, r, SafeChar, '_');
  }

  /** A slice keeps a property of every character and a ban on doubled `rep`. */
  lemma SliceKeepsChars(s: string, i: nat, r: string, P: char -> bool, rep: char)
    requires SliceAt(s, i, r)
    requires (forall k :: 0 <= k < |s| ==> P(s[k])) && NoDouble(s, rep)
    ensures (forall k :: 0 <= k < |r| ==> P(r[k])) && NoDouble(r, rep)
  {
    forall k | 0 <= k < |r| ensures P(r[k]) {
      assert r[k] == s[i + k];
    }
    forall k | 0 <= k < |r| - 1 ensures !(r[k] == rep && r[k + 1] == rep) {
      assert r[k] == s[i + k] && r[k + 1] == s[i + k + 1];
    }
  }

  /** After the replacement loop and the dot rewrite no invalid character and
      no dot is left, and every character is ASCII. */
  lemma ReplacedIsClean(a: string)
    requires forall k :: 0 <= k < |a| ==> IsAscii(a[k])
    ensures var c := ReplaceChar(ReplaceAny(a, InvalidChars, '_'), '.', '_');
      forall k :: 0 <= k < |c| ==> !Invalid(c[k]) && c[k] != '.' && IsAscii(c[k])
  {
    forall k | 0 <= k < |a| {
      InvalidCharsAre(a[k]);
    }
  }

  /** Collapsing the runs of a clean text leaves a safe text without `__`. */
  lemma CollapsedIsSafe(c: string)
    requires forall k :: 0 <= k < |c| ==> !Invalid(c[k]) && c[k] != '.' && IsAscii(c[k])
    ensures var d := CollapseRuns(c, IsRunChar, '_');
      SafeText(d) && NoDouble(d, '_')
  {
    assert forall k :: 0 <= k < |c| ==> SafeChar(c[k]) || IsRunChar(c[k]);
    CollapseRunsKeeps(c, IsRunChar, '_', SafeChar);
  }

  /** Stripping `_` and then whitespace from a safe text without `__` leaves a
      safe text without `__` that neither starts nor ends with `_`. */
  lemma StrippedIsSafe(d: string)
    requires SafeText(d) && NoDouble(d, '_')
    ensures var t := Strip(StripChar(d, '_'));
      SafeText(t) && NoDouble(t, '_') && (|t| > 0 ==> t[0] != '_' && t[|t| - 1] != '_')
  {
    var e := StripChar(d, '_');
    var i :| 0 <= i <= |d| - |e| && SliceAt(d, i, e);
    SliceKeeps(d, i, e);
    StripOfNoSpace(e);
  }

  /** The stem is a safe text without `__` that neither starts nor ends with
      `_`. */
  lemma StemIsSafe(s: string)
    ensures var t := SanitizeStem(s);
      SafeText(t) && NoDouble(t, '_') && (|t| > 0 ==> t[0] != '_' && t[|t| - 1] != '_')
  {
    var a := AsciiOnly(s);
    AsciiOnlyIsAscii(s);
    ReplacedIsClean(a);
    var c := ReplaceChar(ReplaceAny(a, InvalidChars, '_'), '.', '_');
    CollapsedIsSafe(c);
    StrippedIsSafe(CollapseRuns(c, IsRunChar, '_'));
  }

  /** The `video_` prefix in front of a number keeps every promise. */
  lemma PrefixedNumberIsSafe(f: string)
    requires IsDecimal(f) && SafeText(f)
    ensures var r := "video_" + f;
      !IsDecimal(r) && SafeText(r) && NoDouble(r, '_') && r[0] != '_'
  {
    var r := "video_" + f;
    assert !IsDigit(r[0]);
    forall k | 0 <= k < |r| ensures SafeChar(r[k]) {
      if k >= 6 { assert r[k] == f[k - 6]; }
    }
    forall k | 0 <= k < |r| - 1 ensures !(r[k] == '_' && r[k + 1] == '_') {
      if k >= 6 { assert r[k + 1] == f[k - 5]; }
      else if k == 5 { assert r[k + 1] == f[0]; }
    }
  }

  /** The cut and the guard keep the stem's safety and add the rest. */
  lemma FinishNameSafe(t: string)
    requires SafeText(t) && NoDouble(t, '_') && (|t| > 0 ==> t[0] != '_')
    ensures var r := FinishName(t);
      && |r| > 0 && !IsDecimal(r) && |r| <= 86
      && SafeText(r) && NoDouble(r, '_') && r[0] != '_'
  {
    var f := Take(t, 80);
    SliceKeeps(t, 0, f);
    if |f| == 0 {
      FallbackNameSafe();
    } else if IsDecimal(f) {
      PrefixedNumberIsSafe(f);
    } else {
      assert FinishName(t) == f && f[0] == t[0];
    }
  }

  /** The fixed name `video` used for an empty stem. */
  lemma FallbackNameSafe()
    ensures !IsDecimal("video") && SafeText("video") && NoDouble("video", '_')
  {
    var v := "video";
    assert !IsDigit(v[0]);
    assert forall k :: 0 <= k < |v| ==> v[k] != '_';
    assert SafeText(v) by {
      forall k | 0 <= k < |v| ensures SafeChar(v[k]) {
        assert IsLetter(v[k]);
      }
    }
  }

  /** Everything `sanitize_filename` promises: a non-empty name that is not
      all digits, made of characters safe on every file system, without `__`,
      not starting with `_` and at most 86 characters long (80 plus the
      `video_` prefix). */
  lemma SanitizeFilenameSafe(s: string)
    ensures var r := SanitizeFilename(s);
      && |r| > 0 && !IsDecimal(r) && |r| <= 86
      && SafeText(r) && NoDouble(r, '_') && r[0] != '_'
  {
    StemIsSafe(s);
    FinishNameSafe(SanitizeStem(s));
  }

  /** A sanitised name of at most 80 characters that does not end in `_` is a
      fixed point: sanitising it again changes nothing. (The cut to 80 can
      leave a trailing `_`, which a second pass strips.) */
  lemma SanitizeFilenameFixed(s: string)
    ensures var r := SanitizeFilename(s);
      (|r| <= 80 && r[|r| - 1] != '_') ==> SanitizeFilename(r) == r
  {
    SanitizeFilenameSafe(s);
    var r := SanitizeFilename(s);
    if |r| <= 80 && r[|r| - 1] != '_' {
      SafeNameFixed(r);
    }
  }

  /** A safe name of at most 80 characters, not all digits and without `_` at
      either end, is left as it is. */
  lemma SafeNameFixed(r: string)
    requires SafeText(r) && NoDouble(r, '_') && 0 < |r| <= 80 && !IsDecimal(r)
    requires r[0] != '_' && r[|r| - 1] != '_'
    ensures SanitizeFilename(r) == r
  {
    SafeTextIsStem(r);
    ShortNameFinished(r);
  }

  lemma ShortNameFinished(r: string)
    requires 0 < |r| <= 80 && !IsDecimal(r)
    ensures FinishName(r) == r
  {
    assert Take(r, 80) == r;
  }

  /** A safe text without `__` that does not start or end with `_` survives
      every rewrite of the stem. */
  lemma SafeTextIsStem(r: string)
    requires SafeText(r) && NoDouble(r, '_') && |r| > 0 && r[0] != '_' && r[|r| - 1] != '_'
    ensures SanitizeStem(r) == r
  {
    AsciiOnlyKeepsAscii(r);
    var b := ReplaceAny(r, InvalidChars, '_');
    forall k | 0 <= k < |r| {
      InvalidCharsAre(r[k]);
    }
    assert b == r;
    var c := ReplaceChar(b, '.', '_');
    assert c == r;
    CollapseRunsFixed(r, IsRunChar, '_');
    assert RStripChar(r, '_') == r;
    assert LStripChar(r, '_') == r;
    assert StripChar(r, '_') == r;
    StripOfNoSpace(r);
  }

  // ---------------------------------------------------------------------------
  // The file name built in _download_item_thread
  // ---------------------------------------------------------------------------

  /** The characters the title filter keeps: `c.isalnum() or c in (' ', '-', '_')`. */
  predicate TitleChar(c: char) {
    IsAlnum(c) || c == ' ' || c == '-' || c == '_'
  }

  function KeepTitleChars(s: string): (r: string)
    ensures |r| <= |s|
    decreases |s|
  {
    if |s| == 0 then ""
    else KeepTitleChars(s[..|s| - 1]) + (if TitleChar(s[|s| - 1]) then [s[|s| - 1]] else [])
  }

  /** Only title characters are kept, and a text of title characters is kept
      whole. */
  lemma {:induction false} KeepTitleCharsChars(s: string)
    ensures forall k :: 0 <= k < |KeepTitleChars(s)| ==> TitleChar(KeepTitleChars(s)[k])
    ensures (forall k :: 0 <= k < |s| ==> TitleChar(s[k])) ==> KeepTitleChars(s) == s
    decreases |s|
  {
    if |s| > 0 {
      var t := s[..|s| - 1];
      KeepTitleCharsChars(t);
      if forall k :: 0 <= k < |s| ==> TitleChar(s[k]) {
        assert forall k :: 0 <= k < |t| ==> TitleChar(t[k]) by {
          forall k | 0 <= k < |t| ensures TitleChar(t[k]) {
            assert t[k] == s[k];
          }
        }
        assert s == t + [s[|s| - 1]];
      }
    }
  }

  /** `safe_title`: the filtered title, right-stripped, whitespace runs
      collapsed to one space, then stripped. */
  function SafeTitle(title: string): string {
    Strip(CollapseRuns(RStrip(KeepTitleChars(title)), IsSpace, ' '))
  }

  /** A safe title is made of kept characters, has no two spaces in a row and
      no space at either end. */
  lemma SafeTitleShape(title: string)
    ensures var t := SafeTitle(title);
      && (forall k :: 0 <= k < |t| ==> TitleChar(t[k]))
      && NoDouble(t, ' ') && NoSpaceAtStart(t) && NoSpaceAtEnd(t)
  {
    var c := CollapseRuns(RStrip(KeepTitleChars(title)), IsSpace, ' ');
    CollapsedTitleChars(title);
    var t := Strip(c);
    StripSlice(c);
    var i :| StrippedAt(c, i, t);
    SliceKeepsChars(c, i, t, TitleChar, ' ');
  }

  predicate TitleText(s: string) {
    forall k :: 0 <= k < |s| ==> TitleChar(s[k])
  }

  /** Before the final strip, a safe title is already made of kept characters. */
  lemma CollapsedTitleChars(title: string)
    ensures TitleText(CollapseRuns(RStrip(KeepTitleChars(title)), IsSpace, ' '))
  {
    KeepTitleCharsChars(title);
    var a := RStrip(KeepTitleChars(title));
    assert forall k :: 0 <= k < |a| ==> TitleChar(a[k]);
    CollapseRunsKeeps(a, IsSpace, ' ', TitleChar);
  }

  /** Sanitising a safe title again changes nothing. */
  lemma SafeTitleIdempotent(title: string)
    ensures SafeTitle(SafeTitle(title)) == SafeTitle(title)
  {
    SafeTitleShape(title);
    SafeTitleFixed(SafeTitle(title));
  }

  lemma SafeTitleFixed(t: string)
    requires forall k :: 0 <= k < |t| ==> TitleChar(t[k])
    requires NoDouble(t, ' ') && NoSpaceAtStart(t) && NoSpaceAtEnd(t)
    ensures SafeTitle(t) == t
  {
    KeepTitleCharsChars(t);
    assert KeepTitleChars(t) == t;
    assert RStrip(t) == t;
    forall k | 0 <= k < |t| ensures IsSpace(t[k]) ==> t[k] == ' ' {
      assert TitleChar(t[k]);
    }
    CollapseRunsFixed(t, IsSpace, ' ');
    StripOfTrimmed(t);
  }

  /** `quality_tag`. */
  function QualityTag(quality: string, isMp3: bool): string {
    if quality == "best" then "Best" else if isMp3 then quality + "kbps" else quality + "p"
  }

  /** Only `best` gets the tag `Best`. */
  lemma BestTagOnlyForBest(quality: string, isMp3: bool)
    ensures QualityTag(quality, isMp3) == "Best" <==> quality == "best"
  {
    var t := QualityTag(quality, isMp3);
    if quality != "best" {
      assert t[|t| - 1] != 't';
    }
  }

  /** For one download type, different qualities get different tags. */
  lemma QualityTagInjective(q1: string, q2: string, isMp3: bool)
    requires QualityTag(q1, isMp3) == QualityTag(q2, isMp3)
    ensures q1 == q2
  {
    var t := QualityTag(q1, isMp3);
    BestTagOnlyForBest(q1, isMp3);
    BestTagOnlyForBest(q2, isMp3);
    if q1 != "best" && q2 != "best" {
      var n := if isMp3 then 4 else 1;
      assert q1 == t[..|t| - n] == q2;
    }
  }

  predicate IdRunAt(u: string, i: nat, n: nat) {
    i + n <= |u| && forall k :: i <= k < i + n ==> IsIdChar(u[k])
  }

  /** `(?:v=|/)([a-zA-Z0-9_-]{11})` matches at position `q`. */
  predicate VideoIdAt(u: string, q: nat) {
    (At(u, q, "v=") && IdRunAt(u, q + 2, 11)) || (q < |u| && u[q] == '/' && IdRunAt(u, q + 1, 11))
  }

  /** The group of the match at `q`; the `v=` alternative is tried first. */
  function VideoIdGroup(u: string, q: nat): (r: string)
    requires VideoIdAt(u, q)
    ensures |r| == 11 && forall k :: 0 <= k < 11 ==> IsIdChar(r[k])
  {
    if At(u, q, "v=") && IdRunAt(u, q + 2, 11) then u[q + 2..q + 13] else u[q + 1..q + 12]
  }

  /** `video_id`: the group of the leftmost match, or `unknown`. */
  function VideoId(u: string): (r: string)
    ensures r == "unknown" <==> forall q: nat :: q <= |u| ==> !VideoIdAt(u, q)
    ensures r != "unknown" ==> exists q :: 0 <= q <= |u| && VideoIdAt(u, q) && r == VideoIdGroup(u, q)
  {
    var m := (q: nat) => VideoIdAt(u, q);
    var f := FirstFrom(|u|, 0, m);
    if f.Some? then
      assert m(f.value);
      assert VideoIdAt(u, f.value);
      VideoIdGroup(u, f.value)
    else
      assert forall q: nat :: m(q) == VideoIdAt(u, q);
      "unknown"
  }

  /** The leftmost match decides the id. */
  lemma VideoIdIsLeftmost(u: string, q: nat)
    requires VideoIdAt(u, q)
    requires forall j :: 0 <= j < q ==> !VideoIdAt(u, j)
    ensures VideoId(u) == VideoIdGroup(u, q)
  {
    var m := (j: nat) => VideoIdAt(u, j);
    assert m(q);
    assert forall j :: 0 <= j < q ==> !m(j);
    var f := FirstFrom(|u|, 0, m);
    assert f.Some? && f.value == q;
  }

  /** The id of a short link `https://youtu.be/<id>`. */
  lemma ShortLinkId(id: string)
    requires |id| == 11 && forall k :: 0 <= k < 11 ==> IsIdChar(id[k])
    ensures VideoId("https://youtu.be/" + id) == id
  {
    var u := "https://youtu.be/" + id;
    forall j | 0 <= j < 16 ensures !VideoIdAt(u, j) {
      assert u[j] != 'v';
      if j == 6 { assert !IsIdChar(u[7]); }
      if j == 7 { assert !IsIdChar(u[13]); }
    }
    assert VideoIdAt(u, 16) by {
      assert forall k :: 17 <= k < 28 ==> u[k] == id[k - 17];
    }
    VideoIdIsLeftmost(u, 16);
  }

  const WatchPrefix: string := "https://www.youtube.com/watch?v="

  lemma WatchPrefixChars()
    ensures |WatchPrefix| == 32
    ensures forall j :: 0 <= j < 30 && j != 6 && j != 7 && j != 23 ==> WatchPrefix[j] != 'v' && WatchPrefix[j] != '/'
    ensures WatchPrefix[7] == '/' && WatchPrefix[11] == '.' && WatchPrefix[29] == '?'
    ensures WatchPrefix[30..] == "v="
  {
  }

  /** The id of a watch link `https://www.youtube.com/watch?v=<id>...`, with
      anything after the id. */
  lemma WatchLinkId(id: string, rest: string)
    requires |id| == 11 && forall k :: 0 <= k < 11 ==> IsIdChar(id[k])
    ensures VideoId(WatchPrefix + id + rest) == id
  {
    var u := WatchPrefix + id + rest;
    WatchPrefixChars();
    assert forall k :: 0 <= k < 32 ==> u[k] == WatchPrefix[k];
    forall j | 0 <= j < 30 ensures !VideoIdAt(u, j) {
      if j == 6 { assert !IsIdChar(u[7]); }
      else if j == 7 { assert !IsIdChar(u[11]); }
      else if j == 23 { assert !IsIdChar(u[29]); }
      else { assert u[j] != 'v' && u[j] != '/'; }
    }
    assert VideoIdAt(u, 30) by {
      assert u[30..32] == "v=";
      assert forall k :: 32 <= k < 43 ==> u[k] == id[k - 32];
    }
    VideoIdIsLeftmost(u, 30);
    assert u[32..43] == id;
  }

  /** The title part: the first 25 characters of the safe title, right-stripped. */
  function TitlePart(safe: string): (r: string)
    ensures |r| <= 25 && r <= safe && NoSpaceAtEnd(r)
    ensures NoSpaceAtStart(safe) && |safe| > 0 ==> |r| > 0
  {
    var r := RStrip(Take(safe, 25));
    RStripDropsSpace(Take(safe, 25));
    assert |safe| > 0 ==> Take(safe, 25)[0] == safe[0];
    r
  }

  /** `simple_filename` for an item's title, quality tag and video id. */
  function SimpleFileName(title: string, tag: string, id: string): string {
    var safe := SafeTitle(title);
    if |safe| > 0 then TitlePart(safe) + " [" + tag + "] [" + id + "]" else tag + " [" + id + "]"
  }

  /** The name starts with a non-empty prefix of at most 25 characters of the
      safe title that does not end in whitespace, or with the tag alone when
      the safe title is empty. */
  lemma SimpleFileNameShape(title: string, tag: string, id: string)
    ensures var safe, r := SafeTitle(title), SimpleFileName(title, tag, id);
      && (|safe| > 0 ==> exists n :: 0 < n <= |safe| && n <= 25 && !IsSpace(safe[n - 1])
                            && r == safe[..n] + " [" + tag + "] [" + id + "]")
      && (|safe| == 0 ==> r == tag + " [" + id + "]")
  {
    var safe := SafeTitle(title);
    if |safe| > 0 {
      TitlePartShape(safe);
      var n := |TitlePart(safe)|;
      assert SimpleFileName(title, tag, id) == safe[..n] + " [" + tag + "] [" + id + "]";
    }
  }

  /** The title part of a safe title is a non-empty prefix of at most 25
      characters that does not end in whitespace. */
  lemma TitlePartShape(safe: string)
    requires |safe| > 0 && NoSpaceAtStart(safe)
    ensures var n := |TitlePart(safe)|;
      0 < n <= |safe| && n <= 25 && !IsSpace(safe[n - 1]) && TitlePart(safe) == safe[..n]
  {
  }

  // ---------------------------------------------------------------------------
  // Format selectors and audio quality
  // ---------------------------------------------------------------------------

  /** The selector `_download_item_thread` hands to yt-dlp. */
  function ThreadFormat(isMp3: bool, quality: string): string {
    if isMp3 then "bestaudio/best"
    else if quality == "best" then "bestvideo+bestaudio/best"
    else "bestvideo[height<=" + quality + "]+bestaudio/best[height<=" + quality + "]"
  }

  /** The height ceiling a selector of the third form states, read back from
      its first bracket. */
  function HeightCeiling(sel: string): (r: Option<string>)
    ensures r.Some? ==> IsDecimal(r.value)
  {
    var pre := "bestvideo[height<=";
    if StartsWith(sel, pre) then
      var n := RunLength(sel, |pre|, IsDigit);
      if n > 0 && |pre| + n < |sel| && sel[|pre| + n] == ']' then Some(sel[|pre|..|pre| + n]) else None
    else None
  }

  /** A numeric quality can be read back from the selector; the audio and
      `best` selectors state no ceiling. */
  lemma ThreadFormatCeiling(isMp3: bool, quality: string)
    ensures !isMp3 && IsDecimal(quality) ==> HeightCeiling(ThreadFormat(isMp3, quality)) == Some(quality)
    ensures isMp3 || quality == "best" ==> HeightCeiling(ThreadFormat(isMp3, quality)) == None
  {
    var sel := ThreadFormat(isMp3, quality);
    var pre := "bestvideo[height<=";
    if !isMp3 && IsDecimal(quality) {
      assert IsDigit(quality[0]) && quality[0] != "best"[0];
      var tail := "]+bestaudio/best[height<=" + quality + "]";
      assert sel == pre + quality + tail;
      CeilingOf(quality, tail);
    } else if !isMp3 && quality == "best" {
      assert !StartsWith(sel, pre) by {
        assert sel[9] == '+' && pre[9] == '[';
      }
    }
  }

  /** A digit string right after `bestvideo[height<=` and closed by `]` is the
      ceiling read back. */
  lemma CeilingOf(quality: string, tail: string)
    requires IsDecimal(quality) && |tail| > 0 && tail[0] == ']'
    ensures HeightCeiling("bestvideo[height<=" + quality + tail) == Some(quality)
  {
    var pre := "bestvideo[height<=";
    var sel := pre + quality + tail;
    assert sel[..18] == pre;
    assert forall k :: 18 <= k < 18 + |quality| ==> sel[k] == quality[k - 18];
    assert sel[18 + |quality|] == ']';
    RunLengthIs(sel, 18, IsDigit, |quality|);
    assert sel[18..18 + |quality|] == quality;
  }

  /** The mp3 `preferredquality`: the chosen value, with `best` meaning 192. */
  function AudioQuality(quality: string): (r: string)
    ensures r != "best"
    ensures quality != "best" ==> r == quality
    ensures IsDecimal(quality) || quality == "best" ==> IsDecimal(r)
  {
    if quality != "best" then quality else "192"
  }

  /** `get_format_selector`, an independent mapping of its own. */
  function GetFormatSelector(downloadType: string, quality: string): string {
    if downloadType == "mp3" then "bestaudio/best"
    else if quality == "best" then "best"
    else "best[height<=" + quality + "]/worst[height>=" + quality + "]/best/worst"
  }

  /** The two selector builders agree exactly on audio downloads. */
  lemma SelectorsAgreeOnlyForAudio(downloadType: string, quality: string)
    ensures GetFormatSelector(downloadType, quality) == ThreadFormat(downloadType == "mp3", quality)
        <==> downloadType == "mp3"
  {
    if downloadType != "mp3" {
      var g := GetFormatSelector(downloadType, quality);
      var t := ThreadFormat(false, quality);
      if quality != "best" {
        assert g[4] == '[' && t[4] == 'v';
      } else {
        assert |g| != |t|;
      }
    }
  }

  // ---------------------------------------------------------------------------
  // format_duration
  // ---------------------------------------------------------------------------

  /** `format_duration` on a whole number of seconds. */
  function FormatDuration(seconds: nat): string {
    if seconds == 0 then "Unknown"
    else
      var h := seconds / 3600;
      var m := (seconds % 3600) / 60;
      var s := seconds % 60;
      if h > 0 then NatToString(h) + ":" + Pad2(m) + ":" + Pad2(s)
      else NatToString(m) + ":" + Pad2(s)
  }

  /** The fields of a text between its colons. */
  function SplitColon(s: string): (r: seq<string>)
    ensures |r| >= 1
    decreases |s|
  {
    if |s| == 0 then [""]
    else
      var t := SplitColon(s[1..]);
      if s[0] == ':' then [""] + t else [[s[0]] + t[0]] + t[1..]
  }

  predicate NoColon(s: string) {
    forall k :: 0 <= k < |s| ==> s[k] != ':'
  }

  lemma {:induction false} SplitJoin(a: string, b: string)
    requires NoColon(a)
    ensures SplitColon(a + ":" + b) == [a] + SplitColon(b)
    decreases |a|
  {
    if |a| > 0 {
      assert (a + ":" + b)[1..] == a[1..] + ":" + b;
      SplitJoin(a[1..], b);
      assert [a[0]] + a[1..] == a;
    } else {
      assert (a + ":" + b)[1..] == b;
    }
  }

  lemma {:induction false} SplitNone(a: string)
    requires NoColon(a)
    ensures SplitColon(a) == [a]
    decreases |a|
  {
    if |a| > 0 {
      SplitNone(a[1..]);
      assert [a[0]] + a[1..] == a;
    }
  }

  /** Reads a `H:MM:SS` or `M:SS` text back into seconds. */
  function ParseDuration(r: string): Option<nat> {
    FieldsValue(SplitColon(r))
  }

  /** The seconds three or two decimal fields stand for. */
  function FieldsValue(f: seq<string>): Option<nat> {
    if |f| == 3 && IsDecimal(f[0]) && IsDecimal(f[1]) && IsDecimal(f[2]) then
      Some(DigitsValue(f[0]) * 3600 + DigitsValue(f[1]) * 60 + DigitsValue(f[2]))
    else if |f| == 2 && IsDecimal(f[0]) && IsDecimal(f[1]) then
      Some(DigitsValue(f[0]) * 60 + DigitsValue(f[1]))
    else None
  }

  lemma DigitsHaveNoColon(s: string)
    requires AllDigits(s)
    ensures NoColon(s)
  {
    assert forall k :: 0 <= k < |s| ==> s[k] != ':';
  }

  /** The hour, minute and second fields recombine to the duration. */
  lemma DurationFields(seconds: nat)
    ensures var h, m, s := seconds / 3600, (seconds % 3600) / 60, seconds % 60;
      h * 3600 + m * 60 + s == seconds && m < 60 && s < 60 && (h > 0 <==> seconds >= 3600)
  {
    var h, r := seconds / 3600, seconds % 3600;
    assert seconds == 3600 * h + r && 0 <= r < 3600;
    var m, s := r / 60, r % 60;
    assert r == 60 * m + s && 0 <= s < 60;
    assert m < 60;
    assert seconds == 60 * (60 * h + m) + s;
    ModSixty(seconds, 60 * h + m, s);
  }

  lemma ModSixty(x: nat, q: nat, s: nat)
    requires x == 60 * q + s && s < 60
    ensures x % 60 == s
  {
  }

  /** Three digit fields between colons split and parse back. */
  lemma ThreeFields(a: string, b: string, c: string)
    requires IsDecimal(a) && IsDecimal(b) && IsDecimal(c)
    ensures SplitColon(a + ":" + b + ":" + c) == [a, b, c]
    ensures ParseDuration(a + ":" + b + ":" + c) == Some(DigitsValue(a) * 3600 + DigitsValue(b) * 60 + DigitsValue(c))
  {
    DigitsHaveNoColon(a);
    DigitsHaveNoColon(b);
    DigitsHaveNoColon(c);
    SplitNone(c);
    var w := b + ":" + c;
    SplitJoin(b, c);
    assert a + ":" + b + ":" + c == a + ":" + w;
    SplitJoin(a, w);
    ParseThree(a + ":" + b + ":" + c, a, b, c);
  }

  /** ParseDuration of a text depends only on its fields. */
  lemma ParseThree(r: string, a: string, b: string, c: string)
    requires SplitColon(r) == [a, b, c] && IsDecimal(a) && IsDecimal(b) && IsDecimal(c)
    ensures ParseDuration(r) == Some(DigitsValue(a) * 3600 + DigitsValue(b) * 60 + DigitsValue(c))
  {
    ThreeValue(a, b, c);
  }

  lemma ThreeValue(a: string, b: string, c: string)
    requires IsDecimal(a) && IsDecimal(b) && IsDecimal(c)
    ensures FieldsValue([a, b, c]) == Some(DigitsValue(a) * 3600 + DigitsValue(b) * 60 + DigitsValue(c))
  {
  }

  lemma ParseTwo(r: string, a: string, b: string)
    requires SplitColon(r) == [a, b] && IsDecimal(a) && IsDecimal(b)
    ensures ParseDuration(r) == Some(DigitsValue(a) * 60 + DigitsValue(b))
  {
  }

  /** Two digit fields between a colon split and parse back. */
  lemma TwoFields(a: string, b: string)
    requires IsDecimal(a) && IsDecimal(b)
    ensures SplitColon(a + ":" + b) == [a, b]
    ensures ParseDuration(a + ":" + b) == Some(DigitsValue(a) * 60 + DigitsValue(b))
  {
    DigitsHaveNoColon(a);
    DigitsHaveNoColon(b);
    SplitNone(b);
    SplitJoin(a, b);
    ParseTwo(a + ":" + b, a, b);
  }

  /** A positive duration renders as three fields exactly from one hour on,
      and the fields after the first are two digits below 60. */
  lemma FormatDurationFields(seconds: nat)
    requires seconds > 0
    ensures var f := SplitColon(FormatDuration(seconds));
      && (|f| == 3 <==> seconds >= 3600) && (|f| == 2 <==> seconds < 3600)
      && (forall i :: 1 <= i < |f| ==> |f[i]| == 2 && AllDigits(f[i]) && DigitsValue(f[i]) < 60)
  {
    var h, m, s := seconds / 3600, (seconds % 3600) / 60, seconds % 60;
    DurationFields(seconds);
    if h > 0 {
      HoursText(h, m, s);
    } else {
      MinutesText(m, s);
    }
  }

  /** Reading the text of a positive duration back gives the duration. */
  lemma FormatDurationRoundTrip(seconds: nat)
    requires seconds > 0
    ensures ParseDuration(FormatDuration(seconds)) == Some(seconds)
  {
    var h, m, s := seconds / 3600, (seconds % 3600) / 60, seconds % 60;
    DurationFields(seconds);
    if h > 0 {
      HoursText(h, m, s);
    } else {
      MinutesText(m, s);
    }
  }

  /** The `H:MM:SS` text of a duration of an hour or more. */
  lemma HoursText(h: nat, m: nat, s: nat)
    requires h > 0 && m < 60 && s < 60
    ensures var f := SplitColon(NatToString(h) + ":" + Pad2(m) + ":" + Pad2(s));
      f == [NatToString(h), Pad2(m), Pad2(s)]
    ensures ParseDuration(NatToString(h) + ":" + Pad2(m) + ":" + Pad2(s)) == Some(h * 3600 + m * 60 + s)
  {
    DigitsValueOfNatToString(h);
    ThreeFields(NatToString(h), Pad2(m), Pad2(s));
  }

  /** The `M:SS` text of a duration under an hour. */
  lemma MinutesText(m: nat, s: nat)
    requires m < 60 && s < 60
    ensures var f := SplitColon(NatToString(m) + ":" + Pad2(s));
      f == [NatToString(m), Pad2(s)]
    ensures ParseDuration(NatToString(m) + ":" + Pad2(s)) == Some(m * 60 + s)
  {
    DigitsValueOfNatToString(m);
    TwoFields(NatToString(m), Pad2(s));
  }

  /** Zero seconds renders as `Unknown`, which reads back as nothing. */
  lemma FormatDurationUnknown()
    ensures FormatDuration(0) == "Unknown" && ParseDuration("Unknown") == None
  {
    SplitNone("Unknown");
    assert !IsDigit("Unknown"[0]);
  }

  // ---------------------------------------------------------------------------
  // get_status_icon
  // ---------------------------------------------------------------------------

  const FallbackIcon: string := "\U{2753}"

  const StatusIcons: map<string, string> := map[
    "Queued" := "\U{23F3}",
    "Downloading" := "\U{1F4E5}",
    "Completed" := "\U{2705}",
    "Error" := "\U{274C}",
    "Paused" := "\U{23F8}\U{FE0F}"
  ]

  /** `get_status_icon`: the table entry, or the question mark for a status
      the table does not name. */
  function StatusIcon(status: string): string {
    if status in StatusIcons then StatusIcons[status] else FallbackIcon
  }

  /** The question mark shows up exactly for the statuses missing from the
      table, and the table gives every status it names its own icon. */
  lemma StatusIconFallback(status: string)
    ensures StatusIcon(status) == FallbackIcon <==> status !in StatusIcons
    ensures forall a, b :: a in StatusIcons && b in StatusIcons && a != b ==> StatusIcons[a] != StatusIcons[b]
  {
  }
}
