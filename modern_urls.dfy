/** The url classifiers of the modern GUI (`is_playlist_url`,
    `is_youtube_video_url`) and `convert_to_playlist_url`. The regular
    expressions are written out as recognisers over the characters of the
    stripped url; `\w` is taken on ASCII. */
module ModernUrls {
  import opened Text
  import opened ModernText

  /** `[\w=&-]`, the characters of a query tail. */
  predicate IsQueryChar(c: char) {
    IsIdChar(c) || c == '=' || c == '&'
  }

  predicate NoNewline(s: string) {
    forall k :: 0 <= k < |s| ==> s[k] != '\n'
  }

  // ---------------------------------------------------------------------------
  // is_playlist_url
  // ---------------------------------------------------------------------------

  /** `youtube\.com/playlist\?list=[\w-]+` found at `p` (the optional scheme
      and `www.` in front change nothing for a search). */
  predicate PlaylistPageAt(u: string, p: nat) {
    At(u, p, "youtube.com/playlist?list=") && p + 26 < |u| && IsIdChar(u[p + 26])
  }

  /** `youtube\.com/watch\?.*list=[\w-]+` found with the watch part at `p` and
      `list=` at `q`; `.` does not cross a line feed. */
  predicate WatchListAt(u: string, p: nat, q: nat) {
    && At(u, p, "youtube.com/watch?") && p + 18 <= q <= |u|
    && NoNewline(u[p + 18..q])
    && At(u, q, "list=") && q + 5 < |u| && IsIdChar(u[q + 5])
  }

  predicate PlaylistPattern(u: string) {
    || (exists p: nat :: p <= |u| && PlaylistPageAt(u, p))
    || (exists p: nat, q: nat :: p <= q <= |u| && WatchListAt(u, p, q))
  }

  /** `is_playlist_url`: false for the empty url, otherwise one of the two
      patterns occurs in the stripped url. */
  function IsPlaylistUrl(url: string): (r: bool)
    ensures |url| == 0 ==> !r
  {
    |url| > 0 && PlaylistPattern(Strip(url))
  }

  // ---------------------------------------------------------------------------
  // is_youtube_video_url
  // ---------------------------------------------------------------------------

  /** `(?:&(?!list=)[\w=&-]*)*$` after the id: nothing, or an `&` not followed
      by `list=` and then only query characters. */
  predicate AmpTail(t: string) {
    |t| == 0 || (t[0] == '&' && !At(t, 1, "list=") && forall k :: 0 <= k < |t| ==> IsQueryChar(t[k]))
  }

  /** `(?:\?(?!list=)[\w=&-]*)*$` after the id: a sequence of `?`-segments of
      query characters, none starting with `list=`. */
  predicate QueryTail(t: string)
    decreases |t|
  {
    |t| == 0 ||
    (t[0] == '?' && !At(t, 1, "list=") &&
      var n := RunLength(t, 1, IsQueryChar);
      QueryTail(t[1 + n..]))
  }

  /** `host[\w-]+tail$` on the text after the optional prefixes: the id run is
      maximal, because the tail can only start with `&` or `?`. */
  predicate IdThenTail(r: string, host: string, amp: bool) {
    StartsWith(r, host) &&
    var n := RunLength(r, |host|, IsIdChar);
    n > 0 && (if amp then AmpTail(r[|host| + n..]) else QueryTail(r[|host| + n..]))
  }

  predicate VideoPattern(u: string) {
    var r := AfterHostPrefix(u);
    || IdThenTail(r, "youtube.com/watch?v=", true)
    || IdThenTail(r, "youtu.be/", false)
    || IdThenTail(r, "youtube.com/embed/", false)
  }

  /** `is_youtube_video_url`: false for the empty url and for every playlist
      url, otherwise one of the three anchored patterns matches the whole
      stripped url. */
  function IsYoutubeVideoUrl(url: string): (r: bool)
    ensures r ==> |url| > 0 && !IsPlaylistUrl(url)
  {
    |url| > 0 && !IsPlaylistUrl(url) && VideoPattern(Strip(url))
  }

  /** The two classifiers never both accept a url. */
  lemma PlaylistIsNotVideo(url: string)
    ensures !(IsPlaylistUrl(url) && IsYoutubeVideoUrl(url))
  {
  }

  predicate IdText(s: string) {
    |s| > 0 && forall k :: 0 <= k < |s| ==> IsIdChar(s[k])
  }

  lemma IdTextHasNoSpace(s: string)
    requires forall k :: 0 <= k < |s| ==> IsIdChar(s[k])
    ensures NoSpace(s)
  {
    forall k | 0 <= k < |s| ensures !IsSpace(s[k]) {
      assert IsIdChar(s[k]);
    }
  }

  lemma WatchPrefixHasNoSpace()
    ensures NoSpace(WatchPrefix)
  {
  }

  lemma WatchPrefixEquals()
    ensures WatchPrefix[31] == '=' && forall k :: 0 <= k < 31 ==> WatchPrefix[k] != '='
  {
  }

  /** The whole link has no whitespace, so stripping keeps it. */
  lemma WatchLinkStripped(id: string)
    requires IdText(id)
    ensures Strip(WatchPrefix + id) == WatchPrefix + id
  {
    var u := WatchPrefix + id;
    WatchPrefixHasNoSpace();
    IdTextHasNoSpace(id);
    assert forall k :: 0 <= k < |u| ==> u[k] == (if k < 32 then WatchPrefix[k] else id[k - 32]);
    StripOfNoSpace(u);
  }

  /** Only one `=` in the link, right after `v`. */
  lemma WatchLinkEquals(id: string)
    requires IdText(id)
    ensures var u := WatchPrefix + id;
      forall k :: 0 <= k < |u| && u[k] == '=' ==> k == 31
  {
    var u := WatchPrefix + id;
    WatchPrefixEquals();
    forall k | 32 <= k < |u| ensures u[k] != '=' {
      assert u[k] == id[k - 32];
    }
    forall k | 0 <= k < 32 ensures u[k] == WatchPrefix[k] {
    }
  }

  /** A text whose only `=` sits at 31, with `/` at 6 and `c` at 27, shows
      neither playlist pattern: each needs an `=` 25 places after a `y` or 4
      after an `l`. */
  lemma SingleEqualsNotPlaylist(u: string)
    requires |u| > 31 && u[6] == '/' && u[27] == 'c'
    requires forall k :: 0 <= k < |u| && u[k] == '=' ==> k == 31
    ensures !PlaylistPattern(u)
  {
    var page := "youtube.com/playlist?list=";
    forall p: nat | p + 26 <= |u| ensures !At(u, p, page) {
      if p == 6 {
        assert u[p..p + 26][0] != page[0];
      } else {
        assert u[p..p + 26][25] != page[25];
      }
    }
    forall q: nat | q + 5 <= |u| ensures !At(u, q, "list=") {
      if q == 27 {
        assert u[q..q + 5][0] != "list="[0];
      } else {
        assert u[q..q + 5][4] != "list="[4];
      }
    }
  }

  lemma WatchLinkHost(id: string)
    ensures AfterHostPrefix(WatchPrefix + id) == "youtube.com/watch?v=" + id
  {
    var rest := "youtube.com/watch?v=" + id;
    assert WatchPrefix == "https://" + "www." + "youtube.com/watch?v=" by {
      var w := "https://" + "www." + "youtube.com/watch?v=";
      assert |w| == 32;
      assert forall k :: 0 <= k < 32 ==> w[k] == WatchPrefix[k];
    }
    assert WatchPrefix + id == "https://" + "www." + rest;
    AfterHostPrefixOfParts("https://", "www.", rest);
  }

  lemma WatchTail(id: string)
    requires IdText(id)
    ensures IdThenTail("youtube.com/watch?v=" + id, "youtube.com/watch?v=", true)
  {
    var r := "youtube.com/watch?v=" + id;
    assert r[..20] == "youtube.com/watch?v=";
    var n := RunLength(r, 20, IsIdChar);
    assert forall k :: 20 <= k < |r| ==> r[k] == id[k - 20];
    assert n == |id|;
    assert r[20 + n..] == "";
  }

  /** A plain watch link `https://www.youtube.com/watch?v=<id>` is a video url. */
  lemma WatchLinkIsVideo(id: string)
    requires IdText(id)
    ensures IsYoutubeVideoUrl(WatchPrefix + id)
  {
    var u := WatchPrefix + id;
    WatchLinkStripped(id);
    WatchLinkEquals(id);
    assert u[6] == '/' && u[27] == 'c';
    SingleEqualsNotPlaylist(u);
    WatchLinkHost(id);
    WatchTail(id);
  }

  /** A watch link that also names a playlist, `...watch?v=<id>&list=<list>`,
      is a playlist url and therefore not a video url. */
  lemma WatchLinkWithListIsPlaylist(id: string, list: string)
    requires IdText(id) && IdText(list)
    ensures IsPlaylistUrl(WatchPrefix + id + "&list=" + list)
    ensures !IsYoutubeVideoUrl(WatchPrefix + id + "&list=" + list)
  {
    var tail := "&list=" + list;
    var u := WatchPrefix + id + tail;
    assert WatchPrefix + id + "&list=" + list == u;
    WatchListStripped(id, list);
    WatchListWitness(id, tail, list);
    var p: nat, q: nat := 12, 33 + |id|;
    assert p <= q <= |u| && WatchListAt(u, p, q);
    assert PlaylistPattern(u);
  }

  /** A watch link with a playlist has no whitespace, so stripping keeps it. */
  lemma WatchListStripped(id: string, list: string)
    requires IdText(id) && IdText(list)
    ensures Strip(WatchPrefix + id + ("&list=" + list)) == WatchPrefix + id + ("&list=" + list)
  {
    WatchPrefixHasNoSpace();
    IdTextHasNoSpace(id);
    IdTextHasNoSpace(list);
    assert NoSpace("&list=");
    NoSpaceConcat("&list=", list);
    NoSpaceConcat(WatchPrefix, id);
    NoSpaceConcat(WatchPrefix + id, "&list=" + list);
    StripOfNoSpace(WatchPrefix + id + ("&list=" + list));
  }

  lemma WatchListWitness(id: string, tail: string, list: string)
    requires IdText(id) && IdText(list) && tail == "&list=" + list
    ensures WatchListAt(WatchPrefix + id + tail, 12, 33 + |id|)
  {
    var u := WatchPrefix + id + tail;
    var q := 33 + |id|;
    WatchPartAt(id, tail);
    WatchGapNoNewline(id, tail);
    assert u[q..q + 5] == tail[1..6] == "list=";
    assert u[q + 5] == list[0];
  }

  /** The `youtube.com/watch?` of the link sits at 12. */
  lemma WatchPartAt(id: string, tail: string)
    ensures At(WatchPrefix + id + tail, 12, "youtube.com/watch?")
  {
    var u := WatchPrefix + id + tail;
    assert u[12..30] == WatchPrefix[12..30];
    assert WatchPrefix[12..30] == "youtube.com/watch?";
  }

  /** Between the `?` and the `list=` there is `v=`, the id and `&`. */
  lemma WatchGapNoNewline(id: string, tail: string)
    requires IdText(id) && |tail| > 0 && tail[0] == '&'
    ensures NoNewline((WatchPrefix + id + tail)[30..33 + |id|])
  {
    var u := WatchPrefix + id + tail;
    var g := u[30..33 + |id|];
    forall k | 0 <= k < |g| ensures g[k] != '\n' {
      if k < 2 {
        assert g[k] == WatchPrefix[30 + k];
      } else if k < 2 + |id| {
        assert g[k] == id[k - 2];
      } else {
        assert g[k] == tail[0];
      }
    }
  }

  // ---------------------------------------------------------------------------
  // convert_to_playlist_url
  // ---------------------------------------------------------------------------

  const PlaylistBase: string := "https://www.youtube.com/playlist?list="

  /** `[&?]list=([a-zA-Z0-9_-]+)` matches at `p`. */
  predicate ListParamAt(u: string, p: nat) {
    p < |u| && (u[p] == '&' || u[p] == '?') && At(u, p + 1, "list=") && p + 6 < |u| && IsIdChar(u[p + 6])
  }

  /** `playlist\?list=([a-zA-Z0-9_-]+)` matches at `p`. */
  predicate PlaylistPathAt(u: string, p: nat) {
    At(u, p, "playlist?list=") && p + 14 < |u| && IsIdChar(u[p + 14])
  }

  /** The greedy group: the maximal id run from `i`. */
  function IdRun(u: string, i: nat): (r: string)
    requires i <= |u|
    ensures i + |r| <= |u| && r == u[i..i + |r|]
    ensures forall k :: 0 <= k < |r| ==> IsIdChar(r[k])
    ensures i + |r| < |u| ==> !IsIdChar(u[i + |r|])
  {
    u[i..i + RunLength(u, i, IsIdChar)]
  }

  /** An id character at `i` starts a non-empty run. */
  lemma IdRunStartsAt(u: string, i: nat)
    requires i < |u| && IsIdChar(u[i])
    ensures |IdRun(u, i)| > 0
  {
  }

  /** The first search: the group of its leftmost match. */
  function ListParamId(u: string): Option<string> {
    var f := FirstFrom(|u|, 0, (p: nat) => ListParamAt(u, p));
    if f.Some? then Some(IdRun(u, f.value + 6)) else None
  }

  /** The first search finds nothing exactly when no position matches, and
      otherwise yields the maximal id run of the leftmost match. */
  lemma ListParamIdLeftmost(u: string)
    ensures ListParamId(u).None? <==> forall p: nat :: p <= |u| ==> !ListParamAt(u, p)
    ensures ListParamId(u).Some? ==>
      exists p: nat :: p <= |u| && ListParamAt(u, p) && ListParamId(u).value == IdRun(u, p + 6)
        && forall j: nat :: j < p ==> !ListParamAt(u, j)
  {
    var m := (p: nat) => ListParamAt(u, p);
    var f := FirstFrom(|u|, 0, m);
    assert forall p: nat :: m(p) == ListParamAt(u, p);
    if f.Some? {
      var p := f.value;
      assert p <= |u| && ListParamAt(u, p) && ListParamId(u).value == IdRun(u, p + 6);
    }
  }

  /** The `elif` branch, tried only when the first search found nothing. */
  function PlaylistPathId(u: string): Option<string> {
    if Contains(u, "playlist?list=") then
      var m := (p: nat) => PlaylistPathAt(u, p);
      var f := FirstFrom(|u|, 0, m);
      if f.Some? then Some(IdRun(u, f.value + 14)) else None
    else None
  }

  /** `convert_to_playlist_url`. */
  function ConvertToPlaylistUrl(url: string): string {
    var id := if ListParamId(url).Some? then ListParamId(url) else PlaylistPathId(url);
    if id.Some? && |id.value| > 0 then PlaylistBase + id.value else url
  }

  /** The `elif` branch never yields an id: wherever `playlist?list=<id>`
      occurs, its `?list=<id>` is already a match of the first search. */
  lemma PlaylistPathBranchDead(u: string)
    requires ListParamId(u).None?
    ensures PlaylistPathId(u).None?
  {
    ListParamIdLeftmost(u);
    forall p: nat | p <= |u| ensures !PlaylistPathAt(u, p) {
      if p + 14 < |u| && At(u, p, "playlist?list=") {
        assert u[p..p + 14][8] == '?';
        assert u[p + 9..p + 14] == u[p..p + 14][9..14];
        assert !ListParamAt(u, p + 8);
      }
    }
    var m := (p: nat) => PlaylistPathAt(u, p);
    assert forall p: nat :: m(p) == PlaylistPathAt(u, p);
  }

  /** The conversion result: the canonical playlist url holding the maximal id
      after the leftmost `&list=` or `?list=`, or the input when there is none. */
  lemma ConvertToPlaylistUrlResult(url: string)
    ensures ListParamId(url).Some? ==>
      exists p: nat :: p <= |url| && ListParamAt(url, p) && (forall j: nat :: j < p ==> !ListParamAt(url, j))
        && ConvertToPlaylistUrl(url) == PlaylistBase + IdRun(url, p + 6) && |IdRun(url, p + 6)| > 0
    ensures ListParamId(url).None? ==> ConvertToPlaylistUrl(url) == url
  {
    ListParamIdLeftmost(url);
    if ListParamId(url).Some? {
      var p: nat :| p <= |url| && ListParamAt(url, p) && ListParamId(url).value == IdRun(url, p + 6)
        && forall j: nat :: j < p ==> !ListParamAt(url, j);
      IdRunStartsAt(url, p + 6);
      assert ConvertToPlaylistUrl(url) == PlaylistBase + IdRun(url, p + 6);
    } else {
      PlaylistPathBranchDead(url);
    }
  }

  lemma PlaylistBaseChars()
    ensures |PlaylistBase| == 38 && PlaylistBase[32] == '?' && PlaylistBase[33..38] == "list="
    ensures forall j :: 0 <= j < 32 ==> PlaylistBase[j] != '&' && PlaylistBase[j] != '?'
  {
  }

  /** Converting an already converted url changes nothing. */
  lemma ConvertToPlaylistUrlIdempotent(url: string)
    ensures ConvertToPlaylistUrl(ConvertToPlaylistUrl(url)) == ConvertToPlaylistUrl(url)
  {
    ConvertToPlaylistUrlResult(url);
    if ListParamId(url).Some? {
      var p: nat :| p <= |url| && ListParamAt(url, p) && (forall j: nat :: j < p ==> !ListParamAt(url, j))
        && ConvertToPlaylistUrl(url) == PlaylistBase + IdRun(url, p + 6) && |IdRun(url, p + 6)| > 0;
      CanonicalUrlConverts(IdRun(url, p + 6));
    }
  }

  /** The canonical playlist url converts to itself. */
  lemma CanonicalUrlConverts(id: string)
    requires IdText(id)
    ensures ConvertToPlaylistUrl(PlaylistBase + id) == PlaylistBase + id
  {
    var v := PlaylistBase + id;
    CanonicalListParam(id);
    CanonicalIdRun(id);
    ListParamIdLeftmost(v);
    ConvertToPlaylistUrlResult(v);
    var p: nat :| p <= |v| && ListParamAt(v, p) && (forall j: nat :: j < p ==> !ListParamAt(v, j))
      && ConvertToPlaylistUrl(v) == PlaylistBase + IdRun(v, p + 6) && |IdRun(v, p + 6)| > 0;
    assert p == 32;
  }

  /** The leftmost `?list=` of the canonical url is the one at 32. */
  lemma CanonicalListParam(id: string)
    requires IdText(id)
    ensures ListParamAt(PlaylistBase + id, 32)
    ensures forall j: nat :: j < 32 ==> !ListParamAt(PlaylistBase + id, j)
  {
    var v := PlaylistBase + id;
    PlaylistBaseChars();
    forall j: nat | j < 32 ensures !ListParamAt(v, j) {
      assert v[j] == PlaylistBase[j];
    }
    assert v[33..38] == "list=";
  }

  /** The id run of the canonical url is the whole id. */
  lemma CanonicalIdRun(id: string)
    requires IdText(id)
    ensures IdRun(PlaylistBase + id, 38) == id
  {
    var v := PlaylistBase + id;
    PlaylistBaseChars();
    forall k | 38 <= k < |v| ensures IsIdChar(v[k]) {
      assert v[k] == id[k - 38];
    }
    var n := RunLength(v, 38, IsIdChar);
    assert n == |id|;
  }
}
