/** The download queue of the modern GUI as a state machine on values: the
    items, the `is_queue_processing` / `cancel_requested` flags and the global
    `download_stop_event`, the effect of `start_queue_download`, and the run of
    `_process_queue` over the live list. Threads are not modelled: each
    transfer is one atomic step whose outcome is given by the environment, and
    a press of Stop is an event placed at one point of one step. */
module ModernQueue {
  import opened Text
  import opened ModernText

  datatype Status = Queued | Downloading | Completed | Error | Stopped

  /** The status strings the source stores in `item['status']`. */
  function StatusName(s: Status): (r: string)
    ensures r in StatusIcons ==> s != Stopped
  {
    match s
    case Queued => "Queued"
    case Downloading => "Downloading"
    case Completed => "Completed"
    case Error => "Error"
    case Stopped => "Stopped"
  }

  /** Every status the source writes has a table icon except `Stopped`, which
      gets the fallback question mark, and no two statuses share a name. */
  lemma StatusIconOfStatus(s: Status, t: Status)
    ensures StatusIcon(StatusName(s)) == FallbackIcon <==> s == Stopped
    ensures StatusName(s) == StatusName(t) ==> s == t
  {
    StatusIconFallback(StatusName(s));
    assert "Stopped" !in StatusIcons;
  }

  /** A queue entry; the `video_info` and `available_formats` copies are
      carried along untouched by the queue and are left out. */
  datatype Item = Item(
    url: string,
    title: string,
    downloadType: string,
    quality: string,
    status: Status,
    fromPlaylist: bool,
    playlistTitle: Option<string>)

  /** The fields of the parsed `video_info` the queue entry copies; an absent
      key is `None`. */
  datatype VideoInfo = VideoInfo(webpageUrl: Option<string>, title: Option<string>)

  /** The entry `add_to_queue` appends for a parsed video. */
  function NewItem(info: VideoInfo, downloadType: string, quality: string): (it: Item)
    ensures it.status == Queued && !it.fromPlaylist && it.playlistTitle.None?
    ensures it.downloadType == downloadType && it.quality == quality
    ensures it.url == (if info.webpageUrl.Some? then info.webpageUrl.value else "")
    ensures it.title == (if info.title.Some? then info.title.value else "Unknown Title")
  {
    Item(
      url := match info.webpageUrl case Some(u) => u case None => "",
      title := match info.title case Some(t) => t case None => "Unknown Title",
      downloadType := downloadType,
      quality := quality,
      status := Queued,
      fromPlaylist := false,
      playlistTitle := None)
  }

  /** One entry of the parsed playlist; absent keys are `None`. */
  datatype PlaylistEntry = PlaylistEntry(url: Option<string>, id: Option<string>, title: Option<string>)

  /** `entry.get('url') or f"https://www.youtube.com/watch?v={entry.get('id')}"`:
      an absent or empty url falls back to the watch link of the id, where an
      absent id prints as `None`. */
  function EntryUrl(e: PlaylistEntry): (u: string)
    ensures |u| > 0
    ensures e.url.Some? && e.url.value != "" ==> u == e.url.value
    ensures !(e.url.Some? && e.url.value != "") ==>
      u == WatchPrefix + (if e.id.Some? then e.id.value else "None")
  {
    if e.url.Some? && e.url.value != "" then e.url.value
    else WatchPrefix + (match e.id case Some(v) => v case None => "None")
  }

  /** The entry `add_selected_playlist_items_to_queue` appends for the
      playlist entry at `index`. */
  function EntryItem(e: PlaylistEntry, index: nat, downloadType: string, quality: string,
                     playlistTitle: Option<string>): (it: Item)
    ensures it.status == Queued && it.fromPlaylist && it.url == EntryUrl(e)
    ensures it.downloadType == downloadType && it.quality == quality
    ensures it.title == if e.title.Some? then e.title.value else "Video " + NatToString(index + 1)
    ensures it.playlistTitle == Some(if playlistTitle.Some? then playlistTitle.value else "Unknown Playlist")
  {
    Item(
      url := EntryUrl(e),
      title := match e.title case Some(t) => t case None => "Video " + NatToString(index + 1),
      downloadType := downloadType,
      quality := quality,
      status := Queued,
      fromPlaylist := true,
      playlistTitle := Some(match playlistTitle case Some(t) => t case None => "Unknown Playlist"))
  }

  /** The items appended for a selection, in selection order, skipping every
      index past the end of the playlist. */
  function PlaylistItems(selection: seq<nat>, entries: seq<PlaylistEntry>, downloadType: string,
                         quality: string, playlistTitle: Option<string>): seq<Item>
    decreases |selection|
  {
    if |selection| == 0 then []
    else
      var last := selection[|selection| - 1];
      var front := PlaylistItems(selection[..|selection| - 1], entries, downloadType, quality, playlistTitle);
      if last < |entries| then front + [EntryItem(entries[last], last, downloadType, quality, playlistTitle)]
      else front
  }

  /** The number of selected indices inside the playlist. */
  function CountBelow(selection: seq<nat>, n: nat): nat
    decreases |selection|
  {
    if |selection| == 0 then 0
    else CountBelow(selection[..|selection| - 1], n) + (if selection[|selection| - 1] < n then 1 else 0)
  }

  /** The queue grows by one item per selected index inside the playlist, and
      each new item is `Queued`, marked as coming from the playlist and
      carries the chosen download type and quality. */
  lemma {:induction false} PlaylistItemsCount(selection: seq<nat>, entries: seq<PlaylistEntry>,
                                              downloadType: string, quality: string, playlistTitle: Option<string>)
    ensures var r := PlaylistItems(selection, entries, downloadType, quality, playlistTitle);
      && |r| == CountBelow(selection, |entries|)
      && (forall j :: 0 <= j < |r| ==>
            (r[j].status == Queued && r[j].fromPlaylist
             && r[j].downloadType == downloadType && r[j].quality == quality))
    decreases |selection|
  {
    if |selection| > 0 {
      PlaylistItemsCount(selection[..|selection| - 1], entries, downloadType, quality, playlistTitle);
    }
  }

  /** The selected indices inside the playlist appear in selection order: the
      k-th selected index contributes the item after those of the indices
      selected before it. */
  lemma {:induction false} PlaylistItemsOrder(selection: seq<nat>, entries: seq<PlaylistEntry>,
                                              downloadType: string, quality: string, playlistTitle: Option<string>,
                                              k: nat)
    requires k < |selection| && selection[k] < |entries|
    ensures var r := PlaylistItems(selection, entries, downloadType, quality, playlistTitle);
      var j := CountBelow(selection[..k], |entries|);
      j < |r| && r[j] == EntryItem(entries[selection[k]], selection[k], downloadType, quality, playlistTitle)
    decreases |selection|
  {
    var n := |selection| - 1;
    var front := selection[..n];
    var r := PlaylistItems(selection, entries, downloadType, quality, playlistTitle);
    var rf := PlaylistItems(front, entries, downloadType, quality, playlistTitle);
    assert r[..|rf|] == rf;
    PlaylistItemsCount(front, entries, downloadType, quality, playlistTitle);
    if k < n {
      assert selection[..k] == front[..k];
      PlaylistItemsOrder(front, entries, downloadType, quality, playlistTitle, k);
      assert r[CountBelow(selection[..k], |entries|)] == rf[CountBelow(front[..k], |entries|)];
    } else {
      assert selection[..k] == front;
    }
  }

  /** Selecting one more index appends at most its one item: the loop of
      `add_selected_playlist_items_to_queue` builds the list step by step. */
  lemma PlaylistItemsSnoc(selection: seq<nat>, x: nat, entries: seq<PlaylistEntry>,
                          downloadType: string, quality: string, playlistTitle: Option<string>)
    ensures PlaylistItems(selection + [x], entries, downloadType, quality, playlistTitle)
         == PlaylistItems(selection, entries, downloadType, quality, playlistTitle)
            + (if x < |entries| then [EntryItem(entries[x], x, downloadType, quality, playlistTitle)] else [])
  {
    assert (selection + [x])[..|selection|] == selection;
  }

  datatype ModernState = ModernState(
    queue: seq<Item>,
    processing: bool,
    cancel: bool,
    stopEvent: bool)

  /** The items `_process_queue` hands to `download_single_item`. */
  predicate Dispatchable(s: Status) {
    s == Queued || s == Stopped
  }

  // ---------------------------------------------------------------------------
  // start_queue_download and stop_download
  // ---------------------------------------------------------------------------

  /** The reset loop of `start_queue_download`. */
  function ResetStopped(q: seq<Item>): (r: seq<Item>)
    ensures |r| == |q|
    ensures forall j :: 0 <= j < |r| ==> r[j].status != Stopped
    ensures forall j :: 0 <= j < |q| && q[j].status != Stopped ==> r[j] == q[j]
    ensures forall j :: 0 <= j < |q| && q[j].status == Stopped ==> r[j] == q[j].(status := Queued)
  {
    seq(|q|, j requires 0 <= j < |q| => if q[j].status == Stopped then q[j].(status := Queued) else q[j])
  }

  /** The state `start_queue_download` leaves before its thread runs. */
  function StartQueue(st: ModernState): (r: ModernState)
    ensures |st.queue| == 0 ==> r == st
    ensures |st.queue| > 0 ==> r.processing && !r.cancel && !r.stopEvent && r.queue == ResetStopped(st.queue)
  {
    if |st.queue| == 0 then st
    else st.(cancel := false, stopEvent := false, queue := ResetStopped(st.queue), processing := true)
  }

  /** After a restart every item that was not `Stopped` is as it was: a
      `Downloading` item in particular stays `Downloading`. */
  lemma StartQueueKeepsOthers(st: ModernState, j: nat)
    requires j < |st.queue| && st.queue[j].status != Stopped
    ensures StartQueue(st).queue[j] == st.queue[j]
  {
  }

  /** `stop_download`. */
  function Stop(st: ModernState): (r: ModernState)
    ensures r.queue == st.queue && r.cancel && r.stopEvent && !r.processing
  {
    st.(cancel := true, stopEvent := true, processing := false)
  }

  // ---------------------------------------------------------------------------
  // The job of _download_item_thread
  // ---------------------------------------------------------------------------

  /** How a transfer ends: yt-dlp returns (`ok`) or raises an error, or the
      stop interrupts it. */
  datatype Transfer = Finished(ok: bool) | Interrupted

  /** The status writes of `_download_item_thread` for the item at `i`: it
      returns without a write when a cancel is already visible, otherwise it
      writes `Completed`, `Error` or, on an interrupt, `Stopped`. */
  function RunJob(st: ModernState, i: nat, t: Transfer): (r: ModernState)
    requires i < |st.queue|
    ensures r.processing == st.processing && r.cancel == st.cancel && r.stopEvent == st.stopEvent
    ensures |r.queue| == |st.queue| && forall j :: 0 <= j < |r.queue| && j != i ==> r.queue[j] == st.queue[j]
    ensures st.cancel || st.stopEvent ==> r.queue == st.queue
    ensures !(st.cancel || st.stopEvent) ==>
      r.queue[i] == st.queue[i].(status := match t case Finished(ok) => if ok then Completed else Error
                                                  case Interrupted => Stopped)
  {
    if st.cancel || st.stopEvent then st
    else
      var s := match t case Finished(ok) => if ok then Completed else Error case Interrupted => Stopped;
      st.(queue := st.queue[i := st.queue[i].(status := s)])
  }

  // ---------------------------------------------------------------------------
  // _process_queue
  // ---------------------------------------------------------------------------

  /** Where in a step of the loop the user presses Stop. */
  datatype StopPoint =
    | BeforeCheck     // before the loop checks the flags for this index
    | BeforeTransfer  // after dispatch, before the job checks for a cancel
    | DuringTransfer  // while yt-dlp runs, which interrupts it
    | AfterTransfer   // after the job wrote its status

  datatype StopEvent = NoStop | StopAt(step: nat, point: StopPoint)

  /** What the rest of the program does while the loop runs: the items the user
      appends before index `i` is reached, the press of Stop, and for each index
      whether its transfer succeeds. */
  datatype Env = Env(arrivals: seq<seq<Item>>, stop: StopEvent, succeeds: nat -> bool)

  function Arrivals(env: Env, i: nat): seq<Item> {
    if i < |env.arrivals| then env.arrivals[i] else []
  }

  /** The number of items still to arrive from index `i` on. */
  function Pending(env: Env, i: nat): nat
    decreases |env.arrivals| - i
  {
    if i >= |env.arrivals| then 0 else |env.arrivals[i]| + Pending(env, i + 1)
  }

  lemma PendingStep(env: Env, i: nat)
    ensures Pending(env, i) == |Arrivals(env, i)| + Pending(env, i + 1)
  {
  }

  /** The arrivals before indices `i` up to `n - 1`, in order. */
  function Appended(env: Env, i: nat, n: nat): seq<Item>
    decreases n - i
  {
    if i >= n then [] else Arrivals(env, i) + Appended(env, i + 1, n)
  }

  predicate StopsAt(env: Env, i: nat, p: StopPoint) {
    env.stop.StopAt? && env.stop.step == i && env.stop.point == p
  }

  /** The dispatched item `i`, already `Downloading`, run through its job with
      the stop of this step, if any, at its point. */
  function JobStep(st: ModernState, i: nat, env: Env): (r: ModernState)
    requires i < |st.queue|
    ensures |r.queue| == |st.queue| && forall j :: 0 <= j < |st.queue| && j != i ==> r.queue[j] == st.queue[j]
    ensures env.stop.StopAt? && env.stop.step == i && env.stop.point != BeforeCheck ==>
      r.cancel && r.stopEvent && !r.processing
    ensures !(env.stop.StopAt? && env.stop.step == i && env.stop.point != BeforeCheck) ==>
      r.cancel == st.cancel && r.stopEvent == st.stopEvent && r.processing == st.processing
  {
    var fin := Finished(env.succeeds(i));
    if StopsAt(env, i, BeforeTransfer) then RunJob(Stop(st), i, fin)
    else if StopsAt(env, i, DuringTransfer) then Stop(RunJob(st, i, Interrupted))
    else if StopsAt(env, i, AfterTransfer) then Stop(RunJob(st, i, fin))
    else RunJob(st, i, fin)
  }

  /** The state when the loop ended and the index it ended at. */
  datatype Run = Run(state: ModernState, end: nat)

  /** `_process_queue` from index `i`: `enumerate` over the live list, so the
      length is read again at every index; a break on `not is_queue_processing
      or cancel_requested`; dispatch of `Queued` and `Stopped` items; and the
      `finally` that clears `is_queue_processing`. */
  function Process(st: ModernState, i: nat, env: Env): Run
    requires i <= |st.queue|
    decreases if i <= |env.arrivals| then |env.arrivals| - i else 0, |st.queue| - i
  {
    var q := st.queue + Arrivals(env, i);
    var s1 := st.(queue := q);
    if i >= |q| then Run(s1.(processing := false), i)
    else
      var s2 := if StopsAt(env, i, BeforeCheck) then Stop(s1) else s1;
      if !s2.processing || s2.cancel then Run(s2.(processing := false), i)
      else Process(Advance(s2, i, env), i + 1, env)
  }

  /** One pass of the loop body at index `i` once the flag check passed:
      dispatch and job for a `Queued` or `Stopped` item, nothing for any other,
      and the stop of this step if there is one. */
  function Advance(s: ModernState, i: nat, env: Env): (r: ModernState)
    requires i < |s.queue|
    ensures |r.queue| == |s.queue|
    ensures forall j :: 0 <= j < |s.queue| && j != i ==> r.queue[j] == s.queue[j]
    ensures Clean(s) && !StopsAt(env, i, BeforeCheck) && (env.stop.StopAt? ==> i <= env.stop.step) ==>
      r.queue[i] == Fate(env, i, s.queue[i])
    ensures Clean(s) && !(env.stop.StopAt? && env.stop.step == i) ==> Clean(r)
    ensures env.stop.StopAt? && env.stop.step == i && env.stop.point != BeforeCheck ==>
      r.cancel && r.stopEvent && !r.processing
  {
    if Dispatchable(s.queue[i].status) then
      JobStep(s.(queue := s.queue[i := s.queue[i].(status := Downloading)]), i, env)
    else if env.stop.StopAt? && env.stop.step == i then Stop(s)
    else s
  }

  /** An item's fate without a stop: a dispatched item ends `Completed` or
      `Error` as its transfer does, any other item is left alone. */
  function Handle(a: Item, ok: bool): (b: Item)
    ensures Dispatchable(a.status) ==> b == a.(status := if ok then Completed else Error)
    ensures !Dispatchable(a.status) ==> b == a
  {
    if Dispatchable(a.status) then a.(status := if ok then Completed else Error) else a
  }

  /** A handled item is not handled again: its new status is neither
      `Queued` nor `Stopped`, so a second pass leaves it alone. */
  lemma HandleOnce(a: Item, ok: bool, again: bool)
    ensures Handle(Handle(a, ok), again) == Handle(a, ok)
    ensures !Dispatchable(Handle(a, ok).status)
  {
  }

  /** The fate of the item at index `j` of the run, given the stop. */
  function Fate(env: Env, j: nat, a: Item): Item {
    match env.stop
    case NoStop => Handle(a, env.succeeds(j))
    case StopAt(k, p) =>
      if j < k then Handle(a, env.succeeds(j))
      else if j > k || p == BeforeCheck || !Dispatchable(a.status) then a
      else if p == BeforeTransfer then a.(status := Downloading)
      else if p == DuringTransfer then a.(status := Stopped)
      else Handle(a, env.succeeds(j))
  }

  /** The index the loop ends at when it holds `n` items: `n` when it runs out of
      items, otherwise the index whose flag check first sees the stop. */
  function EndIndex(env: Env, n: nat): nat {
    match env.stop
    case NoStop => n
    case StopAt(k, p) => if k < n then (if p == BeforeCheck then k else k + 1) else n
  }

  predicate Clean(st: ModernState) {
    st.processing && !st.cancel && !st.stopEvent
  }

  /** A stopped loop ends at its next flag check. */
  lemma StoppedRunEnds(st: ModernState, i: nat, env: Env)
    requires i <= |st.queue| && st.cancel && st.stopEvent
    ensures var r := Process(st, i, env);
      r.end == i && r.state == st.(queue := st.queue + Arrivals(env, i), processing := false)
  {
  }

  lemma AppendedStep(env: Env, i: nat, n: nat)
    requires i < n
    ensures Appended(env, i, n) == Arrivals(env, i) + Appended(env, i + 1, n)
  {
  }

  /** The conclusion of ProcessOutcome for the run `r` from index `i`. */
  predicate OutcomeOf(st: ModernState, i: nat, env: Env, r: Run) {
    var all := st.queue + Appended(env, i, r.end + 1);
    && i <= |st.queue| && i <= r.end && |r.state.queue| == |all|
    && r.end == EndIndex(env, |all|)
    && (forall j :: 0 <= j < i ==> r.state.queue[j] == st.queue[j])
    && (forall j :: i <= j < |all| ==> r.state.queue[j] == Fate(env, j, all[j]))
    && !r.state.processing
    && r.state.cancel == r.state.stopEvent
    && (r.state.cancel <==> env.stop.StopAt? && env.stop.step < |all|)
  }

  /** The run of `_process_queue` from a clean start at index `i`: it visits
      the live list in order, so the items appended before the loop ends are
      part of the result; every index before the stop meets its transfer's
      outcome, the stop step meets the stop, and every later index is left
      untouched; the loop ends at the first flag check that sees the stop,
      with `is_queue_processing` cleared and the cancel flags set exactly when
      a stop happened. */
  lemma {:induction false} ProcessOutcome(st: ModernState, i: nat, env: Env)
    requires i <= |st.queue| && Clean(st)
    requires env.stop.StopAt? ==> i <= env.stop.step
    ensures OutcomeOf(st, i, env, Process(st, i, env))
    decreases if i <= |env.arrivals| then |env.arrivals| - i else 0, |st.queue| - i
  {
    var q := st.queue + Arrivals(env, i);
    var s1 := st.(queue := q);
    if i >= |q| || StopsAt(env, i, BeforeCheck) {
      assert Appended(env, i, i + 1) == Arrivals(env, i);
    } else {
      var next := Advance(s1, i, env);
      if env.stop.StopAt? && env.stop.step == i {
        StoppedRunEnds(next, i + 1, env);
        StopStepOutcome(st, i, env, next);
      } else {
        ProcessOutcome(next, i + 1, env);
        StepOutcome(st, i, env, next);
      }
    }
  }

  /** The step at index `i` together with the run from `i + 1`. */
  lemma StepOutcome(st: ModernState, i: nat, env: Env, next: ModernState)
    requires i <= |st.queue| && Clean(st)
    requires env.stop.StopAt? ==> i < env.stop.step
    requires i < |st.queue| + |Arrivals(env, i)|
    requires next == Advance(st.(queue := st.queue + Arrivals(env, i)), i, env)
    requires OutcomeOf(next, i + 1, env, Process(next, i + 1, env))
    ensures OutcomeOf(st, i, env, Process(st, i, env))
  {
    assert Process(st, i, env) == Process(next, i + 1, env);
    StepOutcomeOf(st, i, env, next, Process(next, i + 1, env));
  }

  /** The outcome of any run `r` from `i + 1` after the step at `i` is an
      outcome from `i`. */
  lemma StepOutcomeOf(st: ModernState, i: nat, env: Env, next: ModernState, r: Run)
    requires i <= |st.queue| && Clean(st)
    requires env.stop.StopAt? ==> i < env.stop.step
    requires i < |st.queue| + |Arrivals(env, i)|
    requires next == Advance(st.(queue := st.queue + Arrivals(env, i)), i, env)
    requires OutcomeOf(next, i + 1, env, r)
    ensures OutcomeOf(st, i, env, r)
  {
    var q := st.queue + Arrivals(env, i);
    AppendedStep(env, i, r.end + 1);
    var tail := Appended(env, i + 1, r.end + 1);
    var all := st.queue + Appended(env, i, r.end + 1);
    assert all == q + tail;
    ShiftedTail(q, next.queue, tail, i);
    assert r.state.queue[i] == next.queue[i];
    FatesFrom(env, i, all, next.queue + tail, r.state.queue);
  }

  /** Replacing the item at `i` of `q` leaves every other index of `q + tail`
      as it was. */
  lemma ShiftedTail(q: seq<Item>, q': seq<Item>, tail: seq<Item>, i: nat)
    requires i < |q| == |q'|
    requires forall j :: 0 <= j < |q| && j != i ==> q'[j] == q[j]
    ensures |q' + tail| == |q + tail|
    ensures forall j :: 0 <= j < |q + tail| && j != i ==> (q' + tail)[j] == (q + tail)[j]
  {
  }

  /** The fates from `i + 1` on, taken over to `all`, plus the fate at `i`. */
  lemma FatesFrom(env: Env, i: nat, all: seq<Item>, all': seq<Item>, out: seq<Item>)
    requires i < |all| == |all'| == |out|
    requires forall j :: i + 1 <= j < |all| ==> all'[j] == all[j]
    requires forall j :: i + 1 <= j < |all'| ==> out[j] == Fate(env, j, all'[j])
    requires out[i] == Fate(env, i, all[i])
    ensures forall j :: i <= j < |all| ==> out[j] == Fate(env, j, all[j])
  {
  }

  /** The stop step at index `i` together with the immediate end at `i + 1`. */
  lemma StopStepOutcome(st: ModernState, i: nat, env: Env, next: ModernState)
    requires i <= |st.queue| && Clean(st)
    requires env.stop.StopAt? && env.stop.step == i && env.stop.point != BeforeCheck
    requires i < |st.queue| + |Arrivals(env, i)|
    requires next == Advance(st.(queue := st.queue + Arrivals(env, i)), i, env)
    ensures OutcomeOf(st, i, env, Process(st, i, env))
  {
    StoppedRunEnds(next, i + 1, env);
    assert Process(st, i, env) == Process(next, i + 1, env);
    StopOutcomeOf(st, i, env, next, Process(next, i + 1, env));
  }

  /** The immediate end `r` after the stop step at `i` is an outcome from `i`. */
  lemma StopOutcomeOf(st: ModernState, i: nat, env: Env, next: ModernState, r: Run)
    requires i <= |st.queue| && Clean(st)
    requires env.stop.StopAt? && env.stop.step == i && env.stop.point != BeforeCheck
    requires i < |st.queue| + |Arrivals(env, i)|
    requires next == Advance(st.(queue := st.queue + Arrivals(env, i)), i, env)
    requires r.end == i + 1 && r.state == next.(queue := next.queue + Arrivals(env, i + 1), processing := false)
    ensures OutcomeOf(st, i, env, r)
  {
    AppendedStep(env, i, i + 2);
    assert Appended(env, i + 1, i + 2) == Arrivals(env, i + 1);
  }

  /** With no stop, every dispatchable item and every item appended before the
      loop ran out ends `Completed` or `Error`, and nothing else changes. */
  lemma ProcessWithoutStop(st: ModernState, env: Env)
    requires Clean(st) && env.stop == NoStop
    ensures var r := Process(st, 0, env);
      var all := st.queue + Appended(env, 0, r.end + 1);
      && |r.state.queue| == |all| && r.end == |all|
      && (forall j :: 0 <= j < |all| ==> r.state.queue[j] == Handle(all[j], env.succeeds(j)))
      && !r.state.processing && !r.state.cancel
  {
    ProcessOutcome(st, 0, env);
  }

  /** A stop before a job's cancel check leaves its item `Downloading`, and
      neither a restart nor any later run of the loop touches it again. */
  lemma StuckDownloading(st: ModernState, env: Env, k: nat, later: Env)
    requires Clean(st) && env.stop == StopAt(k, BeforeTransfer)
    requires k < |st.queue| && Dispatchable(st.queue[k].status)
    ensures var done := Process(st, 0, env).state;
      && k < |done.queue| && done.queue[k] == st.queue[k].(status := Downloading)
      && var again := Process(StartQueue(done), 0, later).state;
         k < |again.queue| && again.queue[k] == done.queue[k]
  {
    ProcessOutcome(st, 0, env);
    var done := Process(st, 0, env).state;
    ProcessOutcome(StartQueue(done), 0, later);
  }
}
