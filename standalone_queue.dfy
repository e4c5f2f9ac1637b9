/** The value-level model of the queue of the "standalone" subprocess
    variant: its items, the queue display lines, the start guards and the
    worker, which walks the live `download_queue`, so items the user adds
    while it runs are reached too. */
module StandaloneQueue {
  import opened Text
  import opened YtdlpCli

  /** One `download_queue` dictionary: `url`, `status`, `progress`. */
  datatype StandaloneItem = StandaloneItem(url: string, status: JobStatus, progress: nat)

  /** The dictionary `add_to_queue` appends. */
  function NewItem(url: string): (it: StandaloneItem)
    ensures it.url == url && it.status == Queued && it.progress == 0
  {
    StandaloneItem(url, Queued, 0)
  }

  /** The items for the urls added in order. */
  function NewItems(urls: seq<string>): (r: seq<StandaloneItem>)
    ensures |r| == |urls|
  {
    if |urls| == 0 then [] else NewItems(urls[..|urls| - 1]) + [NewItem(urls[|urls| - 1])]
  }

  /** Item `k` is the new item for url `k`. */
  lemma {:induction false} NewItemsAt(urls: seq<string>)
    ensures forall k :: 0 <= k < |urls| ==> NewItems(urls)[k] == NewItem(urls[k])
  {
    if |urls| > 0 {
      NewItemsAt(urls[..|urls| - 1]);
    }
  }

  // ---------------------------------------------------------------------
  // update_queue_display
  // ---------------------------------------------------------------------

  /** The listbox line of the item at position `i`:
      `f"{i+1}. {url_short} - {status} ({progress}%)"`. */
  function DisplayLine(i: nat, it: StandaloneItem): string {
    NatToString(i + 1) + ". " + Shorten(it.url) + " - " + StatusText(it.status)
      + " (" + NatToString(it.progress) + "%)"
  }

  /** The line opens with the 1-based position, read back from its leading
      digits, followed by `. `, and it closes with `%)`. */
  lemma DisplayLineNumber(i: nat, it: StandaloneItem)
    ensures var r := DisplayLine(i, it);
      var n := RunLength(r, 0, IsDigit);
      && 0 < n && n + 2 <= |r| && AllDigits(r[..n]) && DigitsValue(r[..n]) == i + 1
      && r[n..n + 2] == ". " && r[|r| - 2..] == "%)"
  {
    var mid := Shorten(it.url) + " - " + StatusText(it.status) + " (" + NatToString(it.progress);
    var tail := ". " + mid + "%)";
    Regroup(NatToString(i + 1), ". ", Shorten(it.url), " - ", StatusText(it.status), " (",
      NatToString(it.progress), "%)");
    assert tail[..2] == ". ";
    assert tail[|tail| - 2..] == "%)";
    LeadingNumber(i + 1, tail);
  }

  /** A display line is its number followed by the rest. */
  lemma Regroup(a: string, b: string, c: string, d: string, e: string, f: string, g: string, h: string)
    ensures a + b + c + d + e + f + g + h == a + (b + (c + d + e + f + g) + h)
  {
  }

  /** A rendered number followed by `. ` is read back from the leading digits. */
  lemma LeadingNumber(n: nat, tail: string)
    requires |tail| >= 2 && tail[..2] == ". "
    ensures var r := NatToString(n) + tail;
      var k := RunLength(r, 0, IsDigit);
      && k == |NatToString(n)| && AllDigits(r[..k]) && DigitsValue(r[..k]) == n && r[k..k + 2] == ". "
      && r[|r| - 2..] == tail[|tail| - 2..]
  {
    var d := NatToString(n);
    var r := d + tail;
    assert r[..|d|] == d;
    assert r[|d|] == tail[0] == '.';
    RunLengthIs(r, 0, IsDigit, |d|);
    DigitsValueOfNatToString(n);
    assert r[|d|..|d| + 2] == tail[..2];
    assert r[|r| - 2..] == tail[|tail| - 2..];
  }

  /** Lines at different positions differ, whatever the items. */
  lemma DisplayLinesDiffer(i: nat, a: StandaloneItem, j: nat, b: StandaloneItem)
    requires i != j
    ensures DisplayLine(i, a) != DisplayLine(j, b)
  {
    DisplayLineNumber(i, a);
    DisplayLineNumber(j, b);
  }

  // ---------------------------------------------------------------------
  // start_downloads, stop_downloads
  // ---------------------------------------------------------------------

  datatype StandaloneState = StandaloneState(queue: seq<StandaloneItem>, downloading: bool, stopEvent: bool)

  /** `stop_downloads`: the stop flag set and `is_downloading` cleared. */
  function Halt(st: StandaloneState): (r: StandaloneState)
    ensures r.queue == st.queue && r.stopEvent && !r.downloading
  {
    st.(stopEvent := true, downloading := false)
  }

  /** The three messages `start_downloads` can give instead of starting. */
  datatype StartRefusal = EmptyQueue | AlreadyRunning | NoYtdlp

  /** The guards of `start_downloads`, in the order it tests them. */
  function StartCheck(st: StandaloneState, ytdlpPath: string): (r: Option<StartRefusal>)
    ensures r.None? <==> |st.queue| > 0 && !st.downloading && |ytdlpPath| > 0
    ensures r == Some(EmptyQueue) <==> |st.queue| == 0
    ensures r == Some(AlreadyRunning) <==> |st.queue| > 0 && st.downloading
  {
    if |st.queue| == 0 then Some(EmptyQueue)
    else if st.downloading then Some(AlreadyRunning)
    else if |ytdlpPath| == 0 then Some(NoYtdlp)
    else None
  }

  // ---------------------------------------------------------------------
  // download_worker
  // ---------------------------------------------------------------------

  /** What happens while the worker runs: the user's stop and the runs of
      yt-dlp (both per step, as in the other subprocess variant), and the urls
      `add_to_queue` appends before the worker moves to each position. */
  datatype StandaloneEnv = StandaloneEnv(cli: CliEnv, arrivals: seq<seq<string>>)

  function Arrivals(env: StandaloneEnv, i: nat): seq<StandaloneItem> {
    if i < |env.arrivals| then NewItems(env.arrivals[i]) else []
  }

  /** How many items are still to arrive from position `i` on. */
  function Pending(env: StandaloneEnv, i: nat): nat
    decreases |env.arrivals| - i
  {
    if i >= |env.arrivals| then 0 else |env.arrivals[i]| + Pending(env, i + 1)
  }

  lemma PendingStep(env: StandaloneEnv, i: nat)
    ensures Pending(env, i) == |Arrivals(env, i)| + Pending(env, i + 1)
  {
  }

  /** The two writes after a transfer. */
  function Finish(it: StandaloneItem, o: Outcome): (r: StandaloneItem)
    ensures r.url == it.url
    ensures o.ok ==> r.status == Completed && r.progress == 100
    ensures !o.ok ==> r.status == Failed && r.progress == o.progress
  {
    if o.ok then it.(status := Completed, progress := 100) else it.(status := Failed, progress := o.progress)
  }

  /** The item at position `i` with its progress set to `p`. */
  function WithProgress(q: seq<StandaloneItem>, i: nat, p: nat): (r: seq<StandaloneItem>)
    requires i < |q|
    ensures |r| == |q| && r[i] == q[i].(progress := p)
    ensures forall j :: 0 <= j < |q| && j != i ==> r[j] == q[j]
  {
    q[i := q[i].(progress := p)]
  }

  /** One worker step at position `i` after its stop check has passed: skip an
      item that is not `Queued`, or transfer and record the outcome. */
  function Step(st: StandaloneState, i: nat, env: CliEnv): (r: StandaloneState)
    requires i < |st.queue|
    ensures |r.queue| == |st.queue|
  {
    if st.queue[i].status != Queued then
      (if StopsLate(env, i) then Halt(st) else st)
    else
      var line := StopLine(env, i);
      var o := Transfer(env.runs(i), line, st.queue[i].progress);
      var s1 := if line.Some? then Halt(st) else st;
      var s2 := s1.(queue := st.queue[i := Finish(st.queue[i], o)]);
      if StopsAfter(env, i) then Halt(s2) else s2
  }

  /** A step touches its own position only: an item that is not `Queued` is
      skipped, a `Queued` one gets the outcome of its transfer; the stop flag
      is set exactly when a stop lands in the step after its check. */
  lemma StepOutcome(st: StandaloneState, i: nat, env: CliEnv)
    requires i < |st.queue|
    ensures var r := Step(st, i, env);
      && (forall j :: 0 <= j < |st.queue| && j != i ==> r.queue[j] == st.queue[j])
      && (st.queue[i].status != Queued ==> r.queue == st.queue)
      && (st.queue[i].status == Queued ==>
            r.queue[i] == Finish(st.queue[i], Transfer(env.runs(i), StopLine(env, i), st.queue[i].progress)))
      && r.stopEvent == (st.stopEvent || StopsLate(env, i))
      && (StopsLate(env, i) ==> !r.downloading)
      && (!StopsLate(env, i) ==> r.downloading == st.downloading)
  {
  }

  /** `download_worker` from position `i`: `enumerate` over the live list, so
      the urls added before position `i` is reached are part of the walk; a
      break when the stop flag is set; `is_downloading` cleared at the end. */
  function Work(st: StandaloneState, i: nat, env: StandaloneEnv): (r: StandaloneState)
    requires i <= |st.queue|
    ensures |r.queue| >= |st.queue| && !r.downloading
    decreases if i <= |env.arrivals| then |env.arrivals| - i else 0, |st.queue| - i
  {
    var s0 := st.(queue := st.queue + Arrivals(env, i));
    if i >= |s0.queue| then s0.(downloading := false)
    else
      var s1 := if StopsBefore(env.cli, i) then Halt(s0) else s0;
      if s1.stopEvent then s1.(downloading := false)
      else Work(Step(s1, i, env.cli), i + 1, env)
  }

  /** No item is left `Downloading`, and a `Completed` item shows 100. */
  predicate Tidy(q: seq<StandaloneItem>) {
    forall j :: 0 <= j < |q| ==> q[j].status != Downloading && (q[j].status == Completed ==> q[j].progress == 100)
  }

  lemma TidyAppend(q: seq<StandaloneItem>, urls: seq<string>)
    requires Tidy(q)
    ensures Tidy(q + NewItems(urls))
  {
    var r := q + NewItems(urls);
    NewItemsAt(urls);
    forall j | 0 <= j < |r| ensures r[j].status != Downloading && (r[j].status == Completed ==> r[j].progress == 100) {
      if j >= |q| {
        assert r[j] == NewItems(urls)[j - |q|];
      }
    }
  }

  /** The worker keeps the queue tidy, the items added during the run
      included: every item it takes on ends `Completed` with progress 100 or
      `Failed`. */
  lemma {:induction false} WorkKeepsTidy(st: StandaloneState, i: nat, env: StandaloneEnv)
    requires i <= |st.queue| && Tidy(st.queue)
    ensures Tidy(Work(st, i, env).queue)
    decreases if i <= |env.arrivals| then |env.arrivals| - i else 0, |st.queue| - i
  {
    if i < |env.arrivals| {
      TidyAppend(st.queue, env.arrivals[i]);
    } else {
      assert st.queue + Arrivals(env, i) == st.queue;
    }
    var s0 := st.(queue := st.queue + Arrivals(env, i));
    if i < |s0.queue| {
      var s1 := if StopsBefore(env.cli, i) then Halt(s0) else s0;
      if !s1.stopEvent {
        var s2 := Step(s1, i, env.cli);
        StepOutcome(s1, i, env.cli);
        assert Tidy(s2.queue);
        WorkKeepsTidy(s2, i + 1, env);
      }
    }
  }

  /** No position from `i` on is left `Queued`. */
  predicate Drained(q: seq<StandaloneItem>, i: nat) {
    forall j :: i <= j < |q| ==> q[j].status != Queued
  }

  /** Without a stop the worker reaches every position of the live list, the
      items added during the run included, and leaves none of them `Queued`. */
  lemma {:induction false} WorkDrainsQueue(st: StandaloneState, i: nat, env: StandaloneEnv)
    requires i <= |st.queue| && !st.stopEvent && env.cli.stop == NoStop
    ensures !Work(st, i, env).stopEvent && Drained(Work(st, i, env).queue, i)
    decreases if i <= |env.arrivals| then |env.arrivals| - i else 0, |st.queue| - i
  {
    var s0 := st.(queue := st.queue + Arrivals(env, i));
    if i < |s0.queue| {
      var s2 := Step(s0, i, env.cli);
      StepHandles(s0, i, env.cli);
      WorkDrainsQueue(s2, i + 1, env);
      var r := Work(s2, i + 1, env);
      WorkKeepsPrefix(s2, i + 1, env);
      assert r.queue[i] == s2.queue[i];
      WorkUnfold(st, i, env);
      DrainedFrom(r.queue, i);
    }
  }

  /** Without a stop, a step leaves its position handled and the flag clear. */
  lemma StepHandles(st: StandaloneState, i: nat, env: CliEnv)
    requires i < |st.queue| && !st.stopEvent && env.stop == NoStop
    ensures var r := Step(st, i, env);
      |r.queue| == |st.queue| && r.queue[i].status != Queued && !r.stopEvent
  {
    StepOutcome(st, i, env);
  }

  /** A step of the worker that passes its stop check. */
  lemma WorkUnfold(st: StandaloneState, i: nat, env: StandaloneEnv)
    requires i <= |st.queue| && i < |st.queue| + |Arrivals(env, i)|
    requires !st.stopEvent && !StopsBefore(env.cli, i)
    ensures Work(st, i, env) == Work(Step(st.(queue := st.queue + Arrivals(env, i)), i, env.cli), i + 1, env)
  {
  }

  /** A handled position followed by a drained rest. */
  lemma DrainedFrom(q: seq<StandaloneItem>, i: nat)
    requires i < |q| && q[i].status != Queued && Drained(q, i + 1)
    ensures Drained(q, i)
  {
  }

  /** The positions the worker has passed keep their items. */
  lemma {:induction false} WorkKeepsPrefix(st: StandaloneState, i: nat, env: StandaloneEnv)
    requires i <= |st.queue|
    ensures var r := Work(st, i, env);
      forall j :: 0 <= j < i ==> r.queue[j] == st.queue[j]
    decreases if i <= |env.arrivals| then |env.arrivals| - i else 0, |st.queue| - i
  {
    var s0 := st.(queue := st.queue + Arrivals(env, i));
    if i < |s0.queue| {
      var s1 := if StopsBefore(env.cli, i) then Halt(s0) else s0;
      if !s1.stopEvent {
        StepOutcome(s1, i, env.cli);
        WorkKeepsPrefix(Step(s1, i, env.cli), i + 1, env);
      }
    }
  }

  /** The worker only stops for the user's stop request: the stop flag ends
      set only when it was set before or a stop arrived. */
  lemma {:induction false} WorkStopsOnlyOnRequest(st: StandaloneState, i: nat, env: StandaloneEnv)
    requires i <= |st.queue|
    ensures Work(st, i, env).stopEvent ==> st.stopEvent || env.cli.stop.StopAt?
    decreases if i <= |env.arrivals| then |env.arrivals| - i else 0, |st.queue| - i
  {
    var s0 := st.(queue := st.queue + Arrivals(env, i));
    if i < |s0.queue| {
      var s1 := if StopsBefore(env.cli, i) then Halt(s0) else s0;
      if !s1.stopEvent {
        StepOutcome(s1, i, env.cli);
        WorkStopsOnlyOnRequest(Step(s1, i, env.cli), i + 1, env);
      }
    }
  }

  /** The stop flag ends set exactly when the user's stop falls on a step the
      worker reaches: one from `i` on and inside the live list it has walked. */
  lemma {:induction false} WorkStopFlag(st: StandaloneState, i: nat, env: StandaloneEnv)
    requires i <= |st.queue| && !st.stopEvent
    ensures Work(st, i, env).stopEvent <==>
      env.cli.stop.StopAt? && i <= env.cli.stop.step < |Work(st, i, env).queue|
    decreases if i <= |env.arrivals| then |env.arrivals| - i else 0, |st.queue| - i
  {
    var s0 := st.(queue := st.queue + Arrivals(env, i));
    if i < |s0.queue| && !StopsBefore(env.cli, i) {
      var s2 := Step(s0, i, env.cli);
      StepOutcome(s0, i, env.cli);
      if !s2.stopEvent {
        WorkStopFlag(s2, i + 1, env);
      }
    }
  }

  /** The break: once the stop lands, no item after its step is touched. */
  lemma {:induction false} WorkUntouched(st: StandaloneState, i: nat, env: StandaloneEnv)
    requires i <= |st.queue| && !st.stopEvent
    requires env.cli.stop.StopAt? && i <= env.cli.stop.step
    ensures forall k :: env.cli.stop.step < k < |st.queue| ==> Work(st, i, env).queue[k] == st.queue[k]
    decreases if i <= |env.arrivals| then |env.arrivals| - i else 0, |st.queue| - i
  {
    var s0 := st.(queue := st.queue + Arrivals(env, i));
    if i < |s0.queue| && !StopsBefore(env.cli, i) {
      var s2 := Step(s0, i, env.cli);
      StepOutcome(s0, i, env.cli);
      if i < env.cli.stop.step {
        WorkUntouched(s2, i + 1, env);
      }
    }
  }

  /** Over the whole run, an item that is not `Queued` is left as it was. */
  lemma {:induction false} WorkKeepsOthers(st: StandaloneState, i: nat, env: StandaloneEnv)
    requires i <= |st.queue|
    ensures forall k :: 0 <= k < |st.queue| && st.queue[k].status != Queued ==>
      Work(st, i, env).queue[k] == st.queue[k]
    decreases if i <= |env.arrivals| then |env.arrivals| - i else 0, |st.queue| - i
  {
    var s0 := st.(queue := st.queue + Arrivals(env, i));
    if i < |s0.queue| {
      var s1 := if StopsBefore(env.cli, i) then Halt(s0) else s0;
      if !s1.stopEvent {
        StepOutcome(s1, i, env.cli);
        WorkKeepsOthers(Step(s1, i, env.cli), i + 1, env);
      }
    }
  }

  /** A stop flag already set when the worker starts ends it at once: the
      queue is left as it was, apart from the urls added before the first
      position. */
  lemma StoppedWorkerDoesNothing(st: StandaloneState, env: StandaloneEnv)
    requires st.stopEvent
    ensures Work(st, 0, env) == st.(queue := st.queue + Arrivals(env, 0), downloading := false)
  {
  }
}
