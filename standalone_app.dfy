/** The application object of the "standalone" subprocess variant: the
    methods that update `download_queue`, the item dictionaries and the
    `is_downloading` / `stop_event` flags in place, each tied to the
    value-level model in StandaloneQueue. */
module StandaloneApp {
  import opened Text
  import opened YtdlpCli
  import opened StandaloneQueue

  class StandaloneDownloader {
    var queue: seq<StandaloneItem>
    var isDownloading: bool
    var stopEvent: bool
    /** The url entry box (`url_var`), which `add_to_queue` reads and clears. */
    var urlEntry: string
    /** The yt-dlp executable found at start-up; empty when none was found. */
    const ytdlpPath: string

    constructor (ytdlpPath: string)
      ensures queue == [] && !isDownloading && !stopEvent && urlEntry == "" && this.ytdlpPath == ytdlpPath
    {
      queue := [];
      isDownloading := false;
      stopEvent := false;
      urlEntry := "";
      this.ytdlpPath := ytdlpPath;
    }

    function State(): StandaloneState
      reads this
    {
      StandaloneState(queue, isDownloading, stopEvent)
    }

    /** `add_to_queue`: an empty or invalid entry changes nothing and is
        answered by its warning; a valid one appends one `Queued` item with
        progress 0 and clears the entry. */
    method AddToQueue() returns (check: EntryCheck)
      modifies this
      ensures check == CheckEntry(old(urlEntry))
      ensures check.Accepted? ==>
        State() == old(State()).(queue := old(queue) + [NewItem(check.url)]) && urlEntry == ""
      ensures !check.Accepted? ==> State() == old(State()) && urlEntry == old(urlEntry)
    {
      check := ReadEntry();
      if !check.Accepted? {
        return;
      }
      Append(NewItem(check.url));
    }

    /** The stripped entry and the checks `add_to_queue` makes on it. */
    method ReadEntry() returns (check: EntryCheck)
      ensures check == CheckEntry(urlEntry)
    {
      var url := Strip(urlEntry);
      if |url| == 0 {
        return NoUrl;
      }
      if !IsValidUrl(url) {
        return NotYoutube;
      }
      return Accepted(url);
    }

    /** The append and the cleared entry of an accepted url. */
    method Append(item: StandaloneItem)
      modifies this
      ensures State() == old(State()).(queue := old(queue) + [item]) && urlEntry == ""
    {
      queue := queue + [item];
      urlEntry := "";
    }

    /** `clear_queue`: refused while downloading. */
    method ClearQueue()
      modifies this
      ensures old(isDownloading) ==> State() == old(State())
      ensures !old(isDownloading) ==> State() == old(State()).(queue := [])
      ensures urlEntry == old(urlEntry)
    {
      if isDownloading {
        return;
      }
      queue := [];
    }

    /** `stop_downloads`. */
    method StopDownloads()
      modifies this
      ensures State() == Halt(old(State())) && urlEntry == old(urlEntry)
    {
      stopEvent := true;
      isDownloading := false;
    }

    /** `start_downloads`: one of three refusals, or the flags set and the
        worker run. */
    method StartDownloads(env: StandaloneEnv) returns (refusal: Option<StartRefusal>)
      modifies this
      ensures refusal == StartCheck(old(State()), ytdlpPath)
      ensures refusal.Some? ==> State() == old(State())
      ensures refusal.None? ==> State() == Work(old(State()).(downloading := true, stopEvent := false), 0, env)
      ensures urlEntry == old(urlEntry)
    {
      if |queue| == 0 {
        return Some(EmptyQueue);
      }
      if isDownloading {
        return Some(AlreadyRunning);
      }
      if |ytdlpPath| == 0 {
        return Some(NoYtdlp);
      }
      isDownloading := true;
      stopEvent := false;
      DownloadWorker(env);
      refusal := None;
    }

    /** The urls `add_to_queue` appends while the worker runs, before it moves
        to position `i`. */
    method Arrive(env: StandaloneEnv, i: nat)
      modifies this
      ensures State() == old(State()).(queue := old(queue) + Arrivals(env, i)) && urlEntry == old(urlEntry)
    {
      queue := queue + Arrivals(env, i);
    }

    /** `download_worker`: the walk over the live list. */
    method DownloadWorker(env: StandaloneEnv)
      modifies this
      ensures State() == Work(old(State()), 0, env) && urlEntry == old(urlEntry)
    {
      ghost var target := Work(State(), 0, env);
      var i := 0;
      while true
        invariant i <= |queue|
        invariant Work(State(), i, env) == target && urlEntry == old(urlEntry)
        decreases Pending(env, i) + |queue| - i
      {
        var done := Visit(i, env, target);
        if done {
          break;
        }
        i := i + 1;
      }
      isDownloading := false;
    }

    /** One pass of the worker loop at position `i`: the urls added before
        it, the end of the list, the stop check, and the item's step. */
    method Visit(i: nat, env: StandaloneEnv, ghost target: StandaloneState) returns (done: bool)
      requires i <= |queue| && Work(State(), i, env) == target
      modifies this
      ensures urlEntry == old(urlEntry)
      ensures !done ==> Pending(env, i + 1) + |queue| - (i + 1) < Pending(env, i) + |old(queue)| - i
      ensures done ==> State().(downloading := false) == target
      ensures !done ==> i < |queue| && Work(State(), i + 1, env) == target
    {
      PendingStep(env, i);
      Arrive(env, i);
      if i >= |queue| {
        return true;
      }
      if StopsBefore(env.cli, i) {
        StopDownloads();
      }
      if stopEvent {
        return true;
      }
      if queue[i].status != Queued {
        if StopsLate(env.cli, i) {
          StopDownloads();
        }
        return false;
      }
      HandleItem(i, env.cli);
      return false;
    }

    /** The body of one worker step for a `Queued` item: `Downloading`, the
        transfer, then `Completed` with 100 or `Failed`. */
    method HandleItem(i: nat, env: CliEnv)
      requires !stopEvent && i < |queue| && queue[i].status == Queued
      modifies this
      ensures State() == Step(old(State()), i, env) && urlEntry == old(urlEntry)
    {
      ghost var st := State();
      ghost var o := Transfer(env.runs(i), StopLine(env, i), queue[i].progress);
      ghost var s1 := if StopLine(env, i).Some? then Halt(st) else st;
      queue := queue[i := queue[i].(status := Downloading)];
      var ok := DownloadWithYtdlp(i, env.runs(i), StopLine(env, i));
      assert ok == o.ok && queue[i] == st.queue[i].(status := Downloading, progress := o.progress);
      Overwrite(st.queue, i, st.queue[i].(status := Downloading), o.progress, Finish(st.queue[i], o));
      if ok {
        queue := queue[i := queue[i].(status := Completed, progress := 100)];
      } else {
        queue := queue[i := queue[i].(status := Failed)];
      }
      assert State() == s1.(queue := st.queue[i := Finish(st.queue[i], o)]);
      if StopsAfter(env, i) {
        StopDownloads();
      }
    }

    /** The monitor loop of `download_with_ytdlp` for the item at `index`: a
        stop seen before a read terminates the process and fails; each line
        read may update the item's progress; afterwards success is exit code
        0. The user's stop lands before check `stopLine`. */
    method DownloadWithYtdlp(index: nat, run: Run, stopLine: Option<nat>) returns (ok: bool)
      requires index < |queue|
      modifies this
      ensures var o := Transfer(run, Seen(old(stopEvent), stopLine), old(queue[index].progress));
        var halted := if !old(stopEvent) && stopLine.Some? then Halt(old(State())) else old(State());
        ok == o.ok && State() == halted.(queue := WithProgress(old(queue), index, o.progress))
      ensures urlEntry == old(urlEntry)
    {
      MonitorTransfer(run, Seen(stopEvent, stopLine), 0, queue[index].progress);
      assert run.lines[..0] == [];
      ok := MonitorLoop(index, run, stopLine);
    }

    /** The loop itself, run to the outcome of Monitor from the first check. */
    method MonitorLoop(index: nat, run: Run, stopLine: Option<nat>) returns (ok: bool)
      requires index < |queue|
      modifies this
      ensures var o := Monitor(run, Seen(old(stopEvent), stopLine), 0, old(queue[index].progress));
        var halted := if !old(stopEvent) && stopLine.Some? then Halt(old(State())) else old(State());
        ok == o.ok && State() == halted.(queue := WithProgress(old(queue), index, o.progress))
      ensures urlEntry == old(urlEntry)
    {
      ghost var seen := Seen(stopEvent, stopLine);
      ghost var target := Monitor(run, seen, 0, queue[index].progress);
      var k := 0;
      WithProgressSame(queue, index);
      while true
        invariant k <= LinesRead(run, seen) && index < |queue|
        invariant Monitor(run, seen, k, queue[index].progress) == target
        invariant State() == old(State()).(queue := WithProgress(old(queue), index, queue[index].progress))
        invariant urlEntry == old(urlEntry)
        decreases |run.lines| - k
      {
        var stop := CheckStop(k, run, stopLine);
        if stop {
          assert k == LinesRead(run, seen);
          return false;
        }
        if k == |run.lines| {
          break;
        }
        MonitorStep(run, seen, k, queue[index].progress);
        ghost var before := queue;
        ReadLine(index, run.lines[k]);
        WithProgressTwice(old(queue), index, before[index].progress, queue[index].progress);
        k := k + 1;
      }
      ok := run.returnCode == 0;
    }

    /** The stop check ahead of read `k`, with the user's stop landing just
        before it when `stopLine` says so. */
    method CheckStop(k: nat, run: Run, stopLine: Option<nat>) returns (stop: bool)
      modifies this
      ensures stop == (old(stopEvent) || (stopLine.Some? && k == LinesRead(run, stopLine)))
      ensures State() == if !old(stopEvent) && stopLine.Some? && k == LinesRead(run, stopLine)
                         then Halt(old(State())) else old(State())
      ensures urlEntry == old(urlEntry)
    {
      if stopEvent {
        return true;
      }
      if stopLine.Some? && k == LinesRead(run, stopLine) {
        StopDownloads();
        return true;
      }
      return false;
    }

    /** One line of yt-dlp output: a percentage in it becomes the item's
        progress. */
    method ReadLine(index: nat, line: string)
      requires index < |queue|
      modifies this
      ensures State() == old(State()).(queue := WithProgress(old(queue), index, ScrapeProgress(line, old(queue)[index].progress)))
      ensures urlEntry == old(urlEntry)
    {
      if |line| > 0 {
        var progress := ScrapeProgress(line, queue[index].progress);
        queue := queue[index := queue[index].(progress := progress)];
      } else {
        assert LeftmostMatch(line) == None;
        WithProgressSame(queue, index);
      }
    }
  }

  /** Writing position `i` again overwrites what the transfer left there. */
  lemma Overwrite(q: seq<StandaloneItem>, i: nat, a: StandaloneItem, p: nat, b: StandaloneItem)
    requires i < |q|
    ensures WithProgress(q[i := a], i, p)[i := b] == q[i := b]
  {
  }

  /** A second progress update replaces the first. */
  lemma WithProgressTwice(q: seq<StandaloneItem>, i: nat, p: nat, p': nat)
    requires i < |q|
    ensures WithProgress(WithProgress(q, i, p), i, p') == WithProgress(q, i, p')
  {
  }

  /** Setting an item's progress to its own value changes nothing. */
  lemma WithProgressSame(q: seq<StandaloneItem>, i: nat)
    requires i < |q|
    ensures WithProgress(q, i, q[i].progress) == q
  {
  }
}
