/** The application object of the "final" subprocess variant: the methods
    that update `download_queue`, the item dictionaries and the
    `is_downloading` / `stop_event` flags in place, each tied to the
    value-level model in FinalQueue. */
module FinalApp {
  import opened Text
  import opened YtdlpCli
  import opened FinalQueue

  class FinalDownloader {
    var queue: seq<FinalItem>
    var isDownloading: bool
    var stopEvent: bool
    /** The url entry box (`url_var`), which `add_to_queue` reads and clears. */
    var urlEntry: string
    /** The yt-dlp executable found at start-up; empty when none was found. */
    const ytdlpPath: string

    constructor (ytdlpPath: string)
      ensures queue == [] && !isDownloading && !stopEvent && urlEntry == "" && this.ytdlpPath == ytdlpPath
    {
      queue := [];
      isDownloading := false;
      stopEvent := false;
      urlEntry := "";
      this.ytdlpPath := ytdlpPath;
    }

    function State(): FinalState
      reads this
    {
      FinalState(queue, isDownloading, stopEvent)
    }

    /** `add_to_queue`: an empty or invalid entry changes nothing and is
        answered by its warning; a valid one appends one `Queued` item and
        clears the entry. */
    method AddToQueue(formatType: string, downloadPath: string) returns (check: EntryCheck)
      modifies this
      ensures check == CheckEntry(old(urlEntry))
      ensures check.Accepted? ==>
        State() == old(State()).(queue := old(queue) + [NewFinalItem(check.url, formatType, downloadPath)])
        && urlEntry == ""
      ensures !check.Accepted? ==> State() == old(State()) && urlEntry == old(urlEntry)
    {
      check := ReadEntry();
      if !check.Accepted? {
        return;
      }
      Append(NewFinalItem(check.url, formatType, downloadPath));
    }

    /** The stripped entry and the checks `add_to_queue` makes on it. */
    method ReadEntry() returns (check: EntryCheck)
      ensures check == CheckEntry(urlEntry)
    {
      var url := Strip(urlEntry);
      if |url| == 0 {
        return NoUrl;
      }
      if !IsValidUrl(url) {
        return NotYoutube;
      }
      return Accepted(url);
    }

    /** The append and the cleared entry of an accepted url. */
    method Append(item: FinalItem)
      modifies this
      ensures State() == old(State()).(queue := old(queue) + [item]) && urlEntry == ""
    {
      queue := queue + [item];
      urlEntry := "";
    }

    /** `remove_selected`: the selected positions are deleted from the highest
        down, so the lower ones still point at the right items. */
    method RemoveSelected(selection: seq<nat>)
      requires Ascending(selection, |queue|)
      modifies this
      ensures queue == Without(old(queue), Elems(selection, 0))
      ensures |queue| == |old(queue)| - |selection|
      ensures isDownloading == old(isDownloading) && stopEvent == old(stopEvent) && urlEntry == old(urlEntry)
    {
      if |selection| == 0 {
        WithoutFromAgree(queue, {}, Elems(selection, 0), 0);
        WithoutNothing(queue, 0);
        return;
      }
      WithoutNothing(queue, 0);
      WithoutFromAgree(queue, {}, Elems(selection, |selection|), 0);
      var k := |selection|;
      while k > 0
        invariant 0 <= k <= |selection|
        invariant queue == Without(old(queue), Elems(selection, k))
        invariant |queue| == |old(queue)| - (|selection| - k)
        invariant isDownloading == old(isDownloading) && stopEvent == old(stopEvent) && urlEntry == old(urlEntry)
      {
        var index := selection[k - 1];
        AscendingRoom(selection, |old(queue)|, k - 1);
        assert forall y :: y in Elems(selection, k) ==> y > index;
        DeleteBelow(old(queue), Elems(selection, k), 0, index);
        ElemsStep(selection, k);
        queue := queue[..index] + queue[index + 1..];
        k := k - 1;
      }
    }

    /** `move_up`. */
    method MoveUp(selection: seq<nat>)
      requires |selection| > 0 ==> selection[0] < |queue|
      modifies this
      ensures queue == MovedUp(old(queue), selection)
      ensures isDownloading == old(isDownloading) && stopEvent == old(stopEvent) && urlEntry == old(urlEntry)
    {
      if |selection| == 0 || selection[0] == 0 {
        return;
      }
      var index := selection[0];
      queue := queue[index := queue[index - 1]][index - 1 := queue[index]];
    }

    /** `move_down`. */
    method MoveDown(selection: seq<nat>)
      requires |selection| > 0 ==> selection[0] < |queue|
      modifies this
      ensures queue == MovedDown(old(queue), selection)
      ensures isDownloading == old(isDownloading) && stopEvent == old(stopEvent) && urlEntry == old(urlEntry)
    {
      if |selection| == 0 || selection[0] == |queue| - 1 {
        return;
      }
      var index := selection[0];
      queue := queue[index := queue[index + 1]][index + 1 := queue[index]];
    }

    /** `clear_queue`: refused while downloading. */
    method ClearQueue()
      modifies this
      ensures old(isDownloading) ==> State() == old(State())
      ensures !old(isDownloading) ==> State() == old(State()).(queue := [])
      ensures urlEntry == old(urlEntry)
    {
      if isDownloading {
        return;
      }
      queue := [];
    }

    /** `stop_downloads`. */
    method StopDownloads()
      modifies this
      ensures State() == Halt(old(State())) && urlEntry == old(urlEntry)
    {
      stopEvent := true;
      isDownloading := false;
    }

    /** The monitor loop of `download_with_ytdlp` for the item at `index`: a
        stop seen before a read terminates the process and fails; each line
        read may update the item's progress; afterwards success is exit code
        0. The user's stop lands before check `stopLine`. */
    method DownloadWithYtdlp(index: nat, run: Run, stopLine: Option<nat>) returns (ok: bool)
      requires index < |queue|
      modifies this
      ensures var o := Transfer(run, Seen(old(stopEvent), stopLine), old(queue[index].progress));
        var halted := if !old(stopEvent) && stopLine.Some? then Halt(old(State())) else old(State());
        ok == o.ok && State() == halted.(queue := WithProgress(old(queue), index, o.progress))
      ensures urlEntry == old(urlEntry)
    {
      MonitorTransfer(run, Seen(stopEvent, stopLine), 0, queue[index].progress);
      assert run.lines[..0] == [];
      ok := MonitorLoop(index, run, stopLine);
    }

    /** The loop itself, run to the outcome of Monitor from the first check. */
    method MonitorLoop(index: nat, run: Run, stopLine: Option<nat>) returns (ok: bool)
      requires index < |queue|
      modifies this
      ensures var o := Monitor(run, Seen(old(stopEvent), stopLine), 0, old(queue[index].progress));
        var halted := if !old(stopEvent) && stopLine.Some? then Halt(old(State())) else old(State());
        ok == o.ok && State() == halted.(queue := WithProgress(old(queue), index, o.progress))
      ensures urlEntry == old(urlEntry)
    {
      ghost var seen := Seen(stopEvent, stopLine);
      ghost var target := Monitor(run, seen, 0, queue[index].progress);
      var k := 0;
      WithProgressSame(queue, index);
      while true
        invariant k <= LinesRead(run, seen) && index < |queue|
        invariant Monitor(run, seen, k, queue[index].progress) == target
        invariant State() == old(State()).(queue := WithProgress(old(queue), index, queue[index].progress))
        invariant urlEntry == old(urlEntry)
        decreases |run.lines| - k
      {
        var stop := CheckStop(k, run, stopLine);
        if stop {
          assert k == LinesRead(run, seen);
          return false;
        }
        if k == |run.lines| {
          break;
        }
        MonitorStep(run, seen, k, queue[index].progress);
        ghost var before := queue;
        ReadLine(index, run.lines[k]);
        WithProgressTwice(old(queue), index, before[index].progress, queue[index].progress);
        k := k + 1;
      }
      ok := run.returnCode == 0;
    }

    /** The stop check ahead of read `k`, with the user's stop landing just
        before it when `stopLine` says so. */
    method CheckStop(k: nat, run: Run, stopLine: Option<nat>) returns (stop: bool)
      modifies this
      ensures stop == (old(stopEvent) || (stopLine.Some? && k == LinesRead(run, stopLine)))
      ensures State() == if !old(stopEvent) && stopLine.Some? && k == LinesRead(run, stopLine)
                         then Halt(old(State())) else old(State())
      ensures urlEntry == old(urlEntry)
    {
      if stopEvent {
        return true;
      }
      if stopLine.Some? && k == LinesRead(run, stopLine) {
        StopDownloads();
        return true;
      }
      return false;
    }

    /** One line of yt-dlp output: a percentage in it becomes the item's
        progress. */
    method ReadLine(index: nat, line: string)
      requires index < |queue|
      modifies this
      ensures State() == old(State()).(queue := WithProgress(old(queue), index, ScrapeProgress(line, old(queue)[index].progress)))
      ensures urlEntry == old(urlEntry)
    {
      if |line| > 0 {
        var progress := ScrapeProgress(line, queue[index].progress);
        queue := queue[index := queue[index].(progress := progress)];
      } else {
        assert LeftmostMatch(line) == None;
        WithProgressSame(queue, index);
      }
    }

    /** `download_worker` over the snapshot `indices`. */
    method DownloadWorker(indices: seq<nat>, env: CliEnv)
      modifies this
      ensures State() == Work(old(State()), indices, 0, env) && urlEntry == old(urlEntry)
    {
      ghost var target := Work(State(), indices, 0, env);
      var c := 0;
      while c < |indices|
        invariant c <= |indices|
        invariant Work(State(), indices, c, env) == target && urlEntry == old(urlEntry)
      {
        if StopsBefore(env, c) {
          StopDownloads();
        }
        if stopEvent {
          break;
        }
        var i := indices[c];
        if i >= |queue| {
          if StopsLate(env, c) {
            StopDownloads();
          }
          c := c + 1;
          continue;
        }
        if queue[i].status != Queued {
          if StopsLate(env, c) {
            StopDownloads();
          }
          c := c + 1;
          continue;
        }
        HandleItem(i, c, env);
        c := c + 1;
      }
      isDownloading := false;
    }

    /** The body of one worker step for a `Queued` item: `Downloading`, the
        transfer, then `Completed` with 100 or `Failed`. */
    method HandleItem(i: nat, c: nat, env: CliEnv)
      requires !stopEvent && Dispatchable(queue, i)
      modifies this
      ensures State() == Step(old(State()), i, c, env) && urlEntry == old(urlEntry)
    {
      ghost var st := State();
      ghost var o := Transfer(env.runs(c), StopLine(env, c), queue[i].progress);
      ghost var s1 := if StopLine(env, c).Some? then Halt(st) else st;
      queue := queue[i := queue[i].(status := Downloading)];
      var ok := DownloadWithYtdlp(i, env.runs(c), StopLine(env, c));
      assert ok == o.ok && queue[i] == st.queue[i].(status := Downloading, progress := o.progress);
      Overwrite(st.queue, i, st.queue[i].(status := Downloading), o.progress, Finish(st.queue[i], o));
      if ok {
        queue := queue[i := queue[i].(status := Completed, progress := 100)];
      } else {
        queue := queue[i := queue[i].(status := Failed)];
      }
      assert State() == s1.(queue := st.queue[i := Finish(st.queue[i], o)]);
      if StopsAfter(env, c) {
        StopDownloads();
      }
    }

    /** `start_downloads`, followed by the worker it starts. */
    method StartDownloads(selectedOnly: bool, immediate: bool, selection: seq<nat>, env: CliEnv)
      modifies this
      ensures var plan := StartPlan(old(State()), ytdlpPath, selectedOnly, immediate, selection);
        var started := StartState(old(State()), plan);
        State() == (if plan.Started? then Work(started, plan.indices, 0, env) else started)
      ensures urlEntry == old(urlEntry)
    {
      if |queue| == 0 {
        return;
      }
      if isDownloading && !immediate {
        return;
      }
      if |ytdlpPath| == 0 {
        return;
      }
      isDownloading := true;
      stopEvent := false;
      var indices: seq<nat>;
      if selectedOnly {
        if |selection| == 0 {
          isDownloading := false;
          return;
        }
        indices := selection;
      } else {
        indices := Range(|queue|);
      }
      DownloadWorker(indices, env);
    }
  }

  /** Writing position `i` again overwrites what the transfer left there. */
  lemma Overwrite(q: seq<FinalItem>, i: nat, a: FinalItem, p: nat, b: FinalItem)
    requires i < |q|
    ensures WithProgress(q[i := a], i, p)[i := b] == q[i := b]
  {
  }

  /** A second progress update replaces the first. */
  lemma WithProgressTwice(q: seq<FinalItem>, i: nat, p: nat, p': nat)
    requires i < |q|
    ensures WithProgress(WithProgress(q, i, p), i, p') == WithProgress(q, i, p')
  {
  }

  /** Setting an item's progress to its own value changes nothing. */
  lemma WithProgressSame(q: seq<FinalItem>, i: nat)
    requires i < |q|
    ensures WithProgress(q, i, q[i].progress) == q
  {
  }

  /** With nothing selected, nothing is left out. */
  lemma {:induction false} WithoutNothing(q: seq<FinalItem>, base: nat)
    ensures WithoutFrom(q, {}, base) == q
    decreases |q|
  {
    if |q| > 0 {
      WithoutNothing(q[1..], base + 1);
      assert q == [q[0]] + q[1..];
    }
  }
}
