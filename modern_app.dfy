/** The queue methods of the modern GUI's application object, which update
    `download_queue`, the item statuses and the control flags in place. Each
    method is tied to the value-level model in ModernQueue. */
module ModernApp {
  import opened Text
  import opened ModernQueue

  class ModernDownloader {
    var queue: seq<Item>
    var isQueueProcessing: bool
    var cancelRequested: bool
    var downloadStopEvent: bool

    constructor ()
      ensures queue == [] && !isQueueProcessing && !cancelRequested && !downloadStopEvent
    {
      queue := [];
      isQueueProcessing := false;
      cancelRequested := false;
      downloadStopEvent := false;
    }

    function State(): ModernState
      reads this
    {
      ModernState(queue, isQueueProcessing, cancelRequested, downloadStopEvent)
    }

    /** `add_to_queue`: nothing without a parsed video, otherwise one new
        `Queued` entry at the end. */
    method AddToQueue(info: Option<VideoInfo>, downloadType: string, quality: string)
      modifies this
      ensures info.None? ==> State() == old(State())
      ensures info.Some? ==> State() == old(State()).(queue := old(queue) + [NewItem(info.value, downloadType, quality)])
    {
      if info.None? {
        return;
      }
      queue := queue + [NewItem(info.value, downloadType, quality)];
    }

    /** `clear_queue`, unconditionally, even while the queue runs. */
    method ClearQueue()
      modifies this
      ensures State() == old(State()).(queue := [])
    {
      queue := [];
    }

    /** `stop_download`. */
    method StopDownload()
      modifies this
      ensures State() == Stop(old(State()))
    {
      cancelRequested := true;
      downloadStopEvent := true;
      isQueueProcessing := false;
    }

    /** `download_single_item`: an index past the end is ignored, otherwise the
        item becomes `Downloading` and its job is started (RunItemJob). */
    method DownloadSingleItem(index: nat)
      modifies this
      ensures index >= |old(queue)| ==> State() == old(State())
      ensures index < |old(queue)| ==>
        State() == old(State()).(queue := old(queue)[index := old(queue)[index].(status := Downloading)])
    {
      if index >= |queue| {
        return;
      }
      queue := queue[index := queue[index].(status := Downloading)];
    }

    /** The status writes of `_download_item_thread` for the item at `index`. */
    method RunItemJob(index: nat, t: Transfer)
      requires index < |queue|
      modifies this
      ensures State() == RunJob(old(State()), index, t)
    {
      if cancelRequested || downloadStopEvent {
        return;
      }
      var s := match t case Finished(ok) => if ok then Completed else Error case Interrupted => Stopped;
      queue := queue[index := queue[index].(status := s)];
    }

    /** `start_download`: add the parsed video and start its job at once. */
    method StartDownload(info: Option<VideoInfo>, downloadType: string, quality: string, t: Transfer)
      modifies this
      ensures info.None? ==> State() == old(State())
      ensures info.Some? ==>
        var added := old(State()).(queue := old(queue) + [NewItem(info.value, downloadType, quality)]);
        var last := |old(queue)|;
        State() == RunJob(added.(queue := added.queue[last := added.queue[last].(status := Downloading)]), last, t)
    {
      if info.None? {
        return;
      }
      AddToQueue(info, downloadType, quality);
      DownloadSingleItem(|queue| - 1);
      RunItemJob(|queue| - 1, t);
    }

    /** `start_queue_download`: nothing on an empty queue; otherwise the flags
        are cleared, `Stopped` items go back to `Queued`, processing is switched
        on, and the `_process_queue` thread runs. */
    method StartQueueDownload(env: Env)
      modifies this
      ensures |old(queue)| == 0 ==> State() == old(State())
      ensures |old(queue)| > 0 ==> State() == Process(StartQueue(old(State())), 0, env).state
    {
      if |queue| == 0 {
        return;
      }
      cancelRequested := false;
      downloadStopEvent := false;
      var i := 0;
      while i < |queue|
        invariant 0 <= i <= |queue| == |old(queue)|
        invariant forall j :: 0 <= j < i ==> queue[j] == ResetStopped(old(queue))[j]
        invariant forall j :: i <= j < |queue| ==> queue[j] == old(queue)[j]
        invariant !cancelRequested && !downloadStopEvent
      {
        if queue[i].status == Stopped {
          queue := queue[i := queue[i].(status := Queued)];
        }
        i := i + 1;
      }
      assert queue == ResetStopped(old(queue));
      isQueueProcessing := true;
      ProcessQueue(env);
    }

    /** The job of a dispatched item with the stop of this step, if any. */
    method JobWithStop(i: nat, env: Env)
      requires i < |queue|
      modifies this
      ensures State() == JobStep(old(State()), i, env)
    {
      var fin := Finished(env.succeeds(i));
      if StopsAt(env, i, BeforeTransfer) {
        StopDownload();
        RunItemJob(i, fin);
      } else if StopsAt(env, i, DuringTransfer) {
        RunItemJob(i, Interrupted);
        StopDownload();
      } else if StopsAt(env, i, AfterTransfer) {
        RunItemJob(i, fin);
        StopDownload();
      } else {
        RunItemJob(i, fin);
      }
    }

    /** `_process_queue`: the index loop over the live list; before each index
        the user's appends from `env` arrive. */
    method ProcessQueue(env: Env)
      modifies this
      ensures State() == Process(old(State()), 0, env).state
    {
      ghost var target := Process(State(), 0, env);
      var i := 0;
      while true
        invariant i <= |queue|
        invariant Process(State(), i, env) == target
        decreases Pending(env, i) + |queue| - i
      {
        var done := Visit(i, env, target);
        if done {
          break;
        }
        i := i + 1;
      }
      isQueueProcessing := false;
    }

    /** One pass of the loop at index `i`: the items appended before it, the
        end of the list, the flag check, and the dispatch with its job. */
    method Visit(i: nat, env: Env, ghost target: Run) returns (done: bool)
      requires i <= |queue| && Process(State(), i, env) == target
      modifies this
      ensures !done ==> Pending(env, i + 1) + |queue| - (i + 1) < Pending(env, i) + |old(queue)| - i
      ensures done ==> State().(processing := false) == target.state
      ensures !done ==> i < |queue| && Process(State(), i + 1, env) == target
    {
      PendingStep(env, i);
      queue := queue + Arrivals(env, i);
      if i >= |queue| {
        return true;
      }
      if StopsAt(env, i, BeforeCheck) {
        StopDownload();
      }
      if !isQueueProcessing || cancelRequested {
        return true;
      }
      if Dispatchable(queue[i].status) {
        DownloadSingleItem(i);
        JobWithStop(i, env);
      } else if env.stop.StopAt? && env.stop.step == i {
        StopDownload();
      }
      return false;
    }

    /** `add_selected_playlist_items_to_queue`: nothing without a selection or
        without playlist entries; otherwise the entries at the selected indices
        inside the playlist are appended in selection order. */
    method AddSelectedPlaylistItems(selection: seq<nat>, entries: seq<PlaylistEntry>,
                                    playlistTitle: Option<string>, downloadType: string, quality: string)
      modifies this
      ensures |selection| == 0 || |entries| == 0 ==> State() == old(State())
      ensures State() == old(State()).(queue := old(queue)
                + PlaylistItems(selection, entries, downloadType, quality, playlistTitle))
    {
      if |selection| == 0 || |entries| == 0 {
        EmptyPlaylistAddsNothing(selection, entries, downloadType, quality, playlistTitle);
        return;
      }
      var k := 0;
      while k < |selection|
        invariant 0 <= k <= |selection|
        invariant State() == old(State()).(queue := old(queue)
                    + PlaylistItems(selection[..k], entries, downloadType, quality, playlistTitle))
      {
        AddSelected(selection, k, entries, playlistTitle, downloadType, quality, old(queue));
        k := k + 1;
      }
      assert selection[..k] == selection;
    }

    /** One pass of the selection loop: the entry at the `k`-th selected index,
        when the playlist has one, is appended. */
    method AddSelected(selection: seq<nat>, k: nat, entries: seq<PlaylistEntry>,
                       playlistTitle: Option<string>, downloadType: string, quality: string,
                       ghost base: seq<Item>)
      requires k < |selection|
      requires queue == base + PlaylistItems(selection[..k], entries, downloadType, quality, playlistTitle)
      modifies this
      ensures State() == old(State()).(queue := base
                + PlaylistItems(selection[..k + 1], entries, downloadType, quality, playlistTitle))
    {
      var index := selection[k];
      ghost var front := PlaylistItems(selection[..k], entries, downloadType, quality, playlistTitle);
      PlaylistItemsSnoc(selection[..k], index, entries, downloadType, quality, playlistTitle);
      assert selection[..k + 1] == selection[..k] + [index];
      if index < |entries| {
        var item := EntryItem(entries[index], index, downloadType, quality, playlistTitle);
        queue := queue + [item];
        assert queue == base + (front + [item]);
      }
    }
  }

  lemma {:induction false} EmptyPlaylistAddsNothing(selection: seq<nat>, entries: seq<PlaylistEntry>,
                                                    downloadType: string, quality: string, playlistTitle: Option<string>)
    requires |selection| == 0 || |entries| == 0
    ensures PlaylistItems(selection, entries, downloadType, quality, playlistTitle) == []
    decreases |selection|
  {
    if |selection| > 0 {
      EmptyPlaylistAddsNothing(selection[..|selection| - 1], entries, downloadType, quality, playlistTitle);
    }
  }
}
