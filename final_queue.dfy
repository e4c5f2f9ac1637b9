/** The value-level model of the queue of the "final" subprocess variant:
    its items, the queue display text, deletion of a selection, moving an item,
    the start guards and the worker that walks a snapshot of indices. */
module FinalQueue {
  import opened Text
  import opened YtdlpCli

  /** One `download_queue` dictionary. */
  datatype FinalItem = FinalItem(url: string, format: string, path: string, status: JobStatus,
                                 progress: nat, title: string)

  /** The dictionary `add_to_queue` appends. */
  function NewFinalItem(url: string, format: string, path: string): (it: FinalItem)
    ensures it.url == url && it.format == format && it.path == path
    ensures it.status == Queued && it.progress == 0 && it.title == "Unknown"
  {
    FinalItem(url, format, path, Queued, 0, "Unknown")
  }

  // ---------------------------------------------------------------------
  // update_queue_display
  // ---------------------------------------------------------------------

  /** The title is shown once it is known, the url before. */
  function Label(it: FinalItem): (r: string)
    ensures r == Shorten(if it.title == "Unknown" then it.url else it.title)
    ensures var shown := if it.title == "Unknown" then it.url else it.title;
      && |r| <= 53
      && (|shown| <= 50 ==> r == shown)
      && (|shown| > 50 ==> |r| == 53 && r[50..] == "...")
      && var n := if |shown| <= 50 then |shown| else 50;
         r[..n] == shown[..n] && r == shown[..n] + r[n..]
  {
    if it.title == "Unknown" then Shorten(it.url) else Shorten(it.title)
  }

  function ProgressSuffix(progress: nat): (r: string)
    ensures progress == 0 <==> r == ""
  {
    if progress > 0 then " (" + NatToString(progress) + "%)" else ""
  }

  /** The listbox line of one item. */
  function DisplayText(it: FinalItem): string {
    Label(it) + " [" + it.format + "] - " + StatusText(it.status) + ProgressSuffix(it.progress)
  }

  /** The line starts with the shortened url while the title is unknown and
      with the shortened title afterwards. */
  lemma DisplayLabel(it: FinalItem)
    ensures var r := DisplayText(it);
      var shown := if it.title == "Unknown" then it.url else it.title;
      r[..|Shorten(shown)|] == Shorten(shown)
  {
    var l := Label(it);
    var rest := " [" + it.format + "] - " + StatusText(it.status) + ProgressSuffix(it.progress);
    GroupTail(l, " [", it.format, "] - ", StatusText(it.status), ProgressSuffix(it.progress));
    assert (l + rest)[..|l|] == l;
  }

  /** A display text is its label followed by the rest. */
  lemma GroupTail(a: string, b: string, c: string, d: string, e: string, f: string)
    ensures a + b + c + d + e + f == a + (b + c + d + e + f)
  {
  }

  /** The line ends with ` (p%)` exactly when the progress is positive, and
      with the status otherwise. */
  lemma DisplayProgress(it: FinalItem)
    ensures var r := DisplayText(it);
      (r[|r| - 1] == ')' <==> it.progress > 0)
      && (it.progress > 0 ==> r[|r| - |ProgressSuffix(it.progress)|..] == " (" + NatToString(it.progress) + "%)")
      && (it.progress == 0 ==> r[|r| - |StatusText(it.status)|..] == StatusText(it.status))
  {
    var front := Label(it) + " [" + it.format + "] - ";
    var st := StatusText(it.status);
    var suffix := ProgressSuffix(it.progress);
    var r := DisplayText(it);
    assert r == front + st + suffix;
    assert r[|r| - |suffix|..] == suffix;
    if it.progress > 0 {
      assert suffix[|suffix| - 1] == ')';
    } else {
      assert r == front + st;
      assert r[|r| - |st|..] == st;
      assert r[|r| - 1] == st[|st| - 1];
    }
  }

  // ---------------------------------------------------------------------
  // remove_selected
  // ---------------------------------------------------------------------

  /** `del q[i]`. */
  function DeleteAt<T>(q: seq<T>, i: nat): (r: seq<T>)
    requires i < |q|
    ensures |r| == |q| - 1
  {
    q[..i] + q[i + 1..]
  }

  /** The reference for a deletion: the items of `q` whose position (counted
      from `base`) is not in `s`, in their order. */
  function WithoutFrom<T>(q: seq<T>, s: set<nat>, base: nat): seq<T>
    decreases |q|
  {
    if |q| == 0 then []
    else (if base in s then [] else [q[0]]) + WithoutFrom(q[1..], s, base + 1)
  }

  function Without<T>(q: seq<T>, s: set<nat>): seq<T> {
    WithoutFrom(q, s, 0)
  }

  /** Only the positions of `q` matter. */
  lemma {:induction false} WithoutFromAgree<T>(q: seq<T>, s: set<nat>, t: set<nat>, base: nat)
    requires forall j :: base <= j < base + |q| ==> (j in s <==> j in t)
    ensures WithoutFrom(q, s, base) == WithoutFrom(q, t, base)
    decreases |q|
  {
    if |q| > 0 {
      WithoutFromAgree(q[1..], s, t, base + 1);
    }
  }

  /** Below every deleted position the survivors still reach position `x`. */
  lemma {:induction false} WithoutFromLength<T>(q: seq<T>, s: set<nat>, base: nat, x: nat)
    requires base <= x < base + |q|
    requires forall y :: y in s ==> y > x
    ensures |WithoutFrom(q, s, base)| > x - base
    decreases |q|
  {
    if x > base {
      WithoutFromLength(q[1..], s, base + 1, x);
    }
  }

  /** Deleting position `x` after every higher selected position has gone is
      the same as leaving `x` out as well. */
  lemma {:induction false} DeleteBelow<T>(q: seq<T>, s: set<nat>, base: nat, x: nat)
    requires base <= x < base + |q|
    requires forall y :: y in s ==> y > x
    ensures |WithoutFrom(q, s, base)| > x - base
    ensures DeleteAt(WithoutFrom(q, s, base), x - base) == WithoutFrom(q, s + {x}, base)
    decreases |q|
  {
    WithoutFromLength(q, s, base, x);
    var w := WithoutFrom(q[1..], s, base + 1);
    assert WithoutFrom(q, s, base) == [q[0]] + w;
    if x == base {
      WithoutFromAgree(q[1..], s, s + {x}, base + 1);
      assert DeleteAt([q[0]] + w, 0) == w;
    } else {
      DeleteBelow(q[1..], s, base + 1, x);
      var k := x - base - 1;
      assert DeleteAt([q[0]] + w, k + 1) == [q[0]] + DeleteAt(w, k);
    }
  }

  /** `curselection()`: ascending positions inside the queue. */
  predicate Ascending(sel: seq<nat>, n: nat) {
    (forall i, j :: 0 <= i < j < |sel| ==> sel[i] < sel[j])
    && (forall i :: 0 <= i < |sel| ==> sel[i] < n)
  }

  function Elems(sel: seq<nat>, k: nat): set<nat>
    requires k <= |sel|
  {
    set j | k <= j < |sel| :: sel[j]
  }

  /** An ascending selection leaves room above each position for the ones
      after it. */
  lemma {:induction false} AscendingRoom(sel: seq<nat>, n: nat, i: nat)
    requires Ascending(sel, n) && i < |sel|
    ensures sel[i] + (|sel| - i) <= n
    decreases |sel| - i
  {
    if i + 1 < |sel| {
      AscendingRoom(sel, n, i + 1);
    }
  }

  lemma ElemsStep(sel: seq<nat>, k: nat)
    requires 0 < k <= |sel|
    ensures Elems(sel, k - 1) == Elems(sel, k) + {sel[k - 1]}
  {
  }

  // ---------------------------------------------------------------------
  // move_up / move_down
  // ---------------------------------------------------------------------

  /** The tuple swap of positions `i` and `j`. */
  function Swap<T>(q: seq<T>, i: nat, j: nat): (r: seq<T>)
    requires i < |q| && j < |q|
    ensures |r| == |q| && r[i] == q[j] && r[j] == q[i]
    ensures forall k :: 0 <= k < |q| && k != i && k != j ==> r[k] == q[k]
  {
    q[i := q[j]][j := q[i]]
  }

  /** A swap reorders the queue and loses or adds nothing. */
  lemma SwapPermutes<T>(q: seq<T>, i: nat, j: nat)
    requires i < |q| && j < |q|
    ensures multiset(Swap(q, i, j)) == multiset(q)
  {
    var r := q[i := q[j]];
    assert multiset(r) == multiset(q) - multiset{q[i]} + multiset{q[j]};
    assert multiset(r[j := q[i]]) == multiset(r) - multiset{r[j]} + multiset{q[i]};
  }

  /** Swapping twice restores the queue. */
  lemma SwapTwice<T>(q: seq<T>, i: nat, j: nat)
    requires i < |q| && j < |q|
    ensures Swap(Swap(q, i, j), i, j) == q
  {
    assert Swap(Swap(q, i, j), i, j) == q;
  }

  /** `move_up` on the queue: no-op with no selection or at the top. */
  function MovedUp<T>(q: seq<T>, sel: seq<nat>): (r: seq<T>)
    requires |sel| > 0 ==> sel[0] < |q|
    ensures |r| == |q| && multiset(r) == multiset(q)
    ensures |sel| == 0 || sel[0] == 0 ==> r == q
    ensures |sel| > 0 && sel[0] > 0 ==> r == Swap(q, sel[0] - 1, sel[0])
  {
    if |sel| == 0 || sel[0] == 0 then q
    else
      SwapPermutes(q, sel[0] - 1, sel[0]);
      Swap(q, sel[0] - 1, sel[0])
  }

  /** `move_down` on the queue: no-op with no selection or at the bottom. */
  function MovedDown<T>(q: seq<T>, sel: seq<nat>): (r: seq<T>)
    requires |sel| > 0 ==> sel[0] < |q|
    ensures |r| == |q| && multiset(r) == multiset(q)
    ensures |sel| == 0 || sel[0] == |q| - 1 ==> r == q
    ensures |sel| > 0 && sel[0] < |q| - 1 ==> r == Swap(q, sel[0], sel[0] + 1)
  {
    if |sel| == 0 || sel[0] == |q| - 1 then q
    else
      SwapPermutes(q, sel[0], sel[0] + 1);
      Swap(q, sel[0], sel[0] + 1)
  }

  /** Moving an item up and then moving it (now one higher) down again
      restores the queue. */
  lemma MoveUpThenDown<T>(q: seq<T>, i: nat)
    requires 0 < i < |q|
    ensures MovedDown(MovedUp(q, [i]), [i - 1]) == q
  {
    SwapTwice(q, i - 1, i);
  }

  /** Moving an item down and then up again restores the queue. */
  lemma MoveDownThenUp<T>(q: seq<T>, i: nat)
    requires i + 1 < |q|
    ensures MovedUp(MovedDown(q, [i]), [i + 1]) == q
  {
    SwapTwice(q, i, i + 1);
  }

  // ---------------------------------------------------------------------
  // start_downloads and download_worker
  // ---------------------------------------------------------------------

  datatype FinalState = FinalState(queue: seq<FinalItem>, downloading: bool, stopEvent: bool)

  /** `stop_downloads`. */
  function Halt(st: FinalState): (r: FinalState)
    ensures r.queue == st.queue && r.stopEvent && !r.downloading
  {
    st.(downloading := false, stopEvent := true)
  }

  /** `list(range(n))`. */
  function Range(n: nat): (r: seq<nat>)
    ensures |r| == n && forall j :: 0 <= j < n ==> r[j] == j
  {
    if n == 0 then [] else Range(n - 1) + [n - 1]
  }

  /** What `start_downloads` decides. */
  datatype Plan =
    | Refused                     // a guard returned before any change
    | NoSelection                 // selected-only with nothing selected
    | Started(indices: seq<nat>)  // the worker gets this snapshot

  /** The guards of `start_downloads`, in the source's order. */
  function StartPlan(st: FinalState, ytdlpPath: string, selectedOnly: bool, immediate: bool,
                     selection: seq<nat>): (r: Plan)
    ensures r.Refused? <==> |st.queue| == 0 || (st.downloading && !immediate) || |ytdlpPath| == 0
    ensures r.NoSelection? <==> !r.Refused? && selectedOnly && |selection| == 0
    ensures r.Started? ==> r.indices == if selectedOnly then selection else Range(|st.queue|)
  {
    if |st.queue| == 0 then Refused
    else if st.downloading && !immediate then Refused
    else if |ytdlpPath| == 0 then Refused
    else if selectedOnly then (if |selection| == 0 then NoSelection else Started(selection))
    else Started(Range(|st.queue|))
  }

  /** The state `start_downloads` leaves before the worker runs. */
  function StartState(st: FinalState, p: Plan): (r: FinalState)
    ensures r.queue == st.queue
    ensures p.Refused? ==> r == st
    ensures !p.Refused? ==> !r.stopEvent && (r.downloading <==> p.Started?)
  {
    match p
    case Refused => st
    case NoSelection => st.(downloading := false, stopEvent := false)
    case Started(_) => st.(downloading := true, stopEvent := false)
  }

  /** The two writes after a transfer. */
  function Finish(it: FinalItem, o: Outcome): (r: FinalItem)
    ensures r.url == it.url && r.format == it.format && r.path == it.path && r.title == it.title
    ensures o.ok ==> r.status == Completed && r.progress == 100
    ensures !o.ok ==> r.status == Failed && r.progress == o.progress
  {
    if o.ok then it.(status := Completed, progress := 100) else it.(status := Failed, progress := o.progress)
  }

  /** The queue with the progress of position `i` set to `p`, all else kept. */
  function WithProgress(q: seq<FinalItem>, i: nat, p: nat): (r: seq<FinalItem>)
    requires i < |q|
    ensures |r| == |q| && r[i].progress == p
    ensures r[i] == q[i].(progress := p)
    ensures forall j :: 0 <= j < |q| && j != i ==> r[j] == q[j]
  {
    q[i := q[i].(progress := p)]
  }

  /** A queue position the worker dispatches. */
  predicate Dispatchable(q: seq<FinalItem>, i: nat) {
    i < |q| && q[i].status == Queued
  }

  /** One worker step on index `i` after the step's stop check has passed:
      skip, or transfer and record the outcome. */
  function Step(st: FinalState, i: nat, c: nat, env: CliEnv): (r: FinalState)
    ensures |r.queue| == |st.queue|
    ensures forall j :: 0 <= j < |st.queue| && j != i ==> r.queue[j] == st.queue[j]
    ensures !Dispatchable(st.queue, i) ==> r.queue == st.queue
    ensures Dispatchable(st.queue, i) ==>
      r.queue[i] == Finish(st.queue[i], Transfer(env.runs(c), StopLine(env, c), st.queue[i].progress))
    ensures r.stopEvent == (st.stopEvent || StopsLate(env, c))
  {
    if !Dispatchable(st.queue, i) then
      (if StopsLate(env, c) then Halt(st) else st)
    else
      var line := StopLine(env, c);
      var o := Transfer(env.runs(c), line, st.queue[i].progress);
      var s1 := if line.Some? then Halt(st) else st;
      var s2 := s1.(queue := st.queue[i := Finish(st.queue[i], o)]);
      if StopsAfter(env, c) then Halt(s2) else s2
  }

  /** No step from `c` on names position `j`. */
  predicate Untargeted(indices: seq<nat>, c: nat, j: nat) {
    forall k :: c <= k < |indices| ==> indices[k] != j
  }

  /** `download_worker` from step `c` of the snapshot `indices`. */
  function Work(st: FinalState, indices: seq<nat>, c: nat, env: CliEnv): (r: FinalState)
    ensures |r.queue| == |st.queue| && !r.downloading
    decreases |indices| - c
  {
    if c >= |indices| then st.(downloading := false)
    else
      var s1 := if StopsBefore(env, c) then Halt(st) else st;
      if s1.stopEvent then s1.(downloading := false)
      else Work(Step(s1, indices[c], c, env), indices, c + 1, env)
  }

  /** The worker leaves alone every item that is not `Queued` and every
      item no step from `c` on names. */
  lemma {:induction false} WorkKeepsOthers(st: FinalState, indices: seq<nat>, c: nat, env: CliEnv, j: nat)
    requires j < |st.queue| && (st.queue[j].status != Queued || Untargeted(indices, c, j))
    ensures Work(st, indices, c, env).queue[j] == st.queue[j]
    decreases |indices| - c
  {
    if c < |indices| {
      var s1 := if StopsBefore(env, c) then Halt(st) else st;
      if !s1.stopEvent {
        var s2 := Step(s1, indices[c], c, env);
        assert s2.queue[j] == st.queue[j];
        WorkKeepsOthers(s2, indices, c + 1, env, j);
      }
    }
  }

  /** No item is left `Downloading`, and a `Completed` item shows 100. */
  predicate Tidy(q: seq<FinalItem>) {
    forall j :: 0 <= j < |q| ==> q[j].status != Downloading && (q[j].status == Completed ==> q[j].progress == 100)
  }

  /** The worker keeps the queue tidy: every item it takes on ends
      `Completed` with progress 100 or `Failed`. */
  lemma {:induction false} WorkKeepsTidy(st: FinalState, indices: seq<nat>, c: nat, env: CliEnv)
    requires Tidy(st.queue)
    ensures Tidy(Work(st, indices, c, env).queue)
    decreases |indices| - c
  {
    if c < |indices| {
      var s1 := if StopsBefore(env, c) then Halt(st) else st;
      if !s1.stopEvent {
        var s2 := Step(s1, indices[c], c, env);
        StepKeepsTidy(s1, indices[c], c, env);
        WorkKeepsTidy(s2, indices, c + 1, env);
      }
    }
  }

  /** One step leaves the item it handles `Completed` with 100 or `Failed`. */
  lemma StepKeepsTidy(st: FinalState, i: nat, c: nat, env: CliEnv)
    requires Tidy(st.queue)
    ensures Tidy(Step(st, i, c, env).queue)
  {
    var q := Step(st, i, c, env).queue;
    forall j | 0 <= j < |q| ensures q[j].status != Downloading && (q[j].status == Completed ==> q[j].progress == 100) {
      if j != i || !Dispatchable(st.queue, i) {
        assert q[j] == st.queue[j];
      }
    }
  }

  /** A stop reaches the flags exactly when it lands in a step the worker
      gets to; the worker always ends with `is_downloading` false. */
  lemma {:induction false} WorkStopFlag(st: FinalState, indices: seq<nat>, c: nat, env: CliEnv)
    requires !st.stopEvent
    ensures Work(st, indices, c, env).stopEvent <==> env.stop.StopAt? && c <= env.stop.step < |indices|
    decreases |indices| - c
  {
    if c < |indices| {
      if !StopsBefore(env, c) {
        var s2 := Step(st, indices[c], c, env);
        if !s2.stopEvent {
          WorkStopFlag(s2, indices, c + 1, env);
        }
      }
    }
  }

  /** After the step the stop lands in, nothing is touched. */
  lemma {:induction false} WorkUntouched(st: FinalState, indices: seq<nat>, c: nat, env: CliEnv, j: nat)
    requires c <= |indices| && j < |st.queue|
    requires forall k :: c <= k < EndFrom(env, c, |indices|) ==> indices[k] != j
    ensures Work(st, indices, c, env).queue[j] == st.queue[j]
    decreases |indices| - c
  {
    if c < |indices| {
      var s1 := if StopsBefore(env, c) then Halt(st) else st;
      if !s1.stopEvent {
        var s2 := Step(s1, indices[c], c, env);
        if EndFrom(env, c, |indices|) == c + 1 && env.stop.StopAt? && env.stop.step == c {
          assert s2.stopEvent;
        } else {
          assert EndFrom(env, c + 1, |indices|) == EndFrom(env, c, |indices|);
          WorkUntouched(s2, indices, c + 1, env, j);
        }
      }
    }
  }

  /** Distinct positions, as `range` and `curselection` give. */
  predicate Distinct(indices: seq<nat>) {
    forall a, b :: 0 <= a < b < |indices| ==> indices[a] != indices[b]
  }

  /** Every snapshot position the worker reaches and finds `Queued` gets the
      outcome of its own transfer. */
  lemma {:induction false} WorkHandles(st: FinalState, indices: seq<nat>, c: nat, env: CliEnv, k: nat)
    requires !st.stopEvent && Distinct(indices) && c <= |indices|
    requires c <= k < EndFrom(env, c, |indices|)
    requires Dispatchable(st.queue, indices[k])
    ensures var j := indices[k];
      Work(st, indices, c, env).queue[j]
        == Finish(st.queue[j], Transfer(env.runs(k), StopLine(env, k), st.queue[j].progress))
    decreases |indices| - c
  {
    var s2 := Step(st, indices[c], c, env);
    HandleUnfold(st, indices, c, env, k);
    if k == c {
      HandleHere(st, indices, c, env);
    } else {
      HandleLater(st, indices, c, env, k);
      WorkHandles(s2, indices, c + 1, env, k);
    }
  }

  /** A step before the end passes its stop check. */
  lemma HandleUnfold(st: FinalState, indices: seq<nat>, c: nat, env: CliEnv, k: nat)
    requires !st.stopEvent && c <= |indices| && c <= k < EndFrom(env, c, |indices|)
    ensures !StopsBefore(env, c)
    ensures Work(st, indices, c, env) == Work(Step(st, indices[c], c, env), indices, c + 1, env)
  {
  }

  /** The step that handles a snapshot position gives it its outcome for good. */
  lemma HandleHere(st: FinalState, indices: seq<nat>, c: nat, env: CliEnv)
    requires Distinct(indices) && c < |indices| && Dispatchable(st.queue, indices[c])
    ensures var j := indices[c];
      Work(Step(st, j, c, env), indices, c + 1, env).queue[j]
        == Finish(st.queue[j], Transfer(env.runs(c), StopLine(env, c), st.queue[j].progress))
  {
    var j := indices[c];
    assert Untargeted(indices, c + 1, j);
    WorkKeepsOthers(Step(st, j, c, env), indices, c + 1, env, j);
  }

  /** A step before `k` leaves position `indices[k]`, the flag and the end alone. */
  lemma HandleLater(st: FinalState, indices: seq<nat>, c: nat, env: CliEnv, k: nat)
    requires !st.stopEvent && Distinct(indices) && c < |indices| && c < k < EndFrom(env, c, |indices|)
    requires indices[k] < |st.queue|
    ensures var s2 := Step(st, indices[c], c, env);
      && !s2.stopEvent && s2.queue[indices[k]] == st.queue[indices[k]]
      && EndFrom(env, c + 1, |indices|) == EndFrom(env, c, |indices|)
  {
    assert !StopsLate(env, c);
  }
}
