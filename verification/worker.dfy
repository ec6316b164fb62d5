/** `run`, `stop`, `pause`, `resume` and `cancel` of the caption worker in
    utils/worker_thread_chat_completion.py, as a state machine. The thread's
    loop is cut into steps; pause, resume, stop and cancel arrive between
    steps, and a paused worker waits in its own phase until it is resumed or
    stopped. Only the signals the rest of the application reacts to are
    traced: `current_file`, `result_signal`, `progress` and
    `completed_signal`. */
module Worker {
  import opened Wrappers
  import opened Text
  import Extraction
  import Request

  /** Where the thread is: not started, at the top of its loop, inside the
      pause wait, or returned from `run`. */
  datatype Phase = Idle | Running | Waiting | Finished

  datatype Event =
    | CurrentFile(name: string)
    | ItemResult(path: string, record: Request.Record)
    | Progress(done: nat, total: nat)
    | Completed(message: string)

  datatype Worker = Worker(
    queue: seq<string>,
    stopped: bool,
    paused: bool,
    apiKey: string,
    phase: Phase,
    total: nat,
    processed: nat,
    trace: seq<Event>,
    lines: seq<Request.Record>,
    jsonlPath: string)

  /** A fresh worker holding the images to caption. */
  function New(images: seq<string>, apiKey: string): (w: Worker)
    ensures w.queue == images && w.phase == Idle && w.trace == []
    ensures !w.stopped && !w.paused
  {
    Worker(images, false, false, apiKey, Idle, 0, 0, [], [], "")
  }

  /** Requests another thread makes of the worker. */
  datatype Control = Pause | Resume | Stop | Cancel

  /** `pause()`, `resume()`, `stop()` and `cancel()`: flags only, except that
      `cancel` also empties the queue. */
  function Apply(w: Worker, c: Control): (r: Worker)
    ensures r.trace == w.trace && r.phase == w.phase && r.processed == w.processed && r.total == w.total
    ensures c == Cancel ==> r.stopped && r.queue == []
    ensures c != Cancel ==> r.queue == w.queue
    ensures c == Pause || c == Resume ==> r.stopped == w.stopped
    ensures (c == Pause ==> r.paused) && (c == Resume ==> !r.paused)
    ensures c == Stop ==> r.stopped && r.paused == w.paused
  {
    match c
    case Pause => w.(paused := true)
    case Resume => w.(paused := false)
    case Stop => w.(stopped := true)
    case Cancel => w.(stopped := true, queue := [])
  }

  function CancelMessage(path: string): string {
    "작업이 취소되었습니다. 결과 파일: " + path
  }

  function DoneMessage(path: string): string {
    "모든 이미지 처리가 완료되었습니다. 결과 파일: " + path
  }

  lemma MessagesDiffer(p: string, q: string)
    ensures DoneMessage(p) != CancelMessage(q)
  {
    assert DoneMessage(p)[0] != CancelMessage(q)[0];
  }

  /** The part of `run` before its loop: nothing to do with an empty queue;
      the results file is set up; a missing key ends the run; otherwise
      `total` is the queue size and the loop starts. A worker already
      started is left alone. */
  function Start(w: Worker, jsonlPath: string): (r: Worker)
    ensures r.trace == w.trace && r.queue == w.queue
    ensures w.phase != Idle ==> r == w
    ensures w.phase == Idle ==> (r.phase == Running <==> w.queue != [] && w.apiKey != [])
    ensures w.phase == Idle && r.phase == Running ==> r.total == |w.queue| && r.processed == 0 && r.jsonlPath == jsonlPath
  {
    if w.phase != Idle then w
    else if w.queue == [] then w.(phase := Finished)
    else if w.apiKey == [] then w.(phase := Finished, jsonlPath := jsonlPath)
    else w.(phase := Running, total := |w.queue|, processed := 0, jsonlPath := jsonlPath)
  }

  /** What one queued image meets: the service's reply per attempt, and
      whether appending its line to the results file succeeds. */
  datatype Item = Item(replies: nat -> Request.Reply, appended: bool)

  /** What the loop body keeps of a request: the record when one was
      returned; `None` when the request returned nothing or raised (the
      exception is swallowed). */
  function Kept(o: Request.Outcome): (r: Option<Request.Record>)
    ensures r.Some? <==> o.Returned? && o.result.Some?
  {
    if o.Returned? then o.result else None
  }

  /** The signals one pass of the loop body emits for `path`:
      `current_file`, the result when there is one, then `progress`. */
  function PassEvents(path: string, result: Option<Request.Record>, done: nat, total: nat): (e: seq<Event>)
    ensures 2 <= |e| <= 3 && e[0] == CurrentFile(Basename(path)) && e[|e| - 1] == Progress(done, total)
  {
    [CurrentFile(Basename(path))]
    + (match result case Some(rec) => [ItemResult(path, rec)] case None => [])
    + [Progress(done, total)]
  }

  /** One pass of the loop body for the image at the head of the queue,
      given what its request produced. A record counts as processed and is
      appended to the results file (when appending succeeds). */
  function Process(w: Worker, result: Option<Request.Record>, appended: bool): (r: Worker)
    requires w.queue != []
    ensures r.queue == w.queue[1..] && r.phase == Running
    ensures r.trace == w.trace + PassEvents(w.queue[0], result, r.processed, w.total)
    ensures r.processed == if result.Some? then w.processed + 1 else w.processed
    ensures r.lines == if result.Some? && appended then w.lines + [result.value] else w.lines
  {
    var n := if result.Some? then w.processed + 1 else w.processed;
    w.(queue := w.queue[1..], phase := Running, processed := n,
       lines := if result.Some? && appended then w.lines + [result.value] else w.lines,
       trace := w.trace + PassEvents(w.queue[0], result, n, w.total))
  }

  /** The loop body for the head of the queue with its request made. */
  function ProcessNext(w: Worker, x: Extraction.Extractors, item: Item): (r: Worker)
    requires w.queue != []
    ensures r.queue == w.queue[1..] && r.phase == Running
    ensures |r.trace| > |w.trace| && r.trace[|w.trace|] == CurrentFile(Basename(w.queue[0]))
    ensures var o := Request.Request(x, w.queue[0], item.replies).outcome;
            && r.processed == (if o.Returned? && o.result.Some? then w.processed + 1 else w.processed)
            && (r.lines == w.lines || (item.appended && o.Returned? && o.result.Some? && r.lines == w.lines + [o.result.value]))
  {
    Process(w, Kept(Request.Request(x, w.queue[0], item.replies).outcome), item.appended)
  }

  /** The loop's exit: the completion message unless the worker was stopped. */
  function Finish(w: Worker): (r: Worker)
    ensures r.phase == Finished && r.queue == w.queue && r.processed == w.processed
    ensures w.stopped ==> r.trace == w.trace
    ensures !w.stopped ==> r.trace == w.trace + [Completed(DoneMessage(w.jsonlPath))]
  {
    w.(phase := Finished, trace := if w.stopped then w.trace else w.trace + [Completed(DoneMessage(w.jsonlPath))])
  }

  /** The cancel branch: the cancel message, then `run` returns. */
  function Abort(w: Worker): (r: Worker)
    ensures r.phase == Finished && r.queue == w.queue && r.processed == w.processed
    ensures r.trace == w.trace + [Completed(CancelMessage(w.jsonlPath))]
  {
    w.(phase := Finished, trace := w.trace + [Completed(CancelMessage(w.jsonlPath))])
  }

  /** One step of the thread. At the top of the loop: leave it when the
      queue is empty, abort when stopped, start waiting when paused, and
      otherwise take the next image. In the pause wait: abort when stopped,
      keep waiting while paused, and otherwise go on with the next image
      (a `get` on an empty queue would block for ever, so nothing changes). */
  function Tick(w: Worker, x: Extraction.Extractors, item: Item): (r: Worker)
    ensures |r.trace| >= |w.trace| && r.trace[..|w.trace|] == w.trace
    ensures w.phase == Idle || w.phase == Finished ==> r == w
    ensures r.processed == w.processed || r.processed == w.processed + 1
    ensures r.queue == w.queue || (w.queue != [] && r.queue == w.queue[1..])
    ensures r.stopped == w.stopped && r.paused == w.paused && r.total == w.total && r.jsonlPath == w.jsonlPath
    ensures r.queue != w.queue ==> !w.stopped && !w.paused
  {
    match w.phase
    case Idle => w
    case Finished => w
    case Running =>
      if w.queue == [] then Finish(w)
      else if w.stopped then Abort(w)
      else if w.paused then w.(phase := Waiting)
      else ProcessNext(w, x, item)
    case Waiting =>
      if w.stopped then Abort(w)
      else if w.paused then w
      else if w.queue == [] then w
      else ProcessNext(w, x, item)
  }

  /** Something that happens to the worker: a request from another thread,
      or one step of its own loop with the inputs the next image meets. */
  datatype Input = Control(c: Control) | Step(item: Item)

  /** The worker after the inputs, in order. The trace only grows, the
      run's total and results file stay fixed, and a finished worker emits
      nothing more. */
  function Run(w: Worker, x: Extraction.Extractors, inputs: seq<Input>): (r: Worker)
    ensures |r.trace| >= |w.trace| && r.trace[..|w.trace|] == w.trace
    ensures r.total == w.total && r.jsonlPath == w.jsonlPath
    ensures w.phase == Finished ==> r.phase == Finished && r.trace == w.trace
    decreases |inputs|
  {
    if inputs == [] then w
    else
      var w' := match inputs[0]
        case Control(c) => Apply(w, c)
        case Step(item) => Tick(w, x, item);
      Run(w', x, inputs[1..])
  }

  /** The names announced by `current_file`, in order. */
  function Names(t: seq<Event>): seq<string> {
    if t == [] then []
    else Names(t[..|t| - 1]) + (if t[|t| - 1].CurrentFile? then [t[|t| - 1].name] else [])
  }

  /** The counts reported by `progress`, in order. */
  function Counts(t: seq<Event>): seq<nat> {
    if t == [] then []
    else Counts(t[..|t| - 1]) + (if t[|t| - 1].Progress? then [t[|t| - 1].done] else [])
  }

  /** Every `progress` event reports `total` as its second number. */
  predicate TotalsAre(t: seq<Event>, total: nat) {
    forall i :: 0 <= i < |t| && t[i].Progress? ==> t[i].total == total
  }

  /** The number of `completed_signal` events. */
  function Completions(t: seq<Event>): nat {
    if t == [] then 0
    else Completions(t[..|t| - 1]) + (if t[|t| - 1].Completed? then 1 else 0)
  }

  /** The file names of `paths`, in order. */
  function BaseNames(paths: seq<string>): (r: seq<string>)
    ensures |r| == |paths|
  {
    if paths == [] then []
    else BaseNames(paths[..|paths| - 1]) + [Basename(paths[|paths| - 1])]
  }

  predicate NonDecreasing(s: seq<nat>) {
    forall i, j :: 0 <= i <= j < |s| ==> s[i] <= s[j]
  }

  /** What holds of a started worker whose queue held `q0` when `run` began:
      the first `k` images were announced in queue order and the queue holds
      the rest (or was emptied by a cancel); one `progress` per announced
      image, non-decreasing, ending at `processed`, never above the number
      of images handled; at most one completion, and only once finished. */
  predicate Inv(w: Worker, q0: seq<string>) {
    var k := |Names(w.trace)|;
    && w.phase != Idle
    && k <= |q0|
    && Names(w.trace) == BaseNames(q0[..k])
    && (w.queue == q0[k..] || (w.stopped && w.queue == []))
    && |Counts(w.trace)| == k
    && NonDecreasing(Counts(w.trace))
    && (k > 0 ==> Counts(w.trace)[k - 1] == w.processed)
    && w.processed <= k
    && (k > 0 || w.phase == Running || w.phase == Waiting ==> w.total == |q0|)
    && TotalsAre(w.trace, w.total)
    && Completions(w.trace) <= 1
    && (Completions(w.trace) == 1 ==> w.phase == Finished)
    && (w.phase == Running || w.phase == Waiting ==> Completions(w.trace) == 0)
  }

  /** Emitting one more signal extends each projection by that signal
      alone. */
  lemma AppendOne(t: seq<Event>, e: Event)
    ensures Names(t + [e]) == Names(t) + (if e.CurrentFile? then [e.name] else [])
    ensures Counts(t + [e]) == Counts(t) + (if e.Progress? then [e.done] else [])
    ensures Completions(t + [e]) == Completions(t) + (if e.Completed? then 1 else 0)
  {
    assert (t + [e])[..|t|] == t;
  }

  lemma AppendName(t: seq<Event>, e: Event)
    ensures Names(t + [e]) == Names(t) + (if e.CurrentFile? then [e.name] else [])
  {
    assert (t + [e])[..|t|] == t;
  }

  lemma AppendCount(t: seq<Event>, e: Event)
    ensures Counts(t + [e]) == Counts(t) + (if e.Progress? then [e.done] else [])
  {
    assert (t + [e])[..|t|] == t;
  }

  lemma AppendCompletion(t: seq<Event>, e: Event)
    ensures Completions(t + [e]) == Completions(t) + (if e.Completed? then 1 else 0)
  {
    assert (t + [e])[..|t|] == t;
  }

  lemma StartEstablishes(w: Worker, jsonlPath: string)
    requires w.phase == Idle && w.trace == [] && w.processed == 0
    ensures Inv(Start(w, jsonlPath), w.queue)
  {
    assert w.queue[..0] == [];
    assert w.queue[0..] == w.queue;
  }

  lemma ApplyKeeps(w: Worker, q0: seq<string>, c: Control)
    requires Inv(w, q0)
    ensures Inv(Apply(w, c), q0)
  {
  }

  lemma AbortKeeps(w: Worker, q0: seq<string>)
    requires Inv(w, q0) && (w.phase == Running || w.phase == Waiting)
    ensures Inv(Abort(w), q0)
  {
    var e := Completed(CancelMessage(w.jsonlPath));
    var r := Abort(w);
    AppendOne(w.trace, e);
    assert Names(r.trace) == Names(w.trace) && Counts(r.trace) == Counts(w.trace);
    assert Completions(r.trace) == 1;
    TotalsAppend(w.trace, e, w.total);
  }

  /** A signal that is not `progress` keeps every reported total. */
  lemma TotalsAppend(t: seq<Event>, e: Event, total: nat)
    requires TotalsAre(t, total) && !e.Progress?
    ensures TotalsAre(t + [e], total)
  {
    assert forall i :: 0 <= i < |t| ==> (t + [e])[i] == t[i];
  }

  lemma FinishKeeps(w: Worker, q0: seq<string>)
    requires Inv(w, q0) && w.phase == Running
    ensures Inv(Finish(w), q0)
  {
    if !w.stopped {
      var e := Completed(DoneMessage(w.jsonlPath));
      AppendOne(w.trace, e);
      TotalsAppend(w.trace, e, w.total);
    }
  }

  /** Appending three pieces one after the other. */
  lemma AppendThree(t: seq<Event>, a: seq<Event>, b: seq<Event>, c: seq<Event>)
    ensures t + (a + b + c) == t + a + b + c
  {
  }

  /** The events of a pass, as three appends. */
  lemma PassEventsSplit(t: seq<Event>, path: string, result: Option<Request.Record>, done: nat, total: nat)
    ensures var t1 := t + [CurrentFile(Basename(path))];
            var t2 := if result.Some? then t1 + [ItemResult(path, result.value)] else t1;
            t + PassEvents(path, result, done, total) == t2 + [Progress(done, total)]
  {
    var mid: seq<Event> := match result case Some(rec) => [ItemResult(path, rec)] case None => [];
    AppendThree(t, [CurrentFile(Basename(path))], mid, [Progress(done, total)]);
    if result.None? {
      assert t + [CurrentFile(Basename(path))] + mid == t + [CurrentFile(Basename(path))];
    }
  }

  /** One pass announces one name, reports one count and completes
      nothing. */
  lemma PassProjections(t: seq<Event>, path: string, result: Option<Request.Record>, done: nat, total: nat)
    ensures var t' := t + PassEvents(path, result, done, total);
            && Names(t') == Names(t) + [Basename(path)]
            && Counts(t') == Counts(t) + [done]
            && Completions(t') == Completions(t)
  {
    PassEventsSplit(t, path, result, done, total);
    PassNames(t, path, result, done, total);
    PassCounts(t, path, result, done, total);
    PassCompletions(t, path, result, done, total);
  }

  lemma PassNames(t: seq<Event>, path: string, result: Option<Request.Record>, done: nat, total: nat)
    ensures var t1 := t + [CurrentFile(Basename(path))];
            var t2 := if result.Some? then t1 + [ItemResult(path, result.value)] else t1;
            Names(t2 + [Progress(done, total)]) == Names(t) + [Basename(path)]
  {
    var t1 := t + [CurrentFile(Basename(path))];
    var t2 := if result.Some? then t1 + [ItemResult(path, result.value)] else t1;
    AppendName(t, CurrentFile(Basename(path)));
    if result.Some? {
      AppendName(t1, ItemResult(path, result.value));
    }
    AppendName(t2, Progress(done, total));
  }

  lemma PassCounts(t: seq<Event>, path: string, result: Option<Request.Record>, done: nat, total: nat)
    ensures var t1 := t + [CurrentFile(Basename(path))];
            var t2 := if result.Some? then t1 + [ItemResult(path, result.value)] else t1;
            Counts(t2 + [Progress(done, total)]) == Counts(t) + [done]
  {
    var t1 := t + [CurrentFile(Basename(path))];
    var t2 := if result.Some? then t1 + [ItemResult(path, result.value)] else t1;
    AppendCount(t, CurrentFile(Basename(path)));
    if result.Some? {
      AppendCount(t1, ItemResult(path, result.value));
    }
    AppendCount(t2, Progress(done, total));
  }

  lemma PassCompletions(t: seq<Event>, path: string, result: Option<Request.Record>, done: nat, total: nat)
    ensures var t1 := t + [CurrentFile(Basename(path))];
            var t2 := if result.Some? then t1 + [ItemResult(path, result.value)] else t1;
            Completions(t2 + [Progress(done, total)]) == Completions(t)
  {
    var t1 := t + [CurrentFile(Basename(path))];
    var t2 := if result.Some? then t1 + [ItemResult(path, result.value)] else t1;
    AppendCompletion(t, CurrentFile(Basename(path)));
    if result.Some? {
      AppendCompletion(t1, ItemResult(path, result.value));
    }
    AppendCompletion(t2, Progress(done, total));
  }

  lemma ProcessTotals(w: Worker, result: Option<Request.Record>, appended: bool)
    requires w.queue != [] && TotalsAre(w.trace, w.total)
    ensures TotalsAre(Process(w, result, appended).trace, w.total)
  {
    var r := Process(w, result, appended);
    var e := PassEvents(w.queue[0], result, r.processed, w.total);
    forall i | 0 <= i < |r.trace| && r.trace[i].Progress?
      ensures r.trace[i].total == w.total
    {
      if i < |w.trace| {
        assert r.trace[i] == w.trace[i];
      } else {
        assert r.trace[i] == e[i - |w.trace|];
      }
    }
  }

  /** A pass announces the image at the head of the queue. */
  lemma ProcessNames(w: Worker, result: Option<Request.Record>, appended: bool)
    requires w.queue != []
    ensures Names(Process(w, result, appended).trace) == Names(w.trace) + [Basename(w.queue[0])]
  {
    var r := Process(w, result, appended);
    PassProjections(w.trace, w.queue[0], result, r.processed, w.total);
  }

  /** Announcing the next image of `q0` extends the announced prefix. */
  lemma NextNames(names: seq<string>, q0: seq<string>, k: nat)
    requires k < |q0| && names == BaseNames(q0[..k])
    ensures names + [Basename(q0[k])] == BaseNames(q0[..k + 1])
  {
    assert q0[..k + 1] == q0[..k] + [q0[k]];
    BaseNamesSnoc(q0[..k], q0[k]);
  }

  lemma BaseNamesSnoc(ps: seq<string>, p: string)
    ensures BaseNames(ps + [p]) == BaseNames(ps) + [Basename(p)]
  {
    assert (ps + [p])[..|ps|] == ps;
  }

  /** A pass reports one more count, the number processed so far, which
      never goes down and never passes the number of images announced. */
  lemma ProcessCounts(w: Worker, result: Option<Request.Record>, appended: bool)
    requires w.queue != []
    requires |Counts(w.trace)| == |Names(w.trace)| && NonDecreasing(Counts(w.trace))
    requires |Names(w.trace)| > 0 ==> Counts(w.trace)[|Names(w.trace)| - 1] == w.processed
    requires w.processed <= |Names(w.trace)|
    ensures var r := Process(w, result, appended);
            && |Counts(r.trace)| == |Names(r.trace)| && NonDecreasing(Counts(r.trace))
            && Counts(r.trace)[|Names(r.trace)| - 1] == r.processed
            && r.processed <= |Names(r.trace)|
            && Completions(r.trace) == Completions(w.trace)
  {
    var k := |Names(w.trace)|;
    var r := Process(w, result, appended);
    assert Names(r.trace) == Names(w.trace) + [Basename(w.queue[0])] && Counts(r.trace) == Counts(w.trace) + [r.processed]
        && Completions(r.trace) == Completions(w.trace) by {
      PassProjections(w.trace, w.queue[0], result, r.processed, w.total);
    }
    NonDecreasingSnoc(Counts(w.trace), r.processed);
  }

  /** A sequence that never goes down stays so when a value no smaller
      than its last is appended. */
  lemma NonDecreasingSnoc(c: seq<nat>, x: nat)
    requires NonDecreasing(c) && (|c| > 0 ==> c[|c| - 1] <= x)
    ensures NonDecreasing(c + [x])
  {
    var d := c + [x];
    forall i, j | 0 <= i <= j < |d| ensures d[i] <= d[j] {
      if j == |c| && i < |c| {
        assert d[i] == c[i] <= c[|c| - 1];
      }
    }
  }

  lemma ProcessKeeps(w: Worker, q0: seq<string>, result: Option<Request.Record>, appended: bool)
    requires Inv(w, q0) && (w.phase == Running || w.phase == Waiting)
    requires w.queue != [] && !w.stopped
    ensures Inv(Process(w, result, appended), q0)
  {
    var k := |Names(w.trace)|;
    assert w.queue == q0[k..] && w.queue[0] == q0[k];
    ProcessNames(w, result, appended);
    NextNames(Names(w.trace), q0, k);
    assert Process(w, result, appended).queue == q0[k + 1..];
    ProcessCounts(w, result, appended);
    ProcessTotals(w, result, appended);
  }

  /** Every step of the thread keeps the invariant. */
  lemma TickKeeps(w: Worker, q0: seq<string>, x: Extraction.Extractors, item: Item)
    requires Inv(w, q0)
    ensures Inv(Tick(w, x, item), q0)
  {
    match w.phase
    case Idle =>
    case Finished =>
    case Running =>
      if w.queue == [] {
        FinishKeeps(w, q0);
      } else if w.stopped {
        AbortKeeps(w, q0);
      } else if !w.paused {
        ProcessKeeps(w, q0, Kept(Request.Request(x, w.queue[0], item.replies).outcome), item.appended);
      }
    case Waiting =>
      if w.stopped {
        AbortKeeps(w, q0);
      } else if !w.paused && w.queue != [] {
        ProcessKeeps(w, q0, Kept(Request.Request(x, w.queue[0], item.replies).outcome), item.appended);
      }
  }

  /** The invariant holds after any interleaving of steps and requests. */
  lemma {:induction false} RunKeeps(w: Worker, q0: seq<string>, x: Extraction.Extractors, inputs: seq<Input>)
    requires Inv(w, q0)
    ensures Inv(Run(w, x, inputs), q0)
    decreases |inputs|
  {
    if inputs != [] {
      match inputs[0]
      case Control(c) =>
        ApplyKeeps(w, q0, c);
        RunKeeps(Apply(w, c), q0, x, inputs[1..]);
      case Step(item) =>
        TickKeeps(w, q0, x, item);
        RunKeeps(Tick(w, x, item), q0, x, inputs[1..]);
    }
  }

  /** From `start()` on, whatever happens: images are announced in queue
      order, the `progress` counts never go down, never exceed the total and
      always report the initial queue size, and `completed_signal` fires at
      most once. */
  lemma RunFromStart(images: seq<string>, apiKey: string, jsonlPath: string, x: Extraction.Extractors, inputs: seq<Input>)
    ensures var w := Run(Start(New(images, apiKey), jsonlPath), x, inputs);
            && |Names(w.trace)| <= |images|
            && Names(w.trace) == BaseNames(images[..|Names(w.trace)|])
            && NonDecreasing(Counts(w.trace))
            && (forall i :: 0 <= i < |Counts(w.trace)| ==> Counts(w.trace)[i] <= |images|)
            && TotalsAre(w.trace, |images|)
            && Completions(w.trace) <= 1
  {
    var w0 := Start(New(images, apiKey), jsonlPath);
    StartEstablishes(New(images, apiKey), jsonlPath);
    RunKeeps(w0, images, x, inputs);
    var w := Run(w0, x, inputs);
    var k := |Names(w.trace)|;
    if k == 0 {
      assert Counts(w.trace) == [];
      NoProgressWithoutNames(w.trace);
    } else {
      forall i | 0 <= i < |Counts(w.trace)|
        ensures Counts(w.trace)[i] <= |images|
      {
        assert Counts(w.trace)[i] <= Counts(w.trace)[k - 1];
      }
    }
  }

  /** A trace without `progress` events says nothing about totals. */
  lemma {:induction false} NoProgressWithoutNames(t: seq<Event>)
    requires Counts(t) == []
    ensures TotalsAre(t, 0) && forall total: nat :: TotalsAre(t, total)
    decreases |t|
  {
    if t != [] {
      var s := t[..|t| - 1];
      assert Counts(s) == [] && !t[|t| - 1].Progress?;
      NoProgressWithoutNames(s);
      forall total: nat ensures TotalsAre(t, total) {
        forall i | 0 <= i < |t| && t[i].Progress? ensures t[i].total == total {
          if i < |s| {
            assert t[i] == s[i];
            assert TotalsAre(s, total);
          }
        }
      }
    }
  }

  /** A cancelled worker stays cancelled: its queue stays empty, so it
      announces no further image. */
  predicate Cancelled(w: Worker) {
    w.stopped && w.queue == []
  }

  /** After `cancel()`, no image is ever announced again, whatever else
      happens. */
  lemma {:induction false} NothingAfterCancel(w: Worker, x: Extraction.Extractors, inputs: seq<Input>)
    ensures Names(Run(Apply(w, Cancel), x, inputs).trace) == Names(Apply(w, Cancel).trace)
  {
    CancelledStaysQuiet(Apply(w, Cancel), x, inputs);
  }

  lemma {:induction false} CancelledStaysQuiet(w: Worker, x: Extraction.Extractors, inputs: seq<Input>)
    requires Cancelled(w)
    ensures Names(Run(w, x, inputs).trace) == Names(w.trace)
    decreases |inputs|
  {
    if inputs != [] {
      var w' := match inputs[0]
        case Control(c) => Apply(w, c)
        case Step(item) => Tick(w, x, item);
      assert Cancelled(w');
      if w'.trace != w.trace {
        assert w.phase == Running || w.phase == Waiting;
        assert w'.trace == w.trace + [w'.trace[|w.trace|]];
        AppendOne(w.trace, w'.trace[|w.trace|]);
      }
      CancelledStaysQuiet(w', x, inputs[1..]);
    }
  }

  /** The completion message is emitted only by a worker that was not
      stopped and has emptied its queue; the cancel message only by a
      stopped one. */
  lemma CompletionMessages(w: Worker, x: Extraction.Extractors, item: Item)
    requires Tick(w, x, item).trace != w.trace
    requires Tick(w, x, item).trace[|Tick(w, x, item).trace| - 1].Completed?
    ensures var m := Tick(w, x, item).trace[|Tick(w, x, item).trace| - 1].message;
            && (m == DoneMessage(w.jsonlPath) ==> !w.stopped && w.queue == [])
            && (m == CancelMessage(w.jsonlPath) ==> w.stopped)
            && Tick(w, x, item).phase == Finished
  {
    MessagesDiffer(w.jsonlPath, w.jsonlPath);
  }

  /** A stop seen at the top of the loop ends the run with the cancel
      message, even with images left in the queue. */
  lemma StopEndsRun(w: Worker, x: Extraction.Extractors, item: Item)
    requires w.phase == Running && w.stopped && w.queue != []
    ensures Tick(w, x, item).phase == Finished
    ensures Tick(w, x, item).trace == w.trace + [Completed(CancelMessage(w.jsonlPath))]
  {
  }

  /** A cancel during an item empties the queue, so the loop ends without
      any completion message. */
  lemma CancelMidItemIsSilent(w: Worker, x: Extraction.Extractors, item: Item)
    requires w.phase == Running
    ensures Tick(Apply(w, Cancel), x, item).trace == w.trace
    ensures Tick(Apply(w, Cancel), x, item).phase == Finished
  {
  }
}
