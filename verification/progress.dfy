/** `ProgressBarDialog` in core/dialog/progress_bar_dialog.py: the dialog
    the image processor shows while the worker runs. The worker's `progress`
    and `current_file` signals drive it. The bar's percentage is computed in
    floating point by the source, so it enters the model as an input. */
module ProgressBar {
  import opened Text
  import Worker

  /** The bottom button: "취소" rejecting the dialog; "닫기" accepting it,
      as `update_progress` leaves it on completion; or "닫기" still
      rejecting it, when only its text has been changed. */
  datatype Button = CancelButton | CloseButton | RenamedCancel

  datatype Bar = Bar(
    totalImages: int,
    value: int,         // the progress bar's value, 0..100 in practice
    status: string,     // `progress_label`
    fileLabel: string,  // `current_file_label`
    log: seq<string>,   // the lines appended to `log_text`
    button: Button)

  const CompletionLog: string := "\n모든 이미지 처리가 완료되었습니다!"

  /** The dialog as `setup_ui` leaves it. */
  function New(totalImages: int): (b: Bar)
    ensures b.totalImages == totalImages && b.value == 0
    ensures b.log == [] && b.button == CancelButton
  {
    Bar(totalImages, 0, "진행 상황:", "처리 중인 파일: ", [], CancelButton)
  }

  function ProgressLabel(processed: int, total: int, pct: int): string {
    "진행 상황: " + IntToString(processed) + "/" + IntToString(total) + " (" + IntToString(pct) + "%)"
  }

  function DoneLabel(total: int): string {
    "처리 완료! (" + IntToString(total) + "개 이미지 처리됨)"
  }

  /** `update_progress(processed, total)`, where `pct` is the value of
      `int((processed / total) * 100)`. Nothing happens unless `total` is
      positive; reaching `total` switches to the completion state. */
  function UpdateProgress(b: Bar, processed: int, total: int, pct: int): (r: Bar)
    ensures total <= 0 ==> r == b
    ensures r.totalImages == b.totalImages && r.fileLabel == b.fileLabel
    ensures total > 0 ==> r.value == pct
    ensures r.button == CloseButton <==> b.button == CloseButton || (total > 0 && processed == total)
    ensures r.button == b.button || r.button == CloseButton
    ensures r.log == if total > 0 && processed == total then b.log + [CompletionLog] else b.log
    ensures total > 0 ==> r.status == if processed == total then DoneLabel(total) else ProgressLabel(processed, total, pct)
  {
    if total <= 0 then b
    else if processed == total then
      b.(value := pct, status := DoneLabel(total), button := CloseButton, log := b.log + [CompletionLog])
    else
      b.(value := pct, status := ProgressLabel(processed, total, pct))
  }

  /** What is known of `int((processed / total) * 100)` in binary floating
      point: exact at both ends, and within 0..100 in between. */
  predicate FloatPercent(processed: int, total: int, pct: int) {
    total > 0
    && (processed == 0 ==> pct == 0)
    && (processed == total ==> pct == 100)
    && (0 <= processed <= total ==> 0 <= pct <= 100)
  }

  /** The bar shows 0 before anything is processed and 100 when everything
      is; only the latter shows the completion state. */
  lemma BarEndpoints(b: Bar, total: int, pct0: int, pct1: int)
    requires total > 0 && b.button == CancelButton
    requires FloatPercent(0, total, pct0) && FloatPercent(total, total, pct1)
    ensures UpdateProgress(b, 0, total, pct0).value == 0
    ensures UpdateProgress(b, 0, total, pct0).button == CancelButton
    ensures UpdateProgress(b, total, total, pct1).value == 100
    ensures UpdateProgress(b, total, total, pct1).status == DoneLabel(total)
  {
  }

  /** `update_current_file(path)`: a non-empty path is shown and logged; an
      empty one shows "처리 완료" and logs nothing. */
  function UpdateCurrentFile(b: Bar, path: string): (r: Bar)
    ensures r.value == b.value && r.status == b.status && r.button == b.button
    ensures path != [] ==> r.fileLabel == "처리 중인 파일: " + path && r.log == b.log + ["\n새로운 파일 처리 시작: " + path]
    ensures path == [] ==> r.fileLabel == "처리 완료" && r.log == b.log
  {
    if path != [] then
      AddLog(b.(fileLabel := "처리 중인 파일: " + path), "\n새로운 파일 처리 시작: " + path)
    else
      b.(fileLabel := "처리 완료")
  }

  /** `add_log(message)`: one more line, the rest unchanged. */
  function AddLog(b: Bar, message: string): (r: Bar)
    ensures |r.log| == |b.log| + 1 && r.log[..|b.log|] == b.log && r.log[|b.log|] == message
    ensures r.(log := b.log) == b
  {
    b.(log := b.log + [message])
  }

  /** `clear_log()`. */
  function ClearLog(b: Bar): (r: Bar)
    ensures r.log == [] && r.(log := b.log) == b
  {
    b.(log := [])
  }

  /** The dialog after the worker's signals in `t`: `progress` goes to
      `update_progress` and `current_file` to `update_current_file`; the
      other signals are connected elsewhere. `pct` gives the floating-point
      percentage of each `progress` pair. */
  function Replay(b: Bar, t: seq<Worker.Event>, pct: (int, int) -> int): (r: Bar)
    ensures r.button == b.button || r.button == CloseButton
    ensures r.totalImages == b.totalImages
    decreases |t|
  {
    if t == [] then b
    else
      var r := Replay(b, t[..|t| - 1], pct);
      match t[|t| - 1]
      case Progress(done, total) => UpdateProgress(r, done, total, pct(done, total))
      case CurrentFile(name) => UpdateCurrentFile(r, name)
      case _ => r
  }

  /** Some `progress` signal of `t` reports every image processed. */
  predicate ReportsAllDone(t: seq<Worker.Event>) {
    exists i :: 0 <= i < |t| && t[i].Progress? && t[i].total > 0 && t[i].done == t[i].total
  }

  /** The close button appears exactly when some `progress` signal reported
      all images processed (or it was already there). */
  lemma {:induction false} ReplayCloses(b: Bar, t: seq<Worker.Event>, pct: (int, int) -> int)
    ensures Replay(b, t, pct).button == CloseButton <==> b.button == CloseButton || ReportsAllDone(t)
    decreases |t|
  {
    if t != [] {
      var s := t[..|t| - 1];
      ReplayCloses(b, s, pct);
      var e := t[|t| - 1];
      if ReportsAllDone(s) {
        var i :| 0 <= i < |s| && s[i].Progress? && s[i].total > 0 && s[i].done == s[i].total;
        assert t[i] == s[i];
      }
      if ReportsAllDone(t) && !(e.Progress? && e.total > 0 && e.done == e.total) {
        var i :| 0 <= i < |t| && t[i].Progress? && t[i].total > 0 && t[i].done == t[i].total;
        assert i < |s| && s[i] == t[i];
      }
    }
  }

  /** A worker that never reports all images processed (an item failed, or
      the run was cancelled) leaves the cancel button in place. */
  lemma CancelButtonStaysWithoutFullReport(total: int, t: seq<Worker.Event>, pct: (int, int) -> int)
    requires forall i :: 0 <= i < |t| && t[i].Progress? ==> t[i].done < t[i].total
    ensures Replay(New(total), t, pct).button == CancelButton
  {
    ReplayCloses(New(total), t, pct);
  }
}

/** `ProgressDialog` in ui/progress_dialog.py: a second progress dialog with
    a pause button that can drive the worker's `pause` and `resume`. */
module ProgressDialog {
  import opened Wrappers
  import opened Text
  import Worker

  datatype Dialog = Dialog(
    paused: bool,
    pauseText: string,       // the pause button's text
    hasWorker: bool,         // `worker_thread` is set
    barValue: int,
    barMaximum: int,
    percentLabel: string,    // `progress_label`
    barFormat: string)       // the bar's format text

  /** The dialog after `__init__`. */
  function New(): (d: Dialog)
    ensures !d.paused && !d.hasWorker && d.pauseText == "일시정지" && d.barMaximum == 100
  {
    Dialog(false, "일시정지", false, 0, 100, "0%", "")
  }

  /** `toggle_pause()`: the button's own flag, without a worker. */
  function TogglePause(d: Dialog): (r: Dialog)
    ensures r.paused == !d.paused
    ensures r.pauseText == if r.paused then "재개" else "일시정지"
    ensures r.(paused := d.paused, pauseText := d.pauseText) == d
  {
    var p := !d.paused;
    d.(paused := p, pauseText := if p then "재개" else "일시정지")
  }

  /** `toggle_worker_pause()`: with no worker nothing happens; otherwise the
      flag flips, the text is "재개" or "일시 정지", and the worker is told
      to pause or to resume accordingly. */
  function ToggleWorkerPause(d: Dialog): (r: (Dialog, Option<Worker.Control>))
    ensures !d.hasWorker ==> r == (d, None)
    ensures d.hasWorker ==> r.0.paused == !d.paused && r.1 == Some(if r.0.paused then Worker.Pause else Worker.Resume)
    ensures d.hasWorker ==> r.0.pauseText == if r.0.paused then "재개" else "일시 정지"
    ensures r.0.(paused := d.paused, pauseText := d.pauseText) == d
  {
    if !d.hasWorker then (d, None)
    else
      var p := !d.paused;
      (d.(paused := p, pauseText := if p then "재개" else "일시 정지"), Some(if p then Worker.Pause else Worker.Resume))
  }

  /** The request the button sends, applied to the worker. */
  function Press(d: Dialog, w: Worker.Worker): (Dialog, Worker.Worker) {
    var (d', c) := ToggleWorkerPause(d);
    (d', if c.Some? then Worker.Apply(w, c.value) else w)
  }

  /** Pressing the button keeps the dialog's flag and the worker's flag in
      step, however often it is pressed. */
  lemma {:induction false} PauseStaysInSync(d: Dialog, w: Worker.Worker, presses: nat)
    requires d.hasWorker && d.paused == w.paused
    ensures var (d', w') := PressMany(d, w, presses);
            d'.paused == w'.paused && d'.hasWorker && w'.queue == w.queue && w'.stopped == w.stopped
    decreases presses
  {
    if presses > 0 {
      var (d1, w1) := Press(d, w);
      PauseStaysInSync(d1, w1, presses - 1);
    }
  }

  function PressMany(d: Dialog, w: Worker.Worker, presses: nat): (Dialog, Worker.Worker)
    decreases presses
  {
    if presses == 0 then (d, w)
    else
      var (d1, w1) := Press(d, w);
      PressMany(d1, w1, presses - 1)
  }

  /** `int(a / b)` for a positive `b`: the quotient truncated toward zero
      (exact in floating point while `|a|` stays below 2^53). */
  function TruncDiv(a: int, b: int): (q: int)
    requires b > 0
    ensures a >= 0 ==> q == a / b
    ensures a < 0 ==> q == -((-a) / b)
  {
    if a >= 0 then a / b else -((-a) / b)
  }

  /** `_update_progress_safe(current, total)`: with a positive total the bar
      and label show `int(current * 100 / total)`; otherwise nothing
      changes. */
  function UpdateProgressSafe(d: Dialog, current: int, total: int): (r: Dialog)
    ensures total <= 0 ==> r == d
    ensures total > 0 ==> r.barValue == TruncDiv(current * 100, total)
    ensures total > 0 ==> r.percentLabel == IntToString(r.barValue) + "% (" + IntToString(current) + "/" + IntToString(total) + ")"
    ensures r.(barValue := d.barValue, percentLabel := d.percentLabel) == d
  {
    if total > 0 then
      var percent := TruncDiv(current * 100, total);
      d.(barValue := percent, percentLabel := IntToString(percent) + "% (" + IntToString(current) + "/" + IntToString(total) + ")")
    else d
  }

  /** The percentage shown for `current` of a positive `total`: 0 at 0,
      100 at `total`, and between the two in between. */
  lemma PercentBounds(d: Dialog, current: int, total: int)
    requires 0 <= current <= total && total > 0
    ensures var v := UpdateProgressSafe(d, current, total).barValue;
            && 0 <= v <= 100
            && (current == total ==> v == 100)
            && (current == 0 ==> v == 0)
  {
    PercentOf(current, total);
  }

  lemma PercentOf(current: int, total: int)
    requires 0 <= current <= total && total > 0
    ensures var v := TruncDiv(current * 100, total);
            && 0 <= v <= 100
            && (current == total ==> v == 100)
            && (current == 0 ==> v == 0)
  {
    var a := current * 100;
    MulMono(current, total, 100);
    DivAtMost(a, total, 100);
    DivAtLeast(a, total, 0);
    if current == total {
      DivAtLeast(a, total, 100);
    }
    if current == 0 {
      DivAtMost(a, total, 0);
    }
  }

  lemma MulMono(x: int, y: int, d: int)
    requires d > 0 && x <= y
    ensures x * d <= y * d
  {
  }

  lemma DivAtMost(a: int, d: int, k: int)
    requires d > 0 && 0 <= a <= k * d
    ensures a / d <= k
  {
    if a / d > k {
      MulMono(k + 1, a / d, d);
      assert false;
    }
  }

  lemma DivAtLeast(a: int, d: int, k: int)
    requires d > 0 && k * d <= a
    ensures k <= a / d
  {
    if a / d < k {
      MulMono(a / d + 1, k, d);
      assert false;
    }
  }

  /** `update_progress_value(value, maximum)`: a given maximum is set first;
      the percentage is 0 when the maximum is not positive, and otherwise
      `pct`, the value of `int(value / maximum * 100)`. */
  function UpdateProgressValue(d: Dialog, value: int, maximum: Option<int>, pct: int): (r: Dialog)
    ensures r.barMaximum == maximum.GetOr(d.barMaximum) && r.barValue == value
    ensures r.barFormat == IntToString(value) + "/" + IntToString(r.barMaximum) + " ("
                           + IntToString(if r.barMaximum > 0 then pct else 0) + "%)"
  {
    var m := maximum.GetOr(d.barMaximum);
    var percent := if m > 0 then pct else 0;
    d.(barMaximum := m, barValue := value,
       barFormat := IntToString(value) + "/" + IntToString(m) + " (" + IntToString(percent) + "%)")
  }
}
