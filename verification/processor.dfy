/** `ImageProcessor` in core/services/image_processor.py: it starts a run,
    checks the responses the worker hands back, keeps the set of processed
    files, and finishes the run at most once. Widgets, logging and the worker
    thread itself are outside; the dialog is the `ProgressBar` model and the
    worker the `Worker` model. */
module Processor {
  import opened Wrappers
  import opened Text
  import Json
  import Worker
  import Request
  import ProgressBar

  /** One entry of `results`: `{'file_path': ..., 'response': ...}`. */
  datatype Entry = Entry(filePath: string, response: Json.Value)

  datatype Processor = Processor(
    results: seq<Entry>,
    processedFiles: set<string>,
    completed: bool,                  // `processing_completed`
    dialog: Option<ProgressBar.Bar>,  // `progress_dialog`
    worker: Option<Worker.Worker>,
    errors: seq<string>,              // `error_occurred` emissions
    percents: seq<int>,               // `progress_updated` emissions
    finished: nat,                    // `process_finished` emissions
    forwarded: seq<Entry>)            // calls of the main window's `handle_result`

  /** The processor as `__init__` leaves it. */
  function New(): (p: Processor)
    ensures p.results == [] && p.processedFiles == {} && !p.completed
    ensures p.dialog.None? && p.worker.None?
  {
    Processor([], {}, false, None, None, [], [], 0, [])
  }

  const NoKeyMessage: string := "API 키가 설정되지 않았습니다."

  function StartLog(n: nat): string {
    "총 " + NatToString(n) + "개의 이미지 처리를 시작합니다."
  }

  /** `cleanup()`: the worker is stopped and dropped, the dialog closed. */
  function Cleanup(p: Processor): (r: Processor)
    ensures r.worker.None? && r.dialog.None?
    ensures r.(worker := p.worker, dialog := p.dialog) == p
  {
    p.(worker := None, dialog := None)
  }

  /** `process_images(image_paths)` with `apiKey` the stored `claude_key`
      (empty when unset). The results, the processed set and the completion
      flag are reset first; without a key the error is reported and nothing
      is started; otherwise a fresh dialog and a worker holding the paths in
      order replace the old ones. */
  function ProcessImages(p: Processor, paths: seq<string>, apiKey: string): (r: Processor)
    ensures r.results == [] && r.processedFiles == {} && !r.completed
    ensures r.worker.None? <==> apiKey == []
    ensures apiKey == [] ==> r.dialog.None? && r.errors == p.errors + [NoKeyMessage]
    ensures apiKey != [] ==> r.errors == p.errors
    ensures apiKey != [] ==> r.worker.value.queue == paths && r.worker.value.phase == Worker.Idle
    ensures apiKey != [] ==> r.dialog.Some? && r.dialog.value.totalImages == |paths|
    ensures apiKey != [] ==> r.dialog.value.log == [StartLog(|paths|)] && r.dialog.value.button == ProgressBar.CancelButton
    ensures r.percents == p.percents && r.finished == p.finished && r.forwarded == p.forwarded
  {
    var cleared := p.(results := [], processedFiles := {}, completed := false);
    if apiKey == [] then
      Cleanup(cleared.(errors := cleared.errors + [NoKeyMessage]))
    else
      cleared.(dialog := Some(ProgressBar.AddLog(ProgressBar.New(|paths|), StartLog(|paths|))),
             worker := Some(Worker.New(paths, apiKey)))
  }

  /** Whatever happened in an earlier run, a new run starts with nothing
      recorded. */
  lemma RestartForgets(p: Processor, paths: seq<string>, apiKey: string, path: string)
    ensures var r := ProcessImages(p, paths, apiKey);
            path !in r.processedFiles && |r.results| == 0 && !r.completed
  {
  }

  // ---------------------------------------------------------------------
  // parse_response

  const EnglishKey: string := "english_caption"
  const KoreanKey: string := "korean_caption"

  /** What `parse_response` can be given. */
  datatype Response = NoResponse | Text(s: string) | Decoded(v: Json.Value)

  /** The response `parse_response` builds from a caption pair. */
  function CaptionResponse(english: Json.Value, korean: Json.Value): (v: Json.Value)
    ensures v.Obj? && v.fields.Keys == {"text"}
    ensures v.fields["text"] == Json.Obj(map[EnglishKey := english, KoreanKey := korean])
  {
    Json.Obj(map["text" := Json.Obj(map[EnglishKey := english, KoreanKey := korean])])
  }

  /** The caption pair under `text_data`: the test `key in text_data`
      raises on a number, a bool or `None`, and on a str or a list the
      subscript `text_data['english_caption']` that follows a successful
      test raises; the handler turns each exception into `None`. */
  function CaptionsOf(t: Json.Value): (r: Option<Json.Value>)
    ensures r.Some? <==> t.Obj? && EnglishKey in t.fields && KoreanKey in t.fields
    ensures r.Some? ==> r.value == CaptionResponse(t.fields[EnglishKey], t.fields[KoreanKey])
  {
    match t
    case Obj(f) =>
      if EnglishKey in f && KoreanKey in f then Some(CaptionResponse(f[EnglishKey], f[KoreanKey]))
      else None
    case _ => None
  }

  /** The Claude message shape: a dict whose `content` is a list whose first
      element is a dict with a `text` entry. */
  function ContentText(v: Json.Value): (r: Option<Json.Value>)
  {
    if !v.Obj? || "content" !in v.fields || !v.fields["content"].Arr? then None
    else
      var items := v.fields["content"].items;
      if items == [] then None  // `response['content'][0]` raises IndexError
      else if !items[0].Obj? || "text" !in items[0].fields then None
      else Some(items[0].fields["text"])
  }

  /** `parse_response(response)`, with `loads` standing for `json.loads`
      (`None` when it raises). */
  function ParseResponse(response: Response, loads: string -> Option<Json.Value>): (r: Option<Json.Value>)
    ensures response.NoResponse? ==> r.None?
    ensures r.Some? ==> r.value.Obj? && r.value.fields.Keys == {"text"}
  {
    var v := match response
      case NoResponse => None
      case Text(s) => loads(s)
      case Decoded(v) => Some(v);
    if v.None? then None
    else
      match ContentText(v.value)
      case None => None
      case Some(t) => CaptionsOf(t)
  }

  /** A Claude message with both captions parses to exactly the two
      captions, whatever else the message and its `content` list hold. */
  lemma ParseMessage(fields: map<string, Json.Value>, rest: seq<Json.Value>, block: map<string, Json.Value>,
                     captions: map<string, Json.Value>, loads: string -> Option<Json.Value>)
    requires EnglishKey in captions && KoreanKey in captions
    requires "text" in block && block["text"] == Json.Obj(captions)
    requires "content" in fields && fields["content"] == Json.Arr([Json.Obj(block)] + rest)
    ensures ParseResponse(Decoded(Json.Obj(fields)), loads)
         == Some(CaptionResponse(captions[EnglishKey], captions[KoreanKey]))
  {
    assert ContentText(Json.Obj(fields)) == Some(Json.Obj(captions));
  }

  /** A string that merely mentions both keys is not accepted: the
      subscript raises, and the result is `None`. */
  lemma TextDataMustBeDict(s: string, loads: string -> Option<Json.Value>)
    ensures var block := map["text" := Json.Str(s)];
            ParseResponse(Decoded(Json.Obj(map["content" := Json.Arr([Json.Obj(block)])])), loads).None?
  {
  }

  /** The result of parsing is itself not a Claude message: it has no
      `content`, so parsing it again gives `None`. */
  lemma ParseNotRepeatable(response: Response, loads: string -> Option<Json.Value>)
    requires ParseResponse(response, loads).Some?
    ensures ParseResponse(Decoded(ParseResponse(response, loads).value), loads).None?
  {
  }

  // ---------------------------------------------------------------------
  // handle_result

  const ErrorPrefix: string := "파일 처리 오류: "

  /** The responses `handle_result` keeps: a dict with a `text` entry. */
  predicate Accepted(v: Json.Value) {
    v.Obj? && "text" in v.fields
  }

  /** The message of the `ValueError` `handle_result` raises for a response
      it refuses. */
  function Refusal(fileName: string, v: Json.Value): string {
    if !Json.Truthy(v) then "Empty response for " + fileName
    else if !v.Obj? then "Response is not a dictionary: <class '" + Json.TypeName(v) + "'>"
    else "Missing required field 'text' in response"
  }

  /** `handle_result(file_path, response)`, with `format` standing for
      `format_response`. A refused response leaves everything but the error
      signal alone; an accepted one adds the path to the processed set,
      appends exactly one result, logs it and is passed on to the main
      window. */
  function HandleResult(p: Processor, path: string, response: Json.Value, format: Json.Value -> string): (r: Processor)
    ensures Accepted(response) ==> r.processedFiles == p.processedFiles + {path}
    ensures Accepted(response) ==> r.results == p.results + [Entry(path, response)]
    ensures Accepted(response) ==> r.forwarded == p.forwarded + [Entry(path, response)] && r.errors == p.errors
    ensures !Accepted(response) ==> r == p.(errors := p.errors + [ErrorPrefix + Refusal(Basename(path), response)])
    ensures r.completed == p.completed && r.worker == p.worker && r.percents == p.percents
  {
    ChecksAreAccepted(response);
    if !Json.Truthy(response) || !response.Obj? || "text" !in response.fields then
      p.(errors := p.errors + [ErrorPrefix + Refusal(Basename(path), response)])
    else
      Keep(p, path, response, format)
  }

  /** The three checks of `handle_result` refuse exactly the responses that
      are not dicts with a `text` entry: such a dict is never falsy. */
  lemma ChecksAreAccepted(v: Json.Value)
    ensures Accepted(v) <==> Json.Truthy(v) && v.Obj? && "text" in v.fields
  {
    if Accepted(v) {
      assert v.fields != map[] by {
        assert "text" in v.fields;
        var empty: map<string, Json.Value> := map[];
        assert "text" !in empty;
      }
    }
  }

  /** The accepted branch of `handle_result`. */
  function Keep(p: Processor, path: string, response: Json.Value, format: Json.Value -> string): (r: Processor)
    ensures r.processedFiles == p.processedFiles + {path}
    ensures r.results == p.results + [Entry(path, response)]
    ensures r.forwarded == p.forwarded + [Entry(path, response)]
    ensures r.(processedFiles := p.processedFiles, results := p.results, forwarded := p.forwarded, dialog := p.dialog) == p
  {
    var name := Basename(path);
    var e := Entry(path, response);
    var dialog := match p.dialog
      case None => None
      case Some(b) => Some(ProgressBar.AddLog(ProgressBar.AddLog(b, "\n처리 완료: " + name),
                                              "응답:\n" + format(response)));
    p.(processedFiles := p.processedFiles + {path}, results := p.results + [e],
       dialog := dialog, forwarded := p.forwarded + [e])
  }

  /** Whatever `parse_response` returns is kept by `handle_result`. */
  lemma ParsedIsAccepted(response: Response, loads: string -> Option<Json.Value>)
    requires ParseResponse(response, loads).Some?
    ensures Accepted(ParseResponse(response, loads).value)
  {
  }

  /** The dict the worker emits with `result_signal`: the record as
      `{content, image_path, text: {english_caption, korean_caption}}`. */
  function RecordJson(rec: Request.Record): (v: Json.Value)
    ensures Accepted(v)
  {
    Json.Obj(map[
      "content" := Json.Str(rec.content),
      "image_path" := Json.Str(rec.imagePath),
      "text" := Json.Obj(map[EnglishKey := Json.Str(rec.text.english), KoreanKey := Json.Str(rec.text.korean)])])
  }

  /** Every record the worker reports is kept under the path it was
      reported for, and nothing is reported as an error. */
  lemma WorkerResultKept(p: Processor, path: string, rec: Request.Record, format: Json.Value -> string)
    ensures var r := HandleResult(p, path, RecordJson(rec), format);
            path in r.processedFiles && |r.results| == |p.results| + 1 && r.errors == p.errors
  {
  }

  /** Handling the same path twice keeps one entry in the processed set
      but two in the results. */
  lemma HandledTwice(p: Processor, path: string, v: Json.Value, format: Json.Value -> string)
    requires Accepted(v)
    ensures var r := HandleResult(HandleResult(p, path, v, format), path, v, format);
            r.processedFiles == p.processedFiles + {path} && |r.results| == |p.results| + 2
  {
  }

  // ---------------------------------------------------------------------
  // process_complete and update_progress_incremental

  /** What the results file looks like when the run completes: no path or
      no file, or a file whose lines could (or could not) be counted. */
  datatype Saved = NotSaved | SavedFile(path: string, lines: Option<nat>)

  const CompleteLog: string := "\n모든 이미지 처리가 완료되었습니다."
  const ClosingLog: string := "\n처리가 완료되었습니다. 창을 닫으려면 닫기 버튼을 클릭하세요."

  /** The lines logged about the results file. */
  function SavedLogs(s: Saved): seq<string> {
    match s
    case NotSaved => ["\n처리 결과 저장에 실패했거나 결과 파일을 찾을 수 없습니다."]
    case SavedFile(path, None) => ["\n결과가 JSONL 파일에 저장되었습니다: " + path]
    case SavedFile(path, Some(n)) =>
      ["\n결과가 JSONL 파일에 저장되었습니다: " + path,
       "총 " + NatToString(n) + "개의 이미지 처리 결과가 저장되었습니다."]
  }

  /** Sets the button text to "닫기": a button already accepting the dialog
      stays so, the cancel button is only renamed. */
  function Relabel(b: ProgressBar.Bar): ProgressBar.Bar {
    b.(button := if b.button == ProgressBar.CloseButton then ProgressBar.CloseButton else ProgressBar.RenamedCancel)
  }

  /** `process_complete()` with the dialog set to 100% through
      `update_progress(total_images, total_images)`. The first call sets the
      flag and, with a dialog, logs the outcome, emits `process_finished`
      and relabels the button; every later call returns at once. */
  function ProcessComplete(p: Processor, saved: Saved): (r: Processor)
    ensures p.completed ==> r == p
    ensures r.completed
    ensures !p.completed && p.dialog.None? ==> r == p.(completed := true)
    ensures !p.completed && p.dialog.Some? ==> r.finished == p.finished + 1 && r.dialog.Some?
    ensures !p.completed && p.dialog.Some? ==> r.dialog.value.button != ProgressBar.CancelButton
    ensures !p.completed && p.dialog.Some? && p.dialog.value.totalImages > 0 ==>
              r.dialog.value.button == ProgressBar.CloseButton && r.dialog.value.value == 100
    ensures !p.completed && p.dialog.Some? ==>
              var log := r.dialog.value.log;
              |log| > |p.dialog.value.log| && log[|log| - 1] == ClosingLog
    ensures r.results == p.results && r.processedFiles == p.processedFiles && r.errors == p.errors
  {
    if p.completed then p
    else
      var p1 := p.(completed := true);
      match p1.dialog
      case None => p1
      case Some(b) =>
        var n := b.totalImages;
        var b1 := ProgressBar.UpdateProgress(ProgressBar.AddLog(b, CompleteLog), n, n, 100);
        var b2 := b1.(log := b1.log + SavedLogs(saved) + [ClosingLog]);
        p1.(dialog := Some(Relabel(b2)), finished := p1.finished + 1)
  }

  /** The completion runs at most once, whatever the results file looks
      like on the later calls. */
  lemma CompleteOnce(p: Processor, s1: Saved, s2: Saved)
    ensures ProcessComplete(ProcessComplete(p, s1), s2) == ProcessComplete(p, s1)
    ensures ProcessComplete(ProcessComplete(p, s1), s2).finished <= p.finished + 1
  {
  }

  function Min(a: int, b: int): (m: int)
    ensures m <= a && m <= b && (m == a || m == b)
  {
    if a <= b then a else b
  }

  function ProgressLog(count: nat, total: int, pct: int): string {
    "진행 상황: " + NatToString(count) + "/" + IntToString(total) + " 파일 처리 완료 (" + IntToString(pct) + "%)"
  }

  /** `update_progress_incremental()` with the dialog updated through
      `update_progress(processed_count, total_count)`; `pct` is the value of
      `int((processed_count / total_count) * 100)`. Nothing happens without
      a dialog or after completion; the emitted percentage is capped at 100;
      the run completes exactly when every image is in the processed set. */
  function UpdateProgressIncremental(p: Processor, pct: int, saved: Saved): (r: Processor)
    ensures p.dialog.None? || p.completed ==> r == p
    ensures p.dialog.Some? && !p.completed ==>
              (r.completed <==> |p.processedFiles| >= p.dialog.value.totalImages)
    ensures |p.percents| <= |r.percents| <= |p.percents| + 1 && r.percents[..|p.percents|] == p.percents
    ensures forall i :: |p.percents| <= i < |r.percents| ==> r.percents[i] <= 100
    ensures r.results == p.results && r.processedFiles == p.processedFiles && r.errors == p.errors
  {
    if p.dialog.None? || p.completed then p
    else
      var b := p.dialog.value;
      var count := |p.processedFiles|;
      var total := b.totalImages;
      var p1 :=
        if total > 0 then
          var shown := Min(100, pct);
          p.(percents := p.percents + [shown],
             dialog := Some(ProgressBar.AddLog(ProgressBar.UpdateProgress(b, count, total, pct),
                                               ProgressLog(count, total, shown))))
        else p;
      if count >= total then ProcessComplete(p1, saved) else p1
  }

  /** Once every image of a run is in the processed set, the next
      incremental update completes the run, and updates after that change
      nothing. */
  lemma CompletesOnceAllProcessed(p: Processor, pct1: int, pct2: int, s1: Saved, s2: Saved)
    requires p.dialog.Some? && !p.completed && |p.processedFiles| >= p.dialog.value.totalImages
    ensures var r := UpdateProgressIncremental(p, pct1, s1);
            r.completed && UpdateProgressIncremental(r, pct2, s2) == r
  {
  }

  // ---------------------------------------------------------------------
  // The code as written: `update_progress` takes `(processed, total)`, but
  // lines 278 and 354 of image_processor.py pass a single argument.

  /** A call that returns normally, or raises with this message after
      leaving the processor in the given state. */
  datatype Call = Returned(p: Processor) | Raised(p: Processor, error: string)

  const MissingTotal: string := "TypeError: update_progress() missing 1 required positional argument: 'total'"

  /** `process_complete()` as written: `update_progress(100)`. */
  function ProcessCompleteAsWritten(p: Processor, saved: Saved): (r: Call)
    ensures p.completed ==> r == Returned(p)
    ensures r.p.completed
  {
    if p.completed then Returned(p)
    else
      var p1 := p.(completed := true);
      match p1.dialog
      case None => Returned(p1)
      case Some(b) => Raised(p1.(dialog := Some(ProgressBar.AddLog(b, CompleteLog))), MissingTotal)
  }

  /** `update_progress_incremental()` as written: `update_progress(pct)`. */
  function UpdateProgressIncrementalAsWritten(p: Processor, pct: int, saved: Saved): (r: Call)
    ensures p.dialog.None? || p.completed ==> r == Returned(p)
  {
    if p.dialog.None? || p.completed then Returned(p)
    else
      var b := p.dialog.value;
      var count := |p.processedFiles|;
      var total := b.totalImages;
      if total > 0 then
        Raised(p.(percents := p.percents + [Min(100, pct)]), MissingTotal)
      else if count >= total then ProcessCompleteAsWritten(p, saved)
      else Returned(p)
  }

  /** As written, the first completion with a dialog raises before the
      button is relabelled or `process_finished` is emitted, and the flag it
      has already set makes every later call return at once: the run is
      never announced as finished. */
  lemma CompleteAsWrittenNeverFinishes(p: Processor, s1: Saved, s2: Saved)
    requires !p.completed && p.dialog.Some? && p.dialog.value.button == ProgressBar.CancelButton
    ensures ProcessCompleteAsWritten(p, s1).Raised?
    ensures ProcessCompleteAsWritten(p, s1).error == MissingTotal
    ensures var q := ProcessCompleteAsWritten(p, s1).p;
            q.finished == p.finished && q.dialog.value.button == ProgressBar.CancelButton
            && ProcessCompleteAsWritten(q, s2) == Returned(q)
    ensures ProcessComplete(p, s1).finished == p.finished + 1
  {
  }

  /** As written, an incremental update with a positive total raises before
      its completion test, so it never completes the run, even with every
      image processed. */
  lemma IncrementalAsWrittenNeverCompletes(p: Processor, pct: int, saved: Saved)
    requires !p.completed && p.dialog.Some? && p.dialog.value.totalImages > 0
    requires |p.processedFiles| >= p.dialog.value.totalImages
    ensures UpdateProgressIncrementalAsWritten(p, pct, saved).Raised?
    ensures !UpdateProgressIncrementalAsWritten(p, pct, saved).p.completed
    ensures UpdateProgressIncremental(p, pct, saved).completed
  {
  }
}
