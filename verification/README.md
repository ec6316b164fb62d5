# Image caption extractor — a Dafny model of its logic

This project models the deterministic parts of a PyQt desktop application. The application sends images to a vision model and collects an English and a Korean caption for each image. The API call, the file system, the clock and the widgets become parameters: oracle functions (`pathExists`, `read`, `parse`, `loads`, the reply of each attempt) and user answers. What is left is a set of total functions and small transition systems, written in Dafny and proved against the behaviour of the Python code.

The modules follow the program:

- `Captions`, `Extraction`, `Request`, `JsonlFile` and `Worker` model the caption worker thread in utils/worker_thread_chat_completion.py:
  - sentence splitting and truncation;
  - the fallback order of `extract_json_from_text`;
  - the per-image retry and backoff policy and the result record;
  - the `.jsonl` output name;
  - the run loop, as a state machine with an event trace.
- `Processor` models the result bookkeeping of core/services/image_processor.py, including the completion that runs at most once.
- `ImageTable` and `FileOperations` model the image table:
  - the format filter, appending, selection, deletion and toggle-all;
  - removing processed rows;
  - the remembered directory of core/services/file_operations.py.
- `ConfigFile`, `SettingsHandler` and `Startup` model the JSON configuration stores: the settings handler and the start-up check in main.py.
- `SettingDialog` models the API-key validity state machine of the settings dialog.
- `ResponseSelector` models the response-selection dialog: paging, insertion-ordered selections, and `|`-separated rows.
- `ProgressBar` and `ProgressDialog` model the two progress dialogs.
- `Keywords` models the keyword cache singleton.
- `Wrappers`, `Json` and `Text` hold the shared pieces:
  - `Option`/`Result`;
  - JSON values with Python truthiness;
  - `str.strip`, `split`/`join`, `os.path` on `/`-separated paths, and integer formatting.

## Model

| member | source | states |
|---|---|---|
| Captions.SentencesAreClauses | utils/worker_thread_chat_completion.py:178-185 | every sentence `count_sentences` yields is non-empty, stripped, and contains no sentence end followed by whitespace or the end of the text, for the delimiter set its ASCII test chose |
| Captions.AsciiCaptionIgnoresFullWidthEnds | utils/worker_thread_chat_completion.py:180-184 | once a caption holds any ASCII character, `。！？` never split it |
| Captions.ThreeClausesSplitBack | utils/worker_thread_chat_completion.py:181-193 | three sentences joined by ". " with a final "." split back into exactly those three |
| Captions.TruncatedForm | utils/worker_thread_chat_completion.py:189-198 | a caption with more than three sentences becomes its first three joined by ". " plus "." |
| Captions.TruncatedSplitsBack | utils/worker_thread_chat_completion.py:189-198 | splitting a truncated caption again gives back exactly its first three sentences |
| Captions.TruncatedIsStripped | utils/worker_thread_chat_completion.py:172-198 | a truncated caption has no surrounding whitespace |
| Captions.NormaliseKeepsFirstSentences | utils/worker_thread_chat_completion.py:172-200 | after normalisation the sentences are the first three of the stripped caption, or all of them when there were at most three |
| Captions.NormaliseIdempotent | utils/worker_thread_chat_completion.py:172-200 | normalising a normalised caption changes nothing |
| Extraction.Extract | utils/worker_thread_chat_completion.py:521-567 | empty text gives `None`; otherwise the first of fenced block, braced object and whole text that parses is returned, else the raw text |
| Extraction.FencedFirst | utils/worker_thread_chat_completion.py:531-538 | a fenced block that parses wins over every later candidate |
| Extraction.BracedSecond | utils/worker_thread_chat_completion.py:542-550 | the braced object is returned exactly when the fenced block fails and it parses |
| Extraction.WholeThird | utils/worker_thread_chat_completion.py:554-558 | the whole text is returned parsed exactly when both searches fail and it parses |
| Extraction.RawTextLast | utils/worker_thread_chat_completion.py:559-562 | the raw text is returned exactly when all three parses fail on non-empty text |
| Extraction.RawTextIsTruthyString | utils/worker_thread_chat_completion.py:559-562 | the raw-text fallback is a truthy string, so it is validated rather than treated as an empty reply |
| Request.MakeRecord | utils/worker_thread_chat_completion.py:172-214 | the record holds the basename, the path with every backslash turned into a forward slash and every other character kept, and the given captions normalised: stripped, and cut to their first three sentences when they have more, so their sentences are exactly the first min(3, n) of the stripped caption |
| Request.Validate | utils/worker_thread_chat_completion.py:161-167 | an attempt yields a record exactly when `text` has truthy `english_caption` and `korean_caption` strings |
| Request.Step | utils/worker_thread_chat_completion.py:153-232 | a raised call is a failure carrying its message; an empty reply gives `None` at once; only a falsy extraction does that |
| Request.Attempts | utils/worker_thread_chat_completion.py:80-257 | from attempt k on, at most 3-k waits, each of 0, 2 or 4 seconds, the last one 0 |
| Request.Ends | utils/worker_thread_chat_completion.py:153-232 | a raised reply ends the attempt as a failure with its message; an empty reply returns nothing; a returned record comes from a reply whose extracted JSON is well formed |
| Request.Request | utils/worker_thread_chat_completion.py:80-257 | one to three attempts, each wait 0, 2 or 4 seconds; a returned record comes from a well-formed last reply; a re-raise happens only after three attempts, the last of which raised with that message or gave malformed JSON; an empty first reply returns nothing after one attempt |
| Request.Retry | utils/worker_thread_chat_completion.py:80-257 | between one and three attempts, ending without a wait |
| Request.FirstDoneDecides | utils/worker_thread_chat_completion.py:156-227 | the first attempt that ends with a result or `None` decides the outcome, after exactly that many attempts |
| Request.ReraisedIff | utils/worker_thread_chat_completion.py:240-257 | the error is re-raised exactly when the third attempt raises after two attempts without an answer, and it is that attempt's error |
| Request.AllMissingGivesNone | utils/worker_thread_chat_completion.py:162-167 | three responses missing required fields give `None` after three attempts with no wait |
| Request.WaitAfterAttempt | utils/worker_thread_chat_completion.py:240-254 | after a missing-field attempt there is no wait; after a transient error ("529", "overloaded", "timeout") 2 then 4 seconds; after any other error 2 seconds |
| Request.TotalWaitAtMostSix | utils/worker_thread_chat_completion.py:240-254 | one image never waits more than six seconds in total, so there is no 8-second wait |
| Request.EmptyReplyNoRetry | utils/worker_thread_chat_completion.py:226-227 | an empty reply text returns `None` after one attempt, without retrying |
| Request.AlwaysOverloaded | utils/worker_thread_chat_completion.py:240-257 | an API that always reports 529 is tried three times, with waits 2 and 4, and its error is re-raised |
| Request.RecordShape | utils/worker_thread_chat_completion.py:172-214 | a returned record has the basename, the slash-normalised path and captions that normalisation leaves unchanged |
| Request.RecordOfFirstSuccess | utils/worker_thread_chat_completion.py:153-232 | when attempt i is the first to end and it builds a record, the request returns that record after i+1 attempts, and its captions are the `english_caption` and `korean_caption` of that reply's extracted JSON, normalised |
| Request.ValidatedCaptions | utils/worker_thread_chat_completion.py:172-198 | a record built by one attempt holds exactly the captions its reply asked for, stripped and cut to three sentences |
| Request.ValidatedRecord | utils/worker_thread_chat_completion.py:172-214 | the record of a single successful attempt has the basename and the slash-normalised path, holds its reply's captions normalised, and those captions are left unchanged by a second normalisation |
| JsonlFile.DefaultName | utils/worker_thread_chat_completion.py:452-453 | the timestamped default name ends in `.jsonl` and is relative |
| JsonlFile.WithSuffix | utils/worker_thread_chat_completion.py:468-470 | the chosen path gains `.jsonl` unless it already ends so in any letter case, and is otherwise kept as its prefix |
| JsonlFile.WithSuffixIdempotent | utils/worker_thread_chat_completion.py:468-470 | adding the suffix twice is the same as adding it once |
| JsonlFile.UpperCaseSuffixKept | utils/worker_thread_chat_completion.py:469 | `out.JSONL` is kept as it is |
| JsonlFile.Initialize | utils/worker_thread_chat_completion.py:448-506 | a cancelled dialog uses the last directory and the default name; a chosen path gets the suffix and its directory is remembered when settings exist; a failure falls back to the default name in the home directory, stamped by a second reading of the clock |
| JsonlFile.PathEndsWithSuffix | utils/worker_thread_chat_completion.py:448-506 | whatever happens, the output path ends in `.jsonl` |
| JsonlFile.RememberedIsDirname | utils/worker_thread_chat_completion.py:476-479 | the remembered save directory is the dirname of the suffixed chosen path |
| JsonlFile.ChosenDirectoryRemembered | utils/worker_thread_chat_completion.py:476-479 | choosing `dir/name.jsonl` remembers `dir` |
| Worker.New | utils/worker_thread_chat_completion.py:31-59 | a new worker holds the images in order, is idle, not stopped or paused, with an empty trace |
| Worker.Apply | utils/worker_thread_chat_completion.py:661-683 | pause and resume set the pause flag only; stop sets `stopped`; cancel sets `stopped` and empties the queue; nothing else changes |
| Worker.Start | utils/worker_thread_chat_completion.py:569-592 | the run starts only with a non-empty queue and a key, fixing `total` to the queue size and the count to 0 |
| Worker.Kept | utils/worker_thread_chat_completion.py:627-638 | an image counts exactly when its request returned a record; a re-raised error is swallowed |
| Worker.PassEvents | utils/worker_thread_chat_completion.py:619-641 | each image emits its basename first and `progress` last |
| Worker.ProcessNext | utils/worker_thread_chat_completion.py:619-641 | the head of the queue is taken off, its base name is reported first, the count rises exactly when a record is returned, and a line is appended only when a record is returned, and it is that record |
| Worker.Process | utils/worker_thread_chat_completion.py:619-641 | the head of the queue is taken; the count rises exactly when there is a record; the record is appended to the file only when writing succeeds |
| Worker.Finish | utils/worker_thread_chat_completion.py:643-647 | the completion message is emitted only when not stopped |
| Worker.Abort | utils/worker_thread_chat_completion.py:596-616 | a stop seen before an image emits the cancel message and ends the run |
| Worker.Run | utils/worker_thread_chat_completion.py:594-647 | a run only extends the trace, keeps the total and the output path, and a finished worker stays finished with its trace unchanged |
| Worker.Tick | utils/worker_thread_chat_completion.py:594-647 | one loop step only extends the trace, takes at most the head of the queue, raises the count by at most one, and takes an image only when neither stopped nor paused |
| Worker.StartEstablishes | utils/worker_thread_chat_completion.py:569-592 | starting establishes the run invariant |
| Worker.TickKeeps | utils/worker_thread_chat_completion.py:594-647 | every loop step keeps the invariant: FIFO basenames, one progress per image, a fixed total, a non-decreasing count, at most one completion, and none while running |
| Worker.RunKeeps | utils/worker_thread_chat_completion.py:594-647 | the invariant holds along any sequence of steps and controls |
| Worker.RunFromStart | utils/worker_thread_chat_completion.py:589-647 | from a start, the names emitted are the basenames of a prefix of the images in order; the counts never decrease and stay within the image count; every progress carries that total; there is at most one completion message |
| Worker.NothingAfterCancel | utils/worker_thread_chat_completion.py:671-683 | after `cancel` no further image is started |
| Worker.CancelledStaysQuiet | utils/worker_thread_chat_completion.py:671-683 | a cancelled worker emits no further file names whatever follows |
| Worker.CompletionMessages | utils/worker_thread_chat_completion.py:596-647 | a completion message at the end of a step is the normal one only when not stopped with the queue empty, the cancel one only when stopped, and the run is then over |
| Worker.StopEndsRun | utils/worker_thread_chat_completion.py:596-601 | a stopped worker with images left emits only the cancel message and finishes |
| Worker.CancelMidItemIsSilent | utils/worker_thread_chat_completion.py:671-683 | a cancel that empties the queue ends the loop with no message at all, since `stopped` is set |
| ProgressBar.New | core/dialog/progress_bar_dialog.py:7-10 | a new dialog shows 0, an empty log and the cancel button |
| ProgressBar.UpdateProgress | core/dialog/progress_bar_dialog.py:55-76 | nothing changes when total ≤ 0; otherwise the bar shows the percentage; `processed == total` switches to the close button with the "처리 완료!" label and exactly one completion log line |
| ProgressBar.BarEndpoints | core/dialog/progress_bar_dialog.py:58-76 | the bar shows 0 at the start and 100 with the done label at the end |
| ProgressBar.UpdateCurrentFile | core/dialog/progress_bar_dialog.py:78-84 | a non-empty path sets the label and logs one line; an empty one shows "처리 완료" and logs nothing |
| ProgressBar.AddLog | core/dialog/progress_bar_dialog.py:86-92 | exactly one line is appended and nothing else changes |
| ProgressBar.ClearLog | core/dialog/progress_bar_dialog.py:94-96 | the log is emptied and nothing else changes |
| ProgressBar.Replay | core/dialog/progress_bar_dialog.py:55-76 | replaying progress events never turns the close button back into cancel |
| ProgressBar.ReplayCloses | core/dialog/progress_bar_dialog.py:63-76 | the close button appears exactly when some progress event reports all images done |
| ProgressBar.CancelButtonStaysWithoutFullReport | core/dialog/progress_bar_dialog.py:63-76 | without a full report the dialog keeps its cancel button |
| ProgressDialog.New | ui/progress_dialog.py:36-68 | the dialog opens unpaused, without a worker, showing "일시정지", maximum 100 |
| ProgressDialog.TogglePause | ui/progress_dialog.py:93-97 | `paused` flips; the text is "재개" exactly when paused, else "일시정지" |
| ProgressDialog.ToggleWorkerPause | ui/progress_dialog.py:79-91 | without a worker nothing changes; with one `paused` flips, the text is "재개" or "일시 정지", and the worker is paused exactly when the dialog now is |
| ProgressDialog.PauseStaysInSync | ui/progress_dialog.py:79-91 | any number of presses keeps the dialog's and the worker's pause flags equal and never touches the queue or `stopped` |
| ProgressDialog.TruncDiv | ui/progress_dialog.py:124 | Python's `int()` of a quotient truncates toward zero |
| ProgressDialog.UpdateProgressSafe | ui/progress_dialog.py:121-126 | nothing changes when total ≤ 0; otherwise the value is current·100/total truncated toward zero, and the label "{percent}% ({current}/{total})" |
| ProgressDialog.PercentBounds | ui/progress_dialog.py:121-126 | for 0 ≤ current ≤ total the value lies in 0..100, with 0 at the start and 100 at the end |
| ProgressDialog.UpdateProgressValue | ui/progress_dialog.py:169-183 | the maximum is updated only when given, and the shown percent is 0 when the maximum is ≤ 0 |
| Processor.New | core/services/image_processor.py:27-35 | a new processor has no results, no processed files, no dialog, no worker and is not complete |
| Processor.Cleanup | core/services/image_processor.py:310-323 | the worker and the dialog are dropped and nothing else changes |
| Processor.ProcessImages | core/services/image_processor.py:61-132 | results, processed files and the completion flag are reset first; with no key an error is emitted and no worker starts; otherwise a worker holds the paths and the dialog counts them |
| Processor.RestartForgets | core/services/image_processor.py:65-67 | after a restart no path counts as processed and nothing is complete |
| Processor.CaptionsOf | core/services/image_processor.py:162-174 | a caption object gives a response exactly when it holds both caption keys |
| Processor.ParseResponse | core/services/image_processor.py:134-182 | `None` for no response; any result is exactly `{'text': {english_caption, korean_caption}}` |
| Processor.ParseMessage | core/services/image_processor.py:152-174 | a message whose first content block's text holds both caption keys parses to exactly those captions |
| Processor.TextDataMustBeDict | core/services/image_processor.py:159-182 | a content text that is a plain string does not parse |
| Processor.ParseNotRepeatable | core/services/image_processor.py:134-182 | a parsed response is not itself a parseable message |
| Processor.HandleResult | core/services/image_processor.py:184-227 | an accepted response adds the path and appends exactly one result; a falsy, non-dict or `text`-less one only logs an error |
| Processor.ChecksAreAccepted | core/services/image_processor.py:189-201 | the three checks together accept exactly a dict with `text` |
| Processor.ParsedIsAccepted | core/services/image_processor.py:134-227 | whatever `parse_response` returns is accepted by `handle_result` |
| Processor.WorkerResultKept | core/services/image_processor.py:184-227 | a record from the worker is always kept |
| Processor.HandledTwice | core/services/image_processor.py:203-210 | the same result handled twice leaves one processed path and two result entries |
| Processor.ProcessComplete | core/services/image_processor.py:261-300 | after the flag is set later calls return at once; the first call closes the dialog's run exactly once, with the closing log line last |
| Processor.CompleteOnce | core/services/image_processor.py:261-269 | completing twice is the same as completing once |
| Processor.UpdateProgressIncremental | core/services/image_processor.py:331-362 | nothing happens without a dialog or after completion; the percentage logged is capped at 100; completion runs exactly when all images are processed |
| Processor.CompletesOnceAllProcessed | core/services/image_processor.py:331-362 | once everything is processed, one update completes and later updates change nothing |
| Processor.RecordJson | utils/worker_thread_chat_completion.py:210-214 | a worker record, as a JSON value, passes `handle_result`'s checks |
| Processor.ProcessCompleteAsWritten | core/services/image_processor.py:261-300 | as written, the flag is set before the dialog is touched, so a later call returns at once |
| Processor.CompleteAsWrittenNeverFinishes | core/services/image_processor.py:278 | as written, the first completion raises before closing the dialog, and later calls do nothing, so the dialog keeps its cancel button |
| Processor.UpdateProgressIncrementalAsWritten | core/services/image_processor.py:331-362 | as written, nothing happens without a dialog or after completion |
| Processor.IncrementalAsWrittenNeverCompletes | core/services/image_processor.py:354 | as written, with everything processed the update raises before completing |
| ImageTable.IsAllowedFormat | core/widget/file_list_widget.py:230-232 | a path is allowed when the extension `os.path.splitext` finds, lower-cased, is `.jpg`, `.jpeg`, `.png` or `.bmp` |
| ImageTable.AllowedFormatIff | core/widget/file_list_widget.py:230-232 | a path is allowed exactly when it ends, ignoring case, in an image extension preceded within its last path component by some character other than a dot: `a.b.JPG` and `d/x.png` pass, `d/.jpg`, `...png` and `x.jpg/y` do not |
| ImageTable.AllowedIsImageName | core/widget/file_list_widget.py:230-232 | every allowed path ends, ignoring case, in an image extension preceded in its last component by a character other than a dot |
| ImageTable.ImageNameIsAllowed | core/widget/file_list_widget.py:230-232 | every such path is allowed |
| ImageTable.EndsAsImageIsAllowed | core/widget/file_list_widget.py:230-232 | a path ending, ignoring case, in one given image extension with a non-dot character before it in its last component is allowed |
| ImageTable.ImageFileAllowed | core/dialog/main_dialog.py:565-567 | a name whose stem is non-empty and holds no dot or slash, followed by an image extension in any letter case, is allowed under any directory |
| ImageTable.AsList | core/widget/file_list_widget.py:84-85 | a single path is treated as a one-element list |
| ImageTable.Added | core/widget/file_list_widget.py:86-107 | only admitted paths become rows, each unchecked |
| ImageTable.AddedAll | core/widget/file_list_widget.py:92-98 | when every path is admitted each becomes one row, in input order |
| ImageTable.AddedNone | core/widget/file_list_widget.py:92-107 | no admitted path, no new row |
| ImageTable.AddPaths | core/widget/file_list_widget.py:92-111 | the existing rows stay and exactly the paths that pass both the format test and the widget creation follow, unchecked, in input order |
| ImageTable.AddFileToList | core/widget/file_list_widget.py:83-113 | the existing rows stay and exactly the paths with an allowed format whose widget is created follow, in order; a failed widget leaves no row |
| ImageTable.DisallowedSkipped | core/widget/file_list_widget.py:92-94 | a path that is not an image leaves the table unchanged |
| ImageTable.SelectedFiles | core/services/file_operations.py:123-146 | a path is selected exactly when it is non-empty and some row holding it is checked; the selection is never longer than the table |
| ImageTable.CheckedPaths | core/widget/file_list_widget.py:192-201 | a path is in the result exactly when some row holding it is checked; the result is never longer than the table |
| ImageTable.CheckedPathsAppend | core/widget/file_list_widget.py:192-201 | the checked paths of two tables one after the other are those of the first followed by those of the second, so together with `CheckedPathsOfRow` the result lists the checked rows' paths in table order, one per row |
| ImageTable.CheckedPathsOfRow | core/widget/file_list_widget.py:192-201 | a single row contributes its path exactly when it is checked |
| ImageTable.IgnoreEmpty | core/services/file_operations.py:132-140 | the same rows with the same paths, where a row counts as checked exactly when it is checked and its path is non-empty |
| ImageTable.SelectedIsCheckedIgnoringEmpty | core/services/file_operations.py:123-146 | `get_selected_files` returns, in the same order, what the widget's `get_selected_files` returns on the table whose empty-path rows count as unchecked |
| ImageTable.SelectedIsCheckedWithoutEmpty | core/services/file_operations.py:123-146 | on a table with no empty path the two selections agree |
| ImageTable.HasSelectedFiles | core/services/file_operations.py:234-247 | true exactly when some row is checked |
| ImageTable.AnyCheckedIffPaths | core/widget/file_list_widget.py:192-201 | some row is checked exactly when the checked paths are non-empty |
| ImageTable.SelectedImpliesAnyChecked | core/services/file_operations.py:234-247 | a non-empty selection means `has_selected_files` is true |
| ImageTable.ToggleSelectAll | core/dialog/main_dialog.py:611-624 | `all_selected` flips, the paths stay, and every checkbox takes the new value |
| ImageTable.ToggleSelection | core/services/file_operations.py:214-232 | after a toggle some row is checked exactly when the table is non-empty and the toggle was off |
| ImageTable.ToggleTwice | core/services/file_operations.py:214-232 | toggling twice restores the flag and leaves every row set to it |
| ImageTable.ButtonStates | core/dialog/main_dialog.py:763-775 | select-all needs rows; send and delete need a checked row |
| ImageTable.RemoveRowsDescending | core/dialog/main_dialog.py:751-755 | removing indices from the highest down removes exactly those rows and keeps the rest in order |
| ImageTable.Unmatched | core/dialog/main_dialog.py:939-957 | the rows kept never match |
| ImageTable.RemainingUnmatched | core/dialog/main_dialog.py:733-761 | removing the indices where a test holds keeps exactly the rows where it fails, in order |
| ImageTable.UnmatchedKeepsOthers | core/dialog/main_dialog.py:939-957 | a row that does not match keeps all its copies |
| ImageTable.DeleteCheckedRows | core/dialog/main_dialog.py:733-761 | exactly the unchecked rows remain, in order, and send is disabled afterwards |
| ImageTable.NothingMatched | core/dialog/main_dialog.py:939-957 | with nothing matching the table is unchanged |
| ImageTable.DeleteSelectedItems | core/widget/file_list_widget.py:258-277 | an empty selection or a "No" leaves the table; otherwise exactly the selected rows go and the selection is cleared |
| ImageTable.RemainingKeepsUnselected | core/widget/file_list_widget.py:258-277 | rows outside the selection all stay |
| ImageTable.RemovingAllEmpties | core/widget/file_list_widget.py:258-277 | selecting every row empties the table |
| ImageTable.Clear | core/widget/file_list_widget.py:279-280 | clearing leaves no rows and no selection |
| ImageTable.FirstWithPath | core/dialog/main_dialog.py:845-851 | the first row whose path matches, or the row count |
| ImageTable.RemoveProcessedImage | core/dialog/main_dialog.py:845-851 | only the first row with the path is removed; without one the table is unchanged |
| ImageTable.RemovesOnlyMatching | core/dialog/main_dialog.py:845-851 | exactly one row goes when the path is present, none otherwise |
| ImageTable.DuplicateKeepsOne | core/dialog/main_dialog.py:845-851 | a path in two rows is still in the table afterwards |
| ImageTable.RefreshTable | core/dialog/main_dialog.py:939-957 | the table keeps exactly the rows whose path is not processed, in their table order, as the independent filter `Unmatched` gives them; so no processed path remains and every other row keeps its copies |
| ImageTable.HandleResult | core/dialog/main_dialog.py:696-717 | the path counts as processed exactly when the response's `text` has truthy captions |
| ImageTable.RecordCompleteIffCaptions | core/dialog/main_dialog.py:703-711 | a worker record counts exactly when both captions are non-empty |
| FileOperations.StoredLoadDir | core/services/file_operations.py:158-163 | a value is read exactly when the file is a readable dict |
| FileOperations.DefaultDirectory | core/services/file_operations.py:171-180 | the fallback is home when home exists, otherwise cwd; anything other than cwd exists |
| FileOperations.LoadDirectory | core/services/file_operations.py:156-180 | a non-empty stored directory that exists is used; otherwise home, or cwd when home does not exist |
| FileOperations.SaveDirectory | core/services/file_operations.py:182-212 | a missing directory is refused; the file is written, with every other key kept, exactly when `load_dir` differs, and the result is true exactly then |
| FileOperations.AfterSave | core/services/file_operations.py:182-212 | without a write the file is unchanged |
| FileOperations.SaveDirectoryKeepsOtherKeys | core/services/file_operations.py:189-209 | saving leaves every other key as it was |
| FileOperations.SavedDirectoryLoads | core/services/file_operations.py:156-212 | a saved existing directory is what the next load returns |
| FileOperations.SaveDirectoryTwice | core/services/file_operations.py:189-209 | saving the same directory again writes nothing and returns false |
| FileOperations.New | core/services/file_operations.py:9-18 | the directory is loaded at once and nothing is selected |
| FileOperations.NewRows | core/services/file_operations.py:54-101 | one unchecked row per chosen file, in order |
| FileOperations.LoadFiles | core/services/file_operations.py:20-52 | with files chosen, the rows are appended and the remembered directory is the dirname of the first file; otherwise only the directory is reloaded |
| FileOperations.LoadFilesRemembers | core/services/file_operations.py:36-44 | after loading, the remembered directory is also what the file gives on the next start |
| FileOperations.LoadFilesAppends | core/services/file_operations.py:20-52 | existing rows are untouched and the chosen files follow in order, unchecked |
| ConfigFile.DictOrEmpty | core/services/file_operations.py:189-196 | an absent or undecodable file counts as `{}`; a dict is itself; anything else is unusable |
| SettingsHandler.LoadSettings | core/services/settings_handler.py:16-29 | a missing file is written from the current settings, an undecodable one is replaced by `{}`, a readable one becomes the settings |
| SettingsHandler.New | core/services/settings_handler.py:10-14 | a missing or unreadable file leaves `{}` and writes it once |
| SettingsHandler.NewWritesOnlyWhenUnusable | core/services/settings_handler.py:16-29 | a fresh handler writes at most once, exactly when the file is unusable |
| SettingsHandler.SaveSetting | core/services/settings_handler.py:49-56 | an equal value changes nothing and returns true; a different one changes only that key and writes |
| SettingsHandler.SaveSettingTwice | core/services/settings_handler.py:49-56 | after saving a value, saving it again writes nothing and returns true |
| SettingsHandler.GetSetting | core/services/settings_handler.py:58-68 | an absent key gives the default; a directory key whose path does not exist gives home when no default was passed |
| SettingsHandler.StaleDirectoryFallsBack | core/services/settings_handler.py:61-68 | a stored directory that disappeared reads as home, one that exists as itself |
| SettingsHandler.CheckSettings | core/services/settings_handler.py:42-47 | false with no file; otherwise the truthiness of `claude_key`; decode errors propagate |
| SettingsHandler.SavedKeyChecks | core/services/settings_handler.py:42-56 | a non-empty key saved through `save_setting` makes `check_settings` true on the written file |
| Startup.Defaults | main.py:14-32 | the defaults hold exactly the four required keys |
| Startup.HasKey | main.py:42-54 | on a dict `in` tests its keys |
| Startup.AddMissing | main.py:42-54 | each missing required key is added with its default; present keys keep their values; "updated" is true exactly when a key was added |
| Startup.CheckSettingsFile | main.py:9-76 | a missing or corrupt file is replaced by the defaults and gives false |
| Startup.MergeKeepsExisting | main.py:42-60 | a dict keeps every key and value and gains exactly the missing required keys; it is rewritten exactly when one was missing; the result is true |
| Startup.CompleteFileUntouched | main.py:56-60 | a complete file is not rewritten |
| Startup.NumberFileReplaced | main.py:62-76 | a file that is not a dict is replaced by the defaults, with false |
| Startup.ValidateSettings | main.py:78-97 | true exactly when the file is a dict whose `openai_key` is a non-blank string |
| Startup.DefaultsDoNotValidate | main.py:78-97 | the defaults written on first start never validate |
| SettingDialog.Initial | core/dialog/setting_dialog.py:76-81 | the dialog starts invalid with Save disabled |
| SettingDialog.UpdateButtonbox | core/dialog/setting_dialog.py:106-107 | Save is enabled exactly when the key is valid |
| SettingDialog.StoredKey | core/dialog/setting_dialog.py:83-96 | a stored key is accepted exactly when `claude_key` is a non-blank string in a dict |
| SettingDialog.LoadExisting | core/dialog/setting_dialog.py:83-104 | an accepted key fills the field and locks it as valid; a dict without `claude_key`, or whose key is a blank string, only updates the buttons; a file that is missing or unreadable, a string or list config (where `config.get` raises) and a non-string key change nothing |
| SettingDialog.Open | core/dialog/setting_dialog.py:76-104 | the dialog opens valid exactly when the file holds an acceptable key |
| SettingDialog.Save | core/dialog/setting_dialog.py:214-252 | the stripped key is stored under `claude_key` with every other key kept, and the dialog is accepted; a "No" to a blank key or an unusable file changes nothing |
| SettingDialog.Validate | core/dialog/setting_dialog.py:122-166 | a blank or rejected key leaves the dialog invalid and editable; an accepted one makes it valid, locks it and saves |
| SettingDialog.Reset | core/dialog/setting_dialog.py:263-268 | invalid, editable, Save disabled; the key and file are kept |
| SettingDialog.OpenConsistent | core/dialog/setting_dialog.py:76-107 | the dialog opens consistent: Save ⇔ valid ⇔ read-only ⇔ validate disabled, and a valid key is not blank |
| SettingDialog.Consistent | core/dialog/setting_dialog.py:106-268 | the invariant the handlers keep: Save enabled ⇔ valid ⇔ read-only ⇔ validate disabled, and a valid key is not blank |
| SettingDialog.Step | core/dialog/setting_dialog.py:106-268 | only Save and Validate touch the file or the accepted flag; editing a read-only field changes nothing, otherwise it sets the key text; Save while disabled changes nothing |
| SettingDialog.Run | core/dialog/setting_dialog.py:106-268 | a sequence of actions without Save or Validate leaves the file and the accepted flag as they were |
| SettingDialog.StepConsistent | core/dialog/setting_dialog.py:106-268 | every user action keeps that consistency |
| SettingDialog.RunConsistent | core/dialog/setting_dialog.py:106-268 | consistency holds along any sequence of actions |
| SettingDialog.SavedKeyReopens | core/dialog/setting_dialog.py:214-252 | a saved non-blank key reopens as valid with the stripped key, and `check_settings` is true on the written file |
| ResponseSelector.TotalPages | core/dialog/response_select_dialog.py:20 | the number of pages is the number of images |
| ResponseSelector.New | core/dialog/response_select_dialog.py:18-24 | the dialog opens on page 0 with nothing selected |
| ResponseSelector.NavButtons | core/dialog/response_select_dialog.py:99-102 | Prev ⇔ page > 0; Next ⇔ page < total-1; OK ⇔ as many selections as pages |
| ResponseSelector.ShowPrevious | core/dialog/response_select_dialog.py:104-108 | one page back unless on the first page |
| ResponseSelector.ShowNext | core/dialog/response_select_dialog.py:110-114 | one page on unless on the last page |
| ResponseSelector.NavigationStaysInRange | core/dialog/response_select_dialog.py:104-114 | navigation never leaves the pages |
| ResponseSelector.Upsert | core/dialog/response_select_dialog.py:116-118 | the keys gain the new key and stay distinct |
| ResponseSelector.Lookup | core/dialog/response_select_dialog.py:116-118 | a key has a response exactly when it was selected |
| ResponseSelector.UpsertLookup | core/dialog/response_select_dialog.py:116-118 | the stored response is the one just written and every other image keeps its own |
| ResponseSelector.OnResponseSelected | core/dialog/response_select_dialog.py:116-118 | the image now maps to the response; pages and current page are unchanged |
| ResponseSelector.LaterSelectionWins | core/dialog/response_select_dialog.py:116-118 | a later selection overwrites an earlier one without adding an entry |
| ResponseSelector.Click | core/dialog/response_select_dialog.py:62-97 | radio buttons only select pages' images |
| ResponseSelector.ClickValid | core/dialog/response_select_dialog.py:62-118 | selections made through radio buttons stay keyed by distinct page images |
| ResponseSelector.OkIffAllSelected | core/dialog/response_select_dialog.py:99-102 | OK is enabled exactly when every image has a selection |
| ResponseSelector.RowOf | core/dialog/response_select_dialog.py:131-143 | a response gives a row exactly when it splits on `\|` into seven fields, in column order |
| ResponseSelector.RowRoundTrip | core/dialog/response_select_dialog.py:131-143 | a row joined by `\|` reads back as the same row |
| ResponseSelector.RowIsResponse | core/dialog/response_select_dialog.py:131-143 | a well-formed response is exactly its fields joined by `\|` |
| ResponseSelector.Rows | core/dialog/response_select_dialog.py:128-143 | there are never more rows than selected responses; `RowsOfWellFormed` and `RowsOfMalformed` state which rows |
| ResponseSelector.RowsOfWellFormed | core/dialog/response_select_dialog.py:128-143 | well-formed responses each give one row, in selection order |
| ResponseSelector.RowsOfMalformed | core/dialog/response_select_dialog.py:128-143 | malformed responses give no rows |
| ResponseSelector.SaveSelectedResponses | core/dialog/response_select_dialog.py:123-153 | false with no selection; nothing when no row is built; otherwise the writer's outcome |
| ResponseSelector.Accept | core/dialog/response_select_dialog.py:155-166 | refused unless every page has a selection; with every page chosen, accepted exactly when saving succeeds and otherwise the error box (`SaveFailed`); it never raises |
| ResponseSelector.AcceptAsWritten | core/dialog/response_select_dialog.py:155-166 | as written, never shows the error box: it raises exactly when every page is chosen and the save does not succeed, and otherwise agrees with the corrected `accept` |
| ResponseSelector.FailedWriteRaisesAsWritten | core/dialog/response_select_dialog.py:166 | one page with its response chosen and an unwritable spreadsheet: as written `accept` raises where the corrected one shows the error box |
| ResponseSelector.AcceptedMeansAllChosen | core/dialog/response_select_dialog.py:155-166 | an accepted dialog had a response for every image and at least one well-formed response |
| Keywords.Filter | utils/keyword_manager.py:67-73 | a filtered list keeps only accepted keywords |
| Keywords.FilterAll | utils/keyword_manager.py:79-94 | a filter that accepts everything keeps the list |
| Keywords.Categorize | utils/keyword_manager.py:63-77 | the categories are exactly all, subject, object, action and mood; `all` is the whole list |
| Keywords.CategoriesAreFull | utils/keyword_manager.py:63-94 | every category list is the full keyword list |
| Keywords.FirstRead | utils/keyword_manager.py:39-56 | the encodings are tried in order and the first that reads wins |
| Keywords.LoadKeywords | utils/keyword_manager.py:22-61 | no file, or no encoding that works, gives an empty cache and map; otherwise the cells are cached and categorised |
| Keywords.LoadCoherent | utils/keyword_manager.py:22-94 | a loaded cache keeps the full list under every category |
| Keywords.IsLoaded | utils/keyword_manager.py:109-112 | loaded exactly when a keyword cache is held and it is non-empty |
| Keywords.LoadedIffCellsRead | utils/keyword_manager.py:22-61 | after a load the manager is loaded exactly when the file exists and the first encoding that reads gives a non-empty cell list |
| Keywords.FailedLoadIsNotLoaded | utils/keyword_manager.py:58-61 | a failed load leaves the manager not loaded, with an empty category map |
| Keywords.Construct | utils/keyword_manager.py:13-20 | the instance is created only the first time; a manager loads only when nothing was loaded |
| Keywords.ConstructTwice | utils/keyword_manager.py:13-20 | a second construction returns the same instance and changes nothing |
| Keywords.SlicePrefix | utils/keyword_manager.py:102 | a slice is a prefix of length min(n, len), counting from the end for negative n |
| Keywords.GetKeywords | utils/keyword_manager.py:96-102 | an empty cache is reloaded first; otherwise the manager is unchanged |
| Keywords.GetKeywordsPrefix | utils/keyword_manager.py:96-102 | the answer is a prefix of the keywords for any category: all of them for a falsy limit, min(limit, n) for a positive one |
| Keywords.EmptyCacheReloads | utils/keyword_manager.py:98-99 | an empty cache picks up a file that has since appeared |
| Keywords.GetKeywordsString | utils/keyword_manager.py:104-107 | the string reads the cache exactly as `get_keywords` does |
| Keywords.StringGrowsWithLimit | utils/keyword_manager.py:96-107 | a smaller positive limit gives a prefix of the string a larger one gives |

## Left out

- Qt widgets, layouts, styles, icons, thumbnails, file and message dialogs, and signal delivery between threads. Chosen paths, question answers and the file dialog's result are parameters.
- The Anthropic client, base64 encoding, image reading and size checks. Each attempt's outcome is the oracle `replies`.
- The API validation in the settings dialog is the boolean `apiAccepts`.
- Writing the `.jsonl` file is the boolean `appended`.
- Writing the spreadsheet with pandas is the boolean `written`.
- The CSV read of the keyword file is the oracle `read`.
- `os.path.exists` is the predicate `pathExists`.
- `json.loads` and the two regular expressions of `extract_json_from_text` are oracles (`parse`, `fenced`, `braced`, `loads`). Only the fallback order is modelled.
- Threads, `QThread.msleep` polling and `time.sleep`. Waits are recorded as durations. Pause, stop and cancel are inputs applied between images, so the pause wait is a step that takes no image.
- Floating-point percentages (`int((p/t)*100)`) in the progress bar and in image_processor.py are inputs.
- ProgressBar.UpdateProgress: only the endpoints 0 and 100 and the bounds are stated, because double rounding makes `int((29/100)*100)` give 28.
- Processor.UpdateProgressIncremental: the percentage is an input; only its cap at 100 is stated.
- Paths are `/`-separated (posix `os.path`).
- Lower-casing covers ASCII letters only. Python's `str.lower` is Unicode-wide; no image extension needs more.
- JSON numbers are integers; floats do not occur in the configuration.
- The status and log texts of `emit_status_signal`, and the logger, are not modelled. The completion and cancel messages are.
- The multi-image request `request_extract_keyword_multiple` (utils/worker_thread_chat_completion.py:268-439) is never called and is not modelled.
- `load_api_settings`, `add_image`, `cancel_processing` and `format_response` are not modelled. `format_response` is a formatting parameter of `handle_result`.
- The main window's thumbnail, preview and context-menu handlers are not modelled.
- Worker.Kept: the run loop's `'content' in result` is taken as true for every record, since the worker builds its records with that key.
- FileOperations.LoadDirectory: a stored `load_dir` that is not a string is taken not to exist, although `os.path.exists` on an integer tests an open file descriptor.
- ProgressDialog.UpdateProgressSafe: `int(current * 100 / total)` divides in floating point; the model truncates the exact quotient, which agrees for counts of practical size.
- SettingsHandler.GetSetting: `os.path.exists` on a truthy non-string value (a number, a list) is taken to hold, since such values are never stored under the directory keys.
- Python's `True == 1` equality between JSON values is not modelled. `Json.Bool(true)` and `Json.Num(1)` differ here, so `save_setting` and `save_directory` count them as different values.
- main.py checks and fills `openai_key`, while the settings dialog and `check_settings` use `claude_key`. The model keeps each as written.
- `FileOperations.add_file_to_table` applies no format filter; the model keeps that.
- The legacy file utils/image_processor.py is entirely commented out, so it is not part of this model.
- The context files (test/test_design.py, core/dialog/help_dialog.py, utils/styles.py, cfg/cfg.py, utils/state_manager.py) hold no modellable logic.

## Findings

| source | as written | input that shows it | evidently intended | confidence | as-written member | corrected member |
|---|---|---|---|---|---|---|
| core/services/image_processor.py:278 | `process_complete` calls `self.progress_dialog.update_progress(100)`, but `ProgressBarDialog.update_progress` takes `(processed, total)`. The call raises `TypeError` after `processing_completed` is already set, so a run in which some image failed never shows completion: the close button appears only through the worker's `progress(total, total)` (connected at core/services/image_processor.py:107), which a run reaches only when every image succeeds. Later calls return at once. | Any first call of `process_complete` with a progress dialog open | Call `update_progress(total, total)` so that the dialog shows 100 % and its close button, once | not executed; utils/worker_thread_chat_completion.py:22 declares `finished = pyqtSignal(list)` and the worker never emits it, so the method runs only from line 362 or another caller | Processor.CompleteAsWrittenNeverFinishes | Processor.CompleteOnce |
| core/services/image_processor.py:354 | `update_progress_incremental` calls `self.progress_dialog.update_progress(progress_percentage)` with one argument. It raises `TypeError` before the check that calls `process_complete`, so processing never completes from here. | A call once `len(processed_files) >= total_images`, with a dialog open and not yet complete | Call `update_progress(processed_count, total_images)`, then complete once every image is processed | not executed; utils/worker_thread_chat_completion.py:28 declares `increment_progress_signal = pyqtSignal()` and the worker never emits it | Processor.IncrementalAsWrittenNeverCompletes | Processor.CompletesOnceAllProcessed |
| core/dialog/response_select_dialog.py:166 | `accept` imports `QMessageBox` inside its warning branch (line 158), which makes the name local to the whole method. On the branch for a failed save it is unbound, so `QMessageBox.critical` raises `UnboundLocalError` and no error box appears. | Every page has a response chosen and the spreadsheet cannot be written, for example one page with its response chosen | Import `QMessageBox` at module level so that the failed save shows the error box and the dialog stays open | not executed | ResponseSelector.FailedWriteRaisesAsWritten | ResponseSelector.Accept |
