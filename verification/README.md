# Remediation driver of the accessibility patcher

This project models `process_analysis`, the driver at the centre of the
accessibility patcher. The driver receives the JSON result of a WAVE
accessibility audit and two editors that share one parsed HTML document. It reads
the `error`, `alert` and `contrast` item mappings out of the audit result. It hands
every `error` item to the accessibility editor, and after that every `contrast`
item to the contrast editor. A `RuntimeError` raised for one item is swallowed and
the loop moves on. Any other exception ends the run. A progress counter advances
once for every item that did not raise fatally.

The model has five modules:

- `Audit` (`audit.dfy`) holds the audit result as nested records whose every level
  may lack the key the driver reads. `Extract` performs the driver's lookups in
  source order and fails with the first missing key.
- `Editors` (`editors.dfy`) holds the editor interface. An editor is an
  uninterpreted function `(finding type, payload, document) -> Outcome`, where the
  outcome is `Applied(doc)`, `Recoverable(doc)` (a `RuntimeError` or a subclass of
  it) or `Fatal` (any other exception). `Recoverable` still carries a document,
  because an editor may have changed the document before it raised. It also holds
  the dispatch trace entries: which editor got which finding, the document it was
  handed, and how the call ended. `Replay` re-applies an editor to a recorded
  call, which lets contracts relate every verdict to the editor's own answer.
  `Run` records what a run of the driver or of one loop observes: how it ended,
  its trace and its progress counter.
- `Loop` (`loop.dfy`) holds one dispatch loop. `Sweep` is its functional reference
  and `DispatchLoop` its imperative form, proved to compute `Sweep`. Separate
  lemmas state which items a loop hands out, what it records, and how it threads
  the document.
- `Driver` (`driver.dfy`) holds the functional reference `Analyse`, built from the
  two loops, and the imperative `ProcessAnalysis`. The two `for` loops of the
  source have the same shape, so the method runs `DispatchLoop` once per
  category. `ProcessAnalysis` is proved to compute `Analyse`.
- `DriverProperties` (`properties.dfy`) holds lemmas over all audit results and all
  editors. They cover ordering, routing, exactly-once dispatch, fault isolation
  in both directions (recoverable errors never stop the run, any other exception
  always does), the shared document, the progress count and the exclusion of
  alerts.

Both editors are built over the same document object, so one document value is
threaded through both loops. The trace is an observation made by the model: the
driver itself keeps no record of which items were applied or skipped.

## Model

| member | source | states |
|---|---|---|
| Audit.Extract | main.py:76-81 | The lookups of `statistics.waveurl`, `statistics.totalelements` and the `items` of `error`, `alert` and `contrast` fail with the first absent key in read order, with every earlier key present. They succeed only when every key is present, and then return the three item mappings unchanged. |
| Loop.Sweep | main.py:84-104 | One dispatch loop ends either completed or stopped by a fatal error, and only appends to the trace. A completed loop has made one call per item and counted every item. A stopped loop has made at least one call and at most one per item, and has counted every call except the last. |
| Loop.SweepFollowsItems | main.py:84-104 | The calls of a loop hand its items to its editor in mapping order: a prefix of "every item, in order", and all of them when the loop completes. |
| Loop.SweepRecordsOutcomes | main.py:84-104 | Every call of a loop went to the loop's editor, and its verdict is what that editor returns for the finding on the document it was handed. A fatal verdict is the last call of a loop that stopped, and occurs only there. |
| Loop.SweepStartsFromItsDocument | main.py:84-104 | The first call of a loop is handed the document the loop starts from. |
| Loop.SweepChainsDocuments | main.py:84-104 | Each later call of a loop is handed the document the previous call left, also after a `RuntimeError`. |
| Loop.SweepEndsWithLastDocument | main.py:84-104 | A completed loop leaves the document its last call left, or its starting document when it had no items. |
| Loop.DispatchLoop | main.py:84-104 | One `for` loop written with the document, the trace and the counter as loop state. A `RuntimeError` is swallowed and any other exception ends the loop. It computes exactly the reference loop `Sweep`. |
| Driver.Analyse | main.py:71-106 | A missing key fails the run before any dispatch, with zero progress. Otherwise the trace is a prefix of "all error items to the accessibility editor, then all contrast items to the contrast editor". A completed run has made exactly that plan of calls, and its progress equals `len(errors) + len(contrast_errors)`. A run stopped by a fatal error has counted every call except the last. Progress never exceeds that total. |
| Driver.AnalyseRecordsOutcomes | main.py:84-104 | Every call of a run carries the verdict its own editor returns for that finding on the document it was handed. A fatal verdict occurs only as the last call, and exactly when the run stopped on it. |
| Driver.ProcessAnalysis | main.py:71-104 | The lookups, then the loop over error items, then the loop over contrast items, all on one shared document. It computes exactly `Analyse`. A completed run ends with progress equal to the number of error items plus contrast items. |
| DriverProperties.SweepNeverFatal | main.py:84-104 | A loop whose editor raises nothing but recoverable errors on its items, on any document, always runs to completion. |
| DriverProperties.RecoverableFailuresNeverStopTheRun | main.py:83-104 | When neither editor raises anything but `RuntimeError` on the items of this audit, the run completes and dispatches every planned item. Its counter ends at `len(errors) + len(contrast_errors)`, however many items failed recoverably. |
| DriverProperties.FatalItemEndsTheSweep | main.py:84-104 | An exception other than `RuntimeError` is not caught: if the editor raises one on item `k` of a loop whatever document it is handed, the loop stops at or before that item, and the failing call is not counted. |
| DriverProperties.FatalErrorItemEndsTheRun | main.py:84-99 | If the accessibility editor raises a fatal exception on error item `k` whatever document it is handed, the whole run stops after at most `k + 1` calls, with at most `k` counted. Every call went to the accessibility editor, so no contrast item is dispatched. |
| DriverProperties.FatalContrastItemEndsTheRun | main.py:95-104 | If the contrast editor raises a fatal exception on contrast item `k` whatever document it is handed, the run stops after at most `len(errors) + k + 1` calls, with at most `len(errors) + k` counted. |
| DriverProperties.SweepThreaded | main.py:84-104 | A loop run with the editor of its category hands its first call the starting document and every later call the document the previous call left. A completed loop ends with the document its last call left. |
| DriverProperties.BothLoopsThreadDocument | main.py:84-104 | The error loop followed by the contrast loop threads the document through all calls, across the boundary between the loops as well. |
| DriverProperties.DocumentThreadedThroughBothLoops | main.py:71-104 | Both editors work on one shared document. The first call gets the starting document. Each later call gets the document the previous call left, even after a recoverable failure, and the first contrast call gets the document the error loop left. A completed run ends with the document the last call left. |
| DriverProperties.NextItemFollowsNonFatalCall | main.py:87-104 | After any call that did not raise fatally, whether it succeeded or failed recoverably, the next planned item is dispatched, if there is one. |
| DriverProperties.AccessibilityBeforeContrast | main.py:84-104 | No accessibility dispatch ever follows a contrast dispatch in the trace. |
| DriverProperties.EditorsReceiveOnlyTheirCategory | main.py:84-99 | Every finding given to the accessibility editor is an `error` item, and every finding given to the contrast editor is a `contrast` item. |
| DriverProperties.AlertsNeverDispatched | main.py:80-106 | Replacing the `alert` items with any other items leaves the whole run unchanged: the same calls, document, status and counter. |
| DriverProperties.DispatchedExactlyOnce | main.py:84-99 | Finding types are unique within a mapping, so no dispatch is ever repeated. A completed run has handed every error item to the accessibility editor and every contrast item to the contrast editor. |

## Left out

- HTTP route wiring and request JSON handling (main.py:29-52): transport around the driver.
- Loading the WAVE API key from the environment (main.py:15-27): process configuration.
- The WAVE request and its status check (main.py:54-69): a network client. The audit result is a parameter of the model instead.
- Base64 decoding of the request's images (main.py:36): the decoded bytes never reach either editor, so the model gives the editors no images.
- The audit querying a fixed URL instead of the request's `url` (main.py:33, main.py:43): outside the driver.
- The value `process_analysis` returns (`None`) and what the route does with it: transport. The model's result is an observation of the run (status, document, trace, counter).
- The progress bar's description labels and the printed statistics (main.py:76-77, main.py:85, main.py:96): presentation only. The values of `waveurl` and `totalelements` are not modelled, only whether the keys exist.
- Lookups on values of the wrong shape (for example `statistics` not being a mapping): the records only model present or absent keys.
- The internals of `AccessibilityEditor`, `ContrastEditor` and `parse_html`: they are not part of this model. The editors are uninterpreted functions, and nothing is claimed about what a failed call did to the document.
- Recording skipped findings for the caller: the driver discards them, so the model only observes them in its trace.
