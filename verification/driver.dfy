/** The remediation driver: reads the three categories of an audit result, sends
    every `error` item to the accessibility editor and then every `contrast` item
    to the contrast editor, swallowing recoverable failures per item and counting
    progress once per item handled. */
module Driver {
  import opened Audit
  import opened Editors
  import opened Loop

  /** Every dispatch the driver plans for the extracted findings: all error items
      to the accessibility editor, then all contrast items to the contrast editor. */
  function Plan<P>(f: Findings<P>): seq<Dispatch<P>>
  {
    Planned(Accessibility, f.errors) + Planned(Contrast, f.contrast)
  }

  /** The progress bar's total. */
  function Total<P>(f: Findings<P>): nat
  {
    |f.errors| + |f.contrast|
  }

  /** The whole driver as a function of the audit result, the two editors and the
      starting document. */
  function Analyse<S, P>(results: AuditResult<P>, accessibility: Handler<S, P>,
                         contrast: Handler<S, P>, doc: S): (r: Run<S, P>)
    ensures r.status.MissingKey? <==> Extract(results).Missing?
    ensures r.status.MissingKey? ==>
      r.status.key == Extract(results).key && r.trace == [] && r.progress == 0
    ensures Extract(results).Extracted? ==>
      var f := Extract(results).findings;
      && Dispatches(r.trace) <= Plan(f)
      && r.progress <= Total(f)
      && (r.status.Completed? ==> Dispatches(r.trace) == Plan(f) && r.progress == Total(f))
      && (r.status.EditorRaised? ==> 0 < |r.trace| && r.progress == |r.trace| - 1)
  {
    match Extract(results)
    case Missing(k) => Run(MissingKey(k), [], 0)
    case Extracted(f) =>
      var first := Sweep(Accessibility, accessibility, f.errors, doc, [], 0);
      SweepFollowsItems(Accessibility, accessibility, f.errors, doc, [], 0);
      if first.status.EditorRaised? then first
      else
        var second := Sweep(Contrast, contrast, f.contrast, first.status.doc, first.trace, first.progress);
        SweepFollowsItems(Contrast, contrast, f.contrast, first.status.doc, first.trace, first.progress);
        JoinLoops(first.trace, second.trace);
        second
  }

  /** Call `i` of run `r` is recorded as its own editor answered it. */
  ghost predicate Answered<S, P>(accessibility: Handler<S, P>, contrast: Handler<S, P>,
                                 r: Run<S, P>, i: nat)
    requires i < |r.trace|
  {
    Recorded(r.trace[i].dispatch.editor,
             HandlerFor(r.trace[i].dispatch.editor, accessibility, contrast), r, i)
  }

  /** Every call of a run is recorded with the verdict its editor returned for that
      finding on the document it was handed; a fatal verdict occurs only as the last
      call, and exactly when the run stopped on it. */
  lemma AnalyseRecordsOutcomes<S, P>(results: AuditResult<P>, accessibility: Handler<S, P>,
                                     contrast: Handler<S, P>, doc: S)
    ensures var r := Analyse(results, accessibility, contrast, doc);
      forall i :: 0 <= i < |r.trace| ==> Answered(accessibility, contrast, r, i)
  {
    if Extract(results).Extracted? {
      var f := Extract(results).findings;
      var first := Sweep(Accessibility, accessibility, f.errors, doc, [], 0);
      SweepRecordsOutcomes(Accessibility, accessibility, f.errors, doc, [], 0);
      if first.status.EditorRaised? {
        forall i | 0 <= i < |first.trace|
          ensures Answered(accessibility, contrast, first, i)
        {
          assert first == Sweep(Accessibility, accessibility, f.errors, doc, [], 0);
          assert Recorded(Accessibility, accessibility, first, i);
        }
      } else {
        var second := Sweep(Contrast, contrast, f.contrast, first.status.doc, first.trace, first.progress);
        SweepRecordsOutcomes(Contrast, contrast, f.contrast, first.status.doc, first.trace, first.progress);
        forall i | 0 <= i < |second.trace|
          ensures Answered(accessibility, contrast, second, i)
        {
          if i < |first.trace| {
            assert Recorded(Accessibility, accessibility, first, i);
            assert second.trace[i] == first.trace[i];
          } else {
            assert second
                == Sweep(Contrast, contrast, f.contrast, first.status.doc, first.trace, first.progress);
            assert Recorded(Contrast, contrast, second, i);
          }
        }
      }
    }
  }

  /** The dispatches of a trace that extends `done` are those of `done` followed by
      those of the extension. */
  lemma JoinLoops<S, P>(done: seq<Call<S, P>>, full: seq<Call<S, P>>)
    requires done <= full
    ensures Dispatches(full) == Dispatches(done) + Dispatches(full[|done|..])
  {
  }

  /** `process_analysis`: the prologue's lookups, then the loop over the error items
      and the loop over the contrast items, sharing one document. It computes
      exactly `Analyse`. */
  method ProcessAnalysis<S, P>(results: AuditResult<P>, accessibility: Handler<S, P>,
                               contrast: Handler<S, P>, doc: S) returns (r: Run<S, P>)
    ensures r == Analyse(results, accessibility, contrast, doc)
    ensures r.status.Completed? ==> r.progress == Total(Extract(results).findings)
  {
    var extraction := Extract(results);
    if extraction.Missing? {
      return Run(MissingKey(extraction.key), [], 0);
    }
    var errors := extraction.findings.errors;
    var contrastErrors := extraction.findings.contrast;
    r := DispatchLoop(Accessibility, accessibility, errors, doc, [], 0);
    if r.status.EditorRaised? {
      return;
    }
    r := DispatchLoop(Contrast, contrast, contrastErrors, r.status.doc, r.trace, r.progress);
  }
}
