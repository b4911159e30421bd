/** Properties of the remediation driver over all audit results and all editors:
    dispatch order, routing by category, exactly-once dispatch, fault isolation,
    the progress count and the exclusion of alerts. */
module DriverProperties {
  import opened Audit
  import opened Editors
  import opened Loop
  import opened Driver

  /** `handle` raises nothing but recoverable errors on the items of `items`,
      whatever document it is handed. */
  ghost predicate NeverFatalOn<S(!new), P>(handle: Handler<S, P>, items: seq<Finding<P>>)
  {
    forall k, s :: 0 <= k < |items| ==> !handle(items[k].findingType, items[k].payload, s).Fatal?
  }

  /** A loop over items on which the editor never raises fatally visits every item
      and counts every item, however many of them failed recoverably. */
  lemma {:induction false} SweepNeverFatal<S(!new), P>(editor: Editor, handle: Handler<S, P>,
                                                       items: seq<Finding<P>>, doc: S,
                                                       trace: seq<Call<S, P>>, progress: nat)
    requires NeverFatalOn(handle, items)
    ensures Sweep(editor, handle, items, doc, trace, progress).status.Completed?
    decreases |items|
  {
    if |items| > 0 {
      var item := items[0];
      var outcome := handle(item.findingType, item.payload, doc);
      assert !outcome.Fatal?;
      var trace' := trace + [Call(Dispatch(editor, item), doc, VerdictOf(outcome))];
      forall k, s | 0 <= k < |items[1..]|
        ensures !handle(items[1..][k].findingType, items[1..][k].payload, s).Fatal?
      {
        assert items[1..][k] == items[k + 1];
      }
      SweepNeverFatal(editor, handle, items[1..], outcome.doc, trace', progress + 1);
    }
  }

  /** Fault isolation: when neither editor raises anything but recoverable errors on
      the items of this audit, the run completes, every planned item is dispatched,
      and the progress counter ends at the number of error items plus the number of
      contrast items. */
  lemma RecoverableFailuresNeverStopTheRun<S(!new), P>(results: AuditResult<P>,
                                                       accessibility: Handler<S, P>,
                                                       contrast: Handler<S, P>, doc: S)
    requires Extract(results).Extracted?
    requires NeverFatalOn(accessibility, Extract(results).findings.errors)
    requires NeverFatalOn(contrast, Extract(results).findings.contrast)
    ensures var r := Analyse(results, accessibility, contrast, doc);
      && r.status.Completed?
      && Dispatches(r.trace) == Plan(Extract(results).findings)
      && r.progress == Total(Extract(results).findings)
  {
    var f := Extract(results).findings;
    SweepNeverFatal(Accessibility, accessibility, f.errors, doc, [], 0);
    var first := Sweep(Accessibility, accessibility, f.errors, doc, [], 0);
    SweepNeverFatal(Contrast, contrast, f.contrast, first.status.doc, first.trace, first.progress);
  }

  /** A non-recoverable exception is not caught: if the editor raises fatally on item
      `k`, whatever document it is handed, the loop stops at that item or before it;
      no item after `k` is dispatched and the failing call is not counted. */
  lemma {:induction false} FatalItemEndsTheSweep<S, P>(editor: Editor, handle: Handler<S, P>,
                                                       items: seq<Finding<P>>, doc: S,
                                                       trace: seq<Call<S, P>>, progress: nat,
                                                       k: nat)
    requires k < |items|
    requires forall s :: handle(items[k].findingType, items[k].payload, s).Fatal?
    ensures var r := Sweep(editor, handle, items, doc, trace, progress);
      && r.status.EditorRaised?
      && |r.trace| <= |trace| + k + 1
      && r.progress <= progress + k
    decreases k
  {
    var item := items[0];
    var outcome := handle(item.findingType, item.payload, doc);
    if k > 0 && !outcome.Fatal? {
      var trace' := trace + [Call(Dispatch(editor, item), doc, VerdictOf(outcome))];
      assert items[1..][k - 1] == items[k];
      FatalItemEndsTheSweep(editor, handle, items[1..], outcome.doc, trace', progress + 1, k - 1);
    }
  }

  /** A fatal exception on error item `k` ends the whole run: nothing after it is
      dispatched, so no contrast item reaches the contrast editor. */
  lemma FatalErrorItemEndsTheRun<S, P>(results: AuditResult<P>,
                                       accessibility: Handler<S, P>,
                                       contrast: Handler<S, P>, doc: S, k: nat)
    requires Extract(results).Extracted?
    requires k < |Extract(results).findings.errors|
    requires forall s :: accessibility(Extract(results).findings.errors[k].findingType,
                                       Extract(results).findings.errors[k].payload, s).Fatal?
    ensures var r := Analyse(results, accessibility, contrast, doc);
      && r.status.EditorRaised?
      && |r.trace| <= k + 1
      && r.progress <= k
      && forall i :: 0 <= i < |r.trace| ==> r.trace[i].dispatch.editor == Accessibility
  {
    var f := Extract(results).findings;
    FatalItemEndsTheSweep(Accessibility, accessibility, f.errors, doc, [], 0, k);
    SweepRecordsOutcomes(Accessibility, accessibility, f.errors, doc, [], 0);
    var r := Sweep(Accessibility, accessibility, f.errors, doc, [], 0);
    forall i | 0 <= i < |r.trace|
      ensures r.trace[i].dispatch.editor == Accessibility
    {
      assert Recorded(Accessibility, accessibility, r, i);
    }
  }

  /** A fatal exception on contrast item `k` ends the run there: no later contrast
      item is dispatched and the failing item is not counted. */
  lemma FatalContrastItemEndsTheRun<S, P>(results: AuditResult<P>,
                                          accessibility: Handler<S, P>,
                                          contrast: Handler<S, P>, doc: S, k: nat)
    requires Extract(results).Extracted?
    requires k < |Extract(results).findings.contrast|
    requires forall s :: contrast(Extract(results).findings.contrast[k].findingType,
                                  Extract(results).findings.contrast[k].payload, s).Fatal?
    ensures var r := Analyse(results, accessibility, contrast, doc);
      && r.status.EditorRaised?
      && |r.trace| <= |Extract(results).findings.errors| + k + 1
      && r.progress <= |Extract(results).findings.errors| + k
  {
    var f := Extract(results).findings;
    var first := Sweep(Accessibility, accessibility, f.errors, doc, [], 0);
    if first.status.Completed? {
      FatalItemEndsTheSweep(Contrast, contrast, f.contrast, first.status.doc,
                            first.trace, first.progress, k);
    }
  }

  /** The document each call of a trace was handed is the one the previous call
      left, where each call is replayed with the editor that serves its category. */
  ghost predicate ChainedFrom<S, P>(accessibility: Handler<S, P>, contrast: Handler<S, P>,
                                    t: seq<Call<S, P>>, from: nat)
  {
    forall i :: from <= i < |t| - 1 ==>
      HandsOn(Replay(HandlerFor(t[i].dispatch.editor, accessibility, contrast), t[i]), t[i + 1].before)
  }

  /** Two chained stretches of one trace, where the second starts from the document
      the first left, make one chained trace. */
  lemma JoinChains<S, P>(accessibility: Handler<S, P>, contrast: Handler<S, P>,
                         t: seq<Call<S, P>>, n: nat, mid: S)
    requires 0 < n <= |t|
    requires ChainedFrom(accessibility, contrast, t[..n], 0)
    requires ChainedFrom(accessibility, contrast, t, n)
    requires HandsOn(Replay(HandlerFor(t[n - 1].dispatch.editor, accessibility, contrast), t[n - 1]), mid)
    requires n < |t| ==> t[n].before == mid
    ensures ChainedFrom(accessibility, contrast, t, 0)
  {
  }

  /** The document is threaded through the calls of `r` from call `from` on: that
      call gets `doc`, each later call gets the document the previous call left, and
      a completed run ends with the document the last call left (with `doc` when no
      call was made from `from` on). */
  ghost predicate ThreadedFrom<S, P>(accessibility: Handler<S, P>, contrast: Handler<S, P>,
                                     r: Run<S, P>, from: nat, doc: S)
  {
    && (from < |r.trace| ==> r.trace[from].before == doc)
    && ChainedFrom(accessibility, contrast, r.trace, from)
    && (r.status.Completed? ==>
          if |r.trace| <= from then r.status.doc == doc
          else HandsOn(Replay(HandlerFor(r.trace[|r.trace| - 1].dispatch.editor,
                                         accessibility, contrast),
                              r.trace[|r.trace| - 1]),
                       r.status.doc))
  }

  /** One loop, run with the editor that serves its category, threads the document
      through its own calls: its first call gets the loop's starting document, each
      later call the document the previous call left, and a completed loop ends with
      the document its last call left. */
  lemma SweepThreaded<S, P>(editor: Editor, accessibility: Handler<S, P>,
                            contrast: Handler<S, P>, items: seq<Finding<P>>, doc: S,
                            trace: seq<Call<S, P>>, progress: nat)
    ensures ThreadedFrom(accessibility, contrast,
                         Sweep(editor, HandlerFor(editor, accessibility, contrast), items,
                               doc, trace, progress),
                         |trace|, doc)
  {
    var handle := HandlerFor(editor, accessibility, contrast);
    var r := Sweep(editor, handle, items, doc, trace, progress);
    SweepStartsFromItsDocument(editor, handle, items, doc, trace, progress);
    SweepChainsDocuments(editor, handle, items, doc, trace, progress);
    SweepEndsWithLastDocument(editor, handle, items, doc, trace, progress);
    SweepRecordsOutcomes(editor, handle, items, doc, trace, progress);
    forall i | |trace| <= i < |r.trace|
      ensures r.trace[i].dispatch.editor == editor
    {
      assert Recorded(editor, handle, r, i);
    }
  }

  /** The two loops, run one after the other as the driver runs them, thread the
      document from the first call to the last. */
  lemma BothLoopsThreadDocument<S, P>(f: Findings<P>, accessibility: Handler<S, P>,
                                      contrast: Handler<S, P>, doc: S)
    ensures var first := Sweep(Accessibility, accessibility, f.errors, doc, [], 0);
      ThreadedFrom(accessibility, contrast,
                   if first.status.EditorRaised? then first
                   else Sweep(Contrast, contrast, f.contrast, first.status.doc, first.trace, first.progress),
                   0, doc)
  {
    var first := Sweep(Accessibility, accessibility, f.errors, doc, [], 0);
    SweepThreaded(Accessibility, accessibility, contrast, f.errors, doc, [], 0);
    if first.status.Completed? {
      var mid := first.status.doc;
      var second := Sweep(Contrast, contrast, f.contrast, mid, first.trace, first.progress);
      SweepThreaded(Contrast, accessibility, contrast, f.contrast, mid, first.trace, first.progress);
      var n := |first.trace|;
      if n > 0 {
        assert second.trace[..n] == first.trace;
        JoinChains(accessibility, contrast, second.trace, n, mid);
      }
    }
  }

  /** Both editors work on one shared document: the first call gets the starting
      document, each later call (across the boundary between the two loops too)
      gets the document the previous call left, even after a recoverable failure,
      and a completed run ends with the document the last call left. */
  lemma DocumentThreadedThroughBothLoops<S, P>(results: AuditResult<P>,
                                               accessibility: Handler<S, P>,
                                               contrast: Handler<S, P>, doc: S)
    ensures ThreadedFrom(accessibility, contrast, Analyse(results, accessibility, contrast, doc), 0, doc)
  {
    if Extract(results).Extracted? {
      BothLoopsThreadDocument(Extract(results).findings, accessibility, contrast, doc);
    }
  }

  /** Fault isolation, call by call: a call that did not raise fatally is followed
      by the dispatch of the next planned item, if there is one. */
  lemma NextItemFollowsNonFatalCall<S, P>(results: AuditResult<P>,
                                          accessibility: Handler<S, P>,
                                          contrast: Handler<S, P>, doc: S)
    requires Extract(results).Extracted?
    ensures var r := Analyse(results, accessibility, contrast, doc);
      forall i :: 0 <= i < |r.trace| && r.trace[i].verdict != Raised
                  && i + 1 < |Plan(Extract(results).findings)| ==>
        i + 1 < |r.trace| && r.trace[i + 1].dispatch == Plan(Extract(results).findings)[i + 1]
  {
    var r := Analyse(results, accessibility, contrast, doc);
    var plan := Plan(Extract(results).findings);
    AnalyseRecordsOutcomes(results, accessibility, contrast, doc);
    forall i | 0 <= i < |r.trace| && r.trace[i].verdict != Raised && i + 1 < |plan|
      ensures i + 1 < |r.trace| && r.trace[i + 1].dispatch == plan[i + 1]
    {
      assert Answered(accessibility, contrast, r, i);
      assert Dispatches(r.trace)[i + 1] == plan[i + 1];
    }
  }

  /** Every accessibility dispatch comes before every contrast dispatch. */
  lemma AccessibilityBeforeContrast<S, P>(results: AuditResult<P>,
                                          accessibility: Handler<S, P>,
                                          contrast: Handler<S, P>, doc: S)
    ensures var t := Analyse(results, accessibility, contrast, doc).trace;
      forall i, j :: 0 <= i < j < |t| && t[i].dispatch.editor == Contrast ==>
        t[j].dispatch.editor == Contrast
  {
    var t := Analyse(results, accessibility, contrast, doc).trace;
    if Extract(results).Extracted? {
      var f := Extract(results).findings;
      forall i, j | 0 <= i < j < |t| && t[i].dispatch.editor == Contrast
        ensures t[j].dispatch.editor == Contrast
      {
        assert Dispatches(t)[i] == Plan(f)[i];
        assert Dispatches(t)[j] == Plan(f)[j];
      }
    }
  }

  /** Routing: the accessibility editor only ever receives error items and the
      contrast editor only contrast items; no other finding reaches either. */
  lemma EditorsReceiveOnlyTheirCategory<S, P>(results: AuditResult<P>,
                                              accessibility: Handler<S, P>,
                                              contrast: Handler<S, P>, doc: S)
    requires Extract(results).Extracted?
    ensures var t := Analyse(results, accessibility, contrast, doc).trace;
      var f := Extract(results).findings;
      forall i :: 0 <= i < |t| ==>
        && (t[i].dispatch.editor == Accessibility ==> t[i].dispatch.finding in f.errors)
        && (t[i].dispatch.editor == Contrast ==> t[i].dispatch.finding in f.contrast)
  {
    var t := Analyse(results, accessibility, contrast, doc).trace;
    var f := Extract(results).findings;
    forall i | 0 <= i < |t|
      ensures t[i].dispatch.editor == Accessibility ==> t[i].dispatch.finding in f.errors
      ensures t[i].dispatch.editor == Contrast ==> t[i].dispatch.finding in f.contrast
    {
      assert Dispatches(t)[i] == Plan(f)[i];
      if i < |f.errors| {
        assert t[i].dispatch == Dispatch(Accessibility, f.errors[i]);
      } else {
        assert t[i].dispatch == Dispatch(Contrast, f.contrast[i - |f.errors|]);
      }
    }
  }

  /** Alert exclusion: the run does not depend on the alert items at all. Replacing
      them by any other items yields the same calls, document and counter. */
  lemma AlertsNeverDispatched<S, P>(results: AuditResult<P>, alerts: seq<Finding<P>>,
                                    accessibility: Handler<S, P>,
                                    contrast: Handler<S, P>, doc: S)
    requires Extract(results).Extracted?
    ensures Analyse(WithAlerts(results, alerts), accessibility, contrast, doc)
         == Analyse(results, accessibility, contrast, doc)
  {
  }

  /** With finding types unique within each category, the plan names no dispatch twice. */
  lemma PlanHasNoRepeats<P>(f: Findings<P>)
    requires DistinctTypes(f.errors) && DistinctTypes(f.contrast)
    ensures forall i, j :: 0 <= i < j < |Plan(f)| ==> Plan(f)[i] != Plan(f)[j]
  {
  }

  /** Exactly-once dispatch. Finding types are unique within a category (they are
      the keys of its `items` mapping), so no dispatch is ever repeated; and a
      completed run has handed every error item to the accessibility editor and
      every contrast item to the contrast editor. */
  lemma DispatchedExactlyOnce<S, P>(results: AuditResult<P>,
                                    accessibility: Handler<S, P>,
                                    contrast: Handler<S, P>, doc: S)
    requires Extract(results).Extracted?
    requires DistinctTypes(Extract(results).findings.errors)
    requires DistinctTypes(Extract(results).findings.contrast)
    ensures var r := Analyse(results, accessibility, contrast, doc);
      && (forall i, j :: 0 <= i < j < |r.trace| ==> r.trace[i].dispatch != r.trace[j].dispatch)
      && (r.status.Completed? ==>
            && (forall e :: e in Extract(results).findings.errors ==>
                  Dispatch(Accessibility, e) in Dispatches(r.trace))
            && (forall e :: e in Extract(results).findings.contrast ==>
                  Dispatch(Contrast, e) in Dispatches(r.trace)))
  {
    var r := Analyse(results, accessibility, contrast, doc);
    var f := Extract(results).findings;
    var plan := Plan(f);
    var done := Dispatches(r.trace);
    PlanHasNoRepeats(f);
    forall i, j | 0 <= i < j < |r.trace|
      ensures r.trace[i].dispatch != r.trace[j].dispatch
    {
      assert done[i] == plan[i] && done[j] == plan[j];
    }
    if r.status.Completed? {
      forall e | e in f.errors
        ensures Dispatch(Accessibility, e) in done
      {
        var k :| 0 <= k < |f.errors| && f.errors[k] == e;
        assert done[k] == Dispatch(Accessibility, e);
      }
      forall e | e in f.contrast
        ensures Dispatch(Contrast, e) in done
      {
        var k :| 0 <= k < |f.contrast| && f.contrast[k] == e;
        assert done[|f.errors| + k] == Dispatch(Contrast, e);
      }
    }
  }
}
