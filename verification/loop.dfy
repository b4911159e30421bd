/** One dispatch loop of the remediation driver: every item of one category goes to
    one editor, a recoverable failure is swallowed, any other exception ends the
    loop, and the progress counter advances once per item that did not raise. */
module Loop {
  import opened Audit
  import opened Editors

  /** One dispatch loop, continued from a document, a trace and a counter. Each item
      goes to `handle`; an applied or recoverable outcome moves to the next item with
      the document the editor left and the counter advanced, a fatal one stops.
      The loop only appends to the trace, one call per item it reaches; a completed
      loop has called the editor on every item and counted every one, a stopped
      loop has counted every call but the last. */
  function Sweep<S, P>(editor: Editor, handle: Handler<S, P>, items: seq<Finding<P>>,
                       doc: S, trace: seq<Call<S, P>>, progress: nat): (r: Run<S, P>)
    ensures r.status.Completed? || r.status.EditorRaised?
    ensures trace <= r.trace
    ensures r.status.Completed? ==>
      |r.trace| == |trace| + |items| && r.progress == progress + |items|
    ensures r.status.EditorRaised? ==>
      && |trace| < |r.trace| <= |trace| + |items|
      && r.progress == progress + |r.trace| - |trace| - 1
    decreases |items|
  {
    if |items| == 0 then Run(Completed(doc), trace, progress)
    else
      var item := items[0];
      var outcome := handle(item.findingType, item.payload, doc);
      var trace' := trace + [Call(Dispatch(editor, item), doc, VerdictOf(outcome))];
      match outcome
      case Fatal => Run(EditorRaised, trace', progress)
      case Applied(doc') => Sweep(editor, handle, items[1..], doc', trace', progress + 1)
      case Recoverable(doc') => Sweep(editor, handle, items[1..], doc', trace', progress + 1)
  }

  /** The calls a loop makes hand its items to `editor` in order: a prefix of them,
      and all of them when the loop completes. */
  lemma {:induction false} SweepFollowsItems<S, P>(editor: Editor, handle: Handler<S, P>,
                                                   items: seq<Finding<P>>, doc: S,
                                                   trace: seq<Call<S, P>>, progress: nat)
    ensures var r := Sweep(editor, handle, items, doc, trace, progress);
      && Dispatches(r.trace[|trace|..]) <= Planned(editor, items)
      && (r.status.Completed? ==> Dispatches(r.trace[|trace|..]) == Planned(editor, items))
    decreases |items|
  {
    if |items| > 0 {
      var item := items[0];
      var outcome := handle(item.findingType, item.payload, doc);
      var c := Call(Dispatch(editor, item), doc, VerdictOf(outcome));
      var trace' := trace + [c];
      if !outcome.Fatal? {
        SweepFollowsItems(editor, handle, items[1..], outcome.doc, trace', progress + 1);
        var r := Sweep(editor, handle, items[1..], outcome.doc, trace', progress + 1);
        PrefixStep(editor, items, trace, c, r.trace);
      }
    }
  }

  /** A loop's new calls stay a prefix of its items when one more item's call is
      put in front of a prefix of the remaining items' calls. */
  lemma PrefixStep<S, P>(editor: Editor, items: seq<Finding<P>>, trace: seq<Call<S, P>>,
                         c: Call<S, P>, full: seq<Call<S, P>>)
    requires 0 < |items| && c.dispatch == Dispatch(editor, items[0])
    requires trace + [c] <= full
    requires Dispatches(full[|trace| + 1..]) <= Planned(editor, items[1..])
    ensures Dispatches(full[|trace|..]) <= Planned(editor, items)
    ensures Dispatches(full[|trace| + 1..]) == Planned(editor, items[1..]) ==>
      Dispatches(full[|trace|..]) == Planned(editor, items)
  {
    var done := Dispatches(full[|trace|..]);
    var rest := Dispatches(full[|trace| + 1..]);
    forall k | 0 <= k < |done|
      ensures done[k] == Planned(editor, items)[k]
    {
      if k > 0 {
        assert done[k] == rest[k - 1];
      }
    }
  }

  /** Call `i` of run `r` went to `editor`, its verdict is what `handle` returned for
      that finding on the document it was handed, and it is fatal exactly when it is
      the last call of a run that stopped. */
  ghost predicate Recorded<S, P>(editor: Editor, handle: Handler<S, P>, r: Run<S, P>, i: nat)
    requires i < |r.trace|
  {
    && r.trace[i].dispatch.editor == editor
    && r.trace[i].verdict == VerdictOf(Replay(handle, r.trace[i]))
    && (r.trace[i].verdict == Raised <==> r.status.EditorRaised? && i == |r.trace| - 1)
  }

  /** Each call of a loop went to `editor`, and its verdict is what `handle` returned
      for that finding on the document it was handed. A fatal verdict is the last
      call of a loop that stopped, and only there. */
  lemma {:induction false} SweepRecordsOutcomes<S, P>(editor: Editor, handle: Handler<S, P>,
                                                      items: seq<Finding<P>>, doc: S,
                                                      trace: seq<Call<S, P>>, progress: nat)
    ensures var r := Sweep(editor, handle, items, doc, trace, progress);
      forall i :: |trace| <= i < |r.trace| ==> Recorded(editor, handle, r, i)
    decreases |items|
  {
    if |items| > 0 {
      var item := items[0];
      var outcome := handle(item.findingType, item.payload, doc);
      var trace' := trace + [Call(Dispatch(editor, item), doc, VerdictOf(outcome))];
      var r := Sweep(editor, handle, items, doc, trace, progress);
      if outcome.Fatal? {
        assert r.trace == trace';
      } else {
        SweepRecordsOutcomes(editor, handle, items[1..], outcome.doc, trace', progress + 1);
        assert r == Sweep(editor, handle, items[1..], outcome.doc, trace', progress + 1);
        assert r.trace[|trace|] == trace'[|trace|];
        assert Recorded(editor, handle, r, |trace|);
      }
    }
  }

  /** A loop hands its first call the document it starts from. */
  lemma SweepStartsFromItsDocument<S, P>(editor: Editor, handle: Handler<S, P>,
                                         items: seq<Finding<P>>, doc: S,
                                         trace: seq<Call<S, P>>, progress: nat)
    ensures var r := Sweep(editor, handle, items, doc, trace, progress);
      |trace| < |r.trace| ==> r.trace[|trace|].before == doc
  {
  }

  /** Inside a loop, each call after the first gets the document the previous call
      left, even when that call failed recoverably. */
  lemma {:induction false} SweepChainsDocuments<S, P>(editor: Editor, handle: Handler<S, P>,
                                                      items: seq<Finding<P>>, doc: S,
                                                      trace: seq<Call<S, P>>, progress: nat)
    ensures var r := Sweep(editor, handle, items, doc, trace, progress);
      forall i :: |trace| <= i < |r.trace| - 1 ==>
        HandsOn(Replay(handle, r.trace[i]), r.trace[i + 1].before)
    decreases |items|
  {
    if |items| > 0 {
      var item := items[0];
      var outcome := handle(item.findingType, item.payload, doc);
      var trace' := trace + [Call(Dispatch(editor, item), doc, VerdictOf(outcome))];
      if !outcome.Fatal? {
        SweepChainsDocuments(editor, handle, items[1..], outcome.doc, trace', progress + 1);
        SweepStartsFromItsDocument(editor, handle, items[1..], outcome.doc, trace', progress + 1);
        var r := Sweep(editor, handle, items[1..], outcome.doc, trace', progress + 1);
        assert r.trace[|trace|] == trace'[|trace|];
      }
    }
  }

  /** A loop that completes ends with the document its last call left, or with its
      starting document when it had no items. */
  lemma {:induction false} SweepEndsWithLastDocument<S, P>(editor: Editor, handle: Handler<S, P>,
                                                           items: seq<Finding<P>>, doc: S,
                                                           trace: seq<Call<S, P>>, progress: nat)
    ensures var r := Sweep(editor, handle, items, doc, trace, progress);
      r.status.Completed? ==>
        if |r.trace| == |trace| then r.status.doc == doc
        else HandsOn(Replay(handle, r.trace[|r.trace| - 1]), r.status.doc)
    decreases |items|
  {
    if |items| > 0 {
      var item := items[0];
      var outcome := handle(item.findingType, item.payload, doc);
      var trace' := trace + [Call(Dispatch(editor, item), doc, VerdictOf(outcome))];
      if !outcome.Fatal? {
        SweepEndsWithLastDocument(editor, handle, items[1..], outcome.doc, trace', progress + 1);
        var r := Sweep(editor, handle, items[1..], outcome.doc, trace', progress + 1);
        assert r.trace[|trace|] == trace'[|trace|];
      }
    }
  }

  /** One `for` loop of `process_analysis`, with the document, the trace and the
      counter as loop state: each item goes to `handle`, a recoverable failure is
      swallowed, a fatal one ends the loop. It computes exactly `Sweep`. */
  method DispatchLoop<S, P>(editor: Editor, handle: Handler<S, P>, items: seq<Finding<P>>,
                            doc: S, trace: seq<Call<S, P>>, progress: nat) returns (r: Run<S, P>)
    ensures r == Sweep(editor, handle, items, doc, trace, progress)
  {
    var current := doc;
    var calls := trace;
    var count := progress;
    var i := 0;
    while i < |items|
      invariant i <= |items|
      invariant Sweep(editor, handle, items[i..], current, calls, count)
             == Sweep(editor, handle, items, doc, trace, progress)
    {
      assert items[i..][1..] == items[i + 1..];
      var outcome := handle(items[i].findingType, items[i].payload, current);
      calls := calls + [Call(Dispatch(editor, items[i]), current, VerdictOf(outcome))];
      if outcome.Fatal? {
        return Run(EditorRaised, calls, count);
      }
      current := outcome.doc;
      count := count + 1;
      i := i + 1;
    }
    r := Run(Completed(current), calls, count);
  }
}
