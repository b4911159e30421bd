/** The interface the driver sees of the two editors, and the record of what it
    hands them and what a run of the driver observes. The editors' internals are not part of this model: each is an
    uninterpreted function from (finding type, payload, document) to an outcome. */
module Editors {
  import opened Audit

  /** What one editor call ends in. `Recoverable` stands for a `RuntimeError` and
      still carries a document, since the editor may have changed it before
      raising; `Fatal` stands for any other exception. */
  datatype Outcome<S> = Applied(doc: S) | Recoverable(doc: S) | Fatal

  /** An editor entry point: `handle_accessibility_error` or `handle_contrast_error`. */
  type Handler<!S, -P> = (string, P, S) -> Outcome<S>

  datatype Editor = Accessibility | Contrast

  /** One finding handed to one editor. */
  datatype Dispatch<P> = Dispatch(editor: Editor, finding: Finding<P>)

  datatype Verdict = Patched | Skipped | Raised

  /** An entry of the dispatch trace: the call, the document the editor was handed,
      and how the call ended. */
  datatype Call<S, P> = Call(dispatch: Dispatch<P>, before: S, verdict: Verdict)

  /** The editor that serves `editor` in a run over these two handlers. */
  function HandlerFor<S, P>(editor: Editor, accessibility: Handler<S, P>,
                            contrast: Handler<S, P>): Handler<S, P>
  {
    match editor
    case Accessibility => accessibility
    case Contrast => contrast
  }

  /** What `handle` does with the finding and the document recorded in `c`. */
  function Replay<S, P>(handle: Handler<S, P>, c: Call<S, P>): Outcome<S>
  {
    handle(c.dispatch.finding.findingType, c.dispatch.finding.payload, c.before)
  }

  /** The call ended without a fatal error and left the document `next`. */
  ghost predicate HandsOn<S>(o: Outcome<S>, next: S)
  {
    !o.Fatal? && o.doc == next
  }

  function VerdictOf<S>(o: Outcome<S>): Verdict
  {
    match o
    case Applied(_) => Patched
    case Recoverable(_) => Skipped
    case Fatal => Raised
  }

  /** The dispatches that hand every item of `items` to `editor`, in order. */
  function Planned<P>(editor: Editor, items: seq<Finding<P>>): seq<Dispatch<P>>
  {
    seq(|items|, i requires 0 <= i < |items| => Dispatch(editor, items[i]))
  }

  /** The dispatches of a trace, without their verdicts. */
  function Dispatches<S, P>(trace: seq<Call<S, P>>): seq<Dispatch<P>>
  {
    seq(|trace|, i requires 0 <= i < |trace| => trace[i].dispatch)
  }

  /** How a run of the driver, or one of its loops, ends. */
  datatype Status<S> =
    | Completed(doc: S)     // every loop ran to the end; the document it left
    | MissingKey(key: Key)  // a lookup before the loops failed (the driver only)
    | EditorRaised          // an editor raised something other than a recoverable error

  /** Everything observable about one run: how it ended, the editor calls in the
      order they were made, and the progress counter. */
  datatype Run<S, P> = Run(status: Status<S>, trace: seq<Call<S, P>>, progress: nat)
}
