/**
 * The pipeline child and its parent together (src/assist_pipeline_bridge.cpp:457-885).
 */
module Pipeline {
  import opened Basics
  import opened JsonFields
  import opened ResultLine
  import opened PipelineParent
  import opened PipelineChild
  import opened PipelineReport

  /** However the pipe cuts the child's output, the parent succeeds exactly when the child exits
      with 0, hears of every progress line, and reports an error whenever the child failed. */
  lemma ParentSeesChild(setup: Setup, events: seq<Event>, players: Players, chunks: seq<string>)
    requires
      var report := Child(setup, events, players);
      Flatten(chunks) == Printed(report.updates, report.last)
    ensures
      var report := Child(setup, events, players);
      var st := Consume(FeedAll(Start(true), chunks));
      var seen := Outcome(st, false);
      (seen.success <==> report.code == 0) &&
      (!seen.success ==> seen.error != "") &&
      st.progress == ReadBack(report.updates) &&
      seen.transcript == Strip(report.last.transcript) && seen.stage == Strip(report.last.stage)
  {
    var report := Child(setup, events, players);
    DeliveredOutcome(report.updates, report.last, chunks);
    ExitCode(setup, events, players);
  }
}
