/**
 * The parent's side of the pipeline protocol (src/assist_pipeline_bridge.cpp:785-885):
 * pipe chunks are gathered into lines, each line is parsed, progress lines are reported
 * and the final line is kept. How the pipe cuts the stream must not matter.
 */
module PipelineParent {
  import opened Basics
  import opened Text
  import opened JsonFields
  import opened ResultLine

  /** What the reader holds; `progress` records the calls of `on_progress`. */
  datatype ReaderState = ReaderState(
    listening: bool,
    output: string,
    finalOutput: string,
    progress: seq<AssistResult>)

  const NEWLINE := "\n"

  function Handle(st: ReaderState, line: string): ReaderState {
    if IsFinalLine(line) then st.(finalOutput := line)
    else if st.listening then st.(progress := st.progress + [ParseLine(line)])
    else st
  }

  /** Handle every complete line in `st.output`, keep the rest. */
  function Consume(st: ReaderState): ReaderState
    decreases |st.output|
  {
    match Find(st.output, NEWLINE, 0)
    case None => st
    case Some(i) => Consume(Handle(st, st.output[..i]).(output := st.output[i + 1..]))
  }

  function Feed(st: ReaderState, chunk: string): ReaderState {
    Consume(st.(output := st.output + chunk))
  }

  function FeedAll(st: ReaderState, chunks: seq<string>): ReaderState
    decreases |chunks|
  {
    if chunks == [] then st else FeedAll(Feed(st, chunks[0]), chunks[1..])
  }

  function Start(listening: bool): ReaderState { ReaderState(listening, "", "", []) }

  class LineReader {
    const listening: bool
    var output: string
    var finalOutput: string
    var progress: seq<AssistResult>

    function State(): ReaderState
      reads this
    {
      ReaderState(listening, output, finalOutput, progress)
    }

    constructor (listening: bool)
      ensures State() == Start(listening)
    {
      this.listening := listening;
      output, finalOutput, progress := "", "", [];
    }

    method ConsumeOutput()
      modifies this
      ensures State() == Consume(old(State()))
    {
      var newline := Find(output, NEWLINE, 0);
      while newline.Some?
        invariant newline == Find(output, NEWLINE, 0)
        invariant Consume(State()) == Consume(old(State()))
        decreases |output|
      {
        ghost var before := State();
        var line := output[..newline.value];
        output := output[newline.value + 1..];
        HandleLine(line);
        ConsumeLine(before, newline.value);
        newline := Find(output, NEWLINE, 0);
      }
    }

    method HandleLine(line: string)
      modifies this
      ensures State() == Handle(old(State()), line)
    {
      var parsed := ParseResult(line);
      if IsFinalLine(line) {
        finalOutput := line;
      } else if listening {
        progress := progress + [parsed];
      }
    }

    method Append(chunk: string)
      modifies this
      ensures State() == Feed(old(State()), chunk)
    {
      output := output + chunk;
      ConsumeOutput();
    }
  }

  /** The field-by-field reading of one line. */
  method ParseResult(line: string) returns (parsed: AssistResult)
    ensures parsed == ParseLine(line)
  {
    var stage := JsonStringAfter(line, "stage");
    var transcript := JsonStringAfter(line, "transcript");
    var response := JsonStringAfter(line, "response");
    var error := JsonStringAfter(line, "error");
    var conversationId := JsonStringAfter(line, "conversation_id");
    var responseType := JsonStringAfter(line, "response_type");
    var continueConversation := JsonBoolAfter(line, "continue_conversation", false);
    var audioLevel := JsonIntAfter(line, "audio_level", 0);
    parsed := AssistResult(Contains(line, SUCCESS_TRUE), stage, transcript, response, error,
      conversationId, responseType, continueConversation, audioLevel);
  }

  const CANCELLED := "Anulowano Assist"
  const NO_ANSWER := "Proces pipeline nie zwrócił odpowiedzi"
  const UNKNOWN_ERROR := "Nieznany błąd procesu pipeline"

  /** The result handed to the caller once the stream has ended. */
  function Outcome(st: ReaderState, cancelled: bool): AssistResult {
    if cancelled then EMPTY_RESULT.(error := CANCELLED)
    else if st.finalOutput == "" then EMPTY_RESULT.(error := NO_ANSWER)
    else
      var r := ParseLine(st.finalOutput);
      if !r.success && r.error == "" then r.(error := UNKNOWN_ERROR) else r
  }

  /** The reading loops of `run_assist_pipeline_process` and what it returns. */
  method CollectResult(reader: LineReader, chunks: seq<string>, cancelled: bool)
    returns (result: AssistResult)
    modifies reader
    ensures reader.State() == Consume(FeedAll(old(reader.State()), chunks))
    ensures result == Outcome(reader.State(), cancelled)
  {
    for i := 0 to |chunks|
      invariant FeedAll(reader.State(), chunks[i..]) == FeedAll(old(reader.State()), chunks)
    {
      assert chunks[i..][0] == chunks[i] && chunks[i..][1..] == chunks[i + 1..];
      reader.Append(chunks[i]);
    }
    reader.ConsumeOutput();
    if cancelled {
      return EMPTY_RESULT.(error := CANCELLED);
    }
    if reader.finalOutput == "" {
      return EMPTY_RESULT.(error := NO_ANSWER);
    }
    result := ParseResult(reader.finalOutput);
    if !result.success && result.error == "" {
      result := result.(error := UNKNOWN_ERROR);
    }
  }

  // ---------------------------------------------------------------- chunks do not matter

  lemma {:induction false} FindNewlineIn(a: string, b: string, start: nat)
    requires start <= |a| && Find(a, NEWLINE, start).Some?
    ensures Find(a + b, NEWLINE, start) == Find(a, NEWLINE, start)
    decreases |a| - start
  {
    if start < |a| {
      assert NEWLINE <= a[start..] <==> a[start] == '\n';
      assert NEWLINE <= (a + b)[start..] <==> (a + b)[start] == '\n';
      if a[start] != '\n' {
        FindNewlineIn(a, b, start + 1);
      }
    }
  }

  /** Handling what is there before more arrives makes no difference. */
  lemma {:induction false} ConsumeTwice(st: ReaderState, more: string)
    ensures Feed(st, more) == Feed(Consume(st), more)
    decreases |st.output|
  {
    match Find(st.output, NEWLINE, 0)
    case None =>
    case Some(i) =>
      var line, rest := st.output[..i], st.output[i + 1..];
      var longer := st.(output := st.output + more);
      FindNewlineIn(st.output, more, 0);
      assert longer.output[..i] == line && longer.output[i + 1..] == rest + more;
      ConsumeLine(st, i);
      ConsumeLine(longer, i);
      HandleIgnoresOutput(st, rest, line, rest + more);
      ConsumeTwice(Handle(st.(output := rest), line), more);
  }

  lemma ConsumeLine(st: ReaderState, i: nat)
    requires i < |st.output| && Find(st.output, NEWLINE, 0) == Some(i)
    ensures Consume(st) == Consume(Handle(st.(output := st.output[i + 1..]), st.output[..i]))
  {}

  lemma HandleIgnoresOutput(st: ReaderState, other: string, line: string, rest: string)
    ensures Handle(st.(output := other), line).(output := rest) == Handle(st.(output := rest), line)
    ensures Handle(st.(output := other), line).output == other
  {}

  /** Any chunking of a stream leaves the reader as the whole stream in one piece does. */
  lemma {:induction false} ChunkingIsIrrelevant(st: ReaderState, chunks: seq<string>)
    ensures Consume(FeedAll(st, chunks)) == Feed(st, Flatten(chunks))
    decreases |chunks|
  {
    if chunks == [] {
      assert st.output + "" == st.output;
    } else {
      ChunkingIsIrrelevant(Feed(st, chunks[0]), chunks[1..]);
      FeedTwice(st, chunks[0], Flatten(chunks[1..]));
    }
  }

  lemma FeedTwice(st: ReaderState, a: string, b: string)
    ensures Feed(Feed(st, a), b) == Feed(st, a + b)
  {
    ConsumeTwice(st.(output := st.output + a), b);
    assert st.output + a + b == st.output + (a + b);
  }

  // ---------------------------------------------------------------- a stream of lines

  function Joined(lines: seq<string>): string {
    if lines == [] then "" else lines[0] + NEWLINE + Joined(lines[1..])
  }

  function HandleAll(st: ReaderState, lines: seq<string>): ReaderState
    decreases |lines|
  {
    if lines == [] then st else HandleAll(Handle(st, lines[0]), lines[1..])
  }

  lemma {:induction false} FindFirstNewline(a: string, b: string, start: nat)
    requires start <= |a| && '\n' !in a
    ensures Find(a + NEWLINE + b, NEWLINE, start) == Some(|a|)
    decreases |a| - start
  {
    var s := a + NEWLINE + b;
    assert s[|a|] == '\n' && forall i :: 0 <= i < |a| ==> s[i] == a[i];
    if start < |a| {
      assert s[start] == a[start] && a[start] in a;
      FindFirstNewline(a, b, start + 1);
    } else {
      assert NEWLINE <= s[start..];
    }
  }

  lemma {:induction false} NoNewline(tail: string, start: nat)
    requires '\n' !in tail && start <= |tail|
    ensures Find(tail, NEWLINE, start) == None
    decreases |tail| - start
  {
    if start < |tail| {
      assert tail[start] in tail;
      NoNewline(tail, start + 1);
    }
  }

  /** A stream of whole lines, and the beginning of another. */
  lemma {:induction false} ConsumeJoined(st: ReaderState, lines: seq<string>, tail: string)
    requires st.output == Joined(lines) + tail && '\n' !in tail
    requires forall i :: 0 <= i < |lines| ==> '\n' !in lines[i]
    ensures Consume(st) == HandleAll(st, lines).(output := tail)
    decreases |lines|
  {
    if lines == [] {
      assert st.output == tail;
      NoNewline(tail, 0);
    } else {
      var line, rest := lines[0], Joined(lines[1..]) + tail;
      assert st.output == line + NEWLINE + rest;
      FindFirstNewline(line, rest, 0);
      assert st.output[..|line|] == line && st.output[|line| + 1..] == rest;
      var next := Handle(st, line).(output := rest);
      ConsumeJoined(next, lines[1..], tail);
      HandleAllIgnoresOutput(Handle(st, line), rest, tail, lines[1..]);
    }
  }

  lemma {:induction false} HandleAllIgnoresOutput(st: ReaderState, other: string, last: string, lines: seq<string>)
    ensures HandleAll(st.(output := other), lines).(output := last) == HandleAll(st, lines).(output := last)
    decreases |lines|
  {
    if lines != [] {
      HandleAllIgnoresOutput(Handle(st, lines[0]), other, last, lines[1..]);
    }
  }

  lemma ConsumeWhole(st: ReaderState, lines: seq<string>)
    requires st.output == Joined(lines) && forall i :: 0 <= i < |lines| ==> '\n' !in lines[i]
    ensures Consume(st) == HandleAll(st, lines).(output := "")
  {
    assert st.output == Joined(lines) + "";
    ConsumeJoined(st, lines, "");
  }

  // ---------------------------------------------------------------- the printed stream

  /** The lines the child prints for its progress results. */
  function ProgressLines(updates: seq<AssistResult>): (lines: seq<string>)
    ensures |lines| == |updates|
    ensures forall i :: 0 <= i < |lines| ==> lines[i] == Line(updates[i], false)
  {
    if updates == [] then [] else [Line(updates[0], false)] + ProgressLines(updates[1..])
  }

  function ReadBack(updates: seq<AssistResult>): (rs: seq<AssistResult>)
    ensures |rs| == |updates|
    ensures forall i :: 0 <= i < |rs| ==> rs[i] == Found(NAMES, updates[i])
  {
    if updates == [] then [] else [Found(NAMES, updates[0])] + ReadBack(updates[1..])
  }

  lemma {:induction false} PrintedIsJoined(updates: seq<AssistResult>, last: AssistResult)
    ensures Printed(updates, last) == Joined(ProgressLines(updates) + [Line(last, true)])
    decreases |updates|
  {
    var lines := ProgressLines(updates) + [Line(last, true)];
    if updates == [] {
      assert Joined(lines[1..]) == "";
    } else {
      PrintedIsJoined(updates[1..], last);
      assert lines[1..] == ProgressLines(updates[1..]) + [Line(last, true)];
    }
  }

  lemma PrintedLinesAreWhole(updates: seq<AssistResult>, last: AssistResult)
    ensures forall i :: 0 <= i <= |updates| ==>
      '\n' !in (ProgressLines(updates) + [Line(last, true)])[i]
  {
    LineHasNoNewline(last, true);
    forall i | 0 <= i < |updates|
      ensures '\n' !in ProgressLines(updates)[i]
    {
      LineHasNoNewline(updates[i], false);
    }
  }

  /** Handling progress lines and then a final one. */
  lemma {:induction false} HandlesInOrder(st: ReaderState, lines: seq<string>, final: string, results: seq<AssistResult>)
    requires st.listening && |results| == |lines| && IsFinalLine(final)
    requires forall i :: 0 <= i < |lines| ==> !IsFinalLine(lines[i]) && ParseLine(lines[i]) == results[i]
    ensures HandleAll(st, lines + [final])
         == ReaderState(true, st.output, final, st.progress + results)
    decreases |lines|
  {
    var all := lines + [final];
    if lines == [] {
      assert all[0] == final && all[1..] == [];
      assert st.progress + results == st.progress;
    } else {
      var next := Handle(st, lines[0]);
      assert next == ReaderState(true, st.output, st.finalOutput, st.progress + [results[0]]);
      HandlesInOrder(next, lines[1..], final, results[1..]);
      assert all[0] == lines[0] && all[1..] == lines[1..] + [final];
      assert st.progress + [results[0]] + results[1..] == st.progress + results;
    }
  }

  lemma HandlesPrinted(st: ReaderState, updates: seq<AssistResult>, last: AssistResult)
    requires st.listening
    ensures HandleAll(st, ProgressLines(updates) + [Line(last, true)])
         == ReaderState(true, st.output, Line(last, true), st.progress + ReadBack(updates))
  {
    FlagMeaning(last, true);
    forall i | 0 <= i < |updates|
      ensures !IsFinalLine(ProgressLines(updates)[i])
      ensures ParseLine(ProgressLines(updates)[i]) == ReadBack(updates)[i]
    {
      FlagMeaning(updates[i], false);
      ParseMeaning(updates[i], false);
    }
    HandlesInOrder(st, ProgressLines(updates), Line(last, true), ReadBack(updates));
  }

  /** End to end: however the child's output is cut, `on_progress` is called once per progress
      result, in order, with what the searches find in it, and the final line is kept. */
  lemma StreamIsDelivered(updates: seq<AssistResult>, last: AssistResult, chunks: seq<string>)
    requires Flatten(chunks) == Printed(updates, last)
    ensures Consume(FeedAll(Start(true), chunks)) ==
            ReaderState(true, "", Line(last, true), ReadBack(updates))
  {
    var all := Start(true).(output := Flatten(chunks));
    ChunkingIsIrrelevant(Start(true), chunks);
    assert Start(true).output + Flatten(chunks) == Flatten(chunks);
    PrintedIsJoined(updates, last);
    PrintedLinesAreWhole(updates, last);
    ConsumeWhole(all, ProgressLines(updates) + [Line(last, true)]);
    HandlesPrinted(all, updates, last);
    assert [] + ReadBack(updates) == ReadBack(updates);
  }

  /** What the caller is handed once the stream has ended. */
  lemma DeliveredOutcome(updates: seq<AssistResult>, last: AssistResult, chunks: seq<string>)
    requires Flatten(chunks) == Printed(updates, last)
    ensures
      var st := Consume(FeedAll(Start(true), chunks));
      var seen := Outcome(st, false);
      seen == (if !last.success && Found(NAMES, last).error == ""
               then Found(NAMES, last).(error := "Nieznany błąd procesu pipeline") else Found(NAMES, last)) &&
      seen.success == last.success && (!seen.success ==> seen.error != "") &&
      st.progress == ReadBack(updates) &&
      seen.transcript == Strip(last.transcript) && seen.stage == Strip(last.stage)
  {
    StreamIsDelivered(updates, last, chunks);
    ParseMeaning(last, true);
    AlwaysReadBack(last, true);
    LineIsNotEmpty(last);
  }

  lemma LineIsNotEmpty(r: AssistResult)
    ensures Line(r, true) != ""
  {}

  lemma {:induction false} ProgressHandled(st: ReaderState, updates: seq<AssistResult>)
    requires st.listening
    ensures HandleAll(st, ProgressLines(updates)) == st.(progress := st.progress + ReadBack(updates))
    decreases |updates|
  {
    var lines := ProgressLines(updates);
    if updates == [] {
      assert st.progress + [] == st.progress;
    } else {
      var r, later := updates[0], updates[1..];
      FlagMeaning(r, false);
      ParseMeaning(r, false);
      assert lines[0] == Line(r, false) && lines[1..] == ProgressLines(later);
      var next := Handle(st, lines[0]);
      ProgressHandled(next, later);
      Regroup(st.progress, [Found(NAMES, r)], ReadBack(later));
    }
  }

  lemma ProgressLinesAreWhole(updates: seq<AssistResult>)
    ensures forall i :: 0 <= i < |updates| ==> '\n' !in ProgressLines(updates)[i]
  {
    forall i | 0 <= i < |updates|
      ensures '\n' !in ProgressLines(updates)[i]
    {
      LineHasNoNewline(updates[i], false);
    }
  }

  /** The child ends without a final line, perhaps inside one: every whole line is reported, and
      the caller is handed a failure that says so. */
  lemma NoFinalLine(updates: seq<AssistResult>, tail: string, chunks: seq<string>)
    requires Flatten(chunks) == Joined(ProgressLines(updates)) + tail && '\n' !in tail
    ensures
      var st := Consume(FeedAll(Start(true), chunks));
      st.progress == ReadBack(updates) &&
      Outcome(st, false) ==
      AssistResult(false, "", "", "", "Proces pipeline nie zwrócił odpowiedzi", "", "", false, 0)
  {
    var all := Start(true).(output := Flatten(chunks));
    ChunkingIsIrrelevant(Start(true), chunks);
    assert Start(true).output + Flatten(chunks) == Flatten(chunks);
    ProgressLinesAreWhole(updates);
    ConsumeJoined(all, ProgressLines(updates), tail);
    ProgressHandled(all, updates);
    assert [] + ReadBack(updates) == ReadBack(updates);
  }

  /** A cancelled run brings nothing but that, whatever was read. */
  lemma CancelledOutcome(st: ReaderState)
    ensures Outcome(st, true) == AssistResult(false, "", "", "", "Anulowano Assist", "", "", false, 0)
  {}

  /** Of several final lines the last one counts, and progress is reported between them. */
  lemma LaterLinesCount(st: ReaderState, r: AssistResult, update: AssistResult)
    ensures Handle(st, Line(r, true)) == st.(finalOutput := Line(r, true))
    ensures Handle(st, Line(update, false)) ==
      if st.listening then st.(progress := st.progress + [Found(NAMES, update)]) else st
  {
    FlagMeaning(r, true);
    FlagMeaning(update, false);
    ParseMeaning(update, false);
  }

  /** ... and a result arrives intact, less the bytes the escaper drops, exactly when no
      search for one of its keys ends up at a different text; a final result without success
      must moreover bring an error text, or the parent puts in its own. (Only a final result
      that brings that very text can lose it and have it put back.) */
  lemma StreamRoundTrip(updates: seq<AssistResult>, last: AssistResult, chunks: seq<string>)
    requires Flatten(chunks) == Printed(updates, last)
    ensures
      var st := Consume(FeedAll(Start(true), chunks));
      (|st.progress| == |updates|) &&
      (forall i :: 0 <= i < |updates| ==>
        (st.progress[i] == Stripped(updates[i]) <==> Unambiguous(updates[i]))) &&
      (Outcome(st, false) == Stripped(last) <==>
        (Unambiguous(last) && (last.success || Strip(last.error) != "")) || PutBack(last))
  {
    DeliveredOutcome(updates, last, chunks);
    StrippedOutcome(last);
    forall i | 0 <= i < |updates|
      ensures Found(NAMES, updates[i]) == Stripped(updates[i]) <==> Unambiguous(updates[i])
    {
      FoundIsStripped(NAMES, updates[i]);
    }
  }

  /** The final result brings the parent's own error text, the search for it ends up at an empty
      field, and every other search at its own text. */
  predicate PutBackFor(names: seq<string>, r: AssistResult)
    requires |names| == FIELDS
  {
    !r.success && Strip(r.error) == UNKNOWN_ERROR &&
    Strip(Values(r)[Source(r, names[3], 3, 0)]) == "" &&
    (forall i :: 0 <= i < STRINGS && i != 3 ==>
      Strip(Values(r)[Source(r, names[i], i, 0)]) == Strip(Values(r)[i])) &&
    (r.continueConversation ==> Source(r, names[6], 6, 0) == 6) &&
    (r.audioLevel != 0 ==> Source(r, names[7], 7, 0) == 7)
  }

  predicate PutBack(r: AssistResult) { PutBackFor(NAMES, r) }

  lemma PutBackMeans(names: seq<string>, r: AssistResult)
    requires |names| == FIELDS
    ensures PutBackFor(names, r) <==>
      !r.success && Strip(r.error) == UNKNOWN_ERROR && Found(names, r) == Stripped(r).(error := "")
  {
    var found, vs := Found(names, r), Values(r);
    if found == Stripped(r).(error := "") {
      forall i | 0 <= i < STRINGS && i != 3
        ensures Strip(vs[Source(r, names[i], i, 0)]) == Strip(vs[i])
      {
        assert i == 0 || i == 1 || i == 2 || i == 4 || i == 5;
        assert FoundString(names, r, i) == Strip(vs[i]);
      }
    }
    if PutBackFor(names, r) {
      assert FoundString(names, r, 0) == Strip(vs[0]) && FoundString(names, r, 1) == Strip(vs[1]);
      assert FoundString(names, r, 2) == Strip(vs[2]) && FoundString(names, r, 3) == "";
      assert FoundString(names, r, 4) == Strip(vs[4]) && FoundString(names, r, 5) == Strip(vs[5]);
    }
  }

  lemma StrippedOutcome(r: AssistResult)
    ensures
      var found := Found(NAMES, r);
      var seen := if !r.success && found.error == "" then found.(error := UNKNOWN_ERROR) else found;
      seen == Stripped(r) <==> (Unambiguous(r) && (r.success || Strip(r.error) != "")) || PutBack(r)
  {
    var found := Found(NAMES, r);
    assert found.(error := UNKNOWN_ERROR).(error := "") == found.(error := "");
    FoundIsStripped(NAMES, r);
    PutBackMeans(NAMES, r);
  }

  lemma PlainDoesNotCollide(value: string, key: string)
    requires Clean(value) && '"' !in value && value != key
    ensures !Collides(value, key)
  {
    StripFixes(value);
    if EndsIn(value, QUOTE + key) {
      QuoteIsThere(value, key);
    }
  }

  lemma QuoteIsThere(value: string, key: string)
    requires EndsIn(value, QUOTE + key)
    ensures '"' in value
  {
    var at := |value| - |QUOTE + key|;
    assert value[at..][0] == (QUOTE + key)[0] == '"';
  }

  lemma {:induction false} SourceIsOwn(r: AssistResult, key: string, i: nat, k: nat)
    requires k <= i < FIELDS
    requires forall j :: k <= j < i && j < STRINGS ==> !Collides(Values(r)[j], key)
    ensures Source(r, key, i, k) == i
    decreases i - k
  {
    if k < i && k < STRINGS {
      SourceIsOwn(r, key, i, k + 1);
    }
  }

  predicate IsLost(r: AssistResult) {
    r == EMPTY_RESULT.(stage := "final", transcript := "error", error := UNKNOWN_ERROR)
  }

  /** A spoken "error" again: the error text is misread as the empty response, and put back. */
  lemma PutBackHappens(r: AssistResult)
    requires IsLost(r)
    ensures PutBack(r) && !Unambiguous(r)
  {
    PlainUnknown();
    SpokenErrorIsMisread(r, true);
    ParseMeaning(r, true);
    LostValues(r);
    OthersAreOwn(NAMES, r);
    OwnFields(NAMES, r);
    FoundIsStripped(NAMES, r);
    StripFixes(r.error);
    PutBackMeans(NAMES, r);
  }

  lemma PlainUnknown()
    ensures Clean(UNKNOWN_ERROR) && '"' !in UNKNOWN_ERROR && UNKNOWN_ERROR != "" && ' ' in UNKNOWN_ERROR
  {
    assert UNKNOWN_ERROR[8] == ' ';
  }

  lemma LostValues(r: AssistResult)
    requires IsLost(r)
    ensures forall j :: 0 <= j < STRINGS ==> Clean(Values(r)[j]) && '"' !in Values(r)[j]
    ensures forall i, j :: 0 <= j < STRINGS && j < i < FIELDS && i != 3 ==> Values(r)[j] != NAMES[i]
  {
    PlainUnknown();
    NamesArePlain();
    NamesDiffer();
    forall i, j | 0 <= j < STRINGS && j < i < FIELDS && i != 3
      ensures Values(r)[j] != NAMES[i]
    {
      assert NAMES[i] in NAMES && PlainKey(NAMES[i]) && NAMES[3] == "error";
    }
  }

  /** When every search but that for the error ends at its own field, all else reads back. */
  lemma OwnFields(names: seq<string>, r: AssistResult)
    requires |names| == FIELDS && forall i :: 0 <= i < FIELDS && i != 3 ==> Source(r, names[i], i, 0) == i
    ensures Found(names, r).(error := "") == Stripped(r).(error := "")
  {
    assert FoundString(names, r, 0) == Strip(r.stage) && FoundString(names, r, 1) == Strip(r.transcript);
    assert FoundString(names, r, 2) == Strip(r.response) && FoundString(names, r, 4) == Strip(r.conversationId);
    assert FoundString(names, r, 5) == Strip(r.responseType);
  }

  lemma OthersAreOwn(names: seq<string>, r: AssistResult)
    requires |names| == FIELDS
    requires forall j :: 0 <= j < STRINGS ==> Clean(Values(r)[j]) && '"' !in Values(r)[j]
    requires forall i, j :: 0 <= j < STRINGS && j < i < FIELDS && i != 3 ==> Values(r)[j] != names[i]
    ensures forall i :: 0 <= i < FIELDS && i != 3 ==> Source(r, names[i], i, 0) == i
  {
    forall i | 0 <= i < FIELDS && i != 3
      ensures Source(r, names[i], i, 0) == i
    {
      forall j | 0 <= j < i && j < STRINGS
        ensures !Collides(Values(r)[j], names[i])
      {
        PlainDoesNotCollide(Values(r)[j], names[i]);
      }
      SourceIsOwn(r, names[i], i, 0);
    }
  }
}
