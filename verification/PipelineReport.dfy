/**
 * What a run of the pipeline child reports, told by its events alone
 * (src/assist_pipeline_bridge.cpp:634-708). Texts and keys are written out here, so that the
 * model of the child is held against them.
 */
module PipelineReport {
  import opened Basics
  import opened Text
  import opened JsonFields
  import opened JsonObjects
  import opened ResultLine
  import opened PipelineChild

  /** The first of the five texts that a message holds makes its kind. */
  lemma KindMeans(message: string)
    ensures KindOf(message) ==
      if Contains(message, "\"type\":\"stt-end\"") then SttEnd
      else if Contains(message, "\"type\":\"error\"") then PipelineError
      else if Contains(message, "\"type\":\"intent-end\"") then IntentEnd
      else if Contains(message, "\"type\":\"tts-start\"") then TtsStart
      else if Contains(message, "\"type\":\"tts-end\"") then TtsEnd
      else OtherMessage
  {}

  /** A message of that kind, in a frame that is neither a close (8) nor a ping (9). */
  predicate Says(e: Event, kind: Kind) {
    e.Frame? && e.opcode != 8 && e.opcode != 9 && KindOf(e.message) == kind
  }

  /** The events that leave the loop. */
  predicate Ends(e: Event) {
    e == Failed || (e.Frame? && e.opcode == 8) || Says(e, PipelineError) || Says(e, TtsEnd)
  }

  /** The events before the one that leaves the loop. */
  function Handled(events: seq<Event>): seq<Event> {
    if events == [] || Ends(events[0]) then [] else [events[0]] + Handled(events[1..])
  }

  /** The event that leaves the loop. */
  function FirstEnd(events: seq<Event>): Option<Event> {
    if events == [] then None else if Ends(events[0]) then Some(events[0]) else FirstEnd(events[1..])
  }

  // ---------------------------------------------------------------- what the events say

  /** The last message of a kind. */
  function LastSaid(events: seq<Event>, kind: Kind): Option<string> {
    if events == [] then None
    else if Says(events[|events| - 1], kind) then Some(events[|events| - 1].message)
    else LastSaid(events[..|events| - 1], kind)
  }

  /** The first text that a tts-start message announces. */
  function FirstInput(events: seq<Event>): string {
    if events == [] then ""
    else
      var e, before := events[|events| - 1], FirstInput(events[..|events| - 1]);
      if before == "" && Says(e, TtsStart) then StringAfter(e.message, "tts_input") else before
  }

  function CountStt(events: seq<Event>): nat {
    if events == [] then 0
    else CountStt(events[..|events| - 1]) + (if Says(events[|events| - 1], SttEnd) then 1 else 0)
  }

  function Pings(events: seq<Event>): seq<string> {
    if events == [] then []
    else
      var e := events[|events| - 1];
      Pings(events[..|events| - 1]) + (if e.Frame? && e.opcode == 9 then [e.message] else [])
  }

  /** The spoken response: that of the last intent-end message, or else what was announced. */
  function Response(events: seq<Event>): string {
    match LastSaid(events, IntentEnd)
    case None => FirstInput(events)
    case Some(message) =>
      var speech := StringInObject(message, "plain", "speech");
      if speech == "" then "Polecenie zostało wykonane." else speech
  }

  /** What the handled events tell. */
  function Told(conversation: string, events: seq<Event>): AssistResult {
    var intent := LastSaid(events, IntentEnd);
    var transcript := LastSaid(events, SttEnd);
    AssistResult(
      intent.Some?,
      if transcript.Some? then "transcript" else "",
      if transcript.Some? then StringAfter(transcript.value, "text") else "",
      Response(events),
      "",
      conversation,
      if intent.Some? then StringAfter(intent.value, "response_type") else "",
      intent.Some? && BoolAfter(intent.value, "continue_conversation", false),
      0)
  }

  /** The progress results: at each transcript what was told by then. */
  function Updates(conversation: string, events: seq<Event>): (updates: seq<AssistResult>)
    ensures |updates| == CountStt(events)
  {
    if events == [] then []
    else
      Updates(conversation, events[..|events| - 1]) +
      (if Says(events[|events| - 1], SttEnd) then [Told(conversation, events)] else [])
  }

  function Telling(conversation: string, events: seq<Event>): Loop {
    Loop(Told(conversation, events), "", "", Updates(conversation, events), Pings(events), false)
  }

  lemma Grows(conversation: string, events: seq<Event>, e: Event)
    ensures
      var all := events + [e];
      (forall kind :: LastSaid(all, kind) == if Says(e, kind) then Some(e.message) else LastSaid(events, kind)) &&
      FirstInput(all) == (if FirstInput(events) == "" && Says(e, TtsStart) then StringAfter(e.message, "tts_input")
                          else FirstInput(events)) &&
      Pings(all) == Pings(events) + (if e.Frame? && e.opcode == 9 then [e.message] else []) &&
      Updates(conversation, all) ==
        Updates(conversation, events) + (if Says(e, SttEnd) then [Told(conversation, all)] else [])
  {
    assert (events + [e])[..|events|] == events;
  }

  lemma TurnTells(conversation: string, events: seq<Event>, e: Event)
    requires !Ends(e)
    ensures Turn(Telling(conversation, events), e) == Telling(conversation, events + [e])
  {
    Grows(conversation, events, e);
    TurnTold(conversation, events, e);
    var updates, pongs := Updates(conversation, events), Pings(events);
    assert updates + [] == updates && pongs + [] == pongs;
  }

  lemma TurnTold(conversation: string, events: seq<Event>, e: Event)
    requires !Ends(e)
    ensures Turn(Telling(conversation, events), e).result == Told(conversation, events + [e])
  {
    var all := events + [e];
    Grows(conversation, events, e);
    ResponseGrows(events, e);
  }

  lemma ResponseGrows(events: seq<Event>, e: Event)
    ensures
      var all := events + [e];
      if Says(e, IntentEnd) then
        Response(all) == OrElse(StringInObject(e.message, "plain", "speech"), "Polecenie zostało wykonane.")
      else if Says(e, TtsStart) then
        Response(all) == OrElse(Response(events), StringAfter(e.message, "tts_input"))
      else Response(all) == Response(events)
  {
    Grows("", events, e);
    assert LastSaid(events, IntentEnd).Some? ==> Response(events) != "";
  }

  lemma {:induction false} TurnsTell(conversation: string, told: seq<Event>, events: seq<Event>)
    ensures
      var all := told + Handled(events);
      Turns(Telling(conversation, told), events) ==
      match FirstEnd(events)
      case None => Telling(conversation, all)
      case Some(e) => Turn(Telling(conversation, all), e)
    decreases |events|
  {
    if events == [] {
      assert told + [] == told;
    } else {
      var e, rest := events[0], events[1..];
      if Ends(e) {
        assert told + [] == told;
        assert Turns(Turn(Telling(conversation, told), e), rest) == Turn(Telling(conversation, told), e);
      } else {
        TurnTells(conversation, told, e);
        TurnsTell(conversation, told + [e], rest);
        Regroup(told, [e], Handled(rest));
      }
    }
  }

  // ---------------------------------------------------------------- how a run ends

  /** The value of a key in the tts-end message that leaves the loop. */
  function FromEnd(last: Option<Event>, key: string): string {
    match last
    case None => ""
    case Some(e) => if Says(e, TtsEnd) then StringAfter(e.message, key) else ""
  }

  function AudioAddress(events: seq<Event>): string { FromEnd(FirstEnd(events), "url") }

  function AudioType(events: seq<Event>): string { FromEnd(FirstEnd(events), "mime_type") }

  /** The error of a loop that ends like this, and brings no address. */
  function EndError(last: Option<Event>): string {
    match last
    case None => "Pipeline Assist przekroczył limit czasu"
    case Some(Frame(opcode, message)) =>
      if opcode == 8 then "Home Assistant zakończył połączenie"
      else if KindOf(message) == TtsEnd then "Pipeline Assist przekroczył limit czasu"
      else
        var text := StringAfter(message, "message");
        if text == "" then "Błąd pipeline Assist" else text
    case Some(_) => "Połączenie pipeline zostało zamknięte"
  }

  function LoopError(events: seq<Event>): string { EndError(FirstEnd(events)) }

  /** What leaving the loop adds. */
  lemma LastTurn(s: Loop, e: Event)
    requires Ends(e) && s.ttsUrl == "" && s.ttsMimeType == "" && s.result.error == ""
    ensures
      var t, url := Settle(Turn(s, e)), FromEnd(Some(e), "url");
      t.result == s.result.(error := if url == "" then EndError(Some(e)) else "") &&
      t.ttsUrl == url && t.ttsMimeType == FromEnd(Some(e), "mime_type") &&
      t.updates == s.updates && t.pongs == s.pongs
  {}

  /** What the loop leaves behind. */
  lemma LoopMeans(conversation: string, events: seq<Event>)
    ensures
      var t := Settle(Turns(Begin(conversation), events));
      t.result == Told(conversation, Handled(events)).(
        error := if AudioAddress(events) == "" then LoopError(events) else "") &&
      t.ttsUrl == AudioAddress(events) && t.ttsMimeType == AudioType(events) &&
      t.updates == Updates(conversation, Handled(events)) && t.pongs == Pings(Handled(events))
  {
    var s := Telling(conversation, Handled(events));
    TurnsTell(conversation, [], events);
    assert [] + Handled(events) == Handled(events);
    assert Telling(conversation, []) == Begin(conversation);
    EndIsEnd(events);
    match FirstEnd(events) {
      case None =>
      case Some(e) => LastTurn(s, e);
    }
  }

  lemma {:induction false} EndIsEnd(events: seq<Event>)
    ensures FirstEnd(events).Some? ==> Ends(FirstEnd(events).value)
  {
    if events != [] {
      EndIsEnd(events[1..]);
    }
  }

  /** On every sequence of replies, timeouts and read failures the loop ends with exactly one of
      an audio address and an error; it succeeds exactly when an intent-end message was handled,
      and then there is a response. A progress line is printed per transcript, and every ping is
      answered. */
  lemma ReplyLoopOutcome(conversation: string, events: seq<Event>)
    ensures
      var t := Settle(Turns(Begin(conversation), events));
      t.ttsUrl == AudioAddress(events) && (t.ttsUrl != "" <==> t.result.error == "") &&
      (t.result.success <==> exists e :: e in Handled(events) && Says(e, IntentEnd)) &&
      (t.result.success ==> t.result.response != "") &&
      |t.updates| == CountStt(Handled(events)) && t.pongs == Pings(Handled(events))
  {
    LoopMeans(conversation, events);
    LastIsSome(Handled(events), IntentEnd);
  }

  lemma {:induction false} LastIsSome(events: seq<Event>, kind: Kind)
    ensures LastSaid(events, kind).Some? <==> exists e :: e in events && Says(e, kind)
  {
    if events != [] {
      var n := |events| - 1;
      LastIsSome(events[..n], kind);
      assert events == events[..n] + [events[n]];
    }
  }

  // ---------------------------------------------------------------- the report

  /** Whether the answer is played. */
  predicate Plays(events: seq<Event>) {
    LastSaid(Handled(events), IntentEnd).Some? && AudioAddress(events) != "" &&
    "/api/tts_proxy/" <= AudioAddress(events) && "audio/" <= AudioType(events)
  }

  /** How often the players are announced: the one that streams, and after it the other, once the
      download is there. */
  function Announced(events: seq<Event>, players: Players): nat {
    if !Plays(events) then 0 else if players.streams || !players.downloads then 1 else 2
  }

  function LastError(events: seq<Event>, players: Players): string {
    if AudioAddress(events) == "" then LoopError(events)
    else if LastSaid(Handled(events), IntentEnd) == None then ""
    else if !Plays(events) then "Home Assistant zwrócił nieprawidłowe audio TTS"
    else if players.streams then ""
    else if !players.downloads then "Nie można pobrać odpowiedzi głosowej"
    else if players.plays then ""
    else "Nie można odtworzyć odpowiedzi głosowej"
  }

  /** Everything that a run reports, by its events and the players: every progress result, every
      field of the last one, and the exit code. */
  lemma ReportMeans(conversation: string, events: seq<Event>, players: Players)
    ensures
      var told := Told(conversation, Handled(events));
      var report := Child(AudioSent(conversation), events, players);
      report.updates == Updates(conversation, Handled(events)) +
        seq(Announced(events, players), _ => told.(stage := "playback")) &&
      report.last == told.(stage := "final", error := LastError(events, players)) &&
      report.code == if told.success then 0 else 1
  {
    var told, updates := Told(conversation, Handled(events)), Updates(conversation, Handled(events));
    LoopMeans(conversation, events);
    var report := Child(AudioSent(conversation), events, players);
    var copies := seq(Announced(events, players), _ => told.(stage := "playback"));
    if told.success && AudioAddress(events) != "" {
      var p := PlayTts(AudioAddress(events), AudioType(events), players);
      assert Repeat(told.(stage := "playback"), p.announcements) == copies;
    } else {
      assert copies == [] && updates + copies == updates;
    }
  }

  /** The runs that end before the reply loop. */
  lemma EarlyReports(events: seq<Event>, players: Players, error: string, conversation: string)
    ensures Child(NoAudio, events, players) ==
      Report([], AssistResult(false, "", "", "", "Brak danych audio", "", "", false, 0), 2)
    ensures Child(BadUrl, events, players) ==
      Report([], AssistResult(false, "", "", "", "Assist pipeline wymaga adresu HTTPS", "", "", false, 0), 2)
    ensures Child(NotConnected(error, conversation), events, players) ==
      Report([], AssistResult(false, "final", "", "", error, conversation, "", false, 0), 1)
  {}

  /** An answer that is played: one more progress line, and no error. */
  lemma PlayedAnswer(conversation: string, events: seq<Event>, players: Players)
    requires exists e :: e in Handled(events) && Says(e, IntentEnd)
    requires "/api/tts_proxy/" <= AudioAddress(events) && "audio/" <= AudioType(events) && players.streams
    ensures
      var report := Child(AudioSent(conversation), events, players);
      report.last.error == "" && |report.updates| == CountStt(Handled(events)) + 1 && report.code == 0
  {
    LastIsSome(Handled(events), IntentEnd);
    assert AudioAddress(events) != "";
    ReportMeans(conversation, events, players);
  }

  /** Whatever ends a run, the response in its last line is that of the last intent-end message
      handled: no later transcript, announcement, ping or playback replaces it. Without such a
      message it is the first text announced. */
  lemma LastIntentWins(conversation: string, events: seq<Event>, players: Players)
    ensures
      Child(AudioSent(conversation), events, players).last.response ==
      match LastSaid(Handled(events), IntentEnd)
      case Some(message) =>
        var speech := StringInObject(message, "plain", "speech");
        if speech == "" then "Polecenie zostało wykonane." else speech
      case None => FirstInput(Handled(events))
  {
    ReportMeans(conversation, events, players);
  }

  /** Absent signals, by the events: the exit code is 0 exactly when an intent-end message was
      handled. A run without success reports an error, unless a tts-end message with an address
      left the loop and no intent-end message came before it. (The standard output is `Printed`:
      one final line, the last.) */
  lemma ExitCode(setup: Setup, events: seq<Event>, players: Players)
    ensures
      var report := Child(setup, events, players);
      var intent := exists e :: e in Handled(events) && Says(e, IntentEnd);
      (report.code == 0 <==> setup.AudioSent? && intent) &&
      (report.code == 2 <==> setup.NoAudio? || setup.BadUrl?) &&
      (report.code == 0 <==> report.last.success) &&
      (report.code == 0 ==> report.last.response != "")
    ensures
      var report := Child(setup, events, players);
      var intent := exists e :: e in Handled(events) && Says(e, IntentEnd);
      report.code != 0 && report.last.error == "" <==>
      (setup.AudioSent? && AudioAddress(events) != "" && !intent) ||
      (setup.NotConnected? && setup.error == "")
  {
    LastIsSome(Handled(events), IntentEnd);
    if setup.AudioSent? {
      ReportMeans(setup.conversation, events, players);
    }
  }

  /** Such a run: a single message with an address. */
  lemma SilentFailure(conversation: string, players: Players)
    ensures
      var report := Child(AudioSent(conversation), [Frame(1, SILENT_MESSAGE)], players);
      report.code == 1 && report.last.error == ""
  {
    var events := [Frame(1, SILENT_MESSAGE)];
    SilentMessage();
    assert Ends(events[0]) && FirstEnd(events) == Some(events[0]) && Handled(events) == [];
    ExitCode(AudioSent(conversation), events, players);
  }

  const SILENT_MESSAGE := TTS_END + ",\"url\":\"/\""

  lemma SilentMessage()
    ensures KindOf(SILENT_MESSAGE) == TtsEnd && StringAfter(SILENT_MESSAGE, "url") == "/"
  {
    NotOtherKind(STT_END, 8);
    NotOtherKind(ERROR_EVENT, 8);
    NotOtherKind(INTENT_END, 8);
    NotOtherKind(TTS_START, 12);
    AfterHere(TTS_END, ",\"url\":\"/\"");
    SilentAddress();
  }

  lemma NotOtherKind(pat: string, k: nat)
    requires (pat in [STT_END, ERROR_EVENT, INTENT_END] && k == 8) || (pat == TTS_START && k == 12)
    ensures !Contains(SILENT_MESSAGE, pat)
  {
    assert SILENT_MESSAGE + "" == SILENT_MESSAGE;
    AfterPasses(SILENT_MESSAGE, "", pat, k);
  }

  lemma SilentAddress()
    ensures StringAfter(SILENT_MESSAGE, "url") == "/"
  {
    var front, rest := TTS_END + ",", ":\"/\"";
    assert SILENT_MESSAGE == front + (Marker("url") + rest);
    AfterPasses(front, Marker("url") + rest, Marker("url"), 1);
    AfterHere(Marker("url"), rest);
    AfterHere(":", "\"/\"");
    AfterHere(QUOTE, "/\"");
    assert rest == ":" + "\"/\"" && "\"/\"" == QUOTE + "/\"";
    UnescapeInvertsEscape("/", "");
    assert Escape("/") + QUOTE + "" == "/\"";
  }
}
