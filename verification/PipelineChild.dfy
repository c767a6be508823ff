/**
 * The pipeline child from the reply loop to its last line
 * (src/assist_pipeline_bridge.cpp:457-484 and 634-708). Replies, timeouts, read failures and
 * the outcome of external players are inputs; everything that is printed is kept.
 */
module PipelineChild {
  import opened Basics
  import opened Text
  import opened JsonFields
  import opened JsonObjects
  import opened ResultLine

  // ---------------------------------------------------------------- replies

  /** One turn of the reply loop: nothing to read, a failed read, or a frame. The loop's
      deadline is the end of the list. */
  datatype Event = Quiet | Failed | Frame(opcode: nat, message: string)

  datatype Kind = SttEnd | PipelineError | IntentEnd | TtsStart | TtsEnd | OtherMessage

  const STT_END := "\"type\":\"stt-end\""
  const ERROR_EVENT := "\"type\":\"error\""
  const INTENT_END := "\"type\":\"intent-end\""
  const TTS_START := "\"type\":\"tts-start\""
  const TTS_END := "\"type\":\"tts-end\""

  function KindOf(message: string): Kind {
    if Contains(message, STT_END) then SttEnd
    else if Contains(message, ERROR_EVENT) then PipelineError
    else if Contains(message, INTENT_END) then IntentEnd
    else if Contains(message, TTS_START) then TtsStart
    else if Contains(message, TTS_END) then TtsEnd
    else OtherMessage
  }

  const OPCODE_CLOSE := 8
  const OPCODE_PING := 9

  const CLOSED := "Połączenie pipeline zostało zamknięte"
  const HUNG_UP := "Home Assistant zakończył połączenie"
  const PIPELINE_ERROR := "Błąd pipeline Assist"
  const DONE := "Polecenie zostało wykonane."
  const TIMED_OUT := "Pipeline Assist przekroczył limit czasu"

  function OrElse(text: string, fallback: string): string {
    if text == "" then fallback else text
  }

  /** The variables of the loop; `updates` are the progress results printed so far, `pongs` the
      payloads sent back. */
  datatype Loop = Loop(
    result: AssistResult,
    ttsUrl: string,
    ttsMimeType: string,
    updates: seq<AssistResult>,
    pongs: seq<string>,
    ended: bool)

  function IntentResult(r: AssistResult, message: string): AssistResult {
    r.(response := OrElse(StringInObject(message, "plain", "speech"), DONE),
       responseType := StringAfter(message, "response_type"),
       continueConversation := BoolAfter(message, "continue_conversation", false),
       success := true)
  }

  function TurnMessage(s: Loop, message: string): Loop {
    match KindOf(message)
    case SttEnd =>
      var r := s.result.(transcript := StringAfter(message, "text"), stage := "transcript");
      s.(result := r, updates := s.updates + [r])
    case PipelineError =>
      s.(result := s.result.(error := OrElse(StringAfter(message, "message"), PIPELINE_ERROR)),
         ended := true)
    case IntentEnd => s.(result := IntentResult(s.result, message))
    case TtsStart =>
      var input := StringAfter(message, "tts_input");
      if s.result.response == "" && input != "" then s.(result := s.result.(response := input)) else s
    case TtsEnd =>
      s.(ttsUrl := StringAfter(message, "url"), ttsMimeType := StringAfter(message, "mime_type"),
         ended := true)
    case OtherMessage => s
  }

  function Turn(s: Loop, e: Event): Loop {
    match e
    case Quiet => s
    case Failed => s.(result := s.result.(error := CLOSED), ended := true)
    case Frame(opcode, message) =>
      if opcode == OPCODE_PING then s.(pongs := s.pongs + [message])
      else if opcode == OPCODE_CLOSE then s.(result := s.result.(error := HUNG_UP), ended := true)
      else TurnMessage(s, message)
  }

  function Turns(s: Loop, events: seq<Event>): Loop
    decreases |events|
  {
    if events == [] || s.ended then s else Turns(Turn(s, events[0]), events[1..])
  }

  function Settle(s: Loop): Loop {
    if s.ttsUrl == "" && s.result.error == "" then s.(result := s.result.(error := TIMED_OUT)) else s
  }

  // ---------------------------------------------------------------- playback

  /** What the external players do. */
  datatype Players = Players(streams: bool, downloads: bool, plays: bool)

  datatype Playback = Playback(ok: bool, error: string, announcements: nat)

  const BAD_AUDIO := "Home Assistant zwrócił nieprawidłowe audio TTS"
  const NO_DOWNLOAD := "Nie można pobrać odpowiedzi głosowej"
  const NO_PLAYBACK := "Nie można odtworzyć odpowiedzi głosowej"

  function PlayTts(path: string, mimeType: string, players: Players): Playback {
    if !("/api/tts_proxy/" <= path) || !("audio/" <= mimeType) then Playback(false, BAD_AUDIO, 0)
    else if players.streams then Playback(true, "", 1)
    else if !players.downloads then Playback(false, NO_DOWNLOAD, 1)
    else if players.plays then Playback(true, "", 2)
    else Playback(false, NO_PLAYBACK, 2)
  }

  // ---------------------------------------------------------------- the whole child

  /** How the child gets to the reply loop: one of its checks fails with a message, or it has
      sent the audio. */
  datatype Setup =
    | NoAudio
    | BadUrl
    | NotConnected(error: string, conversation: string)
    | AudioSent(conversation: string)

  const NO_AUDIO := "Brak danych audio"
  const BAD_URL := "Assist pipeline wymaga adresu HTTPS"

  datatype Report = Report(updates: seq<AssistResult>, last: AssistResult, code: int)

  function Repeat(r: AssistResult, n: nat): (rs: seq<AssistResult>)
    ensures |rs| == n && forall i :: 0 <= i < n ==> rs[i] == r
  {
    seq(n, i => r)
  }

  lemma RepeatGrows(r: AssistResult, n: nat)
    ensures Repeat(r, n + 1) == Repeat(r, n) + [r]
  {}

  /** Playback and the last line. */
  function Finish(s: Loop, players: Players): Report {
    if s.result.success && s.ttsUrl != "" then
      var p := PlayTts(s.ttsUrl, s.ttsMimeType, players);
      var playing := s.result.(stage := "playback");
      var r := if p.ok then s.result else s.result.(error := p.error);
      Report(s.updates + Repeat(playing, p.announcements), r.(stage := "final"), 0)
    else Report(s.updates, s.result.(stage := "final"), if s.result.success then 0 else 1)
  }

  lemma FinishIgnoresEnded(s: Loop, players: Players)
    ensures Finish(s.(ended := false), players) == Finish(s, players)
  {}

  function Begin(conversation: string): Loop {
    Loop(EMPTY_RESULT.(conversationId := conversation), "", "", [], [], false)
  }

  function Child(setup: Setup, events: seq<Event>, players: Players): Report {
    match setup
    case NoAudio => Report([], EMPTY_RESULT.(error := NO_AUDIO), 2)
    case BadUrl => Report([], EMPTY_RESULT.(error := BAD_URL), 2)
    case NotConnected(error, conversation) =>
      Finish(Loop(EMPTY_RESULT.(error := error, conversationId := conversation), "", "", [], [], true), players)
    case AudioSent(conversation) => Finish(Settle(Turns(Begin(conversation), events)), players)
  }

  class ChildProcess {
    var result: AssistResult
    var ttsUrl: string
    var ttsMimeType: string
    var stdout: string
    var pongs: seq<string>
    ghost var updates: seq<AssistResult>

    ghost predicate Valid()
      reads this
    {
      stdout == Lines(updates)
    }

    constructor ()
      ensures Valid() && updates == [] && result == EMPTY_RESULT && ttsUrl == "" && ttsMimeType == ""
      ensures pongs == []
    {
      result, ttsUrl, ttsMimeType, stdout, pongs, updates := EMPTY_RESULT, "", "", "", [], [];
    }

    ghost function State(ended: bool): Loop
      reads this
    {
      Loop(result, ttsUrl, ttsMimeType, updates, pongs, ended)
    }

    method PrintProgress()
      requires Valid()
      modifies this`stdout, this`updates
      ensures Valid() && updates == old(updates) + [result]
    {
      LinesAppend(updates, result);
      stdout := stdout + SerializeResult(result, false);
      updates := updates + [result];
    }

    method HandleIntent(message: string)
      modifies this`result
      ensures result == IntentResult(old(result), message)
    {
      var response := JsonStringInObject(message, "plain", "speech");
      result := result.(response := response);
      var responseType := JsonStringAfter(message, "response_type");
      result := result.(responseType := responseType);
      var again := JsonBoolAfter(message, "continue_conversation", false);
      result := result.(continueConversation := again);
      if result.response == "" {
        result := result.(response := DONE);
      }
      result := result.(success := true);
    }

    method HandleTranscript(message: string)
      requires Valid()
      modifies this`result, this`stdout, this`updates
      ensures Valid() && updates == old(updates) + [result]
      ensures result == old(result).(transcript := StringAfter(message, "text"), stage := "transcript")
    {
      var text := JsonStringAfter(message, "text");
      result := result.(transcript := text);
      result := result.(stage := "transcript");
      PrintProgress();
    }

    method HandleError(message: string)
      modifies this`result
      ensures result == old(result).(error := OrElse(StringAfter(message, "message"), PIPELINE_ERROR))
    {
      var error := JsonStringAfter(message, "message");
      result := result.(error := error);
      if result.error == "" {
        result := result.(error := PIPELINE_ERROR);
      }
    }

    method HandleMessage(message: string) returns (ended: bool)
      requires Valid()
      modifies this
      ensures Valid()
      ensures State(ended) == TurnMessage(old(State(false)), message)
    {
      match KindOf(message) {
        case SttEnd =>
          HandleTranscript(message);
        case PipelineError =>
          HandleError(message);
          return true;
        case IntentEnd =>
          HandleIntent(message);
        case TtsStart =>
          var input := JsonStringAfter(message, "tts_input");
          if result.response == "" && input != "" {
            result := result.(response := input);
          }
        case TtsEnd =>
          ttsUrl := JsonStringAfter(message, "url");
          ttsMimeType := JsonStringAfter(message, "mime_type");
          return true;
        case OtherMessage =>
      }
      return false;
    }

    method ReplyLoop(events: seq<Event>)
      requires Valid()
      modifies this
      ensures Valid()
      ensures exists ended ::
        State(ended) == Settle(Turns(old(State(false)), events))
    {
      var ended := false;
      var i := 0;
      while i < |events| && !ended
        invariant i <= |events| && Valid()
        invariant Turns(State(ended), events[i..]) == Turns(old(State(false)), events)
      {
        var e := events[i];
        assert events[i..][0] == e && events[i..][1..] == events[i + 1..];
        i := i + 1;
        match e {
          case Quiet =>
          case Failed =>
            result := result.(error := CLOSED);
            ended := true;
          case Frame(opcode, message) =>
            if opcode == OPCODE_PING {
              pongs := pongs + [message];
            } else if opcode == OPCODE_CLOSE {
              result := result.(error := HUNG_UP);
              ended := true;
            } else {
              ended := HandleMessage(message);
            }
        }
      }
      if ttsUrl == "" && result.error == "" {
        result := result.(error := TIMED_OUT);
      }
      assert State(ended) == Settle(Turns(old(State(false)), events));
    }

    /** Playback with its progress lines. */
    method Play(players: Players)
      requires Valid()
      modifies this
      ensures Valid()
      ensures
        var p := PlayTts(old(ttsUrl), old(ttsMimeType), players);
        updates == old(updates) + Repeat(old(result).(stage := "playback"), p.announcements) &&
        result.(stage := "") ==
          (if p.ok then old(result) else old(result).(error := p.error)).(stage := "")
    {
      var p := PlayTts(ttsUrl, ttsMimeType, players);
      for i := 0 to p.announcements
        invariant Valid()
        invariant result.(stage := "playback") == old(result).(stage := "playback")
        invariant updates == old(updates) + Repeat(old(result).(stage := "playback"), i)
      {
        result := result.(stage := "playback");
        PrintProgress();
        RepeatGrows(result, i);
        Regroup(old(updates), Repeat(result, i), [result]);
      }
      if !p.ok {
        result := result.(error := p.error);
      }
    }

    /** From the end of the reply loop to the exit code. */
    method FinishUp(players: Players) returns (code: int)
      requires Valid()
      modifies this
      ensures
        var report := Finish(old(State(false)), players);
        stdout == Printed(report.updates, report.last) && code == report.code
    {
      ghost var report := Finish(State(false), players);
      if result.success && ttsUrl != "" {
        Play(players);
      }
      ghost var played := result;
      result := result.(stage := "final");
      assert result == played.(stage := "").(stage := "final");
      assert report.updates == updates && report.last == result;
      PrintFinal();
      code := if result.success then 0 else 1;
    }

    method PrintFinal()
      requires Valid()
      modifies this`stdout
      ensures stdout == Printed(updates, result)
    {
      PrintedIsLines(updates, result);
      stdout := stdout + SerializeResult(result, true);
    }

    /** The conversation, once the audio is sent. */
    method Converse(conversation: string, events: seq<Event>, players: Players) returns (code: int)
      requires Valid() && State(false) == Begin("")
      modifies this
      ensures
        var report := Finish(Settle(Turns(Begin(conversation), events)), players);
        stdout == Printed(report.updates, report.last) && code == report.code
    {
      result := result.(conversationId := conversation);
      assert State(false) == Begin(conversation);
      ReplyLoop(events);
      ghost var ended :| State(ended) == Settle(Turns(Begin(conversation), events));
      FinishIgnoresEnded(State(ended), players);
      code := FinishUp(players);
    }

    /** A check failed before anything was set up. */
    method Refuse(error: string)
      requires Valid()
      modifies this
      ensures stdout == Printed(old(updates), old(result).(error := error))
    {
      result := result.(error := error);
      PrintFinal();
    }
  }

  /** `assist_pipeline_child_main`: what reaches standard output, and the exit code. */
  method ChildMain(setup: Setup, events: seq<Event>, players: Players)
    returns (stdout: string, code: int)
    ensures
      var report := Child(setup, events, players);
      stdout == Printed(report.updates, report.last) && code == report.code
  {
    var child := new ChildProcess();
    assert child.updates == [];
    match setup {
      case NoAudio =>
        child.Refuse(NO_AUDIO);
        code := 2;
      case BadUrl =>
        child.Refuse(BAD_URL);
        code := 2;
      case NotConnected(error, conversation) =>
        child.result := child.result.(error := error, conversationId := conversation);
        code := child.FinishUp(players);
      case AudioSent(conversation) =>
        code := child.Converse(conversation, events, players);
    }
    stdout := child.stdout;
  }

  // ---------------------------------------------------------------- printed text

  function Lines(updates: seq<AssistResult>): string {
    if updates == [] then "" else SerializeResult(updates[0], false) + Lines(updates[1..])
  }

  lemma {:induction false} LinesAppend(updates: seq<AssistResult>, r: AssistResult)
    ensures Lines(updates + [r]) == Lines(updates) + SerializeResult(r, false)
  {
    if updates == [] {
      assert ([] + [r])[1..] == [];
      assert [] + [r] == [r];
    } else {
      LinesAppend(updates[1..], r);
      Regroup(SerializeResult(updates[0], false), Lines(updates[1..]), SerializeResult(r, false));
      assert (updates + [r])[1..] == updates[1..] + [r];
    }
  }

  lemma {:induction false} PrintedIsLines(updates: seq<AssistResult>, last: AssistResult)
    ensures Printed(updates, last) == Lines(updates) + SerializeResult(last, true)
  {
    if updates != [] {
      PrintedIsLines(updates[1..], last);
      Regroup(SerializeResult(updates[0], false), Lines(updates[1..]), SerializeResult(last, true));
    }
  }
}
