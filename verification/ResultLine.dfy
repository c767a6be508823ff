/**
 * The result lines that the pipeline child prints and the parent reads back
 * (src/assist_pipeline_bridge.cpp:244-256 and 792-801).
 *
 * The reader looks for `"key"` anywhere in the line, so a field value that equals a later
 * key, or ends in a quote and that key, is mistaken for the key. The lemmas say exactly
 * what every reader returns on every printed line.
 */
module ResultLine {
  import opened Basics
  import opened Text
  import opened JsonFields

  datatype AssistResult = AssistResult(
    success: bool,
    stage: string,
    transcript: string,
    response: string,
    error: string,
    conversationId: string,
    responseType: string,
    continueConversation: bool,
    audioLevel: Int32)

  const EMPTY_RESULT := AssistResult(false, "", "", "", "", "", "", false, 0)

  function BoolText(b: bool): string { if b then "true" else "false" }

  /** The fields after the two flags, in the order they are printed; the first six are strings. */
  const NAMES: seq<string> :=
    ["stage", "transcript", "response", "error", "conversation_id", "response_type",
     "continue_conversation", "audio_level"]

  const STRINGS := 6
  const FIELDS := 8

  function Values(r: AssistResult): (vs: seq<string>)
    ensures |vs| == STRINGS
  {
    [r.stage, r.transcript, r.response, r.error, r.conversationId, r.responseType]
  }

  /** The line from the key of field `k` on. */
  function Fields(names: seq<string>, r: AssistResult, k: nat): string
    requires |names| == FIELDS && k < FIELDS
    decreases FIELDS - k, 1, r
  {
    Marker(names[k]) + (":" + FromValue(names, r, k))
  }

  /** The line from the value of field `k` on. */
  function FromValue(names: seq<string>, r: AssistResult, k: nat): string
    requires |names| == FIELDS && k < FIELDS
    decreases FIELDS - k, 0, r
  {
    if k < STRINGS then QUOTE + (Escape(Values(r)[k]) + (QUOTE + ("," + Fields(names, r, k + 1))))
    else if k == STRINGS then BoolText(r.continueConversation) + ("," + Fields(names, r, k + 1))
    else Decimal(r.audioLevel) + "}"
  }

  /** The two flags, and what follows them. */
  function Head(finalResult: bool, success: bool, rest: string): string {
    "{" + (Marker("final") + (":" + (BoolText(finalResult) +
    ("," + (Marker("success") + (":" + (BoolText(success) + ("," + rest))))))))
  }

  /** The printed line, less its newline. */
  function Line(r: AssistResult, finalResult: bool): string {
    Head(finalResult, r.success, Fields(NAMES, r, 0))
  }

  function SerializeResult(r: AssistResult, finalResult: bool): string {
    Line(r, finalResult) + "\n"
  }

  /** What the child prints: its progress results and the final one. */
  function Printed(updates: seq<AssistResult>, last: AssistResult): string {
    if updates == [] then SerializeResult(last, true)
    else SerializeResult(updates[0], false) + Printed(updates[1..], last)
  }

  const SUCCESS_TRUE := "\"success\":true"
  const FINAL_TRUE := "\"final\":true"

  /** What the parent reads from one line, by the given keys. */
  function ParseWith(names: seq<string>, line: string): AssistResult
    requires |names| == FIELDS
  {
    AssistResult(
      Contains(line, SUCCESS_TRUE),
      StringAfter(line, names[0]),
      StringAfter(line, names[1]),
      StringAfter(line, names[2]),
      StringAfter(line, names[3]),
      StringAfter(line, names[4]),
      StringAfter(line, names[5]),
      BoolAfter(line, names[6], false),
      IntAfter(line, names[7], 0))
  }

  function ParseLine(line: string): AssistResult { ParseWith(NAMES, line) }

  predicate IsFinalLine(line: string) { Contains(line, FINAL_TRUE) }

  // ---------------------------------------------------------------- what a search finds

  /** `value` is mistaken for `key` when this holds. */
  predicate Collides(value: string, key: string) {
    var v := Strip(value);
    v == key || EndsIn(v, QUOTE + key)
  }

  predicate EndsIn(s: string, end: string) {
    |end| <= |s| && s[|s| - |end|..] == end
  }

  /** The field whose value a search for `key`, itself the key of field `i`, ends up at, when
      the fields before `k` did not stop it: the field after the first one that collides. */
  function Source(r: AssistResult, key: string, i: nat, k: nat): (j: nat)
    requires k <= i < FIELDS
    ensures k <= j <= i
    decreases i - k
  {
    if k == i || k >= STRINGS then i
    else if Collides(Values(r)[k], key) then k + 1
    else Source(r, key, i, k + 1)
  }

  // ---------------------------------------------------------------- where a marker is found

  /** A key as the bridge uses them: no quote, no backslash, no separator. */
  predicate PlainKey(key: string) {
    key != "" && forall i :: 0 <= i < |key| ==> 'a' <= key[i] <= 'z' || key[i] == '_'
  }

  /** Just after a quote, a quoted key matches an escaped value only if they are equal. */
  lemma {:induction false} KeyHere(value: string, key: string, rest: string)
    requires Clean(value)
    requires key == "" || PlainKey(key)
    ensures key + QUOTE <= Escape(value) + (QUOTE + rest) <==> value == key
  {
    var s := Escape(value) + (QUOTE + rest);
    if key == "" {
      assert key + QUOTE == QUOTE;
      assert s[0] == if value == "" then '"' else EscapeChar(value[0])[0];
    } else if value == "" {
      assert (key + QUOTE)[0] == key[0] != '"';
    } else {
      assert (key + QUOTE)[0] == key[0] && s[0] == EscapeChar(value[0])[0];
      if key[0] == value[0] {
        assert EscapeChar(value[0]) == [key[0]];
        assert key[1..] == "" || PlainKey(key[1..]);
        KeyHere(value[1..], key[1..], rest);
        PrefixTail(key[0], key[1..] + QUOTE, Escape(value[1..]) + (QUOTE + rest));
        assert key + QUOTE == [key[0]] + (key[1..] + QUOTE);
        assert s == [key[0]] + (Escape(value[1..]) + (QUOTE + rest));
        assert value == [value[0]] + value[1..] && key == [key[0]] + key[1..];
      }
    }
  }

  lemma PrefixTail(c: char, a: string, b: string)
    ensures [c] + a <= [c] + b <==> a <= b
  {
    PrefixCancel([c], a, b);
  }

  lemma PrefixCancel(a: string, b: string, c: string)
    ensures a + b <= a + c <==> b <= c
  {
    if b <= c {
      assert a + c == a + b + c[|b|..];
    }
    if a + b <= a + c {
      assert b == (a + b)[|a|..] && c == (a + c)[|a|..];
      assert (a + c)[..|a| + |b|] == a + b;
      assert c[..|b|] == (a + c)[|a|..|a| + |b|];
    }
  }

  lemma MarkerHere(value: string, key: string, rest: string)
    requires Clean(value) && PlainKey(key)
    ensures Marker(key) <= QUOTE + (Escape(value) + (QUOTE + rest)) <==> value == key
  {
    KeyHere(value, key, rest);
    assert Marker(key) == ['"'] + (key + QUOTE);
    PrefixTail('"', key + QUOTE, Escape(value) + (QUOTE + rest));
  }

  /** A search pattern of the readers: a quoted key, with nothing or `:...` behind it. */
  predicate Pattern(key: string, ext: string) {
    PlainKey(key) && (ext == "" || ext[0] == ':')
  }

  lemma PatternHere(value: string, key: string, ext: string, rest: string)
    requires Clean(value) && Pattern(key, ext)
    ensures Marker(key) + ext <= QUOTE + (Escape(value) + (QUOTE + rest))
            <==> value == key && ext <= rest
  {
    MarkerHere(value, key, rest);
    if value == key {
      EscapeOfPlain(key);
      MarkerSplit(key, rest);
      PrefixCancel(Marker(key), ext, rest);
    } else {
      PrefixOfPrefix(Marker(key), ext, QUOTE + (Escape(value) + (QUOTE + rest)));
    }
  }

  lemma MarkerSplit(key: string, rest: string)
    ensures Marker(key) + rest == QUOTE + (key + (QUOTE + rest))
  {}

  lemma PrefixOfPrefix(a: string, b: string, s: string)
    ensures a + b <= s ==> a <= s
  {
    if a + b <= s {
      assert s == a + (b + s[|a + b|..]);
    }
  }

  lemma {:induction false} EscapeOfPlain(key: string)
    requires key == "" || PlainKey(key)
    ensures Escape(key) == key && Clean(key) && Strip(key) == key
  {
    if key != "" {
      assert key[1..] == "" || PlainKey(key[1..]);
      EscapeOfPlain(key[1..]);
    }
    StripOfClean(key);
  }

  /** A pattern that starts with a quote is not found at any other character. */
  lemma Step(c: char, s: string, key: string, ext: string)
    requires c != '"'
    ensures After([c] + s, Marker(key) + ext) == After(s, Marker(key) + ext)
  {
    assert ([c] + s)[1..] == s;
    assert (Marker(key) + ext)[0] == '"';
  }

  /** The quote that closes a field value starts no pattern. */
  lemma StepClosing(rest: string, key: string, ext: string)
    requires Pattern(key, ext)
    ensures After(QUOTE + ("," + rest), Marker(key) + ext) == After(rest, Marker(key) + ext)
  {
    var s := QUOTE + ("," + rest);
    assert (Marker(key) + ext)[1] == key[0] && s[1] == ',';
    assert s[1..] == "," + rest;
    Step(',', rest, key, ext);
  }

  /** Searching through an escaped value and its closing quote. */
  lemma {:induction false} ScanValue(value: string, key: string, ext: string, rest: string)
    requires Clean(value) && Pattern(key, ext)
    ensures After(Escape(value) + (QUOTE + ("," + rest)), Marker(key) + ext) ==
            if ext == "" && EndsIn(value, QUOTE + key) then Some("," + rest)
            else After(rest, Marker(key) + ext)
  {
    if value == "" {
      assert Escape(value) + (QUOTE + ("," + rest)) == QUOTE + ("," + rest);
      StepClosing(rest, key, ext);
    } else {
      ScanValue(value[1..], key, ext, rest);
      EndsInTail(value, QUOTE + key);
      assert value == [value[0]] + value[1..];
      assert QUOTE + key == ['"'] + key && key == (QUOTE + key)[1..];
      ScanChar(value[0], value[1..], key, ext, rest);
    }
  }

  /** One character of an escaped value. */
  lemma ScanChar(c: char, later: string, key: string, ext: string, rest: string)
    requires Kept(c) && Clean(later) && Pattern(key, ext)
    ensures
      var t := Escape(later) + (QUOTE + ("," + rest));
      After(Escape([c] + later) + (QUOTE + ("," + rest)), Marker(key) + ext) ==
      if ext == "" && c == '"' && later == key then Some("," + rest)
      else After(t, Marker(key) + ext)
  {
    var t := Escape(later) + (QUOTE + ("," + rest));
    EscapeSplit(c, later, QUOTE + ("," + rest));
    var e := EscapeChar(c);
    if |e| == 1 {
      Step(c, t, key, ext);
    } else {
      assert e + t == [e[0]] + ([e[1]] + t);
      Step(e[0], [e[1]] + t, key, ext);
      if c == '"' {
        QuoteInside(later, key, ext, rest);
      } else {
        Step(e[1], t, key, ext);
      }
    }
  }

  lemma EscapeSplit(c: char, later: string, rest: string)
    ensures Escape([c] + later) + rest == EscapeChar(c) + (Escape(later) + rest)
  {
    assert ([c] + later)[1..] == later;
  }

  /** At a quote inside a value, or at the one that opens it. */
  lemma QuoteInside(later: string, key: string, ext: string, rest: string)
    requires Clean(later) && Pattern(key, ext)
    ensures
      var t := Escape(later) + (QUOTE + ("," + rest));
      After(QUOTE + t, Marker(key) + ext) ==
      if ext == "" && later == key then Some("," + rest) else After(t, Marker(key) + ext)
  {
    var t := Escape(later) + (QUOTE + ("," + rest));
    PatternHere(later, key, ext, "," + rest);
    if ext == "" && later == key {
      EscapeOfPlain(key);
      MarkerSplit(key, "," + rest);
      AfterHere(Marker(key), "," + rest);
      assert Marker(key) + ext == Marker(key);
    } else {
      assert (QUOTE + t)[1..] == t;
    }
  }

  lemma EndsInTail(s: string, end: string)
    requires s != ""
    ensures EndsIn(s, end) <==> s == end || EndsIn(s[1..], end)
  {
    if |end| < |s| {
      assert s[1..][|s| - 1 - |end|..] == s[|s| - |end|..];
    }
  }

  lemma NotHere(s: string, pat: string)
    requires |pat| >= 2 && |s| >= 2 && s[1] != pat[1]
    ensures After(s, pat) == After(s[1..], pat)
  {}

  lemma FoundHere(a: string, b: string, behind: string)
    requires b <= behind
    ensures After(a + behind, a + b) == Some(behind[|b|..])
  {
    PrefixCancel(a, b, behind);
    assert (a + behind)[|a + b|..] == behind[|b|..];
  }

  lemma PatternStart(key: string, ext: string)
    requires key != ""
    ensures |Marker(key) + ext| >= 2
    ensures (Marker(key) + ext)[0] == '"' && (Marker(key) + ext)[1] == key[0]
  {}

  /** Searching through a printed key that is followed by a colon. */
  lemma ScanKey(name: string, behind: string, key: string, ext: string)
    requires PlainKey(name) && Pattern(key, ext)
    requires behind != "" && behind[0] == ':'
    ensures After(Marker(name) + behind, Marker(key) + ext) ==
            if name == key && ext <= behind then Some(behind[|ext|..])
            else After(behind, Marker(key) + ext)
  {
    if name == key && ext <= behind {
      FoundHere(Marker(name), ext, behind);
    } else {
      PatternStart(key, ext);
      EscapeOfPlain(name);
      PatternHere(name, key, ext, behind);
      MarkerSplit(name, behind);
      ScanOtherKey(name, behind, Marker(key) + ext);
    }
  }

  lemma ScanOtherKey(name: string, behind: string, pat: string)
    requires behind != "" && |pat| >= 2 && pat[0] == '"' && pat[1] != behind[0]
    requires '"' !in name && !(pat <= QUOTE + (name + (QUOTE + behind)))
    ensures After(QUOTE + (name + (QUOTE + behind)), pat) == After(behind, pat)
  {
    var s := QUOTE + (name + (QUOTE + behind));
    assert s[1..] == name + (QUOTE + behind);
    AfterSkip(name, QUOTE + behind, pat);
    NotHere(QUOTE + behind, pat);
    assert (QUOTE + behind)[1..] == behind;
  }

  /** Searching through the value of a string field. */
  lemma ScanStringValue(value: string, rest: string, key: string, ext: string)
    requires Pattern(key, ext)
    ensures After(QUOTE + (Escape(value) + (QUOTE + ("," + rest))), Marker(key) + ext) ==
            if ext == "" && Collides(value, key) then Some("," + rest)
            else After(rest, Marker(key) + ext)
  {
    StripIsClean(value);
    QuoteInside(Strip(value), key, ext, rest);
    ScanValue(Strip(value), key, ext, rest);
  }

  /** Searching through the value of a flag. */
  lemma ScanFlagValue(b: bool, rest: string, key: string, ext: string)
    requires Pattern(key, ext)
    ensures After(BoolText(b) + ("," + rest), Marker(key) + ext) == After(rest, Marker(key) + ext)
  {
    assert BoolText(b) + ("," + rest) == BoolText(b) + "," + rest;
    AfterSkip(BoolText(b) + ",", rest, Marker(key) + ext);
  }

  /** What the proofs need of the list of keys. */
  predicate Keys(names: seq<string>) {
    |names| == FIELDS &&
    (forall i :: 0 <= i < FIELDS ==> PlainKey(names[i])) &&
    (forall i, j :: 0 <= i < j < FIELDS ==> names[i] != names[j])
  }

  lemma NamesAreKeys()
    ensures Keys(NAMES) && "final" !in NAMES && "success" !in NAMES
  {
    NamesArePlain();
    NamesDiffer();
  }

  lemma NamesArePlain()
    ensures forall i :: 0 <= i < FIELDS ==> PlainKey(NAMES[i])
  {}

  lemma NamesDiffer()
    ensures forall i, j :: 0 <= i < j < FIELDS ==> NAMES[i] != NAMES[j]
    ensures "final" !in NAMES && "success" !in NAMES
  {
    var lengths := [5, 10, 8, 5, 15, 13, 21, 11];
    assert forall i :: 0 <= i < FIELDS ==> |NAMES[i]| == lengths[i];
    assert NAMES[0][0] == 's' && NAMES[3][0] == 'e' && "final"[0] == 'f';
    forall i, j | 0 <= i < j < FIELDS
      ensures NAMES[i] != NAMES[j]
    {
      assert lengths[i] == lengths[j] ==> i == 0 && j == 3;
    }
  }

  /** The colon behind a marker, or behind the next key, leads to a value. */
  lemma ColonOfField(names: seq<string>, r: AssistResult, k: nat)
    requires Keys(names) && k < FIELDS
    ensures After(":" + FromValue(names, r, k), ":") == Some(FromValue(names, r, k))
    ensures After("," + Fields(names, r, k), ":") == Some(FromValue(names, r, k))
  {
    var value := FromValue(names, r, k);
    AfterHere(":", value);
    assert "," + (Marker(names[k]) + (":" + value)) == ("," + Marker(names[k])) + [':'] + value;
    AfterChar("," + Marker(names[k]), ':', value);
  }

  lemma {:induction false} ScanFields(names: seq<string>, r: AssistResult, i: nat, k: nat)
    requires Keys(names) && k <= i < FIELDS
    ensures AfterKey(Fields(names, r, k), names[i])
         == Some(FromValue(names, r, Source(r, names[i], i, k)))
    decreases i - k
  {
    var key := names[i];
    ColonOfField(names, r, k);
    ScanKey(names[k], ":" + FromValue(names, r, k), key, "");
    assert Marker(key) + "" == Marker(key);
    if k < i {
      ScanFields(names, r, i, k + 1);
      ColonOfField(names, r, k + 1);
      Step(':', FromValue(names, r, k), key, "");
      if k < STRINGS {
        ScanStringValue(Values(r)[k], Fields(names, r, k + 1), key, "");
      } else {
        ScanFlagValue(r.continueConversation, Fields(names, r, k + 1), key, "");
      }
    }
  }

  /** Searching through one printed flag. */
  lemma ScanFlag(name: string, b: bool, rest: string, key: string, ext: string)
    requires PlainKey(name) && Pattern(key, ext)
    ensures
      var behind := ":" + (BoolText(b) + ("," + rest));
      After(Marker(name) + behind, Marker(key) + ext) ==
      if name == key && ext <= behind then Some(behind[|ext|..])
      else After(rest, Marker(key) + ext)
  {
    var value := BoolText(b) + ("," + rest);
    ScanKey(name, ":" + value, key, ext);
    Step(':', value, key, ext);
    ScanFlagValue(b, rest, key, ext);
  }

  lemma ScanTwoFlags(one: string, b: bool, two: string, c: bool, rest: string, key: string, ext: string)
    requires PlainKey(one) && PlainKey(two) && Pattern(key, ext)
    ensures
      var second := ":" + (BoolText(c) + ("," + rest));
      var first := ":" + (BoolText(b) + ("," + (Marker(two) + second)));
      After("{" + (Marker(one) + first), Marker(key) + ext) ==
      if one == key && ext <= first then Some(first[|ext|..])
      else if two == key && ext <= second then Some(second[|ext|..])
      else After(rest, Marker(key) + ext)
  {
    var second := Marker(two) + (":" + (BoolText(c) + ("," + rest)));
    Step('{', Marker(one) + (":" + (BoolText(b) + ("," + second))), key, ext);
    ScanFlag(one, b, second, key, ext);
    ScanFlag(two, c, rest, key, ext);
  }

  /** Searching through the two flags at the front of the line. */
  lemma ScanHead(finalResult: bool, success: bool, rest: string, key: string, ext: string)
    requires Pattern(key, ext)
    ensures
      var pat := Marker(key) + ext;
      var second := ":" + (BoolText(success) + ("," + rest));
      var first := ":" + (BoolText(finalResult) + ("," + (Marker("success") + second)));
      After(Head(finalResult, success, rest), pat) ==
      if key == "final" && ext <= first then Some(first[|ext|..])
      else if key == "success" && ext <= second then Some(second[|ext|..])
      else After(rest, pat)
  {
    ScanTwoFlags("final", finalResult, "success", success, rest, key, ext);
  }

  lemma ScanLine(names: seq<string>, r: AssistResult, finalResult: bool, i: nat)
    requires Keys(names) && i < FIELDS && names[i] != "final" && names[i] != "success"
    ensures AfterKey(Head(finalResult, r.success, Fields(names, r, 0)), names[i])
         == Some(FromValue(names, r, Source(r, names[i], i, 0)))
  {
    assert Marker(names[i]) + "" == Marker(names[i]);
    ScanHead(finalResult, r.success, Fields(names, r, 0), names[i], "");
    ScanFields(names, r, i, 0);
  }

  /** No `"key":...` pattern of a key that is not a field matches behind the flags. */
  lemma {:induction false} NotInFields(names: seq<string>, r: AssistResult, k: nat, key: string, ext: string)
    requires Keys(names) && k < FIELDS && Pattern(key, ext) && ext != "" && key !in names
    ensures After(Fields(names, r, k), Marker(key) + ext) == None
    decreases FIELDS - k
  {
    ScanKey(names[k], ":" + FromValue(names, r, k), key, ext);
    Step(':', FromValue(names, r, k), key, ext);
    if k < STRINGS {
      ScanStringValue(Values(r)[k], Fields(names, r, k + 1), key, ext);
      NotInFields(names, r, k + 1, key, ext);
    } else if k == STRINGS {
      ScanFlagValue(r.continueConversation, Fields(names, r, k + 1), key, ext);
      NotInFields(names, r, k + 1, key, ext);
    } else {
      DecimalCharacters(r.audioLevel);
      AfterSkip(FromValue(names, r, k), "", Marker(key) + ext);
      assert FromValue(names, r, k) + "" == FromValue(names, r, k);
    }
  }

  lemma DecimalCharacters(n: Int32)
    ensures Decimal(n) != ""
    ensures forall i :: 0 <= i < |Decimal(n)| ==> Decimal(n)[i] == '-' || IsDigit(Decimal(n)[i])
  {
    var wide: int := n;
    DecimalNatDigits(if wide < 0 then -wide else wide);
  }

  // ---------------------------------------------------------------- the meaning of every reader

  lemma ReadsString(json: string, key: string, value: string, rest: string)
    requires AfterKey(json, key) == Some(QUOTE + (Escape(value) + (QUOTE + rest)))
    ensures StringAfter(json, key) == Strip(value)
    ensures BoolAfter(json, key, false) == false && IntAfter(json, key, 0) == 0
  {
    var inner := Escape(value) + (QUOTE + rest);
    AfterHere(QUOTE, inner);
    UnescapeInvertsEscape(value, rest);
    assert inner == Escape(value) + QUOTE + rest;
    ReadsNoNumber(QUOTE + inner);
  }

  lemma ReadsNoNumber(text: string)
    requires text != "" && text[0] in ['"', 't', 'f']
    ensures SkipBlanks(text) == text && Strtol(text) == None
  {
    assert SkipSpace(text) == text;
    assert DigitRun(text) == 0;
  }

  lemma ReadsFlag(json: string, key: string, b: bool, rest: string)
    requires AfterKey(json, key) == Some(BoolText(b) + rest)
    ensures BoolAfter(json, key, false) == b && IntAfter(json, key, 0) == 0
  {
    ReadsNoNumber(BoolText(b) + rest);
    if !b {
      assert (BoolText(b) + rest)[0] == 'f';
    }
  }

  lemma ReadsInt(json: string, key: string, n: Int32)
    requires AfterKey(json, key) == Some(Decimal(n) + "}")
    ensures IntAfter(json, key, 0) == n
  {
    DecimalCharacters(n);
    NoBlanks(Decimal(n), "}");
    StrtolReadsDecimal(n, "}");
  }

  lemma NoBlanks(a: string, b: string)
    requires a != "" && a[0] != ' ' && a[0] != '\t'
    ensures SkipBlanks(a + b) == a + b
  {}

  /** What the readers return for a key list of the required kind. */
  lemma FieldMeaning(names: seq<string>, r: AssistResult, finalResult: bool, i: nat)
    requires Keys(names) && i < FIELDS && names[i] != "final" && names[i] != "success"
    ensures
      var line := Head(finalResult, r.success, Fields(names, r, 0));
      var j := Source(r, names[i], i, 0);
      (j < STRINGS ==> StringAfter(line, names[i]) == Strip(Values(r)[j])) &&
      BoolAfter(line, names[i], false) == (j == 6 && r.continueConversation) &&
      (j < 7 ==> IntAfter(line, names[i], 0) == 0) &&
      (j == 7 ==> IntAfter(line, names[i], 0) == r.audioLevel)
    {
    var line := Head(finalResult, r.success, Fields(names, r, 0));
    var j := Source(r, names[i], i, 0);
    ScanLine(names, r, finalResult, i);
    if j == 7 {
      ReadsInt(line, names[i], r.audioLevel);
      ReadsNoFlag(line, names[i], r.audioLevel);
    } else if j == 6 {
      ReadsFlag(line, names[i], r.continueConversation, "," + Fields(names, r, 7));
    } else {
      ReadsString(line, names[i], Values(r)[j], "," + Fields(names, r, j + 1));
    }
  }

  lemma ReadsNoFlag(json: string, key: string, n: Int32)
    requires AfterKey(json, key) == Some(Decimal(n) + "}")
    ensures BoolAfter(json, key, false) == false
  {
    DecimalCharacters(n);
    NoBlanks(Decimal(n), "}");
    assert (Decimal(n) + "}")[0] == Decimal(n)[0];
  }

  lemma TrueBehindColon(b: bool, rest: string)
    ensures ":true" <= ":" + (BoolText(b) + rest) <==> b
  {
    PrefixCancel(":", "true", BoolText(b) + rest);
    assert ":" + "true" == ":true";
    if !b {
      assert (BoolText(b) + rest)[0] == 'f';
    }
  }

  lemma FlagPatterns()
    ensures SUCCESS_TRUE == Marker("success") + ":true"
    ensures FINAL_TRUE == Marker("final") + ":true"
    ensures PlainKey("success") && PlainKey("final") && "success" != "final"
  {}

  lemma FlagsOf(finalResult: bool, success: bool, rest: string)
    requires After(rest, SUCCESS_TRUE) == None && After(rest, FINAL_TRUE) == None
    ensures Contains(Head(finalResult, success, rest), SUCCESS_TRUE) == success
    ensures Contains(Head(finalResult, success, rest), FINAL_TRUE) == finalResult
  {
    FlagPatterns();
    ScanHead(finalResult, success, rest, "success", ":true");
    ScanHead(finalResult, success, rest, "final", ":true");
    TrueBehindColon(success, "," + rest);
    TrueBehindColon(finalResult, "," + (Marker("success") + (":" + (BoolText(success) + ("," + rest)))));
  }

  /** The two flags are right for all string contents. */
  lemma FlagMeaning(r: AssistResult, finalResult: bool)
    ensures IsFinalLine(Line(r, finalResult)) == finalResult
    ensures Contains(Line(r, finalResult), SUCCESS_TRUE) == r.success
  {
    NamesAreKeys();
    FlagPatterns();
    NotInFields(NAMES, r, 0, "final", ":true");
    NotInFields(NAMES, r, 0, "success", ":true");
    FlagsOf(finalResult, r.success, Fields(NAMES, r, 0));
  }

  /** The result made of what the searches for `names` end up at. */
  function Found(names: seq<string>, r: AssistResult): AssistResult
    requires |names| == FIELDS
  {
    AssistResult(r.success,
      FoundString(names, r, 0), FoundString(names, r, 1), FoundString(names, r, 2),
      FoundString(names, r, 3), FoundString(names, r, 4), FoundString(names, r, 5),
      Source(r, names[6], 6, 0) == 6 && r.continueConversation,
      if Source(r, names[7], 7, 0) == 7 then r.audioLevel else 0)
  }

  function FoundString(names: seq<string>, r: AssistResult, i: nat): string
    requires |names| == FIELDS && i < STRINGS
  {
    Strip(Values(r)[Source(r, names[i], i, 0)])
  }

  lemma ParseWithMeaning(names: seq<string>, r: AssistResult, finalResult: bool)
    requires Keys(names) && "final" !in names && "success" !in names
    ensures
      var line := Head(finalResult, r.success, Fields(names, r, 0));
      ParseWith(names, line) == Found(names, r).(success := Contains(line, SUCCESS_TRUE))
  {
    FieldMeaning(names, r, finalResult, 0);
    FieldMeaning(names, r, finalResult, 1);
    FieldMeaning(names, r, finalResult, 2);
    FieldMeaning(names, r, finalResult, 3);
    FieldMeaning(names, r, finalResult, 4);
    FieldMeaning(names, r, finalResult, 5);
    FieldMeaning(names, r, finalResult, 6);
    FieldMeaning(names, r, finalResult, 7);
  }

  /** What the parent reads from any printed line, whatever the strings in it contain: every
      string is that of `Source`, less the dropped bytes. */
  lemma ParseMeaning(r: AssistResult, finalResult: bool)
    ensures ParseLine(Line(r, finalResult)) == Found(NAMES, r)
  {
    NamesAreKeys();
    ParseWithMeaning(NAMES, r, finalResult);
    FlagMeaning(r, finalResult);
  }

  // ---------------------------------------------------------------- printing and reading back

  /** The result without the bytes the escaper drops. */
  function Stripped(r: AssistResult): AssistResult {
    r.(stage := Strip(r.stage), transcript := Strip(r.transcript), response := Strip(r.response),
       error := Strip(r.error), conversationId := Strip(r.conversationId),
       responseType := Strip(r.responseType))
  }

  /** Every search ends at its own field, or at a field with the same text. */
  predicate UnambiguousFor(names: seq<string>, r: AssistResult)
    requires |names| == FIELDS
  {
    (forall i :: 0 <= i < STRINGS ==>
      Strip(Values(r)[Source(r, names[i], i, 0)]) == Strip(Values(r)[i])) &&
    (r.continueConversation ==> Source(r, names[6], 6, 0) == 6) &&
    (r.audioLevel != 0 ==> Source(r, names[7], 7, 0) == 7)
  }

  predicate Unambiguous(r: AssistResult) { UnambiguousFor(NAMES, r) }

  predicate AllClean(r: AssistResult) {
    Clean(r.stage) && Clean(r.transcript) && Clean(r.response) && Clean(r.error) &&
    Clean(r.conversationId) && Clean(r.responseType)
  }

  lemma FoundIsStripped(names: seq<string>, r: AssistResult)
    requires |names| == FIELDS
    ensures Found(names, r) == Stripped(r) <==> UnambiguousFor(names, r)
  {
    var vs := Values(r);
    if Found(names, r) == Stripped(r) {
      forall i | 0 <= i < STRINGS
        ensures Strip(vs[Source(r, names[i], i, 0)]) == Strip(vs[i])
      {
        assert i == 0 || i == 1 || i == 2 || i == 3 || i == 4 || i == 5;
        assert FoundString(names, r, i) == Strip(vs[i]);
      }
    }
    if UnambiguousFor(names, r) {
      assert FoundString(names, r, 0) == Strip(vs[0]) && FoundString(names, r, 1) == Strip(vs[1]);
      assert FoundString(names, r, 2) == Strip(vs[2]) && FoundString(names, r, 3) == Strip(vs[3]);
      assert FoundString(names, r, 4) == Strip(vs[4]) && FoundString(names, r, 5) == Strip(vs[5]);
    }
  }

  /** Exactly when a printed line is read back as what was printed, less the dropped bytes. */
  lemma ParseInvertsPrint(r: AssistResult, finalResult: bool)
    ensures ParseLine(Line(r, finalResult)) == Stripped(r) <==> Unambiguous(r)
  {
    ParseMeaning(r, finalResult);
    FoundIsStripped(NAMES, r);
  }

  lemma StripFixes(value: string)
    ensures Strip(value) == value <==> Clean(value)
    ensures Clean(Strip(value))
  {
    StripIsClean(value);
    if Clean(value) {
      StripOfClean(value);
    }
  }

  lemma StrippedFixes(r: AssistResult)
    ensures Stripped(r) == r <==> AllClean(r)
  {
    StripFixes(r.stage);
    StripFixes(r.transcript);
    StripFixes(r.response);
    StripFixes(r.error);
    StripFixes(r.conversationId);
    StripFixes(r.responseType);
  }

  lemma FoundIsClean(names: seq<string>, r: AssistResult)
    requires |names| == FIELDS
    ensures AllClean(Found(names, r))
  {
    forall i | 0 <= i < STRINGS
      ensures Clean(FoundString(names, r, i))
    {
      StripFixes(Values(r)[Source(r, names[i], i, 0)]);
    }
  }

  /** Exactly when nothing at all is lost. */
  lemma ParseIsLossless(r: AssistResult, finalResult: bool)
    ensures ParseLine(Line(r, finalResult)) == r <==> Unambiguous(r) && AllClean(r)
  {
    ParseMeaning(r, finalResult);
    FoundIsStripped(NAMES, r);
    FoundIsClean(NAMES, r);
    StrippedFixes(r);
  }

  /** A caller can avoid every misreading: no string collides with a key behind the next one,
      and none collides with the key of the level. */
  predicate NoCollision(names: seq<string>, r: AssistResult)
    requires |names| == FIELDS
  {
    forall j, i :: 0 <= j < STRINGS && j < i < FIELDS && (j + 1 < i || i == 7) ==>
      !Collides(Values(r)[j], names[i])
  }

  lemma {:induction false} SourceWithoutCollision(names: seq<string>, r: AssistResult, i: nat, k: nat)
    requires |names| == FIELDS && k <= i < FIELDS && NoCollision(names, r)
    ensures Source(r, names[i], i, k) == i
    decreases i - k
  {
    if k < i && k < STRINGS && !Collides(Values(r)[k], names[i]) {
      SourceWithoutCollision(names, r, i, k + 1);
    }
  }

  lemma NoCollisionIsUnambiguous(names: seq<string>, r: AssistResult)
    requires |names| == FIELDS && NoCollision(names, r)
    ensures UnambiguousFor(names, r)
  {
    forall i | 0 <= i < FIELDS
      ensures Source(r, names[i], i, 0) == i
    {
      SourceWithoutCollision(names, r, i, 0);
    }
  }

  /** `stage`, `transcript` and the success flag read back whatever the strings contain. */
  lemma AlwaysReadBack(r: AssistResult, finalResult: bool)
    ensures
      var parsed := ParseLine(Line(r, finalResult));
      parsed.success == r.success && parsed.stage == Strip(r.stage) &&
      parsed.transcript == Strip(r.transcript)
  {
    ParseMeaning(r, finalResult);
    FirstSources(NAMES, r);
  }

  lemma FirstSources(names: seq<string>, r: AssistResult)
    requires |names| == FIELDS
    ensures Source(r, names[0], 0, 0) == 0 && Source(r, names[1], 1, 0) == 1
  {}

  /** A search for the fourth key passes over a stage of the same length, and stops at a
      transcript that equals it. */
  lemma FourthSource(names: seq<string>, r: AssistResult)
    requires |names| == FIELDS && PlainKey(names[3]) && r.transcript == names[3]
    requires PlainKey(r.stage) && |r.stage| == |names[3]| && r.stage != names[3]
    ensures Source(r, names[3], 3, 0) == 2
  {
    EscapeOfPlain(r.stage);
    EscapeOfPlain(r.transcript);
    assert !Collides(Values(r)[0], names[3]) && Collides(Values(r)[1], names[3]);
    assert Source(r, names[3], 3, 1) == 2;
  }

  /** A spoken "error" is misread: the parent takes the response for the error text. */
  lemma SpokenErrorIsMisread(r: AssistResult, finalResult: bool)
    requires r.stage == "final" && r.transcript == "error"
    ensures ParseLine(Line(r, finalResult)).error == Strip(r.response)
  {
    ParseMeaning(r, finalResult);
    NamesArePlain();
    FlagPatterns();
    assert NAMES[3] == "error" && "final"[0] != "error"[0];
    FourthSource(NAMES, r);
    assert Values(r)[2] == r.response;
  }

  // ---------------------------------------------------------------- one line is one line

  lemma {:induction false} EscapeHasNoNewline(value: string)
    ensures '\n' !in Escape(value)
  {
    if value != "" {
      EscapeHasNoNewline(value[1..]);
    }
  }

  lemma {:induction false} FieldsHaveNoNewline(names: seq<string>, r: AssistResult, k: nat)
    requires Keys(names) && k < FIELDS
    ensures '\n' !in Fields(names, r, k)
    decreases FIELDS - k
  {
    var value := FromValue(names, r, k);
    assert PlainKey(names[k]);
    if k < STRINGS {
      EscapeHasNoNewline(Values(r)[k]);
      FieldsHaveNoNewline(names, r, k + 1);
    } else if k == STRINGS {
      FieldsHaveNoNewline(names, r, k + 1);
    } else {
      DecimalCharacters(r.audioLevel);
    }
    assert '\n' !in value;
  }

  lemma HeadHasNoNewline(finalResult: bool, success: bool, rest: string)
    requires '\n' !in rest
    ensures '\n' !in Head(finalResult, success, rest)
  {
    var second := Marker("success") + (":" + (BoolText(success) + ("," + rest)));
    assert '\n' !in Marker("success") && '\n' !in Marker("final");
    assert '\n' !in BoolText(success) && '\n' !in BoolText(finalResult);
    assert '\n' !in second;
  }

  /** A printed line holds no newline but the one that ends it. */
  lemma LineHasNoNewline(r: AssistResult, finalResult: bool)
    ensures '\n' !in Line(r, finalResult)
  {
    NamesAreKeys();
    FieldsHaveNoNewline(NAMES, r, 0);
    HeadHasNoNewline(finalResult, r.success, Fields(NAMES, r, 0));
  }

  // ---------------------------------------------------------------- the printed text

  /** A field with a text, and what follows. */
  function TextField(name: string, value: string, rest: string): string {
    ("\"" + name + "\":\"") + (Escape(value) + ("\"," + rest))
  }

  /** The printed line, key by key. */
  lemma SerializedText(r: AssistResult, finalResult: bool)
    ensures SerializeResult(r, finalResult) ==
      "{\"final\":" + ((if finalResult then "true" else "false") +
      (",\"success\":" + ((if r.success then "true" else "false") + ("," +
      TextField("stage", r.stage,
      TextField("transcript", r.transcript,
      TextField("response", r.response,
      TextField("error", r.error,
      TextField("conversation_id", r.conversationId,
      TextField("response_type", r.responseType,
      "\"continue_conversation\":" + ((if r.continueConversation then "true" else "false") +
      (",\"audio_level\":" + (Decimal(r.audioLevel) + "}"))))))))))))) + "\n"
  {
    FieldsText(r, NAMES);
    HeadText(finalResult, r.success, Fields(NAMES, r, 0));
  }

  lemma FieldsText(r: AssistResult, names: seq<string>)
    requires names == NAMES
    ensures Fields(names, r, 0) ==
      TextField("stage", r.stage,
      TextField("transcript", r.transcript,
      TextField("response", r.response,
      TextField("error", r.error,
      TextField("conversation_id", r.conversationId,
      TextField("response_type", r.responseType,
      "\"continue_conversation\":" + ((if r.continueConversation then "true" else "false") +
      (",\"audio_level\":" + (Decimal(r.audioLevel) + "}")))))))))
  {
    ThreeTexts(names, r, 0, "stage", r.stage, "transcript", r.transcript, "response", r.response);
    ThreeTexts(names, r, 3, "error", r.error, "conversation_id", r.conversationId, "response_type", r.responseType);
    FlagAndLevel(names, r, 6, "continue_conversation", "audio_level");
    FlagText(BoolText(r.continueConversation), Decimal(r.audioLevel) + "}");
  }

  lemma HeadText(finalResult: bool, success: bool, rest: string)
    ensures Head(finalResult, success, rest) ==
      "{\"final\":" + ((if finalResult then "true" else "false") +
      (",\"success\":" + ((if success then "true" else "false") + ("," + rest))))
  {
    var later := BoolText(success) + ("," + rest);
    assert "," + (Marker("success") + (":" + later)) == ",\"success\":" + later;
    var all := BoolText(finalResult) + ("," + (Marker("success") + (":" + later)));
    assert "{" + (Marker("final") + (":" + all)) == "{\"final\":" + all;
  }

  lemma ThreeTexts(
      names: seq<string>, r: AssistResult, k: nat, a: string, v: string, b: string, w: string, c: string, x: string)
    requires |names| == FIELDS && k + 2 < STRINGS
    requires names[k] == a && names[k + 1] == b && names[k + 2] == c
    requires Values(r)[k] == v && Values(r)[k + 1] == w && Values(r)[k + 2] == x
    ensures Fields(names, r, k) == TextField(a, v, TextField(b, w, TextField(c, x, Fields(names, r, k + 3))))
  {
    StringText(names, r, k, a, v);
    StringText(names, r, k + 1, b, w);
    StringText(names, r, k + 2, c, x);
  }

  lemma StringText(names: seq<string>, r: AssistResult, k: nat, name: string, value: string)
    requires |names| == FIELDS && k < STRINGS && names[k] == name && Values(r)[k] == value
    ensures Fields(names, r, k) == TextField(name, value, Fields(names, r, k + 1))
  {
    Quoted(name, Escape(value), Fields(names, r, k + 1));
  }

  lemma Quoted(name: string, value: string, rest: string)
    ensures Marker(name) + (":" + (QUOTE + (value + (QUOTE + ("," + rest))))) ==
      ("\"" + name + "\":\"") + (value + ("\"," + rest))
  {
    var closed := value + ("\"," + rest);
    assert QUOTE + ("," + rest) == "\"," + rest;
    assert ":" + (QUOTE + closed) == ":\"" + closed;
    assert Marker(name) + ":\"" == "\"" + name + "\":\"";
    Regroup(Marker(name), ":\"", closed);
  }

  lemma FlagAndLevel(names: seq<string>, r: AssistResult, k: nat, flag: string, level: string)
    requires |names| == FIELDS && k == STRINGS && names[k] == flag && names[k + 1] == level
    ensures Fields(names, r, k) ==
      Marker(flag) + (":" + (BoolText(r.continueConversation) +
      ("," + (Marker(level) + (":" + (Decimal(r.audioLevel) + "}"))))))
  {
    assert Fields(names, r, k + 1) == Marker(level) + (":" + FromValue(names, r, k + 1));
  }

  lemma FlagText(flag: string, level: string)
    ensures
      Marker("continue_conversation") + (":" + (flag + ("," + (Marker("audio_level") + (":" + level))))) ==
      "\"continue_conversation\":" + (flag + (",\"audio_level\":" + level))
  {
    LevelKey(level);
    FlagKey(flag + (",\"audio_level\":" + level));
  }

  lemma LevelKey(rest: string)
    ensures "," + (Marker("audio_level") + (":" + rest)) == ",\"audio_level\":" + rest
  {
    KeyText(",", "audio_level", rest);
    assert "," + "\"" + "audio_level" + "\":" == ",\"audio_level\":";
  }

  lemma FlagKey(rest: string)
    ensures Marker("continue_conversation") + (":" + rest) == "\"continue_conversation\":" + rest
  {
    KeyText("", "continue_conversation", rest);
    assert "\"" + "continue_conversation" + "\":" == "\"continue_conversation\":";
  }

  lemma KeyText(before: string, name: string, rest: string)
    ensures before + (Marker(name) + (":" + rest)) == (before + "\"" + name + "\":") + rest
  {}
}
