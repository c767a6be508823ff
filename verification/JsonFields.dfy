/**
 * The JSON text helpers of the pipeline bridge (src/assist_pipeline_bridge.cpp:150-242):
 * the escaper, and the field readers that search for a quoted key anywhere in the text.
 */
module JsonFields {
  import opened Basics
  import opened Text

  const QUOTE := "\""

  // ---------------------------------------------------------------- escaping

  function EscapeChar(c: char): string {
    if c == '"' || c == '\\' then ['\\', c]
    else if c == '\n' then "\\n"
    else if c == '\r' then "\\r"
    else if c >= ' ' then [c]
    else ""
  }

  function Escape(value: string): string {
    if value == "" then "" else EscapeChar(value[0]) + Escape(value[1..])
  }

  /** The escaper drops control bytes other than newline and carriage return. */
  predicate Kept(c: char) { c >= ' ' || c == '\n' || c == '\r' }

  /** `value` without the bytes the escaper drops. */
  function Strip(value: string): string {
    if value == "" then ""
    else if Kept(value[0]) then [value[0]] + Strip(value[1..])
    else Strip(value[1..])
  }

  predicate Clean(value: string) { forall i :: 0 <= i < |value| ==> Kept(value[i]) }

  lemma {:induction false} EscapeAppend(a: string, c: char)
    ensures Escape(a + [c]) == Escape(a) + EscapeChar(c)
  {
    if a == "" {
      assert [c][1..] == "";
    } else {
      assert (a + [c])[1..] == a[1..] + [c];
      EscapeAppend(a[1..], c);
    }
  }

  method JsonEscape(value: string) returns (escaped: string)
    ensures escaped == Escape(value)
  {
    escaped := "";
    for i := 0 to |value|
      invariant escaped == Escape(value[..i])
    {
      var character := value[i];
      EscapeAppend(value[..i], character);
      assert value[..i + 1] == value[..i] + [character];
      if character == '"' || character == '\\' {
        escaped := escaped + ['\\'];
        escaped := escaped + [character];
      } else if character == '\n' {
        escaped := escaped + "\\n";
      } else if character == '\r' {
        escaped := escaped + "\\r";
      } else if character >= ' ' {
        escaped := escaped + [character];
      }
    }
    assert value[..|value|] == value;
  }

  lemma {:induction false} StripIsClean(value: string)
    ensures Clean(Strip(value)) && Escape(Strip(value)) == Escape(value)
  {
    if value != "" {
      StripIsClean(value[1..]);
      if Kept(value[0]) {
        assert Strip(value)[1..] == Strip(value[1..]);
      }
    }
  }

  lemma {:induction false} StripOfClean(value: string)
    requires Clean(value)
    ensures Strip(value) == value
  {
    if value != "" {
      StripOfClean(value[1..]);
    }
  }

  // ---------------------------------------------------------------- unescaping

  function UnescapeChar(c: char): char {
    if c == 'n' then '\n' else if c == 'r' then '\r' else c
  }

  /** The value read from just after an opening quote, up to the first unescaped quote. */
  function Unescape(s: string): string {
    if s == "" || s[0] == '"' then ""
    else if s[0] == '\\' then
      if |s| == 1 then "" else [UnescapeChar(s[1])] + Unescape(s[2..])
    else [s[0]] + Unescape(s[1..])
  }

  /** The same reading, begun in the middle of an escape. */
  function UnescapeFrom(escaped: bool, s: string): string {
    if !escaped then Unescape(s)
    else if s == "" then ""
    else [UnescapeChar(s[0])] + Unescape(s[1..])
  }

  /** Reading back an escaped value gives the value, less what the escaper dropped. */
  lemma {:induction false} UnescapeInvertsEscape(value: string, rest: string)
    ensures Unescape(Escape(value) + QUOTE + rest) == Strip(value)
  {
    if value != "" {
      var c, tail := value[0], Escape(value[1..]) + QUOTE + rest;
      UnescapeInvertsEscape(value[1..], rest);
      assert Escape(value) + QUOTE + rest == EscapeChar(c) + tail;
      UnescapeFirst(c, tail);
    }
  }

  lemma UnescapeFirst(c: char, tail: string)
    ensures Unescape(EscapeChar(c) + tail) == (if Kept(c) then [c] else "") + Unescape(tail)
  {
    var s := EscapeChar(c) + tail;
    if |EscapeChar(c)| == 1 {
      assert s[1..] == tail;
    } else if |EscapeChar(c)| == 2 {
      assert s[2..] == tail;
    } else {
      assert s == tail && "" + Unescape(tail) == Unescape(tail);
    }
  }

  // ---------------------------------------------------------------- field readers

  function Marker(key: string): string { QUOTE + key + QUOTE }

  /** The text after the first `"key"` and the first colon behind it. */
  function AfterKey(json: string, key: string): Option<string> {
    match After(json, Marker(key))
    case None => None
    case Some(t) => After(t, ":")
  }

  function StringAfter(json: string, key: string): string {
    match AfterKey(json, key)
    case None => ""
    case Some(t) =>
      match After(t, QUOTE)
      case None => ""
      case Some(u) => Unescape(u)
  }

  function SkipBlanks(s: string): string {
    if s != "" && (s[0] == ' ' || s[0] == '\t') then SkipBlanks(s[1..]) else s
  }

  function BoolAfter(json: string, key: string, fallback: bool): bool {
    match AfterKey(json, key)
    case None => fallback
    case Some(t) =>
      var u := SkipBlanks(t);
      if "true" <= u then true else if "false" <= u then false else fallback
  }

  function IntAfter(json: string, key: string, fallback: Int32): Int32 {
    match AfterKey(json, key)
    case None => fallback
    case Some(t) =>
      match Strtol(SkipBlanks(t))
      case None => fallback
      case Some(v) => WrapInt32(v)
  }

  /** Where the value of `key` begins: the two searches every reader starts with. */
  method FindValue(json: string, key: string) returns (r: Option<nat>)
    ensures match r
            case None => AfterKey(json, key) == None
            case Some(p) => p <= |json| && AfterKey(json, key) == Some(json[p..])
  {
    var marker := QUOTE + key + QUOTE;
    FindWhole(json, marker);
    var position := Find(json, marker, 0);
    if position == None {
      return None;
    }
    FindIsAfter(json, ":", position.value + |marker|);
    position := Find(json, ":", position.value + |marker|);
    if position == None {
      return None;
    }
    return Some(position.value + 1);
  }

  /** The reading loop with its accumulator and its flag. */
  function ReadLoop(value: string, escaped: bool, s: string): string
    decreases s
  {
    if s == "" then value
    else if escaped then ReadLoop(value + [UnescapeChar(s[0])], false, s[1..])
    else if s[0] == '\\' then ReadLoop(value, true, s[1..])
    else if s[0] == '"' then value
    else ReadLoop(value + [s[0]], false, s[1..])
  }

  lemma {:induction false} ReadLoopIsUnescape(value: string, escaped: bool, s: string)
    ensures ReadLoop(value, escaped, s) == value + UnescapeFrom(escaped, s)
    decreases |s|
  {
    if s == "" {
    } else if escaped {
      var c := UnescapeChar(s[0]);
      ReadLoopIsUnescape(value + [c], false, s[1..]);
      assert value + [c] + Unescape(s[1..]) == value + ([c] + Unescape(s[1..]));
    } else if s[0] == '\\' {
      ReadLoopIsUnescape(value, true, s[1..]);
      assert |s| > 1 ==> s[1..][1..] == s[2..];
    } else if s[0] != '"' {
      ReadLoopIsUnescape(value + [s[0]], false, s[1..]);
      assert value + [s[0]] + Unescape(s[1..]) == value + ([s[0]] + Unescape(s[1..]));
    }
  }

  /** The reading loop, from just after the opening quote. */
  method ReadString(json: string, start: nat) returns (value: string)
    requires start <= |json|
    ensures value == Unescape(json[start..])
  {
    value := "";
    var escaped := false;
    var position := start;
    while position < |json|
      invariant position <= |json|
      invariant ReadLoop(value, escaped, json[position..]) == ReadLoop("", false, json[start..])
    {
      var character := json[position];
      ghost var s := json[position..];
      assert s[0] == character && s[1..] == json[position + 1..];
      if escaped {
        if character == 'n' {
          value := value + ['\n'];
        } else if character == 'r' {
          value := value + ['\r'];
        } else {
          value := value + [character];
        }
        escaped := false;
      } else if character == '\\' {
        escaped := true;
      } else if character == '"' {
        break;
      } else {
        value := value + [character];
      }
      position := position + 1;
    }
    ReadLoopIsUnescape("", false, json[start..]);
  }

  method JsonStringAfter(json: string, key: string) returns (value: string)
    ensures value == StringAfter(json, key)
  {
    var after := FindValue(json, key);
    if after == None {
      return "";
    }
    FindIsAfter(json, QUOTE, after.value);
    var found := Find(json, QUOTE, after.value);
    if found == None {
      return "";
    }
    value := ReadString(json, found.value + 1);
  }

  method SkipBlanksFrom(json: string, start: nat) returns (position: nat)
    requires start <= |json|
    ensures start <= position <= |json| && json[position..] == SkipBlanks(json[start..])
  {
    position := start;
    while position < |json| && (json[position] == ' ' || json[position] == '\t')
      invariant start <= position <= |json|
      invariant SkipBlanks(json[position..]) == SkipBlanks(json[start..])
    {
      assert json[position..][1..] == json[position + 1..];
      position := position + 1;
    }
  }

  method JsonIntAfter(json: string, key: string, fallback: Int32) returns (value: Int32)
    ensures value == IntAfter(json, key, fallback)
  {
    var after := FindValue(json, key);
    if after == None {
      return fallback;
    }
    var position := SkipBlanksFrom(json, after.value);
    var parsed := Strtol(json[position..]);
    return if parsed == None then fallback else WrapInt32(parsed.value);
  }

  method JsonBoolAfter(json: string, key: string, fallback: bool) returns (value: bool)
    ensures value == BoolAfter(json, key, fallback)
  {
    var after := FindValue(json, key);
    if after == None {
      return fallback;
    }
    var position := SkipBlanksFrom(json, after.value);
    if "true" <= json[position..] {
      return true;
    }
    if "false" <= json[position..] {
      return false;
    }
    return fallback;
  }

  // ---------------------------------------------------------------- what the readers mean

  /** How each character is escaped. */
  lemma EscapedCharacters(c: char, later: string)
    ensures Escape([c] + later) ==
      (if c == '"' then "\\\"" else if c == '\\' then "\\\\" else if c == '\n' then "\\n"
       else if c == '\r' then "\\r" else if c as int < 32 then "" else [c]) + Escape(later)
    ensures Escape("") == ""
  {
    assert ([c] + later)[1..] == later;
  }

  /** What the reader makes of the escapes it meets: `\n` and `\r`, and any other character as
      itself. */
  lemma ReadCharacters(c: char, later: string)
    ensures Unescape(['\\', c] + later) == [if c == 'n' then '\n' else if c == 'r' then '\r' else c] + Unescape(later)
    ensures c != '"' && c != '\\' ==> Unescape([c] + later) == [c] + Unescape(later)
    ensures Unescape("\"" + later) == "" && Unescape("") == ""
  {
    assert (['\\', c] + later)[2..] == later && ([c] + later)[1..] == later;
  }

  /** Exactly the control characters but newline and carriage return are dropped. */
  lemma KeptMeans(c: char)
    ensures Kept(c) <==> c as int >= 32 || c == '\n' || c == '\r'
  {}

  /** The readers on a text in which the quoted key stands first, with a colon and blanks. */
  lemma ReadersMean(front: string, key: string, blanks: string, value: string)
    requires '"' !in front && '"' !in key && forall c :: c in blanks ==> c == ' ' || c == '\t'
    requires value != "" && value[0] != ' ' && value[0] != '\t'
    ensures
      var json := front + ("\"" + key + "\"" + (":" + (blanks + value)));
      (value[0] == '"' ==> StringAfter(json, key) == Unescape(value[1..])) &&
      (forall other :: BoolAfter(json, key, other) ==
        if "true" <= value then true else if "false" <= value then false else other) &&
      (forall other: Int32 :: IntAfter(json, key, other) ==
        match Strtol(value) case None => other case Some(v) => WrapInt32(v))
  {
    var behind := blanks + value;
    assert Marker(key)[0] == '"' && "\"" + key + "\"" == Marker(key);
    AfterSkip(front, Marker(key) + (":" + behind), Marker(key));
    AfterHere(Marker(key), ":" + behind);
    AfterHere(":", behind);
    SkipsBlanks(blanks, value);
    if value[0] == '"' {
      assert '"' !in blanks;
      AfterSkip(blanks, value, QUOTE);
      assert value == QUOTE + value[1..];
      AfterHere(QUOTE, value[1..]);
    }
  }

  lemma {:induction false} SkipsBlanks(blanks: string, s: string)
    requires forall c :: c in blanks ==> c == ' ' || c == '\t'
    requires s != "" && s[0] != ' ' && s[0] != '\t'
    ensures SkipBlanks(blanks + s) == s
  {
    if blanks == "" {
      assert blanks + s == s;
    } else {
      assert (blanks + s)[0] == blanks[0] && (blanks + s)[1..] == blanks[1..] + s;
      assert blanks[0] in blanks && forall c :: c in blanks[1..] ==> c in blanks;
      SkipsBlanks(blanks[1..], s);
    }
  }

  /** Without the quoted key, or without a colon behind it, nothing is read. */
  lemma ReadersMiss(json: string, key: string)
    requires !Contains(json, "\"" + key + "\"") || ':' !in json
    ensures StringAfter(json, key) == ""
    ensures forall other :: BoolAfter(json, key, other) == other
    ensures forall other :: IntAfter(json, key, other) == other
  {
    assert "\"" + key + "\"" == Marker(key);
    match After(json, Marker(key)) {
      case None =>
      case Some(rest) =>
        AfterIsEnd(json, Marker(key));
        AfterSkip(rest, "", ":");
        assert rest + "" == rest;
    }
  }

  lemma {:induction false} AfterIsEnd(s: string, pat: string)
    ensures After(s, pat).Some? ==> forall c :: c in After(s, pat).value ==> c in s
  {
    if !(pat <= s) && s != "" {
      AfterIsEnd(s[1..], pat);
    }
  }
}
