/**
 * The brace-matching scanner `json_string_in_object` (src/assist_pipeline_bridge.cpp:189-216)
 * against JSON objects as section 2 of RFC 8259 lays them out.
 */
module JsonObjects {
  import opened Basics
  import opened Text
  import opened JsonFields

  // ---------------------------------------------------------------- the scanner

  /** The scanner's variables. */
  datatype Mode = Mode(depth: int, inString: bool, escaped: bool)

  function Outside(depth: int): Mode { Mode(depth, false, false) }

  function Advance(m: Mode, c: char): Mode {
    if m.inString then
      if m.escaped then m.(escaped := false)
      else if c == '\\' then m.(escaped := true)
      else m.(inString := c != '"')
    else if c == '"' then m.(inString := true)
    else if c == '{' then m.(depth := m.depth + 1)
    else if c == '}' then m.(depth := m.depth - 1)
    else m
  }

  predicate Returns(m: Mode, c: char) {
    !m.inString && c == '}' && m.depth - 1 == 0
  }

  /** The scanner's loop over `s`: how many bytes it reads up to and including the brace at
      which it returns, if it does. */
  function Scan(s: string, m: Mode): (r: Option<nat>)
    ensures r.Some? ==> 1 <= r.value <= |s|
    decreases s
  {
    if s == "" then None
    else if Returns(m, s[0]) then Some(1)
    else Shift(1, Scan(s[1..], Advance(m, s[0])))
  }

  function Shift(n: nat, r: Option<nat>): Option<nat> {
    if r.Some? then Some(n + r.value) else None
  }

  function StringInObject(json: string, objectKey: string, valueKey: string): string {
    match After(json, Marker(objectKey))
    case None => ""
    case Some(t) =>
      match Find(t, "{", 0)
      case None => ""
      case Some(start) =>
        match Scan(t[start..], Outside(0))
        case None => ""
        case Some(n) => StringAfter(t[start..][..n], valueKey)
  }

  method FindObject(json: string, objectKey: string) returns (r: Option<nat>)
    ensures match After(json, Marker(objectKey))
            case None => r == None
            case Some(t) =>
              match Find(t, "{", 0)
              case None => r == None
              case Some(start) => r.Some? && r.value <= |json| && json[r.value..] == t[start..]
  {
    var marker := QUOTE + objectKey + QUOTE;
    FindWhole(json, marker);
    var position := Find(json, marker, 0);
    if position == None {
      return None;
    }
    var from := position.value + |marker|;
    assert After(json, marker) == Some(json[from..]);
    FindShifted(json, from, from);
    r := Find(json, "{", from);
    if r.Some? {
      assert json[from..][r.value - from..] == json[r.value..];
    }
  }

  lemma {:induction false} FindShifted(json: string, from: nat, start: nat)
    requires from <= start <= |json|
    ensures match Find(json, "{", start)
            case None => Find(json[from..], "{", start - from) == None
            case Some(i) => i >= from && Find(json[from..], "{", start - from) == Some(i - from)
    decreases |json| - start
  {
    assert json[from..][start - from..] == json[start..];
    if start < |json| {
      FindShifted(json, from, start + 1);
    }
  }

  lemma ScanStep(json: string, start: nat, position: nat, m: Mode)
    requires start <= position < |json|
    ensures Shift(position - start, Scan(json[position..], m)) ==
            if Returns(m, json[position]) then Some(position - start + 1)
            else Shift(position + 1 - start, Scan(json[position + 1..], Advance(m, json[position])))
  {
    assert json[position..][1..] == json[position + 1..];
  }

  /** The scanning loop, from the opening brace. */
  method FindClosing(json: string, start: nat) returns (r: Option<nat>)
    requires start <= |json|
    ensures r == Scan(json[start..], Outside(0))
  {
    var depth := 0;
    var inString, escaped := false, false;
    var position := start;
    while position < |json|
      invariant start <= position <= |json|
      invariant Scan(json[start..], Outside(0)) ==
                Shift(position - start, Scan(json[position..], Mode(depth, inString, escaped)))
    {
      var character := json[position];
      ScanStep(json, start, position, Mode(depth, inString, escaped));
      if inString {
        if escaped {
          escaped := false;
        } else if character == '\\' {
          escaped := true;
        } else if character == '"' {
          inString := false;
        }
      } else if character == '"' {
        inString := true;
      } else if character == '{' {
        depth := depth + 1;
      } else if character == '}' {
        depth := depth - 1;
        if depth == 0 {
          return Some(position - start + 1);
        }
      }
      position := position + 1;
    }
    return None;
  }

  method JsonStringInObject(json: string, objectKey: string, valueKey: string)
    returns (value: string)
    ensures value == StringInObject(json, objectKey, valueKey)
  {
    var start := FindObject(json, objectKey);
    if start == None {
      return "";
    }
    var length := FindClosing(json, start.value);
    if length == None {
      return "";
    }
    assert json[start.value..][..length.value] == json[start.value..start.value + length.value];
    value := JsonStringAfter(json[start.value..start.value + length.value], valueKey);
  }

  // ---------------------------------------------------------------- JSON trees

  /** A JSON value with the white space of its text; `raw` is what stands between the quotes. */
  datatype Value =
    | Atom(text: string)
    | Str(raw: string)
    | Arr(lead: string, items: Items)
    | Obj(lead: string, members: Members)

  datatype Items =
    | NoItem
    | Item(head: Value, after: string, next: string, tail: Items)

  datatype Members =
    | NoMember
    | Member(key: string, beforeColon: string, afterColon: string, value: Value,
             after: string, next: string, tail: Members)

  predicate Blank(s: string) {
    forall i :: 0 <= i < |s| ==> s[i] == ' ' || s[i] == '\t' || s[i] == '\n' || s[i] == '\r'
  }

  /** Escaped string contents: no bare quote, and every backslash takes a byte along. */
  predicate Escaped(raw: string) {
    raw == "" ||
    (if raw[0] == '\\' then |raw| >= 2 && Escaped(raw[2..]) else raw[0] != '"' && Escaped(raw[1..]))
  }

  /** `true`, `false`, `null` and the numbers: letters, digits, signs and points. */
  predicate AtomText(s: string) {
    forall i :: 0 <= i < |s| ==>
      IsDigit(s[i]) || 'a' <= s[i] <= 'z' || s[i] == 'E' || s[i] == '+' || s[i] == '-' || s[i] == '.'
  }

  predicate ValidValue(v: Value) {
    match v
    case Atom(text) => AtomText(text)
    case Str(raw) => Escaped(raw)
    case Arr(lead, items) => Blank(lead) && ValidItems(items)
    case Obj(lead, members) => Blank(lead) && ValidMembers(members)
  }

  predicate ValidItems(items: Items) {
    match items
    case NoItem => true
    case Item(head, after, next, tail) =>
      ValidValue(head) && Blank(after) && Blank(next) && ValidItems(tail)
  }

  predicate ValidMembers(members: Members) {
    match members
    case NoMember => true
    case Member(key, beforeColon, afterColon, value, after, next, tail) =>
      Escaped(key) && Blank(beforeColon) && Blank(afterColon) && ValidValue(value) &&
      Blank(after) && Blank(next) && ValidMembers(tail)
  }

  function Print(v: Value): string {
    match v
    case Atom(text) => text
    case Str(raw) => Marker(raw)
    case Arr(lead, items) => "[" + (lead + (PrintItems(items) + "]"))
    case Obj(lead, members) => "{" + (lead + (PrintMembers(members) + "}"))
  }

  function PrintItems(items: Items): string {
    match items
    case NoItem => ""
    case Item(head, after, next, tail) =>
      Print(head) + (Separator(after, !tail.NoItem?, next) + PrintItems(tail))
  }

  function PrintMembers(members: Members): string {
    match members
    case NoMember => ""
    case Member(key, beforeColon, afterColon, value, after, next, tail) =>
      Marker(key) + (beforeColon + ":" + afterColon +
      (Print(value) + (Separator(after, !tail.NoMember?, next) + PrintMembers(tail))))
  }

  function Separator(after: string, comma: bool, next: string): string {
    after + (if comma then "," else "") + next
  }

  // ---------------------------------------------------------------- scanning a tree

  /** The mode after reading all of `s`, if the scan does not return inside it. */
  function Run(s: string, m: Mode): Option<Mode>
    decreases s
  {
    if s == "" then Some(m)
    else if Returns(m, s[0]) then None
    else Run(s[1..], Advance(m, s[0]))
  }

  lemma {:induction false} RunThen(a: string, b: string, m: Mode)
    requires Run(a, m).Some?
    ensures Run(a + b, m) == Run(b, Run(a, m).value)
    ensures Scan(a + b, m) == Shift(|a|, Scan(b, Run(a, m).value))
    decreases a
  {
    if a == "" {
      assert a + b == b;
    } else {
      assert (a + b)[0] == a[0] && (a + b)[1..] == a[1..] + b;
      RunThen(a[1..], b, Advance(m, a[0]));
    }
  }

  /** Text without quotes and braces. */
  predicate Glue(s: string) { '"' !in s && '{' !in s && '}' !in s }

  lemma {:induction false} RunGlue(s: string, depth: int)
    requires Glue(s)
    ensures Run(s, Outside(depth)) == Some(Outside(depth))
  {
    if s != "" {
      RunGlue(s[1..], depth);
    }
  }

  lemma {:induction false} RunInside(raw: string, depth: int)
    requires Escaped(raw)
    ensures Run(raw + QUOTE, Mode(depth, true, false)) == Some(Outside(depth))
    decreases |raw|
  {
    var s := raw + QUOTE;
    if raw == "" {
      assert s[1..] == "";
    } else if raw[0] == '\\' {
      assert s[1..][1..] == raw[2..] + QUOTE;
      RunInside(raw[2..], depth);
    } else {
      assert s[1..] == raw[1..] + QUOTE;
      RunInside(raw[1..], depth);
    }
  }

  lemma RunString(raw: string, depth: int)
    requires Escaped(raw)
    ensures Run(Marker(raw), Outside(depth)) == Some(Outside(depth))
  {
    assert Marker(raw)[0] == '"' && Marker(raw)[1..] == raw + QUOTE;
    RunInside(raw, depth);
  }

  /** Everything of an object but its last brace. */
  function Opened(lead: string, members: Members): string {
    "{" + (lead + PrintMembers(members))
  }

  lemma {:induction false} RunOpened(lead: string, members: Members, depth: nat)
    requires Blank(lead) && ValidMembers(members)
    ensures Run(Opened(lead, members), Outside(depth)) == Some(Outside(depth + 1))
    decreases members, 2
  {
    var inner := lead + PrintMembers(members);
    assert Opened(lead, members)[1..] == inner;
    RunGlue(lead, depth + 1);
    RunThen(lead, PrintMembers(members), Outside(depth + 1));
    RunMembers(members, depth + 1);
  }

  /** A value inside an object leaves the scanner as it found it. */
  lemma {:induction false} RunTree(v: Value, depth: nat)
    requires ValidValue(v) && depth >= 1
    ensures Run(Print(v), Outside(depth)) == Some(Outside(depth))
    decreases v, 3
  {
    match v
    case Atom(text) => RunGlue(text, depth);
    case Str(raw) => RunString(raw, depth);
    case Arr(lead, items) =>
      RunItems(items, depth);
      RunArray(lead, PrintItems(items), depth);
    case Obj(lead, members) =>
      RunOpened(lead, members, depth);
      RunThen(Opened(lead, members), "}", Outside(depth));
      PrintIsOpened(lead, members);
  }

  lemma RunArray(lead: string, inner: string, depth: nat)
    requires Blank(lead) && Run(inner, Outside(depth)) == Some(Outside(depth))
    ensures Run("[" + (lead + (inner + "]")), Outside(depth)) == Some(Outside(depth))
  {
    RunGlue("]", depth);
    RunGlue("[" + lead, depth);
    Stays(inner, "]", depth);
    Stays("[" + lead, inner + "]", depth);
    assert "[" + (lead + (inner + "]")) == ("[" + lead) + (inner + "]");
  }

  /** Two texts that leave the scanner as they found it do so in sequence. */
  lemma Stays(a: string, b: string, depth: int)
    requires Run(a, Outside(depth)) == Some(Outside(depth))
    requires Run(b, Outside(depth)) == Some(Outside(depth))
    ensures Run(a + b, Outside(depth)) == Some(Outside(depth))
  {
    RunThen(a, b, Outside(depth));
  }

  lemma PrintIsOpened(lead: string, members: Members)
    ensures Print(Obj(lead, members)) == Opened(lead, members) + "}"
  {}

  lemma {:induction false} RunItems(items: Items, depth: nat)
    requires ValidItems(items) && depth >= 1
    ensures Run(PrintItems(items), Outside(depth)) == Some(Outside(depth))
    decreases items, 1
  {
    match items
    case NoItem =>
    case Item(head, after, next, tail) =>
      var glue := Separator(after, !tail.NoItem?, next);
      RunItems(tail, depth);
      RunGlue(glue, depth);
      Stays(glue, PrintItems(tail), depth);
      RunTree(head, depth);
      Stays(Print(head), glue + PrintItems(tail), depth);
  }

  lemma {:induction false} RunMembers(members: Members, depth: nat)
    requires ValidMembers(members) && depth >= 1
    ensures Run(PrintMembers(members), Outside(depth)) == Some(Outside(depth))
    decreases members, 1
  {
    match members
    case NoMember =>
    case Member(key, beforeColon, afterColon, value, after, next, tail) =>
      RunMembers(tail, depth);
      RunTree(value, depth);
      RunString(key, depth);
      RunGlue(beforeColon + ":" + afterColon, depth);
      RunGlue(Separator(after, !tail.NoMember?, next), depth);
      StaysFive(Marker(key), beforeColon + ":" + afterColon, Print(value),
        Separator(after, !tail.NoMember?, next), PrintMembers(tail), depth);
  }

  lemma StaysFive(a: string, b: string, c: string, d: string, e: string, depth: int)
    requires forall s :: s in [a, b, c, d, e] ==> Run(s, Outside(depth)) == Some(Outside(depth))
    ensures Run(a + (b + (c + (d + e))), Outside(depth)) == Some(Outside(depth))
  {
    Stays(d, e, depth);
    Stays(c, d + e, depth);
    Stays(b, c + (d + e), depth);
    Stays(a, b + (c + (d + e)), depth);
  }

  /** The scan begun at an object's opening brace stops at exactly its closing brace, whatever
      braces and quotes its strings hold and whatever follows. */
  lemma ScanStopsAtMatchingBrace(v: Value, rest: string)
    requires ValidValue(v) && v.Obj?
    ensures Scan(Print(v) + rest, Outside(0)) == Some(|Print(v)|)
  {
    RunOpened(v.lead, v.members, 0);
    PrintIsOpened(v.lead, v.members);
    RunThen(Opened(v.lead, v.members), "}" + rest, Outside(0));
    assert Print(v) + rest == Opened(v.lead, v.members) + ("}" + rest);
  }

  lemma {:induction false} ScanOfPrefix(s: string, m: Mode, k: nat)
    requires Scan(s, m).Some? && k < Scan(s, m).value
    ensures Scan(s[..k], m) == None
    decreases s
  {
    if k > 0 {
      assert s[..k][0] == s[0] && s[..k][1..] == s[1..][..k - 1];
      ScanOfPrefix(s[1..], Advance(m, s[0]), k - 1);
    }
  }

  /** An object that is cut short is never taken for a whole one. */
  lemma CutObjectIsNotFound(v: Value, k: nat)
    requires ValidValue(v) && v.Obj? && k < |Print(v)|
    ensures Scan(Print(v)[..k], Outside(0)) == None
  {
    ScanStopsAtMatchingBrace(v, "");
    assert Print(v) + "" == Print(v);
    ScanOfPrefix(Print(v), Outside(0), k);
  }

  /** The inner lookup sees the object's text and nothing else. */
  lemma LookupSeesTheObject(json: string, objectKey: string, valueKey: string,
                            gap: string, v: Value, rest: string)
    requires ValidValue(v) && v.Obj? && '{' !in gap
    requires After(json, Marker(objectKey)) == Some(gap + (Print(v) + rest))
    ensures StringInObject(json, objectKey, valueKey) == StringAfter(Print(v), valueKey)
  {
    var t := gap + (Print(v) + rest);
    AfterSkip(gap, Print(v) + rest, "{");
    FirstBrace(gap, Print(v) + rest, 0);
    assert t[|gap|..] == Print(v) + rest;
    ScanStopsAtMatchingBrace(v, rest);
    assert (Print(v) + rest)[..|Print(v)|] == Print(v);
  }

  lemma {:induction false} FirstBrace(gap: string, text: string, start: nat)
    requires '{' !in gap && text != "" && text[0] == '{' && start <= |gap|
    ensures Find(gap + text, "{", start) == Some(|gap|)
    decreases |gap| - start
  {
    var s := gap + text;
    if start < |gap| {
      assert s[start] == gap[start] && gap[start] in gap;
      FirstBrace(gap, text, start + 1);
    } else {
      assert s[start..][0] == '{';
    }
  }

  lemma {:induction false} UnescapeStops(raw: string, rest: string)
    requires Escaped(raw)
    ensures Unescape(raw + (QUOTE + rest)) == Unescape(raw)
    decreases |raw|
  {
    var s := raw + (QUOTE + rest);
    if raw == "" {
    } else if raw[0] == '\\' {
      assert s[2..] == raw[2..] + (QUOTE + rest);
      UnescapeStops(raw[2..], rest);
    } else {
      assert s[1..] == raw[1..] + (QUOTE + rest);
      UnescapeStops(raw[1..], rest);
    }
  }

  /** Reading the value of the key that a text begins with, when it is a string. */
  lemma LeadingKeyIsRead(lead: string, key: string, colon1: string, colon2: string, raw: string, end: string)
    requires '"' !in lead && ':' !in colon1 && '"' !in colon2 && Escaped(raw)
    ensures StringAfter(lead + (Marker(key) + (colon1 + [':'] + (colon2 + ['"'] + (raw + (QUOTE + end))))), key)
         == Unescape(raw)
  {
    var behind := colon2 + ['"'] + (raw + (QUOTE + end));
    AfterSkip(lead, Marker(key) + (colon1 + [':'] + behind), Marker(key));
    AfterHere(Marker(key), colon1 + [':'] + behind);
    AfterChar(colon1, ':', behind);
    AfterChar(colon2, '"', raw + (QUOTE + end));
    UnescapeStops(raw, end);
  }

  lemma FirstMemberShape(lead: string, m: Members) returns (end: string)
    requires m.Member? && m.value.Str?
    ensures Print(Obj(lead, m)) == ("{" + lead) + (Marker(m.key) + (m.beforeColon + [':'] +
            (m.afterColon + ['"'] + (m.value.raw + (QUOTE + end)))))
  {
    var later := Separator(m.after, !m.tail.NoMember?, m.next) + PrintMembers(m.tail);
    end := later + "}";
    assert Print(m.value) == Marker(m.value.raw);
    assert PrintMembers(m) == Marker(m.key) + (m.beforeColon + ":" + m.afterColon + (Marker(m.value.raw) + later));
    assert Print(Obj(lead, m)) == "{" + lead + PrintMembers(m) + "}";
  }

  /** The reply the bridge looks for: an object whose first member is the wanted string. Its
      whole value is returned, whatever escapes, braces and keys it contains. */
  lemma FirstMemberIsRead(json: string, objectKey: string, valueKey: string,
                          gap: string, v: Value, rest: string)
    requires ValidValue(v) && v.Obj? && '{' !in gap
    requires After(json, Marker(objectKey)) == Some(gap + (Print(v) + rest))
    requires v.members.Member? && v.members.key == valueKey && v.members.value.Str?
    ensures StringInObject(json, objectKey, valueKey) == Unescape(v.members.value.raw)
  {
    LookupSeesTheObject(json, objectKey, valueKey, gap, v, rest);
    var m := v.members;
    assert ValidMembers(m) && ValidValue(m.value);
    var end := FirstMemberShape(v.lead, m);
    LeadingKeyIsRead("{" + v.lead, valueKey, m.beforeColon, m.afterColon, m.value.raw, end);
  }

  /** Without the quoted key, without a brace behind it, or when the object does not end, nothing
      is found. */
  lemma ObjectIsMissing(json: string, objectKey: string, valueKey: string, gap: string, v: Value, k: nat)
    requires ValidValue(v) && v.Obj? && k < |Print(v)| && '{' !in gap
    requires
      !Contains(json, "\"" + objectKey + "\"") ||
      After(json, "\"" + objectKey + "\"").value == gap + Print(v)[..k]
    ensures StringInObject(json, objectKey, valueKey) == ""
  {
    assert "\"" + objectKey + "\"" == Marker(objectKey);
    if Contains(json, Marker(objectKey)) {
      var cut := Print(v)[..k];
      if k == 0 {
        assert gap + cut == gap;
        NoBrace(gap, 0);
      } else {
        assert cut[0] == Print(v)[0] == '{';
        FirstBrace(gap, cut, 0);
        assert (gap + cut)[|gap|..] == cut;
        CutObjectIsNotFound(v, k);
      }
    }
  }

  lemma {:induction false} NoBrace(gap: string, start: nat)
    requires '{' !in gap && start <= |gap|
    ensures Find(gap, "{", start) == None
    decreases |gap| - start
  {
    if start < |gap| {
      assert gap[start] in gap;
      NoBrace(gap, start + 1);
    }
  }
}
