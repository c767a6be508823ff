/**
 * The locale validator (tools/validate-locales.js:10-60) and the runtime translator
 * (www/i18n.js:15-37): what the static check guarantees about every later lookup.
 */
module Locales {
  import opened Basics
  import opened Names
  import Decimals = Text

  /** A locale file: nested objects with leaves, which should be texts. `Other` is a number, a
      truth value or null, as `String` shows it. */
  datatype Tree = Text(text: string) | Other(shown: string, truthy: bool) | Dict(entries: Entries)

  /** The entries of an object, in their order. */
  datatype Entries = End | Entry(key: string, child: Tree, rest: Entries)

  /** What a file is flattened to. */
  type Table = map<string, Tree>

  type Parameters = map<string, string>

  /** `String(value)` */
  function Shown(value: Tree): string {
    match value
    case Text(text) => text
    case Other(shown, truthy) => shown
    case Dict(es) => "[object Object]"
  }

  // ---------------------------------------------------------------- flatten

  function Under(prefix: string, key: string): string {
    if prefix == "" then key else prefix + "." + key
  }

  const PROTO := "__proto__"

  /** `output[key] = leaf`: an assignment to that one name makes no entry. */
  function Store(output: Table, key: string, leaf: Tree): Table {
    if key == PROTO then output else output[key := leaf]
  }

  function FlattenInto(es: Entries, prefix: string, output: Table): Table
    decreases es
  {
    match es
    case End => output
    case Entry(key, child, rest) =>
      var fullKey := Under(prefix, key);
      FlattenInto(rest, prefix,
        match child
        case Dict(inner) => FlattenInto(inner, fullKey, output)
        case leaf => Store(output, fullKey, leaf))
  }

  function Flat(es: Entries): Table { FlattenInto(es, "", map[]) }

  class Output {
    var table: Table

    constructor ()
      ensures table == map[]
    {
      table := map[];
    }

    method Flatten(es: Entries, prefix: string)
      modifies this
      ensures table == FlattenInto(es, prefix, old(table))
      decreases es
    {
      var left := es;
      while left.Entry?
        invariant left == es || left < es
        invariant FlattenInto(left, prefix, table) == FlattenInto(es, prefix, old(table))
        decreases left
      {
        var fullKey := if prefix != "" then prefix + "." + left.key else left.key;
        match left.child {
          case Dict(inner) => Flatten(inner, fullKey);
          case leaf => table := Store(table, fullKey, leaf);
        }
        left := left.rest;
      }
    }
  }

  // ---------------------------------------------------------------- placeholders and interpolation

  predicate WordChar(c: char) {
    'a' <= c <= 'z' || 'A' <= c <= 'Z' || '0' <= c <= '9' || c == '_'
  }

  function WordRun(s: string): (n: nat)
    ensures n <= |s| && forall i :: 0 <= i < n ==> WordChar(s[i])
  {
    if s != "" && WordChar(s[0]) then 1 + WordRun(s[1..]) else 0
  }

  /** The name of the placeholder `{name}` that `s` begins with, if it begins with one. */
  function MatchHere(s: string): (r: Option<string>)
    ensures r.Some? ==> r.value != "" && |r.value| + 2 <= |s| && forall c :: c in r.value ==> WordChar(c)
  {
    if s == "" || s[0] != '{' then None
    else
      var n := WordRun(s[1..]);
      if n == 0 || n + 1 >= |s| || s[n + 1] != '}' then None else Some(s[1..n + 1])
  }

  /** All placeholder names of a text, from left to right, as `matchAll` finds them. */
  function Matches(text: string): (names: seq<string>)
    ensures forall i :: 0 <= i < |names| ==> names[i] != "" && ',' !in names[i]
  {
    if text == "" then []
    else
      match MatchHere(text)
      case None => Matches(text[1..])
      case Some(name) => [name] + Matches(text[|name| + 2..])
  }

  /** The validator's list: sorted. */
  function Placeholders(text: string): seq<string> { Sort(Matches(text)) }

  function Interpolate(text: string, parameters: Parameters): string {
    if text == "" then ""
    else
      match MatchHere(text)
      case None => [text[0]] + Interpolate(text[1..], parameters)
      case Some(name) =>
        (if name in parameters then parameters[name] else text[..|name| + 2]) +
        Interpolate(text[|name| + 2..], parameters)
  }

  /** A text as literal characters and placeholders. */
  datatype Token = Literal(c: char) | Hole(name: string)

  function Tokens(text: string): seq<Token> {
    if text == "" then []
    else
      match MatchHere(text)
      case None => [Literal(text[0])] + Tokens(text[1..])
      case Some(name) => [Hole(name)] + Tokens(text[|name| + 2..])
  }

  function Holes(tokens: seq<Token>): seq<string> {
    if tokens == [] then []
    else (if tokens[0].Hole? then [tokens[0].name] else []) + Holes(tokens[1..])
  }

  /** Every placeholder replaced by its parameter. */
  function Fill(tokens: seq<Token>, parameters: Parameters): string
    requires forall name :: name in Holes(tokens) ==> name in parameters
  {
    if tokens == [] then ""
    else
      (match tokens[0] case Literal(c) => [c] case Hole(name) => parameters[name]) +
      Fill(tokens[1..], parameters)
  }

  lemma {:induction false} HolesAreMatches(text: string)
    ensures Holes(Tokens(text)) == Matches(text)
    decreases |text|
  {
    if text != "" {
      match MatchHere(text) {
        case None =>
          HolesAreMatches(text[1..]);
        case Some(name) =>
          HolesAreMatches(text[|name| + 2..]);
      }
    }
  }

  /** When the parameters cover a text's placeholders, every one of them is replaced. */
  lemma {:induction false} InterpolateFills(text: string, parameters: Parameters)
    requires forall name :: name in Matches(text) ==> name in parameters
    ensures forall name :: name in Holes(Tokens(text)) ==> name in parameters
    ensures Interpolate(text, parameters) == Fill(Tokens(text), parameters)
    decreases |text|
  {
    HolesAreMatches(text);
    if text != "" {
      match MatchHere(text) {
        case None =>
          InterpolateFills(text[1..], parameters);
        case Some(name) =>
          var later := text[|name| + 2..];
          assert Matches(text) == [name] + Matches(later);
          assert name in Matches(text);
          InterpolateFills(later, parameters);
      }
    }
  }

  /** What a placeholder is: a name of one or more of [a-zA-Z0-9_] between braces. */
  predicate Name(name: string) {
    name != "" &&
    forall i :: 0 <= i < |name| ==>
      'a' <= name[i] <= 'z' || 'A' <= name[i] <= 'Z' || '0' <= name[i] <= '9' || name[i] == '_'
  }

  predicate BeginsWith(s: string, name: string) { "{" + name + "}" <= s }

  lemma {:induction false} WordRunStops(name: string, rest: string)
    requires forall i :: 0 <= i < |name| ==> WordChar(name[i])
    requires rest == "" || !WordChar(rest[0])
    ensures WordRun(name + rest) == |name|
  {
    if name == "" {
      assert name + rest == rest;
    } else {
      assert (name + rest)[1..] == name[1..] + rest;
      WordRunStops(name[1..], rest);
    }
  }

  lemma MatchAhead(s: string, name: string)
    requires Name(name) && BeginsWith(s, name)
    ensures MatchHere(s) == Some(name)
  {
    var whole, rest := "{" + name + "}", s[|name| + 1..];
    assert s[0] == whole[0] && s[|name| + 1] == whole[|name| + 1];
    assert s[1..|name| + 1] == whole[1..|name| + 1] == name;
    assert s[1..] == name + rest && rest[0] == '}';
    WordRunStops(name, rest);
  }

  /** A placeholder is seen if and only if the text begins with one. */
  lemma MatchMeans(s: string, name: string)
    ensures MatchHere(s) == Some(name) <==> Name(name) && BeginsWith(s, name)
  {
    var whole := "{" + name + "}";
    if MatchHere(s) == Some(name) {
      assert s[..|whole|] == whole;
    } else if Name(name) && BeginsWith(s, name) {
      MatchAhead(s, name);
    }
  }

  /** Up to the first brace nothing happens. */
  lemma {:induction false} PlainFront(front: string, text: string, parameters: Parameters)
    requires '{' !in front
    ensures Matches(front + text) == Matches(text)
    ensures Interpolate(front + text, parameters) == front + Interpolate(text, parameters)
  {
    if front == "" {
      assert front + text == text && front + Interpolate(text, parameters) == Interpolate(text, parameters);
    } else {
      PlainFront(front[1..], text, parameters);
      assert front + text == [front[0]] + (front[1..] + text);
      PlainStep(front[0], front[1..] + text, parameters);
      assert front == [front[0]] + front[1..];
      Regroup([front[0]], front[1..], Interpolate(text, parameters));
    }
  }

  lemma PlainStep(c: char, text: string, parameters: Parameters)
    requires c != '{'
    ensures Matches([c] + text) == Matches(text)
    ensures Interpolate([c] + text, parameters) == [c] + Interpolate(text, parameters)
  {
    assert ([c] + text)[1..] == text;
  }

  /** A text without braces has no placeholders and stays as it is. */
  lemma PlainText(text: string, parameters: Parameters)
    requires '{' !in text
    ensures Matches(text) == [] && Interpolate(text, parameters) == text
  {
    PlainFront(text, "", parameters);
    assert text + "" == text;
  }

  /** A brace that begins no placeholder stays as it is. */
  lemma LoneBrace(text: string, parameters: Parameters)
    requires text != "" && text[0] == '{' && forall name :: Name(name) ==> !BeginsWith(text, name)
    ensures Matches(text) == Matches(text[1..])
    ensures Interpolate(text, parameters) == "{" + Interpolate(text[1..], parameters)
  {
    if MatchHere(text).Some? {
      MatchMeans(text, MatchHere(text).value);
    }
  }

  /** A placeholder becomes its parameter, or stays as it is without one, and what is behind it is
      next; what the parameter holds is not looked at again. */
  lemma PlaceholderFilled(front: string, name: string, rest: string, parameters: Parameters)
    requires '{' !in front && Name(name)
    ensures
      var text := front + ("{" + name + "}" + rest);
      Matches(text) == [name] + Matches(rest) &&
      Interpolate(text, parameters) ==
        front + ((if name in parameters then parameters[name] else "{" + name + "}") + Interpolate(rest, parameters))
  {
    var whole := "{" + name + "}";
    var text := whole + rest;
    PlainFront(front, text, parameters);
    assert text[..|whole|] == whole && text[|name| + 2..] == rest;
    MatchMeans(text, name);
  }

  // ---------------------------------------------------------------- the validator

  datatype Problem =
    | MissingKey(locale: string, key: string)
    | UnexpectedKey(locale: string, key: string)
    | Mismatch(locale: string, key: string)
    | UnknownReference(key: string)

  predicate SamePlaceholders(a: string, b: string) {
    Join(Placeholders(a), ',') == Join(Placeholders(b), ',')
  }

  /** What is wrong with one locale. */
  predicate LocaleProblem(locale: string, source: Table, translations: Table, p: Problem) {
    match p
    case MissingKey(l, key) => l == locale && key in source && key !in translations
    case UnexpectedKey(l, key) => l == locale && key in translations && key !in source
    case Mismatch(l, key) =>
      l == locale && key in source && key in translations &&
      !SamePlaceholders(Shown(source[key]), Shown(translations[key]))
    case UnknownReference(key) => false
  }

  /** The checks of one locale; the keys are visited in some order. */
  method CheckLocale(locale: string, source: Table, translations: Table) returns (errors: seq<Problem>)
    ensures forall p :: p in errors <==> LocaleProblem(locale, source, translations, p)
  {
    errors := [];
    var keys := source.Keys;
    while keys != {}
      invariant keys <= source.Keys
      invariant forall p :: p in errors <==>
        p.MissingKey? && LocaleProblem(locale, source, translations, p) && p.key !in keys
      decreases keys
    {
      var key :| key in keys;
      if key !in translations {
        errors := errors + [MissingKey(locale, key)];
      }
      keys := keys - {key};
    }
    keys := translations.Keys;
    while keys != {}
      invariant keys <= translations.Keys
      invariant forall p :: p in errors <==>
        LocaleProblem(locale, source, translations, p) &&
        (p.MissingKey? || (p.UnexpectedKey? && p.key !in keys))
      decreases keys
    {
      var key :| key in keys;
      if key !in source {
        errors := errors + [UnexpectedKey(locale, key)];
      }
      keys := keys - {key};
    }
    keys := source.Keys * translations.Keys;
    while keys != {}
      invariant keys <= source.Keys * translations.Keys
      invariant forall p :: p in errors <==>
        LocaleProblem(locale, source, translations, p) &&
        (p.MissingKey? || p.UnexpectedKey? || p.key !in keys)
      decreases keys
    {
      var key :| key in keys;
      var expected := Placeholders(Shown(source[key]));
      var actual := Placeholders(Shown(translations[key]));
      if Join(expected, ',') != Join(actual, ',') {
        errors := errors + [Mismatch(locale, key)];
      }
      keys := keys - {key};
    }
  }

  datatype Locale = Locale(name: string, contents: Entries)

  predicate IsProblem(locales: seq<Locale>, source: Entries, references: seq<string>, p: Problem) {
    (exists i :: 0 <= i < |locales| && LocaleProblem(locales[i].name, Flat(source), Flat(locales[i].contents), p)) ||
    (p.UnknownReference? && p.key in references && p.key !in Flat(source))
  }

  /** The list the validator ends with, in any order. */
  ghost predicate IsReport(errors: seq<Problem>, locales: seq<Locale>, source: Entries, references: seq<string>) {
    forall p :: p in errors <==> IsProblem(locales, source, references, p)
  }

  method FlattenFile(es: Entries) returns (table: Table)
    ensures table == Flat(es)
  {
    var output := new Output();
    output.Flatten(es, "");
    table := output.table;
  }

  /** The whole validation of the locale files against the source locale, and of the keys the
      page refers to. */
  method Validate(locales: seq<Locale>, source: Entries, references: seq<string>) returns (errors: seq<Problem>)
    ensures IsReport(errors, locales, source, references)
  {
    var table := FlattenFile(source);
    errors := [];
    for i := 0 to |locales|
      invariant forall p :: p in errors <==>
        exists j :: 0 <= j < i && LocaleProblem(locales[j].name, table, Flat(locales[j].contents), p)
    {
      var translations := FlattenFile(locales[i].contents);
      var found := CheckLocale(locales[i].name, table, translations);
      errors := errors + found;
    }
    ghost var before := errors;
    for i := 0 to |references|
      invariant forall p :: p in errors <==>
        p in before || (p.UnknownReference? && p.key in references[..i] && p.key !in table)
    {
      if references[i] !in table {
        errors := errors + [UnknownReference(references[i])];
      }
      assert references[..i + 1] == references[..i] + [references[i]];
    }
    assert references[..|references|] == references;
  }

  /** The placeholders of a leaf, as the page would show it. */
  function LeafPlaceholders(leaf: Tree): seq<string> {
    match leaf
    case Text(text) => Matches(text)
    case Other(shown, truthy) => Matches(shown)
    case Dict(es) => []
  }

  lemma LeavesCompare(a: Tree, b: Tree)
    ensures SamePlaceholders(Shown(a), Shown(b)) <==>
            multiset(LeafPlaceholders(a)) == multiset(LeafPlaceholders(b))
  {
    PlainText("[object Object]", map[]);
    JoinedSortsCompare(Matches(Shown(a)), Matches(Shown(b)), ',');
  }

  /** What a report holds: the keys that one side lacks, the keys under which the two sides do not
      have the same placeholders equally often, in any order, and the unknown references. */
  lemma ReportMeans(errors: seq<Problem>, locales: seq<Locale>, source: Entries, references: seq<string>,
                    name: string, key: string)
    requires IsReport(errors, locales, source, references)
    ensures MissingKey(name, key) in errors <==>
      key in Flat(source) &&
      exists i :: 0 <= i < |locales| && locales[i].name == name && key !in Flat(locales[i].contents)
    ensures UnexpectedKey(name, key) in errors <==>
      key !in Flat(source) &&
      exists i :: 0 <= i < |locales| && locales[i].name == name && key in Flat(locales[i].contents)
    ensures Mismatch(name, key) in errors <==>
      key in Flat(source) &&
      exists i :: 0 <= i < |locales| && locales[i].name == name && key in Flat(locales[i].contents) &&
        multiset(LeafPlaceholders(Flat(source)[key])) != multiset(LeafPlaceholders(Flat(locales[i].contents)[key]))
    ensures UnknownReference(key) in errors <==> key in references && key !in Flat(source)
  {
    forall i | 0 <= i < |locales| && key in Flat(source) && key in Flat(locales[i].contents)
      ensures SamePlaceholders(Shown(Flat(source)[key]), Shown(Flat(locales[i].contents)[key])) <==>
        multiset(LeafPlaceholders(Flat(source)[key])) == multiset(LeafPlaceholders(Flat(locales[i].contents)[key]))
    {
      LeavesCompare(Flat(source)[key], Flat(locales[i].contents)[key]);
    }
    assert MissingKey(name, key) in errors <==> IsProblem(locales, source, references, MissingKey(name, key));
    assert UnexpectedKey(name, key) in errors <==> IsProblem(locales, source, references, UnexpectedKey(name, key));
    assert Mismatch(name, key) in errors <==> IsProblem(locales, source, references, Mismatch(name, key));
    assert UnknownReference(key) in errors <==> IsProblem(locales, source, references, UnknownReference(key));
  }

  /** A text with a placeholder that its translation lacks. */
  lemma MissingPlaceholder(key: string, front: string, name: string, rest: string, plain: string, errors: seq<Problem>)
    requires key != "__proto__" && '{' !in front && Name(name) && '{' !in plain
    requires
      var source := Entry(key, Text(front + ("{" + name + "}" + rest)), End);
      IsReport(errors, [Locale("en", Entry(key, Text(plain), End))], source, [])
    ensures Mismatch("en", key) in errors
  {
    var text := front + ("{" + name + "}" + rest);
    var source := Entry(key, Text(text), End);
    var locales := [Locale("en", Entry(key, Text(plain), End))];
    LoneEntry(key, Text(text));
    LoneEntry(key, Text(plain));
    ReportMeans(errors, locales, source, [], "en", key);
    PlaceholderFilled(front, name, rest, map[]);
    PlainText(plain, map[]);
    assert locales[0].name == "en";
    assert name in multiset(Matches(text));
  }

  lemma LoneEntry(key: string, leaf: Tree)
    requires !leaf.Dict? && key != "__proto__"
    ensures Flat(Entry(key, leaf, End)) == map[key := leaf]
  {
    assert FlattenInto(End, "", map[key := leaf]) == map[key := leaf];
  }

  // ---------------------------------------------------------------- the translator

  function Lookup(es: Entries, key: string): Option<Tree> {
    match es
    case End => None
    case Entry(k, child, rest) => if k == key then Some(child) else Lookup(rest, key)
  }

  /** What a property access yields: nothing, a part of the file (or a character of one of its
      texts), or the length of a text. */
  datatype Value = Undefined | Part(tree: Tree) | Length(n: nat)

  /** What objects, texts and numbers inherit: by these names, and `__proto__` in any case; and
      what a walk finds that begins with one of them. */
  datatype Engine = Engine(names: set<string>, walk: (Value, seq<string>) -> Value)

  /** The index that a property key names, if it is a decimal without leading zeros. */
  function Index(key: string): Option<nat> {
    if key != "" && (forall i :: 0 <= i < |key| ==> Decimals.IsDigit(key[i])) &&
       Decimals.DecimalNat(Decimals.DigitsValue(key)) == key
    then Some(Decimals.DigitsValue(key))
    else None
  }

  lemma IndexOfDecimal(n: nat)
    ensures Index(Decimals.DecimalNat(n)) == Some(n)
  {
    Decimals.DecimalNatDigits(n);
  }

  /** `text[key]`, if the text itself has it. */
  function TextProperty(text: string, key: string): Option<Value> {
    if key == "length" then Some(Length(|text|))
    else
      match Index(key)
      case None => None
      case Some(i) => if i < |text| then Some(Part(Text([text[i]]))) else None
  }

  /** `value && value[key]`, if that is not inherited: what is undefined or falsy stays. */
  function Own(value: Value, key: string): Option<Value> {
    match value
    case Undefined => Some(value)
    case Length(n) => if n == 0 then Some(value) else None
    case Part(Other(shown, truthy)) => if truthy then None else Some(value)
    case Part(Text(text)) => if text == "" then Some(value) else TextProperty(text, key)
    case Part(Dict(es)) =>
      match Lookup(es, key)
      case None => None
      case Some(child) => Some(Part(child))
  }

  function Walk(engine: Engine, value: Value, path: seq<string>): Value
    decreases |path|
  {
    if path == [] then value
    else
      match Own(value, path[0])
      case Some(next) => Walk(engine, next, path[1..])
      case None =>
        if path[0] in engine.names || path[0] == PROTO then engine.walk(value, path) else Undefined
  }

  function ReadPath(engine: Engine, source: Value, path: string): Value {
    Walk(engine, source, Split(path, '.'))
  }

  /** `String(value)` */
  function StringOf(value: Value): string {
    match value
    case Undefined => "undefined"
    case Part(tree) => Shown(tree)
    case Length(n) => Decimals.DecimalNat(n)
  }

  const FALLBACK := "pl"

  function Loaded(dictionaries: map<string, Entries>, language: string): Value {
    if language in dictionaries then Part(Dict(dictionaries[language])) else Undefined
  }

  function Translate(
    engine: Engine, dictionaries: map<string, Entries>, language: string, key: string, parameters: Parameters): string
  {
    var selected := ReadPath(engine, Loaded(dictionaries, language), key);
    var fallback := ReadPath(engine, Loaded(dictionaries, FALLBACK), key);
    Interpolate(
      if selected != Undefined then StringOf(selected)
      else if fallback != Undefined then StringOf(fallback)
      else key, parameters)
  }

  /** What is shown: what the chosen locale has, else what the fallback has, else the key. */
  lemma TranslationMeans(
    engine: Engine, dictionaries: map<string, Entries>, language: string, key: string, parameters: Parameters)
    ensures
      var selected := if language in dictionaries
        then ReadPath(engine, Part(Dict(dictionaries[language])), key) else Undefined;
      var fallback := if "pl" in dictionaries
        then ReadPath(engine, Part(Dict(dictionaries["pl"])), key) else Undefined;
      var value := if selected == Undefined then fallback else selected;
      var translation := Translate(engine, dictionaries, language, key, parameters);
      (value.Undefined? ==> translation == Interpolate(key, parameters)) &&
      (value.Part? && value.tree.Text? ==> translation == Interpolate(value.tree.text, parameters)) &&
      (value.Part? && value.tree.Other? ==> translation == Interpolate(value.tree.shown, parameters)) &&
      (value.Part? && value.tree.Dict? ==> translation == "[object Object]") &&
      (value.Length? ==> translation == Decimals.DecimalNat(value.n))
  {
    WalkStays(engine, Undefined, Split(key, '.'));
    PlainText("[object Object]", parameters);
    var selected := ReadPath(engine, Loaded(dictionaries, language), key);
    var fallback := ReadPath(engine, Loaded(dictionaries, FALLBACK), key);
    var value := if selected == Undefined then fallback else selected;
    if value.Length? {
      DecimalIsPlain(value.n);
      PlainText(Decimals.DecimalNat(value.n), parameters);
    }
  }

  lemma DecimalIsPlain(n: nat)
    ensures '{' !in Decimals.DecimalNat(n)
  {
    Decimals.DecimalNatDigits(n);
  }

  // ---------------------------------------------------------------- what a lookup finds

  /** The leaf at the end of a path of keys. */
  function LeafAt(es: Entries, path: seq<string>): (leaf: Option<Tree>)
    ensures leaf.Some? ==> path != [] && !leaf.value.Dict?
    decreases |path|
  {
    if path == [] then None
    else
      match Lookup(es, path[0])
      case None => None
      case Some(Dict(inner)) => LeafAt(inner, path[1..])
      case Some(leaf) => if |path| == 1 then Some(leaf) else None
  }

  /** What is found behind a leaf: the leaf itself, also behind a falsy one, or the character at
      an index. */
  function Behind(leaf: Tree, path: seq<string>): Option<Tree>
    decreases |path|
  {
    if path == [] then Some(leaf)
    else
      match leaf
      case Dict(es) => None
      case Other(shown, truthy) => if truthy then None else Some(leaf)
      case Text(text) =>
        if text == "" then Some(leaf)
        else
          match Index(path[0])
          case None => None
          case Some(i) => if i < |text| then Behind(Text([text[i]]), path[1..]) else None
  }

  ghost predicate Uninherited(engine: Engine, path: seq<string>) {
    forall part :: part in path ==> part !in engine.names && part != PROTO
  }

  lemma UninheritedTail(engine: Engine, path: seq<string>)
    requires path != [] && Uninherited(engine, path)
    ensures path[0] !in engine.names && path[0] != PROTO && Uninherited(engine, path[1..])
  {
    assert path[0] in path;
    assert forall part :: part in path[1..] ==> part in path;
  }

  lemma {:induction false} WalkStays(engine: Engine, value: Value, path: seq<string>)
    requires value in {Undefined, Part(Text(""))} ||
             (value.Part? && value.tree.Other? && !value.tree.truthy)
    ensures Walk(engine, value, path) == value
    decreases |path|
  {
    if path != [] {
      WalkStays(engine, value, path[1..]);
    }
  }

  lemma {:induction false} WalkBehind(engine: Engine, leaf: Tree, path: seq<string>, found: Tree)
    requires !leaf.Dict? && !found.Dict? && Uninherited(engine, path)
    ensures Walk(engine, Part(leaf), path) == Part(found) <==> Behind(leaf, path) == Some(found)
    decreases |path|
  {
    if path != [] {
      UninheritedTail(engine, path);
      if leaf == Text("") || (leaf.Other? && !leaf.truthy) {
        WalkStays(engine, Part(leaf), path);
      } else if leaf.Text? && path[0] == "length" {
        assert Index("length") == None by { assert !Decimals.IsDigit("length"[0]); }
        if |path| > 1 {
          assert path[1..][0] in path;
        }
      } else if leaf.Text? && TextProperty(leaf.text, path[0]).Some? {
        WalkBehind(engine, TextProperty(leaf.text, path[0]).value.tree, path[1..], found);
      }
    }
  }

  /** The first `n` keys of a path lead to a leaf, and the others from it to `found`. */
  predicate Answers(es: Entries, path: seq<string>, n: nat, found: Tree) {
    1 <= n <= |path| && LeafAt(es, path[..n]).Some? &&
    Behind(LeafAt(es, path[..n]).value, path[n..]) == Some(found)
  }

  lemma AnswersBelow(es: Entries, inner: Entries, path: seq<string>, n: nat, found: Tree)
    requires path != [] && Lookup(es, path[0]) == Some(Dict(inner))
    ensures Answers(es, path, n + 1, found) <==> Answers(inner, path[1..], n, found)
  {
    if n < |path| {
      var start := path[..n + 1];
      assert start[1..] == path[1..][..n] && path[n + 1..] == path[1..][n..];
      assert LeafAt(es, start) == LeafAt(inner, start[1..]);
    }
  }

  lemma AnswersHere(es: Entries, leaf: Tree, path: seq<string>, n: nat, found: Tree)
    requires path != [] && Lookup(es, path[0]) == Some(leaf) && !leaf.Dict?
    ensures Answers(es, path, n, found) <==> n == 1 && Behind(leaf, path[1..]) == Some(found)
  {
    if 1 <= n <= |path| {
      var start := path[..n];
      assert start[0] == path[0] && |start| == n;
      assert LeafAt(es, start) == if n == 1 then Some(leaf) else None;
    }
  }

  lemma NothingAnswers(es: Entries, path: seq<string>, n: nat, found: Tree)
    requires path != [] && Lookup(es, path[0]) == None
    ensures !Answers(es, path, n, found)
  {
    if 1 <= n <= |path| {
      assert path[..n][0] == path[0];
    }
  }

  /** Over every file and every path without inherited names: which leaf a walk finds. */
  lemma {:induction false} WalkExactly(engine: Engine, es: Entries, path: seq<string>, found: Tree)
    requires path != [] && Uninherited(engine, path) && !found.Dict?
    ensures Walk(engine, Part(Dict(es)), path) == Part(found) <==> exists n :: Answers(es, path, n, found)
    decreases |path|
  {
    UninheritedTail(engine, path);
    match Lookup(es, path[0]) {
      case None =>
        forall n: nat
          ensures !Answers(es, path, n, found)
        {
          NothingAnswers(es, path, n, found);
        }
      case Some(Dict(inner)) =>
        if |path| > 1 {
          WalkExactly(engine, inner, path[1..], found);
          if n: nat :| Answers(es, path, n, found) {
            AnswersBelow(es, inner, path, n - 1, found);
          }
          if n: nat :| Answers(inner, path[1..], n, found) {
            AnswersBelow(es, inner, path, n, found);
          }
        } else if n: nat :| Answers(es, path, n, found) {
          AnswersBelow(es, inner, path, n - 1, found);
        }
      case Some(leaf) =>
        WalkBehind(engine, leaf, path[1..], found);
        AnswersHere(es, leaf, path, 1, found);
        if n: nat :| Answers(es, path, n, found) {
          AnswersHere(es, leaf, path, n, found);
        }
    }
  }

  /** A path to a leaf is walked to that leaf, whatever is inherited. */
  lemma {:induction false} LeafIsWalked(engine: Engine, es: Entries, path: seq<string>)
    requires LeafAt(es, path).Some?
    ensures Walk(engine, Part(Dict(es)), path) == Part(LeafAt(es, path).value)
    decreases |path|
  {
    match Lookup(es, path[0]).value {
      case Dict(inner) => LeafIsWalked(engine, inner, path[1..]);
      case leaf => assert path[1..] == [];
    }
  }

  // ---------------------------------------------------------------- flattened keys

  /** The flattened key of a path below `prefix`. */
  function FlatUnder(prefix: string, path: seq<string>): string
    decreases |path|
  {
    if path == [] then prefix else FlatUnder(Under(prefix, path[0]), path[1..])
  }

  function FlatKey(path: seq<string>): string { FlatUnder("", path) }

  /** The flattened key leaves such a first key out. */
  predicate LeadingEmpty(path: seq<string>) { |path| > 1 && path[0] == "" }

  lemma {:induction false} FlatUnderIsJoin(prefix: string, path: seq<string>)
    requires prefix != "" && path != []
    ensures FlatUnder(prefix, path) == prefix + "." + Join(path, '.')
    decreases |path|
  {
    if |path| == 1 {
      assert FlatUnder(Under(prefix, path[0]), path[1..]) == Under(prefix, path[0]);
    } else {
      FlatUnderIsJoin(Under(prefix, path[0]), path[1..]);
    }
  }

  /** A flattened key is the joined path, but for empty keys at its beginning. */
  lemma {:induction false} FlatKeyShape(path: seq<string>)
    requires path != []
    ensures FlatKey(path) == if LeadingEmpty(path) then FlatKey(path[1..]) else Join(path, '.')
    ensures |FlatKey(path)| <= |Join(path, '.')|
    ensures FlatKey(path) == Join(path, '.') <==> !LeadingEmpty(path)
    decreases |path|
  {
    if LeadingEmpty(path) {
      FlatKeyShape(path[1..]);
    } else if |path| > 1 {
      FlatUnderIsJoin(path[0], path[1..]);
    } else {
      assert FlatUnder(path[0], path[1..]) == path[0];
    }
  }

  predicate HasKey(es: Entries, key: string) {
    match es
    case End => false
    case Entry(k, child, rest) => k == key || HasKey(rest, key)
  }

  /** Keys do not repeat, at any level; a parsed file is always like that. */
  predicate Unrepeated(es: Entries) {
    match es
    case End => true
    case Entry(key, child, rest) =>
      !HasKey(rest, key) && Unrepeated(rest) && (child.Dict? ==> Unrepeated(child.entries))
  }

  /** No key is empty, at any level. */
  predicate Filled(es: Entries) {
    match es
    case End => true
    case Entry(key, child, rest) =>
      key != "" && Filled(rest) && (child.Dict? ==> Filled(child.entries))
  }

  predicate DotFree(es: Entries) {
    match es
    case End => true
    case Entry(key, child, rest) =>
      '.' !in key && DotFree(rest) && (child.Dict? ==> DotFree(child.entries))
  }

  predicate WellKeyed(es: Entries) { Unrepeated(es) && Filled(es) && DotFree(es) }

  lemma {:induction false} LookupHas(es: Entries, key: string)
    ensures Lookup(es, key).Some? <==> HasKey(es, key)
  {
    if es.Entry? {
      LookupHas(es.rest, key);
    }
  }

  /** A path into the entries behind the first is one into all of them. */
  lemma LeafBehind(es: Entries, path: seq<string>)
    requires Unrepeated(es) && es.Entry? && LeafAt(es.rest, path).Some?
    ensures path[0] != es.key && LeafAt(es, path) == LeafAt(es.rest, path)
  {
    LookupHas(es.rest, path[0]);
  }

  /** Where a flattened leaf comes from: a path to it in the object, or (an empty path) the
      output there was before. */
  lemma {:induction false} FlattenTrace(es: Entries, prefix: string, output: Table, key: string)
    returns (path: seq<string>)
    requires Unrepeated(es) && key in FlattenInto(es, prefix, output)
    ensures path == [] ==> key in output && FlattenInto(es, prefix, output)[key] == output[key]
    ensures path != [] ==> key != PROTO
    ensures path != [] ==> key == FlatUnder(prefix, path)
    ensures path != [] ==> LeafAt(es, path) == Some(FlattenInto(es, prefix, output)[key])
    decreases es
  {
    match es
    case End => path := [];
    case Entry(k, child, rest) =>
      var fullKey := Under(prefix, k);
      var middle := match child
        case Dict(inner) => FlattenInto(inner, fullKey, output)
        case leaf => Store(output, fullKey, leaf);
      path := FlattenTrace(rest, prefix, middle, key);
      if path != [] {
        LeafBehind(es, path);
      } else {
        match child {
          case Dict(inner) =>
            var deeper := FlattenTrace(inner, fullKey, output, key);
            if deeper != [] {
              path := [k] + deeper;
              assert path[1..] == deeper;
            }
          case leaf =>
            if key == fullKey && key != PROTO {
              path := [k];
              assert FlatUnder(fullKey, path[1..]) == fullKey;
            }
        }
      }
  }

  lemma {:induction false} FlattenKeeps(es: Entries, prefix: string, output: Table, key: string)
    requires key in output
    ensures key in FlattenInto(es, prefix, output)
    decreases es
  {
    match es
    case End =>
    case Entry(k, child, rest) =>
      match child {
        case Dict(inner) =>
          FlattenKeeps(inner, Under(prefix, k), output, key);
          FlattenKeeps(rest, prefix, FlattenInto(inner, Under(prefix, k), output), key);
        case leaf =>
          FlattenKeeps(rest, prefix, Store(output, Under(prefix, k), leaf), key);
      }
  }

  lemma {:induction false} FlattenReaches(es: Entries, prefix: string, output: Table, path: seq<string>)
    requires Unrepeated(es) && LeafAt(es, path).Some? && FlatUnder(prefix, path) != PROTO
    ensures FlatUnder(prefix, path) in FlattenInto(es, prefix, output)
    decreases es
  {
    LookupHas(es, path[0]);
    var k, child, rest := es.key, es.child, es.rest;
    var fullKey := Under(prefix, k);
    if path[0] != k {
      var middle := match child
        case Dict(inner) => FlattenInto(inner, fullKey, output)
        case leaf => Store(output, fullKey, leaf);
      FlattenReaches(rest, prefix, middle, path);
    } else {
      match child {
        case Dict(inner) =>
          FlattenReaches(inner, fullKey, output, path[1..]);
          FlattenKeeps(rest, prefix, FlattenInto(inner, fullKey, output), FlatUnder(prefix, path));
        case leaf =>
          assert FlatUnder(fullKey, path[1..]) == fullKey;
          FlattenKeeps(rest, prefix, Store(output, fullKey, leaf), fullKey);
      }
    }
  }

  lemma {:induction false} LookupKeepsShape(es: Entries, key: string)
    requires Lookup(es, key).Some?
    ensures DotFree(es) ==> '.' !in key && (Lookup(es, key).value.Dict? ==> DotFree(Lookup(es, key).value.entries))
    ensures Filled(es) ==> key != "" && (Lookup(es, key).value.Dict? ==> Filled(Lookup(es, key).value.entries))
  {
    if es.key != key {
      LookupKeepsShape(es.rest, key);
    }
  }

  /** The keys on a path to a leaf are keys of the file. */
  lemma {:induction false} LeafPathShape(es: Entries, path: seq<string>)
    requires LeafAt(es, path).Some?
    ensures DotFree(es) ==> Free(path, '.')
    ensures Filled(es) ==> "" !in path
    decreases |path|
  {
    LookupKeepsShape(es, path[0]);
    match Lookup(es, path[0]).value {
      case Dict(inner) =>
        LeafPathShape(inner, path[1..]);
        assert forall i :: 1 <= i < |path| ==> path[i] == path[1..][i - 1];
      case leaf =>
    }
  }

  lemma FilledKeyIsJoin(es: Entries, path: seq<string>)
    requires Filled(es) && LeafAt(es, path).Some?
    ensures FlatKey(path) == Join(path, '.')
  {
    LeafPathShape(es, path);
    FlatKeyShape(path);
    assert path[0] in path;
  }

  lemma ProtoIsOnePart(path: seq<string>)
    requires path != [] && Free(path, '.') && Join(path, '.') == PROTO
    ensures path == [PROTO]
  {
    SplitInvertsJoin(path, '.');
    ProtoHasNoDot();
    SplitPiece(PROTO, '.', "");
  }

  lemma ProtoHasNoDot()
    ensures '.' !in PROTO
  {}

  lemma ProtoIsItsPart()
    ensures PROTO in Split(PROTO, '.')
  {
    ProtoHasNoDot();
    SplitPiece(PROTO, '.', "");
  }

  /** The validator never sees a leaf under that name. */
  lemma ProtoIsDropped(leaf: Tree)
    requires !leaf.Dict?
    ensures Flat(Entry(PROTO, leaf, End)) == map[]
  {
    assert Under("", PROTO) == PROTO;
    assert FlattenInto(End, "", map[]) == map[];
  }

  /** The flattened table holds exactly the leaves at the ends of paths, but for the path that is
      that one name. */
  lemma FlatIsLeaves(es: Entries, path: seq<string>)
    requires WellKeyed(es) && path != [] && Free(path, '.') && path != [PROTO]
    ensures
      var key := Join(path, '.');
      if key in Flat(es) then LeafAt(es, path) == Some(Flat(es)[key]) else LeafAt(es, path) == None
  {
    var key := Join(path, '.');
    if key == PROTO {
      ProtoIsOnePart(path);
    }
    if key in Flat(es) {
      var other := FlattenTrace(es, "", map[], key);
      LeafPathShape(es, other);
      FilledKeyIsJoin(es, other);
      SplitInvertsJoin(other, '.');
      SplitInvertsJoin(path, '.');
    }
    if LeafAt(es, path).Some? {
      FilledKeyIsJoin(es, path);
      FlattenReaches(es, "", map[], path);
    }
  }

  /** Every flattened key is found by the runtime's path lookup, with the flattened leaf. */
  lemma FlatKeyIsFound(engine: Engine, es: Entries, key: string)
    requires WellKeyed(es) && key in Flat(es)
    ensures ReadPath(engine, Part(Dict(es)), key) == Part(Flat(es)[key])
  {
    var path := FlattenTrace(es, "", map[], key);
    LeafPathShape(es, path);
    FilledKeyIsJoin(es, path);
    SplitInvertsJoin(path, '.');
    LeafIsWalked(engine, es, path);
  }

  /** The first `n` parts of a path make up a flattened key, and the others lead from its leaf
      to `found`. */
  predicate Continues(flat: Table, path: seq<string>, n: nat, found: Tree) {
    1 <= n <= |path| && Join(path[..n], '.') in flat &&
    Behind(flat[Join(path[..n], '.')], path[n..]) == Some(found)
  }

  ghost predicate SomeContinues(flat: Table, path: seq<string>, found: Tree) {
    exists n :: Continues(flat, path, n, found)
  }

  /** Which leaf the runtime finds at any key without an inherited name: that of a flattened key,
      or one that continues a flattened key through a falsy leaf or through indices. */
  lemma FlatKeysArePaths(engine: Engine, es: Entries, key: string, found: Tree)
    requires WellKeyed(es) && Uninherited(engine, Split(key, '.')) && !found.Dict?
    ensures ReadPath(engine, Part(Dict(es)), key) == Part(found) <==>
            SomeContinues(Flat(es), Split(key, '.'), found)
  {
    var path := Split(key, '.');
    SplitIsFree(key, '.');
    WalkExactly(engine, es, path, found);
    assert ReadPath(engine, Part(Dict(es)), key) == Walk(engine, Part(Dict(es)), path);
    if n: nat :| Answers(es, path, n, found) {
      assert path[..n][0] in path;
      FlatIsLeaves(es, path[..n]);
      assert Continues(Flat(es), path, n, found);
    } else if SomeContinues(Flat(es), path, found) {
      var n: nat :| Continues(Flat(es), path, n, found);
      assert path[..n][0] in path;
      FlatIsLeaves(es, path[..n]);
      assert Answers(es, path, n, found);
    }
  }

  // ---------------------------------------------------------------- keys with dots, empty keys

  /** Another leaf answers the lookup of the flattened key, and is the same. */
  ghost predicate StandsIn(es: Entries, path: seq<string>, leaf: Tree) {
    var parts := Split(FlatKey(path), '.');
    exists n: nat :: Answers(es, parts, n, leaf) && parts[..n] != path
  }

  /** The parts of a flattened key begin with the path only if they are the path. */
  lemma PartsAreThePath(path: seq<string>, n: nat)
    requires path != [] && n <= |Split(FlatKey(path), '.')|
    ensures
      var parts := Split(FlatKey(path), '.');
      parts[..n] == path ==> n == |parts| && !LeadingEmpty(path)
  {
    var parts := Split(FlatKey(path), '.');
    JoinInvertsSplit(FlatKey(path), '.');
    FlatKeyShape(path);
    if parts[..n] == path {
      assert parts == path + parts[n..];
      JoinGrows(path, parts[n..], '.');
      assert parts[n..] == [] ==> parts == path;
    }
  }

  /** Over every file: the leaf at the end of a path is found under its flattened key if and only
      if no key on the path holds a dot and the path does not begin with an empty key, or another
      leaf stands in for it. */
  lemma LeafIsFound(engine: Engine, es: Entries, path: seq<string>)
    requires LeafAt(es, path).Some? && Uninherited(engine, Split(FlatKey(path), '.'))
    ensures
      var leaf := LeafAt(es, path).value;
      ReadPath(engine, Part(Dict(es)), FlatKey(path)) == Part(leaf) <==>
      (Free(path, '.') && !LeadingEmpty(path)) || StandsIn(es, path, leaf)
  {
    var leaf, parts := LeafAt(es, path).value, Split(FlatKey(path), '.');
    WalkExactly(engine, es, parts, leaf);
    FlatKeyShape(path);
    SplitIsFree(FlatKey(path), '.');
    if Free(path, '.') && !LeadingEmpty(path) {
      SplitInvertsJoin(path, '.');
      LeafIsWalked(engine, es, path);
    } else if n: nat :| Answers(es, parts, n, leaf) {
      PartsAreThePath(path, n);
      assert parts[..|parts|] == parts;
    }
  }

  /** No other leaf answers to the same flattened key. */
  ghost predicate Unrivalled(es: Entries, path: seq<string>) {
    forall other :: LeafAt(es, other).Some? && FlatKey(other) == FlatKey(path) ==> other == path
  }

  /** The validator keeps the leaf of an unrivalled key. */
  lemma UnrivalledIsKept(es: Entries, path: seq<string>)
    requires Unrepeated(es) && LeafAt(es, path).Some? && Unrivalled(es, path) && FlatKey(path) != PROTO
    ensures FlatKey(path) in Flat(es) && Flat(es)[FlatKey(path)] == LeafAt(es, path).value
  {
    FlattenReaches(es, "", map[], path);
    var source := FlattenTrace(es, "", map[], FlatKey(path));
  }

  /** A leaf that is not found behind another one: a text of two characters or more, any text that
      is not empty if no part of the key is an index, and what is neither a text nor falsy. */
  predicate Sturdy(leaf: Tree, parts: seq<string>) {
    match leaf
    case Text(text) => |text| >= 2 || (text != "" && forall part :: part in parts ==> Index(part) == None)
    case Other(shown, truthy) => truthy
    case Dict(es) => false
  }

  lemma {:induction false} BehindIsSlight(leaf: Tree, path: seq<string>, found: Tree)
    requires path != [] && Behind(leaf, path) == Some(found)
    ensures (found.Text? && |found.text| <= 1) || (found.Other? && !found.truthy)
    decreases |path|
  {
    if leaf.Text? && leaf.text != "" && |path| > 1 {
      BehindIsSlight(Text([leaf.text[Index(path[0]).value]]), path[1..], found);
    }
  }

  lemma BehindIsNotSturdy(leaf: Tree, parts: seq<string>, n: nat, found: Tree)
    requires n < |parts|
    ensures Behind(leaf, parts[n..]) == Some(found) ==> !Sturdy(found, parts)
  {
    if Behind(leaf, parts[n..]) == Some(found) {
      assert parts[n..][0] == parts[n] && parts[n] in parts;
      BehindIsSlight(leaf, parts[n..], found);
    }
  }

  lemma SturdyAnswersAtTheEnd(es: Entries, parts: seq<string>, n: nat, found: Tree)
    requires Answers(es, parts, n, found) && Sturdy(found, parts)
    ensures n == |parts|
  {
    if n < |parts| {
      BehindIsNotSturdy(LeafAt(es, parts[..n]).value, parts, n, found);
    }
  }

  /** Over every file without empty keys: a sturdy leaf that alone answers to its flattened key is
      found under it if and only if no key on the path to it holds a dot. */
  lemma LoneLeafIsFound(engine: Engine, es: Entries, path: seq<string>)
    requires Unrepeated(es) && Filled(es) && LeafAt(es, path).Some? && Unrivalled(es, path)
    requires Uninherited(engine, Split(FlatKey(path), '.'))
    requires Sturdy(LeafAt(es, path).value, Split(FlatKey(path), '.'))
    ensures
      var key, leaf := FlatKey(path), LeafAt(es, path).value;
      key in Flat(es) && Flat(es)[key] == leaf &&
      (ReadPath(engine, Part(Dict(es)), key) == Part(leaf) <==> Free(path, '.'))
  {
    var leaf, parts := LeafAt(es, path).value, Split(FlatKey(path), '.');
    ProtoIsItsPart();
    UnrivalledIsKept(es, path);
    LeafIsFound(engine, es, path);
    FilledKeyIsJoin(es, path);
    FlatKeyShape(path);
    if StandsIn(es, path, leaf) {
      var n: nat :| Answers(es, parts, n, leaf) && parts[..n] != path;
      SturdyAnswersAtTheEnd(es, parts, n, leaf);
      assert parts[..n] == parts;
      FilledKeyIsJoin(es, parts);
      JoinInvertsSplit(FlatKey(path), '.');
      assert false;
    }
  }

  // ---------------------------------------------------------------- examples

  /** At a key that goes on with an index a character is found, although no such key was
      flattened. */
  lemma IndexFindsCharacter(engine: Engine, text: string)
    requires text != ""
    ensures
      var es := Entry("a", Text(text), End);
      Flat(es) == map["a" := Text(text)] &&
      ReadPath(engine, Part(Dict(es)), "a.0") == Part(Text([text[0]]))
  {
    var es := Entry("a", Text(text), End);
    assert FlattenInto(End, "", map["a" := Text(text)]) == map["a" := Text(text)];
    SplitInvertsJoin(["a", "0"], '.');
    assert Join(["a", "0"], '.') == "a.0";
    IndexOfDecimal(0);
    assert Decimals.DecimalNat(0) == "0";
    assert Own(Part(Text(text)), "0") == Some(Part(Text([text[0]])));
    assert Walk(engine, Part(Dict(es)), ["a", "0"]) == Walk(engine, Part(Text(text)), ["a", "0"][1..]);
  }

  ghost predicate IsIndex(text: string, key: string) {
    exists n: nat :: n < |text| && key == Decimals.DecimalNat(n)
  }

  /** Behind a text that is not empty: its length, the characters at its indices, and nothing
      else of its own. */
  lemma TextIsWalked(engine: Engine, text: string, key: string)
    requires text != "" && '.' !in key
    ensures
      var es := Entry("a", Text(text), End);
      var found := ReadPath(engine, Part(Dict(es)), "a" + "." + key);
      (key == "length" ==> found == Length(|text|)) &&
      (forall n: nat :: n < |text| && key == Decimals.DecimalNat(n) ==> found == Part(Text([text[n]]))) &&
      (Uninherited(engine, [key]) && key != "length" && !IsIndex(text, key) ==> found == Undefined)
  {
    var es := Entry("a", Text(text), End);
    var found := ReadPath(engine, Part(Dict(es)), "a" + "." + key);
    TwoParts(engine, Text(text), key);
    LengthIsNoIndex();
    forall n: nat | n < |text| && key == Decimals.DecimalNat(n)
      ensures found == Part(Text([text[n]]))
    {
      IndexOfDecimal(n);
    }
    if Uninherited(engine, [key]) && key != "length" && !IsIndex(text, key) {
      assert key in [key];
      assert Index(key).Some? ==> key == Decimals.DecimalNat(Index(key).value);
    }
  }

  lemma LengthIsNoIndex()
    ensures Index("length") == None
  {
    assert !Decimals.IsDigit("length"[0]);
  }

  lemma TwoParts(engine: Engine, leaf: Tree, key: string)
    requires '.' !in key && !leaf.Dict?
    ensures
      var value := Part(leaf);
      ReadPath(engine, Part(Dict(Entry("a", leaf, End))), "a" + "." + key) ==
      if Own(value, key).Some? then Own(value, key).value
      else if key in engine.names || key == "__proto__" then engine.walk(value, [key])
      else Undefined
  {
    var path := ["a", key];
    SplitInvertsJoin(path, '.');
    assert path[1..] == [key] && Join(path, '.') == "a" + "." + key;
    OnePart(engine, Part(leaf), key);
  }

  lemma OnePart(engine: Engine, value: Value, key: string)
    ensures Walk(engine, value, [key]) ==
      if Own(value, key).Some? then Own(value, key).value
      else if key in engine.names || key == "__proto__" then engine.walk(value, [key])
      else Undefined
  {
    assert [key][1..] == [];
    assert forall next :: Walk(engine, next, []) == next;
  }

  /** Behind what is falsy there is nothing else, and behind what is not a text nor falsy only what
      it inherits. */
  lemma OtherIsWalked(engine: Engine, other: Tree, key: string)
    requires other.Other? && '.' !in key
    ensures
      var es := Entry("a", other, End);
      ReadPath(engine, Part(Dict(es)), "a" + "." + key) ==
      if !other.truthy then Part(other)
      else if key in engine.names || key == "__proto__" then engine.walk(Part(other), [key])
      else Undefined
  {
    TwoParts(engine, other, key);
  }

  /** A lone key with a dot is flattened and validated, but the lookup, which splits it, looks
      for something else. */
  lemma DottedKeyIsLost(engine: Engine, key: string, leaf: Tree)
    requires '.' in key && !leaf.Dict? && Uninherited(engine, [Split(key, '.')[0]])
    ensures
      var es := Entry(key, leaf, End);
      Flat(es) == map[key := leaf] && ReadPath(engine, Part(Dict(es)), key) == Undefined
  {
    var es := Entry(key, leaf, End);
    ProtoHasNoDot();
    assert Split(key, '.')[0] in [Split(key, '.')[0]];
    assert FlattenInto(End, "", map[key := leaf]) == map[key := leaf];
    FirstPartIsFree(key, '.');
    assert Lookup(es, Split(key, '.')[0]) == Lookup(End, Split(key, '.')[0]);
  }

  /** An empty key at the top is left out of the flattened key, and so of the lookup. */
  lemma EmptyKeyIsLost(engine: Engine, key: string, leaf: Tree)
    requires key != "" && '.' !in key && !leaf.Dict? && Uninherited(engine, [key])
    ensures
      var es := Entry("", Dict(Entry(key, leaf, End)), End);
      Flat(es) == map[key := leaf] && ReadPath(engine, Part(Dict(es)), key) == Undefined
  {
    var inner := Entry(key, leaf, End);
    var es := Entry("", Dict(inner), End);
    assert key in [key];
    assert FlattenInto(End, "", map[key := leaf]) == map[key := leaf];
    assert FlattenInto(inner, "", map[]) == map[key := leaf];
    SplitPiece(key, '.', "");
    assert Lookup(es, key) == Lookup(End, key);
  }

  /** With a rival the validator keeps the later of the two texts, the page shows the nested
      one. */
  lemma RivalsAreConfused(engine: Engine, dotted: Tree, nested: Tree)
    requires !dotted.Dict? && !nested.Dict?
    ensures
      var inner := Dict(Entry("b", nested, End));
      var dottedFirst := Entry("a.b", dotted, Entry("a", inner, End));
      var nestedFirst := Entry("a", inner, Entry("a.b", dotted, End));
      Flat(dottedFirst) == map["a.b" := nested] && Flat(nestedFirst) == map["a.b" := dotted] &&
      ReadPath(engine, Part(Dict(dottedFirst)), "a.b") == Part(nested) &&
      ReadPath(engine, Part(Dict(nestedFirst)), "a.b") == Part(nested)
  {
    var inner := Entry("b", nested, End);
    var dottedFirst := Entry("a.b", dotted, Entry("a", Dict(inner), End));
    var nestedFirst := Entry("a", Dict(inner), Entry("a.b", dotted, End));
    assert Join(["a", "b"], '.') == "a.b";
    SplitInvertsJoin(["a", "b"], '.');
    assert ["a", "b"][1..] == ["b"];
    assert Lookup(dottedFirst, "a") == Some(Dict(inner)) && Lookup(nestedFirst, "a") == Some(Dict(inner));
    assert LeafAt(inner, ["b"]) == Some(nested);
    LeafIsWalked(engine, dottedFirst, ["a", "b"]);
    LeafIsWalked(engine, nestedFirst, ["a", "b"]);
    assert Under("", "a.b") == "a.b" && Under("a", "b") == "a.b";
    assert FlattenInto(inner, "a", map["a.b" := dotted]) == map["a.b" := nested];
    assert FlattenInto(inner, "a", map[]) == map["a.b" := nested];
    assert FlattenInto(dottedFirst, "", map[]) == FlattenInto(dottedFirst.rest, "", map["a.b" := dotted]);
    assert FlattenInto(dottedFirst.rest, "", map["a.b" := dotted]) == map["a.b" := nested];
    assert FlattenInto(nestedFirst.rest, "", map["a.b" := nested]) == map["a.b" := dotted];
    assert FlattenInto(nestedFirst, "", map[]) == FlattenInto(nestedFirst.rest, "", map["a.b" := nested]);
  }

  /** The first character of another text, or another empty text, can stand in for a dotted key. */
  lemma OthersStandIn(engine: Engine)
    ensures
      var es := Entry("a", Text("x"), Entry("a.0", Text("x"), End));
      LeafAt(es, ["a.0"]) == Some(Text("x")) && ReadPath(engine, Part(Dict(es)), "a.0") == Part(Text("x"))
    ensures
      var es := Entry("a", Text(""), Entry("a.b", Text(""), End));
      LeafAt(es, ["a.b"]) == Some(Text("")) && ReadPath(engine, Part(Dict(es)), "a.b") == Part(Text(""))
  {
    var es := Entry("a", Text("x"), Entry("a.0", Text("x"), End));
    assert Join(["a", "0"], '.') == "a.0" && Join(["a", "b"], '.') == "a.b";
    SplitInvertsJoin(["a", "0"], '.');
    SplitInvertsJoin(["a", "b"], '.');
    IndexOfDecimal(0);
    assert Decimals.DecimalNat(0) == "0";
    assert Own(Part(Text("x")), "0") == Some(Part(Text("x")));
    assert Walk(engine, Part(Dict(es)), ["a", "0"]) == Walk(engine, Part(Text("x")), ["a", "0"][1..]);
    var empties := Entry("a", Text(""), Entry("a.b", Text(""), End));
    WalkStays(engine, Part(Text("")), ["a", "b"][1..]);
    assert Walk(engine, Part(Dict(empties)), ["a", "b"]) == Walk(engine, Part(Text("")), ["a", "b"][1..]);
  }

  /** A key of two parts whose first is inherited leads into what is inherited. */
  lemma InheritedIsWalked(engine: Engine, es: Entries, first: string, second: string)
    requires '.' !in first && '.' !in second && first in engine.names && Lookup(es, first) == None
    ensures ReadPath(engine, Part(Dict(es)), first + "." + second)
         == engine.walk(Part(Dict(es)), [first, second])
  {
    var path := [first, second];
    assert path[1..] == [second] && Join(path, '.') == first + "." + second;
    SplitInvertsJoin(path, '.');
  }

  /** An engine in which objects have a constructor with the name "Object", and inherit nothing
      else. */
  function ObjectEngine(): Engine {
    Engine({"constructor"}, (value: Value, path: seq<string>) =>
      if value.Part? && value.tree.Dict? && path == ["constructor", "name"] then Part(Text("Object"))
      else Undefined)
  }

  /** So can what is inherited: every file without a constructor of its own. */
  lemma InheritedNameIsFound(es: Entries, key: string)
    requires Lookup(es, "constructor") == None && key == "constructor" + "." + "name"
    ensures ReadPath(ObjectEngine(), Part(Dict(es)), key) == Part(Text("Object"))
  {
    InheritedIsWalked(ObjectEngine(), es, "constructor", "name");
  }

  // ---------------------------------------------------------------- what validation guarantees

  /** The same keys, and for each the same placeholders, as often. */
  ghost predicate Agree(source: Table, translations: Table) {
    source.Keys == translations.Keys &&
    forall key :: key in source && key in translations ==>
      multiset(Matches(Shown(source[key]))) == multiset(Matches(Shown(translations[key])))
  }

  lemma NoProblemMeans(locale: string, source: Table, translations: Table)
    ensures (forall p :: !LocaleProblem(locale, source, translations, p)) <==> Agree(source, translations)
  {
    forall key | key in source && key in translations
      ensures SamePlaceholders(Shown(source[key]), Shown(translations[key])) <==>
        multiset(Matches(Shown(source[key]))) == multiset(Matches(Shown(translations[key])))
    {
      JoinedSortsCompare(Matches(Shown(source[key])), Matches(Shown(translations[key])), ',');
    }
    if forall p :: !LocaleProblem(locale, source, translations, p) {
      forall key | key in source
        ensures key in translations && SamePlaceholders(Shown(source[key]), Shown(translations[key]))
      {
        assert !LocaleProblem(locale, source, translations, MissingKey(locale, key));
        assert !LocaleProblem(locale, source, translations, Mismatch(locale, key));
      }
      forall key | key in translations
        ensures key in source
      {
        assert !LocaleProblem(locale, source, translations, UnexpectedKey(locale, key));
      }
    }
  }

  /** The validator reports nothing if and only if every locale agrees with the source and the
      page refers to source keys only. */
  lemma CleanReport(locales: seq<Locale>, source: Entries, references: seq<string>)
    ensures IsReport([], locales, source, references) <==>
      (forall i :: 0 <= i < |locales| ==> Agree(Flat(source), Flat(locales[i].contents))) &&
      (forall key :: key in references ==> key in Flat(source))
  {
    forall i | 0 <= i < |locales|
      ensures (forall p :: !LocaleProblem(locales[i].name, Flat(source), Flat(locales[i].contents), p)) <==>
        Agree(Flat(source), Flat(locales[i].contents))
    {
      NoProblemMeans(locales[i].name, Flat(source), Flat(locales[i].contents));
    }
    if IsReport([], locales, source, references) {
      forall i | 0 <= i < |locales|
        ensures Agree(Flat(source), Flat(locales[i].contents))
      {
        forall p
          ensures !LocaleProblem(locales[i].name, Flat(source), Flat(locales[i].contents), p)
        {
          assert !IsProblem(locales, source, references, p);
        }
      }
      forall key | key in references
        ensures key in Flat(source)
      {
        assert !IsProblem(locales, source, references, UnknownReference(key));
      }
    }
  }

  /** If the validator reports nothing, then in every validated locale every source key is
      found, without the fallback, and parameters that cover the placeholders of the source
      text fill every placeholder of that locale's text, whatever objects inherit. */
  lemma ValidatedTranslation(
    engine: Engine, locales: seq<Locale>, source: Entries, references: seq<string>, i: nat, key: string,
    dictionaries: map<string, Entries>, parameters: Parameters)
    requires IsReport([], locales, source, references)
    requires i < |locales| && WellKeyed(locales[i].contents)
    requires locales[i].name in dictionaries && dictionaries[locales[i].name] == locales[i].contents
    requires key in Flat(source)
    requires forall name :: name in Matches(Shown(Flat(source)[key])) ==> name in parameters
    ensures
      var flat := Flat(locales[i].contents);
      key in flat &&
      var text := Shown(flat[key]);
      (forall name :: name in Holes(Tokens(text)) ==> name in parameters) &&
      Translate(engine, dictionaries, locales[i].name, key, parameters) == Fill(Tokens(text), parameters)
  {
    var flat := Flat(locales[i].contents);
    CleanReport(locales, source, references);
    assert Agree(Flat(source), flat);
    assert key in flat;
    FlatKeyIsFound(engine, locales[i].contents, key);
    forall name | name in Matches(Shown(flat[key]))
      ensures name in parameters
    {
      assert name in multiset(Matches(Shown(flat[key])));
      assert name in multiset(Matches(Shown(Flat(source)[key])));
    }
    InterpolateFills(Shown(flat[key]), parameters);
  }

  /** A flattened text is what the page shows, with its placeholders filled as far as there are
      parameters; all of them, if the parameters cover them. */
  lemma TextTranslated(
    engine: Engine, dictionaries: map<string, Entries>, language: string, key: string, text: string,
    parameters: Parameters)
    requires language in dictionaries && WellKeyed(dictionaries[language])
    requires key in Flat(dictionaries[language]) && Flat(dictionaries[language])[key] == Text(text)
    ensures Translate(engine, dictionaries, language, key, parameters) == Interpolate(text, parameters)
    ensures (forall name :: name in Matches(text) ==> name in parameters) ==>
            (forall name :: name in Holes(Tokens(text)) ==> name in parameters) &&
            Translate(engine, dictionaries, language, key, parameters) == Fill(Tokens(text), parameters)
  {
    FlatKeyIsFound(engine, dictionaries[language], key);
    if forall name :: name in Matches(text) ==> name in parameters {
      InterpolateFills(text, parameters);
    }
  }

  /** For texts: after an empty report, parameters that cover the source text's placeholders fill
      the whole text of the chosen locale. */
  lemma ValidatedText(
    engine: Engine, locales: seq<Locale>, source: Entries, references: seq<string>, i: nat, key: string,
    dictionaries: map<string, Entries>, parameters: Parameters, original: string, text: string)
    requires IsReport([], locales, source, references)
    requires i < |locales| && WellKeyed(locales[i].contents)
    requires locales[i].name in dictionaries && dictionaries[locales[i].name] == locales[i].contents
    requires key in Flat(source) && Flat(source)[key] == Text(original)
    requires key in Flat(locales[i].contents) && Flat(locales[i].contents)[key] == Text(text)
    requires forall name :: name in Matches(original) ==> name in parameters
    ensures (forall name :: name in Holes(Tokens(text)) ==> name in parameters) &&
            Translate(engine, dictionaries, locales[i].name, key, parameters) == Fill(Tokens(text), parameters)
  {
    ReportMeans([], locales, source, references, locales[i].name, key);
    forall name | name in Matches(text)
      ensures name in parameters
    {
      assert name in multiset(Matches(text));
      assert name in multiset(Matches(original));
    }
    TextTranslated(engine, dictionaries, locales[i].name, key, text, parameters);
  }

  /** ... and every key the page refers to shows the text of the chosen locale. */
  lemma ReferencesAreKnown(
    engine: Engine, locales: seq<Locale>, source: Entries, references: seq<string>, i: nat, key: string,
    dictionaries: map<string, Entries>, parameters: Parameters)
    requires IsReport([], locales, source, references) && key in references
    requires i < |locales| && WellKeyed(locales[i].contents)
    requires locales[i].name in dictionaries && dictionaries[locales[i].name] == locales[i].contents
    ensures
      var flat := Flat(locales[i].contents);
      key in Flat(source) && key in flat &&
      Translate(engine, dictionaries, locales[i].name, key, parameters)
        == Interpolate(Shown(flat[key]), parameters)
  {
    CleanReport(locales, source, references);
    assert Agree(Flat(source), Flat(locales[i].contents));
    FlatKeyIsFound(engine, locales[i].contents, key);
  }
}
