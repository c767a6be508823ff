/**
 * The Home Assistant address: parser (src/assist_pipeline_bridge.cpp:41-56) and the rendering
 * the child uses for its requests (src/assist_pipeline_bridge.cpp:393-395).
 */
module HaUrl {
  import opened Basics
  import opened Text

  datatype ParsedUrl = ParsedUrl(host: string, basePath: string, port: Int32)

  const HTTPS := "https://"

  predicate Blank(c: char) { c <= ' ' }

  function TrimEnd(s: string): string {
    if s != "" && Blank(s[|s| - 1]) then TrimEnd(s[..|s| - 1]) else s
  }

  function TrimStart(s: string): string {
    if s != "" && Blank(s[0]) then TrimStart(s[1..]) else s
  }

  function StripSlashes(s: string): string {
    if s != "" && s[|s| - 1] == '/' then StripSlashes(s[..|s| - 1]) else s
  }

  /** `s.rfind(':')` */
  function LastColon(s: string): (r: Option<nat>)
    ensures r.Some? ==> r.value < |s| && s[r.value] == ':'
  {
    if s == "" then None
    else if s[|s| - 1] == ':' then Some(|s| - 1)
    else LastColon(s[..|s| - 1])
  }

  /** `atoi`, as the C library computes it: the low 32 bits of `strtol`. */
  function Atoi(s: string): Int32 {
    match Strtol(s)
    case None => 0
    case Some(v) => WrapInt32(v)
  }

  function Accept(p: ParsedUrl): Option<ParsedUrl> {
    if p.host != "" && 0 < p.port <= 65535 then Some(p) else None
  }

  function ParseAuthority(authority: string, basePath: string): Option<ParsedUrl> {
    match LastColon(authority)
    case None => Accept(ParsedUrl(authority, basePath, 443))
    case Some(colon) => Accept(ParsedUrl(authority[..colon], basePath, Atoi(authority[colon + 1..])))
  }

  /** Behind the scheme. */
  function ParseRest(url: string): Option<ParsedUrl> {
    match Find(url, "/", 0)
    case None => ParseAuthority(url, "")
    case Some(slash) => ParseAuthority(url[..slash], StripSlashes(url[slash..]))
  }

  /** The address read, or None when it is not accepted. */
  function ParseUrl(input: string): Option<ParsedUrl> {
    var url := TrimStart(TrimEnd(input));
    if HTTPS <= url then ParseRest(url[|HTTPS|..]) else None
  }

  function Render(p: ParsedUrl): string {
    HTTPS + p.host + ":" + Decimal(p.port) + p.basePath
  }

  method ParseHaUrl(input: string) returns (r: Option<ParsedUrl>)
    ensures r == ParseUrl(input)
  {
    var url := input;
    while url != "" && url[|url| - 1] <= ' '
      invariant TrimEnd(url) == TrimEnd(input)
      decreases |url|
    {
      url := url[..|url| - 1];
    }
    while url != "" && url[0] <= ' '
      invariant TrimStart(url) == TrimStart(TrimEnd(input))
      decreases |url|
    {
      url := url[1..];
    }
    if !(HTTPS <= url) {
      return None;
    }
    url := url[|HTTPS|..];
    var slash := Find(url, "/", 0);
    var authority := if slash == None then url else url[..slash.value];
    var basePath := if slash == None then "" else url[slash.value..];
    while basePath != "" && basePath[|basePath| - 1] == '/'
      invariant StripSlashes(basePath) == if slash == None then "" else StripSlashes(url[slash.value..])
      decreases |basePath|
    {
      basePath := basePath[..|basePath| - 1];
    }
    var colon := LastColon(authority);
    var host := if colon == None then authority else authority[..colon.value];
    var port := if colon == None then 443 else Atoi(authority[colon.value + 1..]);
    if host != "" && port > 0 && port <= 65535 {
      r := Some(ParsedUrl(host, basePath, port));
    } else {
      r := None;
    }
  }

  // ---------------------------------------------------------------- the normal form

  lemma {:induction false} LastColonBefore(host: string, digits: string)
    requires ':' !in digits
    ensures LastColon(host + ":" + digits) == Some(|host|)
    decreases |digits|
  {
    var s := host + ":" + digits;
    if digits == "" {
      assert s[|s| - 1] == ':';
    } else {
      var last := |digits| - 1;
      assert s[|s| - 1] == digits[last];
      assert s[..|s| - 1] == host + ":" + digits[..last];
      LastColonBefore(host, digits[..last]);
    }
  }

  lemma {:induction false} FindSlash(a: string, path: string, start: nat)
    requires '/' !in a && start <= |a| && (path == "" || path[0] == '/')
    ensures Find(a + path, "/", start) == if path == "" then None else Some(|a|)
    decreases |a| - start
  {
    var s := a + path;
    if start < |a| {
      assert s[start] == a[start] && a[start] in a;
      FindSlash(a, path, start + 1);
    } else if path != "" {
      assert s[start..][0] == '/';
    }
  }

  lemma PortText(port: Int32)
    requires 0 < port
    ensures Decimal(port) != "" && Atoi(Decimal(port)) == port
    ensures forall i :: 0 <= i < |Decimal(port)| ==> IsDigit(Decimal(port)[i])
  {
    DecimalNatDigits(port);
    StrtolReadsDecimal(port, "");
    assert Decimal(port) + "" == Decimal(port);
  }

  lemma ParseAuthorityParts(host: string, digits: string, base: string)
    requires host != "" && ':' !in digits && 0 < Atoi(digits) <= 65535
    ensures ParseAuthority(host + ":" + digits, base) == Some(ParsedUrl(host, base, Atoi(digits)))
  {
    var authority := host + ":" + digits;
    LastColonBefore(host, digits);
    assert authority[..|host|] == host && authority[|host| + 1..] == digits;
  }

  lemma ParseRestParts(authority: string, path: string)
    requires '/' !in authority && (path == "" || path[0] == '/')
    ensures ParseRest(authority + path) == ParseAuthority(authority, StripSlashes(path))
  {
    FindSlash(authority, path, 0);
    assert path == "" ==> authority + path == authority;
    assert (authority + path)[..|authority|] == authority && (authority + path)[|authority|..] == path;
  }

  lemma ParseTrimmed(rest: string)
    requires rest != "" && !Blank(rest[|rest| - 1])
    ensures ParseUrl(HTTPS + rest) == ParseRest(rest)
  {
    var url := HTTPS + rest;
    assert url[|url| - 1] == rest[|rest| - 1] && url[0] == 'h';
    assert url[|HTTPS|..] == rest;
  }

  /** Parsing a text put together from a host, a port and a path. */
  lemma ParseParts(host: string, port: Int32, path: string)
    requires host != "" && '/' !in host && 0 < port <= 65535
    requires path == "" || (path[0] == '/' && !Blank(path[|path| - 1]))
    ensures ParseUrl(HTTPS + host + ":" + Decimal(port) + path) ==
            Some(ParsedUrl(host, StripSlashes(path), port))
  {
    PortText(port);
    PartsOf(host, Decimal(port), path);
    ParseAuthorityParts(host, Decimal(port), StripSlashes(path));
    ParseRestParts(host + ":" + Decimal(port), path);
    ParseTrimmed(host + ":" + Decimal(port) + path);
  }

  lemma PartsOf(host: string, digits: string, path: string)
    requires digits != "" && '/' !in host && forall i :: 0 <= i < |digits| ==> IsDigit(digits[i])
    requires path == "" || !Blank(path[|path| - 1])
    ensures HTTPS + host + ":" + digits + path == HTTPS + (host + ":" + digits + path)
    ensures '/' !in host + ":" + digits && ':' !in digits
    ensures
      var rest := host + ":" + digits + path;
      rest != "" && !Blank(rest[|rest| - 1])
  {
    var rest := host + ":" + digits + path;
    assert rest[|rest| - 1] == if path == "" then digits[|digits| - 1] else path[|path| - 1];
  }

  lemma {:induction false} StripSlashesFacts(path: string)
    requires path == "" || path[0] == '/'
    ensures
      var base := StripSlashes(path);
      base <= path && StripSlashes(base) == base && (base == "" || base[0] == '/') &&
      (base != "" ==> base[|base| - 1] != '/')
    decreases |path|
  {
    if path != "" && path[|path| - 1] == '/' {
      StripSlashesFacts(path[..|path| - 1]);
    }
  }

  lemma {:induction false} NoSlashBefore(url: string, start: nat)
    requires start <= |url| && '/' !in url[..start]
    ensures match Find(url, "/", start)
            case None => '/' !in url
            case Some(i) => '/' !in url[..i] && url[i] == '/'
    decreases |url| - start
  {
    if start < |url| && url[start] != '/' {
      assert url[..start + 1] == url[..start] + [url[start]];
      NoSlashBefore(url, start + 1);
    } else if start < |url| {
      assert "/" <= url[start..];
    } else {
      assert url[..start] == url;
    }
  }

  lemma AuthorityFacts(authority: string, base: string, p: ParsedUrl)
    requires '/' !in authority && ParseAuthority(authority, base) == Some(p)
    ensures p.host != "" && '/' !in p.host && 0 < p.port <= 65535 && p.basePath == base
  {}

  /** What every accepted address looks like. */
  lemma AcceptedFacts(input: string, p: ParsedUrl)
    requires ParseUrl(input) == Some(p)
    ensures p.host != "" && '/' !in p.host && 0 < p.port <= 65535
    ensures StripSlashes(p.basePath) == p.basePath
    ensures p.basePath == "" || (p.basePath[0] == '/' && p.basePath[|p.basePath| - 1] != '/')
  {
    var url := TrimStart(TrimEnd(input))[|HTTPS|..];
    NoSlashBefore(url, 0);
    match Find(url, "/", 0)
    case None => AuthorityFacts(url, "", p);
    case Some(slash) =>
      AuthorityFacts(url[..slash], StripSlashes(url[slash..]), p);
      StripSlashesFacts(url[slash..]);
  }

  lemma {:induction false} TrimEndOf(a: string, b: string)
    requires b != "" && !Blank(b[0])
    ensures TrimEnd(a + b) == a + TrimEnd(b)
    ensures TrimEnd(b) != "" && TrimEnd(b)[0] == b[0] && !Blank(TrimEnd(b)[|TrimEnd(b)| - 1])
    ensures |TrimEnd(b)| < |b| <==> Blank(b[|b| - 1])
    decreases |b|
  {
    if Blank(b[|b| - 1]) {
      assert (a + b)[..|a + b| - 1] == a + b[..|b| - 1];
      TrimEndOf(a, b[..|b| - 1]);
    } else {
      assert (a + b)[|a + b| - 1] == b[|b| - 1];
    }
  }

  lemma {:induction false} TrimEndTwice(s: string)
    ensures TrimEnd(TrimEnd(s)) == TrimEnd(s)
  {
    if s != "" && Blank(s[|s| - 1]) {
      TrimEndTwice(s[..|s| - 1]);
    }
  }

  /** Rendering an accepted address and parsing it again gives the same host, port and base
      path exactly when the base path does not end in a byte of 32 or less. */
  lemma NormalForm(input: string, p: ParsedUrl)
    requires ParseUrl(input) == Some(p)
    ensures ParseUrl(Render(p)) == Some(p) <==>
            p.basePath == "" || !Blank(p.basePath[|p.basePath| - 1])
  {
    AcceptedFacts(input, p);
    if p.basePath == "" || !Blank(p.basePath[|p.basePath| - 1]) {
      ParseParts(p.host, p.port, p.basePath);
    } else {
      RenderedIsShorter(p);
    }
  }

  /** Such an address is accepted: the slash behind the blank keeps it from being trimmed, and is
      dropped itself. */
  lemma BlankIsLost()
    ensures
      var p := ParsedUrl("h", "/a ", 443);
      ParseUrl("https://h/a /") == Some(p) && ParseUrl(Render(p)) != Some(p)
  {
    var rest, path := "h/a /", "/a /";
    assert "https://h/a /" == HTTPS + rest && rest == "h" + path;
    ParseTrimmed(rest);
    ParseRestParts("h", path);
    assert path[..3] == "/a " && StripSlashes(path) == StripSlashes("/a ") == "/a ";
    assert LastColon("h") == LastColon("") == None;
    NormalForm("https://h/a /", ParsedUrl("h", "/a ", 443));
  }

  /** A base path that ends in a blank comes back shorter. */
  lemma RenderedIsShorter(p: ParsedUrl)
    requires p.host != "" && '/' !in p.host && 0 < p.port <= 65535
    requires p.basePath != "" && p.basePath[0] == '/' && Blank(p.basePath[|p.basePath| - 1])
    ensures ParseUrl(Render(p)) != Some(p)
  {
    var front := HTTPS + p.host + ":" + Decimal(p.port);
    var shorter := TrimEnd(p.basePath);
    TrimEndOf(front, p.basePath);
    TrimEndTwice(Render(p));
    assert ParseUrl(Render(p)) == ParseUrl(front + shorter);
    ParseParts(p.host, p.port, shorter);
    StripSlashesFacts(shorter);
  }

  // ---------------------------------------------------------------- what is accepted

  /** Blanks around an address make no difference. */
  lemma BlanksAreTrimmed(before: string, url: string, behind: string)
    requires url != "" && !Blank(url[0]) && !Blank(url[|url| - 1])
    requires forall c :: c in before + behind ==> c as int <= 32
    ensures ParseUrl(before + url + behind) == ParseUrl(url)
  {
    assert forall c :: c in behind ==> c in before + behind;
    assert forall c :: c in before ==> c in before + behind;
    TrimsEnd(before + url, behind);
    TrimsStart(before, url);
  }

  lemma {:induction false} TrimsEnd(s: string, behind: string)
    requires s != "" && !Blank(s[|s| - 1]) && forall c :: c in behind ==> c as int <= 32
    ensures TrimEnd(s + behind) == s && TrimEnd(s) == s
    decreases |behind|
  {
    var all := s + behind;
    if behind == "" {
      assert all == s;
    } else {
      var last := |behind| - 1;
      assert all[|all| - 1] == behind[last] && behind[last] in behind;
      assert all[..|all| - 1] == s + behind[..last];
      assert forall c :: c in behind[..last] ==> c in behind;
      TrimsEnd(s, behind[..last]);
    }
  }

  lemma {:induction false} TrimsStart(before: string, s: string)
    requires s != "" && !Blank(s[0]) && forall c :: c in before ==> c as int <= 32
    ensures TrimStart(before + s) == s && TrimStart(s) == s
    decreases |before|
  {
    var all := before + s;
    if before == "" {
      assert all == s;
    } else {
      assert all[0] == before[0] && before[0] in before && all[1..] == before[1..] + s;
      assert forall c :: c in before[1..] ==> c in before;
      TrimsStart(before[1..], s);
    }
  }

  /** Exactly what is read from an address with a port text behind its last colon: it must have a
      host, and a port from 1 to 65535. */
  lemma AddressWithPort(host: string, port: string, path: string)
    requires '/' !in host && '/' !in port && ':' !in port && (path == "" || path[0] == '/')
    requires var rest := host + ":" + port + path; !Blank(rest[|rest| - 1])
    ensures ParseUrl("https://" + (host + ":" + port + path)) ==
      if host != "" && 1 <= Atoi(port) <= 65535 then Some(ParsedUrl(host, StripSlashes(path), Atoi(port)))
      else None
  {
    var authority := host + ":" + port;
    ParseTrimmed(authority + path);
    ParseRestParts(authority, path);
    LastColonBefore(host, port);
    assert authority[..|host|] == host && authority[|host| + 1..] == port;
  }

  /** ... and from one without: the port is 443. */
  lemma AddressWithoutPort(host: string, path: string)
    requires '/' !in host && ':' !in host && (path == "" || path[0] == '/')
    requires var rest := host + path; rest != "" && !Blank(rest[|rest| - 1])
    ensures ParseUrl("https://" + (host + path)) ==
      if host != "" then Some(ParsedUrl(host, StripSlashes(path), 443)) else None
  {
    ParseTrimmed(host + path);
    ParseRestParts(host, path);
    NoColon(host);
  }

  lemma {:induction false} NoColon(s: string)
    requires ':' !in s
    ensures LastColon(s) == None
  {
    if s != "" {
      assert s[|s| - 1] in s;
      assert forall c :: c in s[..|s| - 1] ==> c in s;
      NoColon(s[..|s| - 1]);
    }
  }

  /** Any other scheme is refused. */
  lemma OtherSchemes(url: string)
    requires url != "" && !Blank(url[0]) && !Blank(url[|url| - 1]) && !("https://" <= url)
    ensures ParseUrl(url) == None
  {
    TrimsEnd(url, "");
    TrimsStart("", url);
  }

  /** The digits of a port, read. */
  lemma PortMeans(digits: string)
    requires digits != "" && forall i :: 0 <= i < |digits| ==> '0' <= digits[i] <= '9'
    ensures Atoi(digits) == WrapInt32(if DigitsValue(digits) > LONG_MAX then LONG_MAX else DigitsValue(digits))
  {
    StrtolMeans("", "", digits, "");
    var whole := "" + ("" + (digits + ""));
    assert whole == digits;
  }

  /** The slashes at the end of a path are dropped, and nothing else. */
  lemma {:induction false} SlashesAreDropped(path: string, n: nat)
    requires path == "" || path[|path| - 1] != '/'
    ensures StripSlashes(path + Slashes(n)) == path
    decreases n
  {
    var all := path + Slashes(n);
    if n == 0 {
      assert all == path;
    } else {
      assert all[..|all| - 1] == path + Slashes(n - 1);
      SlashesAreDropped(path, n - 1);
    }
  }

  function Slashes(n: nat): string { if n == 0 then "" else Slashes(n - 1) + "/" }

  lemma RenderedText(p: ParsedUrl)
    ensures Render(p) == "https://" + p.host + ":" + Decimal(p.port) + p.basePath
  {}
}
