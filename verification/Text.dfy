/**
 * The pieces of the C and C++ text library that the bridge uses: searching, trimming,
 * printing and reading integers. A text is a sequence of bytes; `char` stands for a byte,
 * and nothing in the model depends on an upper bound of its value.
 */
module Text {
  import opened Basics

  /** `s.find(pat, start)`: the first position from `start` at which `pat` occurs. */
  function Find(s: string, pat: string, start: nat): (r: Option<nat>)
    ensures r.Some? ==> start <= r.value && r.value + |pat| <= |s| && pat <= s[r.value..]
    decreases |s| - start
  {
    if start > |s| then None
    else if pat <= s[start..] then Some(start)
    else if start == |s| then None
    else Find(s, pat, start + 1)
  }

  /** What follows the first occurrence of `pat` in `s`, if there is one. */
  function After(s: string, pat: string): Option<string> {
    if pat <= s then Some(s[|pat|..])
    else if s == "" then None
    else After(s[1..], pat)
  }

  predicate Contains(s: string, pat: string) {
    After(s, pat).Some?
  }

  /** Searching by position and searching by remaining text are the same search. */
  lemma {:induction false} FindIsAfter(s: string, pat: string, start: nat)
    requires start <= |s|
    ensures match Find(s, pat, start)
            case None => After(s[start..], pat) == None
            case Some(i) => After(s[start..], pat) == Some(s[i + |pat|..])
    decreases |s| - start
  {
    if pat <= s[start..] {
      assert s[start..][|pat|..] == s[start + |pat|..];
    } else if start < |s| {
      assert s[start..][1..] == s[start + 1..];
      FindIsAfter(s, pat, start + 1);
    }
  }

  lemma FindWhole(s: string, pat: string)
    ensures match Find(s, pat, 0)
            case None => After(s, pat) == None
            case Some(i) => After(s, pat) == Some(s[i + |pat|..])
  {
    assert s[0..] == s;
    FindIsAfter(s, pat, 0);
  }

  /** A search passes over a stretch of text that holds no first character of the pattern. */
  lemma {:induction false} AfterSkip(a: string, b: string, pat: string)
    requires pat != "" && pat[0] !in a
    ensures After(a + b, pat) == After(b, pat)
  {
    if a == "" {
      assert a + b == b;
    } else {
      assert (a + b)[0] == a[0] && (a + b)[1..] == a[1..] + b;
      AfterSkip(a[1..], b, pat);
    }
  }

  /** ... and over one in which the pattern starts nowhere: at every place where its first
      character stands, the character at offset `k` is another one. */
  lemma {:induction false} AfterPasses(a: string, b: string, pat: string, k: nat)
    requires k < |pat|
    requires forall i :: 0 <= i < |a| && a[i] == pat[0] && i + |pat| <= |a + b| ==> (a + b)[i + k] != pat[k]
    ensures After(a + b, pat) == After(b, pat)
  {
    var s := a + b;
    if a == "" {
      assert s == b;
    } else {
      assert s[0] == a[0] && s[1..] == a[1..] + b;
      assert !(pat <= s);
      assert forall i :: 0 <= i < |a| - 1 ==> a[1..][i] == a[i + 1];
      AfterPasses(a[1..], b, pat, k);
    }
  }

  lemma AfterHere(pat: string, rest: string)
    ensures After(pat + rest, pat) == Some(rest)
  {
    assert (pat + rest)[|pat|..] == rest;
  }

  /** A pattern of one character is found right after a stretch without it. */
  lemma AfterChar(a: string, c: char, b: string)
    requires c !in a
    ensures After(a + [c] + b, [c]) == Some(b)
  {
    assert a + [c] + b == a + ([c] + b);
    AfterSkip(a, [c] + b, [c]);
    AfterHere([c], b);
  }

  // ---------------------------------------------------------------- integers

  predicate IsDigit(c: char) { '0' <= c <= '9' }

  function DigitChar(d: nat): (c: char)
    requires d < 10
    ensures IsDigit(c)
  {
    (48 + d) as char
  }

  function DigitValue(c: char): nat
    requires IsDigit(c)
  {
    c as int - '0' as int
  }

  function DecimalNat(n: nat): string {
    if n < 10 then [DigitChar(n)] else DecimalNat(n / 10) + [DigitChar(n % 10)]
  }

  /** `std::to_string(n)`, also what `%d` prints. */
  function Decimal(n: int): string {
    if n < 0 then "-" + DecimalNat(-n) else DecimalNat(n)
  }

  /** `isspace` in the C locale. */
  predicate IsSpace(c: char) { c == ' ' || '\t' <= c <= '\r' }

  function SkipSpace(s: string): string {
    if s != "" && IsSpace(s[0]) then SkipSpace(s[1..]) else s
  }

  /** How many digits `s` begins with. */
  function DigitRun(s: string): (n: nat)
    ensures n <= |s| && forall i :: 0 <= i < n ==> IsDigit(s[i])
  {
    if s != "" && IsDigit(s[0]) then 1 + DigitRun(s[1..]) else 0
  }

  function DigitsValue(s: string): nat
    requires forall i :: 0 <= i < |s| ==> IsDigit(s[i])
  {
    if s == "" then 0 else 10 * DigitsValue(s[..|s| - 1]) + DigitValue(s[|s| - 1])
  }

  const LONG_MAX := 0x7fff_ffff_ffff_ffff

  function ClampLong(v: int): int {
    if v > LONG_MAX then LONG_MAX else if v < -LONG_MAX - 1 then -LONG_MAX - 1 else v
  }

  /** The value of the digits `u` begins with, if it begins with one. */
  function ReadDigits(u: string): Option<nat> {
    var n := DigitRun(u);
    if n == 0 then None else Some(DigitsValue(u[..n]))
  }

  function SignedLong(negative: bool, magnitude: Option<nat>): Option<int> {
    match magnitude
    case None => None
    case Some(m) => Some(ClampLong(if negative then -(m as int) else m))
  }

  /** `strtol(s, &end, 10)` with a 64-bit `long`; None when `end` stays at the start. */
  function Strtol(s: string): Option<int> {
    var t := SkipSpace(s);
    if t != "" && t[0] == '-' then SignedLong(true, ReadDigits(t[1..]))
    else if t != "" && t[0] == '+' then SignedLong(false, ReadDigits(t[1..]))
    else SignedLong(false, ReadDigits(t))
  }

  lemma {:induction false} DecimalNatDigits(n: nat)
    ensures |DecimalNat(n)| >= 1
    ensures forall i :: 0 <= i < |DecimalNat(n)| ==> IsDigit(DecimalNat(n)[i])
    ensures DigitsValue(DecimalNat(n)) == n
  {
    if n < 10 {
      assert [DigitChar(n)][..0] == "";
    } else {
      DecimalNatDigits(n / 10);
      var s := DecimalNat(n);
      assert s[..|s| - 1] == DecimalNat(n / 10);
    }
  }

  lemma {:induction false} DigitRunStops(a: string, b: string)
    requires forall i :: 0 <= i < |a| ==> IsDigit(a[i])
    requires b == "" || !IsDigit(b[0])
    ensures DigitRun(a + b) == |a|
  {
    if a == "" {
      assert a + b == b;
    } else {
      assert (a + b)[1..] == a[1..] + b;
      DigitRunStops(a[1..], b);
    }
  }

  lemma ReadsDigits(d: string, rest: string)
    requires d != "" && forall i :: 0 <= i < |d| ==> IsDigit(d[i])
    requires rest == "" || !IsDigit(rest[0])
    ensures ReadDigits(d + rest) == Some(DigitsValue(d))
  {
    DigitRunStops(d, rest);
    assert (d + rest)[..|d|] == d;
  }

  lemma StrtolSign(s: string)
    requires s != "" && (s[0] == '-' || IsDigit(s[0]))
    ensures Strtol(s) == if s[0] == '-' then SignedLong(true, ReadDigits(s[1..]))
                         else SignedLong(false, ReadDigits(s))
  {
    assert SkipSpace(s) == s;
  }

  /** Reading a printed integer gives it back, whatever non-digit follows it. */
  lemma StrtolReadsDecimal(n: Int32, rest: string)
    requires rest == "" || !IsDigit(rest[0])
    ensures Strtol(Decimal(n) + rest) == Some(n)
  {
    var wide: int := n;
    var m: nat := if wide < 0 then -wide else wide;
    DecimalNatDigits(m);
    ReadsDigits(DecimalNat(m), rest);
    StrtolSign(Decimal(n) + rest);
    if n < 0 {
      MinusDigits(DecimalNat(m), rest);
    }
  }

  lemma MinusDigits(d: string, rest: string)
    ensures ("-" + d + rest)[0] == '-' && ("-" + d + rest)[1..] == d + rest
  {}

  // ---------------------------------------------------------------- what the pieces mean

  /** The position found is that of the first occurrence. */
  lemma {:induction false} FindIsFirst(s: string, pat: string, start: nat)
    requires start <= |s|
    ensures match Find(s, pat, start)
            case None => forall i :: start <= i <= |s| ==> !(pat <= s[i..])
            case Some(at) => pat <= s[at..] && forall i :: start <= i < at ==> !(pat <= s[i..])
    decreases |s| - start
  {
    if !(pat <= s[start..]) && start < |s| {
      FindIsFirst(s, pat, start + 1);
    }
  }

  lemma DigitsAreOrdinary(d: nat)
    requires d < 10
    ensures DigitChar(d) == "0123456789"[d] && DigitValue("0123456789"[d]) == d
  {}

  /** A printed number is its tenth, printed, and its last digit. */
  lemma DecimalIsPositional(n: nat, d: nat)
    requires n > 0 && d < 10
    ensures Decimal(10 * n + d) == Decimal(n) + ["0123456789"[d]]
    ensures Decimal(d) == ["0123456789"[d]]
    ensures Decimal(0 - n) == "-" + Decimal(n)
  {
    DigitsAreOrdinary(d);
    assert (10 * n + d) / 10 == n && (10 * n + d) % 10 == d;
  }

  lemma SpacesAre(c: char)
    ensures IsSpace(c) <==> c in {' ', '\t', '\n', '\r'} || c as int == 11 || c as int == 12
  {}

  /** White space and a sign may stand before the digits; what is too large stays at the limit. */
  lemma StrtolMeans(blanks: string, sign: string, digits: string, rest: string)
    requires forall c :: c in blanks ==> IsSpace(c)
    requires sign in {"", "+", "-"}
    requires digits != "" && forall i :: 0 <= i < |digits| ==> '0' <= digits[i] <= '9'
    requires rest == "" || !('0' <= rest[0] <= '9')
    ensures
      var v := if sign == "-" then 0 - DigitsValue(digits) else DigitsValue(digits);
      var max: int := 9223372036854775807;
      Strtol(blanks + (sign + (digits + rest))) == Some(if v > max then max else if v < -max - 1 then -max - 1 else v)
  {
    var s := digits + rest;
    ReadsDigits(digits, rest);
    assert s[0] == digits[0];
    if sign == "" {
      assert sign + s == s;
      StrtolSign(s);
      SpaceIsSkipped(blanks, s);
    } else {
      assert (sign + s)[0] == sign[0] && sign == [sign[0]];
      SignIsRead(sign[0], s);
      SpaceIsSkipped(blanks, sign + s);
    }
  }

  lemma SignIsRead(sign: char, s: string)
    requires sign == '+' || sign == '-'
    ensures Strtol([sign] + s) == SignedLong(sign == '-', ReadDigits(s))
  {
    assert SkipSpace([sign] + s) == [sign] + s;
    assert ([sign] + s)[1..] == s;
  }

  lemma SpaceIsSkipped(blanks: string, s: string)
    requires forall c :: c in blanks ==> IsSpace(c)
    requires s != "" && !IsSpace(s[0])
    ensures Strtol(blanks + s) == Strtol(s)
  {
    SkipsSpace(blanks, s);
    assert SkipSpace(s) == s;
  }

  lemma {:induction false} SkipsSpace(blanks: string, s: string)
    requires forall c :: c in blanks ==> IsSpace(c)
    requires s != "" && !IsSpace(s[0])
    ensures SkipSpace(blanks + s) == s
  {
    if blanks == "" {
      assert blanks + s == s;
    } else {
      assert (blanks + s)[0] == blanks[0] && (blanks + s)[1..] == blanks[1..] + s;
      SkipsSpace(blanks[1..], s);
    }
  }

  /** Nothing is read where no digit is. */
  lemma StrtolReadsNothing(s: string)
    requires s == "" || (!IsSpace(s[0]) && s[0] != '+' && s[0] != '-' && !('0' <= s[0] <= '9'))
    ensures Strtol(s) == None
  {
    assert SkipSpace(s) == s;
  }
}
