/**
 * The two UTF-8 helpers (prototypes/lvgl_assist_edge_variants.cpp:84-105) against the encoding of
 * section 3 of RFC 3629. A text is the bytes before its NUL.
 */
module Utf8 {
  import opened Basics
  import opened Arithmetic

  /** A Unicode scalar value, surrogates excluded; U+0000 cannot stand in a C string. */
  type Scalar = x: int | 0 < x <= 0x10_FFFF && !(0xD800 <= x <= 0xDFFF) witness 1

  function Encode(c: Scalar): (bytes: Bytes)
    ensures 1 <= |bytes| <= 4
  {
    if c <= 0x7F then [c]
    else if c <= 0x7FF then [0xC0 + c / 64, 0x80 + c % 64]
    else if c <= 0xFFFF then [0xE0 + c / 64 / 64, 0x80 + c / 64 % 64, 0x80 + c % 64]
    else [0xF0 + c / 64 / 64 / 64, 0x80 + c / 64 / 64 % 64, 0x80 + c / 64 % 64, 0x80 + c % 64]
  }

  function EncodeAll(scalars: seq<Scalar>): (bytes: Bytes) {
    if scalars == [] then [] else Encode(scalars[0]) + EncodeAll(scalars[1..])
  }

  lemma {:induction false} EncodeAllConcat(a: seq<Scalar>, b: seq<Scalar>)
    ensures EncodeAll(a + b) == EncodeAll(a) + EncodeAll(b)
  {
    if a == [] {
      assert a + b == b;
    } else {
      var whole := a + b;
      assert whole[0] == a[0] && whole[1..] == a[1..] + b;
      EncodeAllConcat(a[1..], b);
      Regroup(Encode(a[0]), EncodeAll(a[1..]), EncodeAll(b));
      assert EncodeAll(whole) == Encode(a[0]) + EncodeAll(whole[1..]);
    }
  }

  /** `(value & mask) == bits` for a mask that keeps the bits of weight `unit` and above. */
  predicate HighBits(value: Byte, unit: nat, bits: Byte)
    requires unit > 0
  {
    value - value % unit == bits
  }

  /** A byte that is not a continuation byte. */
  predicate IsLead(b: Byte) {
    !HighBits(b, 0x40, 0x80)
  }

  function Width(lead: Byte): nat {
    if HighBits(lead, 0x20, 0xC0) then 2
    else if HighBits(lead, 0x10, 0xE0) then 3
    else if HighBits(lead, 0x08, 0xF0) then 4
    else 1
  }

  function Leads(text: Bytes): nat {
    if text == [] then 0 else Leads(text[..|text| - 1]) + (if IsLead(text[|text| - 1]) then 1 else 0)
  }

  /** Keeping the high bits of a byte tells its range. */
  lemma HighBitsAreRange(value: Byte, unit: nat, bits: Byte)
    requires unit in {0x08, 0x10, 0x20, 0x40} && bits % unit == 0
    ensures HighBits(value, unit, bits) <==> bits <= value < bits + unit
  {}

  lemma LeadRanges(b: Byte)
    ensures Width(b) == if 0xC0 <= b < 0xE0 then 2 else if 0xE0 <= b < 0xF0 then 3
                        else if 0xF0 <= b < 0xF8 then 4 else 1
    ensures IsLead(b) <==> !(0x80 <= b < 0xC0)
  {
    HighBitsAreRange(b, 0x20, 0xC0);
    HighBitsAreRange(b, 0x10, 0xE0);
    HighBitsAreRange(b, 0x08, 0xF0);
    HighBitsAreRange(b, 0x40, 0x80);
  }

  /** The ranges of the bytes that section 3 of RFC 3629 gives to a scalar value. */
  lemma EncodeRanges(c: Scalar)
    ensures
      var e := Encode(c);
      (match |e|
       case 1 => 0 < e[0] < 0x80
       case 2 => 0xC0 <= e[0] < 0xE0
       case 3 => 0xE0 <= e[0] < 0xF0
       case _ => 0xF0 <= e[0] < 0xF8) &&
      forall i :: 1 <= i < |e| ==> 0x80 <= e[i] < 0xC0
  {}

  lemma EncodeShape(c: Scalar)
    ensures Width(Encode(c)[0]) == |Encode(c)|
    ensures forall i :: 0 <= i < |Encode(c)| ==> (IsLead(Encode(c)[i]) <==> i == 0)
    ensures 0 !in Encode(c)
  {
    var e := Encode(c);
    EncodeRanges(c);
    forall i | 0 <= i < |e|
      ensures IsLead(e[i]) <==> i == 0
    {
      LeadRanges(e[i]);
    }
    LeadRanges(e[0]);
  }

  lemma {:induction false} LeadsConcat(a: Bytes, b: Bytes)
    ensures Leads(a + b) == Leads(a) + Leads(b)
  {
    if b == [] {
      assert a + b == a;
    } else {
      var last := |b| - 1;
      LeadsConcat(a, b[..last]);
      assert (a + b)[..|a| + last] == a + b[..last];
    }
  }

  lemma {:induction false} Continuations(bytes: Bytes)
    requires forall i :: 0 <= i < |bytes| ==> !IsLead(bytes[i])
    ensures Leads(bytes) == 0
  {
    if bytes != [] {
      Continuations(bytes[..|bytes| - 1]);
    }
  }

  lemma OneLead(c: Scalar)
    ensures Leads(Encode(c)) == 1
  {
    EncodeShape(c);
    var e := Encode(c);
    var lead, rest := e[..1], e[1..];
    assert e == lead + rest;
    LeadsConcat(lead, rest);
    assert lead[..0] == [];
    Continuations(rest);
  }

  method CharacterCount(text: Bytes) returns (count: nat)
    ensures count == Leads(text)
  {
    count := 0;
    assert text[..0] == [];
    for i := 0 to |text|
      invariant count == Leads(text[..i])
    {
      assert text[..i + 1][..i] == text[..i];
      if !HighBits(text[i], 0x40, 0x80) {
        count := count + 1;
      }
    }
    assert text[..|text|] == text;
  }

  /** The lead bytes of a valid text are as many as its scalar values. */
  lemma {:induction false} CountIsScalars(scalars: seq<Scalar>)
    ensures Leads(EncodeAll(scalars)) == |scalars|
  {
    if scalars != [] {
      OneLead(scalars[0]);
      LeadsConcat(Encode(scalars[0]), EncodeAll(scalars[1..]));
      CountIsScalars(scalars[1..]);
    }
  }

  /** The first `n` scalar values, or all of them. */
  function Prefix(scalars: seq<Scalar>, n: nat): seq<Scalar> {
    scalars[..Min(n, |scalars|)]
  }

  // ---------------------------------------------------------------- stepping over characters

  /** What the routine makes of its memory from the text on; nothing if it reads beyond it. */
  function Scan(memory: Bytes, characters: nat): Option<nat>
    decreases characters
  {
    if memory == [] then None
    else if memory[0] == 0 || characters == 0 then Some(0)
    else
      var width := Width(memory[0]);
      if width > |memory| then None else Further(width, Scan(memory[width..], characters - 1))
  }

  function Further(skipped: nat, r: Option<nat>): Option<nat> {
    if r.Some? then Some(skipped + r.value) else None
  }

  lemma ScanStep(memory: Bytes, at: nat, characters: nat)
    requires at < |memory| && memory[at] != 0 && characters > 0
    ensures
      var next := at + Width(memory[at]);
      Further(at, Scan(memory[at..], characters)) ==
      if next <= |memory| then Further(next, Scan(memory[next..], characters - 1)) else None
  {
    var here, width := memory[at..], Width(memory[at]);
    assert here[0] == memory[at];
    if at + width <= |memory| {
      assert here[width..] == memory[at + width..];
    }
  }

  /** The loop, on any memory. */
  method PrefixBytes(memory: Bytes, characters: nat) returns (r: Option<nat>)
    ensures r == Scan(memory, characters)
  {
    var bytes := 0;
    var count := 0;
    assert memory[0..] == memory;
    while true
      invariant count <= characters
      invariant Scan(memory, characters) ==
        if bytes <= |memory| then Further(bytes, Scan(memory[bytes..], characters - count)) else None
      decreases characters - count
    {
      if bytes >= |memory| {
        return None;
      }
      if memory[bytes] == 0 || count >= characters {
        return Some(bytes);
      }
      ScanStep(memory, bytes, characters - count);
      var value := memory[bytes];
      var width := 1;
      if HighBits(value, 0x20, 0xC0) {
        width := 2;
      } else if HighBits(value, 0x10, 0xE0) {
        width := 3;
      } else if HighBits(value, 0x08, 0xF0) {
        width := 4;
      }
      bytes := bytes + width;
      count := count + 1;
    }
  }

  /** Where so many steps over a text end, each over as many bytes as the byte it starts at
      announces; behind the text if the last one leads over its NUL. */
  function Walked(text: Bytes, characters: nat): nat
    decreases characters
  {
    if text == [] || characters == 0 then 0
    else
      var width := Width(text[0]);
      if width > |text| then width else width + Walked(text[width..], characters - 1)
  }

  lemma {:induction false} ScanInside(text: Bytes, beyond: Bytes, characters: nat)
    requires 0 !in text && Walked(text, characters) <= |text|
    ensures Scan(text + [0] + beyond, characters) == Some(Walked(text, characters))
    decreases characters
  {
    var memory := text + [0] + beyond;
    if text != [] && characters > 0 {
      var width := Width(text[0]);
      assert memory[0] == text[0] && text[0] in text;
      assert memory[width..] == text[width..] + [0] + beyond;
      ScanInside(text[width..], beyond, characters - 1);
    }
  }

  lemma {:induction false} ScanOverruns(text: Bytes, characters: nat)
    requires 0 !in text && Walked(text, characters) > |text|
    ensures Scan(text + [0], characters) == None
    decreases characters
  {
    var memory, width := text + [0], Width(text[0]);
    assert memory[0] == text[0] && text[0] in text;
    if width <= |text| {
      assert memory[width..] == text[width..] + [0];
      ScanOverruns(text[width..], characters - 1);
    } else if width == |memory| {
      assert memory[width..] == [];
    }
  }

  /** On a text and its NUL the routine ends where the steps do, whatever follows, unless a step
      leads over the NUL: then it reads on behind it. */
  lemma ScanIsWalk(text: Bytes, beyond: Bytes, characters: nat)
    requires 0 !in text
    ensures Walked(text, characters) <= |text| ==>
      Scan(text + [0] + beyond, characters) == Some(Walked(text, characters))
    ensures Walked(text, characters) > |text| ==> Scan(text + [0], characters) == None
  {
    if Walked(text, characters) <= |text| {
      ScanInside(text, beyond, characters);
    } else {
      ScanOverruns(text, characters);
    }
  }

  /** Every character of the text has all the bytes that its first one announces. */
  predicate WholeBlocks(text: Bytes) {
    text == [] || (Width(text[0]) <= |text| && WholeBlocks(text[Width(text[0])..]))
  }

  lemma {:induction false} WholeBlocksStay(text: Bytes, characters: nat)
    requires WholeBlocks(text)
    ensures Walked(text, characters) <= |text|
    decreases characters
  {
    if text != [] && characters > 0 {
      WholeBlocksStay(text[Width(text[0])..], characters - 1);
    }
  }

  lemma {:induction false} BrokenBlockIsOverrun(text: Bytes) returns (characters: nat)
    requires !WholeBlocks(text)
    ensures Walked(text, characters) > |text|
    decreases |text|
  {
    var width := Width(text[0]);
    if width > |text| {
      characters := 1;
    } else {
      var later := BrokenBlockIsOverrun(text[width..]);
      characters := later + 1;
    }
  }

  /** On exactly which texts the routine never reads behind the NUL. */
  lemma StaysInside(text: Bytes)
    requires 0 !in text
    ensures (forall n: nat :: Scan(text + [0], n).Some?) <==> WholeBlocks(text)
  {
    assert text + [0] + [] == text + [0];
    if WholeBlocks(text) {
      forall n: nat
        ensures Scan(text + [0], n).Some?
      {
        WholeBlocksStay(text, n);
        ScanIsWalk(text, [], n);
      }
    } else {
      var n := BrokenBlockIsOverrun(text);
      ScanIsWalk(text, [], n);
      assert Scan(text + [0], n) == None;
    }
  }

  lemma {:induction false} NoNul(scalars: seq<Scalar>)
    ensures 0 !in EncodeAll(scalars)
  {
    if scalars != [] {
      EncodeShape(scalars[0]);
      NoNul(scalars[1..]);
    }
  }

  lemma WalkOne(c: Scalar, later: Bytes, n: nat)
    requires n > 0
    ensures Walked(Encode(c) + later, n) == |Encode(c)| + Walked(later, n - 1)
  {
    EncodeShape(c);
    WalkBlock(Encode(c), later, n);
  }

  lemma WalkBlock(block: Bytes, later: Bytes, n: nat)
    requires n > 0 && block != [] && Width(block[0]) == |block|
    ensures Walked(block + later, n) == |block| + Walked(later, n - 1)
  {
    var text := block + later;
    assert text[0] == block[0] && text[|block|..] == later;
  }

  /** Where `n` steps over encoded scalar values and what follows them end. */
  function EndOf(scalars: seq<Scalar>, tail: Bytes, n: nat): nat {
    if n <= |scalars| then |EncodeAll(scalars[..n])|
    else |EncodeAll(scalars)| + Walked(tail, n - |scalars|)
  }

  lemma EndOfFirst(scalars: seq<Scalar>, tail: Bytes, n: nat)
    requires scalars != [] && n > 0
    ensures EndOf(scalars, tail, n) == |Encode(scalars[0])| + EndOf(scalars[1..], tail, n - 1)
  {
    if n <= |scalars| {
      FirstOfPrefix(scalars, n);
    }
  }

  /** Each step over encoded scalar values is over one of them. */
  lemma {:induction false} WalkOver(scalars: seq<Scalar>, tail: Bytes, n: nat)
    ensures Walked(EncodeAll(scalars) + tail, n) == EndOf(scalars, tail, n)
    decreases |scalars|
  {
    if scalars == [] {
      assert EncodeAll(scalars) + tail == tail && scalars[..0] == [];
    } else if n == 0 {
      assert scalars[..0] == [];
    } else {
      var later := EncodeAll(scalars[1..]) + tail;
      WalkOver(scalars[1..], tail, n - 1);
      EncodeFirst(scalars, tail);
      WalkOne(scalars[0], later, n);
      EndOfFirst(scalars, tail, n);
    }
  }

  lemma EncodeFirst(scalars: seq<Scalar>, tail: Bytes)
    requires scalars != []
    ensures EncodeAll(scalars) + tail == Encode(scalars[0]) + (EncodeAll(scalars[1..]) + tail)
  {
    Regroup(Encode(scalars[0]), EncodeAll(scalars[1..]), tail);
  }

  lemma FirstOfPrefix(scalars: seq<Scalar>, n: nat)
    requires 0 < n <= |scalars|
    ensures EncodeAll(scalars[..n]) == Encode(scalars[0]) + EncodeAll(scalars[1..][..n - 1])
  {
    var prefix := scalars[..n];
    assert prefix[0] == scalars[0] && prefix[1..] == scalars[1..][..n - 1];
  }

  /** A valid text holds no NUL, and whatever follows it the result is the encoded length of its
      first `n` scalar values, or of all. */
  lemma PrefixIsScalars(scalars: seq<Scalar>, beyond: Bytes, n: nat)
    ensures 0 !in EncodeAll(scalars)
    ensures Scan(EncodeAll(scalars) + [0] + beyond, n) == Some(|EncodeAll(Prefix(scalars, n))|)
    ensures EncodeAll(Prefix(scalars, n)) <= EncodeAll(scalars)
  {
    var text, a := EncodeAll(scalars), Prefix(scalars, n);
    NoNul(scalars);
    assert scalars == a + scalars[|a|..];
    EncodeAllConcat(a, scalars[|a|..]);
    WalkOver(scalars, [], n);
    assert text + [] == text && Walked([], n) == 0;
    assert n > |scalars| ==> Walked([], n - |scalars|) == 0 && a == scalars;
    ScanIsWalk(text, beyond, n);
  }

  /** A valid text that ends inside a character: the routine reads behind the NUL exactly when
      it is asked for more characters than the text has whole ones. */
  lemma CutCharacterIsOverrun(scalars: seq<Scalar>, c: Scalar, k: nat, n: nat)
    requires 0 < k < |Encode(c)|
    ensures
      var text := EncodeAll(scalars) + Encode(c)[..k];
      0 !in text &&
      Scan(text + [0], n) == if n <= |scalars| then Some(|EncodeAll(scalars[..n])|) else None
  {
    var cut := Encode(c)[..k];
    var text := EncodeAll(scalars) + cut;
    NoNul(scalars);
    EncodeShape(c);
    assert cut[0] == Encode(c)[0] && forall b :: b in cut ==> b in Encode(c);
    WalkOver(scalars, cut, n);
    ScanIsWalk(text, [], n);
    assert text + [0] + [] == text + [0];
    if n <= |scalars| {
      PrefixIsScalars(scalars, [], n);
    } else {
      assert Walked(cut, n - |scalars|) == |Encode(c)|;
    }
  }

  /** The shortest such text. */
  lemma LoneLeadIsOverrun()
    ensures Scan([0xC3, 0], 1) == None
  {
    assert Encode(0xE9) == [0xC3, 0xA9] && Encode(0xE9)[..1] == [0xC3];
    CutCharacterIsOverrun([], 0xE9, 1, 1);
    assert EncodeAll([]) + Encode(0xE9)[..1] + [0] == [0xC3, 0];
  }

  /** A prefix ends at a boundary between scalar values, grows with `n`, and is the whole text
      from the number of its characters on. */
  lemma PrefixesGrow(scalars: seq<Scalar>, m: nat, n: nat)
    requires m <= n
    ensures EncodeAll(Prefix(scalars, m)) <= EncodeAll(Prefix(scalars, n)) <= EncodeAll(scalars)
    ensures Leads(EncodeAll(Prefix(scalars, m))) == Min(m, Leads(EncodeAll(scalars)))
    ensures m < n && m < |scalars| ==>
      |EncodeAll(Prefix(scalars, m))| < |EncodeAll(Prefix(scalars, n))|
    ensures EncodeAll(Prefix(scalars, Leads(EncodeAll(scalars)))) == EncodeAll(scalars)
  {
    var a, b := Prefix(scalars, m), Prefix(scalars, n);
    assert b == a + b[|a|..];
    assert scalars == b + scalars[|b|..];
    EncodeAllConcat(a, b[|a|..]);
    EncodeAllConcat(b, scalars[|b|..]);
    CountIsScalars(a);
    CountIsScalars(scalars);
    assert Prefix(scalars, |scalars|) == scalars;
  }

  lemma EncodeIsPrefixFree(c: Scalar, d: Scalar, s: Bytes, t: Bytes)
    requires Encode(c) + s == Encode(d) + t
    ensures c == d && s == t
  {
    EncodeShape(c);
    EncodeShape(d);
    var whole := Encode(c) + s;
    assert whole[0] == Encode(c)[0] && whole[0] == Encode(d)[0];
    assert Encode(c) == whole[..|Encode(c)|] && Encode(d) == whole[..|Encode(d)|];
    assert s == whole[|Encode(c)|..];
    DecodeInvertsEncode(c);
    DecodeInvertsEncode(d);
  }

  function Decode(bytes: seq<int>): int {
    match |bytes|
    case 1 => bytes[0]
    case 2 => 64 * (bytes[0] - 0xC0) + (bytes[1] - 0x80)
    case 3 => 64 * (64 * (bytes[0] - 0xE0) + (bytes[1] - 0x80)) + (bytes[2] - 0x80)
    case 4 =>
      64 * (64 * (64 * (bytes[0] - 0xF0) + (bytes[1] - 0x80)) + (bytes[2] - 0x80)) + (bytes[3] - 0x80)
    case _ => 0
  }

  lemma DecodeInvertsEncode(c: Scalar)
    ensures Decode(Encode(c)) == c
  {
    DivisionSplits(c, 64);
    DivisionSplits(c / 64, 64);
    DivisionSplits(c / 64 / 64, 64);
  }

  /** A text spells one sequence of scalar values only. */
  lemma {:induction false} EncodeAllIsInjective(a: seq<Scalar>, b: seq<Scalar>)
    requires EncodeAll(a) == EncodeAll(b)
    ensures a == b
  {
    if a != [] && b != [] {
      EncodeIsPrefixFree(a[0], b[0], EncodeAll(a[1..]), EncodeAll(b[1..]));
      EncodeAllIsInjective(a[1..], b[1..]);
      assert a == [a[0]] + a[1..] && b == [b[0]] + b[1..];
    }
  }

  /** The table of section 3 of RFC 3629: how many bytes a scalar value has, and the encodings of a
      dollar, a cent, a euro and a hwair. */
  lemma EncodeMeans(c: Scalar)
    ensures |Encode(c)| == if c < 0x80 then 1 else if c < 0x800 then 2 else if c < 0x1_0000 then 3 else 4
    ensures Decode(Encode(c)) == c
    ensures Encode(0x24) == [0x24] && Encode(0xA2) == [0xC2, 0xA2] && Encode(0x20AC) == [0xE2, 0x82, 0xAC]
    ensures Encode(0x10348) == [0xF0, 0x90, 0x8D, 0x88]
  {
    DecodeInvertsEncode(c);
  }
}
