/**
 * Lists of names as JavaScript handles them in the locale tools: `split`, `join` and the
 * default `sort`.
 */
module Names {

  /** `s.split(sep)` for a one-character separator. */
  function Split(s: string, sep: char): (parts: seq<string>)
    ensures parts != []
  {
    if s == "" then [""]
    else
      var later := Split(s[1..], sep);
      if s[0] == sep then [""] + later else [[s[0]] + later[0]] + later[1..]
  }

  /** `parts.join(sep)` */
  function Join(parts: seq<string>, sep: char): string {
    if parts == [] then ""
    else if |parts| == 1 then parts[0]
    else parts[0] + [sep] + Join(parts[1..], sep)
  }

  predicate Free(parts: seq<string>, sep: char) {
    forall i :: 0 <= i < |parts| ==> sep !in parts[i]
  }

  lemma {:induction false} SplitPiece(piece: string, sep: char, rest: string)
    requires sep !in piece
    ensures Split(piece, sep) == [piece]
    ensures Split(piece + [sep] + rest, sep) == [piece] + Split(rest, sep)
  {
    if piece == "" {
      assert ("" + [sep] + rest)[1..] == rest;
    } else {
      SplitPiece(piece[1..], sep, rest);
      assert (piece + [sep] + rest)[1..] == piece[1..] + [sep] + rest;
      assert [piece[0]] + piece[1..] == piece;
    }
  }

  lemma {:induction false} FirstPartIsFree(s: string, sep: char)
    ensures sep !in Split(s, sep)[0]
  {
    if s != "" {
      FirstPartIsFree(s[1..], sep);
    }
  }

  lemma {:induction false} SplitIsFree(s: string, sep: char)
    ensures Free(Split(s, sep), sep)
  {
    if s != "" {
      SplitIsFree(s[1..], sep);
      var later, parts := Split(s[1..], sep), Split(s, sep);
      assert s[0] != sep ==> forall i :: 1 <= i < |parts| ==> parts[i] == later[i];
      assert s[0] == sep ==> forall i :: 1 <= i < |parts| ==> parts[i] == later[i - 1];
    }
  }

  lemma {:induction false} JoinInvertsSplit(s: string, sep: char)
    ensures Join(Split(s, sep), sep) == s
  {
    if s != "" {
      JoinInvertsSplit(s[1..], sep);
      var later := Split(s[1..], sep);
      if s[0] == sep {
        assert ([""] + later)[1..] == later;
      } else {
        assert ([[s[0]] + later[0]] + later[1..])[1..] == later[1..];
      }
      assert s == [s[0]] + s[1..];
    }
  }

  lemma {:induction false} SplitInvertsJoin(parts: seq<string>, sep: char)
    requires parts != [] && Free(parts, sep)
    ensures Split(Join(parts, sep), sep) == parts
  {
    if |parts| == 1 {
      SplitPiece(parts[0], sep, "");
    } else {
      SplitInvertsJoin(parts[1..], sep);
      SplitPiece(parts[0], sep, Join(parts[1..], sep));
    }
  }

  lemma {:induction false} JoinGrows(a: seq<string>, b: seq<string>, sep: char)
    requires a != []
    ensures |Join(a + b, sep)| >= |Join(a, sep)|
    ensures b != [] ==> |Join(a + b, sep)| > |Join(a, sep)|
    decreases |a|
  {
    if b == [] {
      assert a + b == a;
    } else {
      assert (a + b)[0] == a[0] && (a + b)[1..] == a[1..] + b;
      if |a| > 1 {
        JoinGrows(a[1..], b, sep);
      }
    }
  }

  // ---------------------------------------------------------------- the default order

  predicate Leq(a: string, b: string) {
    a == "" || (b != "" && (a[0] < b[0] || (a[0] == b[0] && Leq(a[1..], b[1..]))))
  }

  lemma {:induction false} LeqTotal(a: string, b: string)
    ensures Leq(a, b) || Leq(b, a)
    ensures Leq(a, b) && Leq(b, a) ==> a == b
  {
    if a != "" && b != "" && a[0] == b[0] {
      LeqTotal(a[1..], b[1..]);
      assert a == [a[0]] + a[1..] && b == [b[0]] + b[1..];
    }
  }

  lemma {:induction false} LeqTransitive(a: string, b: string, c: string)
    requires Leq(a, b) && Leq(b, c)
    ensures Leq(a, c)
  {
    if a != "" && a[0] == b[0] && b[0] == c[0] {
      LeqTransitive(a[1..], b[1..], c[1..]);
    }
  }

  predicate Sorted(xs: seq<string>) {
    forall i, j :: 0 <= i < j < |xs| ==> Leq(xs[i], xs[j])
  }

  function Insert(x: string, xs: seq<string>): seq<string> {
    if xs == [] then [x]
    else if Leq(x, xs[0]) then [x] + xs
    else [xs[0]] + Insert(x, xs[1..])
  }

  /** `xs.sort()` */
  function Sort(xs: seq<string>): seq<string> {
    if xs == [] then [] else Insert(xs[0], Sort(xs[1..]))
  }

  lemma {:induction false} InsertSorts(x: string, xs: seq<string>)
    requires Sorted(xs)
    ensures multiset(Insert(x, xs)) == multiset{x} + multiset(xs)
    ensures Sorted(Insert(x, xs))
  {
    if xs == [] {
    } else if Leq(x, xs[0]) {
      forall j | 0 <= j < |xs|
        ensures Leq(x, xs[j])
      {
        if j > 0 {
          LeqTransitive(x, xs[0], xs[j]);
        }
      }
    } else {
      var later := Insert(x, xs[1..]);
      InsertSorts(x, xs[1..]);
      assert xs == [xs[0]] + xs[1..];
      LeqTotal(x, xs[0]);
      forall j | 0 <= j < |later|
        ensures Leq(xs[0], later[j])
      {
        assert later[j] in multiset(later);
        if later[j] != x {
          assert later[j] in multiset(xs[1..]);
        }
      }
    }
  }

  lemma {:induction false} SortSorts(xs: seq<string>)
    ensures Sorted(Sort(xs)) && multiset(Sort(xs)) == multiset(xs)
  {
    if xs != [] {
      SortSorts(xs[1..]);
      InsertSorts(xs[0], Sort(xs[1..]));
      assert xs == [xs[0]] + xs[1..];
    }
  }

  lemma FirstIsLeast(xs: seq<string>, y: string)
    requires Sorted(xs) && y in xs
    ensures Leq(xs[0], y)
  {
    LeqTotal(y, y);
  }

  lemma SameFirst(xs: seq<string>, ys: seq<string>)
    requires Sorted(xs) && Sorted(ys) && xs != [] && ys != [] && multiset(xs) == multiset(ys)
    ensures xs[0] == ys[0]
  {
    assert xs[0] in multiset(ys) && ys[0] in multiset(xs);
    FirstIsLeast(xs, ys[0]);
    FirstIsLeast(ys, xs[0]);
    LeqTotal(xs[0], ys[0]);
  }

  lemma SameRest(xs: seq<string>, ys: seq<string>)
    requires xs != [] && ys != [] && xs[0] == ys[0] && multiset(xs) == multiset(ys)
    ensures multiset(xs[1..]) == multiset(ys[1..])
  {
    assert xs == [xs[0]] + xs[1..] && ys == [ys[0]] + ys[1..];
    assert multiset(xs[1..]) == multiset(xs) - multiset{xs[0]};
    assert multiset(ys[1..]) == multiset(ys) - multiset{ys[0]};
  }

  /** A sorted list is determined by what it holds, and how often. */
  lemma {:induction false} SortedIsUnique(xs: seq<string>, ys: seq<string>)
    requires Sorted(xs) && Sorted(ys) && multiset(xs) == multiset(ys)
    ensures xs == ys
    decreases |xs|
  {
    assert |xs| == |multiset(xs)| == |multiset(ys)| == |ys|;
    if xs != [] {
      SameFirst(xs, ys);
      SameRest(xs, ys);
      SortedIsUnique(xs[1..], ys[1..]);
      assert xs == [xs[0]] + xs[1..] && ys == [ys[0]] + ys[1..];
    }
  }

  predicate Words(xs: seq<string>, sep: char) {
    forall i :: 0 <= i < |xs| ==> xs[i] != "" && sep !in xs[i]
  }

  lemma JoinIsInjective(xs: seq<string>, ys: seq<string>, sep: char)
    requires Words(xs, sep) && Words(ys, sep)
    ensures Join(xs, sep) == Join(ys, sep) <==> xs == ys
  {
    if xs != [] {
      SplitInvertsJoin(xs, sep);
    }
    if ys != [] {
      SplitInvertsJoin(ys, sep);
    }
  }

  lemma SortedWords(xs: seq<string>, sep: char)
    requires Words(xs, sep)
    ensures Words(Sort(xs), sep)
  {
    SortSorts(xs);
    forall i | 0 <= i < |Sort(xs)|
      ensures Sort(xs)[i] in xs
    {
      assert Sort(xs)[i] in multiset(Sort(xs));
    }
  }

  /** Comparing sorted and joined lists compares what they hold, and how often. */
  lemma JoinedSortsCompare(xs: seq<string>, ys: seq<string>, sep: char)
    requires Words(xs, sep) && Words(ys, sep)
    ensures Join(Sort(xs), sep) == Join(Sort(ys), sep) <==> multiset(xs) == multiset(ys)
  {
    SortSorts(xs);
    SortSorts(ys);
    SortedWords(xs, sep);
    SortedWords(ys, sep);
    JoinIsInjective(Sort(xs), Sort(ys), sep);
    if multiset(xs) == multiset(ys) {
      SortedIsUnique(Sort(xs), Sort(ys));
    }
  }
}
