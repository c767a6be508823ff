/**
 * The wake-word detector's main loop (prototypes/mww_probe.cpp:144-214): three feature rows per
 * inference, a ring of five scores with a running sum, a warm-up and a cool-down. Scores are the
 * model's output bytes; sums are in units of 1/256, and `threshold` is the least sum whose
 * average reaches the target.
 */
module WakeDetector {
  import opened Basics

  const ROW := 40
  const ROWS := 3
  const RING := 5
  const WARM_UP := 100
  const COOL_DOWN := 167

  function Sum(xs: seq<Byte>): nat {
    if xs == [] then 0 else xs[0] + Sum(xs[1..])
  }

  /** The last five of `xs`, or all of them if there are fewer. */
  function Recent(xs: seq<Byte>): seq<Byte> {
    if |xs| <= RING then xs else xs[|xs| - RING..]
  }

  /** A microfrontend value as the model's signed input. */
  function Quantise(value: nat): (q: int)
    ensures -128 <= q <= 127
  {
    var scaled := (value * 256 + 333) / 666 - 128;
    if scaled > 127 then 127 else scaled
  }

  function QuantiseRow(values: seq<nat>): (row: seq<int>)
    ensures |row| == |values|
    ensures forall i :: 0 <= i < |row| ==> row[i] == Quantise(values[i])
  {
    if values == [] then [] else [Quantise(values[0])] + QuantiseRow(values[1..])
  }

  // ---------------------------------------------------------------- the reference

  /** What matters of the scores so far: the inferences that woke the panel, the scores since
      the last of them, and how many scores there were. */
  datatype History = History(wakes: seq<nat>, since: seq<Byte>, count: nat)

  function LastWake(wakes: seq<nat>): nat {
    if wakes == [] then 0 else wakes[|wakes| - 1]
  }

  /** Whether the newest score wakes the panel: no ring, no counters, no warm-up after a wake. */
  predicate Fires(threshold: nat, h: History) {
    (if h.wakes == [] then ROWS * h.count >= WARM_UP else h.count >= LastWake(h.wakes) + COOL_DOWN) &&
    Sum(Recent(h.since)) >= threshold
  }

  function Scored(h: History, score: Byte): History {
    History(h.wakes, h.since + [score], h.count + 1)
  }

  function Judge(threshold: nat, h: History): History {
    if Fires(threshold, h) then History(h.wakes + [h.count], [], h.count) else h
  }

  function Past(threshold: nat, scores: seq<Byte>): (h: History)
    ensures h.count == |scores|
  {
    if scores == [] then History([], [], 0)
    else
      var last := |scores| - 1;
      Judge(threshold, Scored(Past(threshold, scores[..last]), scores[last]))
  }

  predicate Counters(wakes: seq<nat>, warmupUntil: nat, cooldownUntil: nat) {
    if wakes == [] then warmupUntil == WARM_UP && cooldownUntil == 0
    else warmupUntil == ROWS * LastWake(wakes) + WARM_UP && cooldownUntil == LastWake(wakes) + COOL_DOWN
  }

  /** The detector's counters and sum decide as the reference does. */
  lemma ConditionsAgree(threshold: nat, h: History, warmupUntil: nat, cooldownUntil: nat)
    requires Counters(h.wakes, warmupUntil, cooldownUntil)
    ensures Fires(threshold, h) <==>
      ROWS * h.count >= warmupUntil && h.count >= cooldownUntil && Sum(Recent(h.since)) >= threshold
  {}

  // ---------------------------------------------------------------- the ring

  const EMPTY: seq<Byte> := [0, 0, 0, 0, 0]

  /** The last five scores, zeros standing for those not there yet. */
  function Window(since: seq<Byte>): (w: seq<Byte>)
    ensures |w| == RING
  {
    (EMPTY + since)[|since|..]
  }

  /** The ring holds the scores since the last reset; the next one goes to position `p`, where
      the oldest is. */
  predicate Holds(ring: seq<Byte>, since: seq<Byte>, p: nat) {
    |ring| == RING && p < RING && ring[p..] + ring[..p] == Window(since)
  }

  lemma {:induction false} SumAppend(xs: seq<Byte>, x: Byte)
    ensures Sum(xs + [x]) == Sum(xs) + x
  {
    if xs == [] {
      assert [x][1..] == [];
    } else {
      assert (xs + [x])[1..] == xs[1..] + [x];
      SumAppend(xs[1..], x);
    }
  }

  lemma {:induction false} ZerosAddNothing(zeros: seq<Byte>, xs: seq<Byte>)
    requires forall i :: 0 <= i < |zeros| ==> zeros[i] == 0
    ensures Sum(zeros + xs) == Sum(xs)
  {
    if zeros == [] {
      assert zeros + xs == xs;
    } else {
      assert (zeros + xs)[1..] == zeros[1..] + xs;
      ZerosAddNothing(zeros[1..], xs);
    }
  }

  lemma WindowSum(since: seq<Byte>)
    ensures Sum(Window(since)) == Sum(Recent(since))
  {
    if |since| < RING {
      assert Window(since) == EMPTY[|since|..] + since;
      ZerosAddNothing(EMPTY[|since|..], since);
    } else {
      assert Window(since) == Recent(since);
    }
  }

  lemma WindowSlides(since: seq<Byte>, score: Byte)
    ensures Window(since + [score]) == Window(since)[1..] + [score]
  {
    assert EMPTY + (since + [score]) == EMPTY + since + [score];
  }

  /** Replacing the score at the position keeps the ring and the running sum right. */
  lemma RingUpdate(ring: seq<Byte>, since: seq<Byte>, p: nat, score: Byte)
    requires Holds(ring, since, p)
    ensures Holds(ring[p := score], since + [score], (p + 1) % RING)
    ensures Sum(Recent(since + [score])) == Sum(Recent(since)) - ring[p] + score
  {
    WindowSlides(since, score);
    RotateRing(ring, Window(since), p, score);
    SumAppend(Window(since)[1..], score);
    WindowSum(since);
    WindowSum(since + [score]);
  }

  lemma RotateRing(ring: seq<Byte>, recent: seq<Byte>, p: nat, score: Byte)
    requires |ring| == RING && p < RING && ring[p..] + ring[..p] == recent
    ensures
      var q := (p + 1) % RING;
      var updated := ring[p := score];
      recent[0] == ring[p] && updated[q..] + updated[..q] == recent[1..] + [score]
  {
    assert recent == [ring[p]] + ring[p + 1..] + ring[..p];
    var q := (p + 1) % RING;
    var updated := ring[p := score];
    if q == 0 {
      assert updated == ring[..p] + [score];
    } else {
      assert updated[q..] == ring[p + 1..] && updated[..q] == ring[..p] + [score];
    }
  }

  // ---------------------------------------------------------------- the detector

  datatype Status = Skipped | BadSize | InvokeFailed | Buffered | Inferred(woke: bool)

  class Detector {
    const threshold: nat
    const ring: array<Byte>
    const input: array<int>
    var scoreSum: int
    var scorePosition: nat
    var featureRows: nat
    var featureSlices: nat
    var warmupUntil: nat
    var inferenceCount: nat
    var cooldownUntil: nat
    var wakeCount: nat
    ghost var heard: seq<Byte>   // the scores so far
    ghost var past: History      // what the reference makes of them
    ghost var rows: seq<int>     // all quantised rows so far, end to end
    ghost var fed: seq<int>      // all tensors given to the model so far, end to end

    ghost predicate RowsValid()
      reads this`featureRows, this`fed, this`rows, input
    {
      input.Length == ROWS * ROW && featureRows <= ROWS &&
      fed + input[..featureRows * ROW] == rows
    }

    ghost predicate RingHolds(since: seq<Byte>)
      reads this`scorePosition, this`scoreSum, ring
    {
      ring.Length == RING && Holds(ring[..], since, scorePosition) && scoreSum == Sum(Recent(since))
    }

    ghost predicate RingValid()
      reads this`past, this`scorePosition, this`scoreSum, ring
    {
      RingHolds(past.since)
    }

    ghost predicate BooksValid()
      reads this`past, this`inferenceCount, this`wakeCount, this`warmupUntil, this`cooldownUntil
    {
      inferenceCount == past.count && wakeCount == |past.wakes| &&
      Counters(past.wakes, warmupUntil, cooldownUntil)
    }

    ghost predicate Valid()
      reads this, ring, input
    {
      RowsValid() && RingValid() && BooksValid() &&
      featureRows < ROWS && featureSlices == ROWS * inferenceCount + featureRows &&
      past == Past(threshold, heard)
    }

    constructor (threshold: nat)
      ensures Valid() && heard == [] && rows == [] && fed == []
      ensures this.threshold == threshold && fresh(ring) && fresh(input)
    {
      this.threshold := threshold;
      ring := new Byte[RING](_ => 0);
      input := new int[ROWS * ROW](_ => 0);
      scoreSum, scorePosition, featureRows, featureSlices := 0, 0, 0, 0;
      warmupUntil, inferenceCount, cooldownUntil, wakeCount := WARM_UP, 0, 0, 0;
      heard, past, rows, fed := [], History([], [], 0), [], [];
    }

    /** Quantise a row into the input tensor from `destination` on. */
    method QuantiseInto(values: seq<nat>, destination: nat)
      requires |values| == ROW && destination + ROW <= input.Length
      modifies input
      ensures input[..destination] == old(input[..destination])
      ensures input[destination..destination + ROW] == QuantiseRow(values)
    {
      for i := 0 to ROW
        invariant input[..destination] == old(input[..destination])
        invariant forall j :: 0 <= j < i ==> input[destination + j] == Quantise(values[j])
      {
        var value: int := (values[i] as int * 256 + 333) / 666 - 128;
        input[destination + i] := if value > 127 then 127 else if value < -128 then -128 else value;
      }
    }

    /** A row goes behind those already in the tensor. */
    method StoreRow(values: seq<nat>)
      requires RowsValid() && featureRows < ROWS && |values| == ROW
      modifies input, this`featureRows, this`featureSlices, this`rows
      ensures RowsValid() && featureRows == old(featureRows) + 1
      ensures featureSlices == old(featureSlices) + 1
      ensures rows == old(rows) + QuantiseRow(values)
    {
      featureSlices := featureSlices + 1;
      var destination := featureRows * ROW;
      ghost var before := input[..destination];
      QuantiseInto(values, destination);
      featureRows := featureRows + 1;
      rows := rows + QuantiseRow(values);
      assert input[..destination + ROW] == before + QuantiseRow(values);
      Regroup(fed, before, QuantiseRow(values));
    }

    /** The score replaces the one at the position, and the running sum follows. */
    method StoreScore(score: Byte, ghost since: seq<Byte>)
      requires RingHolds(since)
      modifies ring, this`scoreSum, this`scorePosition
      ensures RingHolds(since + [score])
    {
      RingUpdate(ring[..], since, scorePosition, score);
      ghost var before := ring[..];
      scoreSum := scoreSum - ring[scorePosition] + score;
      ring[scorePosition] := score;
      assert ring[..] == before[scorePosition := score];
      scorePosition := (scorePosition + 1) % RING;
    }

    /** The score goes into the ring and the running sum. */
    method Push(score: Byte)
      requires RingValid() && BooksValid()
      modifies ring, this`inferenceCount, this`scoreSum, this`scorePosition, this`past
      ensures RingValid() && BooksValid() && past == Scored(old(past), score)
      ensures inferenceCount == old(inferenceCount) + 1
    {
      inferenceCount := inferenceCount + 1;
      StoreScore(score, past.since);
      past := Scored(past, score);
    }

    /** The panel wakes: the counters move on and the ring is cleared. */
    method Wake()
      requires RingValid() && BooksValid() && featureSlices == ROWS * inferenceCount
      modifies ring, this`scoreSum, this`scorePosition, this`warmupUntil, this`cooldownUntil,
        this`wakeCount, this`past
      ensures RingValid() && BooksValid()
      ensures past == History(old(past).wakes + [inferenceCount], [], inferenceCount)
    {
      wakeCount := wakeCount + 1;
      cooldownUntil := inferenceCount + COOL_DOWN;
      forall i | 0 <= i < RING {
        ring[i] := 0;
      }
      scoreSum := 0;
      scorePosition := 0;
      warmupUntil := featureSlices + WARM_UP;
      past := History(past.wakes + [inferenceCount], [], inferenceCount);
    }

    /** What follows an inference. */
    method Score(score: Byte) returns (woke: bool)
      requires RingValid() && BooksValid() && featureSlices == ROWS * (inferenceCount + 1)
      modifies ring, this`scoreSum, this`scorePosition, this`warmupUntil, this`inferenceCount,
        this`cooldownUntil, this`wakeCount, this`past
      ensures RingValid() && BooksValid() && past == Judge(threshold, Scored(old(past), score))
      ensures inferenceCount == old(inferenceCount) + 1
      ensures woke == Fires(threshold, Scored(old(past), score))
    {
      Push(score);
      ConditionsAgree(threshold, past, warmupUntil, cooldownUntil);
      woke := featureSlices >= warmupUntil && inferenceCount >= cooldownUntil && scoreSum >= threshold;
      if woke {
        Wake();
      }
    }

    /** The same, for the whole run of scores so far. */
    method Hear(score: Byte) returns (woke: bool)
      requires RingValid() && BooksValid() && featureSlices == ROWS * (inferenceCount + 1)
      requires past == Past(threshold, heard)
      modifies this`heard, ring, this`scoreSum, this`scorePosition, this`warmupUntil, this`inferenceCount,
        this`cooldownUntil, this`wakeCount, this`past
      ensures RingValid() && BooksValid() && past == Past(threshold, heard)
      ensures heard == old(heard) + [score] && inferenceCount == old(inferenceCount) + 1
      ensures woke == (|heard| in past.wakes)
    {
      PastGrows(threshold, heard, score);
      heard := heard + [score];
      woke := Score(score);
    }

    /** A row, and the inference that every third one brings. */
    method Feed(values: seq<nat>, score: Option<Byte>) returns (status: Status)
      requires Valid() && |values| == ROW
      modifies this, ring, input
      ensures status == if old(featureRows) < ROWS - 1 then Buffered
                        else if score == None then InvokeFailed else Inferred(status.Inferred? && status.woke)
      ensures status != InvokeFailed ==> Valid()
      ensures rows == old(rows) + QuantiseRow(values)
      ensures fed == if status == Buffered then old(fed) else rows
      ensures heard == if status.Inferred? then old(heard) + [score.value] else old(heard)
      ensures status.Inferred? ==> status.woke == (|heard| in Past(threshold, heard).wakes)
    {
      StoreRow(values);
      if featureRows != ROWS {
        return Buffered;
      }
      featureRows := 0;
      assert input[..] == input[..ROWS * ROW];
      fed := fed + input[..];
      if score == None {
        return InvokeFailed;
      }
      assert fed + input[..0] == fed;
      var woke := Hear(score.value);
      status := Inferred(woke);
    }

    /** One output of the microfrontend; `score` is what the model returns when it is invoked. */
    method Process(values: seq<nat>, score: Option<Byte>) returns (status: Status)
      requires Valid()
      modifies this, ring, input
      ensures if values == [] then status == Skipped
              else if |values| != 40 then status == BadSize
              else status == if old(featureRows) < 2 then Buffered
                             else if score == None then InvokeFailed else Inferred(status.Inferred? && status.woke)
      ensures status != InvokeFailed ==> Valid()
      ensures rows == if |values| == 40 then old(rows) + QuantiseRow(values) else old(rows)
      ensures fed == if status.InvokeFailed? || status.Inferred? then rows else old(fed)
      ensures heard == if status.Inferred? then old(heard) + [score.value] else old(heard)
      ensures status.Inferred? ==> status.woke == (|heard| in Past(threshold, heard).wakes)
    {
      if values == [] {
        return Skipped;
      }
      if |values| != ROW {
        return BadSize;
      }
      status := Feed(values, score);
    }
  }

  // ---------------------------------------------------------------- every run

  /** One more score of a run: what the reference makes of it, and when it is a wake. */
  lemma PastGrows(threshold: nat, scores: seq<Byte>, score: Byte)
    ensures
      var judged := Scored(Past(threshold, scores), score);
      var past := Past(threshold, scores + [score]);
      past == Judge(threshold, judged) && (|scores| + 1 in past.wakes <==> Fires(threshold, judged))
  {
    assert (scores + [score])[..|scores|] == scores;
    WakesAreSpaced(threshold, scores);
  }

  /** The wakes of a run of scores: spaced, after slice 100, and within the run. */
  predicate Spaced(h: History) {
    (forall i :: 0 <= i < |h.wakes| ==> 1 <= h.wakes[i] <= h.count && 3 * h.wakes[i] >= 100) &&
    (forall i :: 0 < i < |h.wakes| ==> h.wakes[i] >= h.wakes[i - 1] + 167)
  }

  lemma JudgeKeepsSpaced(threshold: nat, h: History, score: Byte)
    requires Spaced(h)
    ensures Spaced(Judge(threshold, Scored(h, score)))
  {
    var next := Scored(h, score);
    if Fires(threshold, next) && h.wakes != [] {
      assert LastWake(h.wakes) == h.wakes[|h.wakes| - 1] >= 1;
    }
  }

  /** No wake before slice 100, and successive wakes at least 167 inferences apart. */
  lemma {:induction false} WakesAreSpaced(threshold: nat, scores: seq<Byte>)
    ensures Spaced(Past(threshold, scores))
    decreases |scores|
  {
    if scores != [] {
      WakesAreSpaced(threshold, scores[..|scores| - 1]);
      JudgeKeepsSpaced(threshold, Past(threshold, scores[..|scores| - 1]), scores[|scores| - 1]);
    }
  }

  /** In every run with a wake, the warm-up that the last wake set is over as soon as the
      cool-down it set is: the detector's test of the warm-up then never fails alone. */
  lemma WarmUpIsOver(threshold: nat, scores: seq<Byte>, warmupUntil: nat, cooldownUntil: nat)
    requires Past(threshold, scores).wakes != []
    requires Counters(Past(threshold, scores).wakes, warmupUntil, cooldownUntil)
    ensures |scores| >= cooldownUntil ==> ROWS * |scores| >= warmupUntil
  {}

  lemma JudgeKeepsTail(threshold: nat, h: History, scores: seq<Byte>)
    requires scores != [] && h.count == |scores| - 1 && LastWake(h.wakes) <= h.count
    requires h.since == scores[..|scores| - 1][LastWake(h.wakes)..]
    ensures
      var next := Judge(threshold, Scored(h, scores[|scores| - 1]));
      LastWake(next.wakes) <= |scores| && next.since == scores[LastWake(next.wakes)..]
  {
    TailGrows(scores, LastWake(h.wakes));
  }

  /** The scores that count are exactly those since the last wake. */
  lemma {:induction false} SinceIsTheTail(threshold: nat, scores: seq<Byte>)
    ensures
      var h := Past(threshold, scores);
      LastWake(h.wakes) <= |scores| && h.since == scores[LastWake(h.wakes)..]
    decreases |scores|
  {
    if scores != [] {
      var earlier := scores[..|scores| - 1];
      SinceIsTheTail(threshold, earlier);
      JudgeKeepsTail(threshold, Past(threshold, earlier), scores);
    }
  }

  lemma TailGrows(scores: seq<Byte>, from: nat)
    requires from < |scores|
    ensures scores[..|scores| - 1][from..] + [scores[|scores| - 1]] == scores[from..]
    ensures scores[|scores|..] == []
  {}

  /** The inferences that wake the panel: `n` does exactly when the reference condition holds of
      the first `n` scores, and later scores never change that. */
  lemma {:induction false} WakesAreDecidedOnce(threshold: nat, scores: seq<Byte>, n: nat)
    requires 0 < n <= |scores|
    ensures
      var judged := Scored(Past(threshold, scores[..n - 1]), scores[n - 1]);
      n in Past(threshold, scores).wakes <==> Fires(threshold, judged)
    ensures Past(threshold, scores[..n]).wakes <= Past(threshold, scores).wakes
    decreases |scores|
  {
    var last := |scores| - 1;
    var before := Past(threshold, scores[..last]);
    WakesAreSpaced(threshold, scores[..last]);
    if n == |scores| {
      assert scores[..n] == scores;
    } else {
      assert scores[..last][..n] == scores[..n] && scores[..last][..n - 1] == scores[..n - 1];
      WakesAreDecidedOnce(threshold, scores[..last], n);
    }
  }

  /** The level that a value is quantised to is the nearest of 256, which lie 666/256 apart from
      -128 on; what is above the last one stays there. */
  lemma QuantiseMeans(value: nat)
    ensures
      var level := Quantise(value) + 128;
      0 <= level <= 255 &&
      (level < 255 ==> 666 * level - 333 <= 256 * value < 666 * level + 333) &&
      (level == 255 <==> 666 * 255 - 333 <= 256 * value)
  {
    var nearest := (value * 256 + 333) / 666;
    assert 666 * nearest <= value * 256 + 333 < 666 * nearest + 666;
  }

  /** A score between two inferences, and 0 where there is none. */
  function ScoreAt(scores: seq<Byte>, from: nat, i: int): nat {
    if from <= i < |scores| then scores[i] else 0
  }

  /** The sum of the five scores before place `n`, of those from `from` on. */
  function FiveBefore(scores: seq<Byte>, from: nat, n: nat): nat {
    ScoreAt(scores, from, n - 1) + ScoreAt(scores, from, n - 2) + ScoreAt(scores, from, n - 3) +
    ScoreAt(scores, from, n - 4) + ScoreAt(scores, from, n - 5)
  }

  lemma RecentSum(xs: seq<Byte>)
    ensures Sum(Recent(xs)) == FiveBefore(xs, 0, |xs|)
  {
    var recent := Window(xs);
    var filled := EMPTY + xs;
    WindowSum(xs);
    assert recent[0] == filled[|xs|] && recent[1] == filled[|xs| + 1] && recent[2] == filled[|xs| + 2];
    assert recent[3] == filled[|xs| + 3] && recent[4] == filled[|xs| + 4];
    FiveSum(recent);
  }

  lemma FiveSum(xs: seq<Byte>)
    requires |xs| == 5
    ensures Sum(xs) == xs[0] as nat + xs[1] as nat + xs[2] as nat + xs[3] as nat + xs[4] as nat
  {
    SumSplits(xs, 0);
    SumSplits(xs, 1);
    SumSplits(xs, 2);
    SumSplits(xs, 3);
    SumSplits(xs, 4);
    assert xs[0..] == xs && xs[5..] == [];
  }

  lemma SumSplits(xs: seq<Byte>, k: nat)
    requires k < |xs|
    ensures Sum(xs[k..]) == xs[k] as nat + Sum(xs[k + 1..])
  {
    assert xs[k..][1..] == xs[k + 1..];
  }

  lemma {:induction false} WakesIncrease(h: History, i: nat, j: nat)
    requires Spaced(h) && i < j < |h.wakes|
    ensures h.wakes[i] < h.wakes[j]
    decreases j
  {
    if i < j - 1 {
      WakesIncrease(h, i, j - 1);
    }
  }

  /** The wakes before inference `n` are those of the scores before it. */
  lemma EarlierWakes(threshold: nat, scores: seq<Byte>, n: nat, w: nat)
    requires 0 < n <= |scores| && 0 < w < n
    ensures w in Past(threshold, scores[..n - 1]).wakes <==> w in Past(threshold, scores).wakes
  {
    var earlier := scores[..n - 1];
    WakesAreDecidedOnce(threshold, scores, w);
    WakesAreDecidedOnce(threshold, earlier, w);
    assert earlier[..w - 1] == scores[..w - 1] && earlier[w - 1] == scores[w - 1];
  }

  lemma LastWakeIs(threshold: nat, scores: seq<Byte>, n: nat, from: nat)
    requires 0 < n <= |scores| && from < n
    requires from == 0 || from in Past(threshold, scores).wakes
    requires forall w :: w in Past(threshold, scores).wakes ==> w <= from || w >= n
    ensures
      var wakes := Past(threshold, scores[..n - 1]).wakes;
      LastWake(wakes) == from && (wakes == [] <==> from == 0) && (from > 0 ==> 3 * from >= 100)
  {
    var h := Past(threshold, scores[..n - 1]);
    WakesAreSpaced(threshold, scores[..n - 1]);
    if from > 0 {
      EarlierWakes(threshold, scores, n, from);
    }
    if h.wakes != [] {
      var last := |h.wakes| - 1;
      EarlierWakes(threshold, scores, n, h.wakes[last]);
      if from != h.wakes[last] && from > 0 {
        var i :| 0 <= i < |h.wakes| && h.wakes[i] == from;
        WakesIncrease(h, i, last);
      }
    }
  }

  /** In every run: inference `n`, with `from` the wake before it (0 if there is none), wakes the
      panel if and only if 100 slices of features are there, at three an inference, 167 inferences
      have passed since that wake, and the last five scores, of those since that wake, sum up to
      the threshold. */
  lemma WakesMean(threshold: nat, scores: seq<Byte>, n: nat, from: nat)
    requires 0 < n <= |scores| && from < n
    requires from == 0 || from in Past(threshold, scores).wakes
    requires forall w :: w in Past(threshold, scores).wakes ==> w <= from || w >= n
    ensures
      n in Past(threshold, scores).wakes <==>
      3 * n >= 100 && (from > 0 ==> n >= from + 167) &&
      FiveBefore(scores, from, n) >= threshold
  {
    WakesAreDecidedOnce(threshold, scores, n);
    LastWakeIs(threshold, scores, n, from);
    ScoresSince(threshold, scores, n);
    FiresMeans(threshold, Past(threshold, scores[..n - 1]), scores, n, from);
  }

  lemma ScoresSince(threshold: nat, scores: seq<Byte>, n: nat)
    requires 0 < n <= |scores|
    ensures
      var h := Past(threshold, scores[..n - 1]);
      LastWake(h.wakes) < n && h.since + [scores[n - 1]] == scores[LastWake(h.wakes)..n]
  {
    SinceIsTheTail(threshold, scores[..n - 1]);
  }

  lemma FiresMeans(threshold: nat, h: History, scores: seq<Byte>, n: nat, from: nat)
    requires from < n <= |scores| && h.count == n - 1 && h.since + [scores[n - 1]] == scores[from..n]
    requires LastWake(h.wakes) == from && (h.wakes == [] <==> from == 0)
    requires from > 0 ==> 3 * from >= 100
    ensures Fires(threshold, Scored(h, scores[n - 1])) <==>
      3 * n >= 100 && (from > 0 ==> n >= from + 167) && FiveBefore(scores, from, n) >= threshold
  {
    RecentSum(scores[from..n]);
    TailScores(scores, from, n);
  }

  lemma TailScores(scores: seq<Byte>, from: nat, n: nat)
    requires from < n <= |scores|
    ensures FiveBefore(scores[from..n], 0, n - from) == FiveBefore(scores, from, n)
  {
    var since := scores[from..n];
    assert ScoreAt(since, 0, n - from - 1) == ScoreAt(scores, from, n - 1);
    assert ScoreAt(since, 0, n - from - 2) == ScoreAt(scores, from, n - 2);
    assert ScoreAt(since, 0, n - from - 3) == ScoreAt(scores, from, n - 3);
    assert ScoreAt(since, 0, n - from - 4) == ScoreAt(scores, from, n - 4);
    assert ScoreAt(since, 0, n - from - 5) == ScoreAt(scores, from, n - 5);
  }
}
