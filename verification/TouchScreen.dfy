/**
 * The panel's touch reader, wake and blanking (src/hal.cpp:153-241 and 326-363), in one thread.
 */
module TouchScreen {

  /** A Linux input event. */
  datatype InputEvent = InputEvent(kind: int, code: int, value: int)

  const EV_KEY := 1
  const EV_ABS := 3
  const ABS_MT_POSITION_X := 53
  const ABS_MT_POSITION_Y := 54
  const ABS_MT_TRACKING_ID := 57
  const BTN_TOUCH := 330

  /** The touch and display variables; `brightness` is what was last written to the device. */
  datatype Panel = Panel(
    touchX: int, touchY: int, touchPressed: int, wakeTouchConsumed: bool,
    blanked: bool, activeBacklight: nat, brightness: int)

  const INITIAL := Panel(0, 0, 0, false, false, 200, 0)

  function Absorb(p: Panel, e: InputEvent): Panel {
    if e.kind == EV_ABS then
      if e.code == ABS_MT_POSITION_X then p.(touchX := e.value)
      else if e.code == ABS_MT_POSITION_Y then p.(touchY := e.value)
      else if e.code == ABS_MT_TRACKING_ID then p.(touchPressed := if e.value != -1 then 1 else 0)
      else p
    else if e.kind == EV_KEY && e.code == BTN_TOUCH then p.(touchPressed := e.value)
    else p
  }

  /** An event that reports a contact. */
  predicate IsPress(e: InputEvent) {
    (e.kind == EV_ABS && e.code == ABS_MT_TRACKING_ID && e.value != -1) ||
    (e.kind == EV_KEY && e.code == BTN_TOUCH && e.value != 0)
  }

  predicate AnyPress(events: seq<InputEvent>) {
    exists e :: e in events && IsPress(e)
  }

  lemma AnyPressGrows(events: seq<InputEvent>, e: InputEvent)
    ensures AnyPress(events + [e]) <==> AnyPress(events) || IsPress(e)
  {
    var more := events + [e];
    assert e in more;
    if AnyPress(events) {
      var e' :| e' in events && IsPress(e');
      assert e' in more;
    }
  }

  function AbsorbAll(p: Panel, events: seq<InputEvent>): Panel {
    if events == [] then p
    else
      var last := |events| - 1;
      Absorb(AbsorbAll(p, events[..last]), events[last])
  }

  function Wake(p: Panel): Panel {
    if p.blanked then p.(blanked := false, brightness := p.activeBacklight) else p
  }

  function Blank(p: Panel): Panel {
    if p.blanked then p else p.(blanked := true, brightness := 0)
  }

  const FADE_IN := 15
  const FADE_OUT := 20

  /** Waking, when another thread blanks the screen before step `cut` of the fade. */
  function FadeIn(p: Panel, cut: nat): Panel {
    if p.blanked && 1 <= cut <= FADE_IN then
      p.(brightness := if cut == 1 then p.brightness else p.activeBacklight * (cut - 1) / FADE_IN)
    else Wake(p)
  }

  /** Blanking, when another thread wakes the screen before step `cut` of the fade. */
  function FadeOut(p: Panel, cut: nat): Panel {
    if !p.blanked && 1 <= cut <= FADE_OUT then
      p.(brightness :=
        if cut == 1 then p.brightness
        else p.activeBacklight - p.activeBacklight * (cut - 1) / FADE_OUT)
    else Blank(p)
  }

  function SetBacklight(p: Panel, raw: int): Panel {
    p.(brightness := raw, activeBacklight := if !p.blanked && raw > 0 then raw else p.activeBacklight)
  }

  /** The panel after a read, and whether it reports a press. */
  function Read(p: Panel, events: seq<InputEvent>): (Panel, bool) {
    var q := AbsorbAll(p, events);
    var contact := q.touchPressed != 0;
    var waking := q.blanked && (contact || AnyPress(events));
    var r := if waking then Wake(q).(wakeTouchConsumed := true) else q;
    if r.wakeTouchConsumed then (r.(wakeTouchConsumed := contact), false) else (r, contact)
  }

  class Hal {
    var touchX: int
    var touchY: int
    var touchPressed: int
    var wakeTouchConsumed: bool
    var screenBlanked: bool
    var activeBacklight: nat
    var brightness: int

    function State(): Panel
      reads this
    {
      Panel(touchX, touchY, touchPressed, wakeTouchConsumed, screenBlanked, activeBacklight, brightness)
    }

    constructor ()
      ensures State() == INITIAL
    {
      touchX, touchY, touchPressed, wakeTouchConsumed := 0, 0, 0, false;
      screenBlanked, activeBacklight, brightness := false, 200, 0;
    }

    method SetBacklightRaw(raw: int)
      modifies this`activeBacklight, this`brightness
      ensures State() == SetBacklight(old(State()), raw)
    {
      if !screenBlanked && raw > 0 {
        activeBacklight := raw;
      }
      brightness := raw;
    }

    /** The fade in. Another thread may blank the screen before step `cut` of it; none does if
        there is no such step. */
    method WakeScreen(cut: nat)
      modifies this`screenBlanked, this`brightness
      ensures State() == FadeIn(old(State()), cut)
    {
      if screenBlanked {
        screenBlanked := false;
        var target := activeBacklight;
        for i := 1 to FADE_IN + 1
          invariant !screenBlanked && !(1 <= cut < i)
          invariant brightness == if i == 1 then old(brightness) else target * (i - 1) / FADE_IN
        {
          if i == cut {
            screenBlanked := true;
          }
          if screenBlanked {
            break;
          }
          FadeStep(target, i, FADE_IN);
          var value := target * i / FADE_IN;
          brightness := if value > target then target else value;
        }
        FadeStep(target, FADE_IN, FADE_IN);
      }
    }

    /** The fade out. Another thread may wake the screen before step `cut` of it. */
    method BlankScreen(cut: nat)
      modifies this`screenBlanked, this`brightness
      ensures State() == FadeOut(old(State()), cut)
    {
      if !screenBlanked {
        screenBlanked := true;
        var start := activeBacklight;
        for i := 1 to FADE_OUT + 1
          invariant screenBlanked && !(1 <= cut < i)
          invariant brightness == if i == 1 then old(brightness) else start - start * (i - 1) / FADE_OUT
        {
          if i == cut {
            screenBlanked := false;
          }
          if !screenBlanked {
            break;
          }
          FadeStep(start, i, FADE_OUT);
          var value: int := start - start * i / FADE_OUT;
          brightness := if value < 0 then 0 else value;
        }
        if screenBlanked {
          brightness := 0;
        }
      }
    }

    method ReadTouch(events: seq<InputEvent>) returns (x: int, y: int, pressed: bool)
      modifies this
      ensures (State(), pressed) == Read(old(State()), events)
      ensures x == touchX && y == touchY
    {
      var pressDetected := false;
      ghost var before := State();
      assert events[..0] == [];
      for i := 0 to |events|
        invariant State() == AbsorbAll(before, events[..i])
        invariant pressDetected <==> AnyPress(events[..i])
      {
        var e := events[i];
        assert events[..i + 1] == events[..i] + [e];
        AnyPressGrows(events[..i], e);
        if e.kind == EV_ABS {
          if e.code == ABS_MT_POSITION_X {
            touchX := e.value;
          } else if e.code == ABS_MT_POSITION_Y {
            touchY := e.value;
          } else if e.code == ABS_MT_TRACKING_ID {
            var nowPressed := e.value != -1;
            if nowPressed {
              pressDetected := true;
            }
            touchPressed := if nowPressed then 1 else 0;
          }
        } else if e.kind == EV_KEY && e.code == BTN_TOUCH {
          if e.value != 0 {
            pressDetected := true;
          }
          touchPressed := e.value;
        }
      }
      assert events[..|events|] == events;
      if screenBlanked && (touchPressed != 0 || pressDetected) {
        WakeScreen(0);
        wakeTouchConsumed := true;
      }
      x, y := touchX, touchY;
      if wakeTouchConsumed {
        pressed := false;
        if touchPressed == 0 {
          wakeTouchConsumed := false;
        }
      } else {
        pressed := touchPressed != 0;
      }
    }
  }

  lemma FadeStep(target: nat, i: nat, steps: nat)
    requires 0 < i <= steps
    ensures 0 <= target * i / steps <= target
    ensures i == steps ==> target * i / steps == target
  {
    assert target * i <= target * steps;
    assert target * steps / steps == target;
    assert target * i / steps <= target * steps / steps;
  }

  // ---------------------------------------------------------------- every run

  datatype Op = DoBlank | DoWake | DoBacklight(raw: int) | DoRead(events: seq<InputEvent>)

  function Apply(p: Panel, op: Op): Panel {
    match op
    case DoBlank => Blank(p)
    case DoWake => Wake(p)
    case DoBacklight(raw) => SetBacklight(p, raw)
    case DoRead(events) => Read(p, events).0
  }

  /** What can be seen of a read: whether the screen was blanked before it, whether there was a
      contact at its end, whether it reported a press. */
  datatype Seen = Seen(blanked: bool, contact: bool, reported: bool)

  function SeenAt(p: Panel, events: seq<InputEvent>): Seen {
    var (q, reported) := Read(p, events);
    Seen(p.blanked, q.touchPressed != 0, reported)
  }

  function After(ops: seq<Op>): Panel {
    if ops == [] then INITIAL else Apply(After(ops[..|ops| - 1]), ops[|ops| - 1])
  }

  /** The reads of a run, in order. */
  function Reads(ops: seq<Op>): seq<Seen> {
    if ops == [] then []
    else
      var last := ops[|ops| - 1];
      var before := Reads(ops[..|ops| - 1]);
      if last.DoRead? then before + [SeenAt(After(ops[..|ops| - 1]), last.events)] else before
  }

  /** At the end of the reads there is a contact, and some read of it began with the screen
      blanked. */
  predicate Hidden(seen: seq<Seen>) {
    seen != [] &&
    var last := seen[|seen| - 1];
    last.contact && (last.blanked || Hidden(seen[..|seen| - 1]))
  }

  /** Read `k` belongs to the contact that lasts until read `j`. */
  predicate SameContact(seen: seq<Seen>, k: nat, j: nat)
    requires k <= j < |seen|
  {
    forall m :: k <= m <= j ==> seen[m].contact
  }

  lemma ReadFacts(p: Panel, events: seq<InputEvent>)
    ensures
      var (q, reported) := Read(p, events);
      var contact := q.touchPressed != 0;
      q.wakeTouchConsumed == (contact && (p.blanked || p.wakeTouchConsumed)) &&
      reported == (contact && !p.blanked && !p.wakeTouchConsumed) &&
      (reported ==> !q.blanked) &&
      (q.blanked <==> p.blanked && !contact && !AnyPress(events))
  {
    AbsorbKeeps(p, events);
  }

  lemma {:induction false} AbsorbKeeps(p: Panel, events: seq<InputEvent>)
    ensures
      var q := AbsorbAll(p, events);
      q.blanked == p.blanked && q.wakeTouchConsumed == p.wakeTouchConsumed &&
      q.activeBacklight == p.activeBacklight && q.brightness == p.brightness
  {
    if events != [] {
      AbsorbKeeps(p, events[..|events| - 1]);
    }
  }

  lemma {:induction false} ConsumedIsHidden(ops: seq<Op>)
    ensures After(ops).wakeTouchConsumed == Hidden(Reads(ops))
    ensures forall j :: 0 <= j < |Reads(ops)| ==>
      (Reads(ops)[j].reported <==> Reads(ops)[j].contact && !Hidden(Reads(ops)[..j + 1]))
  {
    if ops != [] {
      var shorter, last := ops[..|ops| - 1], ops[|ops| - 1];
      var before, seen := Reads(shorter), Reads(ops);
      ConsumedIsHidden(shorter);
      if last.DoRead? {
        ReadFacts(After(shorter), last.events);
        assert seen[..|before|] == before;
        forall j | 0 <= j < |before|
          ensures seen[j].reported <==> seen[j].contact && !Hidden(seen[..j + 1])
        {
          assert seen[..j + 1] == before[..j + 1];
          assert seen[j] == before[j];
        }
        assert seen[..|before| + 1] == seen;
      }
    }
  }

  lemma {:induction false} HiddenMeans(seen: seq<Seen>)
    requires seen != []
    ensures Hidden(seen) <==>
      exists k :: 0 <= k < |seen| && seen[k].blanked && SameContact(seen, k, |seen| - 1)
  {
    var n := |seen| - 1;
    var shorter := seen[..n];
    if n > 0 {
      HiddenMeans(shorter);
    }
    if Hidden(seen) {
      if seen[n].blanked {
        assert SameContact(seen, n, n);
      } else {
        assert Hidden(shorter);
        var k :| 0 <= k < n && shorter[k].blanked && SameContact(shorter, k, n - 1);
        assert forall m :: k <= m < n ==> seen[m] == shorter[m];
        assert seen[k].blanked && SameContact(seen, k, n);
      }
    }
    if k :| 0 <= k < |seen| && seen[k].blanked && SameContact(seen, k, n) {
      assert seen[n].contact;
      if k < n {
        assert forall m :: k <= m < n ==> shorter[m] == seen[m];
        assert shorter[k].blanked && SameContact(shorter, k, n - 1);
      }
    }
  }

  /** Over every run of touch events, blanks, wakes and backlight settings: a read reports a
      press exactly when there is a contact at its end and no read of that contact, from its
      beginning on, started with the screen blanked. */
  lemma PressedExactly(ops: seq<Op>, j: nat)
    requires j < |Reads(ops)|
    ensures
      var seen := Reads(ops);
      seen[j].reported <==>
      seen[j].contact && forall k :: 0 <= k <= j && SameContact(seen, k, j) ==> !seen[k].blanked
  {
    var seen := Reads(ops);
    ConsumedIsHidden(ops);
    var prefix := seen[..j + 1];
    HiddenMeans(prefix);
    forall k | 0 <= k <= j
      ensures SameContact(prefix, k, j) == SameContact(seen, k, j)
    {
      assert forall m :: k <= m <= j ==> prefix[m] == seen[m];
    }
    if exists k :: 0 <= k <= j && SameContact(seen, k, j) && seen[k].blanked {
      var k :| 0 <= k <= j && SameContact(seen, k, j) && seen[k].blanked;
      assert prefix[k].blanked && SameContact(prefix, k, j);
    }
  }

  /** A press is reported only when the screen is on. */
  lemma PressedMeansOn(p: Panel, events: seq<InputEvent>)
    requires Read(p, events).1
    ensures !Read(p, events).0.blanked && !p.blanked
  {
    ReadFacts(p, events);
  }

  // ---------------------------------------------------------------- what the events mean

  lemma AbsorbNext(p: Panel, events: seq<InputEvent>, e: InputEvent)
    ensures AbsorbAll(p, events + [e]) == Absorb(AbsorbAll(p, events), e)
  {
    assert (events + [e])[..|events|] == events;
  }

  /** An event that says where, in type 3 (absolute axis), with code 53 or 54. */
  predicate Moves(e: InputEvent, code: int) { e.kind == 3 && e.code == code }

  /** An event that says whether there is a contact: its number, -1 for none (type 3, code 57), or
      the touch key (type 1, code 330). */
  predicate Touches(e: InputEvent) { (e.kind == 3 && e.code == 57) || (e.kind == 1 && e.code == 330) }

  predicate Pressing(e: InputEvent) { Touches(e) && e.value != (if e.kind == 3 then -1 else 0) }

  lemma {:induction false} QuietEvents(p: Panel, events: seq<InputEvent>, later: seq<InputEvent>)
    ensures (forall e :: e in later ==> !Moves(e, 53)) ==>
            AbsorbAll(p, events + later).touchX == AbsorbAll(p, events).touchX
    ensures (forall e :: e in later ==> !Moves(e, 54)) ==>
            AbsorbAll(p, events + later).touchY == AbsorbAll(p, events).touchY
    ensures (forall e :: e in later ==> !Touches(e)) ==>
            AbsorbAll(p, events + later).touchPressed == AbsorbAll(p, events).touchPressed
    decreases |later|
  {
    if later == [] {
      assert events + later == events;
    } else {
      var last := |later| - 1;
      assert events + later == (events + later[..last]) + [later[last]];
      AbsorbNext(p, events + later[..last], later[last]);
      QuietEvents(p, events, later[..last]);
      assert later[last] in later;
    }
  }

  lemma ReadKeepsTouch(p: Panel, events: seq<InputEvent>)
    ensures
      var (q, absorbed) := (Read(p, events).0, AbsorbAll(p, events));
      q.touchX == absorbed.touchX && q.touchY == absorbed.touchY && q.touchPressed == absorbed.touchPressed
  {}

  /** The coordinates that a read returns are those of the last event for each axis; without one
      they stay. */
  lemma CoordinatesMean(p: Panel, before: seq<InputEvent>, value: int, code: int, after: seq<InputEvent>)
    requires forall e :: e in after ==> !Moves(e, code)
    ensures code == 53 ==> Read(p, before + [InputEvent(3, 53, value)] + after).0.touchX == value
    ensures code == 54 ==> Read(p, before + [InputEvent(3, 54, value)] + after).0.touchY == value
    ensures code == 53 ==> Read(p, after).0.touchX == p.touchX
    ensures code == 54 ==> Read(p, after).0.touchY == p.touchY
  {
    var event := InputEvent(3, code, value);
    AbsorbNext(p, before, event);
    QuietEvents(p, before + [event], after);
    QuietEvents(p, [], after);
    assert [] + after == after;
    ReadKeepsTouch(p, before + [event] + after);
    ReadKeepsTouch(p, after);
  }

  /** Whether there is a contact after a read: as the last event about it says. */
  lemma ContactMeans(p: Panel, before: seq<InputEvent>, event: InputEvent, after: seq<InputEvent>)
    requires Touches(event) && forall e :: e in after ==> !Touches(e)
    ensures Read(p, before + [event] + after).0.touchPressed != 0 <==> Pressing(event)
    ensures Read(p, after).0.touchPressed == p.touchPressed
  {
    AbsorbNext(p, before, event);
    QuietEvents(p, before + [event], after);
    QuietEvents(p, [], after);
    assert [] + after == after;
    ReadKeepsTouch(p, before + [event] + after);
    ReadKeepsTouch(p, after);
  }

  /** A blanked screen goes on in a read if and only if some event of it reports a contact, even
      one that is over at the end, or a contact lasts from before. */
  lemma WokenMeans(p: Panel, events: seq<InputEvent>)
    requires p.blanked
    ensures
      var q := Read(p, events).0;
      !q.blanked <==> q.touchPressed != 0 || exists e :: e in events && Pressing(e)
    ensures !Read(p, events).0.blanked ==> Read(p, events).0.brightness == p.activeBacklight
  {
    ReadFacts(p, events);
    AbsorbKeeps(p, events);
    assert forall e :: IsPress(e) <==> Pressing(e);
  }

  // ---------------------------------------------------------------- what the display shows

  /** A fade in takes 15 steps from dark to the remembered level, a fade out 20 steps back; one that
      is cut short stays at the level of its last step, and never leaves that range. */
  lemma FadesMean(p: Panel, cut: nat)
    ensures
      var level := p.activeBacklight;
      var (shown, on) := (FadeIn(p, cut).brightness, FadeIn(p, cut));
      on == p.(blanked := on.blanked, brightness := shown) &&
      if !p.blanked then on == p
      else if cut < 1 || cut > 15 then !on.blanked && shown == level
      else on.blanked && (cut == 1 ==> shown == p.brightness) &&
           (cut > 1 ==> 15 * shown <= level * (cut - 1) < 15 * (shown + 1))
    ensures
      var level := p.activeBacklight;
      var (shown, off) := (FadeOut(p, cut).brightness, FadeOut(p, cut));
      off == p.(blanked := off.blanked, brightness := shown) &&
      if p.blanked then off == p
      else if cut < 1 || cut > 20 then off.blanked && shown == 0
      else !off.blanked && (cut == 1 ==> shown == p.brightness) &&
           (cut > 1 ==> 20 * (level - shown) <= level * (cut - 1) < 20 * (level - shown + 1))
  {
    if 1 < cut {
      var n := p.activeBacklight * (cut - 1);
      assert n == 15 * (n / 15) + n % 15 && n == 20 * (n / 20) + n % 20;
    }
  }

  predicate SetsNoLevel(ops: seq<Op>) { forall op :: op in ops ==> !op.DoBacklight? }

  /** What the display shows: the remembered level when it is on, nothing when it is blanked. */
  predicate Shows(p: Panel, level: nat) {
    p.activeBacklight == level && p.brightness == if p.blanked then 0 else level
  }

  lemma ApplyShows(p: Panel, op: Op, level: nat)
    requires Shows(p, level) && !op.DoBacklight?
    ensures Shows(Apply(p, op), level)
  {
    if op.DoRead? {
      AbsorbKeeps(p, op.events);
    }
  }

  /** A level set while the screen is on is what the display shows from then on whenever it is on,
      until another is set: blanks, wakes and touches do not lose it. */
  lemma {:induction false} LevelIsKept(ops: seq<Op>, raw: nat, later: seq<Op>)
    requires raw > 0 && !After(ops).blanked && SetsNoLevel(later)
    ensures
      var p := After(ops + [DoBacklight(raw)] + later);
      p.activeBacklight == raw && p.brightness == if p.blanked then 0 else raw
    decreases |later|
  {
    var all := ops + [DoBacklight(raw)] + later;
    if later == [] {
      assert all[..|all| - 1] == ops && all[|all| - 1] == DoBacklight(raw);
    } else {
      var last := |later| - 1;
      var before := ops + [DoBacklight(raw)] + later[..last];
      assert all[..|all| - 1] == before && all[|all| - 1] == later[last];
      assert later[last] in later && forall op :: op in later[..last] ==> op in later;
      LevelIsKept(ops, raw, later[..last]);
      ApplyShows(After(before), later[last], raw);
    }
  }

  /** Before any level is set, 200 is the one to wake to. */
  lemma {:induction false} FirstLevel(ops: seq<Op>)
    requires SetsNoLevel(ops)
    ensures After(ops).activeBacklight == 200 && After(ops).brightness in {0, 200}
    ensures After(ops).blanked ==> After(ops).brightness == 0
    ensures ops == [] ==> After(ops) == Panel(0, 0, 0, false, false, 200, 0)
  {
    if ops != [] {
      var last := |ops| - 1;
      assert ops[last] in ops && forall op :: op in ops[..last] ==> op in ops;
      FirstLevel(ops[..last]);
      if ops[last].DoRead? {
        AbsorbKeeps(After(ops[..last]), ops[last].events);
      }
    }
  }

  /** A level set while the screen is blanked, or one that is not positive, is shown at once and
      not remembered. */
  lemma OtherLevelsPass(p: Panel, raw: int)
    ensures SetBacklight(p, raw).brightness == raw && SetBacklight(p, raw).blanked == p.blanked
    ensures p.blanked || raw <= 0 ==> Wake(Blank(SetBacklight(p, raw))).brightness == p.activeBacklight
  {}
}
