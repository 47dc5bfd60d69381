/** Exactly when typing the secret is recognised.

    The recogniser does not fall back the way a full string matcher would: a third Up in a row
    throws away the run it belongs to.  So the eight directions, typed in time from any reachable
    state, are recognised if and only if the recogniser is not holding exactly one matched Up when
    the first of them is pressed. */
module RuntimeSecretExact {
  import opened RuntimeControl
  import opened RuntimeLifecycle
  import opened RuntimeSecret

  function Applied(log: seq<Event>): (inputs: seq<Input>)
    ensures |inputs| == |log|
    decreases log
  {
    if log == [] then [] else [Apply(log[0].command, log[0].now)] + Applied(log[1..])
  }

  /** Every command comes within the gap of the newest press and the total of the first one. */
  predicate Window(log: seq<Event>, down: bool, seen: seq<Event>)
    decreases log
  {
    log == [] ||
    (var e := log[0];
     && (seen != [] ==> Timely(e.now, seen))
     && Window(log[1..], e.command != 0, if e.command != 0 && !down then seen + [e] else seen))
  }

  predicate Timely(now: nat, seen: seq<Event>)
    requires seen != []
  {
    && seen[|seen| - 1].now <= now <= seen[|seen| - 1].now + SECRET_GAP
    && seen[0].now <= now <= seen[0].now + SECRET_TOTAL
  }

  predicate Spelled(p: seq<Event>) {
    |p| == |SECRET| && forall k :: 0 <= k < |p| ==> p[k].command == SECRET[k]
  }

  /** The secret typed once: the history starts with its first press, its presses are the eight
      directions, the last one is still held, and everything up to the final stop is in time. */
  predicate Performance(log: seq<Event>, stop: nat) {
    var p := Presses(log, false);
    && log != [] && log[0].command != 0
    && Spelled(p) && HeldAfter(log, false)
    && Window(log, false, []) && Timely(stop, p)
  }

  /** The matcher after a history that raises nothing. */
  function HearAll(m: Matcher, log: seq<Event>): Matcher
    decreases log
  {
    if log == [] then m else HearAll(Hear(m, log[0].command, log[0].now).0, log[1..])
  }

  /** No stop of the history meets a complete match. */
  predicate Silent(m: Matcher, log: seq<Event>)
    decreases log
  {
    log == [] ||
    (&& !(log[0].command == 0 && ExpireSecret(m, log[0].now).complete)
     && Silent(Hear(m, log[0].command, log[0].now).0, log[1..]))
  }

  lemma {:induction false} SilentRun(c: Control, log: seq<Event>)
    requires c.mode == CameraArmed && Silent(c.secret, log)
    ensures var d := After(c, Applied(log));
            d.mode == CameraArmed && d.secret == HearAll(c.secret, log)
    ensures !ActionsOf(c, Applied(log)).enter && !ActionsOf(c, Applied(log)).exit
    decreases log
  {
    if log != [] {
      NoExitInCamera(c, log[0].command, log[0].now);
      assert Applied(log)[1..] == Applied(log[1..]);
      SilentRun(Step(c, Applied(log)[0]).0, log[1..]);
    }
  }

  lemma NoExitInCamera(c: Control, command: int, now: nat)
    requires c.mode == CameraArmed
    ensures !ApplyPtz(c, command, now).1.exit
  {
  }

  // ---------------------------------------------------------------- recognised

  /** The matcher follows the presses seen so far. */
  predicate Follows(m: Matcher, seen: seq<Event>) {
    && 0 < |seen| <= |SECRET|
    && m.index == |seen| && m.first == seen[0].now && m.last == seen[|seen| - 1].now
    && m.complete == (|seen| == |SECRET|)
  }

  lemma {:induction false} HeardThrough(m: Matcher, log: seq<Event>, seen: seq<Event>)
    requires Follows(m, seen) && Window(log, m.down, seen) && HeldAfter(log, m.down)
    requires Spelled(seen + Presses(log, m.down)) && (|seen| == |SECRET| ==> m.down)
    ensures Silent(m, log)
    ensures var n := HearAll(m, log);
            Follows(n, seen + Presses(log, m.down)) && n.complete && n.down
    decreases log
  {
    var p := seen + Presses(log, m.down);
    if log == [] {
      assert p == seen;
    } else {
      var e, rest := log[0], log[1..];
      var n := Hear(m, e.command, e.now).0;
      assert ExpireSecret(m, e.now) == m;
      if e.command == 0 && |seen| == |SECRET| {
        HeldMeansPress(rest);
      }
      var seen' := if e.command != 0 && !m.down then seen + [e] else seen;
      assert p == seen' + Presses(rest, e.command != 0);
      if seen' != seen { assert e == p[|seen|]; }
      HeardThrough(n, rest, seen');
    }
  }

  /** A history that starts released and ends held contains a press. */
  lemma {:induction false} HeldMeansPress(log: seq<Event>)
    ensures HeldAfter(log, false) ==> Presses(log, false) != []
    decreases log
  {
    if log != [] && log[0].command == 0 { HeldMeansPress(log[1..]); }
  }

  lemma {:induction false} Recognised(m: Matcher, log: seq<Event>, stop: nat)
    requires Performance(log, stop) && !m.down && !m.complete && m.index < |SECRET|
    requires ExpireSecret(m, log[0].now).index != 1
    ensures Silent(m, log) && ExpireSecret(HearAll(m, log), stop).complete
  {
    var e, p := log[0], Presses(log, false);
    var n := Hear(m, e.command, e.now).0;
    assert p == [e] + Presses(log[1..], true);
    assert e.command == p[0].command == SECRET[0];
    assert Window(log[1..], true, [e]) by { assert [] + [e] == [e]; }
    HeardThrough(n, log[1..], [e]);
  }

  // ---------------------------------------------------------------- missed

  /** After the extra Up: two matched, then one, then none. */
  predicate Lost(m: Matcher, presses: nat) {
    && !m.complete
    && (m.index == 0
        || (presses == 1 && m.index == 2)
        || (presses == 2 && m.index == 1))
  }

  lemma LostStays(m: Matcher, presses: nat, command: int, now: nat)
    requires 0 < presses && Lost(m, presses)
    ensures command == 0 || m.down ==> Lost(Hear(m, command, now).0, presses)
    ensures command != 0 && !m.down && presses < |SECRET| && command == SECRET[presses] ==>
              Lost(Hear(m, command, now).0, presses + 1)
    ensures !(command == 0 && ExpireSecret(m, now).complete)
    ensures Hear(m, command, now).0.down == (command != 0)
  {
  }

  lemma {:induction false} LostThrough(m: Matcher, log: seq<Event>, seen: seq<Event>)
    requires 0 < |seen| && Lost(m, |seen|) && Spelled(seen + Presses(log, m.down))
    ensures Silent(m, log) && !HearAll(m, log).complete
    decreases log
  {
    if log != [] {
      var e, rest := log[0], log[1..];
      var p := seen + Presses(log, m.down);
      var seen' := if e.command != 0 && !m.down then seen + [e] else seen;
      assert p == seen' + Presses(rest, e.command != 0);
      if seen' != seen { assert e == p[|seen|]; }
      LostStays(m, |seen|, e.command, e.now);
      LostThrough(Hear(m, e.command, e.now).0, rest, seen');
    }
  }

  lemma {:induction false} Missed(m: Matcher, log: seq<Event>, stop: nat)
    requires Performance(log, stop) && !m.down && !m.complete
    requires ExpireSecret(m, log[0].now).index == 1
    ensures Silent(m, log) && !ExpireSecret(HearAll(m, log), stop).complete
  {
    var e, p := log[0], Presses(log, false);
    assert p == [e] + Presses(log[1..], true);
    assert e.command == p[0].command == SECRET[0];
    LostThrough(Hear(m, e.command, e.now).0, log[1..], [e]);
  }

  // ---------------------------------------------------------------- the two together

  /** From any reachable camera-mode control with nothing held, a performance raises nothing before
      its final stop, and that stop raises ENTER if and only if the first press did not find exactly
      one matched Up. */
  lemma {:induction false} SecretExact(c: Control, earlier: seq<Event>, log: seq<Event>, stop: nat)
    requires Ok(c, earlier) && c.mode == CameraArmed && !c.secret.down && Performance(log, stop)
    ensures !ActionsOf(c, Applied(log)).enter
    ensures ApplyPtz(After(c, Applied(log)), 0, stop).1.enter
            <==> ExpireSecret(c.secret, log[0].now).index != 1
  {
    var m := c.secret;
    if ExpireSecret(m, log[0].now).index == 1 { Missed(m, log, stop); } else { Recognised(m, log, stop); }
    SilentRun(c, log);
  }

  // ---------------------------------------------------------------- plain taps

  /** Tap k of the secret: pressed at press[k], released at release[k]. */
  predicate TapTimes(press: seq<nat>, release: seq<nat>) {
    && |press| == |release| == |SECRET|
    && (forall k :: 0 <= k < |SECRET| ==> press[k] <= release[k] <= press[k] + SECRET_GAP)
    && (forall k :: 0 < k < |SECRET| ==> press[k - 1] <= press[k] <= press[k - 1] + SECRET_GAP)
    && (forall k :: 0 <= k < |SECRET| ==> press[0] <= press[k] && release[k] <= press[0] + SECRET_TOTAL)
  }

  /** The presses from number `from` on. */
  function TapPresses(press: seq<nat>, from: nat): (p: seq<Event>)
    requires |press| == |SECRET| && from <= |SECRET|
    ensures |p| == |SECRET| - from
    ensures forall k :: 0 <= k < |p| ==> p[k] == Event(SECRET[from + k], press[from + k])
    decreases |SECRET| - from
  {
    if from == |SECRET| then [] else [Event(SECRET[from], press[from])] + TapPresses(press, from + 1)
  }

  /** The taps from number `from` on, up to and including the last press. */
  function TapLog(press: seq<nat>, release: seq<nat>, from: nat): seq<Event>
    requires |press| == |release| == |SECRET| && from < |SECRET|
    decreases |SECRET| - from
  {
    if from + 1 == |SECRET| then [Event(SECRET[from], press[from])]
    else [Event(SECRET[from], press[from]), Event(0, release[from])] + TapLog(press, release, from + 1)
  }

  lemma {:induction false} TapsArePresses(press: seq<nat>, release: seq<nat>, from: nat)
    requires |press| == |release| == |SECRET| && from < |SECRET|
    ensures Presses(TapLog(press, release, from), false) == TapPresses(press, from)
    ensures HeldAfter(TapLog(press, release, from), false)
    decreases |SECRET| - from
  {
    var e := Event(SECRET[from], press[from]);
    if from + 1 == |SECRET| {
      OnePress(e);
    } else {
      OneTap(e, release[from], TapLog(press, release, from + 1));
      TapsArePresses(press, release, from + 1);
    }
  }

  lemma OnePress(e: Event)
    requires e.command != 0
    ensures Presses([e], false) == [e]
  {
    assert Presses([e][1..], true) == [];
  }

  lemma {:induction false} OneTap(e: Event, released: nat, rest: seq<Event>)
    requires e.command != 0
    ensures Presses([e, Event(0, released)] + rest, false) == [e] + Presses(rest, false)
  {
    var log := [e, Event(0, released)] + rest;
    assert log[1..][0] == Event(0, released) && log[1..][1..] == rest;
    assert Presses(log[1..], true) == [] + Presses(rest, false);
  }

  lemma {:induction false} TapsInWindow(press: seq<nat>, release: seq<nat>, from: nat, seen: seq<Event>)
    requires TapTimes(press, release) && from < |SECRET| && |seen| == from
    requires from > 0 ==> seen[0].now == press[0] && seen[from - 1].now == press[from - 1]
    ensures Window(TapLog(press, release, from), false, seen)
    decreases |SECRET| - from
  {
    var log := TapLog(press, release, from);
    var more := seen + [Event(SECRET[from], press[from])];
    if from + 1 == |SECRET| {
      assert log[1..] == [];
      assert Window([], true, more);
    } else {
      assert log[1..][1..] == TapLog(press, release, from + 1);
      TapsInWindow(press, release, from + 1, more);
      assert Timely(release[from], more);
      assert Window(log[1..], true, more);
    }
  }

  lemma {:induction false} TapsPerform(press: seq<nat>, release: seq<nat>)
    requires TapTimes(press, release)
    ensures Performance(TapLog(press, release, 0), release[7])
  {
    TapsArePresses(press, release, 0);
    TapsInWindow(press, release, 0, []);
  }

  /** Completeness: from the zeroed control, any eight taps of the secret in time raise ENTER exactly
      at the last release. */
  lemma {:induction false} TapsEnter(press: seq<nat>, release: seq<nat>)
    requires TapTimes(press, release)
    ensures !ActionsOf(Initial, Applied(TapLog(press, release, 0))).enter
    ensures ApplyPtz(After(Initial, Applied(TapLog(press, release, 0))), 0, release[7]).1 == Enter
  {
    TapsPerform(press, release);
    IdleExplains(Idle, []);
    SecretExact(Initial, [], TapLog(press, release, 0), release[7]);
    EnterAlone(After(Initial, Applied(TapLog(press, release, 0))), 0, release[7]);
  }

  lemma EnterAlone(c: Control, command: int, now: nat)
    ensures ApplyPtz(c, command, now).1.enter ==> ApplyPtz(c, command, now).1 == Enter
  {
  }

  // ---------------------------------------------------------------- the drained events

  /** Directions number `from` up to `end` of the secret, as drained events. */
  function Directions(press: seq<nat>, from: nat, end: nat): (events: seq<Event>)
    requires |press| == |SECRET| && from <= end <= |SECRET|
    ensures |events| == end - from
    decreases end - from
  {
    if from == end then [] else [Event(SECRET[from], press[from])] + Directions(press, from + 1, end)
  }

  /** Event times of the secret entered in time, the last synthetic stop included. */
  predicate EventTimes(press: seq<nat>) {
    && |press| == |SECRET|
    && (forall k :: 0 < k < |SECRET| ==> press[k - 1] <= press[k] <= press[k - 1] + SECRET_GAP)
    && press[7] + 1 <= press[0] + SECRET_TOTAL
  }

  /** The synthetic stops. */
  function OneLater(press: seq<nat>): (release: seq<nat>)
    ensures |release| == |press| && forall k :: 0 <= k < |press| ==> release[k] == press[k] + 1
  {
    seq(|press|, k requires 0 <= k < |press| => press[k] + 1)
  }

  lemma EventsAreTaps(press: seq<nat>)
    requires EventTimes(press)
    ensures TapTimes(press, OneLater(press))
  {
    assert press[0] <= press[1] <= press[2] <= press[3] <= press[4] <= press[5] <= press[6] <= press[7];
  }

  /** In camera mode with the same matcher. */
  predicate Alike(c: Control, d: Control) {
    c.mode == d.mode == CameraArmed && c.secret == d.secret
  }

  lemma ApplyAlike(c: Control, d: Control, command: int, t: nat)
    requires Alike(c, d)
    ensures var (c', a), (d', b) := ApplyPtz(c, command, t), ApplyPtz(d, command, t);
            a == b && c'.mode == d'.mode && c'.secret == d'.secret && (!a.enter ==> Alike(c', d') && a == None)
  {
  }

  /** A press and its synthetic stop, as the recogniser alone sees them. */
  function TapOf(e: Event): seq<Input> {
    [Apply(e.command, e.now), Apply(0, e.now + 1)]
  }

  /** One drained direction does what its press and synthetic stop alone do to the recogniser. */
  lemma {:induction false} OneEvent(c: Control, d: Control, e: Event)
    requires Alike(c, d) && e.command != 0
    ensures ActionsOf(c, EventInputs(c, e)) == ActionsOf(d, TapOf(e))
    ensures !ActionsOf(d, TapOf(e)).enter ==>
              ActionsOf(d, TapOf(e)) == None && Alike(After(c, EventInputs(c, e)), After(d, TapOf(e)))
    ensures ActionsOf(d, TapOf(e)) == ApplyPtz(After(d, [Apply(e.command, e.now)]), 0, e.now + 1).1
  {
    var raw := ObserveRaw(c, e.command, e.now).0;
    ApplyAlike(raw, d, e.command, e.now);
    ApplyAlike(ApplyPtz(raw, e.command, e.now).0, ApplyPtz(d, e.command, e.now).0, 0, e.now + 1);
    RunOfThree(c, Raw(e.command, e.now), Apply(e.command, e.now), Apply(0, e.now + 1));
    RunOfTwo(d, Apply(e.command, e.now), Apply(0, e.now + 1));
    RunOfOne(d, Apply(e.command, e.now));
  }

  lemma {:induction false} RunOfThree(c: Control, x: Input, y: Input, z: Input)
    ensures After(c, [x, y, z]) == Step(Step(Step(c, x).0, y).0, z).0
    ensures ActionsOf(c, [x, y, z])
            == Or(Step(c, x).1, Or(Step(Step(c, x).0, y).1, Step(Step(Step(c, x).0, y).0, z).1))
  {
    assert [x, y, z] == [x] + [y, z];
    Splits(c, [x], [y, z]);
    RunOfOne(c, x);
    RunOfTwo(Step(c, x).0, y, z);
  }

  /** The taps from number `from` on, each with its synthetic stop. */
  function TapInputs(press: seq<nat>, from: nat): seq<Input>
    requires |press| == |SECRET| && from < |SECRET|
  {
    Applied(TapLog(press, OneLater(press), from))
  }

  /** What the events from `from` to `end` raise. */
  function Raises(c: Control, press: seq<nat>, from: nat, end: nat): Actions
    requires |press| == |SECRET| && from <= end <= |SECRET|
  {
    ActionsOf(c, BatchInputs(c, Directions(press, from, end)))
  }

  /** One silent tap and the event that brings it leave the rest of both alike. */
  lemma NextEvent(c: Control, d: Control, press: seq<nat>, from: nat) returns (c': Control, d': Control)
    requires Alike(c, d) && |press| == |SECRET| && from < 7 && !ActionsOf(d, TapInputs(press, from)).enter
    ensures Alike(c', d') && !ActionsOf(d', TapInputs(press, from + 1)).enter
    ensures After(d, TapInputs(press, from)) == After(d', TapInputs(press, from + 1))
    ensures Raises(c, press, from, 7) == Raises(c', press, from + 1, 7)
    ensures Raises(c, press, from, 8) == Raises(c', press, from + 1, 8)
  {
    var e := Event(SECRET[from], press[from]);
    OneEvent(c, d, e);
    FirstTap(d, e, press, from);
    c' := After(c, EventInputs(c, e));
    d' := After(d, TapOf(e));
    FirstEvent(c, e, Directions(press, from + 1, 7));
    FirstEvent(c, e, Directions(press, from + 1, 8));
  }

  lemma {:induction false} FinalEvent(c: Control, d: Control, press: seq<nat>)
    requires Alike(c, d) && |press| == |SECRET|
    ensures Raises(c, press, 7, 7) == None
    ensures Raises(c, press, 7, 8) == ApplyPtz(After(d, TapInputs(press, 7)), 0, press[7] + 1).1
  {
    var e := Event(SECRET[7], press[7]);
    assert TapLog(press, OneLater(press), 7) == [e];
    assert Applied([e]) == [Apply(e.command, e.now)] + Applied([e][1..]);
    assert Applied([e][1..]) == [];
    RunOfOne(d, Apply(e.command, e.now));
    OneEvent(c, d, e);
    assert Directions(press, 8, 8) == [];
    LastEvent(c, e);
  }

  /** While the taps raise nothing the events raise nothing, and the last event raises what the last
      stop raises. */
  lemma {:induction false} EventsHear(c: Control, d: Control, press: seq<nat>, from: nat)
    requires Alike(c, d) && |press| == |SECRET| && from < |SECRET| && !ActionsOf(d, TapInputs(press, from)).enter
    ensures Raises(c, press, from, 7) == None
    ensures Raises(c, press, from, 8) == ApplyPtz(After(d, TapInputs(press, from)), 0, press[7] + 1).1
    decreases |SECRET| - from
  {
    if from == 7 {
      FinalEvent(c, d, press);
    } else {
      var c', d' := NextEvent(c, d, press, from);
      EventsHear(c', d', press, from + 1);
    }
  }

  lemma {:induction false} LastEvent(c: Control, e: Event)
    ensures BatchInputs(c, [e]) == EventInputs(c, e)
  {
    assert BatchInputs(After(c, EventInputs(c, e)), [e][1..]) == [];
  }

  lemma {:induction false} FirstEvent(c: Control, e: Event, rest: seq<Event>)
    ensures var d := After(c, EventInputs(c, e));
            ActionsOf(c, BatchInputs(c, [e] + rest))
            == Or(ActionsOf(c, EventInputs(c, e)), ActionsOf(d, BatchInputs(d, rest)))
  {
    var d := After(c, EventInputs(c, e));
    assert ([e] + rest)[1..] == rest;
    Splits(c, EventInputs(c, e), BatchInputs(d, rest));
  }

  lemma {:induction false} FirstTap(d: Control, e: Event, press: seq<nat>, from: nat)
    requires |press| == |SECRET| && from < 7 && e == Event(SECRET[from], press[from])
    ensures var stopped, rest := After(d, TapOf(e)), TapInputs(press, from + 1);
            && ActionsOf(d, TapInputs(press, from)) == Or(ActionsOf(d, TapOf(e)), ActionsOf(stopped, rest))
            && After(d, TapInputs(press, from)) == After(stopped, rest)
  {
    var log, rest := TapLog(press, OneLater(press), from), TapInputs(press, from + 1);
    assert log[1..][1..] == TapLog(press, OneLater(press), from + 1);
    assert Applied(log) == [Apply(e.command, e.now)] + Applied(log[1..]);
    assert Applied(log[1..]) == [Apply(0, e.now + 1)] + rest;
    assert Applied(log) == TapOf(e) + rest;
    Splits(d, TapOf(e), rest);
  }

  /** What the worker drains, through observer, recogniser and synthetic stops: eight directions of the
      secret in time raise nothing before the eighth, and the eighth raises ENTER if and only if the
      first did not find exactly one matched Up. */
  lemma {:induction false} EventsExact(c: Control, earlier: seq<Event>, press: seq<nat>)
    requires Ok(c, earlier) && c.mode == CameraArmed && !c.secret.down && EventTimes(press)
    ensures Raises(c, press, 0, 7) == None
    ensures Raises(c, press, 0, 8).enter <==> ExpireSecret(c.secret, press[0]).index != 1
  {
    EventsAreTaps(press);
    var log := TapLog(press, OneLater(press), 0);
    TapsPerform(press, OneLater(press));
    assert log[0] == Event(SECRET[0], press[0]);
    SecretExact(c, earlier, log, press[7] + 1);
    EventsHear(c, c, press, 0);
  }

  /** In particular they do from the control's start. */
  lemma {:induction false} EventsEnter(press: seq<nat>)
    requires EventTimes(press)
    ensures Raises(Initial, press, 0, 7) == None
    ensures Raises(Initial, press, 0, 8).enter
  {
    IdleExplains(Idle, []);
    EventsExact(Initial, [], press);
  }

  /** One Up too many before them: the same eight taps raise nothing. */
  lemma {:induction false} ThirdUpMisses(press: seq<nat>, release: seq<nat>)
    requires TapTimes(press, release) && 50 <= press[0] <= 1500
    ensures !ApplyPtz(After(AfterOneUp(), Applied(TapLog(press, release, 0))), 0, release[7]).1.enter
  {
    OneUpExplained();
    TapsPerform(press, release);
    SecretExact(AfterOneUp(), [Event(3, 0), Event(0, 50)], TapLog(press, release, 0), release[7]);
  }

  function AfterOneUp(): Control {
    After(Initial, [Apply(3, 0), Apply(0, 50)])
  }

  lemma OneUpExplained()
    ensures Ok(AfterOneUp(), [Event(3, 0), Event(0, 50)])
    ensures AfterOneUp().mode == CameraArmed && AfterOneUp().secret == Matcher(1, 0, 0, false, false)
  {
    RunOfTwo(Initial, Apply(3, 0), Apply(0, 50));
    OneUpHeard();
    var log := [Event(3, 0), Event(0, 50)];
    OneTap(Event(3, 0), 50, []);
    assert log == log + [];
    assert Presses([], false) == [];
    assert Last(Presses(log, false), 1) == [Event(3, 0)];
  }

  lemma OneUpHeard()
    ensures var c := Step(Step(Initial, Apply(3, 0)).0, Apply(0, 50)).0;
            c.mode == CameraArmed && c.secret == Matcher(1, 0, 0, false, false)
  {
  }
}
