/** The eight-direction secret, told from the history of commands alone. */
module RuntimeSecret {
  import opened RuntimeControl
  import opened RuntimeLifecycle

  /** The presses in a history of camera-mode commands: a direction is a press unless the command
      before it was also a direction (a repeat of one held press).  `down` says whether a direction
      was still held when the history began. */
  function Presses(log: seq<Event>, down: bool): (p: seq<Event>)
    ensures |p| <= |log|
    decreases log
  {
    if log == [] then []
    else (if log[0].command != 0 && !down then [log[0]] else [])
         + Presses(log[1..], log[0].command != 0)
  }

  predicate HeldAfter(log: seq<Event>, down: bool) {
    if log == [] then down else log[|log| - 1].command != 0
  }

  lemma Associative(a: seq<Event>, b: seq<Event>, c: seq<Event>)
    ensures a + (b + c) == (a + b) + c
  {
  }

  lemma {:induction false} PressesAppend(log: seq<Event>, e: Event, down: bool)
    ensures Presses(log + [e], down)
            == Presses(log, down) + if e.command != 0 && !HeldAfter(log, down) then [e] else []
    decreases log
  {
    if log == [] {
      assert Presses([e][1..], e.command != 0) == [];
    } else {
      assert (log + [e])[1..] == log[1..] + [e];
      PressesAppend(log[1..], e, log[0].command != 0);
      Associative(if log[0].command != 0 && !down then [log[0]] else [], Presses(log[1..], log[0].command != 0),
                  if e.command != 0 && !HeldAfter(log, down) then [e] else []);
    }
  }

  /** The presses p stand in the history at these places, with a stop strictly between each and the
      next. */
  ghost predicate PressedAt(log: seq<Event>, p: seq<Event>, at: seq<nat>) {
    && |at| == |p|
    && (forall k :: 0 <= k < |at| ==> at[k] < |log| && log[at[k]] == p[k] && p[k].command != 0)
    && (forall k :: 0 < k < |at| ==> StopBetween(log, at[k - 1], at[k]))
  }

  ghost predicate StopBetween(log: seq<Event>, i: nat, j: nat) {
    exists k :: i < k < j < |log| && log[k].command == 0
  }

  /** Nothing but directions from place i on. */
  predicate HeldFrom(log: seq<Event>, i: nat) {
    forall k :: i <= k < |log| ==> log[k].command != 0
  }

  lemma PlacesKept(log: seq<Event>, e: Event, p: seq<Event>, at: seq<nat>)
    requires PressedAt(log, p, at)
    ensures PressedAt(log + [e], p, at)
  {
    forall k | 0 < k < |at| ensures StopBetween(log + [e], at[k - 1], at[k]) {
      var m :| at[k - 1] < m < at[k] < |log| && log[m].command == 0;
      assert (log + [e])[m].command == 0;
    }
  }

  lemma PlaceAdded(log: seq<Event>, e: Event, p: seq<Event>, at: seq<nat>)
    requires PressedAt(log, p, at) && e.command != 0 && !HeldAfter(log, false)
    ensures PressedAt(log + [e], p + [e], at + [|log|])
  {
    PlacesKept(log, e, p, at);
    if at != [] {
      assert at[|at| - 1] < |log| - 1 && (log + [e])[|log| - 1].command == 0;
      assert StopBetween(log + [e], at[|at| - 1], |log|);
    }
  }

  /** Where the presses of a history stand: each is separated from the next by a stop, and a control
      that is still held has been held since the last of them. */
  lemma {:induction false} PressPlaces(log: seq<Event>) returns (at: seq<nat>)
    ensures PressedAt(log, Presses(log, false), at)
    ensures HeldAfter(log, false) ==> at != [] && HeldFrom(log, at[|at| - 1])
    decreases log
  {
    at := [];
    if log != [] {
      var front, e := log[..|log| - 1], log[|log| - 1];
      var before := PressPlaces(front);
      assert log == front + [e];
      PressesAppend(front, e, false);
      if e.command != 0 && !HeldAfter(front, false) {
        PlaceAdded(front, e, Presses(front, false), before);
        at := before + [|front|];
      } else {
        PlacesKept(front, e, Presses(front, false), before);
        at := before;
        assert Presses(log, false) == Presses(front, false);
      }
    }
  }

  /** These presses spell the first |p| directions of the secret, each within the gap of the one
      before and all within the total of the first. */
  predicate Spells(p: seq<Event>) {
    && |p| <= |SECRET|
    && (forall k :: 0 <= k < |p| ==> p[k].command == SECRET[k])
    && (forall k :: 0 < k < |p| ==> p[k - 1].now <= p[k].now <= p[k - 1].now + SECRET_GAP)
    && (forall k :: 0 <= k < |p| ==> p[0].now <= p[k].now <= p[0].now + SECRET_TOTAL)
  }

  /** The last n presses. */
  function Last(p: seq<Event>, n: nat): seq<Event>
    requires n <= |p|
  {
    p[|p| - n..]
  }

  /** The matched presses are the last ones of the history, and the times are theirs. */
  predicate Matched(m: Matcher, q: seq<Event>) {
    && Spells(q) && |q| == m.index
    && (q != [] ==> q[0].now == m.first && q[|q| - 1].now == m.last)
  }

  /** What the matcher says about the history of its current stay in camera mode. */
  ghost predicate Explains(m: Matcher, log: seq<Event>) {
    && m.down == HeldAfter(log, false)
    && m.complete == (m.index == |SECRET|)
    && (m.complete ==> m.down)
    && m.index <= |Presses(log, false)|
    && Matched(m, Last(Presses(log, false), m.index))
  }

  /** The history kept along a run: the commands applied since the control last came to camera mode. */
  function NextLog(c: Control, log: seq<Event>, i: Input): seq<Event> {
    if i.Cleared? || c.mode != CameraArmed || Step(c, i).0.mode != CameraArmed then []
    else if i.Apply? then log + [Event(i.command, i.now)]
    else log
  }

  function LogAfter(c: Control, log: seq<Event>, inputs: seq<Input>): seq<Event>
    decreases inputs
  {
    if inputs == [] then log
    else LogAfter(Step(c, inputs[0]).0, NextLog(c, log, inputs[0]), inputs[1..])
  }

  ghost predicate Ok(c: Control, log: seq<Event>) {
    if c.mode == CameraArmed then Explains(c.secret, log)
    else log == [] && c.secret == Idle
  }

  lemma IdleExplains(m: Matcher, log: seq<Event>)
    requires m.down == HeldAfter(log, false) && m.index == 0 && !m.complete
    ensures Explains(m, log)
  {
    assert Last(Presses(log, false), 0) == [];
  }

  lemma ExpiryExplains(m: Matcher, log: seq<Event>, now: nat)
    requires Explains(m, log)
    ensures Explains(ExpireSecret(m, now), log)
  {
    if ExpireSecret(m, now) != m { IdleExplains(ExpireSecret(m, now), log); }
  }

  /** A press that continues the matched presses. */
  lemma SpellsAppend(q: seq<Event>, e: Event)
    requires Spells(q) && |q| < |SECRET| && e.command == SECRET[|q|]
    requires q != [] ==> q[|q| - 1].now <= e.now <= q[|q| - 1].now + SECRET_GAP
                         && e.now <= q[0].now + SECRET_TOTAL
    ensures Spells(q + [e])
  {
  }

  predicate Fresh(m: Matcher, now: nat) {
    m.index != 0 ==> m.first <= m.last <= now <= m.last + SECRET_GAP && now <= m.first + SECRET_TOTAL
  }

  lemma PressExplains(m: Matcher, log: seq<Event>, e: Event)
    requires Explains(m, log) && !m.down && e.command != 0 && Fresh(m, e.now)
    ensures Explains(Pressed(m, e.command, e.now), log + [e])
  {
    var p := Presses(log, false);
    PressesAppend(log, e, false);
    if m.index < |SECRET| && e.command == SECRET[m.index] {
      SpellsAppend(Last(p, m.index), e);
      assert Last(p + [e], m.index + 1) == Last(p, m.index) + [e];
    } else if e.command == SECRET[0] {
      SpellsAppend([], e);
      assert Last(p + [e], 1) == [] + [e];
    } else {
      IdleExplains(Pressed(m, e.command, e.now), log + [e]);
    }
  }

  /** A camera-mode command that raises nothing keeps the matcher explained. */
  lemma HeardExplains(m: Matcher, log: seq<Event>, e: Event)
    requires Explains(m, log) && Fresh(ExpireSecret(m, e.now), e.now)
    requires e.command == 0 ==> !ExpireSecret(m, e.now).complete
    ensures Explains(Hear(m, e.command, e.now).0, log + [e])
  {
    var d := ExpireSecret(m, e.now);
    ExpiryExplains(m, log, e.now);
    if e.command != 0 && !d.down {
      PressExplains(d, log, e);
    } else {
      NoPressExplains(d, log, e);
    }
  }

  /** A repeat of the held press, or a stop that completes nothing. */
  lemma NoPressExplains(m: Matcher, log: seq<Event>, e: Event)
    requires Explains(m, log) && (if e.command == 0 then !m.complete else m.down)
    ensures Explains(m.(down := e.command != 0), log + [e])
  {
    PressesAppend(log, e, false);
    assert Presses(log + [e], false) == Presses(log, false);
  }

  lemma ExpiryIsFresh(c: Control, now: nat)
    requires TimesOk(c, now)
    ensures Fresh(ExpireSecret(c.secret, now), now)
  {
  }

  /** What inputs other than commands and ticks do to the matcher. */
  lemma OtherSecret(c: Control, i: Input)
    requires !i.Apply? && !i.TickAt?
    ensures var d := Step(c, i).0;
            && (d.mode == CameraArmed && c.mode == CameraArmed && !i.Cleared? ==> d.secret == c.secret)
            && (i.Cleared? ==> d == Initial)
            && ((c.mode == CameraArmed) != (d.mode == CameraArmed) ==> d.secret == Idle || d.secret == c.secret)
            && (c.mode == CameraArmed && d.mode != CameraArmed ==> d.secret == Idle)
            && (c.mode != CameraArmed && d.mode != CameraArmed ==>
                  d.secret == c.secret || d.secret == c.secret.(down := false))
  {
  }

  lemma OtherStepOk(c: Control, log: seq<Event>, i: Input)
    requires Ok(c, log) && !i.Apply? && !i.TickAt?
    ensures Ok(Step(c, i).0, NextLog(c, log, i))
  {
    OtherSecret(c, i);
    IdleExplains(Idle, []);
  }

  lemma TickOk(c: Control, log: seq<Event>, t: nat)
    requires Ok(c, log)
    ensures Ok(Tick(c, t).0, NextLog(c, log, TickAt(t)))
  {
    if c.mode == CameraArmed { ExpiryExplains(c.secret, log, t); }
  }

  lemma ApplyOk(c: Control, log: seq<Event>, command: int, t: nat)
    requires Ok(c, log) && TimesOk(c, t)
    ensures Ok(ApplyPtz(c, command, t).0, NextLog(c, log, Apply(command, t)))
  {
    if c.mode == CameraArmed {
      ExpiryIsFresh(c, t);
      if !Hear(c.secret, command, t).1 { HeardExplains(c.secret, log, Event(command, t)); }
    } else {
      OutsideCamera(c, command, t);
    }
  }

  lemma OutsideCamera(c: Control, command: int, t: nat)
    requires c.mode != CameraArmed
    ensures ApplyPtz(c, command, t).0.mode != CameraArmed && ApplyPtz(c, command, t).0.secret == c.secret
  {
  }

  lemma StepOk(c: Control, log: seq<Event>, i: Input, now: nat)
    requires Ok(c, log) && TimesOk(c, now) && now <= TimeOf(i, now)
    ensures Ok(Step(c, i).0, NextLog(c, log, i))
  {
    AgesDoNotWrap(c, now, TimeOf(i, now));
    match i {
      case Apply(command, t) => ApplyOk(c, log, command, t);
      case TickAt(t) => TickOk(c, log, t);
      case _ => OtherStepOk(c, log, i);
    }
  }

  lemma {:induction false} RunOk(c: Control, log: seq<Event>, inputs: seq<Input>, now: nat) returns (end: nat)
    requires Ok(c, log) && TimesOk(c, now) && InTime(inputs, now)
    ensures Ok(After(c, inputs), LogAfter(c, log, inputs)) && TimesOk(After(c, inputs), end)
    ensures now <= end && (forall i :: InTime(inputs + [i], now) ==> end <= TimeOf(i, end))
    decreases inputs
  {
    if inputs == [] {
      end := now;
      forall i: Input | InTime(inputs + [i], now) ensures end <= TimeOf(i, end) {
        assert (inputs + [i])[0] == i;
      }
    } else {
      var t := NextTime(inputs[0], now);
      StepOk(c, log, inputs[0], now);
      StepInTime(c, inputs[0], now);
      end := RunOk(Step(c, inputs[0]).0, NextLog(c, log, inputs[0]), inputs[1..], t);
      forall i: Input | InTime(inputs + [i], now) ensures end <= TimeOf(i, end) {
        assert (inputs + [i])[1..] == inputs[1..] + [i];
      }
    }
  }

  /** The secret was typed: the last eight presses spell it in time, each is released before the next,
      the eighth is still held, and the stop that ends it comes in time. */
  ghost predicate Typed(log: seq<Event>, stop: nat) {
    var p := Presses(log, false);
    && |p| >= |SECRET|
    && (var q := Last(p, |SECRET|);
        && Spells(q)
        && Separated(log, q)
        && q[7].now <= stop <= q[7].now + SECRET_GAP
        && stop <= q[0].now + SECRET_TOTAL)
  }

  /** The eight presses stand in the history with stops between them and none after the eighth. */
  ghost predicate Separated(log: seq<Event>, q: seq<Event>)
    requires |q| == |SECRET|
  {
    exists at :: PressedAt(log, q, at) && HeldFrom(log, at[7])
  }

  lemma {:induction false} LastPlaces(log: seq<Event>)
    requires |Presses(log, false)| >= |SECRET| && HeldAfter(log, false)
    ensures Separated(log, Last(Presses(log, false), |SECRET|))
  {
    var at := PressPlaces(log);
    var last := at[|at| - |SECRET|..];
    forall k | 0 < k < |last| ensures StopBetween(log, last[k - 1], last[k]) {
      assert last[k] == at[|at| - |SECRET| + k];
    }
    assert PressedAt(log, Last(Presses(log, false), |SECRET|), last) && HeldFrom(log, last[7]);
  }

  /** A complete and fresh match explains the stop that ends it. */
  lemma CompleteIsTyped(m: Matcher, log: seq<Event>, stop: nat)
    requires Explains(m, log) && m.complete && Fresh(m, stop)
    ensures Typed(log, stop)
  {
    LastPlaces(log);
    assert Matched(m, Last(Presses(log, false), 8));
  }

  /** Soundness over every run from the start: whatever was observed, ticked, requested or abandoned
      before, a command that raises ENTER through the recogniser is a stop, and the commands since
      the control came to camera mode typed the secret. */
  lemma {:induction false} SecretSound(inputs: seq<Input>, command: int, t: nat)
    requires InTime(inputs + [Apply(command, t)], 0)
    ensures ApplyPtz(After(Initial, inputs), command, t).1.enter ==>
              command == 0 && Typed(LogAfter(Initial, [], inputs), t)
  {
    var c, log := After(Initial, inputs), LogAfter(Initial, [], inputs);
    IdleExplains(Idle, []);
    InTimePrefix(inputs, Apply(command, t), 0);
    var end := RunOk(Initial, [], inputs, 0);
    AgesDoNotWrap(c, end, t);
    if c.mode == CameraArmed && command == 0 && CameraCommand(c, command, t).1.enter {
      ExpiryIsFresh(c, t);
      CompleteIsTyped(c.secret, log, t);
    }
  }

  lemma {:induction false} InTimePrefix(inputs: seq<Input>, i: Input, now: nat)
    requires InTime(inputs + [i], now)
    ensures InTime(inputs, now)
    decreases inputs
  {
    if inputs != [] {
      assert (inputs + [i])[1..] == inputs[1..] + [i];
      InTimePrefix(inputs[1..], i, NextTime(inputs[0], now));
    }
  }
}
