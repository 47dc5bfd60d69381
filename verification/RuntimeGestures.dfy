/** The two other gestures, told from the history of inputs alone: eight directionless stops, and
    holding Down for three seconds. */
module RuntimeGestures {
  import opened RuntimeControl
  import opened RuntimeLifecycle

  // ---------------------------------------------------------------- eight directionless stops

  function RawOf(i: Input): seq<Event> {
    if i.Raw? then [Event(i.command, i.now)] else []
  }

  /** The raw commands of a run. */
  function Raws(inputs: seq<Input>): seq<Event>
    decreases inputs
  {
    if inputs == [] then []
    else RawOf(inputs[0]) + Raws(inputs[1..])
  }

  /** Stops only, each within the gap of the one before and all within the total of the first. */
  predicate StopRun(q: seq<Event>) {
    && (forall k :: 0 <= k < |q| ==> q[k].command == 0)
    && (forall k :: 0 < k < |q| ==> q[k - 1].now <= q[k].now <= q[k - 1].now + SECRET_GAP)
    && (forall k :: 0 <= k < |q| ==> q[0].now <= q[k].now <= q[0].now + SECRET_TOTAL)
  }

  function LastRaws(raws: seq<Event>, n: nat): seq<Event>
    requires n <= |raws|
  {
    raws[|raws| - n..]
  }

  /** The counted stops are the newest raw commands. */
  ghost predicate Counted(t: Taps, raws: seq<Event>) {
    && t.index < STOP_TAPS && t.index <= |raws|
    && (var q := LastRaws(raws, t.index);
        && StopRun(q)
        && (q != [] ==> q[0].now == t.first && q[|q| - 1].now == t.last))
  }

  lemma NoneCounted(raws: seq<Event>)
    ensures Counted(NoTaps, raws)
  {
    assert LastRaws(raws, 0) == [];
  }

  lemma ExpiryCounted(t: Taps, raws: seq<Event>, now: nat)
    requires Counted(t, raws)
    ensures Counted(ExpireTaps(t, now), raws)
  {
    NoneCounted(raws);
  }

  predicate FreshTaps(t: Taps, now: nat) {
    t.index != 0 ==> t.first <= t.last <= now <= t.last + SECRET_GAP && now <= t.first + SECRET_TOTAL
  }

  /** Counting one more stop extends the run. */
  lemma TapExtends(t: Taps, raws: seq<Event>, now: nat)
    requires Counted(t, raws) && FreshTaps(t, now)
    ensures StopRun(LastRaws(raws + [Event(0, now)], t.index + 1))
    ensures !Tap(t, now).1 ==> Counted(Tap(t, now).0, raws + [Event(0, now)])
  {
    var e := Event(0, now);
    assert LastRaws(raws + [e], t.index + 1) == LastRaws(raws, t.index) + [e];
  }

  lemma TapsOfRaw(c: Control, command: int, now: nat)
    ensures var taps := ObserveRaw(c, command, now).0.taps;
            taps == NoTaps ||
            (command == 0 && (c.mode == CameraArmed || c.mode == Doom) && !c.direction
             && Tap(ExpireTaps(c.taps, now), now) == (taps, false))
    ensures ObserveRaw(c, command, now).1 != None ==>
              command == 0 && Tap(ExpireTaps(c.taps, now), now).1
  {
  }

  lemma TapsOfOthers(c: Control, i: Input)
    requires !i.Raw?
    ensures var taps := Step(c, i).0.taps;
            taps == NoTaps || taps == c.taps || (i.TickAt? && taps == ExpireTaps(c.taps, i.now))
  {
  }

  lemma FreshAfterExpiry(c: Control, now: nat, t: nat)
    requires TimesOk(c, now) && now <= t
    ensures FreshTaps(ExpireTaps(c.taps, t), t)
  {
    AgesDoNotWrap(c, now, t);
  }

  lemma StepCounted(c: Control, raws: seq<Event>, i: Input, now: nat)
    requires Counted(c.taps, raws) && TimesOk(c, now) && now <= TimeOf(i, now)
    ensures Counted(Step(c, i).0.taps, raws + RawOf(i))
  {
    NoneCounted(raws + RawOf(i));
    match i {
      case Raw(command, t) =>
        TapsOfRaw(c, command, t);
        FreshAfterExpiry(c, now, t);
        ExpiryCounted(c.taps, raws, t);
        TapExtends(ExpireTaps(c.taps, t), raws, t);
      case TickAt(t) =>
        TapsOfOthers(c, i);
        assert raws + [] == raws;
        ExpiryCounted(c.taps, raws, t);
      case _ =>
        TapsOfOthers(c, i);
        assert raws + [] == raws;
    }
  }

  lemma {:induction false} RunCounted(c: Control, raws: seq<Event>, inputs: seq<Input>, now: nat, next: Input)
    returns (end: nat)
    requires Counted(c.taps, raws) && TimesOk(c, now) && InTime(inputs + [next], now)
    ensures Counted(After(c, inputs).taps, raws + Raws(inputs))
    ensures TimesOk(After(c, inputs), end) && end <= TimeOf(next, end)
    decreases inputs
  {
    if inputs == [] {
      assert raws + Raws(inputs) == raws && (inputs + [next])[0] == next;
      end := now;
    } else {
      var i, rest := inputs[0], inputs[1..];
      FirstInTime(inputs, next, now);
      StepCounted(c, raws, i, now);
      StepInTime(c, i, now);
      end := RunCounted(Step(c, i).0, raws + RawOf(i), rest, NextTime(i, now), next);
      RawsCons(raws, inputs);
    }
  }

  lemma {:induction false} FirstInTime(inputs: seq<Input>, next: Input, now: nat)
    requires inputs != [] && InTime(inputs + [next], now)
    ensures now <= TimeOf(inputs[0], now) && InTime(inputs[1..] + [next], NextTime(inputs[0], now))
  {
    assert (inputs + [next])[1..] == inputs[1..] + [next];
  }

  lemma {:induction false} RawsCons(raws: seq<Event>, inputs: seq<Input>)
    requires inputs != []
    ensures raws + RawOf(inputs[0]) + Raws(inputs[1..]) == raws + Raws(inputs)
  {
    Associative(raws, RawOf(inputs[0]), Raws(inputs[1..]));
  }

  lemma Associative(a: seq<Event>, b: seq<Event>, c: seq<Event>)
    ensures a + b + c == a + (b + c)
  {
  }

  /** Soundness over every run: the raw observer raises something only at a stop, and then the newest
      eight raw commands are stops, in time. */
  lemma {:induction false} StopsSound(inputs: seq<Input>, command: int, t: nat)
    requires InTime(inputs + [Raw(command, t)], 0)
    ensures ObserveRaw(After(Initial, inputs), command, t).1 != None ==>
              && command == 0
              && |Raws(inputs)| + 1 >= STOP_TAPS
              && StopRun(LastRaws(Raws(inputs) + [Event(0, t)], STOP_TAPS))
  {
    var c := After(Initial, inputs);
    NoneCounted([]);
    var end := RunCounted(Initial, [], inputs, 0, Raw(command, t));
    assert [] + Raws(inputs) == Raws(inputs);
    TapsOfRaw(c, command, t);
    FreshAfterExpiry(c, end, t);
    ExpiryCounted(c.taps, Raws(inputs), t);
    TapExtends(ExpireTaps(c.taps, t), Raws(inputs), t);
  }

  /** The stops at the given times, as raw commands. */
  function Stops(times: seq<nat>): seq<Input>
    decreases times
  {
    if times == [] then [] else [Raw(0, times[0])] + Stops(times[1..])
  }

  predicate StopTimes(times: seq<nat>, first: nat, last: nat)
    decreases times
  {
    times == [] ||
    (&& last <= times[0] <= last + SECRET_GAP && first <= times[0] <= first + SECRET_TOTAL
     && StopTimes(times[1..], first, times[0]))
  }

  predicate Listening(c: Control) {
    (c.mode == CameraArmed || c.mode == Doom) && !c.direction
  }

  lemma {:induction false} StopsCount(c: Control, times: seq<nat>)
    requires Listening(c) && 0 < c.taps.index && c.taps.index + |times| < STOP_TAPS
    requires StopTimes(times, c.taps.first, c.taps.last)
    ensures ActionsOf(c, Stops(times)) == None
    ensures var d := After(c, Stops(times));
            && d.mode == c.mode && !d.direction
            && d.taps == Taps(c.taps.index + |times|, c.taps.first,
                              if times == [] then c.taps.last else times[|times| - 1])
    decreases times
  {
    if times != [] {
      assert Stops(times)[1..] == Stops(times[1..]);
      StopsCount(Step(c, Stops(times)[0]).0, times[1..]);
    }
  }

  /** Completeness: from no counted stop and no pending direction, eight stops in time raise ENTER in
      camera mode and EXIT in Doom, at the eighth and not before. */
  lemma {:induction false} StopsFire(c: Control, first: nat, times: seq<nat>, last: nat)
    requires Listening(c) && c.taps.index == 0 && |times| == 6
    requires StopTimes(times + [last], first, first)
    ensures ActionsOf(c, Stops([first] + times)) == None
    ensures ObserveRaw(After(c, Stops([first] + times)), 0, last).1
            == if c.mode == CameraArmed then Enter else Exit
  {
    var d := Step(c, Raw(0, first)).0;
    assert Stops([first] + times)[1..] == Stops(times) by { assert ([first] + times)[1..] == times; }
    StopTimesSplit(times, last, first, first);
    StopsCount(d, times);
  }

  lemma {:induction false} StopTimesSplit(times: seq<nat>, last: nat, first: nat, before: nat)
    requires StopTimes(times + [last], first, before)
    ensures StopTimes(times, first, before)
    ensures StopTimes([last], first, if times == [] then before else times[|times| - 1])
    decreases times
  {
    if times == [] {
      assert times + [last] == [last];
    } else {
      assert (times + [last])[1..] == times[1..] + [last];
      StopTimesSplit(times[1..], last, first, times[0]);
    }
  }

  /** A direction discards the stops counted so far, and the stop that ends it is not counted. */
  lemma DirectionDiscards(c: Control, command: int, pressed: nat, stopped: nat)
    requires (c.mode == CameraArmed || c.mode == Doom) && command != 0
    ensures var (d, a) := ObserveRaw(c, command, pressed);
            var (e, b) := ObserveRaw(d, 0, stopped);
            && a == None && d == c.(direction := true, taps := Taps(0, 0, 0))
            && b == None && e == c.(direction := false, taps := Taps(0, 0, 0))
  {
  }

  // ---------------------------------------------------------------- the stops as drained

  function StopEvents(times: seq<nat>): (events: seq<Event>)
    ensures |events| == |times|
    decreases times
  {
    if times == [] then [] else [Event(0, times[0])] + StopEvents(times[1..])
  }

  /** No other recogniser is waiting for a stop. */
  predicate Undisturbed(c: Control) {
    Listening(c) && (c.mode == Doom ==> !c.hold.down) && (c.mode == CameraArmed ==> !c.secret.complete)
  }

  /** One drained stop is counted; the eighth raises the transition of its mode. */
  lemma {:induction false} StopEvent(c: Control, t: nat)
    requires Undisturbed(c) && c.taps.index < 8
    requires c.taps.index > 0 ==>
               c.taps.last <= t <= c.taps.last + SECRET_GAP && c.taps.first <= t <= c.taps.first + SECRET_TOTAL
    ensures var d, a := After(c, EventInputs(c, Event(0, t))), ActionsOf(c, EventInputs(c, Event(0, t)));
            if c.taps.index < 7 then
              && !a.enter && !a.exit && Undisturbed(d) && d.mode == c.mode
              && d.taps == Taps(c.taps.index + 1, if c.taps.index == 0 then t else c.taps.first, t)
            else
              (c.mode == CameraArmed ==> a.enter && !a.exit) && (c.mode == Doom ==> a.exit && !a.enter)
  {
    RunOfTwo(c, Raw(0, t), Apply(0, t));
    assert EventInputs(c, Event(0, t)) == [Raw(0, t), Apply(0, t)];
  }

  lemma {:induction false} StopEventsCount(c: Control, times: seq<nat>)
    requires Undisturbed(c) && c.taps.index + |times| <= 8
    requires c.taps.index > 0 && StopTimes(times, c.taps.first, c.taps.last)
    ensures var a := ActionsOf(c, BatchInputs(c, StopEvents(times)));
            if c.taps.index + |times| < 8 then !a.enter && !a.exit
            else times != [] ==> (c.mode == CameraArmed ==> a.enter) && (c.mode == Doom ==> a.exit)
    decreases times
  {
    if times != [] {
      var e := Event(0, times[0]);
      var d := After(c, EventInputs(c, e));
      StopEvent(c, times[0]);
      assert StopEvents(times)[1..] == StopEvents(times[1..]);
      Splits(c, EventInputs(c, e), BatchInputs(d, StopEvents(times[1..])));
      if c.taps.index < 7 { StopEventsCount(d, times[1..]); }
    }
  }

  /** Eight directionless stops drained in time, in Doom with nothing held: EXIT at the eighth and not
      before; in camera mode, with no secret about to complete, ENTER. */
  lemma {:induction false} StopsDrained(c: Control, first: nat, times: seq<nat>)
    requires Undisturbed(c) && c.taps.index == 0 && |times| == 7 && StopTimes(times, first, first)
    ensures var seven := ActionsOf(c, BatchInputs(c, StopEvents([first] + times[..6])));
            !seven.enter && !seven.exit
    ensures var eight := ActionsOf(c, BatchInputs(c, StopEvents([first] + times)));
            (c.mode == CameraArmed ==> eight.enter) && (c.mode == Doom ==> eight.exit)
  {
    var e := Event(0, first);
    var d := After(c, EventInputs(c, e));
    StopEvent(c, first);
    assert ([first] + times)[1..] == times && ([first] + times[..6])[1..] == times[..6];
    assert StopEvents([first] + times)[1..] == StopEvents(times);
    assert StopEvents([first] + times[..6])[1..] == StopEvents(times[..6]);
    Splits(c, EventInputs(c, e), BatchInputs(d, StopEvents(times)));
    Splits(c, EventInputs(c, e), BatchInputs(d, StopEvents(times[..6])));
    assert times[..6] + [times[6]] == times;
    StopTimesSplit(times[..6], times[6], first, first);
    StopEventsCount(d, times);
    StopEventsCount(d, times[..6]);
  }

  // ---------------------------------------------------------------- holding Down

  /** The commands applied since the control last came to Doom mode. */
  function NextDoomLog(c: Control, log: seq<Event>, i: Input): seq<Event> {
    if c.mode != Doom || Step(c, i).0.mode != Doom then []
    else if i.Apply? then log + [Event(i.command, i.now)]
    else log
  }

  function DoomLog(c: Control, log: seq<Event>, inputs: seq<Input>): seq<Event>
    decreases inputs
  {
    if inputs == [] then log
    else DoomLog(Step(c, inputs[0]).0, NextDoomLog(c, log, inputs[0]), inputs[1..])
  }

  predicate Holding(log: seq<Event>) {
    log != [] && log[|log| - 1].command == 4
  }

  /** When the run of Downs that ends the history began. */
  function HoldStart(log: seq<Event>): nat
    requires Holding(log)
    decreases log
  {
    var before := log[..|log| - 1];
    if Holding(before) then HoldStart(before) else log[|log| - 1].now
  }

  predicate HoldOk(c: Control, log: seq<Event>) {
    if c.mode == Doom then
      && c.hold.down == Holding(log)
      && (Holding(log) ==> c.hold.since == HoldStart(log))
    else log == [] && (c.mode != ExitMelt ==> !c.hold.down)
  }

  lemma DoomCommandHold(c: Control, log: seq<Event>, command: int, t: nat)
    requires c.mode == Doom && HoldOk(c, log)
    ensures var d := DoomCommand(c, command, t).0;
            if d.mode == Doom then HoldOk(d, log + [Event(command, t)]) else d.mode == ExitMelt
  {
    assert (log + [Event(command, t)])[..|log|] == log;
  }

  lemma HoldElsewhere(c: Control, log: seq<Event>, i: Input)
    requires HoldOk(c, log) && !(c.mode == Doom && i.Apply?)
    ensures HoldOk(Step(c, i).0, NextDoomLog(c, log, i))
  {
  }

  lemma {:induction false} RunHold(c: Control, log: seq<Event>, inputs: seq<Input>)
    requires HoldOk(c, log)
    ensures HoldOk(After(c, inputs), DoomLog(c, log, inputs))
    decreases inputs
  {
    if inputs != [] {
      var i := inputs[0];
      if c.mode == Doom && i.Apply? { DoomCommandHold(c, log, i.command, i.now); } else { HoldElsewhere(c, log, i); }
      RunHold(Step(c, i).0, NextDoomLog(c, log, i), inputs[1..]);
    }
  }

  /** Over every run, a tick leaves Doom, and so does a stop, if and only if the commands since Doom
      began end in a run of Downs at least three seconds old. */
  lemma {:induction false} HoldExact(inputs: seq<Input>, t: nat)
    ensures var c, log := After(Initial, inputs), DoomLog(Initial, [], inputs);
            var held := c.mode == Doom && Holding(log) && t >= HoldStart(log) + EXIT_HOLD;
            && (Tick(c, t).1.exit <==> held)
            && (ApplyPtz(c, 0, t).1.exit <==> held)
  {
    RunHold(Initial, [], inputs);
    HoldDecides(After(Initial, inputs), DoomLog(Initial, [], inputs), t);
  }

  lemma {:induction false} HoldDecides(c: Control, log: seq<Event>, t: nat)
    requires HoldOk(c, log)
    ensures var held := c.mode == Doom && Holding(log) && t >= HoldStart(log) + EXIT_HOLD;
            && (Tick(c, t).1.exit <==> held)
            && (ApplyPtz(c, 0, t).1.exit <==> held)
  {
  }

  /** Which commands go on to the game: all of them in Doom, and in the exit melt the stop that lets go
      of a held Down. */
  lemma CommandsForwarded(c: Control, command: int, now: nat)
    ensures ApplyPtz(c, command, now).1.forward
            <==> c.mode == Doom || (c.mode == ExitMelt && c.hold.down && command == 0)
    ensures !ObserveRaw(c, command, now).1.forward && !Tick(c, now).1.forward
  {
  }

  /** A Down and, three seconds or more later, a stop, as drained in Doom: the stop raises EXIT, the Down
      alone nothing; before three seconds neither does. */
  lemma {:induction false} HoldDrained(c: Control, pressed: nat, stopped: nat)
    requires c.mode == Doom && !c.hold.down && pressed <= stopped
    ensures !ActionsOf(c, BatchInputs(c, [Event(4, pressed)])).exit
    ensures ActionsOf(c, BatchInputs(c, [Event(4, pressed), Event(0, stopped)])).exit <==> stopped >= pressed + 3000
  {
    var down, stop := Event(4, pressed), Event(0, stopped);
    DownDrained(c, pressed);
    var d := After(c, EventInputs(c, down));
    StopDrained(d, stopped);
    assert [down][1..] == [] && [down, stop][1..] == [stop] && [stop][1..] == [];
    assert BatchInputs(c, [down]) == EventInputs(c, down) + [];
    assert BatchInputs(d, [stop]) == EventInputs(d, stop) + [];
    Splits(c, EventInputs(c, down), []);
    Splits(d, EventInputs(d, stop), []);
    Splits(c, EventInputs(c, down), BatchInputs(d, [stop]));
  }

  lemma {:induction false} DownDrained(c: Control, t: nat)
    requires c.mode == Doom && !c.hold.down
    ensures var d, a := After(c, EventInputs(c, Event(4, t))), ActionsOf(c, EventInputs(c, Event(4, t)));
            !a.exit && d.mode == Doom && d.hold == Hold(true, t) && d.direction
  {
    RunOfTwo(c, Raw(4, t), Apply(4, t));
    assert EventInputs(c, Event(4, t)) == [Raw(4, t), Apply(4, t)];
  }

  lemma {:induction false} StopDrained(c: Control, t: nat)
    requires c.mode == Doom && c.hold.down && c.hold.since <= t && c.direction
    ensures ActionsOf(c, EventInputs(c, Event(0, t))).exit <==> t >= c.hold.since + 3000
  {
    RunOfTwo(c, Raw(0, t), Apply(0, t));
    assert EventInputs(c, Event(0, t)) == [Raw(0, t), Apply(0, t)];
  }
}
