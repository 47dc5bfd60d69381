/** Runs of the runtime control: every input the worker can give it, in any order and number. */
module RuntimeLifecycle {
  import opened RuntimeControl

  /** `EntryFailed` is the worker putting the camera back when the entry melt cannot start;
      `Cleared` is it zeroing the whole control. */
  datatype Input =
    | Raw(command: int, now: nat)
    | Apply(command: int, now: nat)
    | TickAt(now: nat)
    | AskEnter
    | AskExit
    | EntryDone
    | ExitDone
    | EntryFailed
    | Cleared

  function Step(c: Control, i: Input): (Control, Actions) {
    match i
    case Raw(command, now) => ObserveRaw(c, command, now)
    case Apply(command, now) => ApplyPtz(c, command, now)
    case TickAt(now) => Tick(c, now)
    case AskEnter => RequestEnter(c)
    case AskExit => RequestExit(c)
    case EntryDone => (EntryComplete(c).0, None)
    case ExitDone => (ExitComplete(c).0, None)
    case EntryFailed => (if c.mode == EntryMelt then c.(mode := CameraArmed) else c, None)
    case Cleared => (Initial, None)
  }

  function After(c: Control, inputs: seq<Input>): Control
    decreases inputs
  {
    if inputs == [] then c else After(Step(c, inputs[0]).0, inputs[1..])
  }

  // ---------------------------------------------------------------- the lifecycle is a cycle

  datatype Mark = Entered | InDoom | Exited | Back | Abandoned

  /** What a step announces: an ENTER or EXIT action, or a completion that took effect. */
  function MarkOf(c: Control, i: Input): seq<Mark> {
    var (d, actions) := Step(c, i);
    if actions.enter then [Entered]
    else if actions.exit then [Exited]
    else if i.EntryDone? && EntryComplete(c).1 == 0 then [InDoom]
    else if i.ExitDone? && ExitComplete(c).1 == 0 then [Back]
    else if i.EntryFailed? || i.Cleared? then [Abandoned]
    else []
  }

  function Marks(c: Control, inputs: seq<Input>): seq<Mark>
    decreases inputs
  {
    if inputs == [] then [] else MarkOf(c, inputs[0]) + Marks(Step(c, inputs[0]).0, inputs[1..])
  }

  predicate Legal(mode: Mode, mark: Mark) {
    match mark
    case Entered => mode == CameraArmed
    case InDoom => mode == EntryMelt
    case Exited => mode == Doom
    case Back => mode == ExitMelt
    case Abandoned => true
  }

  function Follow(mode: Mode, mark: Mark): Mode {
    match mark
    case Entered => EntryMelt
    case InDoom => Doom
    case Exited => ExitMelt
    case Back => CameraArmed
    case Abandoned => CameraArmed
  }

  /** One step changes the mode exactly when it leaves a mark, and each mark belongs to one edge of
      the cycle; ENTER is raised only with the first edge and EXIT only with the third. */
  lemma StepFollowsMark(c: Control, i: Input)
    ensures var (d, actions) := Step(c, i);
            var mark := MarkOf(c, i);
            && |mark| <= 1
            && !(actions.enter && actions.exit)
            && (mark == [] ==> d.mode == c.mode)
            && (mark == [Abandoned] ==> Abandons(i))
            && (mark == [InDoom] ==> i.EntryDone?) && (mark == [Back] ==> i.ExitDone?)
            && (mark == [Entered] <==> actions.enter) && (mark == [Exited] <==> actions.exit)
            && (mark != [] && mark[0] != Abandoned ==> Legal(c.mode, mark[0]) && d.mode == Follow(c.mode, mark[0]))
            && (actions.enter <==> c.mode == CameraArmed && d.mode == EntryMelt)
            && (actions.exit <==> c.mode == Doom && d.mode == ExitMelt)
  {
  }

  function Position(mode: Mode): nat {
    match mode case CameraArmed => 0 case EntryMelt => 1 case Doom => 2 case ExitMelt => 3
  }

  const Cycle: seq<Mark> := [Entered, InDoom, Exited, Back]

  predicate Abandons(i: Input) {
    i.EntryFailed? || i.Cleared?
  }

  /** Over any run that nothing abandons, ENTER, entry completion, EXIT, exit completion follow one
      another strictly, starting from wherever the control stands. */
  lemma {:induction false} LifecycleCycles(c: Control, inputs: seq<Input>)
    requires forall i :: i in inputs ==> !Abandons(i)
    ensures OnCycle(c.mode, Marks(c, inputs), After(c, inputs).mode)
    decreases inputs
  {
    if inputs != [] {
      var d, rest := Step(c, inputs[0]).0, inputs[1..];
      StepFollowsMark(c, inputs[0]);
      LifecycleCycles(d, rest);
      CycleExtends(c.mode, MarkOf(c, inputs[0]), d.mode, Marks(d, rest), After(d, rest).mode);
    }
  }

  /** From `mode`, the marks are the next ones of the cycle and end in `end`. */
  predicate OnCycle(mode: Mode, marks: seq<Mark>, end: Mode) {
    && (forall k :: 0 <= k < |marks| ==> marks[k] == Cycle[(Position(mode) + k) % 4])
    && Position(end) == (Position(mode) + |marks|) % 4
  }

  lemma CycleExtends(mode: Mode, mark: seq<Mark>, next: Mode, later: seq<Mark>, end: Mode)
    requires |mark| <= 1 && OnCycle(next, later, end)
    requires mark == [] ==> next == mode
    requires mark != [] ==> mark[0] != Abandoned && Legal(mode, mark[0]) && next == Follow(mode, mark[0])
    ensures OnCycle(mode, mark + later, end)
  {
    var all := mark + later;
    forall k | 0 <= k < |all| ensures all[k] == Cycle[(Position(mode) + k) % 4] {
      if k >= |mark| { assert all[k] == later[k - |mark|]; }
    }
  }

  // ---------------------------------------------------------------- one turn of the worker

  datatype Event = Event(command: int, now: nat)

  /** A drained camera command: the raw observer, then the recogniser, and in camera mode a
      synthetic stop one millisecond later for every direction. */
  function EventInputs(c: Control, e: Event): seq<Input> {
    [Raw(e.command, e.now), Apply(e.command, e.now)]
    + if c.mode == CameraArmed && e.command != 0 then [Apply(0, e.now + 1)] else []
  }

  function BatchInputs(c: Control, batch: seq<Event>): seq<Input>
    decreases batch
  {
    if batch == [] then []
    else EventInputs(c, batch[0]) + BatchInputs(After(c, EventInputs(c, batch[0])), batch[1..])
  }

  function ActionsOf(c: Control, inputs: seq<Input>): Actions
    decreases inputs
  {
    if inputs == [] then None
    else var (d, a) := Step(c, inputs[0]); Or(a, ActionsOf(d, inputs[1..]))
  }

  /** Dashboard requests and the drained batch. */
  function RequestInputs(c: Control, start: bool, camera: bool, batch: seq<Event>): seq<Input> {
    var asked := (if start then [AskEnter] else []) + (if camera then [AskExit] else []);
    asked + BatchInputs(After(c, asked), batch)
  }

  /** The whole control block of one worker turn; an entry while the game is not ready clears the
      control instead. */
  function TurnInputs(c: Control, start: bool, camera: bool, batch: seq<Event>, ready: bool, now: nat): seq<Input> {
    var requests := RequestInputs(c, start, camera, batch);
    requests + (if ActionsOf(c, requests).enter && !ready then [Cleared] else []) + [TickAt(now)]
  }

  /** How many steps raise ENTER or EXIT. */
  function Raised(c: Control, inputs: seq<Input>): nat
    decreases inputs
  {
    if inputs == [] then 0
    else
      var (d, a) := Step(c, inputs[0]);
      (if a.enter || a.exit then 1 else 0) + Raised(d, inputs[1..])
  }

  lemma {:induction false} Splits(c: Control, a: seq<Input>, b: seq<Input>)
    ensures After(c, a + b) == After(After(c, a), b)
    ensures Raised(c, a + b) == Raised(c, a) + Raised(After(c, a), b)
    ensures ActionsOf(c, a + b) == Or(ActionsOf(c, a), ActionsOf(After(c, a), b))
    decreases a
  {
    if a == [] {
      assert a + b == b;
    } else {
      assert (a + b)[1..] == a[1..] + b;
      Splits(Step(c, a[0]).0, a[1..], b);
    }
  }

  predicate Request(i: Input) {
    i.Raw? || i.Apply? || i.AskEnter? || i.AskExit? || i.TickAt?
  }

  lemma RequestStep(c: Control, i: Input)
    requires Request(i)
    ensures var (d, a) := Step(c, i);
            && !(a.enter && a.exit)
            && (a.enter ==> c.mode == CameraArmed && d.mode == EntryMelt)
            && (a.exit ==> c.mode == Doom && d.mode == ExitMelt)
            && (!a.enter && !a.exit ==> d.mode == c.mode)
  {
  }

  /** Without a completion in between, at most one transition is raised, and after it the control
      waits in a melt. */
  lemma {:induction false} OneTransition(c: Control, inputs: seq<Input>)
    requires forall i :: i in inputs ==> Request(i)
    ensures Raised(c, inputs) <= 1
    ensures c.mode == EntryMelt || c.mode == ExitMelt ==>
              Raised(c, inputs) == 0 && After(c, inputs).mode == c.mode
    ensures Raised(c, inputs) == 1 ==> After(c, inputs).mode == EntryMelt || After(c, inputs).mode == ExitMelt
    ensures Raised(c, inputs) == 0 ==> After(c, inputs).mode == c.mode
    ensures ActionsOf(c, inputs).enter || ActionsOf(c, inputs).exit <==> Raised(c, inputs) == 1
    ensures ActionsOf(c, inputs).enter ==> c.mode == CameraArmed && After(c, inputs).mode == EntryMelt
    ensures ActionsOf(c, inputs).exit ==> c.mode == Doom && After(c, inputs).mode == ExitMelt
    decreases inputs
  {
    if inputs != [] {
      RequestStep(c, inputs[0]);
      OneTransition(Step(c, inputs[0]).0, inputs[1..]);
    }
  }

  lemma {:induction false} BatchRequests(c: Control, batch: seq<Event>)
    ensures forall i :: i in BatchInputs(c, batch) ==> Request(i)
    decreases batch
  {
    if batch != [] {
      BatchRequests(After(c, EventInputs(c, batch[0])), batch[1..]);
    }
  }

  /** One worker turn, whatever was requested and drained, raises at most one of ENTER and EXIT. */
  lemma {:induction false} TurnRaisesAtMostOne(c: Control, start: bool, camera: bool, batch: seq<Event>,
                                               ready: bool, now: nat)
    ensures Raised(c, TurnInputs(c, start, camera, batch, ready, now)) <= 1
  {
    var requests := RequestInputs(c, start, camera, batch);
    AllRequests(c, start, camera, batch);
    if ActionsOf(c, requests).enter && !ready {
      OneTransition(c, requests);
      Splits(c, requests, [Cleared]);
      Splits(c, requests + [Cleared], [TickAt(now)]);
      ClearedTickIsSilent(After(c, requests), now);
    } else {
      OneTransition(c, requests + [TickAt(now)]);
      assert requests + [] + [TickAt(now)] == requests + [TickAt(now)];
    }
  }

  lemma {:induction false} ClearedTickIsSilent(c: Control, now: nat)
    ensures Raised(c, [Cleared]) == 0 && After(c, [Cleared]) == Initial
    ensures Raised(Initial, [TickAt(now)]) == 0
  {
    assert [Cleared][1..] == [];
    assert [TickAt(now)][1..] == [];
    assert After(Initial, []) == Initial;
  }

  // ---------------------------------------------------------------- the clock

  /** No live timestamp lies in the future of `now`, and each matcher's first is not after its last. */
  predicate TimesOk(c: Control, now: nat) {
    && (c.secret.index != 0 ==> c.secret.first <= c.secret.last <= now)
    && (c.taps.index != 0 ==> c.taps.first <= c.taps.last <= now)
    && (c.hold.down ==> c.hold.since <= now)
  }

  function TimeOf(i: Input, now: nat): nat {
    if i.Raw? || i.Apply? || i.TickAt? then i.now else now
  }

  /** With a clock that never goes back, no age is ever computed from the future, so none wraps ... */
  lemma AgesDoNotWrap(c: Control, now: nat, t: nat)
    requires TimesOk(c, now) && now <= t
    ensures c.secret.index != 0 ==>
              Age(t, c.secret.last) == t - c.secret.last && Age(t, c.secret.first) == t - c.secret.first
    ensures c.taps.index != 0 ==>
              Age(t, c.taps.last) == t - c.taps.last && Age(t, c.taps.first) == t - c.taps.first
    ensures c.hold.down ==> Age(t, c.hold.since) == t - c.hold.since
    ensures TimesOk(c, t)
  {
  }

  /** ... and every input keeps it so. */
  lemma TimesStayOk(c: Control, i: Input, now: nat)
    requires TimesOk(c, now) && now <= TimeOf(i, now)
    ensures TimesOk(Step(c, i).0, TimeOf(i, now))
  {
    var t := TimeOf(i, now);
    AgesDoNotWrap(c, now, t);
    match i {
      case Raw(command, _) => RawKeepsTime(c, command, t);
      case Apply(command, _) => ApplyKeepsTime(c, command, t);
      case _ =>
    }
  }

  lemma RawKeepsTime(c: Control, command: int, t: nat)
    requires TimesOk(c, t)
    ensures TimesOk(ObserveRaw(c, command, t).0, t)
  {
  }

  lemma ApplyKeepsTime(c: Control, command: int, t: nat)
    requires TimesOk(c, t)
    ensures TimesOk(ApplyPtz(c, command, t).0, t)
  {
  }

  /** The synthetic stop is given a time one millisecond ahead of the clock, but a stop leaves no
      timestamp, so the next event may still come at the same millisecond as the direction. */
  lemma StopKeepsTime(c: Control, now: nat, t: nat)
    requires TimesOk(c, now) && now <= t
    ensures TimesOk(Step(c, Apply(0, t)).0, now)
  {
  }

  /** The clock after an input; a stop does not move it. */
  function NextTime(i: Input, now: nat): nat {
    if i.Apply? && i.command == 0 then now else TimeOf(i, now)
  }

  /** Inputs in the order of a clock that never goes back, stops possibly dated ahead of it. */
  predicate InTime(inputs: seq<Input>, now: nat)
    decreases inputs
  {
    inputs == [] || (now <= TimeOf(inputs[0], now) && InTime(inputs[1..], NextTime(inputs[0], now)))
  }

  lemma StepInTime(c: Control, i: Input, now: nat)
    requires TimesOk(c, now) && now <= TimeOf(i, now)
    ensures TimesOk(Step(c, i).0, NextTime(i, now)) && now <= NextTime(i, now)
  {
    if i.Apply? && i.command == 0 { StopKeepsTime(c, now, i.now); } else { TimesStayOk(c, i, now); }
  }

  /** A whole batch of drained commands with a clock that never goes back. */
  predicate Clocked(batch: seq<Event>, now: nat)
    decreases batch
  {
    batch == [] || (now <= batch[0].now && Clocked(batch[1..], batch[0].now))
  }

  lemma {:induction false} BatchKeepsTime(c: Control, batch: seq<Event>, now: nat) returns (end: nat)
    requires TimesOk(c, now) && Clocked(batch, now)
    ensures now <= end == if batch == [] then now else batch[|batch| - 1].now
    ensures TimesOk(After(c, BatchInputs(c, batch)), end)
    decreases batch
  {
    if batch == [] {
      end := now;
    } else {
      var e := batch[0];
      EventKeepsTime(c, e, now);
      var d := After(c, EventInputs(c, e));
      end := BatchKeepsTime(d, batch[1..], e.now);
      Splits(c, EventInputs(c, e), BatchInputs(d, batch[1..]));
    }
  }

  lemma {:induction false} EventKeepsTime(c: Control, e: Event, now: nat)
    requires TimesOk(c, now) && now <= e.now
    ensures TimesOk(After(c, EventInputs(c, e)), e.now)
  {
    var raw, apply, stop := Raw(e.command, e.now), Apply(e.command, e.now), Apply(0, e.now + 1);
    var c1 := After(c, [raw]);
    var c2 := After(c1, [apply]);
    RunOfOne(c, raw);
    RunOfOne(c1, apply);
    RunOfOne(c2, stop);
    TimesStayOk(c, raw, now);
    TimesStayOk(c1, apply, e.now);
    StopKeepsTime(c2, e.now, e.now + 1);
    Splits(c, [raw], [apply]);
    Splits(c, [raw] + [apply], [stop]);
    assert EventInputs(c, e) == [raw] + [apply] || EventInputs(c, e) == [raw] + [apply] + [stop];
  }

  // ---------------------------------------------------------------- the worker's code

  class Worker {
    const control: RuntimeControl

    constructor ()
      ensures fresh(control) && control.State() == Initial
    {
      control := new RuntimeControl();
    }

    /** The loop over one drained batch. */
    method DrainBatch(batch: seq<Event>) returns (actions: Actions)
      modifies control
      ensures control.State() == After(old(control.State()), BatchInputs(old(control.State()), batch))
      ensures actions == ActionsOf(old(control.State()), BatchInputs(old(control.State()), batch))
      decreases batch
    {
      ghost var start := control.State();
      ghost var done: seq<Input> := [];
      actions := None;
      for k := 0 to |batch|
        invariant done + BatchInputs(control.State(), batch[k..]) == BatchInputs(start, batch)
        invariant control.State() == After(start, done) && actions == ActionsOf(start, done)
      {
        ghost var before := control.State();
        var action := DrainEvent(batch[k]);
        DrainProgress(start, done, before, batch, k);
        done := done + EventInputs(before, batch[k]);
        actions := Or(actions, action);
      }
      assert done + [] == done;
    }

    method DrainEvent(e: Event) returns (action: Actions)
      modifies control
      ensures control.State() == After(old(control.State()), EventInputs(old(control.State()), e))
      ensures action == ActionsOf(old(control.State()), EventInputs(old(control.State()), e))
    {
      ghost var c := control.State();
      var modeBefore := control.mode;
      action := control.DoObserveRaw(e.command, e.now);
      var applied := control.DoApplyPtz(e.command, e.now);
      action := Or(action, applied);
      RunOfTwo(c, Raw(e.command, e.now), Apply(e.command, e.now));
      if modeBefore == CameraArmed && e.command != 0 {
        ghost var d := control.State();
        var stopped := control.DoApplyPtz(0, e.now + 1);
        action := Or(action, stopped);
        RunOfOne(d, Apply(0, e.now + 1));
        Splits(c, [Raw(e.command, e.now), Apply(e.command, e.now)], [Apply(0, e.now + 1)]);
      } else {
        assert EventInputs(c, e) == [Raw(e.command, e.now), Apply(e.command, e.now)];
      }
    }

    /** The dashboard's requests and the drained batch. */
    method Requests(start: bool, camera: bool, batch: seq<Event>) returns (actions: Actions)
      modifies control
      ensures control.State() == After(old(control.State()), RequestInputs(old(control.State()), start, camera, batch))
      ensures actions == ActionsOf(old(control.State()), RequestInputs(old(control.State()), start, camera, batch))
    {
      ghost var c := control.State();
      actions := None;
      if start {
        actions := control.DoRequestEnter();
      }
      if camera {
        var requested := control.DoRequestExit();
        actions := Or(actions, requested);
      }
      ghost var asked := (if start then [AskEnter] else []) + (if camera then [AskExit] else []);
      RunOfAsked(c, start, camera);
      var drained := DrainBatch(batch);
      actions := Or(actions, drained);
      Splits(c, asked, BatchInputs(After(c, asked), batch));
    }

    /** The control block of one turn, up to the melts it starts. */
    method Turn(start: bool, camera: bool, batch: seq<Event>, ready: bool, now: nat) returns (actions: Actions)
      modifies control
      ensures control.State() == After(old(control.State()),
                                       TurnInputs(old(control.State()), start, camera, batch, ready, now))
      ensures !(actions.enter && actions.exit)
      ensures actions.enter ==> ready && control.mode == EntryMelt && old(control.mode) == CameraArmed
      ensures actions.exit ==> control.mode == ExitMelt && old(control.mode) == Doom
      // a dashboard request in its mode is obeyed; an entry before the game is ready starts over
      ensures old(control.mode) == Doom && camera ==> actions.exit && control.mode == ExitMelt
      ensures old(control.mode) == CameraArmed && start && ready ==> actions.enter && control.mode == EntryMelt
      ensures old(control.mode) == CameraArmed && start && !ready ==>
                control.State() == Initial && !actions.enter && !actions.exit
      // without one, what the drained batch raises is raised
      ensures old(control.mode) == Doom && !camera
              && ActionsOf(old(control.State()), BatchInputs(old(control.State()), batch)).exit ==>
                actions.exit && control.mode == ExitMelt
      ensures old(control.mode) == CameraArmed && !start && ready
              && ActionsOf(old(control.State()), BatchInputs(old(control.State()), batch)).enter ==>
                actions.enter && control.mode == EntryMelt
      // and in a turn with nothing else, Down held for three seconds
      ensures old(control.mode) == Doom && !camera && batch == [] ==>
                (actions.exit <==> old(control.exitDown) && now >= old(control.exitDownFirst) + 3000)
      // a melt is left to its own completion
      ensures old(control.mode) == EntryMelt || old(control.mode) == ExitMelt ==>
                control.mode == old(control.mode) && !actions.enter && !actions.exit
    {
      ghost var c := control.State();
      actions := Requests(start, camera, batch);
      ghost var requests, raised := RequestInputs(c, start, camera, batch), actions;
      RequestsRaise(c, start, camera, batch);
      AllRequests(c, start, camera, batch);
      OneTransition(c, requests);
      ghost var cleared: seq<Input> := [];
      if actions.enter && !ready {
        control.Clear();
        cleared := [Cleared];
        ClearedTickIsSilent(After(c, requests), now);
        actions := actions.(enter := false);
      }
      Splits(c, requests, cleared);
      ghost var settled := control.State();
      Splits(c, requests + cleared, [TickAt(now)]);
      RunOfOne(settled, TickAt(now));
      TickRaises(settled, now);
      var ticked := control.DoTick(now);
      actions := Or(actions, ticked);
    }
  }

  /** What a tick does to the mode. */
  lemma TickRaises(c: Control, now: nat)
    ensures var (d, a) := Tick(c, now);
            && !a.enter && !a.forward
            && (a.exit <==> c.mode == Doom && c.hold.down && now >= c.hold.since + 3000)
            && d.mode == (if a.exit then ExitMelt else c.mode)
            && (c == Initial ==> d == Initial)
  {
  }

  /** What the four transitions leave of the recognisers: an entry starts without secret, stops or pending
      direction, an exit without stops, hold or pending direction, the return to the camera as at the
      start; out of their mode they change nothing. */
  lemma TransitionsReset(c: Control)
    ensures c.mode == CameraArmed ==>
              && RequestEnter(c).1 == Enter
              && RequestEnter(c).0 == Control(EntryMelt, Matcher(0, 0, 0, false, false), Taps(0, 0, 0), c.hold, false)
    ensures c.mode == Doom ==>
              && RequestExit(c).1 == Exit
              && RequestExit(c).0
                 == Control(ExitMelt, c.secret.(down := false), Taps(0, 0, 0), Hold(false, 0), false)
    ensures c.mode == EntryMelt ==> EntryComplete(c) == (c.(mode := Doom), 0)
    ensures c.mode == ExitMelt ==> ExitComplete(c) == (Initial, 0)
    ensures c.mode != CameraArmed ==> RequestEnter(c) == (c, None)
    ensures c.mode != Doom ==> RequestExit(c) == (c, None)
    ensures c.mode != EntryMelt ==> EntryComplete(c) == (c, -1)
    ensures c.mode != ExitMelt ==> ExitComplete(c) == (c, -1)
  {
  }

  /** The dashboard's requests come first; when none of them takes effect the batch decides. */
  lemma {:induction false} RequestsRaise(c: Control, start: bool, camera: bool, batch: seq<Event>)
    ensures var inputs := RequestInputs(c, start, camera, batch);
            && (c.mode == Doom && camera ==> ActionsOf(c, inputs).exit && After(c, inputs).mode == ExitMelt)
            && (c.mode == CameraArmed && start ==> ActionsOf(c, inputs).enter && After(c, inputs).mode == EntryMelt)
            && (!(c.mode == Doom && camera) && !(c.mode == CameraArmed && start) ==>
                  && ActionsOf(c, inputs) == ActionsOf(c, BatchInputs(c, batch))
                  && After(c, inputs) == After(c, BatchInputs(c, batch)))
  {
    var asked := (if start then [AskEnter] else []) + (if camera then [AskExit] else []);
    var d := After(c, asked);
    RunOfAsked(c, start, camera);
    Splits(c, asked, BatchInputs(d, batch));
    BatchRequests(d, batch);
    OneTransition(d, BatchInputs(d, batch));
  }

  lemma AllRequests(c: Control, start: bool, camera: bool, batch: seq<Event>)
    ensures forall i :: i in RequestInputs(c, start, camera, batch) ==> Request(i)
  {
    var asked := (if start then [AskEnter] else []) + (if camera then [AskExit] else []);
    BatchRequests(After(c, asked), batch);
  }

  lemma {:induction false} DrainProgress(start: Control, done: seq<Input>, before: Control, batch: seq<Event>, k: nat)
    requires k < |batch| && before == After(start, done)
    ensures var inputs := EventInputs(before, batch[k]);
            && After(start, done + inputs) == After(before, inputs)
            && ActionsOf(start, done + inputs) == Or(ActionsOf(start, done), ActionsOf(before, inputs))
            && done + BatchInputs(before, batch[k..])
               == done + inputs + BatchInputs(After(before, inputs), batch[k + 1..])
  {
    BatchUnfolds(before, batch, k);
    Splits(start, done, EventInputs(before, batch[k]));
  }

  lemma {:induction false} BatchUnfolds(c: Control, batch: seq<Event>, k: nat)
    requires k < |batch|
    ensures BatchInputs(c, batch[k..])
            == EventInputs(c, batch[k]) + BatchInputs(After(c, EventInputs(c, batch[k])), batch[k + 1..])
  {
    assert batch[k..][1..] == batch[k + 1..];
  }

  lemma {:induction false} RunOfOne(c: Control, a: Input)
    ensures After(c, [a]) == Step(c, a).0 && ActionsOf(c, [a]) == Step(c, a).1
  {
    assert [a][1..] == [];
    var (d, action) := Step(c, a);
    assert After(d, []) == d && ActionsOf(d, []) == None;
  }

  lemma {:induction false} RunOfTwo(c: Control, a: Input, b: Input)
    ensures After(c, [a, b]) == Step(Step(c, a).0, b).0
    ensures ActionsOf(c, [a, b]) == Or(Step(c, a).1, Step(Step(c, a).0, b).1)
  {
    RunOfOne(c, a);
    RunOfOne(Step(c, a).0, b);
    Splits(c, [a], [b]);
    assert [a, b] == [a] + [b];
  }

  lemma {:induction false} RunOfAsked(c: Control, start: bool, camera: bool)
    ensures var asked := (if start then [AskEnter] else []) + (if camera then [AskExit] else []);
            var (d, a) := if start then RequestEnter(c) else (c, None);
            var (e, b) := if camera then RequestExit(d) else (d, None);
            After(c, asked) == e && ActionsOf(c, asked) == Or(a, b)
  {
    var asked := (if start then [AskEnter] else []) + (if camera then [AskExit] else []);
    if start && camera {
      RunOfTwo(c, AskEnter, AskExit);
      assert asked == [AskEnter, AskExit];
    } else if start {
      RunOfOne(c, AskEnter);
      assert asked == [AskEnter];
    } else if camera {
      RunOfOne(c, AskExit);
      assert asked == [AskExit];
    }
  }
}
