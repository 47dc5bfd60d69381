/** The stock audio thread's hook and the worker that owns the mapped audio ring.

    Any number of callbacks overlap.  Each announces itself in a counter, looks at the mode, and in
    Doom mode loads the ring pointer and reads the ring; the worker maps the ring, publishes it, and
    later takes the mode away, waits for the counter to reach zero and unmaps the ring. */
module AudioHook {

  const TONE_FRAMES := 256
  const QUIESCE_ATTEMPTS := 100
  const NULL: nat := 0

  datatype Mode = PassThrough | Tone | Doom

  /** The next shared access of a callback.  `ReadingRing` covers every access of
      e1_audio_ring_read_next through the loaded pointer. */
  datatype Call =
    | LoadingMode(usable: bool)
    | CountingTone
    | FillingTone
    | ExpiringTone
    | LoadingRing
    | ReadingRing(ring: nat)
    | StoringResult
    | Leaving

  /** `ring` is the published pointer; `mapped` the rings currently mapped, by address. */
  datatype System = System(mode: Mode, ring: nat, active: nat, frames: nat,
                           calls: map<nat, Call>, mapped: set<nat>)

  /** A new callback arrives with a usable or unusable buffer, or a callback does its next access;
      `done` says whether a ring read was its last one, and when its result is stored whether it
      delivered a frame. */
  datatype Action = Enter(id: nat, usable: bool) | Advance(id: nat, done: bool)

  function CallStep(s: System, a: Action): System {
    match a
    case Enter(id, usable) =>
      if id in s.calls then s
      else s.(active := s.active + 1, calls := s.calls[id := LoadingMode(usable)])
    case Advance(id, done) =>
      if id !in s.calls then s else
      match s.calls[id]
      case LoadingMode(usable) =>
        s.(calls := s.calls[id := if usable && s.mode == Tone then CountingTone
                                  else if usable && s.mode == Doom then LoadingRing
                                  else Leaving])
      case CountingTone =>
        s.(frames := s.frames + 1,
           calls := s.calls[id := if s.frames < TONE_FRAMES then FillingTone else ExpiringTone])
      case FillingTone => s.(calls := s.calls[id := Leaving])
      case ExpiringTone => s.(mode := PassThrough, calls := s.calls[id := Leaving])
      case LoadingRing =>
        s.(calls := s.calls[id := if s.ring == NULL then StoringResult else ReadingRing(s.ring)])
      case ReadingRing(ring) =>
        if done then s.(calls := s.calls[id := StoringResult]) else s
      case StoringResult =>
        s.(frames := s.frames + if done then 1 else 0, calls := s.calls[id := Leaving])
      case Leaving =>
        s.(active := if s.active > 0 then s.active - 1 else 0, calls := s.calls - {id})
  }

  /** The callback has seen Doom mode and is not yet past its use of the ring. */
  predicate UsesRing(c: Call) {
    c.LoadingRing? || c.ReadingRing?
  }

  /** No callback touches an unmapped ring, and one that saw Doom mode is about to load, or has
      loaded, a mapped one. */
  ghost predicate Safe(s: System) {
    forall id :: id in s.calls && UsesRing(s.calls[id]) ==>
      && s.ring in s.mapped && s.ring != NULL
      && (s.calls[id].ReadingRing? ==> s.calls[id].ring == s.ring)
  }

  ghost predicate Ok(s: System) {
    && s.active == |s.calls|
    && (s.mode == Doom ==> s.ring in s.mapped && s.ring != NULL)
    && Safe(s)
  }

  /** No callback uses the ring and none can start to. */
  ghost predicate Quiet(s: System) {
    && s.mode != Doom
    && forall id :: id in s.calls ==> !UsesRing(s.calls[id])
  }

  /** A callback that came in tone mode has still to count its frame or to end the tone. */
  ghost predicate TonePending(s: System) {
    exists id :: id in s.calls && (s.calls[id].CountingTone? || s.calls[id].ExpiringTone?)
  }

  /** The tone is on and no callback is about to end it. */
  ghost predicate ToneOn(s: System) {
    s.mode == Tone && forall id :: id in s.calls ==> !s.calls[id].ExpiringTone?
  }

  /** Callbacks never publish, unmap or enter Doom mode, and never end the quiet.  They leave a mode
      other than tone alone unless a tone callback is pending, and the tone for its bounded length. */
  ghost predicate CallbacksOnly(a: System, b: System) {
    && b.ring == a.ring && b.mapped == a.mapped
    && (b.mode == a.mode || b.mode == PassThrough)
    && (Quiet(a) ==> Quiet(b))
    && ModeKept(a, b)
  }

  ghost predicate ModeKept(a: System, b: System) {
    && a.frames <= b.frames
    && (a.mode != Tone && !TonePending(a) ==> b.mode == a.mode && !TonePending(b))
    && (ToneOn(a) && b.frames <= TONE_FRAMES ==> ToneOn(b))
  }

  lemma CardinalityOfLeaving(m: map<nat, Call>, id: nat)
    requires id in m
    ensures |m - {id}| == |m| - 1
  {
    assert (m - {id}).Keys == m.Keys - {id};
    assert |m.Keys| == |m| && |(m - {id}).Keys| == |m - {id}|;
  }

  lemma CallStepKeepsMode(s: System, a: Action)
    ensures ModeKept(s, CallStep(s, a))
  {
  }

  lemma CallStepOk(s: System, a: Action)
    requires Ok(s)
    ensures Ok(CallStep(s, a)) && CallbacksOnly(s, CallStep(s, a))
  {
    if a.Advance? && a.id in s.calls {
      CardinalityOfLeaving(s.calls, a.id);
    }
    CallStepKeepsMode(s, a);
  }

  ghost function Run(s: System, actions: seq<Action>): System
    decreases actions
  {
    if actions == [] then s else Run(CallStep(s, actions[0]), actions[1..])
  }

  lemma {:induction false} RunOk(s: System, actions: seq<Action>)
    requires Ok(s)
    ensures Ok(Run(s, actions)) && CallbacksOnly(s, Run(s, actions))
    decreases actions
  {
    if actions != [] {
      CallStepOk(s, actions[0]);
      RunOk(CallStep(s, actions[0]), actions[1..]);
    }
  }

  lemma {:induction false} RunAppend(s: System, actions: seq<Action>, a: Action)
    ensures Run(s, actions + [a]) == CallStep(Run(s, actions), a)
    decreases actions
  {
    if actions == [] {
      assert Run(CallStep(s, a), []) == CallStep(s, a);
    } else {
      RunAppend(CallStep(s, actions[0]), actions[1..], a);
      assert (actions + [a])[1..] == actions[1..] + [a];
    }
  }

  /** Nobody inside and Doom mode off: the quiet has begun. */
  lemma QuiescenceIsQuiet(s: System)
    requires Ok(s) && s.mode != Doom && s.active == 0
    ensures Quiet(s)
  {
    assert s.calls.Keys == {} by {
      assert |s.calls.Keys| == |s.calls|;
    }
  }

  class AudioHook {
    // shared with the callbacks
    var mode: Mode
    var ring: nat
    var active: nat
    var frames: nat
    var calls: map<nat, Call>
    var mapped: set<nat>
    // the worker's own record
    var ownedRing: nat
    var ringOpen: bool
    var hookActive: bool
    var hookMode: Mode
    // whether every state left behind so far, by a callback or by the worker, was safe
    ghost var alwaysSafe: bool

    ghost function State(): System
      reads this
    {
      System(mode, ring, active, frames, calls, mapped)
    }

    /** Between worker operations: the published ring is the worker's own, and without one nobody
        uses a ring and nobody can start to. */
    ghost predicate Valid()
      reads this
    {
      && Ok(State()) && alwaysSafe
      && ring == ownedRing && ringOpen == (ownedRing != NULL)
      && (ownedRing == NULL ==> mapped == {} && Quiet(State()))
      && (ownedRing != NULL ==> mapped == {ownedRing})
      && (!hookActive ==> mode == PassThrough)
    }

    constructor ()
      ensures Valid() && State() == System(PassThrough, NULL, 0, 0, map[], {}) && !hookActive
    {
      mode, ring, active, frames, calls, mapped := PassThrough, NULL, 0, 0, map[], {};
      ownedRing, ringOpen, hookActive, hookMode := NULL, false, false, PassThrough;
      alwaysSafe := true;
    }

    /** Callbacks run for a while: any number of them, any number of steps. */
    method Interfere()
      requires Ok(State()) && alwaysSafe
      modifies this
      ensures Ok(State()) && alwaysSafe && CallbacksOnly(old(State()), State())
      ensures exists actions :: State() == Run(old(State()), actions)
      ensures unchanged(`ownedRing) && unchanged(`ringOpen) && unchanged(`hookActive)
      ensures unchanged(`hookMode)
    {
      ghost var before := State();
      ghost var actions: seq<Action> := [];
      alwaysSafe := alwaysSafe && Safe(State());
      var steps: nat := *;
      while steps > 0
        invariant Ok(State()) && alwaysSafe && State() == Run(before, actions)
        invariant unchanged(`ownedRing) && unchanged(`ringOpen) && unchanged(`hookActive)
        invariant unchanged(`hookMode)
      {
        var action: Action := *;
        RunAppend(before, actions, action);
        actions := actions + [action];
        CallbackStep(action);
        steps := steps - 1;
      }
      RunOk(before, actions);
    }

    method CallbackStep(action: Action)
      requires Ok(State()) && alwaysSafe
      modifies `mode, `ring, `active, `frames, `calls, `mapped, `alwaysSafe
      ensures Ok(State()) && alwaysSafe && State() == CallStep(old(State()), action)
    {
      CallStepOk(State(), action);
      var next := CallStep(System(mode, ring, active, frames, calls, mapped), action);
      mode, ring, active := next.mode, next.ring, next.active;
      frames, calls, mapped := next.frames, next.calls, next.mapped;
      alwaysSafe := alwaysSafe && Safe(State());
    }

    predicate HasResources()
      reads this
    {
      hookActive || ringOpen || ownedRing != NULL
    }

    /** start_stock_audio_tone; `written` says whether its marker could be written. */
    method StartTone(written: bool) returns (status: int)
      requires Valid()
      modifies this
      ensures Valid()
      ensures status == (if old(HasResources()) || !written then -1 else 0)
      ensures status != 0 ==> HasResources() == old(HasResources())
      // the tone is on for its 256 frames, unless a callback of an earlier tone was still pending
      ensures status == 0 && !old(TonePending(State())) && frames <= 256 ==> ToneOn(State())
    {
      Interfere();
      if HasResources() {
        return -1;
      }
      frames := 0;
      TurnToneOn();
      if !written {
        mode := PassThrough;
        Interfere();
        hookActive, hookMode := false, PassThrough;
        return -1;
      }
      return 0;
    }

    method TurnToneOn()
      requires Valid() && !HasResources()
      modifies this
      ensures Valid() && hookActive && hookMode == Tone && ownedRing == NULL && !ringOpen
      ensures !old(TonePending(State())) && frames <= 256 ==> ToneOn(State())
    {
      Interfere();
      mode := Tone;
      Interfere();
      hookActive, hookMode := true, Tone;
    }

    /** start_stock_audio_doom: `address` is what mmap answered, or null, `wellFormed` whether the mapped
        header is a ring's, and `written` whether the marker could be written.  A start that fails at
        the marker gives everything back, but is safe against what callbacks do next only if none of
        them is inside the ring reader. */
    method StartDoom(address: nat, wellFormed: bool, written: bool) returns (status: int)
      requires Valid()
      modifies this
      ensures written || old(HasResources()) || address == NULL || !wellFormed ==> Valid()
      ensures status == (if old(HasResources()) || address == NULL || !wellFormed || !written then -1 else 0)
      ensures !old(HasResources()) && address != NULL && wellFormed && !written ==>
                && ring == ownedRing == NULL && mapped == {} && mode != Doom && !HasResources()
                && (NeverStale(State()) <==> !Reading(State()))
      ensures status == 0 ==> ownedRing == ring == address && hookActive
      // Doom mode is on, unless a callback of an earlier tone was still pending
      ensures status == 0 && !old(TonePending(State())) ==> mode == Doom && !TonePending(State())
      ensures status != 0 ==> ownedRing == old(ownedRing)
    {
      Interfere();
      if HasResources() {
        return -1;
      }
      if address == NULL {
        return -1;
      }
      mapped := mapped + {address};
      Interfere();
      if !wellFormed {
        mapped := mapped - {address};
        return -1;
      }
      frames := 0;
      Interfere();
      ownedRing, ringOpen := address, true;
      Publish();
      if !written {
        Abandon();
        return -1;
      }
      return 0;
    }

    /** The end of a start whose marker cannot be written: no wait before the ring is unmapped. */
    method Abandon()
      requires Valid() && ring == ownedRing
      modifies this
      ensures ring == ownedRing == NULL && mapped == {} && mode != Doom && !HasResources()
      ensures NeverStale(State()) <==> !Reading(State())
    {
      mode := PassThrough;
      Interfere();
      ring := NULL;
      InterfereFreely();
      hookActive, hookMode := false, PassThrough;
      mapped := mapped - {ownedRing};
      ownedRing, ringOpen := NULL, false;
      assert Unmapped(State()) == State();
      UnmapExact(State());
    }

    /** Callbacks run for a while with a published ring taken away under them. */
    method InterfereFreely()
      requires mode != Doom
      modifies `mode, `active, `frames, `calls
      ensures mode != Doom
    {
      var steps: nat := *;
      while steps > 0
        invariant mode != Doom
      {
        var action: Action := *;
        var next := CallStep(System(mode, ring, active, frames, calls, mapped), action);
        mode, active, frames, calls := next.mode, next.active, next.frames, next.calls;
        steps := steps - 1;
      }
    }

    /** The pointer is published before the mode that makes callbacks look at it. */
    method Publish()
      requires Ok(State()) && Quiet(State()) && alwaysSafe && mode == PassThrough
      requires ownedRing != NULL && ringOpen && mapped == {ownedRing}
      modifies this
      ensures Valid() && ring == ownedRing == old(ownedRing) && hookActive
      ensures !old(TonePending(State())) ==> mode == Doom && !TonePending(State())
    {
      ring := ownedRing;
      Interfere();
      mode := Doom;
      Interfere();
      hookActive, hookMode := true, Doom;
    }

    /** update_stock_audio: reports on the mapped ring in Doom mode, and notices exactly then that a
        bounded tone has ended itself. */
    method Update()
      requires Valid()
      modifies this
      ensures Valid() && ownedRing == old(ownedRing) && mapped == old(mapped)
      ensures hookActive == (old(hookActive) && !(old(hookMode) == Tone && mode == PassThrough))
      ensures hookMode == if old(hookActive) && !hookActive then PassThrough else old(hookMode)
    {
      if !hookActive {
        return;
      }
      Interfere();
      if frames != 0 && hookMode != Tone && ownedRing != NULL {
        alwaysSafe := alwaysSafe && ownedRing in mapped;
      }
      Interfere();
      if hookMode == Tone && mode == PassThrough {
        hookActive, hookMode := false, PassThrough;
      }
    }

    /** cleanup_stock_audio_hook: the ring is unmapped only once nobody is inside; if that does not
        happen within the allowed attempts the ring stays mapped and a later call can try again. */
    method Cleanup() returns (status: int)
      requires Valid()
      modifies this
      ensures Valid()
      ensures status == 0 || status == -1
      ensures status == 0 ==> ring == ownedRing == NULL && mapped == {} && Quiet(State()) && !HasResources()
      ensures status == -1 ==> ownedRing == old(ownedRing) && mapped == old(mapped) && mode != Doom && active > 0
    {
      Interfere();
      mode := PassThrough;
      Interfere();
      hookActive := false;
      var attempt := 0;
      while attempt < QUIESCE_ATTEMPTS
        invariant Valid() && mode != Doom && !hookActive
        invariant ownedRing == old(ownedRing) && mapped == old(mapped)
        invariant 0 <= attempt && (attempt > 0 ==> active > 0)
      {
        Interfere();
        if active == 0 {
          QuiescenceIsQuiet(State());
          Retire();
          return 0;
        }
        attempt := attempt + 1;
      }
      return -1;
    }

    /** The quiet has begun: withdraw the pointer, then unmap. */
    method Retire()
      requires Valid() && Quiet(State()) && !hookActive
      modifies this
      ensures Valid() && ring == ownedRing == NULL && mapped == {} && Quiet(State()) && !HasResources()
    {
      Interfere();
      ring := NULL;
      Interfere();
      if ownedRing != NULL {
        mapped := mapped - {ownedRing};
        ownedRing := NULL;
      }
      ringOpen := false;
      Interfere();
      hookMode := PassThrough;
    }
  }

  datatype Command =
    | CommandTone(written: bool)
    | CommandDoom(address: nat, wellFormed: bool)
    | CommandUpdate
    | CommandStop

  /** Any sequence of worker commands, over any callbacks: in every state on the way, no callback
      touches an unmapped ring and every callback that saw Doom mode has a mapped one. */
  method Serve(commands: seq<Command>) returns (hook: AudioHook)
    ensures fresh(hook) && hook.Valid() && hook.alwaysSafe
  {
    hook := new AudioHook();
    for i := 0 to |commands|
      invariant hook.Valid() && fresh(hook)
    {
      match commands[i] {
        case CommandTone(written) => var _ := hook.StartTone(written);
        case CommandDoom(address, wellFormed) => var _ := hook.StartDoom(address, wellFormed, true);
        case CommandUpdate => hook.Update();
        case CommandStop => var _ := hook.Cleanup();
      }
    }
  }

  // ---------------------------------------------------------------- a start whose marker fails

  // start_stock_audio_doom withdraws the ring it has just published when its marker cannot be
  // written, and unmaps it without waiting for callbacks that are already inside.

  predicate Reading(s: System) {
    exists id :: id in s.calls && s.calls[id].ReadingRing?
  }

  /** A callback is about to access a ring that is no longer mapped. */
  predicate StaleRead(s: System) {
    exists id :: id in s.calls && s.calls[id].ReadingRing? && s.calls[id].ring !in s.mapped
  }

  function Unmapped(s: System): System { s.(mapped := {}) }

  function Trace(s: System, actions: seq<Action>): System
    decreases actions
  {
    if actions == [] then s else Trace(CallStep(s, actions[0]), actions[1..])
  }

  ghost predicate NeverStale(s: System) {
    forall actions :: !StaleRead(Trace(s, actions))
  }

  lemma {:induction false} NoReaderStays(s: System, actions: seq<Action>)
    requires s.mode != Doom && s.ring == NULL && !Reading(s)
    ensures !Reading(Trace(s, actions))
    decreases actions
  {
    if actions != [] {
      NoReaderStays(CallStep(s, actions[0]), actions[1..]);
    }
  }

  /** With the mode taken away and the pointer withdrawn, unmapping is safe against everything the
      callbacks may do next if and only if none of them is inside the ring reader at that moment. */
  lemma UnmapExact(s: System)
    requires s.mode != Doom && s.ring == NULL
    ensures NeverStale(Unmapped(s)) <==> !Reading(s)
  {
    if Reading(s) {
      var id :| id in s.calls && s.calls[id].ReadingRing?;
      assert Unmapped(s).calls[id].ring !in Unmapped(s).mapped;
      assert Trace(Unmapped(s), []) == Unmapped(s);
    } else {
      forall actions ensures !StaleRead(Trace(Unmapped(s), actions)) {
        assert !Reading(Unmapped(s));
        NoReaderStays(Unmapped(s), actions);
      }
    }
  }

  /** On the failing path one can be: a callback that loaded the ring before the mode was taken away. */
  lemma AbandonedStartUnsafe(ring: nat)
    requires ring != NULL
    ensures var published := System(Doom, ring, 0, 0, map[], {ring});
            var inside := Trace(published, [Enter(0, true), Advance(0, false), Advance(0, false)]);
            Ok(published) && Safe(inside) && StaleRead(Unmapped(inside.(mode := PassThrough, ring := NULL)))
  {
    var published := System(Doom, ring, 0, 0, map[], {ring});
    var entered := CallStep(published, Enter(0, true));
    var loading := CallStep(entered, Advance(0, false));
    var inside := CallStep(loading, Advance(0, false));
    var two := [Advance(0, false), Advance(0, false)];
    assert ([Enter(0, true)] + two)[1..] == two;
    assert Trace(loading, [Advance(0, false)]) == Trace(inside, []);
    assert Trace(entered, two) == inside;
    assert 0 in inside.calls && inside.calls[0] == ReadingRing(ring);
  }

  // ---------------------------------------------------------------- a tone's late callback

  // The last callback of a tone stores pass-through whatever the mode is by then, so a callback that
  // came before a Doom start can take Doom mode away again.

  lemma {:induction false} TraceConcat(s: System, a: seq<Action>, b: seq<Action>)
    ensures Trace(s, a + b) == Trace(Trace(s, a), b)
    decreases a
  {
    if a == [] {
      assert a + b == b;
    } else {
      TraceConcat(CallStep(s, a[0]), a[1..], b);
      assert (a + b)[1..] == a[1..] + b;
    }
  }

  lemma {:induction false} TraceOk(s: System, actions: seq<Action>)
    requires Ok(s)
    ensures Ok(Trace(s, actions)) && CallbacksOnly(s, Trace(s, actions))
    decreases actions
  {
    if actions != [] {
      CallStepOk(s, actions[0]);
      TraceOk(CallStep(s, actions[0]), actions[1..]);
    }
  }

  function Advances(id: nat, n: nat): seq<Action>
    decreases n
  {
    if n == 0 then [] else [Advance(id, true)] + Advances(id, n - 1)
  }

  lemma {:induction false} AdvanceOnce(s: System, id: nat, n: nat)
    requires n > 0
    ensures Trace(s, Advances(id, n)) == Trace(CallStep(s, Advance(id, true)), Advances(id, n - 1))
  {
  }

  /** In Doom mode a call that finds nobody in its way reads the published ring. */
  lemma {:induction false} NextCallReads(s: System, id: nat)
    requires Ok(s) && s.mode == Doom && id !in s.calls
    ensures Trace(s, [Enter(id, true)] + Advances(id, 2))
            == s.(active := s.active + 1, calls := s.calls[id := ReadingRing(s.ring)])
  {
    var entered := CallStep(s, Enter(id, true));
    assert ([Enter(id, true)] + Advances(id, 2))[1..] == Advances(id, 2);
    AdvanceOnce(entered, id, 2);
    AdvanceOnce(CallStep(entered, Advance(id, true)), id, 1);
  }

  /** And if nothing is amiss it delivers a frame and leaves everything else as it was. */
  lemma {:induction false} NextCallDelivers(s: System, id: nat) returns (actions: seq<Action>)
    requires Ok(s) && s.mode == Doom && id !in s.calls
    ensures Trace(s, actions) == s.(frames := s.frames + 1)
  {
    var coming := [Enter(id, true)] + Advances(id, 2);
    var reading := Trace(s, coming);
    NextCallReads(s, id);
    var stored := CallStep(reading, Advance(id, true));
    var leaving := CallStep(stored, Advance(id, true));
    var gone := CallStep(leaving, Advance(id, true));
    AdvanceOnce(reading, id, 3);
    AdvanceOnce(stored, id, 2);
    AdvanceOnce(leaving, id, 1);
    assert gone.calls == s.calls;
    TraceConcat(s, coming, Advances(id, 3));
    actions := coming + Advances(id, 3);
  }

  lemma {:induction false} FreshId(calls: map<nat, Call>) returns (id: nat)
    ensures id !in calls && forall other :: other in calls ==> other < id
    decreases |calls|
  {
    if calls == map[] {
      id := 0;
    } else {
      var one :| one in calls;
      var rest := calls - {one};
      assert rest.Keys == calls.Keys - {one};
      assert |rest| < |calls| by { CardinalityOfLeaving(calls, one); }
      var above := FreshId(rest);
      id := if above > one then above else one + 1;
      forall other | other in calls ensures other < id {
        assert other == one || other in rest;
      }
    }
  }

  lemma {:induction false} FramesRise(s: System, n: nat) returns (actions: seq<Action>)
    requires Ok(s) && s.mode == Doom
    ensures Trace(s, actions) == s.(frames := s.frames + n)
  {
    actions := [];
    if n > 0 {
      var before := FramesRise(s, n - 1);
      var t := Trace(s, before);
      TraceOk(s, before);
      var id := FreshId(t.calls);
      var one := NextCallDelivers(t, id);
      TraceConcat(s, before, one);
      actions := before + one;
    }
  }

  ghost predicate DoomLasts(s: System) {
    forall actions :: Trace(s, actions).mode == Doom
  }

  /** Whatever the callbacks do, Doom mode stays on until the worker ends it, if and only if no callback
      of an earlier tone is still pending. */
  lemma {:induction false} DoomLastsExactly(s: System)
    requires Ok(s) && s.mode == Doom
    ensures DoomLasts(s) <==> !TonePending(s)
  {
    if TonePending(s) {
      var id :| id in s.calls && (s.calls[id].CountingTone? || s.calls[id].ExpiringTone?);
      var before := FramesRise(s, TONE_FRAMES);
      var t := Trace(s, before);
      var n := if s.calls[id].CountingTone? then 2 else 1;
      AdvanceOnce(t, id, n);
      AdvanceOnce(CallStep(t, Advance(id, true)), id, 1);
      TraceConcat(s, before, Advances(id, n));
      assert Trace(s, before + Advances(id, n)).mode == PassThrough;
    } else {
      forall actions ensures Trace(s, actions).mode == Doom {
        TraceOk(s, actions);
      }
    }
  }
}
