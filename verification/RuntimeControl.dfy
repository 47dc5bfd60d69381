/** The four-mode lifecycle that switches the camera between its own picture and Doom, with its
    three gesture recognisers: the timed eight-direction secret, eight directionless stops, and a
    three-second hold of Down. */
module RuntimeControl {

  const SECRET_GAP := 1500
  const SECRET_TOTAL := 10000
  const STOP_TAPS := 8
  const EXIT_HOLD := 3000
  const SECRET: seq<int> := [3, 3, 4, 4, 1, 2, 1, 2]
  const CLOCK := 0x1_0000_0000_0000_0000

  datatype Mode = CameraArmed | EntryMelt | Doom | ExitMelt

  datatype Actions = Actions(enter: bool, exit: bool, forward: bool)

  const None := Actions(false, false, false)
  const Enter := Actions(true, false, false)
  const Exit := Actions(false, true, false)
  const Forward := Actions(false, false, true)

  function Or(a: Actions, b: Actions): Actions {
    Actions(a.enter || b.enter, a.exit || b.exit, a.forward || b.forward)
  }

  /** The secret recogniser: how many directions have matched, when the first and the newest of them
      came, whether all have, and whether a direction is still held. */
  datatype Matcher = Matcher(index: nat, first: nat, last: nat, complete: bool, down: bool)

  /** The directionless-stop recogniser. */
  datatype Taps = Taps(index: nat, first: nat, last: nat)

  /** The hold-Down-to-leave recogniser. */
  datatype Hold = Hold(down: bool, since: nat)

  datatype Control = Control(mode: Mode, secret: Matcher, taps: Taps, hold: Hold, direction: bool)

  const Idle := Matcher(0, 0, 0, false, false)
  const NoTaps := Taps(0, 0, 0)
  const NoHold := Hold(false, 0)
  const Initial := Control(CameraArmed, Idle, NoTaps, NoHold, false)

  /** Elapsed milliseconds as the 64-bit unsigned subtraction computes them. */
  function Age(now: nat, earlier: nat): int {
    if earlier <= now then now - earlier else now - earlier + CLOCK
  }

  predicate Late(now: nat, first: nat, last: nat) {
    Age(now, last) > SECRET_GAP || Age(now, first) > SECRET_TOTAL
  }

  function ExpireSecret(m: Matcher, now: nat): Matcher {
    if m.index != 0 && Late(now, m.first, m.last) then Idle.(down := m.down) else m
  }

  function ExpireTaps(t: Taps, now: nat): Taps {
    if t.index != 0 && Late(now, t.first, t.last) then NoTaps else t
  }

  function RequestEnter(c: Control): (Control, Actions) {
    if c.mode != CameraArmed then (c, None)
    else (c.(mode := EntryMelt, secret := Idle, taps := NoTaps, direction := false), Enter)
  }

  function RequestExit(c: Control): (Control, Actions) {
    if c.mode != Doom then (c, None)
    else (c.(mode := ExitMelt, secret := c.secret.(down := false), taps := NoTaps, hold := NoHold,
             direction := false), Exit)
  }

  /** One more stop counted; the flag says whether it was the eighth. */
  function Tap(t: Taps, now: nat): (Taps, bool) {
    (Taps(t.index + 1, if t.index == 0 then now else t.first, now), t.index + 1 == STOP_TAPS)
  }

  function ObserveRaw(c: Control, command: int, now: nat): (Control, Actions) {
    if c.mode != CameraArmed && c.mode != Doom then (c.(direction := false, taps := NoTaps), None)
    else if command != 0 then (c.(direction := true, taps := NoTaps), None)
    else if c.direction then (c.(direction := false, taps := NoTaps), None)
    else
      var (taps, eighth) := Tap(ExpireTaps(c.taps, now), now);
      if !eighth then (c.(taps := taps), None)
      else if c.mode == CameraArmed then RequestEnter(c.(taps := taps))
      else RequestExit(c.(taps := taps))
  }

  /** A press that is not a repeat advances, restarts or clears the matcher. */
  function Pressed(m: Matcher, command: int, now: nat): Matcher {
    if m.index < |SECRET| && command == SECRET[m.index] then
      Matcher(m.index + 1, if m.index == 0 then now else m.first, now,
              m.complete || m.index + 1 == |SECRET|, true)
    else if command == SECRET[0] then Matcher(1, now, now, false, true)
    else Idle.(down := true)
  }

  /** A camera-mode command; the flag says whether it is the stop that completes the secret. */
  function Hear(m: Matcher, command: int, now: nat): (Matcher, bool) {
    var d := ExpireSecret(m, now);
    if command == 0 then if d.complete then (Idle, true) else (d.(down := false), false)
    else if d.down then (d, false)
    else (Pressed(d, command, now), false)
  }

  function CameraCommand(c: Control, command: int, now: nat): (Control, Actions) {
    var (secret, complete) := Hear(c.secret, command, now);
    if complete then (c.(mode := EntryMelt, secret := secret), Enter) else (c.(secret := secret), None)
  }

  predicate HeldLongEnough(h: Hold, now: nat) {
    h.since <= now && Age(now, h.since) >= EXIT_HOLD
  }

  function DoomCommand(c: Control, command: int, now: nat): (Control, Actions) {
    if command == 4 then
      (if c.hold.down then c else c.(hold := Hold(true, now)), Forward)
    else if command == 0 && c.hold.down && HeldLongEnough(c.hold, now) then
      (c.(mode := ExitMelt, hold := NoHold), Or(Forward, Exit))
    else if c.hold.down then (c.(hold := NoHold), Forward)
    else (c, Forward)
  }

  function ApplyPtz(c: Control, command: int, now: nat): (Control, Actions) {
    match c.mode
    case CameraArmed => CameraCommand(c, command, now)
    case ExitMelt => if c.hold.down && command == 0 then (c.(hold := NoHold), Forward) else (c, None)
    case EntryMelt => (c, None)
    case Doom => DoomCommand(c, command, now)
  }

  function Tick(c: Control, now: nat): (Control, Actions) {
    var d := c.(secret := if c.mode == CameraArmed then ExpireSecret(c.secret, now) else c.secret,
                taps := if c.mode == CameraArmed || c.mode == Doom then ExpireTaps(c.taps, now) else c.taps);
    if c.mode == Doom && c.hold.down && HeldLongEnough(c.hold, now) then (d.(mode := ExitMelt), Exit)
    else (d, None)
  }

  function EntryComplete(c: Control): (Control, int) {
    if c.mode != EntryMelt then (c, -1) else (c.(mode := Doom), 0)
  }

  function ExitComplete(c: Control): (Control, int) {
    if c.mode != ExitMelt then (c, -1)
    else (Control(CameraArmed, Idle, NoTaps, NoHold, false), 0)
  }

  // ---------------------------------------------------------------- the struct and its functions

  class RuntimeControl {
    var mode: Mode
    var secretIndex: nat
    var secretFirst: nat
    var secretLast: nat
    var stopIndex: nat
    var stopFirst: nat
    var stopLast: nat
    var exitDownFirst: nat
    var cameraDown: bool
    var rawDirection: bool
    var secretComplete: bool
    var exitDown: bool

    ghost function State(): Control
      reads this
    {
      Control(mode, Matcher(secretIndex, secretFirst, secretLast, secretComplete, cameraDown),
              Taps(stopIndex, stopFirst, stopLast), Hold(exitDown, exitDownFirst), rawDirection)
    }

    constructor ()
      ensures State() == Initial
    {
      mode := CameraArmed;
      secretIndex, secretFirst, secretLast := 0, 0, 0;
      stopIndex, stopFirst, stopLast, exitDownFirst := 0, 0, 0, 0;
      cameraDown, rawDirection, secretComplete, exitDown := false, false, false, false;
    }

    /** memset to zero, then CAMERA_ARMED. */
    method Clear()
      modifies this
      ensures State() == Initial
    {
      mode := CameraArmed;
      secretIndex, secretFirst, secretLast := 0, 0, 0;
      stopIndex, stopFirst, stopLast, exitDownFirst := 0, 0, 0, 0;
      cameraDown, rawDirection, secretComplete, exitDown := false, false, false, false;
    }

    method DoResetSecret()
      modifies this
      ensures State() == old(State()).(secret := Idle.(down := old(cameraDown)))
    {
      secretIndex, secretFirst, secretLast := 0, 0, 0;
      secretComplete := false;
    }

    method DoResetStops()
      modifies this
      ensures State() == old(State()).(taps := NoTaps)
    {
      stopIndex, stopFirst, stopLast := 0, 0, 0;
    }

    method DoRequestEnter() returns (actions: Actions)
      modifies this
      ensures (State(), actions) == RequestEnter(old(State()))
    {
      if mode != CameraArmed {
        return None;
      }
      mode := EntryMelt;
      cameraDown := false;
      rawDirection := false;
      DoResetSecret();
      DoResetStops();
      return Enter;
    }

    method DoRequestExit() returns (actions: Actions)
      modifies this
      ensures (State(), actions) == RequestExit(old(State()))
    {
      if mode != Doom {
        return None;
      }
      mode := ExitMelt;
      cameraDown := false;
      rawDirection := false;
      exitDown := false;
      exitDownFirst := 0;
      DoResetStops();
      return Exit;
    }

    method DoObserveRaw(command: int, now: nat) returns (actions: Actions)
      modifies this
      ensures (State(), actions) == ObserveRaw(old(State()), command, now)
    {
      if mode != CameraArmed && mode != Doom {
        rawDirection := false;
        DoResetStops();
        return None;
      }
      if stopIndex != 0 && (Age(now, stopLast) > SECRET_GAP || Age(now, stopFirst) > SECRET_TOTAL) {
        DoResetStops();
      }
      if command != 0 {
        rawDirection := true;
        DoResetStops();
        return None;
      }
      if rawDirection {
        rawDirection := false;
        DoResetStops();
        return None;
      }
      if stopIndex == 0 {
        stopFirst := now;
      }
      stopLast := now;
      stopIndex := stopIndex + 1;
      if stopIndex == STOP_TAPS {
        if mode == CameraArmed {
          actions := DoRequestEnter();
        } else {
          actions := DoRequestExit();
        }
        return;
      }
      return None;
    }

    method DoCameraCommand(command: int, now: nat) returns (actions: Actions)
      modifies this
      ensures (State(), actions) == CameraCommand(old(State()), command, now)
    {
      if secretIndex != 0 && (Age(now, secretLast) > SECRET_GAP || Age(now, secretFirst) > SECRET_TOTAL) {
        DoResetSecret();
      }
      if command == 0 {
        cameraDown := false;
        if secretComplete {
          mode := EntryMelt;
          DoResetSecret();
          return Enter;
        }
        return None;
      }
      if cameraDown {
        return None;
      }
      cameraDown := true;
      if secretIndex < |SECRET| && command == SECRET[secretIndex] {
        if secretIndex == 0 {
          secretFirst := now;
        }
        secretLast := now;
        secretIndex := secretIndex + 1;
        if secretIndex == |SECRET| {
          secretComplete := true;
        }
      } else {
        DoResetSecret();
        if command == SECRET[0] {
          secretIndex := 1;
          secretFirst := now;
          secretLast := now;
        }
      }
      return None;
    }

    method DoApplyPtz(command: int, now: nat) returns (actions: Actions)
      modifies this
      ensures (State(), actions) == ApplyPtz(old(State()), command, now)
    {
      if mode == CameraArmed {
        actions := DoCameraCommand(command, now);
        return;
      }
      if mode == ExitMelt {
        if exitDown && command == 0 {
          exitDown := false;
          exitDownFirst := 0;
          return Forward;
        }
        return None;
      }
      if mode != Doom {
        return None;
      }
      if command == 4 {
        if !exitDown {
          exitDown := true;
          exitDownFirst := now;
        }
      } else if command == 0 && exitDown {
        var qualified := exitDownFirst <= now && Age(now, exitDownFirst) >= EXIT_HOLD;
        exitDown := false;
        exitDownFirst := 0;
        if qualified {
          mode := ExitMelt;
          return Or(Forward, Exit);
        }
      } else if exitDown {
        exitDown := false;
        exitDownFirst := 0;
      }
      return Forward;
    }

    method DoTick(now: nat) returns (actions: Actions)
      modifies this
      ensures (State(), actions) == Tick(old(State()), now)
    {
      if mode == CameraArmed && secretIndex != 0
         && (Age(now, secretLast) > SECRET_GAP || Age(now, secretFirst) > SECRET_TOTAL) {
        DoResetSecret();
      }
      if (mode == CameraArmed || mode == Doom) && stopIndex != 0
         && (Age(now, stopLast) > SECRET_GAP || Age(now, stopFirst) > SECRET_TOTAL) {
        DoResetStops();
      }
      if mode == Doom && exitDown && exitDownFirst <= now && Age(now, exitDownFirst) >= EXIT_HOLD {
        mode := ExitMelt;
        return Exit;
      }
      return None;
    }

    method DoEntryComplete() returns (status: int)
      modifies this
      ensures (State(), status) == EntryComplete(old(State()))
    {
      if mode != EntryMelt {
        return -1;
      }
      mode := Doom;
      return 0;
    }

    method DoExitComplete() returns (status: int)
      modifies this
      ensures (State(), status) == ExitComplete(old(State()))
    {
      if mode != ExitMelt {
        return -1;
      }
      mode := CameraArmed;
      cameraDown := false;
      rawDirection := false;
      exitDown := false;
      exitDownFirst := 0;
      DoResetSecret();
      DoResetStops();
      return 0;
    }
  }
}
