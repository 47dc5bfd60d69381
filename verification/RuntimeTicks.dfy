/** How often the worker ticks does not matter while the camera is armed: expiring a matcher early,
    in the tick, and late, at the head of the next command, come to the same. */
module RuntimeTicks {
  import opened RuntimeControl
  import opened RuntimeLifecycle

  /** The control with whatever has expired by `now` cleared. */
  function Settled(c: Control, now: nat): Control {
    c.(secret := ExpireSecret(c.secret, now), taps := ExpireTaps(c.taps, now))
  }

  /** Equal up to matcher state that has expired by `now`. */
  predicate Same(c: Control, d: Control, now: nat) {
    Settled(c, now) == Settled(d, now)
  }

  /** What has expired stays expired. */
  lemma SettledLater(c: Control, now: nat, t: nat)
    requires TimesOk(c, now) && now <= t
    ensures Settled(Settled(c, now), t) == Settled(c, t) && TimesOk(Settled(c, now), t)
  {
  }

  lemma SameLater(c: Control, d: Control, now: nat, t: nat)
    requires TimesOk(c, now) && TimesOk(d, now) && now <= t && Same(c, d, now)
    ensures Same(c, d, t)
  {
    SettledLater(c, now, t);
    SettledLater(d, now, t);
  }

  // ---------------------------------------------------------------- inputs cannot tell them apart

  /** The input does to c what it does to the settled c. */
  predicate Blind(c: Control, i: Input, t: nat) {
    var e := Settled(c, t);
    Step(c, i).1 == Step(e, i).1 && Same(Step(c, i).0, Step(e, i).0, t)
  }

  lemma RawBlind(c: Control, command: int, t: nat)
    ensures Blind(c, Raw(command, t), t)
  {
    SettledOnce(c, t);
  }

  lemma SettledOnce(c: Control, t: nat)
    ensures ExpireSecret(ExpireSecret(c.secret, t), t) == ExpireSecret(c.secret, t)
    ensures ExpireTaps(ExpireTaps(c.taps, t), t) == ExpireTaps(c.taps, t)
  {
  }

  /** A command expires the matcher first, so it hears the settled one as it would the other. */
  lemma HearBlind(m: Matcher, command: int, t: nat)
    ensures Hear(m, command, t) == Hear(ExpireSecret(m, t), command, t)
  {
  }

  lemma ApplyBlind(c: Control, command: int, t: nat)
    ensures Blind(c, Apply(command, t), t)
  {
    SettledOnce(c, t);
    if c.mode == CameraArmed {
      HearBlind(c.secret, command, t);
      CameraBlind(c, command, t);
    }
  }

  lemma CameraBlind(c: Control, command: int, t: nat)
    requires c.mode == CameraArmed && Hear(c.secret, command, t) == Hear(ExpireSecret(c.secret, t), command, t)
    ensures Blind(c, Apply(command, t), t)
  {
    SettledOnce(c, t);
  }

  lemma TickBlind(c: Control, t: nat)
    ensures Blind(c, TickAt(t), t)
  {
    SettledOnce(c, t);
  }

  lemma OtherBlind(c: Control, i: Input, t: nat)
    requires !i.Raw? && !i.Apply? && !i.TickAt?
    ensures Blind(c, i, t)
  {
    SettledOnce(c, t);
  }

  lemma StepBlind(c: Control, i: Input, now: nat)
    ensures Blind(c, i, TimeOf(i, now))
  {
    match i {
      case Raw(command, t) => RawBlind(c, command, t);
      case Apply(command, t) => ApplyBlind(c, command, t);
      case TickAt(t) => TickBlind(c, t);
      case _ => OtherBlind(c, i, now);
    }
  }

  /** Any input, given to both, has the same effect on both. */
  lemma StepSame(c: Control, d: Control, i: Input, now: nat)
    requires TimesOk(c, now) && TimesOk(d, now) && now <= TimeOf(i, now) && Same(c, d, now)
    ensures Step(c, i).1 == Step(d, i).1
    ensures Same(Step(c, i).0, Step(d, i).0, TimeOf(i, now))
  {
    SameLater(c, d, now, TimeOf(i, now));
    StepBlind(c, i, now);
    StepBlind(d, i, now);
  }

  /** A stop dated ahead of the clock does not move the clock. */
  lemma StopSame(c: Control, d: Control, now: nat, t: nat)
    requires TimesOk(c, now) && TimesOk(d, now) && now <= t && Same(c, d, now)
    ensures Step(c, Apply(0, t)).1 == Step(d, Apply(0, t)).1
    ensures Same(Step(c, Apply(0, t)).0, Step(d, Apply(0, t)).0, now)
  {
    SameLater(c, d, now, t);
    assert Hear(c.secret, 0, t) == Hear(d.secret, 0, t);
    TapsUntouched(c, t);
    TapsUntouched(d, t);
    assert c.mode == d.mode && c.hold == d.hold;
  }

  lemma TapsUntouched(c: Control, t: nat)
    ensures var d := ApplyPtz(c, 0, t).0;
            d.taps == c.taps && (c.mode != CameraArmed ==> d.secret == c.secret)
  {
  }

  lemma GivenSame(c: Control, d: Control, i: Input, now: nat)
    requires TimesOk(c, now) && TimesOk(d, now) && now <= TimeOf(i, now) && Same(c, d, now)
    ensures Step(c, i).1 == Step(d, i).1 && Step(c, i).0.mode == Step(d, i).0.mode
    ensures Same(Step(c, i).0, Step(d, i).0, NextTime(i, now))
  {
    if i.Apply? && i.command == 0 { StopSame(c, d, now, i.now); } else { StepSame(c, d, i, now); }
  }

  /** A tick given to one of them in camera mode raises nothing and changes nothing that matters. */
  lemma ExtraTickSame(c: Control, d: Control, now: nat, t: nat)
    requires TimesOk(c, now) && TimesOk(d, now) && now <= t && Same(c, d, now)
    requires d.mode == CameraArmed
    ensures Tick(d, t).1 == None && Same(c, Tick(d, t).0, t) && TimesOk(Tick(d, t).0, t)
  {
    SameLater(c, d, now, t);
    TimesStayOk(d, TickAt(t), now);
    ArmedTickSettles(d, t);
    SettledOnce(d, t);
  }

  lemma ArmedTickSettles(c: Control, t: nat)
    requires c.mode == CameraArmed
    ensures Tick(c, t) == (Settled(c, t), None)
  {
  }

  // ---------------------------------------------------------------- whole schedules

  /** A schedule: inputs, and between them extra ticks. */
  datatype Item = Given(input: Input) | ExtraTick(now: nat)

  /** In the order of a clock that never goes back, stops possibly dated ahead of it. */
  predicate Ordered(items: seq<Item>, now: nat)
    decreases items
  {
    items == [] ||
    (match items[0]
     case Given(i) => now <= TimeOf(i, now) && Ordered(items[1..], NextTime(i, now))
     case ExtraTick(t) => now <= t && Ordered(items[1..], t))
  }

  /** Every extra tick falls while the camera is armed. */
  predicate TicksWhileArmed(c: Control, items: seq<Item>)
    decreases items
  {
    items == [] ||
    (match items[0]
     case Given(i) => TicksWhileArmed(Step(c, i).0, items[1..])
     case ExtraTick(t) => c.mode == CameraArmed && TicksWhileArmed(Tick(c, t).0, items[1..]))
  }

  /** What the inputs raise and the mode each leaves, with the extra ticks left out. */
  function Without(c: Control, items: seq<Item>): seq<(Actions, Mode)>
    decreases items
  {
    if items == [] then []
    else match items[0]
      case Given(i) => [(Step(c, i).1, Step(c, i).0.mode)] + Without(Step(c, i).0, items[1..])
      case ExtraTick(_) => Without(c, items[1..])
  }

  /** The same, with the extra ticks made. */
  function With(c: Control, items: seq<Item>): seq<(Actions, Mode)>
    decreases items
  {
    if items == [] then []
    else match items[0]
      case Given(i) => [(Step(c, i).1, Step(c, i).0.mode)] + With(Step(c, i).0, items[1..])
      case ExtraTick(t) => With(Tick(c, t).0, items[1..])
  }

  lemma {:induction false} SchedulesAgree(c: Control, d: Control, items: seq<Item>, now: nat)
    requires TimesOk(c, now) && TimesOk(d, now) && Same(c, d, now)
    requires Ordered(items, now) && TicksWhileArmed(d, items)
    ensures Without(c, items) == With(d, items)
    decreases items
  {
    if items != [] {
      match items[0] {
        case Given(i) =>
          GivenSame(c, d, i, now);
          StepInTime(c, i, now);
          StepInTime(d, i, now);
          SchedulesAgree(Step(c, i).0, Step(d, i).0, items[1..], NextTime(i, now));
        case ExtraTick(t) =>
          ExtraTickSame(c, d, now, t);
          AgesDoNotWrap(c, now, t);
          SchedulesAgree(c, Tick(d, t).0, items[1..], t);
      }
    }
  }

  /** For any inputs in time order, any number of ticks inserted anywhere in camera mode changes no
      later action and no later mode. */
  lemma {:induction false} TicksDoNotMatter(items: seq<Item>)
    requires Ordered(items, 0) && TicksWhileArmed(Initial, items)
    ensures Without(Initial, items) == With(Initial, items)
  {
    SchedulesAgree(Initial, Initial, items, 0);
  }
}
