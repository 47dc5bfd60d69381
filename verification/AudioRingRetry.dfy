/** When the dropped-frame count and the frames really lost can part ways: an abandoned attempt has
    already counted, and the retry counts again from the same starting point. */
module AudioRingRetry {
  import opened AudioRingMemory
  import opened AudioRingReader
  import opened AudioRing

  /** The steps of publish_frame still to come. */
  function Remaining(stage: Stage): nat {
    match stage
    case Deciding => 0
    case LoadingSequence => SAMPLES + 6
    case MarkingOdd(_) => SAMPLES + 5
    case StoringFrame(_) => SAMPLES + 4
    case Copying(_, next) => if next <= SAMPLES then SAMPLES - next + 3 else 3
    case MarkingEven(_) => 2
    case StoringPublished => 1
  }

  lemma StepFinishes(s: System, c: Choice)
    requires Shaped(s) && !s.mixer.stage.Deciding?
    ensures var x := MixerStep(s, c).mixer;
            && Remaining(x.stage) < Remaining(s.mixer.stage)
            && x.frame == s.mixer.frame && x.freeRun == s.mixer.freeRun
  {
  }

  /** A publication under way can be completed. */
  lemma {:induction false} Finish(s: System) returns (choices: seq<Choice>)
    requires Ok(s)
    ensures var t := Run(s, choices);
            Ok(t) && t.mixer.stage.Deciding? && t.mixer.frame == s.mixer.frame && t.mixer.freeRun == s.mixer.freeRun
    decreases Remaining(s.mixer.stage)
  {
    choices := [];
    if !s.mixer.stage.Deciding? {
      var c := Choice(Silence, true);
      StepFinishes(s, c);
      MixerStepOk(s, c);
      var rest := Finish(MixerStep(s, c));
      choices := [c] + rest;
      assert choices[1..] == rest;
    }
  }

  /** A free-running mixer between two frames, n frames in and ready for the next. */
  ghost predicate Resting(s: System, n: nat) {
    && Ok(s) && s.mixer.freeRun && s.mixer.stage.Deciding?
    && s.mixer.frame == n && s.mixer.generated < SLOTS
  }

  /** From every state a free-running mixer can get to every later frame number. */
  lemma {:induction false} Advance(s: System, n: nat) returns (choices: seq<Choice>)
    requires Ok(s) && s.mixer.freeRun && s.mixer.stage.Deciding? && s.mixer.frame <= n
    ensures Resting(Run(s, choices), n)
    decreases n - s.mixer.frame, if s.mixer.generated < SLOTS then 0 else 1
  {
    choices := [];
    if s.mixer.generated >= SLOTS {
      var idle := Choice(Silence, false);
      MixerStepOk(s, idle);
      var rest := Advance(MixerStep(s, idle), n);
      choices := [idle] + rest;
      assert choices[1..] == rest;
    } else if s.mixer.frame < n {
      var due := Choice(Silence, true);
      var publishing := Repeat(due, SAMPLES + 7);
      PublishIsSteps(s, due);
      RunOk(s, publishing);
      var rest := Advance(Run(s, publishing), n);
      RunConcat(s, publishing, rest);
      choices := publishing + rest;
    }
  }

  lemma {:induction false} Reach(s: System, n: nat) returns (choices: seq<Choice>)
    requires Ok(s) && s.mixer.freeRun && s.mixer.frame <= n
    ensures Resting(Run(s, choices), n)
  {
    var finish := Finish(s);
    var rest := Advance(Run(s, finish), n);
    RunConcat(s, finish, rest);
    choices := finish + rest;
  }

  /** Three steps into a publication the slot is odd and the publication not yet visible. */
  lemma {:induction false} MidPublish(s: System, c: Choice)
    requires Ok(s) && s.mixer.stage.Deciding? && WantsFrame(s, c.due)
    ensures Ok(Run(s, Repeat(c, 3)))
    ensures var t := Run(s, Repeat(c, 3));
            && t.memory.published == s.memory.published
            && t.memory.slots[SlotOf(s.mixer.frame + 1)].sequence % 2 == 1
  {
    var s1 := StepOff(s, c, 3);
    var s2 := StepOff(s1, c, 2);
    var s3 := StepOff(s2, c, 1);
    assert Run(s3, Repeat(c, 0)) == s3;
  }

  /** The last steps of that publication: the slot is at rest and the publication visible. */
  lemma RestOfPublish(s: System, c: Choice)
    requires Ok(s) && s.mixer.stage.Deciding? && WantsFrame(s, c.due)
    ensures Ok(Run(s, Repeat(c, 3))) && Ok(Run(Run(s, Repeat(c, 3)), Repeat(c, SAMPLES + 4)))
    ensures var t := Run(Run(s, Repeat(c, 3)), Repeat(c, SAMPLES + 4));
            t.memory.published == t.mixer.frame == s.mixer.frame + 1 && t.mixer.stage.Deciding?
  {
    assert Repeat(c, SAMPLES + 7) == Repeat(c, 3) + Repeat(c, SAMPLES + 4);
    RunConcat(s, Repeat(c, 3), Repeat(c, SAMPLES + 4));
    RunOk(Run(s, Repeat(c, 3)), Repeat(c, SAMPLES + 4));
    PublishIsSteps(s, c);
  }

  /** A slot between publications holds its newest frame; the oldest held frame is in its own slot. */
  lemma OldestHeld(s: System, target: nat)
    requires Ok(s) && s.mixer.stage.Deciding? && s.mixer.frame < target + SLOTS && 0 < target <= s.mixer.frame
    ensures var slot := s.memory.slots[SlotOf(target)]; slot.frame == target && slot.sequence % 2 == 0
  {
    assert SlotOk(s, SlotOf(target));
  }

  /** Between two frames an undisturbed read always succeeds: a first one three frames behind the newest,
      a later one with the next frame or the oldest still held. */
  lemma UndisturbedRead(s: System, last: nat)
    requires Ok(s) && s.mixer.stage.Deciding? && last < s.mixer.frame
    ensures var n := s.mixer.frame;
            var next := if last == 0 then (if n > 3 then n - 3 else 1)
                        else if n > last + 8 then n - 7 else last + 1;
            var still := Gaps([], [], [], []);
            ReadOf(s, last, still, still)
            == Reading(1, next, if last == 0 then 0 else next - (last + 1), false, n, n)
  {
    var n, still := s.mixer.frame, Gaps([], [], [], []);
    OldestHeld(s, Target(last, n));
    assert Run(s, []) == s;
    SucceedsAtOnce(s, last, still, s);
  }

  /** From every state of a free-running ring, and for every reader whose next frame publication n has
      left behind, a schedule in which the first attempt goes by n, is abandoned, and has its skips
      counted a second time by the attempt that succeeds. */
  lemma DoubleCount(s: System, last: nat, n: nat) returns (g1: Gaps, g2: Gaps)
    requires Ok(s) && s.mixer.freeRun && s.mixer.frame <= n && 0 < last && last + 8 < n
    ensures ReadOf(s, last, g1, g2)
            == Reading(1, n - 6, (n - last - 8) + (n - last - 7), true, n, n + 1)
    ensures n - last - 7 == Lost(last, n - 6)
  {
    var due := Choice(Silence, true);
    var before := Reach(s, n);
    var t := Run(s, before);
    MidPublish(t, due);
    RestOfPublish(t, due);
    RunConcat(s, before, Repeat(due, 3));
    var odd := Run(t, Repeat(due, 3));
    var done := Run(odd, Repeat(due, SAMPLES + 4));
    g1 := Gaps(before + Repeat(due, 3), [], [], []);
    g2 := Gaps(Repeat(due, SAMPLES + 4), [], [], []);
    assert SlotOf(Target(last, n)) == SlotOf(n + 1);
    FailsAtOnce(s, last, g1, odd);
    OldestHeld(done, Target(last, n + 1));
    SucceedsAtOnce(odd, last, g2, done);
  }

  lemma {:induction false} FailsAtOnce(s: System, last: nat, g: Gaps, t: System)
    requires Ok(s) && Ok(t) && t == Run(s, g.load) && g.mark == [] && last < t.memory.published
    requires t.memory.slots[SlotOf(Target(last, t.memory.published))].sequence % 2 == 1
    ensures AttemptOf(s, last, g) == Try(t, t.memory.published, Abandoned)
  {
    assert Run(t, []) == t;
  }

  lemma {:induction false} SucceedsAtOnce(s: System, last: nat, g: Gaps, t: System)
    requires Ok(s) && Ok(t) && t == Run(s, g.load) && g.mark == g.frame == g.copy == []
    requires last < t.memory.published
    requires var slot := t.memory.slots[SlotOf(Target(last, t.memory.published))];
             slot.sequence % 2 == 0 && slot.frame == Target(last, t.memory.published)
    ensures AttemptOf(s, last, g) == Try(t, t.memory.published, Delivered)
  {
    assert Run(t, []) == t;
  }

  /** Every successful read from this state counts exactly the frames it passes over. */
  ghost predicate CountsExactly(s: System, last: nat) {
    forall r :: Possible(s, last, r) && r.status == 1 ==> r.counted == Lost(last, r.last)
  }

  /** Whatever the mixer does during the call, the count of a read is exact, if and only if the read is
      the reader's first or the mixer is demand-paced. */
  lemma CountExactWhen(s: System, last: nat)
    requires Ok(s) && (s.mixer.freeRun || Paced(s, last))
    ensures CountsExactly(s, last) <==> last == 0 || !s.mixer.freeRun
  {
    if last > 0 && s.mixer.freeRun {
      var n := s.mixer.frame + last + SLOTS + 1;
      var g1, g2 := DoubleCount(s, last, n);
      var r := ReadOf(s, last, g1, g2);
      assert Possible(s, last, r) && r.status == 1 && r.counted != Lost(last, r.last);
    } else {
      forall r | Possible(s, last, r) && r.status == 1 ensures r.counted == Lost(last, r.last) {
        PossibleMeans(s, last, r);
        if last > 0 { PacedReading(s, last, r); }
      }
    }
  }

  /** A reader whose last frame is 1, on a ring from its start: its first attempt counts frame 2 and is
      abandoned, its second counts frames 2 and 3 and delivers frame 4.  Two are lost, three counted. */
  lemma RetryCountsADropTwice()
    ensures Possible(Fresh(true), 1, Reading(1, 4, 3, true, 10, 11)) && Lost(1, 4) == 2
  {
    var g1, g2 := DoubleCount(Fresh(true), 1, 10);
  }
}
