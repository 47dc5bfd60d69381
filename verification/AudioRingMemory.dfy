/** The shared audio ring and the mixer thread that fills it.

    The ring is eight slots, each guarded by a sequence word that is odd while the slot is being
    rewritten.  Nothing locks it: the mixer thread and the encoder callback meet only in the stores
    and loads themselves, so the mixer is given here as a machine whose every step is one shared
    load or one shared store (the sample copy is one step per sample). */
module AudioRingMemory {

  const SLOTS := 8
  const PREBUFFER := 3
  const SAMPLES := 1024
  const FRAME_US := 64000
  const WORD := 0x1_0000_0000

  type Frame = s: seq<int> | |s| == SAMPLES witness seq(SAMPLES, _ => 0)

  datatype Slot = Slot(sequence: nat, frame: nat, samples: Frame)

  datatype Memory = Memory(published: nat, consumed: nat, slots: seq<Slot>)

  /** Where the mixer thread stands inside fill_audio_prebuffer and publish_frame. */
  datatype Stage =
    | Deciding
    | LoadingSequence
    | MarkingOdd(loaded: nat)
    | StoringFrame(odd: nat)
    | Copying(odd: nat, next: nat)
    | MarkingEven(odd: nat)
    | StoringPublished

  /** `mixed` records every frame the mixer produced: mixed[n - 1] is frame n. */
  datatype Mixer = Mixer(freeRun: bool, frame: nat, generated: nat, stage: Stage, mixed: seq<Frame>)

  datatype System = System(memory: Memory, mixer: Mixer)

  /** What the mixer meets outside the ring: the samples it mixed, and in free-running mode whether
      the next frame is due. */
  datatype Choice = Choice(pcm: Frame, due: bool)

  // ---------------------------------------------------------------- the mixer, step by step

  /** Unsigned distance, as the code computes it. */
  function Ahead(frame: nat, consumed: nat): int {
    if consumed <= frame then frame - consumed else frame - consumed + WORD
  }

  predicate WantsFrame(s: System, due: bool) {
    && s.mixer.generated < SLOTS
    && if s.mixer.freeRun then s.mixer.frame < PREBUFFER || due
       else Ahead(s.mixer.frame, s.memory.consumed) < PREBUFFER
  }

  function SlotOf(frame: nat): (j: nat)
    requires frame > 0
    ensures j < SLOTS
  {
    (frame - 1) % SLOTS
  }

  predicate Shaped(s: System) {
    && |s.memory.slots| == SLOTS
    && |s.mixer.mixed| == s.mixer.frame
    && (!s.mixer.stage.Deciding? ==> s.mixer.frame > 0)
  }

  function WithSlot(m: Memory, j: nat, slot: Slot): Memory
    requires j < |m.slots|
  {
    m.(slots := m.slots[j := slot])
  }

  /** One step of the mixer thread: at most one shared load or store. */
  function MixerStep(s: System, c: Choice): System
    requires Shaped(s)
  {
    var m, x := s.memory, s.mixer;
    match x.stage
    case Deciding =>
      if WantsFrame(s, c.due) then
        System(m, x.(frame := x.frame + 1, generated := x.generated + 1,
                     stage := LoadingSequence, mixed := x.mixed + [c.pcm]))
      else
        System(m, x.(generated := 0))
    case LoadingSequence =>
      System(m, x.(stage := MarkingOdd(m.slots[SlotOf(x.frame)].sequence)))
    case MarkingOdd(loaded) =>
      var j := SlotOf(x.frame);
      var odd := loaded - loaded % 2 + 1;
      System(WithSlot(m, j, m.slots[j].(sequence := odd)), x.(stage := StoringFrame(odd)))
    case StoringFrame(odd) =>
      var j := SlotOf(x.frame);
      System(WithSlot(m, j, m.slots[j].(frame := x.frame)), x.(stage := Copying(odd, 0)))
    case Copying(odd, next) =>
      if next < SAMPLES then
        var j := SlotOf(x.frame);
        var samples := m.slots[j].samples[next := x.mixed[x.frame - 1][next]];
        System(WithSlot(m, j, m.slots[j].(samples := samples)), x.(stage := Copying(odd, next + 1)))
      else
        System(m, x.(stage := MarkingEven(odd)))
    case MarkingEven(odd) =>
      var j := SlotOf(x.frame);
      System(WithSlot(m, j, m.slots[j].(sequence := odd + 1)), x.(stage := StoringPublished))
    case StoringPublished =>
      System(m.(published := x.frame), x.(stage := Deciding))
  }

  // ---------------------------------------------------------------- what every step keeps

  /** How many of the frames 1..upTo landed in slot j. */
  function Rounds(j: nat, upTo: nat): nat
    requires j < SLOTS
  {
    (upTo + 7 - j) / SLOTS
  }

  /** The frame that slot j received in round r. */
  function FrameInRound(j: nat, r: nat): nat
    requires r > 0
  {
    SLOTS * (r - 1) + j + 1
  }

  /** Slot j is at rest and holds the newest of the frames 1..upTo that map to it. */
  predicate Holds(slot: Slot, j: nat, upTo: nat, mixed: seq<Frame>)
    requires j < SLOTS
  {
    var r := Rounds(j, upTo);
    && slot.sequence == 2 * r
    && (r == 0 ==> slot.frame == 0)
    && (r > 0 ==>
          && slot.frame == FrameInRound(j, r) <= |mixed|
          && slot.samples == mixed[slot.frame - 1])
  }

  /** Slot j is being rewritten with the newest frame. */
  predicate Rewriting(slot: Slot, j: nat, x: Mixer)
    requires j < SLOTS && x.frame > 0 && |x.mixed| == x.frame
    requires x.stage.StoringFrame? || x.stage.Copying? || x.stage.MarkingEven?
  {
    && slot.sequence == x.stage.odd == 2 * Rounds(j, x.frame - 1) + 1
    && (!x.stage.StoringFrame? ==> slot.frame == x.frame)
    && (x.stage.Copying? ==>
          && x.stage.next <= SAMPLES
          && forall k :: 0 <= k < x.stage.next ==> slot.samples[k] == x.mixed[x.frame - 1][k])
    && (x.stage.MarkingEven? ==> slot.samples == x.mixed[x.frame - 1])
  }

  predicate Midway(stage: Stage) {
    stage.StoringFrame? || stage.Copying? || stage.MarkingEven?
  }

  /** The newest frame whose slot has been turned even again. */
  function Completed(x: Mixer): nat
    requires !x.stage.Deciding? ==> x.frame > 0
  {
    if x.stage.Deciding? || x.stage.StoringPublished? then x.frame else x.frame - 1
  }

  predicate SlotOk(s: System, j: nat)
    requires Shaped(s) && j < SLOTS
  {
    if Midway(s.mixer.stage) && j == SlotOf(s.mixer.frame)
    then Rewriting(s.memory.slots[j], j, s.mixer)
    else Holds(s.memory.slots[j], j, Completed(s.mixer), s.mixer.mixed)
  }

  /** The invariant of the ring, true in every state the mixer can reach. */
  ghost predicate Ok(s: System) {
    && Shaped(s)
    && s.memory.published == (if s.mixer.stage.Deciding? then s.mixer.frame else s.mixer.frame - 1)
    && (s.mixer.stage.MarkingOdd? ==>
          s.mixer.stage.loaded == s.memory.slots[SlotOf(s.mixer.frame)].sequence)
    && forall j :: 0 <= j < SLOTS ==> SlotOk(s, j)
  }

  /** What a reader may rely on between two of its own accesses, however long it was delayed. */
  ghost predicate Evolves(a: System, b: System)
    requires |a.memory.slots| == SLOTS && |b.memory.slots| == SLOTS
  {
    && b.mixer.freeRun == a.mixer.freeRun
    && a.memory.published <= b.memory.published
    && a.mixer.mixed <= b.mixer.mixed
    && forall j :: 0 <= j < SLOTS ==> SlotEvolves(a.memory.slots[j], b.memory.slots[j])
  }

  predicate SlotEvolves(a: Slot, b: Slot) {
    && a.sequence <= b.sequence
    && (a.sequence == b.sequence && a.sequence % 2 == 0 ==> a == b)
  }

  /** A freshly created, zeroed ring. */
  function Fresh(freeRun: bool): (s: System)
    ensures Ok(s)
  {
    System(Memory(0, 0, seq(SLOTS, _ => Slot(0, 0, seq(SAMPLES, _ => 0)))),
           Mixer(freeRun, 0, 0, Deciding, []))
  }

  lemma NextRound(j: nat, frame: nat)
    requires j < SLOTS && frame > 0
    ensures Rounds(j, frame) == Rounds(j, frame - 1) + if j == SlotOf(frame) then 1 else 0
    ensures j == SlotOf(frame) ==> FrameInRound(j, Rounds(j, frame)) == frame
  {
  }

  lemma HoldsGrows(slot: Slot, j: nat, upTo: nat, mixed: seq<Frame>, more: seq<Frame>)
    requires j < SLOTS && mixed <= more && Holds(slot, j, upTo, mixed)
    ensures Holds(slot, j, upTo, more)
  {
  }

  lemma MixerStepOk(s: System, c: Choice)
    requires Ok(s)
    ensures Ok(MixerStep(s, c))
    ensures Evolves(s, MixerStep(s, c))
    ensures MixerStep(s, c).memory.consumed == s.memory.consumed
  {
    var t := MixerStep(s, c);
    forall j | 0 <= j < SLOTS
      ensures SlotOk(t, j) && SlotEvolves(s.memory.slots[j], t.memory.slots[j])
    {
      MixerStepSlotOk(s, c, j);
    }
  }

  lemma MixerStepSlotOk(s: System, c: Choice, j: nat)
    requires Ok(s) && j < SLOTS
    ensures Shaped(MixerStep(s, c)) && SlotOk(MixerStep(s, c), j)
    ensures SlotEvolves(s.memory.slots[j], MixerStep(s, c).memory.slots[j])
  {
    assert SlotOk(s, j);
    if s.mixer.stage.Deciding? {
      DecidingSlotOk(s, c, j);
    } else if j == SlotOf(s.mixer.frame) {
      RewrittenSlotOk(s, c);
    } else {
      UntouchedSlotOk(s, c, j);
    }
  }

  lemma DecidingSlotOk(s: System, c: Choice, j: nat)
    requires Shaped(s) && j < SLOTS && SlotOk(s, j) && s.mixer.stage.Deciding?
    ensures Shaped(MixerStep(s, c)) && SlotOk(MixerStep(s, c), j)
    ensures s.memory == MixerStep(s, c).memory
  {
    HoldsGrows(s.memory.slots[j], j, s.mixer.frame, s.mixer.mixed, MixerStep(s, c).mixer.mixed);
  }

  lemma UntouchedSlotOk(s: System, c: Choice, j: nat)
    requires Shaped(s) && j < SLOTS && SlotOk(s, j) && !s.mixer.stage.Deciding?
    requires j != SlotOf(s.mixer.frame)
    ensures Shaped(MixerStep(s, c)) && SlotOk(MixerStep(s, c), j)
    ensures s.memory.slots[j] == MixerStep(s, c).memory.slots[j]
  {
    NextRound(j, s.mixer.frame);
    assert Rounds(j, Completed(s.mixer)) == Rounds(j, Completed(MixerStep(s, c).mixer));
  }

  lemma RewrittenSlotOk(s: System, c: Choice)
    requires Ok(s) && !s.mixer.stage.Deciding?
    ensures Shaped(MixerStep(s, c)) && SlotOk(MixerStep(s, c), SlotOf(s.mixer.frame))
    ensures SlotEvolves(s.memory.slots[SlotOf(s.mixer.frame)],
                        MixerStep(s, c).memory.slots[SlotOf(s.mixer.frame)])
  {
    var j := SlotOf(s.mixer.frame);
    assert SlotOk(s, j);
    NextRound(j, s.mixer.frame);
  }

  lemma EvolvesTransitive(a: System, b: System, c: System)
    requires |a.memory.slots| == |b.memory.slots| == |c.memory.slots| == SLOTS
    requires Evolves(a, b) && Evolves(b, c)
    ensures Evolves(a, c)
  {
    forall j | 0 <= j < SLOTS ensures SlotEvolves(a.memory.slots[j], c.memory.slots[j]) {
      assert SlotEvolves(a.memory.slots[j], b.memory.slots[j]);
      assert SlotEvolves(b.memory.slots[j], c.memory.slots[j]);
    }
  }

  /** Any number of mixer steps. */
  ghost function Run(s: System, choices: seq<Choice>): System
    requires Ok(s)
    decreases choices
  {
    if choices == [] then s
    else MixerStepOk(s, choices[0]); Run(MixerStep(s, choices[0]), choices[1..])
  }

  lemma {:induction false} RunAppend(s: System, choices: seq<Choice>, c: Choice)
    requires Ok(s)
    ensures Ok(Run(s, choices))
    ensures Run(s, choices + [c]) == MixerStep(Run(s, choices), c)
    decreases choices
  {
    RunOk(s, choices);
    if choices == [] {
      assert Run(MixerStep(s, c), []) == MixerStep(s, c) by { MixerStepOk(s, c); }
    } else {
      MixerStepOk(s, choices[0]);
      RunAppend(MixerStep(s, choices[0]), choices[1..], c);
      assert (choices + [c])[1..] == choices[1..] + [c];
    }
  }

  /** The reader's view of any number of mixer steps. */
  lemma {:induction false} RunOk(s: System, choices: seq<Choice>)
    requires Ok(s)
    ensures Ok(Run(s, choices)) && Evolves(s, Run(s, choices))
    ensures Run(s, choices).memory.consumed == s.memory.consumed
    decreases choices
  {
    if choices != [] {
      var t := MixerStep(s, choices[0]);
      MixerStepOk(s, choices[0]);
      RunOk(t, choices[1..]);
      EvolvesTransitive(s, t, Run(s, choices));
    }
  }

  lemma {:induction false} RunConcat(s: System, a: seq<Choice>, b: seq<Choice>)
    requires Ok(s)
    ensures Ok(Run(s, a)) && Run(s, a + b) == Run(Run(s, a), b)
    decreases a
  {
    RunOk(s, a);
    if a == [] {
      assert a + b == b;
    } else {
      MixerStepOk(s, a[0]);
      RunConcat(MixerStep(s, a[0]), a[1..], b);
      assert (a + b)[1..] == a[1..] + b;
    }
  }

  // ---------------------------------------------------------------- demand pacing

  /** In demand-paced mode with a reader whose last frame is `last`, the mixer runs at most three
      frames ahead of what the reader has acknowledged. */
  predicate Paced(s: System, last: nat) {
    && !s.mixer.freeRun
    && s.memory.consumed == last <= s.memory.published
    && s.mixer.frame <= last + PREBUFFER
  }

  lemma {:induction false} RunPaced(s: System, choices: seq<Choice>, last: nat)
    requires Ok(s) && Paced(s, last)
    ensures Ok(Run(s, choices)) && Paced(Run(s, choices), last)
    decreases choices
  {
    if choices != [] {
      MixerStepOk(s, choices[0]);
      RunPaced(MixerStep(s, choices[0]), choices[1..], last);
    }
  }

  /** While pacing holds, the slot of the reader's next frame is at rest and never touched. */
  lemma PacedSlotAtRest(s: System, last: nat)
    requires Ok(s) && Paced(s, last) && last < s.memory.published
    ensures var j := SlotOf(last + 1);
            && s.memory.slots[j].sequence == 2 * Rounds(j, last + 1)
            && s.memory.slots[j].frame == last + 1
  {
    var j := SlotOf(last + 1);
    assert SlotOk(s, j);
    NextRound(j, last + 1);
    assert last + 1 <= Completed(s.mixer) < last + 1 + SLOTS;
    assert Rounds(j, Completed(s.mixer)) == Rounds(j, last + 1);
  }

  // ---------------------------------------------------------------- publish_frame as a whole

  /** The ring after one undisturbed publish_frame. */
  function Published(s: System, pcm: Frame): System
    requires |s.memory.slots| == SLOTS
  {
    var frame := s.mixer.frame + 1;
    var j := SlotOf(frame);
    var loaded := s.memory.slots[j].sequence;
    var slot := Slot(loaded - loaded % 2 + 2, frame, pcm);
    System(WithSlot(s.memory, j, slot).(published := frame),
           s.mixer.(frame := frame, mixed := s.mixer.mixed + [pcm]))
  }

  /** The environment answering the same way n times. */
  function Repeat(c: Choice, n: nat): seq<Choice> {
    seq(n, _ => c)
  }

  // The states between the phases of publish_frame.

  function Opened(s: System, c: Choice): System
    requires |s.memory.slots| == SLOTS
  {
    var frame := s.mixer.frame + 1;
    var j := SlotOf(frame);
    var loaded := s.memory.slots[j].sequence;
    var odd := loaded - loaded % 2 + 1;
    System(WithSlot(s.memory, j, Slot(odd, frame, s.memory.slots[j].samples)),
           Mixer(s.mixer.freeRun, frame, s.mixer.generated + 1, Copying(odd, 0), s.mixer.mixed + [c.pcm]))
  }

  function Copied(s: System): System
    requires Shaped(s) && s.mixer.stage.Copying?
  {
    var j := SlotOf(s.mixer.frame);
    System(WithSlot(s.memory, j, s.memory.slots[j].(samples := s.mixer.mixed[s.mixer.frame - 1])),
           s.mixer.(stage := MarkingEven(s.mixer.stage.odd)))
  }

  function Closed(s: System): System
    requires Shaped(s) && s.mixer.stage.MarkingEven?
  {
    var j := SlotOf(s.mixer.frame);
    System(WithSlot(s.memory, j, s.memory.slots[j].(sequence := s.mixer.stage.odd + 1))
           .(published := s.mixer.frame),
           s.mixer.(stage := Deciding))
  }

  /** The machine's steps add up to publish_frame, whatever the environment answers meanwhile. */
  lemma {:induction false} PublishIsSteps(s: System, c: Choice)
    requires Ok(s) && s.mixer.stage.Deciding? && WantsFrame(s, c.due)
    ensures Run(s, Repeat(c, SAMPLES + 7))
            == Published(s.(mixer := s.mixer.(generated := s.mixer.generated + 1)), c.pcm)
  {
    OpenRun(s, c, SAMPLES + 3);
    CopyRun(Opened(s, c), c, 0, 2);
    CloseRun(Copied(Opened(s, c)), c);
    PhasesCompose(s, c);
  }

  /** publish_frame as a whole keeps the ring's invariant. */
  lemma PublishedOk(s: System, pcm: Frame)
    requires Ok(s) && s.mixer.stage.Deciding?
    ensures Ok(Published(s, pcm)) && Evolves(s, Published(s, pcm))
  {
    var t := Published(s, pcm);
    forall j | 0 <= j < SLOTS
      ensures SlotOk(t, j) && SlotEvolves(s.memory.slots[j], t.memory.slots[j])
    {
      assert SlotOk(s, j);
      NextRound(j, t.mixer.frame);
      if j != SlotOf(t.mixer.frame) {
        HoldsGrows(s.memory.slots[j], j, s.mixer.frame, s.mixer.mixed, t.mixer.mixed);
      }
    }
  }

  lemma PhasesCompose(s: System, c: Choice)
    requires Shaped(s) && s.mixer.stage.Deciding?
    ensures Closed(Copied(Opened(s, c)))
            == Published(s.(mixer := s.mixer.(generated := s.mixer.generated + 1)), c.pcm)
  {
    assert Closed(Copied(Opened(s, c))).memory.slots == Published(s, c.pcm).memory.slots;
  }

  /** The four steps before the copy. */
  lemma {:induction false} OpenRun(s: System, c: Choice, rest: nat)
    requires Ok(s) && s.mixer.stage.Deciding? && WantsFrame(s, c.due)
    ensures Ok(Opened(s, c))
    ensures Run(s, Repeat(c, rest + 4)) == Run(Opened(s, c), Repeat(c, rest))
  {
    var s1 := StepOff(s, c, rest + 4);
    var s2 := StepOff(s1, c, rest + 3);
    var s3 := StepOff(s2, c, rest + 2);
    var s4 := StepOff(s3, c, rest + 1);
    assert s4.memory.slots == Opened(s, c).memory.slots;
  }

  /** The piecewise memcpy from sample `next` on. */
  lemma {:induction false} CopyRun(s: System, c: Choice, next: nat, rest: nat)
    requires Ok(s) && s.mixer.stage.Copying? && s.mixer.stage.next == next <= SAMPLES
    ensures Ok(Copied(s))
    ensures Run(s, Repeat(c, SAMPLES - next + 1 + rest)) == Run(Copied(s), Repeat(c, rest))
    decreases SAMPLES - next
  {
    var j := SlotOf(s.mixer.frame);
    assert SlotOk(s, j);
    var t := StepOff(s, c, SAMPLES - next + 1 + rest);
    if next == SAMPLES {
      assert s.memory.slots[j].samples == s.mixer.mixed[s.mixer.frame - 1];
      assert t.memory.slots == Copied(s).memory.slots;
    } else {
      CopyRun(t, c, next + 1, rest);
      assert Copied(t).memory.slots == Copied(s).memory.slots;
    }
  }

  /** The two steps after the copy. */
  lemma {:induction false} CloseRun(s: System, c: Choice)
    requires Ok(s) && s.mixer.stage.MarkingEven?
    ensures Run(s, Repeat(c, 2)) == Closed(s)
  {
    var evened := StepOff(s, c, 2);
    var done := StepOff(evened, c, 1);
    assert Run(done, Repeat(c, 0)) == done;
  }

  lemma StepOff(s: System, c: Choice, n: nat) returns (t: System)
    requires Ok(s) && n > 0
    ensures t == MixerStep(s, c) && Ok(t)
    ensures Run(s, Repeat(c, n)) == Run(t, Repeat(c, n - 1))
  {
    t := MixerStep(s, c);
    MixerStepOk(s, c);
    assert Repeat(c, n)[1..] == Repeat(c, n - 1);
  }
}
