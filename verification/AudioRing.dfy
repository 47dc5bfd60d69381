/** The encoder callback's side of the audio ring: e1_audio_ring_read_next, with the mixer thread
    free to run any number of its steps between any two of the callback's own accesses. */
module AudioRing {
  import opened AudioRingMemory
  import opened AudioRingReader

  /** `delivered` are the frames of `mixed` with the given numbers, which strictly increase. */
  ghost predicate Selection(numbers: seq<nat>, delivered: seq<Frame>, mixed: seq<Frame>) {
    && |numbers| == |delivered|
    && (forall k :: 0 <= k < |numbers| ==>
                    && 0 < numbers[k] <= |mixed| && delivered[k] == mixed[numbers[k] - 1])
    && (forall k, l :: 0 <= k < l < |numbers| ==> numbers[k] < numbers[l])
  }

  function LastOf(numbers: seq<nat>): nat {
    if numbers == [] then 0 else numbers[|numbers| - 1]
  }

  lemma SelectionGrows(numbers: seq<nat>, delivered: seq<Frame>, mixed: seq<Frame>, more: seq<Frame>)
    requires Selection(numbers, delivered, mixed) && mixed <= more
    ensures Selection(numbers, delivered, more)
    ensures delivered <= mixed ==> delivered <= more
  {
  }

  lemma StreamAppends(delivered: seq<Frame>, mixed: seq<Frame>, number: nat, frame: Frame)
    requires 0 < number <= |mixed| && frame == mixed[number - 1]
    ensures delivered <= mixed && number == |delivered| + 1 ==> delivered + [frame] <= mixed
  {
  }

  lemma SelectionAppends(numbers: seq<nat>, delivered: seq<Frame>, mixed: seq<Frame>,
                         number: nat, frame: Frame)
    requires Selection(numbers, delivered, mixed)
    requires 0 < number <= |mixed| && frame == mixed[number - 1]
    requires numbers != [] ==> numbers[|numbers| - 1] < number
    ensures Selection(numbers + [number], delivered + [frame], mixed)
  {
  }

  function OutcomeOf(outcome: int): Outcome {
    if outcome == 0 then CaughtUp else if outcome == 1 then Delivered else Abandoned
  }

  const Silence: Frame := seq(SAMPLES, _ => 0)

  class AudioRing {
    var published: nat
    var consumed: nat
    var slots: seq<Slot>
    var mixer: Mixer
    // when the free-running mixer's next frame is due
    var nextFrameUs: nat

    ghost function State(): System
      reads this
    {
      System(Memory(published, consumed, slots), mixer)
    }

    ghost predicate Valid()
      reads this
    {
      Ok(State())
    }

    /** Only mixer steps have happened since `start`. */
    ghost predicate Since(start: System)
      reads this
    {
      && Valid()
      && |start.memory.slots| == SLOTS
      && Evolves(start, State())
      && consumed == start.memory.consumed
      && (Paced(start, consumed) ==> Paced(State(), consumed))
    }

    /** Exactly the samples mixed for the frame of this number. */
    ghost predicate IsFrame(samples: seq<int>, number: nat)
      reads this
    {
      0 < number <= |mixer.mixed| && samples == mixer.mixed[number - 1]
    }

    constructor (freeRun: bool, now: nat)
      ensures Valid() && State() == Fresh(freeRun) && nextFrameUs == now
    {
      published, consumed := 0, 0;
      slots := seq(SLOTS, _ => Slot(0, 0, seq(SAMPLES, _ => 0)));
      mixer := Mixer(freeRun, 0, 0, Deciding, []);
      nextFrameUs := now;
    }

    /** The mixer thread runs for a while: any number of steps, any samples, any timing. */
    method Interfere(ghost start: System) returns (ghost choices: seq<Choice>)
      requires Since(start)
      modifies this
      ensures Since(start)
      ensures |old(slots)| == SLOTS && Evolves(old(State()), State())
      ensures Ok(old(State())) && State() == Run(old(State()), choices)
    {
      ghost var before := State();
      choices := [];
      var steps: nat := *;
      while steps > 0
        invariant State() == Run(before, choices)
      {
        var pcm: Frame := *;
        var due: bool := *;
        RunOk(before, choices);
        RunAppend(before, choices, Choice(pcm, due));
        choices := choices + [Choice(pcm, due)];
        var next := MixerStep(System(Memory(published, consumed, slots), mixer), Choice(pcm, due));
        published, consumed, slots := next.memory.published, next.memory.consumed, next.memory.slots;
        mixer := next.mixer;
        steps := steps - 1;
      }
      RunOk(before, choices);
      EvolvesTransitive(start, before, State());
      if Paced(start, consumed) { RunPaced(before, choices, consumed); }
    }

    /** memcpy of one slot, a sample at a time.  If the slot's sequence is the same even number at
        the end as it was before, the copy is the slot's content. */
    method CopySlot(j: nat, before: nat, output: array<int>, ghost start: System)
      returns (ghost choices: seq<Choice>)
      requires Since(start) && j < SLOTS && output.Length == SAMPLES
      requires before % 2 == 0 && before <= slots[j].sequence
      modifies this, output
      ensures Since(start) && Evolves(old(State()), State())
      ensures Ok(old(State())) && State() == Run(old(State()), choices)
      ensures slots[j].sequence == before ==> output[..] == slots[j].samples
    {
      ghost var entry := State();
      choices := [];
      var i := 0;
      while i < SAMPLES
        invariant 0 <= i <= SAMPLES
        invariant Since(start) && Evolves(entry, State()) && before <= slots[j].sequence
        invariant State() == Run(entry, choices)
        invariant slots[j].sequence == before ==>
                    forall k :: 0 <= k < i ==> output[k] == slots[j].samples[k]
      {
        ghost var here := State();
        ghost var gap := Interfere(start);
        RunConcat(entry, choices, gap);
        choices := choices + gap;
        EvolvesTransitive(entry, here, State());
        assert SlotEvolves(here.memory.slots[j], State().memory.slots[j]);
        output[i] := slots[j].samples[i];
        i := i + 1;
      }
    }

    /** One attempt at the slot of frame `target`. */
    method ReadSlot(target: nat, output: array<int>, ghost start: System)
      returns (stable: bool, ghost gaps: Gaps)
      requires Since(start) && output.Length == SAMPLES && 0 < target <= published
      modifies this, output
      ensures Since(start) && Evolves(old(State()), State())
      ensures Ok(old(State())) && LookOf(old(State()), target, gaps) == (State(), stable)
      ensures stable ==> IsFrame(output[..], target)
    {
      ghost var entry := State();
      var j := SlotOf(target);
      ghost var mark := Interfere(start);
      var sequenceBefore := slots[j].sequence;
      ghost var marked := State();
      if sequenceBefore % 2 != 0 {
        return false, Gaps([], mark, [], []);
      }
      ghost var frame := Interfere(start);
      var slotFrame := slots[j].frame;
      ghost var loaded := State();
      EvolvesTransitive(entry, marked, loaded);
      ghost var copy := CopySlot(j, sequenceBefore, output, start);
      ghost var copied := State();
      EvolvesTransitive(entry, loaded, copied);
      ghost var last := Interfere(start);
      var sequenceAfter := slots[j].sequence;
      RunConcat(loaded, copy, last);
      gaps := Gaps([], mark, frame, copy + last);
      EvolvesTransitive(entry, copied, State());
      stable := sequenceBefore == sequenceAfter && slotFrame == target;
      SeqlockAccepts(marked, loaded, copied, State(), target);
    }

    /** Copy the next frame in order.  `retried` says whether a first attempt was abandoned, and
        `first` and `newest` are the publications that the first and the last attempt went by. */
    method ReadNext(lastFrame: nat, droppedFrames: nat, output: array<int>)
      returns (status: int, last: nat, dropped: nat, ghost retried: bool, ghost first: nat, ghost newest: nat)
      requires Valid() && output.Length == SAMPLES
      modifies this, output
      ensures Valid() && Evolves(old(State()), State())
      // one: exactly the samples mixed for one frame, newer than the last; otherwise silence
      ensures status == 1 || status == 0 || status == -1
      ensures status == 1 ==> lastFrame < last == consumed <= published
      ensures status == 1 ==> IsFrame(output[..], last)
      ensures status != 1 ==> output[..] == Silence && last == lastFrame && consumed == old(consumed)
      // zero exactly when the reader has caught up with the newest publication
      ensures status == 0 ==> old(published) <= lastFrame && dropped == droppedFrames
      ensures status != 0 ==> published > lastFrame
      // the frame aimed at, and what each attempt counted
      ensures status != 0 ==> lastFrame < first && old(published) <= first <= newest <= published
      ensures status == 1 && !retried ==> newest == first
      ensures status == 1 && lastFrame == 0 ==>
                last == (if newest > 3 then newest - 3 else 1) && dropped == droppedFrames
      ensures status == 1 && lastFrame > 0 ==>
                && last == (if newest > lastFrame + 8 then newest - 7 else lastFrame + 1)
                && dropped == droppedFrames + (last - (lastFrame + 1))
                              + if retried && first > lastFrame + 8 then first - lastFrame - 8 else 0
      // the count is what was passed over, unless an abandoned attempt already had to skip
      ensures status == 1 ==>
                (dropped - droppedFrames == Lost(lastFrame, last)
                 <==> !(retried && lastFrame > 0 && first > lastFrame + 8))
      // demand-paced: never torn, never late, never dropped, in order
      ensures Paced(old(State()), lastFrame) ==>
                && Paced(State(), last)
                && status != -1 && !retried
                && dropped == droppedFrames
                && (status == 1 ==> last == lastFrame + 1)
    {
      ghost var start := State();
      last := lastFrame;
      var target;
      status, target, dropped, retried, first, newest := TryTwice(lastFrame, droppedFrames, output, start);
      ghost var reading := Reading(status, if status == 1 then target else last, dropped - droppedFrames,
                                   retried, first, newest);
      PossibleMeans(start, lastFrame, reading);
      if Paced(start, lastFrame) { PacedReading(start, lastFrame, reading); }
      if status == 1 {
        last := target;
        ghost var _ := Interfere(start);
        StoreConsumed(target, start);
        return;
      }
      Clear(output);
    }

    /** The loop of attempts.  Its result is what ReadOf says for some steps of the mixer in the gaps. */
    method TryTwice(last: nat, droppedFrames: nat, output: array<int>, ghost start: System)
      returns (status: int, target: nat, dropped: nat, ghost retried: bool, ghost first: nat, ghost newest: nat)
      requires Valid() && State() == start && output.Length == SAMPLES
      modifies this, output
      ensures Since(start)
      ensures status == 1 || status == 0 || status == -1
      ensures status != 0 ==> published > last && newest <= published
      ensures status == 1 ==> last < target <= published && IsFrame(output[..], target)
      ensures dropped >= droppedFrames
      ensures Possible(start, last, Reading(status, if status == 1 then target else last,
                                            dropped - droppedFrames, retried, first, newest))
    {
      dropped, first, newest := droppedFrames, 0, 0;
      var attempt := 0;
      while attempt < 2
        invariant 0 <= attempt <= 2 && Since(start) && dropped >= droppedFrames
        invariant attempt > 0 ==> published > last && newest <= published
        invariant Underway(start, last, State(), attempt, dropped - droppedFrames, first, newest)
      {
        ghost var before, previous := State(), newest;
        var outcome, skip;
        outcome, target, skip, newest := Attempt(last, output, start);
        ghost var try := Try(State(), newest, OutcomeOf(outcome));
        OneMoreAttempt(start, last, before, attempt, dropped - droppedFrames, first, previous, try);
        if attempt == 0 { first := newest; }
        if outcome == 0 {
          assert Possible(start, last, Reading(0, last, 0, false, first, newest));
          return 0, target, dropped, false, first, newest;
        }
        dropped := dropped + skip;
        if outcome == 1 {
          assert Possible(start, last, Reading(1, target, dropped - droppedFrames, attempt > 0, first, newest));
          return 1, target, dropped, attempt > 0, first, newest;
        }
        attempt := attempt + 1;
        assert try.after == State();
      }
      return -1, 0, dropped, true, first, newest;
    }

    /** The acknowledgement. */
    method StoreConsumed(target: nat, ghost start: System)
      requires Since(start) && 0 < target <= published
      modifies this`consumed
      ensures Valid() && consumed == target && Evolves(start, State())
      ensures Paced(start, target - 1) ==> Paced(State(), target)
    {
      ghost var read := State();
      consumed := target;
      Acknowledge(read, target);
    }

    /** One round of the loop: 0 when there is nothing newer, 1 when `output` holds the frame aimed at,
        2 when the slot was odd, moved or another frame's. */
    method Attempt(last: nat, output: array<int>, ghost start: System)
      returns (outcome: int, target: nat, skip: nat, ghost newest: nat)
      requires Since(start) && output.Length == SAMPLES
      modifies this, output
      ensures Since(start) && Evolves(old(State()), State())
      ensures outcome == 0 || outcome == 1 || outcome == 2
      ensures Tried(old(State()), last, Try(State(), newest, OutcomeOf(outcome)))
      ensures outcome == 0 ==> old(published) <= last
      ensures outcome != 0 ==>
                && old(published) <= newest <= published && last < newest
                && target == Target(last, newest) && skip == Skipped(last, newest)
      ensures outcome == 1 ==> IsFrame(output[..], target)
    {
      ghost var entry := State();
      ghost var load := Interfere(start);
      newest := published;
      var published := published;
      target, skip := 0, 0;
      if published == 0 || published <= last {
        assert AttemptOf(entry, last, Gaps(load, [], [], [])) == Try(State(), newest, CaughtUp);
        return 0, target, skip, newest;
      }
      target := Target(last, published);
      skip := Skipped(last, published);
      ghost var loaded := State();
      var stable;
      ghost var gaps;
      stable, gaps := ReadSlot(target, output, start);
      EvolvesTransitive(entry, loaded, State());
      outcome := if stable then 1 else 2;
      LoadFirst(entry, load, last, target, gaps);
    }

    /** What has been delivered so far, seen from between two callbacks. */
    ghost predicate Playing(freeRun: bool, numbers: seq<nat>, delivered: seq<Frame>, torn: nat, dropped: nat)
      reads this
    {
      && Valid() && mixer.freeRun == freeRun
      && Selection(numbers, delivered, mixer.mixed)
      && (!freeRun ==>
            && Paced(State(), LastOf(numbers)) && torn == 0 && dropped == 0
            && LastOf(numbers) == |delivered| && delivered <= mixer.mixed)
    }

    /** Any number of callbacks on a fresh ring.  In demand-paced mode what is delivered is the mixed
        stream itself, frame by frame from the first, with silence only when the reader has caught up;
        in free-running mode it is a strictly increasing selection of it. */
    method Play(calls: nat, output: array<int>)
      returns (numbers: seq<nat>, delivered: seq<Frame>, torn: nat, dropped: nat)
      requires output.Length == SAMPLES && exists freeRun :: State() == Fresh(freeRun)
      modifies this, output
      ensures Valid() && Selection(numbers, delivered, mixer.mixed)
      ensures !old(mixer.freeRun) ==>
                && delivered <= mixer.mixed && torn == 0 && dropped == 0
                && |delivered| <= mixer.frame <= |delivered| + PREBUFFER
    {
      ghost var freeRun := mixer.freeRun;
      numbers, delivered, torn, dropped := [], [], 0, 0;
      for i := 0 to calls
        invariant Playing(freeRun, numbers, delivered, torn, dropped)
      {
        numbers, delivered, torn, dropped := PlayOne(numbers, delivered, torn, dropped, output, freeRun);
      }
    }

    /** One callback of the run. */
    method PlayOne(before: seq<nat>, played: seq<Frame>, tornBefore: nat, droppedBefore: nat,
                   output: array<int>, ghost freeRun: bool)
      returns (numbers: seq<nat>, delivered: seq<Frame>, torn: nat, dropped: nat)
      requires output.Length == SAMPLES && Playing(freeRun, before, played, tornBefore, droppedBefore)
      modifies this, output
      ensures Playing(freeRun, numbers, delivered, torn, dropped)
    {
      ghost var mixedBefore := mixer.mixed;
      numbers, delivered, torn := before, played, tornBefore;
      var status, last, total, _, _, _ := ReadNext(LastOf(before), droppedBefore, output);
      dropped := total;
      SelectionGrows(before, played, mixedBefore, mixer.mixed);
      if status == 1 {
        SelectionAppends(before, played, mixer.mixed, last, output[..]);
        StreamAppends(played, mixer.mixed, last, output[..]);
        numbers := before + [last];
        delivered := played + [output[..]];
      } else if status == -1 {
        torn := torn + 1;
      }
    }

    /** publish_frame, undisturbed. */
    method PublishFrame(pcm: Frame)
      requires Valid() && mixer.stage.Deciding?
      modifies this
      ensures Valid() && State() == Published(old(State()), pcm) && nextFrameUs == old(nextFrameUs)
    {
      ghost var before := State();
      PublishedOk(before, pcm);
      var frame := mixer.frame + 1;
      mixer := mixer.(frame := frame, mixed := mixer.mixed + [pcm]);
      var target := (frame - 1) % SLOTS;
      var sequence := slots[target].sequence - slots[target].sequence % 2 + 1;
      slots := slots[target := slots[target].(sequence := sequence)];
      slots := slots[target := slots[target].(frame := frame)];
      var i := 0;
      while i < SAMPLES
        invariant 0 <= i <= SAMPLES && |slots| == SLOTS
        invariant nextFrameUs == old(nextFrameUs)
        invariant mixer == Published(before, pcm).mixer && consumed == before.memory.consumed
        invariant slots == before.memory.slots[target := slots[target]]
        invariant slots[target].sequence == sequence && slots[target].frame == frame
        invariant forall k :: 0 <= k < i ==> slots[target].samples[k] == pcm[k]
      {
        slots := slots[target := slots[target].(samples := slots[target].samples[i := pcm[i]])];
        i := i + 1;
      }
      slots := slots[target := slots[target].(sequence := sequence + 1)];
      published := frame;
      assert slots[target] == Slot(sequence + 1, frame, pcm);
      assert slots == Published(before, pcm).memory.slots;
    }

    /** fill_audio_prebuffer, undisturbed, at time `now`: `mixedNext[n]` is what the mixer would produce
        as its n-th frame of this call. */
    method FillAudioPrebuffer(mixedNext: seq<Frame>, now: nat) returns (generated: nat)
      requires Valid() && mixer.stage.Deciding? && |mixedNext| == SLOTS
      modifies this
      ensures Valid() && mixer.stage.Deciding? && generated <= SLOTS
      ensures mixer.mixed == old(mixer.mixed) + mixedNext[..generated]
      ensures published == mixer.frame == old(mixer.frame) + generated && consumed == old(consumed)
      // demand-paced: top up to three unacknowledged frames, and only to that
      ensures !mixer.freeRun && consumed <= old(mixer.frame) ==>
                mixer.frame == if old(mixer.frame) < consumed + PREBUFFER then consumed + PREBUFFER
                               else old(mixer.frame)
      ensures !mixer.freeRun ==> nextFrameUs == old(nextFrameUs)
      // free-running: one frame period on per frame, stopping at the first frame that is neither
      // prebuffer nor due, or after eight
      ensures mixer.freeRun ==>
                && nextFrameUs == old(nextFrameUs) + generated * FRAME_US
                && (generated < SLOTS ==> mixer.frame >= PREBUFFER && now < nextFrameUs)
                && forall n :: 0 <= n < generated ==>
                     old(mixer.frame) + n < PREBUFFER || now >= old(nextFrameUs) + n * FRAME_US
    {
      generated := 0;
      ghost var start := mixer;
      while generated < SLOTS && (if mixer.freeRun then mixer.frame < PREBUFFER || now >= nextFrameUs
                                  else Ahead(mixer.frame, consumed) < PREBUFFER)
        invariant Valid() && mixer.stage.Deciding? && generated <= SLOTS
        invariant consumed == old(consumed) && mixer.freeRun == start.freeRun
        invariant mixer.frame == start.frame + generated == published
        invariant mixer.mixed == start.mixed + mixedNext[..generated]
        invariant !mixer.freeRun && consumed <= start.frame && generated > 0 ==>
                    mixer.frame <= consumed + PREBUFFER
        invariant nextFrameUs == old(nextFrameUs) + if mixer.freeRun then generated * FRAME_US else 0
        invariant mixer.freeRun ==>
                    forall n :: 0 <= n < generated ==>
                      start.frame + n < PREBUFFER || now >= old(nextFrameUs) + n * FRAME_US
        decreases SLOTS - generated
      {
        PublishFrame(mixedNext[generated]);
        if mixer.freeRun { nextFrameUs := nextFrameUs + FRAME_US; }
        generated := generated + 1;
      }
    }

    /** memset of the caller's buffer. */
    method Clear(output: array<int>)
      requires output.Length == SAMPLES
      modifies output
      ensures output[..] == Silence
    {
      for i := 0 to SAMPLES
        invariant forall k :: 0 <= k < i ==> output[k] == 0
      {
        output[i] := 0;
      }
    }
  }

  /** An even sequence seen twice around the copy pins the slot, and the slot's frame number then
      names the frame whose samples it holds. */
  lemma SeqlockAccepts(marked: System, loaded: System, copied: System, end: System, target: nat)
    requires Ok(marked) && Ok(loaded) && Ok(copied) && Ok(end) && target > 0
    requires Evolves(marked, loaded) && Evolves(loaded, copied) && Evolves(copied, end)
    ensures var j := SlotOf(target);
            var slot := end.memory.slots[j];
            marked.memory.slots[j].sequence == slot.sequence && slot.sequence % 2 == 0 ==>
              && loaded.memory.slots[j] == copied.memory.slots[j] == slot
              && (slot.frame == target ==>
                    target <= |end.mixer.mixed| && slot.samples == end.mixer.mixed[target - 1])
  {
    var j := SlotOf(target);
    assert SlotEvolves(marked.memory.slots[j], loaded.memory.slots[j]);
    assert SlotEvolves(loaded.memory.slots[j], copied.memory.slots[j]);
    assert SlotEvolves(copied.memory.slots[j], end.memory.slots[j]);
    assert SlotOk(end, j);
  }

  /** An attempt is the load of the publication followed by the look at the slot it calls for. */
  lemma {:induction false} LoadFirst(s: System, load: seq<Choice>, last: nat, target: nat, gaps: Gaps)
    requires Ok(s) && Ok(Run(s, load)) && last < Run(s, load).memory.published
    requires target == Target(last, Run(s, load).memory.published)
    ensures var look := LookOf(Run(s, load), target, gaps);
            AttemptOf(s, last, gaps.(load := load))
            == Try(look.0, Run(s, load).memory.published, if look.1 then Delivered else Abandoned)
  {
  }

  /** Storing consumed_frame keeps the ring's invariant and renews the pacing for the new frame. */
  lemma Acknowledge(s: System, target: nat)
    requires Ok(s) && target <= s.memory.published
    ensures var t := s.(memory := s.memory.(consumed := target));
            && Ok(t)
            && (target > 0 && Paced(s, target - 1) ==> Paced(t, target))
  {
    var t := s.(memory := s.memory.(consumed := target));
    forall j | 0 <= j < SLOTS ensures SlotOk(t, j) {
      assert SlotOk(s, j);
    }
  }
}
