/** The music's rate converter: native samples of the OPL chip, rendered in blocks, held across the
    16 kHz output. */
module RateConverter {

  const OUTPUT_RATE := 16000
  const CLOCK_HZ := 3579552
  const STRIDE := 4
  const ENGINE_RATE := 12429
  const OUTPUT_BLOCK := 256
  const NATIVE_BLOCK := 199

  /** The two derived rates, as the code derives them. */
  lemma Rates()
    ensures ENGINE_RATE == CLOCK_HZ / 72 / STRIDE
    ensures NATIVE_BLOCK == ENGINE_RATE * OUTPUT_BLOCK / OUTPUT_RATE + 1
  {
  }

  /** The chip as an endless stream of native samples: how a request is split does not matter to it. */
  type Chip = nat -> int

  /** (int16_t)(uint16_t) of a native sample. */
  function Low16(sample: int): (value: int)
    ensures -32768 <= value < 32768
  {
    var low := sample % 0x1_0000;
    if low < 32768 then low else low - 0x1_0000
  }

  function Sum(chip: Chip, from: nat, count: nat): int {
    if count == 0 then 0 else Sum(chip, from, count - 1) + Low16(chip(from + count - 1))
  }

  /** Division as C does it, toward zero. */
  function Quotient(a: int, b: int): int
    requires b > 0
  {
    if a >= 0 then a / b else -(-a / b)
  }

  /** Where the chip stands, the carried phase and the sample being held. */
  datatype State = State(position: nat, phase: nat, previous: int)

  predicate StateOk(s: State) { s.phase < OUTPUT_RATE }

  /** One output sample. */
  function Next(chip: Chip, s: State): (next: State)
    requires StateOk(s)
    ensures StateOk(next) && s.position <= next.position
  {
    var phase := s.phase + ENGINE_RATE;
    var count := phase / OUTPUT_RATE;
    var held := if count == 0 then s.previous else Quotient(Sum(chip, s.position, count), count);
    State(s.position + count, phase % OUTPUT_RATE, held)
  }

  function Run(chip: Chip, s: State, n: nat): (later: State)
    requires StateOk(s)
    ensures StateOk(later)
  {
    if n == 0 then s else Next(chip, Run(chip, s, n - 1))
  }

  /** Both channels of n output samples. */
  function Output(chip: Chip, s: State, n: nat): (samples: seq<int>)
    requires StateOk(s)
    ensures |samples| == 2 * n
  {
    if n == 0 then []
    else
      var held := Run(chip, s, n).previous;
      Output(chip, s, n - 1) + [held, held]
  }

  /** However the stream is cut into calls, state and output are the same. */
  lemma {:induction false} RunSplits(chip: Chip, s: State, a: nat, b: nat)
    requires StateOk(s)
    ensures Run(chip, Run(chip, s, a), b) == Run(chip, s, a + b)
    ensures Output(chip, s, a) + Output(chip, Run(chip, s, a), b) == Output(chip, s, a + b)
  {
    if b > 0 {
      RunSplits(chip, s, a, b - 1);
      var held := Run(chip, s, a + b).previous;
      Associative(Output(chip, s, a), Output(chip, Run(chip, s, a), b - 1), [held, held]);
    }
  }

  lemma Joined(chip: Chip, s: State, a: nat, middle: State, b: nat, first: seq<int>, second: seq<int>)
    requires StateOk(s) && middle == Run(chip, s, a)
    requires first == Output(chip, s, a) && second == Output(chip, middle, b)
    ensures Run(chip, middle, b) == Run(chip, s, a + b) && first + second == Output(chip, s, a + b)
  {
    RunSplits(chip, s, a, b);
  }

  /** One more output sample, from the values of the code's own variables. */
  lemma OneSample(chip: Chip, s: State, n: nat, position: nat, phase: nat, previous: int, output: seq<int>)
    requires StateOk(s) && Run(chip, s, n) == State(position, phase, previous) && output == Output(chip, s, n)
    ensures var count := (phase + ENGINE_RATE) / OUTPUT_RATE;
            var held := if count == 0 then previous else Quotient(Sum(chip, position, count), count);
            && Run(chip, s, n + 1) == State(position + count, (phase + ENGINE_RATE) % OUTPUT_RATE, held)
            && output + [held, held] == Output(chip, s, n + 1)
  {
  }

  lemma OutputNext(chip: Chip, s: State, n: nat, output: seq<int>, next: State)
    requires StateOk(s) && next == Run(chip, s, n + 1) && output == Output(chip, s, n)
    ensures output + [next.previous, next.previous] == Output(chip, s, n + 1)
  {
  }

  lemma Associative(a: seq<int>, b: seq<int>, c: seq<int>)
    ensures a + (b + c) == (a + b) + c
  {
  }

  /** The phase steps add up: n output samples take exactly the native samples asked for in bulk. */
  lemma {:induction false} BulkRequest(chip: Chip, s: State, n: nat)
    requires StateOk(s)
    ensures var requested := s.phase + ENGINE_RATE * n;
            && Run(chip, s, n).position == s.position + requested / OUTPUT_RATE
            && Run(chip, s, n).phase == requested % OUTPUT_RATE
  {
    if n > 0 {
      BulkRequest(chip, s, n - 1);
      Carry(s.phase + ENGINE_RATE * (n - 1));
    }
  }

  lemma Carry(requested: nat)
    ensures (requested + ENGINE_RATE) / OUTPUT_RATE
            == requested / OUTPUT_RATE + (requested % OUTPUT_RATE + ENGINE_RATE) / OUTPUT_RATE
    ensures (requested + ENGINE_RATE) % OUTPUT_RATE == (requested % OUTPUT_RATE + ENGINE_RATE) % OUTPUT_RATE
  {
  }

  /** A block never asks for more than the native buffer holds. */
  lemma BlockFits(phase: nat, count: nat)
    requires phase < OUTPUT_RATE && count <= OUTPUT_BLOCK
    ensures (phase + ENGINE_RATE * count) / OUTPUT_RATE <= NATIVE_BLOCK
  {
  }

  /** The sample held is always the last native sample taken. */
  lemma {:induction false} HoldsLast(chip: Chip, s: State, n: nat)
    requires StateOk(s)
    ensures var r := Run(chip, s, n);
            && s.position <= r.position
            && r.previous == if r.position == s.position then s.previous else Low16(chip(r.position - 1))
  {
    if n > 0 {
      HoldsLast(chip, s, n - 1);
      NextIs(chip, s, n);
      Single(chip, Run(chip, s, n - 1), Run(chip, s, n));
    }
  }

  /** What is heard: output sample n - 1 is the last native sample due by then, so no native sample is
      skipped or averaged away. */
  lemma {:induction false} HoldsNewest(chip: Chip, s: State, n: nat)
    requires StateOk(s)
    ensures var due := (s.phase + ENGINE_RATE * n) / OUTPUT_RATE;
            Run(chip, s, n).previous == if due == 0 then s.previous else Low16(chip(s.position + due - 1))
  {
    HoldsLast(chip, s, n);
    BulkRequest(chip, s, n);
  }

  /** The 16-bit value of a native sample differs from it by a multiple of 65536. */
  lemma Low16Exact(sample: int)
    ensures (Low16(sample) - sample) % 65536 == 0 && -32768 <= Low16(sample) <= 32767
  {
  }

  /** Both channels of every output sample. */
  lemma {:induction false} OutputIs(chip: Chip, s: State, n: nat, k: nat)
    requires StateOk(s) && k < n
    ensures var due := (s.phase + 12429 * (k + 1)) / 16000;
            Output(chip, s, n)[2 * k] == Output(chip, s, n)[2 * k + 1]
            == if due == 0 then s.previous else Low16(chip(s.position + due - 1))
    decreases n
  {
    if k + 1 == n { HoldsNewest(chip, s, n); } else { OutputIs(chip, s, n - 1, k); }
  }

  lemma NextIs(chip: Chip, s: State, n: nat)
    requires StateOk(s) && n > 0
    ensures Run(chip, s, n) == Next(chip, Run(chip, s, n - 1))
  {
  }

  lemma Single(chip: Chip, s: State, next: State)
    requires StateOk(s) && next == Next(chip, s)
    ensures || (next.position == s.position && next.previous == s.previous)
            || (next.position == s.position + 1 && next.previous == Low16(chip(s.position)))
  {
    assert Sum(chip, s.position, 1) == Sum(chip, s.position, 0) + Low16(chip(s.position));
  }

  lemma {:induction false} RunRises(chip: Chip, s: State, a: nat, b: nat)
    requires StateOk(s) && a <= b
    ensures Run(chip, s, a).position <= Run(chip, s, b).position
  {
    if a < b { RunRises(chip, s, a, b - 1); }
  }

  /** No output sample of a block needs a native sample beyond those rendered for it. */
  lemma {:induction false} Within(chip: Chip, s: State, n: nat, count: nat)
    requires StateOk(s) && n <= count
    ensures s.position <= Run(chip, s, n).position
            <= s.position + (s.phase + ENGINE_RATE * count) / OUTPUT_RATE
  {
    BulkRequest(chip, s, n);
    BulkRequest(chip, s, count);
    RunRises(chip, s, n, count);
  }

  class OplOutput {
    const chip: Chip
    var position: nat
    const nativeBuffer: array<int>
    var sourceRemainder: nat
    var previousSample: int

    ghost predicate Valid()
      reads this
    {
      nativeBuffer.Length == NATIVE_BLOCK && sourceRemainder < OUTPUT_RATE
    }

    ghost function Now(): State
      reads this
    {
      State(position, sourceRemainder, previousSample)
    }

    constructor (chip: Chip)
      ensures Valid() && Now() == State(0, 0, 0) && fresh(nativeBuffer) && this.chip == chip
    {
      this.chip := chip;
      nativeBuffer := new int[NATIVE_BLOCK](_ => 0);
      position, sourceRemainder, previousSample := 0, 0, 0;
    }

    /** OPL_calc_buffer_stereo */
    method CalcBuffer(count: nat)
      requires Valid() && count <= NATIVE_BLOCK
      modifies this`position, nativeBuffer
      ensures position == old(position) + count
      ensures forall i :: 0 <= i < count ==> nativeBuffer[i] == chip(old(position) + i)
    {
      for i := 0 to count
        invariant position == old(position)
        invariant forall k :: 0 <= k < i ==> nativeBuffer[k] == chip(position + k)
      {
        nativeBuffer[i] := chip(position + i);
      }
      position := position + count;
    }

    /** GenerateOutput; the assertion the code carries is proved in GenerateBlock. */
    method GenerateOutput(outputSamples: nat) returns (output: seq<int>)
      requires Valid()
      modifies this`position, this`sourceRemainder, this`previousSample, nativeBuffer
      ensures Valid() && Now() == Run(chip, old(Now()), outputSamples)
      ensures output == Output(chip, old(Now()), outputSamples)
    {
      output := [];
      var left: nat := outputSamples;
      ghost var start, done := Now(), 0;
      while left != 0
        invariant Valid() && done + left == outputSamples
        invariant Now() == Run(chip, start, done)
        invariant output == Output(chip, start, done)
      {
        ghost var middle := Now();
        var count: nat := if left < OUTPUT_BLOCK then left else OUTPUT_BLOCK;
        var block := GenerateBlock(count);
        Joined(chip, start, done, middle, count, output, block);
        output := output + block;
        left := left - count;
        done := done + count;
      }
    }

    /** One round of GenerateOutput. */
    method GenerateBlock(count: nat) returns (output: seq<int>)
      requires Valid() && count <= OUTPUT_BLOCK
      modifies this`position, this`sourceRemainder, this`previousSample, nativeBuffer
      ensures Valid() && Now() == Run(chip, old(Now()), count)
      ensures output == Output(chip, old(Now()), count)
    {
      ghost var start := Now();
      var phase := sourceRemainder;
      var requested := phase + ENGINE_RATE * count;
      var nativeSamples := requested / OUTPUT_RATE;
      BlockFits(phase, count);
      BulkRequest(chip, start, count);
      CalcBuffer(nativeSamples);
      var nativeIndex;
      output, nativeIndex, phase := HoldBlock(count, phase, start, nativeSamples);
      assert nativeIndex == nativeSamples;
      sourceRemainder := phase;
    }

    /** The loop over the output samples of one block. */
    method HoldBlock(count: nat, startPhase: nat, ghost start: State, ghost nativeSamples: nat)
      returns (output: seq<int>, nativeIndex: nat, phase: nat)
      requires Valid() && StateOk(start) && startPhase == start.phase && previousSample == start.previous
      requires nativeSamples == (start.phase + ENGINE_RATE * count) / OUTPUT_RATE <= NATIVE_BLOCK
      requires forall i :: 0 <= i < nativeSamples ==> nativeBuffer[i] == chip(start.position + i)
      modifies this`previousSample
      ensures Run(chip, start, count) == State(start.position + nativeIndex, phase, previousSample)
      ensures output == Output(chip, start, count)
    {
      output, nativeIndex, phase := [], 0, startPhase;
      for sample := 0 to count
        invariant Run(chip, start, sample) == State(start.position + nativeIndex, phase, previousSample)
        invariant output == Output(chip, start, sample)
      {
        nativeIndex, phase := OutputSample(nativeIndex, phase, start, sample, count, nativeSamples);
        OutputNext(chip, start, sample, output, Run(chip, start, sample + 1));
        output := output + [previousSample, previousSample];
      }
    }

    /** The inner loop's round up to the store. */
    method OutputSample(nativeIndex: nat, phase: nat, ghost start: State, ghost sample: nat, ghost count: nat,
                        ghost nativeSamples: nat) returns (nextIndex: nat, nextPhase: nat)
      requires Valid() && StateOk(start) && sample < count
      requires nativeSamples == (start.phase + ENGINE_RATE * count) / OUTPUT_RATE <= NATIVE_BLOCK
      requires forall i :: 0 <= i < nativeSamples ==> nativeBuffer[i] == chip(start.position + i)
      requires Run(chip, start, sample) == State(start.position + nativeIndex, phase, previousSample)
      modifies this`previousSample
      ensures Run(chip, start, sample + 1) == State(start.position + nextIndex, nextPhase, previousSample)
    {
      OneSample(chip, start, sample, start.position + nativeIndex, phase, previousSample, Output(chip, start, sample));
      Within(chip, start, sample + 1, count);
      var begin := nativeIndex;
      nextPhase := phase + ENGINE_RATE;
      nextIndex := nativeIndex + nextPhase / OUTPUT_RATE;
      nextPhase := nextPhase % OUTPUT_RATE;
      Hold(begin, nextIndex - begin, start.position);
    }

    /** The average of the native samples due at one output sample, if there are any. */
    method Hold(begin: nat, sourceCount: nat, ghost from: nat)
      requires Valid() && begin + sourceCount <= NATIVE_BLOCK
      requires forall i :: 0 <= i < begin + sourceCount ==> nativeBuffer[i] == chip(from + i)
      modifies this`previousSample
      ensures previousSample == if sourceCount == 0 then old(previousSample)
                                else Quotient(Sum(chip, from + begin, sourceCount), sourceCount)
    {
      if sourceCount != 0 {
        var sum := 0;
        for at := begin to begin + sourceCount
          invariant sum == Sum(chip, from + begin, at - begin)
        {
          sum := sum + Low16(nativeBuffer[at]);
        }
        previousSample := Quotient(sum, sourceCount);
      }
    }

    /** Any partition of the stream into calls yields the stream of one call. */
    method GenerateParts(parts: seq<nat>) returns (output: seq<int>)
      requires Valid()
      modifies this`position, this`sourceRemainder, this`previousSample, nativeBuffer
      ensures Valid() && Now() == Run(chip, old(Now()), Total(parts))
      ensures output == Output(chip, old(Now()), Total(parts))
    {
      output := [];
      ghost var start := Now();
      for i := 0 to |parts|
        invariant Valid() && Now() == Run(chip, start, Total(parts[..i]))
        invariant output == Output(chip, start, Total(parts[..i]))
      {
        assert parts[..i + 1][..i] == parts[..i];
        ghost var middle := Now();
        var part := GenerateOutput(parts[i]);
        Joined(chip, start, Total(parts[..i]), middle, parts[i], output, part);
        output := output + part;
      }
      assert parts[..|parts|] == parts;
    }
  }

  function Total(parts: seq<nat>): nat {
    if parts == [] then 0 else Total(parts[..|parts| - 1]) + parts[|parts| - 1]
  }

}
