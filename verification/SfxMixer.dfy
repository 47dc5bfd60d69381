/** The sound-effect mixer: resampled voices added into frames of 1024 samples. */
module SfxMixer {

  const SAMPLES := 1024
  const SAMPLE_RATE := 16000
  const MAX_VOICES := 16
  const ONE := 0x1_0000
  const WORD := 0x1_0000_0000

  type Byte = b: int | 0 <= b < 256

  /** struct e1_sfx_voice; `position` and `step` are in 1/65536 of a source sample. */
  datatype Voice = Voice(samples: seq<Byte>, position: nat, step: nat, volume: nat, separation: nat,
                         active: bool, paused: bool)

  predicate VoiceOk(v: Voice) {
    v.volume <= 127 && (v.active ==> v.step > 0 && v.position < |v.samples| * ONE)
  }

  predicate Sounding(v: Voice) { v.active && !v.paused }

  // ---------------------------------------------------------------- one voice

  function Level(b: Byte): int { (b - 128) * 256 }

  /** The source at a fractional position: the straight line between two neighbours, held after the
      last sample. */
  function Interpolated(samples: seq<Byte>, position: nat): (level: int)
    requires position < |samples| * ONE
  {
    var index, fraction := position / ONE, position % ONE;
    var first := Level(samples[index]);
    var second := if index + 1 < |samples| then Level(samples[index + 1]) else first;
    first + (second - first) * fraction / ONE
  }

  /** Division as C does it, toward zero. */
  function Quotient(a: int, b: int): int
    requires b > 0
  {
    if a >= 0 then a / b else -(-a / b)
  }

  /** What a voice adds to the output sample it is at. */
  function Now(v: Voice): int
    requires VoiceOk(v)
  {
    if Sounding(v) then Quotient(Interpolated(v.samples, v.position) * v.volume, 127) else 0
  }

  function Advanced(v: Voice): (next: Voice)
    requires VoiceOk(v)
    ensures VoiceOk(next)
  {
    if Sounding(v) then
      var position := v.position + v.step;
      v.(position := position, active := position / ONE < |v.samples|)
    else v
  }

  /** The voice `n` output samples on. */
  function After(v: Voice, n: nat): (later: Voice)
    requires VoiceOk(v)
    ensures VoiceOk(later)
  {
    if n == 0 then v else Advanced(After(v, n - 1))
  }

  /** The voice's own stream. */
  function SampleAt(v: Voice, n: nat): int
    requires VoiceOk(v)
  {
    Now(After(v, n))
  }

  lemma {:induction false} AfterAdds(v: Voice, a: nat, b: nat)
    requires VoiceOk(v)
    ensures After(After(v, a), b) == After(v, a + b)
  {
    if b > 0 { AfterAdds(v, a, b - 1); }
  }

  /** Interpolation never leaves the interval between the two neighbours. */
  lemma BetweenNeighbours(samples: seq<Byte>, position: nat)
    requires position < |samples| * ONE
    ensures var index := position / ONE;
            var first := Level(samples[index]);
            var second := if index + 1 < |samples| then Level(samples[index + 1]) else first;
            && (first <= second ==> first <= Interpolated(samples, position) <= second)
            && (second <= first ==> second <= Interpolated(samples, position) <= first)
    ensures -32768 <= Interpolated(samples, position) <= 32512
  {
    var index, fraction := position / ONE, position % ONE;
    var first := Level(samples[index]);
    var second := if index + 1 < |samples| then Level(samples[index + 1]) else first;
    Fraction(second - first, fraction);
  }

  lemma Fraction(rise: int, fraction: nat)
    requires fraction < ONE
    ensures rise >= 0 ==> 0 <= rise * fraction / ONE <= rise
    ensures rise <= 0 ==> rise <= rise * fraction / ONE <= 0
  {
    if rise >= 0 {
      assert 0 <= rise * fraction <= rise * ONE;
    } else {
      assert rise * ONE <= rise * fraction <= 0;
    }
  }

  /** One voice never exceeds 16-bit range, so sixteen cannot overflow the 32-bit sum. */
  lemma NowBounded(v: Voice)
    requires VoiceOk(v)
    ensures -32768 <= Now(v) <= 32767
  {
    if Sounding(v) {
      BetweenNeighbours(v.samples, v.position);
      Scaled(Interpolated(v.samples, v.position), v.volume);
    }
  }

  lemma Scaled(level: int, volume: nat)
    requires -32768 <= level <= 32767 && volume <= 127
    ensures -32768 <= Quotient(level * volume, 127) <= 32767
  {
    if level >= 0 {
      assert 0 <= level * volume <= 127 * level;
    } else {
      assert 127 * level <= level * volume <= 0;
    }
  }

  /** Output samples a voice sounds for: ceil(length / step) in 1/65536 units. */
  function Duration(v: Voice): nat
    requires v.step > 0
  {
    (|v.samples| * ONE + v.step - 1) / v.step
  }

  /** A voice from its start sounds for exactly ceil(count * 65536 / step) samples, n-th at n * step. */
  lemma {:induction false} SoundsExactly(v: Voice, n: nat)
    requires VoiceOk(v) && Sounding(v) && v.position == 0
    ensures Sounding(After(v, n)) <==> n < Duration(v)
    ensures Sounding(After(v, n)) <==> n * v.step < |v.samples| * 65536
    ensures Sounding(After(v, n)) ==> After(v, n) == v.(position := n * v.step)
  {
    BeforeEnd(|v.samples| * ONE, v.step, n);
    if n > 0 {
      SoundsExactly(v, n - 1);
      assert (n - 1) * v.step + v.step == n * v.step;
    }
  }

  lemma BeforeEnd(length: nat, step: nat, n: nat)
    requires step > 0
    ensures n * step < length <==> n < (length + step - 1) / step
  {
    var q, r := (length + step - 1) / step, (length + step - 1) % step;
    assert length + step - 1 == q * step + r;
    if n < q {
      assert n * step <= (q - 1) * step;
    } else {
      assert n * step >= q * step;
    }
  }

  /** At step 65536 a voice plays its own samples, one for one. */
  lemma UnityStep(v: Voice, n: nat)
    requires VoiceOk(v) && Sounding(v) && v.position == 0 && v.step == ONE && n < |v.samples|
    ensures SampleAt(v, n) == Quotient(Level(v.samples[n]) * v.volume, 127)
  {
    SoundsExactly(v, n);
  }

  /** A voice that is paused, or not active, adds nothing and stays where it is. */
  lemma {:induction false} Rests(v: Voice, n: nat)
    requires VoiceOk(v) && (v.paused || !v.active)
    ensures SampleAt(v, n) == 0 && After(v, n) == v
  {
    StaysSilent(v, 0, n);
  }

  /** The n-th sample of a voice in numbers: `level` is the point n * step between two neighbours, rounded
      down, and the sample is its volume/127 part, rounded toward zero. */
  lemma {:induction false} SampleExact(v: Voice, n: nat) returns (level: int)
    requires VoiceOk(v) && Sounding(v) && v.position == 0
    ensures n * v.step >= |v.samples| * 65536 ==> SampleAt(v, n) == 0
    ensures n * v.step < |v.samples| * 65536 ==>
              var index, fraction := n * v.step / 65536, n * v.step % 65536;
              var here: int := v.samples[index];
              var next: int := if index + 1 < |v.samples| then v.samples[index + 1] else here;
              && 65536 * level <= 65536 * 256 * (here - 128) + 256 * (next - here) * fraction < 65536 * level + 65536
              && (level >= 0 ==> 127 * SampleAt(v, n) <= level * v.volume < 127 * SampleAt(v, n) + 127)
              && (level < 0 ==> 127 * SampleAt(v, n) - 127 < level * v.volume <= 127 * SampleAt(v, n))
  {
    SoundsExactly(v, n);
    level := 0;
    if n * v.step < |v.samples| * 65536 {
      level := Interpolated(v.samples, n * v.step);
      LineExact(v.samples, n * v.step);
      QuotientExact(level, v.volume);
    }
  }

  lemma LineExact(samples: seq<Byte>, position: nat)
    requires position < |samples| * 65536
    ensures var index, fraction, level := position / 65536, position % 65536, Interpolated(samples, position);
            var here: int := samples[index];
            var next: int := if index + 1 < |samples| then samples[index + 1] else here;
            65536 * level <= 65536 * 256 * (here - 128) + 256 * (next - here) * fraction < 65536 * level + 65536
  {
    var index, fraction := position / 65536, position % 65536;
    var here: int := samples[index];
    var next: int := if index + 1 < |samples| then samples[index + 1] else here;
    assert (256 * (next - here)) * fraction == 256 * (next - here) * fraction;
    RoundedDown(256 * (next - here) * fraction, 256 * (here - 128));
  }

  lemma RoundedDown(rise: int, base: int)
    ensures var level := base + rise / ONE;
            65536 * level <= 65536 * base + rise < 65536 * level + 65536
  {
  }

  lemma QuotientExact(level: int, volume: nat)
    ensures var q := Quotient(level * volume, 127);
            && (level >= 0 ==> 127 * q <= level * volume < 127 * q + 127)
            && (level < 0 ==> 127 * q - 127 < level * volume <= 127 * q)
  {
    if level < 0 { assert level * volume <= 0; } else { assert level * volume >= 0; }
  }

  /** A voice that has stopped stays stopped and adds nothing. */
  lemma {:induction false} StaysSilent(v: Voice, n: nat, m: nat)
    requires VoiceOk(v) && n <= m && !Sounding(After(v, n))
    ensures After(v, m) == After(v, n) && SampleAt(v, m) == 0
  {
    if m > n { StaysSilent(v, n, m - 1); }
  }

  // ---------------------------------------------------------------- all voices

  predicate AllOk(voices: seq<Voice>) {
    forall i :: 0 <= i < |voices| ==> VoiceOk(voices[i])
  }

  function AllAfter(voices: seq<Voice>, n: nat): (later: seq<Voice>)
    requires AllOk(voices)
    ensures |later| == |voices| && AllOk(later)
  {
    seq(|voices|, i requires 0 <= i < |voices| => After(voices[i], n))
  }

  /** The n-th sample of all the voices together. */
  function MixAt(voices: seq<Voice>, n: nat): int
    requires AllOk(voices)
  {
    if voices == [] then 0 else MixAt(voices[..|voices| - 1], n) + SampleAt(voices[|voices| - 1], n)
  }

  function Clip(value: int): int {
    if value > 32767 then 32767 else if value < -32768 then -32768 else value
  }

  /** The one continuous stream the voices make from here on. */
  function Stream(voices: seq<Voice>, length: nat): (samples: seq<int>)
    requires AllOk(voices)
    ensures |samples| == length
  {
    seq(length, n requires 0 <= n < length => Clip(MixAt(voices, n)))
  }

  /** The n-th sample put out: the sum of the voices' samples where it fits 16 bits, else the bound it
      passes. */
  lemma {:induction false} StreamIs(voices: seq<Voice>, length: nat, n: nat)
    requires AllOk(voices) && n < length
    ensures var sum, out := MixAt(voices, n), Stream(voices, length)[n];
            && (-32768 <= sum <= 32767 ==> out == sum)
            && (sum > 32767 ==> out == 32767) && (sum < -32768 ==> out == -32768)
  {
  }

  /** The sum runs over every voice once. */
  lemma {:induction false} MixAppends(a: seq<Voice>, b: seq<Voice>, n: nat)
    requires AllOk(a) && AllOk(b)
    ensures MixAt(a + b, n) == MixAt(a, n) + MixAt(b, n)
  {
    if b == [] {
      assert a + b == a;
    } else {
      assert (a + b)[..|a + b| - 1] == a + b[..|b| - 1];
      MixAppends(a, b[..|b| - 1], n);
    }
  }

  lemma {:induction false} MixOfOne(v: Voice, n: nat)
    requires VoiceOk(v)
    ensures MixAt([v], n) == SampleAt(v, n) && MixAt([], n) == 0
  {
    assert [v][..0] == [];
  }

  lemma {:induction false} MixLater(voices: seq<Voice>, a: nat, n: nat)
    requires AllOk(voices)
    ensures MixAt(AllAfter(voices, a), n) == MixAt(voices, a + n)
  {
    if voices != [] {
      var front, last := voices[..|voices| - 1], voices[|voices| - 1];
      MixLater(front, a, n);
      AfterAdds(last, a, n);
      assert AllAfter(voices, a)[..|voices| - 1] == AllAfter(front, a);
    }
  }

  /** Sixteen voices stay far inside the 32-bit sum. */
  lemma {:induction false} MixBounded(voices: seq<Voice>, n: nat)
    requires AllOk(voices)
    ensures -32768 * |voices| <= MixAt(voices, n) <= 32767 * |voices|
  {
    if voices != [] {
      MixBounded(voices[..|voices| - 1], n);
      NowBounded(After(voices[|voices| - 1], n));
    }
  }

  /** A stream and the stream of the voices it leaves behind are one longer stream. */
  lemma StreamJoins(voices: seq<Voice>, a: nat, b: nat)
    requires AllOk(voices)
    ensures Stream(voices, a) + Stream(AllAfter(voices, a), b) == Stream(voices, a + b)
    ensures AllAfter(AllAfter(voices, a), b) == AllAfter(voices, a + b)
  {
    forall n | 0 <= n < b ensures Stream(AllAfter(voices, a), b)[n] == Stream(voices, a + b)[a + n] {
      MixLater(voices, a, n);
    }
    forall i | 0 <= i < |voices|
      ensures AllAfter(AllAfter(voices, a), b)[i] == AllAfter(voices, a + b)[i]
    {
      AfterAdds(voices[i], a, b);
    }
  }

  // ---------------------------------------------------------------- the mixer

  predicate StartArguments(count: nat, rate: nat, pitch: nat) {
    count >= 2 && 4000 <= rate <= 96000 && pitch != 0
  }

  function AtMost(x: nat, most: nat): nat { if x > most then most else x }

  /** e1_sfx_start_voice: the new voice, or the old one when the arguments are refused. */
  method StartVoice(voice: Voice, samples: seq<Byte>, rate: nat, pitch: nat, volume: nat, separation: nat)
    returns (status: int, started: Voice)
    requires VoiceOk(voice)
    ensures VoiceOk(started)
    ensures status == if StartArguments(|samples|, rate, pitch) && volume != 0 then 0 else -1
    ensures !StartArguments(|samples|, rate, pitch) ==> started == voice
    ensures StartArguments(|samples|, rate, pitch) ==>
              && started.samples == samples && started.position == 0 && !started.paused
              && started.active == (volume != 0) && started.volume == AtMost(volume, 127)
              && started.separation == AtMost(separation, 255) && 0 < started.step < WORD
              && (rate * AtMost(pitch, 255) == SAMPLE_RATE * 128 ==> started.step == ONE)
    // the step is rate / 16000 * pitch / 128 in 1/65536 of a sample, rounded down
    ensures StartArguments(|samples|, rate, pitch) ==>
              var tuned := if pitch > 255 then 255 else pitch;
              2048000 * started.step <= rate * tuned * 65536 < 2048000 * started.step + 2048000
    ensures StartArguments(|samples|, rate, pitch) ==>
              started.volume == (if volume > 127 then 127 else volume)
              && started.separation == if separation > 255 then 255 else separation
  {
    if |samples| < 2 || rate < 4000 || rate > 96000 || pitch == 0 {
      return -1, voice;
    }
    var denominator := SAMPLE_RATE * 128;
    var tuned := rate * AtMost(pitch, 255);
    var numerator := tuned * ONE;
    TunedBounded(rate, AtMost(pitch, 255));
    StepBounded(tuned);
    var step := numerator / denominator;
    if step == 0 { step := 1; }
    started := Voice(samples, 0, step, AtMost(volume, 127), AtMost(separation, 255), AtMost(volume, 127) != 0, false);
    status := if started.active then 0 else -1;
  }

  lemma TunedBounded(rate: nat, pitch: nat)
    requires rate <= 96000 && pitch <= 255
    ensures rate * pitch <= 96000 * 255
    ensures rate >= 4000 && pitch > 0 ==> rate * pitch >= 4000
  {
    assert rate * pitch <= 96000 * pitch;
    if rate >= 4000 && pitch > 0 { assert rate * pitch >= rate * 1; }
  }

  lemma StepBounded(tuned: nat)
    requires tuned <= 96000 * 255
    ensures tuned * ONE / (SAMPLE_RATE * 128) < WORD
    ensures tuned == SAMPLE_RATE * 128 ==> tuned * ONE / (SAMPLE_RATE * 128) == ONE
    ensures tuned >= 4000 ==> tuned * ONE / (SAMPLE_RATE * 128) > 0
  {
  }

  /** One sample of a voice: its value, and the voice moved on. */
  method MixSample(voice: Voice) returns (next: Voice, value: int)
    requires VoiceOk(voice) && Sounding(voice)
    ensures next == Advanced(voice) && value == Now(voice)
  {
    var sourceIndex := voice.position / ONE;
    var fraction := voice.position % ONE;
    var first := (voice.samples[sourceIndex] as int - 128) * 256;
    var second :=
      if sourceIndex + 1 < |voice.samples| then (voice.samples[sourceIndex + 1] as int - 128) * 256 else first;
    var sample := first + (second - first) * fraction / ONE;
    value := Quotient(sample * voice.volume, 127);
    next := voice.(position := voice.position + voice.step);
    if next.position / ONE >= |next.samples| {
      next := next.(active := false);
    }
  }

  /** The inner loop of e1_sfx_mix_frame: one voice added into the sums. */
  method MixVoice(voices: array<Voice>, at: nat, mixed: array<int>)
    requires at < voices.Length && VoiceOk(voices[at]) && Sounding(voices[at]) && mixed.Length == SAMPLES
    modifies voices, mixed
    ensures voices[..] == old(voices[..])[at := After(old(voices[at]), SAMPLES)]
    ensures forall n :: 0 <= n < SAMPLES ==> mixed[n] == old(mixed[n]) + SampleAt(old(voices[at]), n)
  {
    ghost var start, before, table := voices[at], mixed[..], voices[..];
    var index := 0;
    while index < SAMPLES
      invariant 0 <= index <= SAMPLES
      invariant voices[..] == table[at := After(start, index)]
      invariant Sounding(voices[at]) || voices[at].position / ONE >= |voices[at].samples|
      invariant forall n :: 0 <= n < index ==> mixed[n] == before[n] + SampleAt(start, n)
      invariant forall n :: index <= n < SAMPLES ==> mixed[n] == before[n]
    {
      var voice := voices[at];
      var sourceIndex := voice.position / ONE;
      if sourceIndex >= |voice.samples| {
        voices[at] := voice.(active := false);
        break;
      }
      var value;
      voice, value := MixSample(voice);
      mixed[index] := mixed[index] + value;
      voices[at] := voice;
      index := index + 1;
    }
    if index < SAMPLES {
      forall n | index <= n <= SAMPLES ensures After(start, n) == After(start, index) && SampleAt(start, n) == 0 {
        StaysSilent(start, index, n);
      }
    }
  }

  /** e1_sfx_mix_frame over `count` voices from `from` on: the next 1024 samples of their stream. */
  method MixFrame(voices: array<Voice>, from: nat, count: nat, output: array<int>)
    requires from + count <= voices.Length && count <= MAX_VOICES && AllOk(voices[..]) && output.Length == SAMPLES
    modifies voices, output
    ensures voices[..] == old(voices[..from]) + AllAfter(old(voices[from..from + count]), SAMPLES)
                          + old(voices[from + count..])
    ensures output[..] == Stream(old(voices[from..from + count]), SAMPLES)
  {
    ghost var start := voices[from..from + count];
    var mixed := MixVoices(voices, from, count);
    ghost var after := voices[..];
    for n := 0 to SAMPLES
      invariant voices[..] == after
      invariant forall i :: 0 <= i < n ==> output[i] == Clip(MixAt(start, i))
    {
      output[n] := Clip(mixed[n]);
    }
  }

  lemma MixExtends(voices: seq<Voice>, k: nat)
    requires AllOk(voices) && k < |voices|
    ensures AllAfter(voices[..k + 1], SAMPLES) == AllAfter(voices[..k], SAMPLES) + [After(voices[k], SAMPLES)]
    ensures forall n :: MixAt(voices[..k + 1], n) == MixAt(voices[..k], n) + SampleAt(voices[k], n)
  {
    assert voices[..k + 1][..k] == voices[..k];
  }

  lemma {:induction false} RestsThroughout(v: Voice)
    requires VoiceOk(v) && !Sounding(v)
    ensures After(v, SAMPLES) == v
    ensures forall n :: SampleAt(v, n) == 0
  {
    StaysSilent(v, 0, SAMPLES);
    forall n ensures SampleAt(v, n) == 0 {
      StaysSilent(v, 0, n);
    }
  }

  /** The table with the first k voices run on, and with one more. */
  lemma VoiceOn(table: seq<Voice>, from: nat, start: seq<Voice>, k: nat)
    requires AllOk(start) && k < |start| && from + |start| <= |table| && start == table[from..from + |start|]
    ensures var now := table[..from] + AllAfter(start[..k], SAMPLES) + table[from + k..];
            && |now| == |table| && now[from + k] == start[k]
            && now[from + k := After(start[k], SAMPLES)]
               == table[..from] + AllAfter(start[..k + 1], SAMPLES) + table[from + k + 1..]
  {
    MixExtends(start, k);
  }

  /** The outer loop of e1_sfx_mix_frame. */
  method MixVoices(voices: array<Voice>, from: nat, count: nat) returns (mixed: seq<int>)
    requires from + count <= voices.Length && AllOk(voices[..])
    modifies voices
    ensures voices[..] == old(voices[..from]) + AllAfter(old(voices[from..from + count]), SAMPLES)
                          + old(voices[from + count..])
    ensures |mixed| == SAMPLES
    ensures forall n :: 0 <= n < SAMPLES ==> mixed[n] == MixAt(old(voices[from..from + count]), n)
  {
    ghost var start, table := voices[from..from + count], voices[..];
    var sums := new int[SAMPLES](_ => 0);
    for k := 0 to count
      invariant voices[..] == table[..from] + AllAfter(start[..k], SAMPLES) + table[from + k..]
      invariant forall n :: 0 <= n < SAMPLES ==> sums[n] == MixAt(start[..k], n)
    {
      MixExtends(start, k);
      VoiceOn(table, from, start, k);
      var voice := voices[from + k];
      if !voice.active || voice.paused {
        RestsThroughout(voice);
        assert voices[..] == voices[..][from + k := voice];
      } else {
        MixVoice(voices, from + k, sums);
      }
    }
    assert start[..count] == start;
    mixed := sums[..];
  }

  /** Successive frames are one continuous stream. */
  method MixFrames(voices: array<Voice>, frames: nat) returns (samples: seq<int>)
    requires voices.Length <= MAX_VOICES && AllOk(voices[..])
    modifies voices
    ensures samples == Stream(old(voices[..]), frames * SAMPLES)
    ensures voices[..] == AllAfter(old(voices[..]), frames * SAMPLES)
  {
    ghost var start := voices[..];
    samples := [];
    assert AllAfter(start, 0) == start;
    for frame := 0 to frames
      invariant voices[..] == AllAfter(start, frame * SAMPLES)
      invariant samples == Stream(start, frame * SAMPLES)
    {
      var output := new int[SAMPLES];
      StreamJoins(start, frame * SAMPLES, SAMPLES);
      assert voices[0..voices.Length] == voices[..];
      MixFrame(voices, 0, voices.Length, output);
      assert voices[0..voices.Length] == voices[..];
      samples := samples + output[..];
    }
  }
}
