/** The shared framebuffer and Doom's video thread that fills it.

    One slot, guarded by a sequence word that is odd while the slot is being drawn or rewritten.  The
    counter of published frames moves only after the slot has turned even, so a reader can meet a
    slot one frame ahead of the counter.  Every step below is at most one shared store. */
module VideoMemory {
  import opened FrameConvert

  const MAX_PIXELS := 192000

  type Pixels = s: seq<Byte> | |s| == MAX_PIXELS witness seq(MAX_PIXELS, _ => 0)
  type Palette24 = s: seq<Byte> | |s| == PALETTE_BYTES witness seq(PALETTE_BYTES, _ => 0)

  datatype Slot = Slot(sequence: nat, width: nat, height: nat, pitch: nat, palette: Palette24, pixels: Pixels)

  /** A frame as it was when Doom finished drawing it. */
  datatype Frame = Frame(palette: Palette24, pixels: Pixels)

  datatype Memory = Memory(active: nat, counter: nat, slot: Slot)

  /** Where the video thread stands in ConfigureResolution, PublishFrame and BeginFrameWrite. */
  datatype Stage =
    | Clearing
    | Drawing
    | LoadingSequence
    | MarkingOdd(odd: nat)
    | StoringWidth(odd: nat)
    | StoringHeight(odd: nat)
    | StoringPitch(odd: nat)
    | StoringPalette(odd: nat, next: nat)
    | MarkingEven(odd: nat)
    | StoringActive
    | Counting
    | Sleeping

  /** `tall` is the 300-line profile; `frames[n - 1]` is the n-th frame drawn. */
  datatype Writer = Writer(tall: bool, stage: Stage, frames: seq<Frame>)

  datatype Video = Video(memory: Memory, writer: Writer)

  /** What the game decides: one more pixel, or that the frame is finished under this palette. */
  datatype Choice = Store(at: nat, value: Byte) | Finish(palette: Palette24)

  function Height(w: Writer): nat { if w.tall then 300 else 200 }

  function Width(w: Writer): nat { if w.tall then 640 else 426 }

  function Pitch(w: Writer): nat { if w.tall then 640 else 428 }

  /** video.width and video.pitch as ConfigureResolution computes them fit the converter and the slot. */
  lemma Geometry(w: Writer)
    ensures Width(w) == Height(w) * 32 / 15 && Pitch(w) == (Width(w) + 3) / 4 * 4
    ensures Profile(Width(w), Height(w)) && Width(w) <= Pitch(w) && Pitch(w) * Height(w) <= MAX_PIXELS
  {
  }

  function Painted(v: Video, at: nat, value: Byte): Video {
    if at >= MAX_PIXELS then v
    else v.(memory := v.memory.(slot := v.memory.slot.(pixels := v.memory.slot.pixels[at := value])))
  }

  function Guarded(v: Video, sequence: nat, stage: Stage): Video {
    v.(memory := v.memory.(slot := v.memory.slot.(sequence := sequence)), writer := v.writer.(stage := stage))
  }

  function At(v: Video, slot: Slot, stage: Stage): Video {
    v.(memory := v.memory.(slot := slot), writer := v.writer.(stage := stage))
  }

  function VideoStep(v: Video, c: Choice): Video {
    var m, w := v.memory, v.writer;
    match w.stage
    case Clearing =>
      (match c
       case Store(at, value) => Painted(v, at, value)
       case Finish(_) => Guarded(v, m.slot.sequence - m.slot.sequence % 2 + 1, Drawing))
    case Drawing =>
      (match c
       case Store(at, value) => Painted(v, at, value)
       case Finish(palette) =>
         v.(writer := w.(stage := LoadingSequence, frames := w.frames + [Frame(palette, m.slot.pixels)])))
    case LoadingSequence =>
      var loaded := m.slot.sequence;
      v.(writer := w.(stage := if loaded % 2 == 0 then MarkingOdd(loaded + 1) else StoringWidth(loaded)))
    case MarkingOdd(odd) => Guarded(v, odd, StoringWidth(odd))
    case StoringWidth(odd) => At(v, m.slot.(width := Width(w)), StoringHeight(odd))
    case StoringHeight(odd) => At(v, m.slot.(height := Height(w)), StoringPitch(odd))
    case StoringPitch(odd) => At(v, m.slot.(pitch := Pitch(w)), StoringPalette(odd, 0))
    case StoringPalette(odd, next) =>
      if next < PALETTE_BYTES && w.frames != [] then
        var palette := m.slot.palette[next := w.frames[|w.frames| - 1].palette[next]];
        At(v, m.slot.(palette := palette), StoringPalette(odd, next + 1))
      else
        v.(writer := w.(stage := MarkingEven(odd)))
    case MarkingEven(odd) => Guarded(v, odd + 1, StoringActive)
    case StoringActive => v.(memory := m.(active := 0), writer := w.(stage := Counting))
    case Counting => v.(memory := m.(counter := m.counter + 1), writer := w.(stage := Sleeping))
    case Sleeping => Guarded(v, m.slot.sequence - m.slot.sequence % 2 + 1, Drawing)
  }

  // ---------------------------------------------------------------- what every step keeps

  predicate Shown(slot: Slot, w: Writer) {
    slot.width == Width(w) && slot.height == Height(w) && slot.pitch == Pitch(w)
  }

  /** The slot is the newest frame drawn. */
  predicate Holds(slot: Slot, w: Writer) {
    && Shown(slot, w) && w.frames != []
    && slot.palette == w.frames[|w.frames| - 1].palette
    && slot.pixels == w.frames[|w.frames| - 1].pixels
  }

  /** Inside PublishFrame with the slot still odd. */
  predicate Rewriting(m: Memory, w: Writer) {
    && w.frames != [] && m.slot.sequence == 2 * |w.frames| - 1 && m.counter == |w.frames| - 1
    && m.slot.pixels == w.frames[|w.frames| - 1].pixels
  }

  predicate Ok(v: Video) {
    var m, w := v.memory, v.writer;
    && m.active == 0
    && (m.slot.sequence >= 2 ==> Shown(m.slot, w))
    && match w.stage
       case Clearing => m.slot.sequence == 0 && m.counter == 0 && w.frames == []
       case Drawing => m.slot.sequence == 2 * |w.frames| + 1 && m.counter == |w.frames|
       case LoadingSequence => Rewriting(m, w)
       case MarkingOdd(odd) => false
       case StoringWidth(odd) => Rewriting(m, w) && odd == m.slot.sequence
       case StoringHeight(odd) => Rewriting(m, w) && odd == m.slot.sequence && m.slot.width == Width(w)
       case StoringPitch(odd) =>
         && Rewriting(m, w) && odd == m.slot.sequence
         && m.slot.width == Width(w) && m.slot.height == Height(w)
       case StoringPalette(odd, next) =>
         && Rewriting(m, w) && odd == m.slot.sequence && Shown(m.slot, w) && next <= PALETTE_BYTES
         && m.slot.palette[..next] == w.frames[|w.frames| - 1].palette[..next]
       case MarkingEven(odd) => Rewriting(m, w) && odd == m.slot.sequence && Holds(m.slot, w)
       case StoringActive => m.slot.sequence == 2 * |w.frames| && m.counter == |w.frames| - 1 && Holds(m.slot, w)
       case Counting => m.slot.sequence == 2 * |w.frames| && m.counter == |w.frames| - 1 && Holds(m.slot, w)
       case Sleeping => m.slot.sequence == 2 * |w.frames| && m.counter == |w.frames| && Holds(m.slot, w)
  }

  /** What can have changed between an earlier and a later state: an even slot that kept its
      sequence kept everything. */
  predicate Evolves(a: Video, b: Video) {
    && a.memory.slot.sequence <= b.memory.slot.sequence
    && a.memory.counter <= b.memory.counter
    && a.writer.tall == b.writer.tall
    && a.writer.frames <= b.writer.frames
    && (Settled(a, b) ==> b.memory.slot == a.memory.slot)
  }

  predicate Settled(a: Video, b: Video) {
    a.memory.slot.sequence >= 2 && a.memory.slot.sequence % 2 == 0
    && b.memory.slot.sequence == a.memory.slot.sequence
  }

  lemma EvolvesTransitive(a: Video, b: Video, c: Video)
    requires Evolves(a, b) && Evolves(b, c)
    ensures Evolves(a, c)
  {
  }

  lemma PaletteStep(to: Palette24, from: Palette24, next: nat)
    requires next < PALETTE_BYTES && to[..next] == from[..next]
    ensures to[next := from[next]][..next + 1] == from[..next + 1]
  {
    var now := to[next := from[next]];
    assert now[..next] == to[..next];
    assert now[..next + 1] == now[..next] + [from[next]];
    assert from[..next + 1] == from[..next] + [from[next]];
  }

  lemma PaletteStepOk(v: Video, c: Choice)
    requires Ok(v) && v.writer.stage.StoringPalette?
    ensures Ok(VideoStep(v, c)) && Evolves(v, VideoStep(v, c))
  {
    var frame, next := v.writer.frames[|v.writer.frames| - 1], v.writer.stage.next;
    if next < PALETTE_BYTES {
      PaletteStep(v.memory.slot.palette, frame.palette, next);
    } else {
      assert v.memory.slot.palette[..next] == v.memory.slot.palette;
      assert frame.palette[..next] == frame.palette;
    }
  }

  lemma DrawStepOk(v: Video, c: Choice)
    requires Ok(v) && (v.writer.stage.Clearing? || v.writer.stage.Drawing? || v.writer.stage.Sleeping?)
    ensures Ok(VideoStep(v, c)) && Evolves(v, VideoStep(v, c))
  {
  }

  lemma GeometryStepOk(v: Video, c: Choice)
    requires Ok(v) && (v.writer.stage.StoringWidth? || v.writer.stage.StoringHeight? || v.writer.stage.StoringPitch?)
    ensures Ok(VideoStep(v, c)) && Evolves(v, VideoStep(v, c))
  {
  }

  function Fresh(tall: bool, slot: Slot): Video {
    Video(Memory(0, 0, slot.(sequence := 0)), Writer(tall, Clearing, []))
  }

  function Run(v: Video, choices: seq<Choice>): Video {
    if choices == [] then v else VideoStep(Run(v, choices[..|choices| - 1]), choices[|choices| - 1])
  }

  /** Some run of the video thread from its start leads here. */
  ghost predicate Reachable(v: Video) {
    exists tall, slot, choices :: v == Run(Fresh(tall, slot), choices)
  }

  lemma {:induction false} RunOk(v: Video, choices: seq<Choice>)
    requires Ok(v)
    ensures Ok(Run(v, choices)) && Evolves(v, Run(v, choices))
  {
    if choices != [] {
      var before := Run(v, choices[..|choices| - 1]);
      RunOk(v, choices[..|choices| - 1]);
      StepOk(before, choices[|choices| - 1]);
      EvolvesTransitive(v, before, Run(v, choices));
    }
  }

  lemma ReachableOk(v: Video)
    requires Reachable(v)
    ensures Ok(v)
  {
    var tall, slot, choices :| v == Run(Fresh(tall, slot), choices);
    RunOk(Fresh(tall, slot), choices);
  }

  lemma ReachableStep(v: Video, c: Choice)
    requires Reachable(v)
    ensures Reachable(VideoStep(v, c)) && Evolves(v, VideoStep(v, c))
  {
    ReachableOk(v);
    StepOk(v, c);
    var tall, slot, choices :| v == Run(Fresh(tall, slot), choices);
    assert (choices + [c])[..|choices|] == choices;
    assert VideoStep(v, c) == Run(Fresh(tall, slot), choices + [c]);
  }

  /** Slot 0 is always the active one, and from the first publication on it has Doom's geometry. */
  lemma SlotFixed(v: Video)
    requires Reachable(v)
    ensures v.memory.active == 0
    ensures v.memory.slot.sequence >= 2 ==> Shown(v.memory.slot, v.writer)
    ensures v.memory.counter > 0 ==> v.memory.slot.sequence >= 2
  {
    ReachableOk(v);
  }

  /** An even slot shows frame sequence / 2, and the counter is at that frame or one before it. */
  lemma EvenSlot(v: Video)
    requires Reachable(v) && v.memory.slot.sequence % 2 == 0 && v.memory.slot.sequence > 0
    ensures v.memory.slot.sequence == 2 * |v.writer.frames| && Holds(v.memory.slot, v.writer)
    ensures v.memory.counter == |v.writer.frames| || v.memory.counter + 1 == |v.writer.frames|
  {
    ReachableOk(v);
  }

  /** Every step of the video thread keeps the slot and the counter in order. */
  lemma StepOk(v: Video, c: Choice)
    requires Ok(v)
    ensures Ok(VideoStep(v, c)) && Evolves(v, VideoStep(v, c))
  {
    if v.writer.stage.StoringPalette? {
      PaletteStepOk(v, c);
    } else if v.writer.stage.Clearing? || v.writer.stage.Drawing? || v.writer.stage.Sleeping? {
      DrawStepOk(v, c);
    } else if v.writer.stage.StoringWidth? || v.writer.stage.StoringHeight? || v.writer.stage.StoringPitch? {
      GeometryStepOk(v, c);
    } else {
      assert Ok(VideoStep(v, c));
    }
  }
}
