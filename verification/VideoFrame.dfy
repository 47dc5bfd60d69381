/** The worker's side of the shared framebuffer: opening it, and turning its newest stable frame into
    an overlay image, with Doom's video thread free to run between any two of the worker's loads. */
module VideoFrame {
  import opened FrameConvert
  import opened VideoMemory

  /** `output` is the scaled image of a frame. */
  ghost predicate IsImage(output: seq<nat>, frame: Frame, w: Writer) {
    |output| == WIDTH * HEIGHT && RowsOf(output, HEIGHT, frame.pixels, Width(w), Height(w), Pitch(w), frame.palette)
  }

  /** `output` is the image of frame `shown`, which was accepted under the number `number`. */
  ghost predicate ImageIs(output: seq<nat>, shown: nat, number: nat, w: Writer) {
    (shown == number || shown == number + 1) && 0 < shown <= |w.frames| && IsImage(output, w.frames[shown - 1], w)
  }

  ghost predicate RowsOf(output: seq<nat>, rows: nat, pixels: Pixels, width: nat, height: nat, pitch: nat,
                         palette: Palette24)
    requires |output| == WIDTH * HEIGHT && rows <= HEIGHT
  {
    && Profile(width, height) && width <= pitch && pitch * height <= MAX_PIXELS
    && forall y :: 0 <= y < rows ==>
         output[y * WIDTH..y * WIDTH + WIDTH] == ScaledRow(pixels, width, height, pitch, palette, y)
  }

  /** What an image of a frame shows at (x, y). */
  lemma ImageShows(output: seq<nat>, frame: Frame, w: Writer, x: nat, y: nat)
    requires IsImage(output, frame, w) && x < 640 && y < 360
    ensures PixelShows(output, frame.pixels, Width(w), Height(w), Pitch(w), frame.palette, x, y)
  {
    RowShows(output, frame.pixels, Width(w), Height(w), Pitch(w), frame.palette, x, y);
  }

  lemma RowsExtend(before: seq<nat>, now: seq<nat>, y: nat, pixels: Pixels, width: nat, height: nat, pitch: nat,
                   palette: Palette24)
    requires |before| == |now| == WIDTH * HEIGHT && y < HEIGHT
    requires RowsOf(before, y, pixels, width, height, pitch, palette)
    requires now == Spliced(before, y * WIDTH, ScaledRow(pixels, width, height, pitch, palette, y))
    ensures RowsOf(now, y + 1, pixels, width, height, pitch, palette)
  {
    RowsKept(before, y, now);
  }

  lemma CopiedRow(before: seq<nat>, now: seq<nat>, y: nat, pixels: Pixels, width: nat, height: nat, pitch: nat,
                  palette: Palette24)
    requires |before| == |now| == WIDTH * HEIGHT && 0 < y < HEIGHT
    requires RowsOf(before, y, pixels, width, height, pitch, palette)
    requires MapY(y, height) == MapY(y - 1, height)
    requires now == Spliced(before, y * WIDTH, before[y * WIDTH - WIDTH..y * WIDTH])
    ensures RowsOf(now, y + 1, pixels, width, height, pitch, palette)
  {
    SameSourceRow(pixels, width, height, pitch, palette, y);
    assert before[y * WIDTH - WIDTH..y * WIDTH] == before[(y - 1) * WIDTH..(y - 1) * WIDTH + WIDTH];
    RowsExtend(before, now, y, pixels, width, height, pitch, palette);
  }

  lemma ExpandedRow(before: seq<nat>, now: seq<nat>, y: nat, pixels: Pixels, width: nat, height: nat, pitch: nat,
                    palette: Palette24, words: seq<nat>, columns: seq<nat>)
    requires |before| == |now| == WIDTH * HEIGHT && y < HEIGHT
    requires RowsOf(before, y, pixels, width, height, pitch, palette)
    requires Palette(words) && Converted(palette, words) && IsXMap(width, columns)
    requires Picks(columns, MapY(y, height) * pitch, MAX_PIXELS)
    requires now == Spliced(before, y * WIDTH, Expanded(words, pixels, MapY(y, height) * pitch, columns))
    ensures RowsOf(now, y + 1, pixels, width, height, pitch, palette)
  {
    KernelRow(pixels, width, height, pitch, palette, words, columns, y);
    RowsExtend(before, now, y, pixels, width, height, pitch, palette);
  }

  /** e1_frame_sequence_drops, in 32-bit arithmetic. */
  function Drops(previous: nat, current: nat): nat {
    if previous == 0 then 0
    else
      var delta := (current - previous) % WORD;
      if delta <= 1 || delta >= 0x8000_0000 then 0 else delta - 1
  }

  /** The count is the number of frames passed over exactly when fewer than 2^31 went by. */
  lemma DropsExact(previous: nat, current: nat)
    requires 0 < previous < current < WORD
    ensures Drops(previous, current) == current - previous - 1
            <==> current == previous + 1 || current - previous < 0x8000_0000
    ensures current - previous >= 0x8000_0000 ==> Drops(previous, current) == 0
    ensures Drops(0, current) == 0 && Drops(current, current) == 0
  {
  }

  /** Strictly increasing frame numbers, all above `base`. */
  predicate Rising(numbers: seq<nat>, base: nat) {
    && (forall k :: 0 <= k < |numbers| ==> base < numbers[k])
    && (forall k, l :: 0 <= k < l < |numbers| ==> numbers[k] < numbers[l])
  }

  /** What an even slot converts to is the newest frame, numbered by the counter or one above it. */
  lemma ImageOf(seen: Video, now: Video, output: seq<nat>, number: nat)
    requires Reachable(seen) && Settled(seen, seen) && Evolves(seen, now) && seen.memory.counter == number
    requires |output| == WIDTH * HEIGHT
    requires RowsOf(output, HEIGHT, seen.memory.slot.pixels, Width(seen.writer), Height(seen.writer),
                    Pitch(seen.writer), seen.memory.slot.palette)
    ensures ImageIs(output, seen.memory.slot.sequence / 2, number, now.writer)
  {
    EvenSlot(seen);
    assert now.writer.frames[..|seen.writer.frames|] == seen.writer.frames;
  }

  /** Accepted frames and counted drops add up to the numbers passed since a nonzero baseline. */
  predicate Tally(base: nat, last: nat, accepted: nat, drops: int) {
    base > 0 && last - base < 0x8000_0000 ==> accepted + drops == last - base
  }

  lemma TallyStep(base: nat, last: nat, next: nat, accepted: nat, drops: int)
    requires base <= last < next && Tally(base, last, accepted, drops)
    ensures Tally(base, next, accepted + 1, drops + Drops(last, next))
  {
  }

  lemma RisingAppends(numbers: seq<nat>, base: nat, next: nat)
    requires Rising(numbers, base)
    requires next > if numbers == [] then base else numbers[|numbers| - 1]
    ensures Rising(numbers + [next], base)
  {
  }

  /** What a call of convert_doom_frame does when the video thread stands still: the frame accepted
      and its number. */
  datatype Look = None | Accepted(number: nat, shown: nat)

  function LookAtRest(v: Video, last: nat): Look {
    if v.memory.counter == 0 || v.memory.counter == last || v.memory.slot.sequence % 2 == 1 then None
    else Accepted(v.memory.counter, v.memory.slot.sequence / 2)
  }

  /** Which number an accepted frame carries: its own if and only if the slot's sequence is twice the
      counter, that is, once the counter has followed the slot; before that, the number of the frame
      before it. */
  lemma NumberExact(v: Video, last: nat)
    requires Reachable(v) && LookAtRest(v, last).Accepted?
    ensures var look := LookAtRest(v, last);
            && (look.shown == look.number <==> v.memory.slot.sequence == 2 * v.memory.counter)
            && (look.shown == look.number <==> v.writer.stage.Sleeping?)
            && (look.shown == look.number + 1 <==> v.writer.stage.StoringActive? || v.writer.stage.Counting?)
  {
    ReachableOk(v);
  }

  /** A reader that accepts twice never goes back, and takes one frame twice if and only if it took it
      first before the counter had followed the slot and again right after. */
  lemma TwiceExact(v: Video, w: Video, last: nat)
    requires Reachable(v) && Reachable(w) && Evolves(v, w)
    requires LookAtRest(v, last).Accepted? && LookAtRest(w, v.memory.counter).Accepted?
    ensures var first, second := LookAtRest(v, last), LookAtRest(w, v.memory.counter);
            && first.shown <= second.shown
            && (first.shown == second.shown
                <==> !v.writer.stage.Sleeping? && w.memory.slot.sequence == v.memory.slot.sequence)
            && (first.shown == second.shown ==>
                  second.number == first.number + 1 == first.shown && w.writer.stage.Sleeping?)
  {
    ReachableOk(v);
    ReachableOk(w);
  }

  /** Both ways of being numbered happen to the same frame, from every state with the slot even and the
      counter not yet moved: `after` is the state in which it has. */
  lemma SameFrameTwice(v: Video, last: nat, c: Choice, d: Choice) returns (after: Video)
    requires Reachable(v) && (v.writer.stage.StoringActive? || v.writer.stage.Counting?)
    ensures after == VideoStep(if v.writer.stage.StoringActive? then VideoStep(v, c) else v, d)
    ensures Reachable(after) && Evolves(v, after)
    ensures var number := v.memory.counter;
            && LookAtRest(v, last) == (if number == 0 || number == last then None else Accepted(number, number + 1))
            && LookAtRest(after, number) == Accepted(number + 1, number + 1)
  {
    ReachableOk(v);
    var counting := if v.writer.stage.StoringActive? then VideoStep(v, c) else v;
    ReachableStep(v, c);
    after := VideoStep(counting, d);
    ReachableStep(counting, d);
    EvolvesTransitive(v, counting, after);
    ReachableOk(after);
  }

  /** The frames shown are numbered with their own number or the one before. */
  predicate Labelled(numbers: seq<nat>, shown: seq<nat>) {
    |shown| == |numbers| && forall k :: 0 <= k < |shown| ==> shown[k] == numbers[k] || shown[k] == numbers[k] + 1
  }

  /** No accepted frame is older than an earlier one, and one is the same as an earlier one exactly
      when it is the very next, carries its own number, and the earlier one carried the number before. */
  predicate NeverBack(numbers: seq<nat>, shown: seq<nat>)
    requires |numbers| == |shown|
  {
    forall i, j :: 0 <= i < j < |shown| ==>
      && shown[i] <= shown[j]
      && (shown[i] == shown[j] <==> j == i + 1 && shown[i] == numbers[i] + 1 == numbers[j] == shown[j])
  }

  lemma NumbersForward(numbers: seq<nat>, shown: seq<nat>, base: nat)
    requires Rising(numbers, base) && Labelled(numbers, shown)
    ensures NeverBack(numbers, shown)
  {
    forall i, j | 0 <= i < j < |shown|
      ensures shown[i] <= shown[j]
      ensures shown[i] == shown[j] <==> j == i + 1 && shown[i] == numbers[i] + 1 == numbers[j] == shown[j]
    {
      if j > i + 1 { assert numbers[i] < numbers[i + 1] < numbers[j]; }
    }
  }

  class Worker {
    var video: Video

    // struct media_state
    var sourceWidth: nat
    var sourceHeight: nat
    var xMap: seq<nat>
    var yMap: seq<nat>
    var lastFrameSequence: nat
    var videoRetries: nat
    var sourceDrops: nat
    var sourceFrames: nat

    ghost predicate Valid()
      reads this
    {
      && Reachable(video)
      && lastFrameSequence <= video.memory.counter
      && (Profile(sourceWidth, sourceHeight) ==> MapsFor(sourceWidth, sourceHeight, xMap, yMap))
    }

    /** The source was opened at the resolution Doom draws in. */
    ghost predicate Opened()
      reads this
    {
      sourceWidth == Width(video.writer) && sourceHeight == Height(video.writer)
    }

    constructor (tall: bool, slot: Slot)
      ensures Valid() && video == Fresh(tall, slot) && lastFrameSequence == 0
    {
      video := Fresh(tall, slot);
      sourceWidth, sourceHeight, xMap, yMap := 0, 0, [], [];
      lastFrameSequence, videoRetries, sourceDrops, sourceFrames := 0, 0, 0, 0;
      new;
      assert video == Run(Fresh(tall, slot), []);
    }

    /** The video thread runs for a while. */
    method Interfere(ghost start: Video)
      requires Reachable(video) && Evolves(start, video)
      modifies this`video
      ensures Reachable(video) && Evolves(start, video) && Evolves(old(video), video)
    {
      ghost var before := video;
      var steps: nat := *;
      while steps > 0
        invariant Reachable(video) && Evolves(before, video)
      {
        var finish: bool := *;
        var at: nat, value: Byte, palette: Palette24 := *, *, *;
        ReachableStep(video, if finish then Finish(palette) else Store(at, value));
        video := VideoStep(video, if finish then Finish(palette) else Store(at, value));
        steps := steps - 1;
      }
      EvolvesTransitive(start, before, video);
    }

    /** The slot is still as it was at `start`. */
    ghost predicate Steady(start: Video)
      reads this`video
    {
      video.memory.slot.sequence == start.memory.slot.sequence
    }

    method LoadPixel(at: nat, ghost start: Video) returns (pixel: Byte)
      requires Reachable(video) && Evolves(start, video) && Settled(start, start) && at < MAX_PIXELS
      modifies this`video
      ensures Reachable(video) && Evolves(start, video) && Evolves(old(video), video)
      ensures Steady(start) ==> pixel == start.memory.slot.pixels[at]
    {
      Interfere(start);
      pixel := video.memory.slot.pixels[at];
    }

    /** e1_palette_to_argb4444 of one entry, a byte at a time. */
    method LoadColour(index: nat, ghost start: Video) returns (colour: nat)
      requires Reachable(video) && Evolves(start, video) && Settled(start, start) && index < 256
      modifies this`video
      ensures Reachable(video) && Evolves(start, video) && Evolves(old(video), video)
      ensures colour < WORD
      ensures Steady(start) ==> colour == Argb(start.memory.slot.palette, index)
    {
      ghost var entry := video;
      Interfere(start);
      var red: int := video.memory.slot.palette[3 * index];
      ghost var second := video;
      Interfere(start);
      EvolvesTransitive(entry, second, video);
      var green: int := video.memory.slot.palette[3 * index + 1];
      ghost var third := video;
      Interfere(start);
      EvolvesTransitive(entry, third, video);
      var blue: int := video.memory.slot.palette[3 * index + 2];
      colour := 0xf000 + red / 16 * 256 + green / 16 * 16 + blue / 16;
    }

    /** A row kernel reading the shared pixels. */
    method ExpandRow(output: array<nat>, to: nat, from: nat, picks: seq<nat>, words: seq<nat>, ghost start: Video)
      requires Reachable(video) && Evolves(start, video) && Settled(start, start)
      requires |picks| == WIDTH && to + WIDTH <= output.Length && Palette(words)
      requires Picks(picks, from, MAX_PIXELS)
      modifies this`video, output
      ensures Reachable(video) && Evolves(start, video) && old(video).memory.slot.sequence <= video.memory.slot.sequence
      ensures Steady(start) ==>
                output[..] == Spliced(old(output[..]), to, Expanded(words, start.memory.slot.pixels, from, picks))
    {
      ghost var before, entry := output[..], video.memory.slot.sequence;
      ghost var row := Expanded(words, start.memory.slot.pixels, from, picks);
      for x := 0 to WIDTH
        invariant Reachable(video) && Evolves(start, video) && entry <= video.memory.slot.sequence
        invariant Steady(start) ==> forall k :: 0 <= k < x ==> output[to + k] == row[k]
        invariant forall i :: 0 <= i < output.Length && !(to <= i < to + x) ==> output[i] == before[i]
      {
        var pixel := LoadPixel(from + picks[x], start);
        output[to + x] := words[pixel] % HALF;
      }
      if Steady(start) { SplicedIs(before, to, row, output[..]); }
    }

    /** The palette conversion at the head of e1_convert_indexed_argb4444, a byte at a time. */
    method LoadPalette(ghost start: Video) returns (words: seq<nat>)
      requires Reachable(video) && Evolves(start, video) && Settled(start, start)
      modifies this`video
      ensures Reachable(video) && Evolves(start, video)
      ensures Palette(words)
      ensures Steady(start) ==> Converted(start.memory.slot.palette, words)
    {
      words := [];
      for index := 0 to 256
        invariant Reachable(video) && Evolves(start, video) && |words| == index
        invariant forall i :: 0 <= i < index ==> words[i] < WORD
        invariant Steady(start) ==> forall i :: 0 <= i < index ==> words[i] == Argb(start.memory.slot.palette, i)
      {
        var colour := LoadColour(index, start);
        words := words + [colour];
      }
    }

    /** One row of e1_convert_indexed_argb4444 over the shared slot. */
    method ConvertRow(output: array<nat>, y: nat, width: nat, height: nat, pitch: nat, words: seq<nat>,
                      ghost start: Video)
      requires Reachable(video) && Evolves(start, video) && Settled(start, start)
      requires output.Length == WIDTH * HEIGHT && y < HEIGHT && Palette(words)
      requires Profile(width, height) && width <= pitch && pitch * height <= MAX_PIXELS
      requires MapsFor(width, height, xMap, yMap)
      requires Steady(start) ==> Converted(start.memory.slot.palette, words)
      requires Steady(start) ==>
                 RowsOf(output[..], y, start.memory.slot.pixels, width, height, pitch, start.memory.slot.palette)
      modifies this`video, output
      ensures Reachable(video) && Evolves(start, video) && old(video).memory.slot.sequence <= video.memory.slot.sequence
      ensures Steady(start) ==>
                RowsOf(output[..], y + 1, start.memory.slot.pixels, width, height, pitch, start.memory.slot.palette)
    {
      ghost var before := output[..];
      ghost var slot := start.memory.slot;
      var destination := y * WIDTH;
      if y > 0 && yMap[y] == yMap[y - 1] {
        CopyUp(output, destination);
        if Steady(start) {
          CopiedRow(before, output[..], y, slot.pixels, width, height, pitch, slot.palette);
        }
      } else {
        var columns := xMap;
        PicksInside(MAX_PIXELS, width, height, pitch, columns, y);
        var picks := if width == WIDTH then Identity(WIDTH) else columns;
        ExpandRow(output, destination, yMap[y] * pitch, picks, words, start);
        if Steady(start) {
          ExpandedRow(before, output[..], y, slot.pixels, width, height, pitch, slot.palette, words, columns);
        }
      }
    }

    /** e1_convert_indexed_argb4444 over the shared slot. */
    method ConvertIndexed(output: array<nat>, width: nat, height: nat, pitch: nat, ghost start: Video)
      returns (status: int)
      requires Reachable(video) && Evolves(start, video) && Settled(start, start)
      requires output.Length == WIDTH * HEIGHT
      requires Profile(width, height) && width <= pitch ==>
                 pitch * height <= MAX_PIXELS && MapsFor(width, height, xMap, yMap)
      modifies this`video, output
      ensures Reachable(video) && Evolves(start, video)
      ensures status == if Profile(width, height) && width <= pitch then 0 else -1
      ensures status == 0 && Steady(start) ==>
                RowsOf(output[..], HEIGHT, start.memory.slot.pixels, width, height, pitch, start.memory.slot.palette)
    {
      if pitch < width || !((width == 640 && height == 300) || (width == 426 && height == 200)) {
        return -1;
      }
      var words := LoadPalette(start);
      for y := 0 to HEIGHT
        invariant Reachable(video) && Evolves(start, video)
        invariant Steady(start) ==> Converted(start.memory.slot.palette, words)
        invariant Steady(start) ==>
                    RowsOf(output[..], y, start.memory.slot.pixels, width, height, pitch, start.memory.slot.palette)
      {
        ConvertRow(output, y, width, height, pitch, words, start);
      }
      return 0;
    }

    /** The geometry check of convert_doom_frame, each field loaded where the expression loads it. */
    method SourceValid(ghost start: Video) returns (valid: bool)
      requires Reachable(video) && Evolves(start, video) && start.memory.slot.sequence >= 2
      modifies this`video
      ensures Reachable(video) && Evolves(start, video)
      ensures valid == Opened()
    {
      Geometry(start.writer);
      Interfere(start);
      SlotFixed(video);
      if video.memory.slot.width != sourceWidth { return false; }
      Interfere(start);
      SlotFixed(video);
      if video.memory.slot.height != sourceHeight { return false; }
      Interfere(start);
      SlotFixed(video);
      var pitch := video.memory.slot.pitch;
      Interfere(start);
      SlotFixed(video);
      if pitch < video.memory.slot.width { return false; }
      Interfere(start);
      SlotFixed(video);
      pitch := video.memory.slot.pitch;
      Interfere(start);
      SlotFixed(video);
      return pitch * video.memory.slot.height <= MAX_PIXELS;
    }

    /** The loads of the converter's arguments. */
    method LoadGeometry(ghost start: Video) returns (width: nat, height: nat, pitch: nat)
      requires Reachable(video) && Evolves(start, video) && start.memory.slot.sequence >= 2
      modifies this`video
      ensures Reachable(video) && Evolves(start, video)
      ensures width == Width(start.writer) && height == Height(start.writer) && pitch == Pitch(start.writer)
    {
      Interfere(start);
      SlotFixed(video);
      width := video.memory.slot.width;
      Interfere(start);
      SlotFixed(video);
      height := video.memory.slot.height;
      Interfere(start);
      SlotFixed(video);
      pitch := video.memory.slot.pitch;
    }

    /** The three loads that close convert_doom_frame. */
    method StillThere(ghost start: Video, slotSequence: nat, slotIndex: nat, frameSequence: nat)
      returns (same: bool)
      requires Reachable(video) && Evolves(start, video) && slotIndex == 0
      requires slotSequence == start.memory.slot.sequence && frameSequence <= start.memory.counter
      modifies this`video
      ensures Reachable(video) && Evolves(start, video) && Evolves(old(video), video)
      ensures same ==> old(Steady(start)) && start.memory.counter == frameSequence
      ensures !same ==> video.memory.slot.sequence > slotSequence || video.memory.counter > frameSequence
    {
      ghost var entry := video;
      Interfere(start);
      if video.memory.slot.sequence != slotSequence { return false; }
      ghost var second := video;
      Interfere(start);
      EvolvesTransitive(entry, second, video);
      SlotFixed(video);
      if video.memory.active != slotIndex { return false; }
      ghost var third := video;
      Interfere(start);
      EvolvesTransitive(entry, third, video);
      return video.memory.counter == frameSequence;
    }

    /** The call of the converter. */
    method ConvertSource(output: array<nat>, ghost start: Video) returns (status: int)
      requires Reachable(video) && Evolves(start, video) && Settled(start, start)
      requires Opened() && MapsFor(sourceWidth, sourceHeight, xMap, yMap) && output.Length == WIDTH * HEIGHT
      modifies this`video, output
      ensures Reachable(video) && Evolves(start, video) && status == 0
      ensures Steady(start) ==>
                RowsOf(output[..], HEIGHT, start.memory.slot.pixels, Width(start.writer), Height(start.writer),
                       Pitch(start.writer), start.memory.slot.palette)
    {
      Geometry(start.writer);
      var width, height, pitch := LoadGeometry(start);
      status := ConvertIndexed(output, width, height, pitch, start);
    }

    /** The conversion and the check that the slot did not move under it. */
    method ConvertStable(output: array<nat>, slotSequence: nat, slotIndex: nat, frameSequence: nat, ghost seen: Video)
      returns (status: int, same: bool)
      requires Reachable(video) && Reachable(seen) && Evolves(seen, video) && Settled(seen, seen)
      requires Opened() && MapsFor(sourceWidth, sourceHeight, xMap, yMap) && output.Length == WIDTH * HEIGHT
      requires slotSequence == seen.memory.slot.sequence && slotIndex == 0 && frameSequence <= seen.memory.counter
      modifies this`video, output
      ensures Reachable(video) && Evolves(seen, video) && status == 0
      ensures same ==>
                && seen.memory.counter == frameSequence
                && ImageIs(output[..], slotSequence / 2, frameSequence, video.writer)
      ensures !same ==> video.memory.slot.sequence > slotSequence || video.memory.counter > frameSequence
    {
      status := ConvertSource(output, seen);
      same := StillThere(seen, slotSequence, slotIndex, frameSequence);
      if same { ImageOf(seen, video, output[..], frameSequence); }
    }

    /** The part of convert_doom_frame after an even sequence was loaded, at `seen`. */
    method ConvertSlot(output: array<nat>, slotSequence: nat, slotIndex: nat, frameSequence: nat, ghost seen: Video)
      returns (status: int, ghost shown: nat)
      requires Valid() && output.Length == WIDTH * HEIGHT
      requires Reachable(seen) && Evolves(seen, video) && Settled(seen, seen)
      requires slotSequence == seen.memory.slot.sequence && slotIndex == 0
      requires lastFrameSequence < frameSequence <= seen.memory.counter
      modifies this`video, this`lastFrameSequence, this`videoRetries, this`sourceDrops, this`sourceFrames, output
      ensures Valid() && Evolves(seen, video)
      ensures status == 0 ==>
                && lastFrameSequence == frameSequence == seen.memory.counter && shown == slotSequence / 2
                && ImageIs(output[..], shown, frameSequence, video.writer)
                && sourceFrames == old(sourceFrames) + 1
                && sourceDrops == old(sourceDrops) + Drops(old(lastFrameSequence), lastFrameSequence)
      ensures status != 0 ==>
                && lastFrameSequence == old(lastFrameSequence)
                && sourceFrames == old(sourceFrames) && sourceDrops == old(sourceDrops)
      ensures videoRetries == old(videoRetries) + if status == 1 then 1 else 0
      ensures status == if !Opened() then -1 else if status == 1 then 1 else 0
      ensures status == 1 ==> video.memory.slot.sequence > slotSequence || video.memory.counter > frameSequence
    {
      shown := 0;
      var valid := SourceValid(seen);
      if !valid { return -1, 0; }
      var same;
      status, same := ConvertStable(output, slotSequence, slotIndex, frameSequence, seen);
      if status != 0 || !same {
        if status == 0 { videoRetries := videoRetries + 1; }
        status := if status != 0 then -1 else 1;
        return;
      }
      shown := slotSequence / 2;
      sourceDrops := sourceDrops + Drops(lastFrameSequence, frameSequence);
      lastFrameSequence := frameSequence;
      sourceFrames := sourceFrames + 1;
    }

    /** convert_doom_frame: 0 for a new stable frame, 1 for none, -1 for an invalid source.  `shown`
        is the number of the frame whose image an accepted call leaves, and `taken` the state at the
        load of the slot's sequence: an accepted call does what a look at rest does there. */
    method ConvertDoomFrame(output: array<nat>) returns (status: int, ghost shown: nat, ghost taken: Video)
      requires Valid() && output.Length == WIDTH * HEIGHT
      modifies this`video, this`lastFrameSequence, this`videoRetries, this`sourceDrops, this`sourceFrames, output
      ensures Valid() && Evolves(old(video), video)
      ensures status == 0 ==>
                && old(lastFrameSequence) < lastFrameSequence
                && ImageIs(output[..], shown, lastFrameSequence, video.writer)
                && Reachable(taken) && Evolves(old(video), taken) && Evolves(taken, video)
                && LookAtRest(taken, old(lastFrameSequence)) == Accepted(lastFrameSequence, shown)
                && (shown == lastFrameSequence <==> taken.memory.slot.sequence == 2 * lastFrameSequence)
                && (shown == lastFrameSequence <==> taken.writer.stage.Sleeping?)
                && sourceFrames == old(sourceFrames) + 1
                && sourceDrops == old(sourceDrops) + Drops(old(lastFrameSequence), lastFrameSequence)
      ensures status != 0 ==>
                && lastFrameSequence == old(lastFrameSequence)
                && sourceFrames == old(sourceFrames) && sourceDrops == old(sourceDrops)
      ensures videoRetries == old(videoRetries) + if status == 1 then 1 else 0
      ensures status == 0 || status == 1 || (status == -1 && !Opened())
      ensures status == 0 ==> Opened()
      ensures Opened() && video.memory == old(video.memory) ==>
                LookAtRest(video, old(lastFrameSequence))
                == if status == 0 then Accepted(lastFrameSequence, shown) else None
    {
      shown := 0;
      ghost var entry, last := video, lastFrameSequence;
      Interfere(entry);
      var frameSequence := video.memory.counter;
      ghost var first := video;
      if frameSequence == 0 || frameSequence == lastFrameSequence {
        videoRetries := videoRetries + 1;
        return 1, 0, video;
      }
      SlotFixed(video);
      Interfere(entry);
      SlotFixed(video);
      var slotIndex := video.memory.active % 2;
      assert slotIndex == 0;
      ghost var second := video;
      Interfere(entry);
      EvolvesTransitive(first, second, video);
      var slotSequence := video.memory.slot.sequence;
      ghost var seen := video;
      if slotSequence % 2 != 0 {
        videoRetries := videoRetries + 1;
        return 1, 0, video;
      }
      status, shown := ConvertSlot(output, slotSequence, slotIndex, frameSequence, seen);
      taken := seen;
      if status == 0 { NumberExact(seen, last); }
      EvolvesTransitive(entry, seen, video);
    }

    /** close_frame_source, then the checks of opening the source again: the maps are built once and
        stay right, because Doom never changes its geometry. */
    method OpenFrameSource(headerOk: bool) returns (status: int)
      requires Valid()
      modifies this
      ensures Valid() && Evolves(old(video), video)
      ensures status == 0 || status == -1
      ensures status == 0 ==> headerOk && Opened() && lastFrameSequence == 0
      ensures status == -1 ==> sourceWidth == 0 && sourceHeight == 0 && lastFrameSequence == 0
      ensures status == -1 ==>
                !headerOk || old(video).memory.counter == 0 || video.memory.slot.sequence % 2 == 1
    {
      ghost var entry := video;
      lastFrameSequence, sourceWidth, sourceHeight := 0, 0, 0;
      Interfere(entry);
      if !headerOk || video.memory.counter == 0 { return -1; }
      SlotFixed(video);
      ghost var found := video;
      var even := WaitForEven(found);
      EvolvesTransitive(entry, found, video);
      if !even { return -1; }
      Geometry(video.writer);
      var width, height, pitch := LoadGeometry(found);
      EvolvesTransitive(entry, found, video);
      var columns, rows := new nat[WIDTH], new nat[HEIGHT];
      var built := BuildScaleMaps(width, height, columns, rows);
      if built != 0 || pitch < width || pitch * height > MAX_PIXELS {
        return -1;
      }
      xMap, yMap := columns[..], rows[..];
      sourceWidth, sourceHeight := width, height;
      return 0;
    }

    /** Up to forty looks at the sequence word. */
    method WaitForEven(ghost start: Video) returns (even: bool)
      requires Reachable(video) && Evolves(start, video)
      modifies this`video
      ensures Reachable(video) && Evolves(start, video) && even == (video.memory.slot.sequence % 2 == 0)
    {
      Interfere(start);
      even := video.memory.slot.sequence % 2 == 0;
      var attempt := 0;
      while attempt < 40 && !even
        invariant Reachable(video) && Evolves(start, video)
      {
        Interfere(start);
        even := video.memory.slot.sequence % 2 == 0;
        attempt := attempt + 1;
      }
      Interfere(start);
      even := video.memory.slot.sequence % 2 == 0;
    }

    /** Any number of calls: the accepted numbers rise strictly, and while fewer than 2^31 frames
        separate the newest from the baseline, accepted frames and counted drops account for every
        number since a nonzero baseline.  The frames shown never go back, and none is shown more than
        twice. */
    method Follow(output: array<nat>, calls: nat) returns (ghost accepted: seq<nat>, ghost shown: seq<nat>)
      requires Valid() && output.Length == WIDTH * HEIGHT
      modifies this`video, this`lastFrameSequence, this`videoRetries, this`sourceDrops, this`sourceFrames, output
      ensures Valid() && Rising(accepted, old(lastFrameSequence))
      ensures lastFrameSequence == if accepted == [] then old(lastFrameSequence) else accepted[|accepted| - 1]
      ensures sourceFrames == old(sourceFrames) + |accepted|
      ensures Tally(old(lastFrameSequence), lastFrameSequence, |accepted|, sourceDrops - old(sourceDrops))
      ensures Labelled(accepted, shown) && NeverBack(accepted, shown)
    {
      accepted, shown := [], [];
      ghost var base := lastFrameSequence;
      for call := 0 to calls
        invariant Valid() && Rising(accepted, base) && Labelled(accepted, shown)
        invariant lastFrameSequence == if accepted == [] then base else accepted[|accepted| - 1]
        invariant base <= lastFrameSequence
        invariant sourceFrames == old(sourceFrames) + |accepted|
        invariant Tally(base, lastFrameSequence, |accepted|, sourceDrops - old(sourceDrops))
      {
        ghost var last, drops := lastFrameSequence, sourceDrops - old(sourceDrops);
        var status, frame, _ := ConvertDoomFrame(output);
        if status == 0 {
          TallyStep(base, last, lastFrameSequence, |accepted|, drops);
          RisingAppends(accepted, base, lastFrameSequence);
          accepted, shown := accepted + [lastFrameSequence], shown + [frame];
        }
      }
      NumbersForward(accepted, shown, base);
    }
  }
}
