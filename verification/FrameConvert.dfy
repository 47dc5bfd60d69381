/** Converting Doom's indexed frame to the camera's 16-bit overlay: nearest-neighbour scaling, with
    the shortcuts that make it fast on a 32-bit ARM. */
module FrameConvert {

  const WIDTH := 640
  const HEIGHT := 360
  const PALETTE_BYTES := 768
  const HALF := 0x1_0000
  const WORD := 0x1_0000_0000

  type Byte = b: int | 0 <= b < 256

  predicate Profile(width: nat, height: nat) {
    (width == 640 && height == 300) || (width == 426 && height == 200)
  }

  function MapX(x: nat, width: nat): nat {
    x * width / WIDTH
  }

  function MapY(y: nat, height: nat): nat {
    y * height / HEIGHT
  }

  /** A palette entry as opaque ARGB4444. */
  function Argb(palette: seq<Byte>, index: Byte): (colour: nat)
    requires |palette| == PALETTE_BYTES
    ensures 0xf000 <= colour < HALF
  {
    var red: int, green: int, blue: int := palette[3 * index], palette[3 * index + 1], palette[3 * index + 2];
    0xf000 + red / 16 * 256 + green / 16 * 16 + blue / 16
  }

  /** The four nibbles: opaque, then the high halves of red, green and blue. */
  lemma ArgbChannels(palette: seq<Byte>, index: Byte)
    requires |palette| == PALETTE_BYTES
    ensures Argb(palette, index) / 4096 == 15
    ensures Argb(palette, index) / 256 % 16 == palette[3 * index] / 16
    ensures Argb(palette, index) / 16 % 16 == palette[3 * index + 1] / 16
    ensures Argb(palette, index) % 16 == palette[3 * index + 2] / 16
  {
    var red: int, green: int, blue: int := palette[3 * index], palette[3 * index + 1], palette[3 * index + 2];
    Nibbles(red / 16, green / 16, blue / 16);
  }

  lemma Nibbles(r: nat, g: nat, b: nat)
    requires r < 16 && g < 16 && b < 16
    ensures var colour := 0xf000 + r * 256 + g * 16 + b;
            && colour / 4096 == 15 && colour / 256 % 16 == r && colour / 16 % 16 == g && colour % 16 == b
  {
    var colour := 0xf000 + r * 256 + g * 16 + b;
    assert colour / 16 == 0xf00 + r * 16 + g;
    assert colour / 256 == 0xf0 + r;
  }

  /** Output pixel (x, y) is opaque and has the channels of the palette entry of its source pixel. */
  predicate PixelShows(output: seq<nat>, pixels: seq<Byte>, width: nat, height: nat, pitch: nat,
                       palette: seq<Byte>, x: nat, y: nat)
    requires |output| == 640 * 360 && x < 640 && y < 360 && |palette| == 768
    requires Profile(width, height) && width <= pitch && pitch * height <= |pixels|
  {
    SourceInBounds(|pixels|, width, height, pitch, x, y);
    var colour := output[y * 640 + x];
    var index: int := pixels[(y * height / 360) * pitch + x * width / 640];
    var entry := 3 * index;
    && colour / 4096 == 15
    && colour / 256 % 16 == palette[entry] / 16
    && colour / 16 % 16 == palette[entry + 1] / 16
    && colour % 16 == palette[entry + 2] / 16
  }

  /** The rows of the formula show the source. */
  lemma RowShows(output: seq<nat>, pixels: seq<Byte>, width: nat, height: nat, pitch: nat,
                 palette: seq<Byte>, x: nat, y: nat)
    requires |output| == 640 * 360 && x < 640 && y < 360 && |palette| == 768
    requires Profile(width, height) && width <= pitch && pitch * height <= |pixels|
    requires output[y * WIDTH..y * WIDTH + WIDTH] == ScaledRow(pixels, width, height, pitch, palette, y)
    ensures PixelShows(output, pixels, width, height, pitch, palette, x, y)
  {
    SourceInBounds(|pixels|, width, height, pitch, x, y);
    var row := ScaledRow(pixels, width, height, pitch, palette, y);
    var index := pixels[MapY(y, height) * pitch + MapX(x, width)];
    assert output[y * WIDTH + x] == output[y * WIDTH..y * WIDTH + WIDTH][x] == row[x];
    assert row[x] == ScaledPixel(pixels, width, height, pitch, palette, x, y);
    ArgbChannels(palette, index);
  }

  /** The naive formula: output pixel (x, y) is the colour of the nearest source pixel. */
  function ScaledPixel(pixels: seq<Byte>, width: nat, height: nat, pitch: nat, palette: seq<Byte>,
                       x: nat, y: nat): nat
    requires Profile(width, height) && width <= pitch && pitch * height <= |pixels|
    requires |palette| == PALETTE_BYTES && x < WIDTH && y < HEIGHT
  {
    SourceInBounds(|pixels|, width, height, pitch, x, y);
    Argb(palette, pixels[MapY(y, height) * pitch + MapX(x, width)])
  }

  function ScaledRow(pixels: seq<Byte>, width: nat, height: nat, pitch: nat, palette: seq<Byte>, y: nat)
    : (r: seq<nat>)
    requires Profile(width, height) && width <= pitch && pitch * height <= |pixels|
    requires |palette| == PALETTE_BYTES && y < HEIGHT
    ensures |r| == WIDTH
  {
    seq(WIDTH, x requires 0 <= x < WIDTH => ScaledPixel(pixels, width, height, pitch, palette, x, y))
  }

  lemma SourceInBounds(size: nat, width: nat, height: nat, pitch: nat, x: nat, y: nat)
    requires Profile(width, height) && width <= pitch && pitch * height <= size
    requires x < WIDTH && y < HEIGHT
    ensures MapX(x, width) < width && MapY(y, height) < height
    ensures MapY(y, height) * pitch + width <= size
  {
    RowInBounds(height, pitch, MapY(y, height));
  }

  lemma RowInBounds(height: nat, pitch: nat, row: nat)
    requires row < height
    ensures row * pitch + pitch <= pitch * height
  {
    assert (row + 1) * pitch <= height * pitch;
  }

  // ---------------------------------------------------------------- the scale maps

  predicate IsXMap(width: nat, xMap: seq<nat>) {
    |xMap| == WIDTH && forall x :: 0 <= x < WIDTH ==> xMap[x] == MapX(x, width)
  }

  predicate MapsFor(width: nat, height: nat, xMap: seq<nat>, yMap: seq<nat>) {
    && IsXMap(width, xMap) && |yMap| == HEIGHT
    && (forall y :: 0 <= y < HEIGHT ==> yMap[y] == MapY(y, height))
  }

  /** e1_build_scale_maps */
  method BuildScaleMaps(width: nat, height: nat, xMap: array<nat>, yMap: array<nat>) returns (status: int)
    requires xMap.Length == WIDTH && yMap.Length == HEIGHT && xMap != yMap
    modifies xMap, yMap
    ensures status == if Profile(width, height) then 0 else -1
    ensures status == 0 ==> MapsFor(width, height, xMap[..], yMap[..])
    ensures status != 0 ==> xMap[..] == old(xMap[..]) && yMap[..] == old(yMap[..])
  {
    if !((width == 640 && height == 300) || (width == 426 && height == 200)) {
      return -1;
    }
    for x := 0 to WIDTH
      invariant forall k :: 0 <= k < x ==> xMap[k] == MapX(k, width)
    {
      xMap[x] := x * width / WIDTH;
    }
    for y := 0 to HEIGHT
      invariant forall k :: 0 <= k < WIDTH ==> xMap[k] == MapX(k, width)
      invariant forall k :: 0 <= k < y ==> yMap[k] == MapY(k, height)
    {
      yMap[y] := y * height / HEIGHT;
    }
    return 0;
  }

  // ---------------------------------------------------------------- row kernels

  predicate Palette(palette: seq<nat>) {
    |palette| == 256 && forall i :: 0 <= i < 256 ==> palette[i] < WORD
  }

  predicate Picks(picks: seq<nat>, from: nat, size: nat) {
    forall k :: 0 <= k < |picks| ==> from + picks[k] < size
  }

  predicate Halfwords(s: seq<nat>) {
    forall k :: 0 <= k < |s| ==> s[k] < HALF
  }

  /** What both row kernels compute: the low halves of the palette words of the picked pixels. */
  function Expanded(palette: seq<nat>, source: seq<Byte>, from: nat, picks: seq<nat>): (r: seq<nat>)
    requires Palette(palette) && Picks(picks, from, |source|)
    ensures |r| == |picks|
  {
    seq(|picks|, k requires 0 <= k < |picks| => palette[source[from + picks[k]]] % HALF)
  }

  function Identity(count: nat): (r: seq<nat>)
    ensures |r| == count && forall k :: 0 <= k < count ==> r[k] == k
  {
    seq(count, k => k)
  }

  function Spliced(s: seq<nat>, at: nat, part: seq<nat>): (r: seq<nat>)
    requires at + |part| <= |s|
    ensures |r| == |s|
  {
    s[..at] + part + s[at + |part|..]
  }

  /** The scalar loops: one pixel a round. */
  method ScaleScalar(destination: array<nat>, to: nat, source: seq<Byte>, from: nat, xMap: seq<nat>,
                     palette: seq<nat>, count: nat)
    requires Palette(palette) && to + count <= destination.Length && count == |xMap|
    requires Picks(xMap, from, |source|)
    modifies destination
    ensures destination[..] == Spliced(old(destination[..]), to, Expanded(palette, source, from, xMap))
  {
    ghost var row := Expanded(palette, source, from, xMap);
    ghost var before := destination[..];
    for pixel := 0 to count
      invariant forall k :: 0 <= k < pixel ==> destination[to + k] == row[k]
      invariant forall i :: 0 <= i < destination.Length && !(to <= i < to + pixel) ==> destination[i] == before[i]
    {
      destination[to + pixel] := palette[source[from + xMap[pixel]]] % HALF;
    }
    SplicedIs(before, to, row, destination[..]);
  }

  lemma SplicedIs(before: seq<nat>, at: nat, part: seq<nat>, now: seq<nat>)
    requires |now| == |before| && at + |part| <= |before|
    requires forall k :: 0 <= k < |part| ==> now[at + k] == part[k]
    requires forall i :: 0 <= i < |now| && !(at <= i < at + |part|) ==> now[i] == before[i]
    ensures now == Spliced(before, at, part)
  {
    forall i | 0 <= i < |now| ensures now[i] == Spliced(before, at, part)[i] {
      if at <= i < at + |part| {
        assert now[at + (i - at)] == part[i - at];
      }
    }
  }

  // The machine instructions of the packed loops, on unsigned 32-bit words.

  function LoadBytes(b0: Byte, b1: Byte, b2: Byte, b3: Byte): nat {
    b0 + 0x100 * b1 + 0x1_0000 * b2 + 0x100_0000 * b3
  }

  function LoadHalves(h0: nat, h1: nat): nat
    requires h0 < HALF && h1 < HALF
  {
    h0 + HALF * h1
  }

  function Uxtb(r: nat): nat { r % 0x100 }

  function UxtbRor8(r: nat): nat { r / 0x100 % 0x100 }

  function UxtbRor16(r: nat): nat { r / 0x1_0000 % 0x100 }

  function Lsr24(r: nat): nat { r / 0x100_0000 }

  function Uxth(r: nat): nat { r % HALF }

  function Lsr16(r: nat): nat { r / HALF }

  function Pkhbt(low: nat, high: nat): nat { low % HALF + high % HALF * HALF }

  lemma BytesUnpack(b0: Byte, b1: Byte, b2: Byte, b3: Byte)
    ensures var r := LoadBytes(b0, b1, b2, b3);
            Uxtb(r) == b0 && UxtbRor8(r) == b1 && UxtbRor16(r) == b2 && Lsr24(r) == b3
  {
    var r := LoadBytes(b0, b1, b2, b3);
    assert r / 0x100 == b1 + 0x100 * b2 + 0x1_0000 * b3;
    assert r / 0x1_0000 == b2 + 0x100 * b3;
  }

  lemma HalvesUnpack(h0: nat, h1: nat)
    requires h0 < HALF && h1 < HALF
    ensures Uxth(LoadHalves(h0, h1)) == h0 && Lsr16(LoadHalves(h0, h1)) == h1
    ensures Uxth(Pkhbt(h0, h1)) == h0 && Lsr16(Pkhbt(h0, h1)) == h1
  {
  }

  lemma PackUnpacks(low: nat, high: nat)
    ensures Uxth(Pkhbt(low, high)) == low % HALF && Lsr16(Pkhbt(low, high)) == high % HALF
  {
  }

  /** A word stored to two consecutive halfwords, low half first. */
  method StoreWord(destination: array<nat>, at: nat, word: nat)
    requires at + 2 <= destination.Length
    modifies destination
    ensures destination[at] == Uxth(word) && destination[at + 1] == Lsr16(word)
    ensures forall i :: 0 <= i < destination.Length && i != at && i != at + 1 ==>
              destination[i] == old(destination[i])
  {
    destination[at] := Uxth(word);
    destination[at + 1] := Lsr16(word);
  }

  /** e1_expand_i8_argb4444_arm: four pixels a round, one word loaded, two words stored. */
  method ExpandArm(destination: array<nat>, to: nat, source: seq<Byte>, from: nat, palette: seq<nat>, count: nat)
    requires Palette(palette) && count % 4 == 0
    requires to + count <= destination.Length && from + count <= |source|
    modifies destination
    ensures destination[..] == Spliced(old(destination[..]), to, Expanded(palette, source, from, Identity(count)))
  {
    ghost var row := Expanded(palette, source, from, Identity(count));
    ghost var before := destination[..];
    var r0, r1, r3 := to, from, count;
    while r3 != 0
      invariant r3 % 4 == 0 && 0 <= r3 <= count && r0 == to + (count - r3) && r1 == from + (count - r3)
      invariant forall k :: 0 <= k < count - r3 ==> destination[to + k] == row[k]
      invariant forall i :: 0 <= i < destination.Length && !(to <= i < r0) ==> destination[i] == before[i]
    {
      var r4 := LoadBytes(source[r1], source[r1 + 1], source[r1 + 2], source[r1 + 3]);
      BytesUnpack(source[r1], source[r1 + 1], source[r1 + 2], source[r1 + 3]);
      r1 := r1 + 4;
      var r5, r6, r7 := Uxtb(r4), UxtbRor8(r4), UxtbRor16(r4);
      r4 := Lsr24(r4);
      r5, r6, r7, r4 := palette[r5], palette[r6], palette[r7], palette[r4];
      PackUnpacks(r5, r6);
      PackUnpacks(r7, r4);
      r5 := Pkhbt(r5, r6);
      r7 := Pkhbt(r7, r4);
      StoreWord(destination, r0, r5);
      r0 := r0 + 2;
      StoreWord(destination, r0, r7);
      r0 := r0 + 2;
      r3 := r3 - 4;
    }
    SplicedIs(before, to, row, destination[..]);
  }

  /** e1_scale_i8_argb4444_arm: the same with the pixels picked through the map, itself read a word,
      two entries, at a time. */
  method ScaleArm(destination: array<nat>, to: nat, source: seq<Byte>, from: nat, xMap: seq<nat>,
                  palette: seq<nat>, count: nat)
    requires Palette(palette) && count % 4 == 0 && count == |xMap| && Halfwords(xMap)
    requires to + count <= destination.Length
    requires Picks(xMap, from, |source|)
    modifies destination
    ensures destination[..] == Spliced(old(destination[..]), to, Expanded(palette, source, from, xMap))
  {
    ghost var row := Expanded(palette, source, from, xMap);
    ghost var before := destination[..];
    var r0, r2, r12 := to, 0, count;
    while r12 != 0
      invariant r12 % 4 == 0 && 0 <= r12 <= count && r0 == to + (count - r12) && r2 == count - r12
      invariant forall k :: 0 <= k < count - r12 ==> destination[to + k] == row[k]
      invariant forall i :: 0 <= i < destination.Length && !(to <= i < r0) ==> destination[i] == before[i]
    {
      var r4 := LoadHalves(xMap[r2], xMap[r2 + 1]);
      HalvesUnpack(xMap[r2], xMap[r2 + 1]);
      var r6 := LoadHalves(xMap[r2 + 2], xMap[r2 + 3]);
      HalvesUnpack(xMap[r2 + 2], xMap[r2 + 3]);
      r2 := r2 + 4;
      var r5 := Uxth(r4);
      r4 := Lsr16(r4);
      var r7 := Uxth(r6);
      r6 := Lsr16(r6);
      var p5, p4, p7, p6 := source[from + r5], source[from + r4], source[from + r7], source[from + r6];
      r5, r4, r7, r6 := palette[p5], palette[p4], palette[p7], palette[p6];
      PackUnpacks(r5, r4);
      PackUnpacks(r7, r6);
      r5 := Pkhbt(r5, r4);
      r7 := Pkhbt(r7, r6);
      StoreWord(destination, r0, r5);
      r0 := r0 + 2;
      StoreWord(destination, r0, r7);
      r0 := r0 + 2;
      r12 := r12 - 4;
    }
    SplicedIs(before, to, row, destination[..]);
  }

  // ---------------------------------------------------------------- the whole frame

  predicate Converted(palette: seq<Byte>, words: seq<nat>)
    requires |palette| == PALETTE_BYTES
  {
    |words| == 256 && forall i :: 0 <= i < 256 ==> words[i] == Argb(palette, i)
  }

  /** e1_convert_indexed_argb4444 */
  method Convert(output: array<nat>, pixels: seq<Byte>, width: nat, height: nat, pitch: nat,
                 palette: seq<Byte>, xMap: seq<nat>, yMap: seq<nat>) returns (status: int)
    requires output.Length == WIDTH * HEIGHT && |palette| == PALETTE_BYTES
    requires Profile(width, height) && width <= pitch ==>
               pitch * height <= |pixels| && MapsFor(width, height, xMap, yMap)
    modifies output
    ensures status == if Profile(width, height) && width <= pitch then 0 else -1
    ensures status != 0 ==> output[..] == old(output[..])
    ensures status == 0 ==> forall y :: 0 <= y < HEIGHT ==>
              output[y * WIDTH..y * WIDTH + WIDTH] == ScaledRow(pixels, width, height, pitch, palette, y)
    ensures status == 0 ==> forall x, y :: 0 <= x < 640 && 0 <= y < 360 ==>
              PixelShows(output[..], pixels, width, height, pitch, palette, x, y)
  {
    if pitch < width || !((width == 640 && height == 300) || (width == 426 && height == 200)) {
      return -1;
    }
    var converted := new nat[256];
    for index := 0 to 256
      invariant forall i :: 0 <= i < index ==> converted[i] == Argb(palette, i)
    {
      converted[index] := Argb(palette, index);
    }
    var words := converted[..];
    for y := 0 to HEIGHT
      invariant forall r :: 0 <= r < y ==>
                  output[r * WIDTH..r * WIDTH + WIDTH] == ScaledRow(pixels, width, height, pitch, palette, r)
    {
      ghost var before := output[..];
      ConvertRow(output, pixels, width, height, pitch, palette, words, xMap, yMap, y);
      RowsKept(before, y, output[..]);
    }
    forall x, y | 0 <= x < 640 && 0 <= y < 360
      ensures PixelShows(output[..], pixels, width, height, pitch, palette, x, y)
    {
      assert output[..][y * WIDTH..y * WIDTH + WIDTH] == output[y * WIDTH..y * WIDTH + WIDTH];
      RowShows(output[..], pixels, width, height, pitch, palette, x, y);
    }
    return 0;
  }

  /** One round of the frame loop: a row equal to the one above is copied, anything else goes through
      a kernel. */
  method ConvertRow(output: array<nat>, pixels: seq<Byte>, width: nat, height: nat, pitch: nat,
                    palette: seq<Byte>, words: seq<nat>, xMap: seq<nat>, yMap: seq<nat>, y: nat)
    requires output.Length == WIDTH * HEIGHT && |palette| == PALETTE_BYTES && y < HEIGHT
    requires Profile(width, height) && width <= pitch && pitch * height <= |pixels|
    requires MapsFor(width, height, xMap, yMap) && Converted(palette, words)
    requires y > 0 ==> output[(y - 1) * WIDTH..(y - 1) * WIDTH + WIDTH]
                       == ScaledRow(pixels, width, height, pitch, palette, y - 1)
    modifies output
    ensures output[..] == Spliced(old(output[..]), y * WIDTH, ScaledRow(pixels, width, height, pitch, palette, y))
  {
    ghost var row := ScaledRow(pixels, width, height, pitch, palette, y);
    var source := yMap[y] * pitch;
    var destination := y * WIDTH;
    if y > 0 && yMap[y] == yMap[y - 1] {
      SameSourceRow(pixels, width, height, pitch, palette, y);
      CopyUp(output, destination);
      return;
    }
    KernelRow(pixels, width, height, pitch, palette, words, xMap, y);
    Kernel(output, destination, pixels, source, width, xMap, words);
  }

  /** The choice of kernel: at full width the map is not consulted. */
  method Kernel(output: array<nat>, destination: nat, pixels: seq<Byte>, source: nat, width: nat, xMap: seq<nat>,
                words: seq<nat>)
    requires Palette(words) && |xMap| == WIDTH && Halfwords(xMap) && Picks(xMap, source, |pixels|)
    requires width == WIDTH ==> xMap == Identity(WIDTH)
    requires destination + WIDTH <= output.Length && source + width <= |pixels|
    modifies output
    ensures output[..] == Spliced(old(output[..]), destination, Expanded(words, pixels, source, xMap))
  {
    if width == WIDTH {
      ExpandArm(output, destination, pixels, source, words, WIDTH);
      return;
    }
    ScaleArm(output, destination, pixels, source, xMap, words, WIDTH);
  }

  /** memcpy of the row above. */
  method CopyUp(output: array<nat>, destination: nat)
    requires WIDTH <= destination && destination + WIDTH <= output.Length
    modifies output
    ensures output[..] == Spliced(old(output[..]), destination, old(output[destination - WIDTH..destination]))
  {
    ghost var before := output[..];
    ghost var row := output[destination - WIDTH..destination];
    for x := 0 to WIDTH
      invariant forall k :: 0 <= k < x ==> output[destination + k] == row[k]
      invariant forall i :: 0 <= i < output.Length && !(destination <= i < destination + x) ==> output[i] == before[i]
    {
      output[destination + x] := output[destination - WIDTH + x];
    }
    SplicedIs(before, destination, row, output[..]);
  }

  /** Two output rows with the same source row are the same. */
  lemma SameSourceRow(pixels: seq<Byte>, width: nat, height: nat, pitch: nat, palette: seq<Byte>, y: nat)
    requires Profile(width, height) && width <= pitch && pitch * height <= |pixels|
    requires |palette| == PALETTE_BYTES && 0 < y < HEIGHT && MapY(y, height) == MapY(y - 1, height)
    ensures ScaledRow(pixels, width, height, pitch, palette, y)
            == ScaledRow(pixels, width, height, pitch, palette, y - 1)
  {
  }

  /** Both kernels produce the row of the naive formula; at full width the map is the identity. */
  lemma KernelRow(pixels: seq<Byte>, width: nat, height: nat, pitch: nat, palette: seq<Byte>,
                  words: seq<nat>, xMap: seq<nat>, y: nat)
    requires Profile(width, height) && width <= pitch && pitch * height <= |pixels|
    requires |palette| == PALETTE_BYTES && y < HEIGHT && Converted(palette, words)
    requires IsXMap(width, xMap)
    ensures Palette(words) && Halfwords(xMap) && Picks(xMap, MapY(y, height) * pitch, |pixels|)
    ensures Expanded(words, pixels, MapY(y, height) * pitch, xMap)
            == ScaledRow(pixels, width, height, pitch, palette, y)
    ensures width == WIDTH ==> xMap == Identity(WIDTH)
    ensures MapY(y, height) * pitch + width <= |pixels|
  {
    var from := MapY(y, height) * pitch;
    WordsArePalette(palette, words);
    PicksInside(|pixels|, width, height, pitch, xMap, y);
    RowsMeet(words, pixels, width, height, pitch, palette, from, xMap, y);
  }

  /** No kernel reads outside the source, whatever the pixels. */
  lemma PicksInside(size: nat, width: nat, height: nat, pitch: nat, xMap: seq<nat>, y: nat)
    requires Profile(width, height) && width <= pitch && pitch * height <= size
    requires y < HEIGHT && IsXMap(width, xMap)
    ensures Halfwords(xMap) && Picks(xMap, MapY(y, height) * pitch, size)
    ensures MapY(y, height) * pitch + width <= size
    ensures width == WIDTH ==> xMap == Identity(WIDTH)
  {
    SourceInBounds(size, width, height, pitch, 0, y);
    forall x | 0 <= x < WIDTH ensures xMap[x] < width {
      SourceInBounds(size, width, height, pitch, x, y);
    }
    if width == WIDTH {
      assert xMap == Identity(WIDTH);
    }
  }

  lemma WordsArePalette(palette: seq<Byte>, words: seq<nat>)
    requires |palette| == PALETTE_BYTES && Converted(palette, words)
    ensures Palette(words)
  {
    forall i | 0 <= i < 256 ensures words[i] < WORD {
      assert words[i] == Argb(palette, i);
    }
  }

  lemma RowsMeet(words: seq<nat>, pixels: seq<Byte>, width: nat, height: nat, pitch: nat,
                 palette: seq<Byte>, from: nat, xMap: seq<nat>, y: nat)
    requires Profile(width, height) && width <= pitch && pitch * height <= |pixels|
    requires |palette| == PALETTE_BYTES && y < HEIGHT && Converted(palette, words) && Palette(words)
    requires IsXMap(width, xMap)
    requires from == MapY(y, height) * pitch && Picks(xMap, from, |pixels|)
    ensures Expanded(words, pixels, from, xMap) == ScaledRow(pixels, width, height, pitch, palette, y)
  {
    var e := Expanded(words, pixels, from, xMap);
    var r := ScaledRow(pixels, width, height, pitch, palette, y);
    forall x | 0 <= x < WIDTH ensures e[x] == r[x] {
      assert r[x] == ScaledPixel(pixels, width, height, pitch, palette, x, y);
      assert r[x] == Argb(palette, pixels[from + MapX(x, width)]);
      assert words[pixels[from + xMap[x]]] == Argb(palette, pixels[from + xMap[x]]);
    }
  }

  lemma RowsKept(before: seq<nat>, y: nat, now: seq<nat>)
    requires y < HEIGHT && |before| == |now| == WIDTH * HEIGHT
    requires forall i :: 0 <= i < y * WIDTH ==> now[i] == before[i]
    ensures forall r :: 0 <= r < y ==> now[r * WIDTH..r * WIDTH + WIDTH] == before[r * WIDTH..r * WIDTH + WIDTH]
  {
  }
}
