/** The screen melt: 320 columns that wait, accelerate and fall, driven by a clock that is polled at
    irregular times. */
module Melt {

  const COLUMNS := 320
  const LOGICAL_ROWS := 200
  const RATE_HZ := 35
  const MAX_TICKS := 200
  const WORD := 0x1_0000_0000

  // ---------------------------------------------------------------- one column

  function StepRow(row: int): int {
    if row < 0 then row + 1
    else if row < LOGICAL_ROWS then
      var next := row + if row < 16 then row + 1 else 8;
      if next > LOGICAL_ROWS then LOGICAL_ROWS else next
    else row
  }

  function Orbit(row: int, ticks: nat): int {
    if ticks == 0 then row else StepRow(Orbit(row, ticks - 1))
  }

  lemma {:induction false} OrbitAdds(row: int, a: nat, b: nat)
    ensures Orbit(row, a + b) == Orbit(Orbit(row, a), b)
  {
    if b > 0 { OrbitAdds(row, a, b - 1); }
  }

  /** Where a column stands `ticks` after it left row 0. */
  function Fallen(ticks: nat): (row: nat)
    ensures row <= LOGICAL_ROWS
  {
    if ticks == 0 then 0
    else if ticks == 1 then 1
    else if ticks == 2 then 3
    else if ticks == 3 then 7
    else if ticks == 4 then 15
    else if ticks < 27 then 31 + 8 * (ticks - 5)
    else LOGICAL_ROWS
  }

  /** The whole path of a column that starts between rows -15 and 0. */
  lemma {:induction false} OrbitIs(row: int, ticks: nat)
    requires -15 <= row <= 0
    ensures Orbit(row, ticks) == if ticks <= -row then row + ticks else Fallen(ticks + row)
  {
    if ticks > 0 { OrbitIs(row, ticks - 1); }
  }

  /** It is at the bottom from tick 27 - row on, and never before. */
  lemma {:induction false} Finishes(row: int, ticks: nat)
    requires -15 <= row <= 0
    ensures Orbit(row, ticks) == LOGICAL_ROWS <==> ticks >= 27 - row
    ensures Orbit(row, ticks) <= LOGICAL_ROWS
  {
    OrbitIs(row, ticks);
  }

  /** A column that is ahead stays ahead, and none moves back. */
  lemma OrderPreserved(low: int, high: int, ticks: nat)
    requires -15 <= low <= high <= 0
    ensures Orbit(low, ticks) <= Orbit(high, ticks)
    ensures Orbit(low, ticks) <= Orbit(low, ticks + 1)
  {
    OrbitIs(low, ticks);
    OrbitIs(high, ticks);
    OrbitIs(low, ticks + 1);
  }

  /** On rows that no column reaches the step can swap two columns: exactly when the one behind is
      still accelerating, the one ahead is not, and it is near enough to be passed. */
  lemma StepSwaps(low: int, high: int)
    requires low <= high
    ensures StepRow(low) > StepRow(high)
            <==> 0 <= low < 16 <= high < LOGICAL_ROWS && low + low + 1 > high + 8
    ensures StepRow(15) == 31 && StepRow(16) == 24
  {
  }

  // ---------------------------------------------------------------- the clock

  /** Ticks due after `ms` milliseconds. */
  function Due(ms: nat): nat { RATE_HZ * ms / 1000 }

  /** 35 ticks a second. */
  lemma DueExact(ms: nat)
    ensures 1000 * Due(ms) <= 35 * ms < 1000 * Due(ms) + 1000
  {
  }

  lemma DueSplits(before: nat, gap: nat)
    ensures var scaled := gap * RATE_HZ + RATE_HZ * before % 1000;
            && Due(before) + scaled / 1000 == Due(before + gap)
            && scaled % 1000 == RATE_HZ * (before + gap) % 1000
  {
  }

  /** One poll, in due ticks: the ticks of the gap, unless the melt is long over. */
  lemma PollDue(begun: nat, before: nat, now: nat, carried: nat, ticks: nat, remainder: nat)
    requires begun + before <= now && carried < 1000
    requires carried == RATE_HZ * before % 1000 || Due(before) >= 42
    requires now == begun + before ==> ticks == 0 && remainder == carried
    requires now - begun - before > 5714 ==> ticks == MAX_TICKS && remainder == 0
    requires 0 < now - begun - before <= 5714 ==>
               1000 * ticks + remainder == RATE_HZ * (now - begun - before) + carried && remainder < 1000
    ensures Due(before) + ticks == Due(now - begun)
            || (Due(now - begun) >= 42 && (Due(before) >= 42 || ticks >= 42))
    ensures remainder == RATE_HZ * (now - begun) % 1000 || Due(now - begun) >= 42
  {
    DueSplits(before, now - begun - before);
  }

  function Newest(first: nat, times: seq<nat>): (newest: nat)
    ensures first <= newest
  {
    if times == [] then first
    else
      var before, last := Newest(first, times[..|times| - 1]), times[|times| - 1];
      if last > before then last else before
  }

  lemma {:induction false} NewestIs(first: nat, times: seq<nat>)
    ensures forall i :: 0 <= i < |times| ==> times[i] <= Newest(first, times)
    ensures Newest(first, times) == first || Newest(first, times) in times
  {
    if times != [] {
      var n := |times| - 1;
      NewestIs(first, times[..n]);
      forall i | 0 <= i < |times| ensures times[i] <= Newest(first, times) {
        if i < n { assert times[..n][i] == times[i]; }
      }
    }
  }

  // ---------------------------------------------------------------- the starting rows

  function NextSeed(seed: nat): (next: nat)
    ensures next < WORD
  {
    (seed * 1664525 + 1013904223) % WORD
  }

  function SeedAfter(seed: nat, draws: nat): nat {
    if draws == 0 then seed else NextSeed(SeedAfter(seed, draws - 1))
  }

  /** The n-th number drawn. */
  function Draw(seed: nat, n: nat): nat { SeedAfter(seed, n + 1) / 0x100_0000 }

  function StartRow(seed: nat, column: nat): int {
    if column == 0 then -(Draw(seed, 0) % 16)
    else
      var row := StartRow(seed, column - 1) + Draw(seed, column) % 3 - 1;
      if row > 0 then 0 else if row == -16 then -15 else row
  }

  /** The generator: each seed is 1664525 times the one before plus 1013904223, modulo 2^32, and each
      number drawn is its top byte. */
  lemma GeneratorExact(seed: nat, n: nat)
    ensures (SeedAfter(seed, n + 1) - (1664525 * SeedAfter(seed, n) + 1013904223)) % 0x1_0000_0000 == 0
    ensures SeedAfter(seed, n + 1) < 0x1_0000_0000 && SeedAfter(seed, 0) == seed
    ensures Draw(seed, n) < 256 && 0 <= SeedAfter(seed, n + 1) - 0x100_0000 * Draw(seed, n) < 0x100_0000
  {
    Wraps(SeedAfter(seed, n) * 1664525 + 1013904223);
    TopByte(SeedAfter(seed, n + 1));
  }

  lemma Wraps(x: nat)
    ensures (x % WORD - x) % 0x1_0000_0000 == 0
  {
  }

  lemma TopByte(x: nat)
    requires x < WORD
    ensures x / 0x100_0000 < 256 && 0 <= x - 0x100_0000 * (x / 0x100_0000) < 0x100_0000
  {
  }

  /** The first row is drawn from sixteen; each next one moves by at most one as drawn, except that a move
      out of [-15, 0] is not made. */
  lemma {:induction false} StartMoves(seed: nat, column: nat)
    ensures column == 0 ==> StartRow(seed, 0) == -(Draw(seed, 0) % 16)
    ensures column > 0 ==>
              var moved := StartRow(seed, column - 1) + Draw(seed, column) % 3 - 1;
              StartRow(seed, column) == if -15 <= moved <= 0 then moved else StartRow(seed, column - 1)
  {
    if column > 0 { StartInside(seed, column - 1); }
  }

  /** Every seed starts every column between -15 and 0, next to its neighbour. */
  lemma {:induction false} StartInside(seed: nat, column: nat)
    ensures -15 <= StartRow(seed, column) <= 0
    ensures column > 0 ==> -1 <= StartRow(seed, column) - StartRow(seed, column - 1) <= 1
  {
    if column > 0 { StartInside(seed, column - 1); }
  }

  /** The rows of a melt `ms` milliseconds old. */
  function RowsAt(seed: nat, ms: nat): (rows: seq<int>)
    ensures |rows| == COLUMNS
  {
    seq(COLUMNS, c requires 0 <= c < COLUMNS => Orbit(StartRow(seed, c), Due(ms)))
  }

  lemma {:induction false} AgeZero(seed: nat)
    ensures forall c :: 0 <= c < COLUMNS ==> RowsAt(seed, 0)[c] == StartRow(seed, c)
  {
    assert Due(0) == 0;
  }

  predicate AllDown(rows: seq<int>) {
    forall c :: 0 <= c < |rows| ==> rows[c] >= LOGICAL_ROWS
  }

  /** A melt ends at one definite tick, 27 - min(row), whatever the seed. */
  lemma {:induction false} EndsExactly(seed: nat, ms: nat, slowest: nat)
    requires slowest < COLUMNS
    requires forall c :: 0 <= c < COLUMNS ==> StartRow(seed, slowest) <= StartRow(seed, c)
    ensures AllDown(RowsAt(seed, ms)) <==> Due(ms) >= 27 - StartRow(seed, slowest)
    ensures 27 - StartRow(seed, slowest) <= 42
  {
    StartInside(seed, slowest);
    Finishes(StartRow(seed, slowest), Due(ms));
    assert RowsAt(seed, ms)[slowest] == Orbit(StartRow(seed, slowest), Due(ms));
    forall c | 0 <= c < COLUMNS
      ensures Due(ms) >= 27 - StartRow(seed, slowest) ==> RowsAt(seed, ms)[c] >= LOGICAL_ROWS
    {
      StartInside(seed, c);
      Finishes(StartRow(seed, c), Due(ms));
    }
  }

  class MeltState {
    const row: array<int>
    var lastMs: nat
    var remainder: nat

    constructor ()
      ensures row.Length == COLUMNS && fresh(row)
    {
      row := new int[COLUMNS](_ => 0);
      lastMs, remainder := 0, 0;
    }

    /** e1_melt_clock_ticks: while no gap exceeds 5714 ms, the ticks are those due by elapsed time. */
    method ClockTicks(now: nat) returns (ticks: nat)
      modifies this`lastMs, this`remainder
      ensures old(lastMs) == 0 ==> ticks == 0 && lastMs == now && remainder == old(remainder)
      ensures old(lastMs) > 0 && now <= old(lastMs) ==>
                ticks == 0 && lastMs == old(lastMs) && remainder == old(remainder)
      ensures old(lastMs) > 0 && now > old(lastMs) ==> lastMs == now
      ensures old(lastMs) > 0 && now - old(lastMs) > 5714 ==> ticks == MAX_TICKS && remainder == 0
      ensures old(lastMs) > 0 && 0 < now - old(lastMs) <= 5714 ==>
                1000 * ticks + remainder == RATE_HZ * (now - old(lastMs)) + old(remainder) && remainder < 1000
      ensures old(remainder) < 1000 ==> remainder < 1000 && ticks <= MAX_TICKS
    {
      if lastMs == 0 {
        lastMs := now;
        return 0;
      }
      if now <= lastMs {
        return 0;
      }
      var elapsed := now - lastMs;
      lastMs := now;
      if elapsed > 1000 * MAX_TICKS / RATE_HZ {
        remainder := 0;
        return MAX_TICKS;
      }
      var scaled := elapsed * RATE_HZ + remainder;
      remainder := scaled % 1000;
      return scaled / 1000;
    }

    /** However the polls are spaced, also when the clock steps back, the ticks handed out are those
        due by the time that has passed, as long as no gap exceeds 5714 ms. */
    method Poll(times: seq<nat>) returns (total: nat)
      requires lastMs > 0 && remainder == 0
      requires forall i :: 0 <= i < |times| ==> times[i] <= Newest(lastMs, times[..i]) + 5714
      modifies this`lastMs, this`remainder
      ensures lastMs == Newest(old(lastMs), times) && total == Due(lastMs - old(lastMs))
    {
      total := 0;
      ghost var first := lastMs;
      for i := 0 to |times|
        invariant lastMs == Newest(first, times[..i]) && first <= lastMs
        invariant total == Due(lastMs - first) && remainder == RATE_HZ * (lastMs - first) % 1000
      {
        assert times[..i + 1][..i] == times[..i];
        DueSplits(lastMs - first, if times[i] > lastMs then times[i] - lastMs else 0);
        var ticks := ClockTicks(times[i]);
        total := total + ticks;
      }
      assert times[..|times|] == times;
    }

    /** e1_melt_random: the draw number `n` of the sequence begun at `start`. */
    method Random(seed: nat, ghost start: nat, ghost n: nat) returns (next: nat, value: nat)
      requires seed == SeedAfter(start, n)
      ensures next == SeedAfter(start, n + 1) && value == Draw(start, n)
    {
      next := NextSeed(seed);
      value := next / 0x100_0000;
    }

    /** e1_melt_init */
    method Init(start: nat)
      requires row.Length == COLUMNS && start < WORD
      modifies row
      ensures row[..] == RowsAt(start, 0)
    {
      var seed, value := Random(start, start, 0);
      row[0] := -(value % 16);
      for column := 1 to COLUMNS
        invariant seed == SeedAfter(start, column)
        invariant forall c :: 0 <= c < column ==> row[c] == StartRow(start, c)
      {
        seed, value := Random(seed, start, column);
        var next := row[column - 1] + value % 3 - 1;
        if next > 0 {
          next := 0;
        } else if next == -16 {
          next := -15;
        }
        row[column] := next;
      }
      AgeZero(start);
    }

    /** e1_melt_advance */
    method Advance(ticks: nat) returns (done: bool)
      requires row.Length == COLUMNS
      modifies row
      ensures forall c :: 0 <= c < COLUMNS ==> row[c] == Orbit(old(row[c]), ticks)
      ensures done <==> AllDown(row[..])
    {
      for tick := 0 to ticks
        invariant forall c :: 0 <= c < COLUMNS ==> row[c] == Orbit(old(row[c]), tick)
      {
        for column := 0 to COLUMNS
          invariant forall c :: 0 <= c < column ==> row[c] == Orbit(old(row[c]), tick + 1)
          invariant forall c :: column <= c < COLUMNS ==> row[c] == Orbit(old(row[c]), tick)
        {
          var r := row[column];
          if r < 0 {
            r := r + 1;
          } else if r < LOGICAL_ROWS {
            var delta := if r < 16 then r + 1 else 8;
            r := r + delta;
            if r > LOGICAL_ROWS { r := LOGICAL_ROWS; }
          }
          row[column] := r;
        }
      }
      for column := 0 to COLUMNS
        invariant forall c :: 0 <= c < column ==> row[c] >= LOGICAL_ROWS
      {
        if row[column] < LOGICAL_ROWS {
          assert row[..][column] < LOGICAL_ROWS;
          return false;
        }
      }
      return true;
    }

    /** The rows are those of a melt of this seed begun at `begun`, and so is the clock, unless a long
        gap has already finished the melt. */
    ghost predicate Melting(seed: nat, begun: nat)
      reads this, row
    {
      && row.Length == COLUMNS && 0 < begun <= lastMs && remainder < 1000
      && row[..] == RowsAt(seed, lastMs - begun)
      && (remainder == RATE_HZ * (lastMs - begun) % 1000 || Due(lastMs - begun) >= 42)
    }

    /** The start of a melt: begin_entry_melt and begin_exit_melt. */
    method Begin(now: nat, seed: nat)
      requires row.Length == COLUMNS && now > 0 && seed < WORD
      modifies this`lastMs, this`remainder, row
      ensures Melting(seed, now) && lastMs == now
    {
      Init(seed);
      lastMs, remainder := now, 0;
    }

    /** One poll.  However the polls are spaced, and whatever gaps there are between them, the rows
        are a function of the time since the melt began. */
    method Update(now: nat, ghost seed: nat, ghost begun: nat) returns (done: bool)
      requires Melting(seed, begun)
      modifies this`lastMs, this`remainder, row
      ensures Melting(seed, begun)
      ensures if now <= old(lastMs) then !done && lastMs == old(lastMs) && row[..] == old(row[..]) else lastMs == now
      ensures done ==> AllDown(row[..])
      ensures AllDown(row[..]) ==> done || old(AllDown(row[..]))
    {
      ghost var before := lastMs - begun;
      ghost var rows := row[..];
      var ticks := ClockTicks(now);
      if ticks == 0 {
        done := false;
      } else {
        done := Advance(ticks);
      }
      Polled(seed, begun, before, lastMs, old(remainder), ticks, remainder, rows, row[..]);
    }
  }

  lemma {:induction false} Polled(seed: nat, begun: nat, before: nat, now: nat, carried: nat, ticks: nat,
                                 remainder: nat, rows: seq<int>, after: seq<int>)
    requires begun + before <= now && carried < 1000
    requires carried == RATE_HZ * before % 1000 || Due(before) >= 42
    requires now == begun + before ==> ticks == 0 && remainder == carried
    requires now - begun - before > 5714 ==> ticks == MAX_TICKS && remainder == 0
    requires 0 < now - begun - before <= 5714 ==>
               1000 * ticks + remainder == RATE_HZ * (now - begun - before) + carried && remainder < 1000
    requires |after| == COLUMNS && rows == RowsAt(seed, before)
    requires forall c :: 0 <= c < COLUMNS ==> after[c] == Orbit(rows[c], ticks)
    ensures remainder == RATE_HZ * (now - begun) % 1000 || Due(now - begun) >= 42
    ensures after == RowsAt(seed, now - begun)
  {
    PollDue(begun, before, now, carried, ticks, remainder);
    PollKeeps(seed, before, now - begun - before, ticks, rows, after);
  }

  /** Advancing by the ticks of one poll takes the rows of one age to those of the next. */
  lemma PollKeeps(seed: nat, before: nat, gap: nat, ticks: nat, rows: seq<int>, now: seq<int>)
    requires |now| == COLUMNS && rows == RowsAt(seed, before)
    requires forall c :: 0 <= c < COLUMNS ==> now[c] == Orbit(rows[c], ticks)
    requires Due(before) + ticks == Due(before + gap)
             || (Due(before + gap) >= 42 && (Due(before) >= 42 || ticks >= 42))
    ensures now == RowsAt(seed, before + gap)
  {
    forall c | 0 <= c < COLUMNS ensures now[c] == RowsAt(seed, before + gap)[c] {
      var start := StartRow(seed, c);
      StartInside(seed, c);
      OrbitAdds(start, Due(before), ticks);
      Finishes(start, Due(before) + ticks);
      Finishes(start, Due(before + gap));
    }
  }

  // ---------------------------------------------------------------- drawing

  /** e1_melt_scaled_row */
  function ScaledRow(row: int, height: nat): (drop: nat)
    ensures drop <= height
  {
    if row <= 0 then 0
    else if row >= LOGICAL_ROWS then height
    else
      Scales(row, height);
      row * height / LOGICAL_ROWS
  }

  lemma Scales(row: nat, height: nat)
    requires row < LOGICAL_ROWS
    ensures row * height / LOGICAL_ROWS <= height
  {
    assert row * height <= LOGICAL_ROWS * height;
  }

  /** A column further down is drawn no higher. */
  lemma ScaledInOrder(low: int, high: int, height: nat)
    requires low <= high
    ensures ScaledRow(low, height) <= ScaledRow(high, height)
  {
    if 0 < low && high < LOGICAL_ROWS {
      assert low * height <= high * height;
      Floors(low * height, high * height);
    }
  }

  lemma Floors(low: nat, high: nat)
    requires low <= high
    ensures low / LOGICAL_ROWS <= high / LOGICAL_ROWS
  {
  }

  function Offset(x: nat, y: nat, width: nat): nat { y * width + x }

  lemma OffsetInside(x: nat, y: nat, width: nat, height: nat)
    requires x < width && y < height
    ensures Offset(x, y, width) < width * height
  {
    assert (y + 1) * width <= height * width;
  }

  lemma RowsApart(y: nat, y': nat, width: nat)
    requires y < y'
    ensures y * width + width <= y' * width
  {
    assert (y + 1) * width <= y' * width;
  }

  lemma OffsetInjective(x: nat, y: nat, x': nat, y': nat, width: nat)
    requires x < width && x' < width && Offset(x, y, width) == Offset(x', y', width)
    ensures x == x' && y == y'
  {
    if y < y' {
      RowsApart(y, y', width);
    } else if y' < y {
      RowsApart(y', y, width);
    }
  }

  function Drop(x: nat, width: nat, height: nat, rows: seq<int>): (drop: nat)
    requires x < width && |rows| == COLUMNS
    ensures drop <= height
  {
    ColumnInside(x, width);
    ScaledRow(rows[x * COLUMNS / width], height)
  }

  lemma ColumnInside(x: nat, width: nat)
    requires x < width
    ensures x * COLUMNS / width < COLUMNS
  {
    assert x * COLUMNS < width * COLUMNS;
  }

  /** Pixel (x, y) of a melt: what lies behind where the column has gone, and below that edge the old
      picture, moved down with the column. */
  function MeltPixel(x: nat, y: nat, behind: seq<nat>, snapshot: seq<nat>, width: nat, height: nat, rows: seq<int>): nat
    requires x < width && y < height && |rows| == COLUMNS && |behind| == |snapshot| == width * height
  {
    var drop := Drop(x, width, height, rows);
    OffsetInside(x, y, width, height);
    if y < drop then behind[Offset(x, y, width)]
    else
      OffsetInside(x, y - drop, width, height);
      snapshot[Offset(x, y - drop, width)]
  }

  /** Columns left of `columns` and the first `lines` pixels of column `columns` are drawn. */
  ghost predicate Drawn(output: seq<nat>, columns: nat, lines: nat, behind: seq<nat>, snapshot: seq<nat>,
                        width: nat, height: nat, rows: seq<int>)
    requires |rows| == COLUMNS && |output| == |behind| == |snapshot| == width * height
  {
    forall x, y :: 0 <= x < width && 0 <= y < height && (x < columns || (x == columns && y < lines)) ==>
      Offset(x, y, width) < width * height
      && output[Offset(x, y, width)] == MeltPixel(x, y, behind, snapshot, width, height, rows)
  }

  lemma DrawOne(output: seq<nat>, x: nat, y: nat, behind: seq<nat>, snapshot: seq<nat>,
                width: nat, height: nat, rows: seq<int>)
    requires |rows| == COLUMNS && |output| == |behind| == |snapshot| == width * height
    requires x < width && y < height && Drawn(output, x, y, behind, snapshot, width, height, rows)
    ensures Offset(x, y, width) < width * height
    ensures Drawn(output[Offset(x, y, width) := MeltPixel(x, y, behind, snapshot, width, height, rows)], x, y + 1,
                  behind, snapshot, width, height, rows)
  {
    OffsetInside(x, y, width, height);
    var now := output[Offset(x, y, width) := MeltPixel(x, y, behind, snapshot, width, height, rows)];
    forall x', y' | 0 <= x' < width && 0 <= y' < height && (x' < x || (x' == x && y' < y + 1))
      ensures Offset(x', y', width) < width * height
      ensures now[Offset(x', y', width)] == MeltPixel(x', y', behind, snapshot, width, height, rows)
    {
      OffsetInside(x', y', width, height);
      if Offset(x', y', width) == Offset(x, y, width) {
        OffsetInjective(x', y', x, y, width);
      }
    }
  }

  /** e1_melt_compose_entry */
  method ComposeEntry(output: array<nat>, behind: seq<nat>, snapshot: seq<nat>, width: nat, height: nat, rows: seq<int>)
    requires |rows| == COLUMNS && output.Length == |behind| == |snapshot| == width * height
    modifies output
    ensures Drawn(output[..], width, 0, behind, snapshot, width, height, rows)
  {
    for x := 0 to width
      invariant Drawn(output[..], x, 0, behind, snapshot, width, height, rows)
    {
      ColumnInside(x, width);
      var drop := ScaledRow(rows[x * COLUMNS / width], height);
      for y := 0 to height
        invariant Drawn(output[..], x, y, behind, snapshot, width, height, rows)
      {
        DrawOne(output[..], x, y, behind, snapshot, width, height, rows);
        var offset := y * width + x;
        if y < drop {
          output[offset] := behind[offset];
        } else {
          OffsetInside(x, y - drop, width, height);
          output[offset] := snapshot[(y - drop) * width + x];
        }
      }
    }
  }

  function Transparent(size: nat): (pixels: seq<nat>)
    ensures |pixels| == size
  {
    seq(size, _ => 0)
  }

  /** e1_melt_compose_exit: the same with nothing behind. */
  method ComposeExit(output: array<nat>, snapshot: seq<nat>, width: nat, height: nat, rows: seq<int>)
    requires |rows| == COLUMNS && output.Length == |snapshot| == width * height
    modifies output
    ensures Drawn(output[..], width, 0, Transparent(width * height), snapshot, width, height, rows)
  {
    ghost var behind := Transparent(width * height);
    for x := 0 to width
      invariant Drawn(output[..], x, 0, behind, snapshot, width, height, rows)
    {
      ColumnInside(x, width);
      var drop := ScaledRow(rows[x * COLUMNS / width], height);
      for y := 0 to height
        invariant Drawn(output[..], x, y, behind, snapshot, width, height, rows)
      {
        DrawOne(output[..], x, y, behind, snapshot, width, height, rows);
        var offset := y * width + x;
        if y < drop {
          output[offset] := 0;
        } else {
          OffsetInside(x, y - drop, width, height);
          output[offset] := snapshot[(y - drop) * width + x];
        }
      }
    }
  }

  /** Every pixel in numbers: column x * 320 / width has dropped by its row's share of the height, rounded
      down; above that the pixel is what lies behind, from there on the old picture that much higher. */
  lemma PixelDrawn(output: seq<nat>, behind: seq<nat>, snapshot: seq<nat>, width: nat, height: nat, rows: seq<int>,
                   x: nat, y: nat) returns (drop: nat, at: nat, from: nat)
    requires |rows| == COLUMNS && |output| == |behind| == |snapshot| == width * height
    requires Drawn(output, width, 0, behind, snapshot, width, height, rows) && x < width && y < height
    ensures x * 320 / width < 320
    ensures var row := rows[x * 320 / width];
            && (row <= 0 ==> drop == 0) && (row >= 200 ==> drop == height)
            && (0 < row < 200 ==> 200 * drop <= row * height < 200 * drop + 200)
    ensures at == y * width + x < |output| && from < |output|
    ensures y < drop ==> output[at] == behind[at]
    ensures y >= drop ==> from == (y - drop) * width + x && output[at] == snapshot[from]
  {
    ColumnInside(x, width);
    OffsetInside(x, y, width, height);
    drop, at := Drop(x, width, height, rows), Offset(x, y, width);
    from := at;
    if y >= drop {
      OffsetInside(x, y - drop, width, height);
      from := Offset(x, y - drop, width);
    }
    assert output[at] == MeltPixel(x, y, behind, snapshot, width, height, rows);
    ShareExact(rows[x * 320 / width], height);
  }

  lemma ShareExact(row: int, height: nat)
    ensures 0 < row < 200 ==> 200 * ScaledRow(row, height) <= row * height < 200 * ScaledRow(row, height) + 200
  {
  }

  /** Before any column moves the picture is the old one, once all are down it is what lies behind. */
  lemma EndsOfMelt(output: seq<nat>, behind: seq<nat>, snapshot: seq<nat>, width: nat, height: nat, rows: seq<int>)
    requires |rows| == COLUMNS && |output| == |behind| == |snapshot| == width * height
    requires Drawn(output, width, 0, behind, snapshot, width, height, rows)
    ensures (forall c :: 0 <= c < COLUMNS ==> rows[c] <= 0) ==> output == snapshot
    ensures AllDown(rows) ==> output == behind
  {
    forall k | 0 <= k < |output|
      ensures (forall c :: 0 <= c < COLUMNS ==> rows[c] <= 0) ==> output[k] == snapshot[k]
      ensures AllDown(rows) ==> output[k] == behind[k]
    {
      var x, y := OffsetOnto(k, width, height);
      ColumnInside(x, width);
      assert output[Offset(x, y, width)] == MeltPixel(x, y, behind, snapshot, width, height, rows);
    }
  }

  lemma OffsetOnto(k: nat, width: nat, height: nat) returns (x: nat, y: nat)
    requires k < width * height
    ensures x < width && y < height && Offset(x, y, width) == k
  {
    x, y := k % width, k / width;
    RowBound(y, width, height);
  }

  lemma RowBound(y: nat, width: nat, height: nat)
    ensures y >= height ==> y * width >= height * width
  {
    if y >= height { assert y * width - height * width == (y - height) * width; }
  }

  /** What the melt has uncovered stays uncovered, at every poll of the same melt. */
  lemma UncoveredStays(seed: nat, earlier: nat, later: nat, x: nat, width: nat, height: nat)
    requires earlier <= later && x < width
    ensures Drop(x, width, height, RowsAt(seed, earlier)) <= Drop(x, width, height, RowsAt(seed, later))
  {
    ColumnInside(x, width);
    var c := x * COLUMNS / width;
    StartInside(seed, c);
    OrbitRises(StartRow(seed, c), Due(earlier), Due(later) - Due(earlier));
    ScaledInOrder(RowsAt(seed, earlier)[c], RowsAt(seed, later)[c], height);
  }

  lemma {:induction false} OrbitRises(row: int, ticks: nat, more: nat)
    requires -15 <= row <= 0
    ensures Orbit(row, ticks) <= Orbit(row, ticks + more)
  {
    if more > 0 {
      OrbitRises(row, ticks, more - 1);
      OrderPreserved(row, row, ticks + more - 1);
    }
  }
}
