/** One read of the audio ring as a function of what the mixer does in the reader's gaps: where it
    aims, what it counts as dropped, and whether it succeeds. */
module AudioRingReader {
  import opened AudioRingMemory

  /** The oldest frame still held when `newest` is the newest published one. */
  function Oldest(newest: nat): nat {
    if newest > SLOTS then newest - SLOTS + 1 else 1
  }

  /** The frame a read aims at: three behind the newest at the start, afterwards the next one that
      is still held. */
  function Target(last: nat, newest: nat): (target: nat)
    ensures newest > last ==> last < target <= newest && Oldest(newest) <= target
  {
    if last == 0 then
      if newest > PREBUFFER then newest - PREBUFFER else 1
    else if last + 1 < Oldest(newest) then Oldest(newest) else last + 1
  }

  /** What one attempt adds to the dropped-frame count. */
  function Skipped(last: nat, newest: nat): nat {
    if last > 0 && last + 1 < Oldest(newest) then Oldest(newest) - (last + 1) else 0
  }

  /** What the mixer does in the gaps of one attempt: before the publication is loaded, before the
      slot's sequence, before its frame number, and from there to the second look at the sequence. */
  datatype Gaps = Gaps(load: seq<Choice>, mark: seq<Choice>, frame: seq<Choice>, copy: seq<Choice>)

  datatype Outcome = CaughtUp | Delivered | Abandoned

  /** An attempt: the ring when it ends, the publication it went by, and how it ended. */
  datatype Try = Try(after: System, newest: nat, outcome: Outcome)

  /** The look at one slot; the attempt is abandoned when the slot is odd, moved, or another frame's. */
  ghost function LookOf(s: System, target: nat, g: Gaps): (look: (System, bool))
    requires Ok(s) && target > 0
    ensures Ok(look.0)
  {
    RunOk(s, g.mark);
    var j, marked := SlotOf(target), Run(s, g.mark);
    if marked.memory.slots[j].sequence % 2 != 0 then (marked, false)
    else
      RunOk(marked, g.frame);
      var loaded := Run(marked, g.frame);
      RunOk(loaded, g.copy);
      var copied := Run(loaded, g.copy);
      (copied, marked.memory.slots[j].sequence == copied.memory.slots[j].sequence
               && loaded.memory.slots[j].frame == target)
  }

  ghost function AttemptOf(s: System, last: nat, g: Gaps): (t: Try)
    requires Ok(s)
    ensures Ok(t.after)
  {
    RunOk(s, g.load);
    var loaded := Run(s, g.load);
    var newest := loaded.memory.published;
    if newest <= last then Try(loaded, newest, CaughtUp)
    else
      var look := LookOf(loaded, Target(last, newest), g);
      Try(look.0, newest, if look.1 then Delivered else Abandoned)
  }

  /** The result of a read: what it returns, the reader's new last frame, what it added to the
      dropped-frame count, whether a first attempt was abandoned, and the publications that the first and
      the last attempt went by. */
  datatype Reading = Reading(status: int, last: nat, counted: nat, retried: bool, first: nat, newest: nat)

  ghost function ReadOf(s: System, last: nat, g1: Gaps, g2: Gaps): Reading
    requires Ok(s)
  {
    var a := AttemptOf(s, last, g1);
    var skip := Skipped(last, a.newest);
    match a.outcome
    case CaughtUp => Reading(0, last, 0, false, a.newest, a.newest)
    case Delivered => Reading(1, Target(last, a.newest), skip, false, a.newest, a.newest)
    case Abandoned =>
      var b := AttemptOf(a.after, last, g2);
      var again := skip + Skipped(last, b.newest);
      match b.outcome
      case CaughtUp => Reading(0, last, skip, true, a.newest, b.newest)
      case Delivered => Reading(1, Target(last, b.newest), again, true, a.newest, b.newest)
      case Abandoned => Reading(-1, last, again, true, a.newest, b.newest)
  }

  /** The frames a successful read passes over; a reader that starts has lost none. */
  function Lost(last: nat, next: nat): int {
    if last == 0 then 0 else next - (last + 1)
  }

  lemma AttemptNewer(s: System, last: nat, g: Gaps)
    requires Ok(s)
    ensures var t := AttemptOf(s, last, g);
            && s.memory.published <= t.newest <= t.after.memory.published
            && (t.outcome != CaughtUp ==> last < t.newest)
  {
    RunOk(s, g.load);
    var loaded := Run(s, g.load);
    if loaded.memory.published > last {
      RunOk(loaded, g.mark);
      var marked := Run(loaded, g.mark);
      RunOk(marked, g.frame);
      RunOk(Run(marked, g.frame), g.copy);
    }
  }

  /** With pacing no attempt is abandoned and nothing is skipped. */
  lemma PacedAttempt(s: System, last: nat, g: Gaps)
    requires Ok(s) && Paced(s, last)
    ensures var t := AttemptOf(s, last, g);
            && t.outcome != Abandoned && Paced(t.after, last)
            && (t.outcome == Delivered ==> Target(last, t.newest) == last + 1 && Skipped(last, t.newest) == 0)
  {
    RunPaced(s, g.load, last);
    var loaded := Run(s, g.load);
    if loaded.memory.published > last { PacedLook(loaded, last, g); }
  }

  lemma PacedLook(s: System, last: nat, g: Gaps)
    requires Ok(s) && Paced(s, last) && last < s.memory.published
    ensures LookOf(s, last + 1, g).1 && Paced(LookOf(s, last + 1, g).0, last)
  {
    RunPaced(s, g.mark, last);
    RunOk(s, g.mark);
    var marked := Run(s, g.mark);
    PacedSlotAtRest(marked, last);
    RunPaced(marked, g.frame, last);
    RunOk(marked, g.frame);
    var loaded := Run(marked, g.frame);
    PacedSlotAtRest(loaded, last);
    RunPaced(loaded, g.copy, last);
    RunOk(loaded, g.copy);
    PacedSlotAtRest(Run(loaded, g.copy), last);
  }

  /** Some steps of the mixer in the reader's gaps lead to this result. */
  ghost predicate Possible(s: System, last: nat, r: Reading) {
    Ok(s) && exists g1, g2 :: ReadOf(s, last, g1, g2) == r
  }

  /** Some steps of the mixer lead one attempt from `s` to `t`. */
  ghost predicate Tried(s: System, last: nat, t: Try) {
    Ok(s) && exists g :: AttemptOf(s, last, g) == t
  }

  lemma OneAttempt(s: System, last: nat, t: Try)
    requires Tried(s, last, t)
    ensures t.outcome == CaughtUp ==> Possible(s, last, Reading(0, last, 0, false, t.newest, t.newest))
    ensures t.outcome == Delivered ==>
              Possible(s, last, Reading(1, Target(last, t.newest), Skipped(last, t.newest), false, t.newest, t.newest))
  {
    var g :| AttemptOf(s, last, g) == t;
    var r := ReadOf(s, last, g, g);
  }

  lemma TwoAttempts(s: System, last: nat, a: Try, b: Try)
    requires Tried(s, last, a) && a.outcome == Abandoned && Tried(a.after, last, b)
    ensures var counted := Skipped(last, a.newest) + Skipped(last, b.newest);
            && (b.outcome == Delivered ==>
                  Possible(s, last, Reading(1, Target(last, b.newest), counted, true, a.newest, b.newest)))
            && (b.outcome == Abandoned ==> Possible(s, last, Reading(-1, last, counted, true, a.newest, b.newest)))
  {
    var g1 :| AttemptOf(s, last, g1) == a;
    var g2 :| AttemptOf(a.after, last, g2) == b;
    var r := ReadOf(s, last, g1, g2);
  }

  /** Where the loop stands before attempt number `attempt`, the earlier ones abandoned. */
  ghost predicate Underway(s: System, last: nat, now: System, attempt: nat, counted: nat, first: nat,
                           newest: nat) {
    if attempt == 0 then Ok(s) && now == s && counted == 0
    else if attempt == 1 then Tried(s, last, Try(now, first, Abandoned)) && counted == Skipped(last, first)
    else Possible(s, last, Reading(-1, last, counted, true, first, newest))
  }

  lemma OneMoreAttempt(s: System, last: nat, now: System, attempt: nat, counted: nat, first: nat,
                       newest: nat, t: Try)
    requires attempt < 2 && Underway(s, last, now, attempt, counted, first, newest) && Tried(now, last, t)
    ensures var total := counted + Skipped(last, t.newest);
            var begun := if attempt == 0 then t.newest else first;
            && (t.outcome == CaughtUp && attempt == 0 ==>
                  Possible(s, last, Reading(0, last, 0, false, begun, t.newest)))
            && (t.outcome == Delivered ==>
                  Possible(s, last, Reading(1, Target(last, t.newest), total, attempt > 0, begun, t.newest)))
            && (t.outcome == Abandoned ==> Underway(s, last, t.after, attempt + 1, total, begun, t.newest))
  {
    if attempt == 0 { OneAttempt(s, last, t); } else { TwoAttempts(s, last, Try(now, first, Abandoned), t); }
  }

  /** What a possible result says: the frame aimed at (a first read three behind the publication its last
      attempt went by, a later one the next frame or the oldest of the newest eight) and the count, which
      is what was passed over if and only if no attempt was abandoned whose publication had already left
      the reader's next frame behind. */
  lemma PossibleMeans(s: System, last: nat, r: Reading)
    requires Possible(s, last, r)
    ensures r.status == 0 ==> s.memory.published <= last && r.counted == 0 && !r.retried
    ensures r.status != 0 ==> last < r.first && s.memory.published <= r.first <= r.newest
    ensures r.status == 1 && !r.retried ==> r.newest == r.first
    ensures r.status == 1 && last == 0 ==> r.last == (if r.newest > 3 then r.newest - 3 else 1) && r.counted == 0
    ensures r.status == 1 && last > 0 ==>
              && r.last == (if r.newest > last + 8 then r.newest - 7 else last + 1)
              && r.counted == (r.last - (last + 1))
                              + if r.retried && r.first > last + 8 then r.first - last - 8 else 0
    ensures r.status == 1 ==>
              (r.counted == Lost(last, r.last) <==> !(r.retried && last > 0 && r.first > last + 8))
  {
    PossibleIs(s, last, r);
    if last < r.newest { AimIs(last, r.newest); }
    if last < r.first { AimIs(last, r.first); }
  }

  /** The aim and the skip count in numbers. */
  lemma AimIs(last: nat, newest: nat)
    requires last < newest
    ensures last == 0 ==> Target(last, newest) == (if newest > 3 then newest - 3 else 1) && Skipped(last, newest) == 0
    ensures last > 0 ==>
              && Target(last, newest) == (if newest > last + 8 then newest - 7 else last + 1)
              && Skipped(last, newest) == if newest > last + 8 then newest - last - 8 else 0
  {
  }

  lemma PossibleIs(s: System, last: nat, r: Reading)
    requires Possible(s, last, r)
    ensures r.status == 0 ==> s.memory.published <= last && r.counted == 0 && !r.retried
    ensures r.status != 0 ==> last < r.first && s.memory.published <= r.first <= r.newest
    ensures r.status == 1 ==>
              && (r.retried || r.newest == r.first) && r.last == Target(last, r.newest)
              && r.counted == Skipped(last, r.newest) + if r.retried then Skipped(last, r.first) else 0
  {
    var g1, g2 :| ReadOf(s, last, g1, g2) == r;
    AttemptNewer(s, last, g1);
    var a := AttemptOf(s, last, g1);
    if a.outcome == Abandoned { AttemptNewer(a.after, last, g2); }
  }

  /** With pacing a read never fails, never retries and counts nothing; it takes the next frame. */
  lemma PacedReading(s: System, last: nat, r: Reading)
    requires Possible(s, last, r) && Paced(s, last)
    ensures r.status != -1 && !r.retried && r.counted == 0
    ensures r.status == 1 ==> r.last == last + 1
  {
    var g1, g2 :| ReadOf(s, last, g1, g2) == r;
    PacedAttempt(s, last, g1);
  }
}
