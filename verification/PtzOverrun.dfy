/** What happens when the device's threads do run more than a lap ahead of the worker. */
module PtzOverrun {
  import opened PtzRing

  /** What a commit leaves behind, with no bound on how far the tickets run ahead. */
  predicate Stamped(s: System) {
    && Shaped(s)
    && forall j :: 0 <= j < RING ==>
         var c := s.slots[j].committed; c > 0 ==> c <= s.tickets && (c - 1) % RING == j
  }

  lemma StampedStep(s: System, a: Action, limit: nat)
    requires Stamped(s)
    ensures Stamped(HookStep(s, a, limit))
  {
  }

  /** The overrun branch is reached only when more than 64 tickets are outstanding. */
  lemma OverrunMeansLapped(s: System, read: nat)
    requires Stamped(s) && s.slots[read % RING].committed > read + 1
    ensures s.tickets > read + RING
  {
    var c := s.slots[read % RING].committed;
    assert (c - 1) % RING == read % RING && c - 1 > read;
    assert (c - 1 - read) % RING == 0;
  }

  ghost function RunTo(s: System, actions: seq<Action>, limit: nat): System
    requires Stamped(s)
    decreases actions
  {
    if actions == [] then s
    else StampedStep(s, actions[0], limit); RunTo(HookStep(s, actions[0], limit), actions[1..], limit)
  }

  /** The five steps of one hook call that nothing interrupts. */
  function Call(ticket: nat, e: Event): seq<Action> {
    [Take(e), Store(ticket), Store(ticket), Store(ticket), Store(ticket)]
  }

  function Calls(first: nat, n: nat, e: Event): seq<Action>
    decreases n
  {
    if n == 0 then [] else Call(first, e) + Calls(first + 1, n - 1, e)
  }

  lemma {:induction false} RunConcat(s: System, a: seq<Action>, b: seq<Action>, limit: nat)
    requires Stamped(s)
    ensures Stamped(RunTo(s, a, limit)) && RunTo(s, a + b, limit) == RunTo(RunTo(s, a, limit), b, limit)
    decreases a
  {
    if a == [] {
      assert a + b == b;
    } else {
      StampedStep(s, a[0], limit);
      RunConcat(HookStep(s, a[0], limit), a[1..], b, limit);
      assert (a + b)[1..] == a[1..] + b;
    }
  }

  lemma {:induction false} OneCall(s: System, e: Event, limit: nat)
    requires Stamped(s) && s.writers == map[] && s.tickets < limit && Supported(e.command)
    ensures var t := s.tickets;
            Stamped(RunTo(s, Call(t, e), limit)) &&
            RunTo(s, Call(t, e), limit)
            == System(s.slots[t % RING := Slot(t + 1, e.channel, e.command, e.speed)], t + 1, map[],
                      s.events + [e])
  {
    var t := s.tickets;
    var s1 := Step(s, Call(t, e), limit);
    var s2 := Step(s1, Call(t, e)[1..], limit);
    var s3 := Step(s2, Call(t, e)[1..][1..], limit);
    var s4 := Step(s3, Call(t, e)[1..][1..][1..], limit);
    var s5 := Step(s4, Call(t, e)[1..][1..][1..][1..], limit);
    assert Call(t, e)[1..][1..][1..][1..][1..] == [];
    assert s5.slots == s.slots[t % RING := Slot(t + 1, e.channel, e.command, e.speed)];
    assert s5.writers == map[];
  }

  lemma Step(s: System, actions: seq<Action>, limit: nat) returns (u: System)
    requires Stamped(s) && actions != []
    ensures u == HookStep(s, actions[0], limit) && Stamped(u)
    ensures RunTo(s, actions, limit) == RunTo(u, actions[1..], limit)
  {
    u := HookStep(s, actions[0], limit);
    StampedStep(s, actions[0], limit);
  }

  lemma {:induction false} ManyCalls(s: System, n: nat, e: Event, limit: nat)
    requires Stamped(s) && s.writers == map[] && s.tickets + n <= limit && Supported(e.command)
    ensures var u := RunTo(s, Calls(s.tickets, n, e), limit);
            && Stamped(u) && u.writers == map[] && u.tickets == s.tickets + n
            && (n > 0 ==> u.slots[(u.tickets - 1) % RING].committed == u.tickets)
    decreases n
  {
    if n > 0 {
      var t := s.tickets;
      OneCall(s, e, limit);
      var u := RunTo(s, Call(t, e), limit);
      RunConcat(s, Call(t, e), Calls(t + 1, n - 1, e), limit);
      ManyCalls(u, n - 1, e, limit);
    }
  }

  /** The bound of 64 is exact: with one ticket more, 65 undrained calls make the worker's first
      look at slot 0 an overrun, and the command of ticket 0 is gone. */
  lemma {:induction false} SixtyFiveOverrun(e: Event)
    requires Supported(e.command)
    ensures Stamped(Empty)
    ensures var lapped := RunTo(Empty, Calls(0, RING + 1, e), RING + 1);
            Stamped(lapped) && lapped.writers == map[] && lapped.slots[0].committed == RING + 1
  {
    Lapped(RING + 1, e);
  }

  lemma {:induction false} Lapped(n: nat, e: Event)
    requires Supported(e.command) && n % RING == 1
    ensures Stamped(Empty)
    ensures var lapped := RunTo(Empty, Calls(0, n, e), n);
            Stamped(lapped) && lapped.writers == map[] && lapped.slots[0].committed == n
  {
    ManyCalls(Empty, n, e, n);
  }

  /** The worker's next look would be an overrun. */
  predicate Overrun(s: System, read: nat)
    requires Shaped(s)
  {
    s.slots[read % RING].committed > read + 1
  }

  lemma {:induction false} TicketsBounded(s: System, actions: seq<Action>, limit: nat)
    requires Stamped(s) && s.tickets <= limit
    ensures Stamped(RunTo(s, actions, limit)) && RunTo(s, actions, limit).tickets <= limit
    decreases actions
  {
    if actions != [] {
      StampedStep(s, actions[0], limit);
      TicketsBounded(HookStep(s, actions[0], limit), actions[1..], limit);
    }
  }

  function Left(stage: Stage): nat {
    match stage case StoringChannel => 4 case StoringCommand => 3 case StoringSpeed => 2 case Committing => 1
  }

  /** A call that holds a ticket can finish. */
  lemma {:induction false} FinishCall(s: System, w: nat, limit: nat) returns (actions: seq<Action>)
    requires Stamped(s) && w in s.writers
    ensures var u := RunTo(s, actions, limit);
            Stamped(u) && u.writers == s.writers - {w} && u.tickets == s.tickets
    decreases Left(s.writers[w])
  {
    var u := HookStep(s, Store(w), limit);
    StampedStep(s, Store(w), limit);
    var rest := [];
    if w in u.writers {
      rest := FinishCall(u, w, limit);
      assert u.writers - {w} == s.writers - {w};
    }
    actions := [Store(w)] + rest;
    assert actions[1..] == rest;
  }

  /** All of them can. */
  lemma {:induction false} FinishCalls(s: System, limit: nat) returns (actions: seq<Action>)
    requires Stamped(s)
    ensures var u := RunTo(s, actions, limit);
            Stamped(u) && u.writers == map[] && u.tickets == s.tickets
    decreases |s.writers|
  {
    actions := [];
    if s.writers != map[] {
      var w :| w in s.writers;
      var one := FinishCall(s, w, limit);
      var u := RunTo(s, one, limit);
      assert s.writers.Keys == u.writers.Keys + {w};
      var rest := FinishCalls(u, limit);
      RunConcat(s, one, rest, limit);
      actions := one + rest;
    }
  }

  /** From any state with at most 64 tickets outstanding: no schedule that stays within the bound makes
      the worker's next look an overrun, if and only if the bound is at most 64. */
  lemma {:induction false} BoundExact(s: System, read: nat, bound: nat)
    requires Stamped(s) && s.tickets <= read + bound && s.tickets <= read + RING
    ensures (forall actions :: !OverrunAfter(s, actions, read, bound)) <==> bound <= RING
  {
    if bound <= RING {
      forall actions ensures !OverrunAfter(s, actions, read, bound) {
        TicketsBounded(s, actions, read + bound);
        if OverrunAfter(s, actions, read, bound) { OverrunMeansLapped(RunTo(s, actions, read + bound), read); }
      }
    } else {
      var e := Event(0, 0, 0);
      var limit := read + bound;
      var finish := FinishCalls(s, limit);
      var u := RunTo(s, finish, limit);
      var n := read + RING + 1 - u.tickets;
      ManyCalls(u, n, e, limit);
      RunConcat(s, finish, Calls(u.tickets, n, e), limit);
      assert (read + RING) % RING == read % RING;
      assert OverrunAfter(s, finish + Calls(u.tickets, n, e), read, bound);
    }
  }

  ghost predicate OverrunAfter(s: System, actions: seq<Action>, read: nat, bound: nat)
    requires Stamped(s) && s.tickets <= read + bound
  {
    TicketsBounded(s, actions, read + bound);
    Overrun(RunTo(s, actions, read + bound), read)
  }
}
