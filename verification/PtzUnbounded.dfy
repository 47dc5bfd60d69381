/** The worker's drain with no bound on how far the device's threads run ahead of it, overruns
    included: what it keeps in every case, and that it loses nothing while at most 64 tickets are
    outstanding. */
module PtzUnbounded {
  import opened PtzRing
  import opened PtzOverrun

  /** A hook step that no bound stops. */
  function FreeStep(s: System, a: Action): System
    requires Shaped(s)
  {
    HookStep(s, a, s.tickets + 1)
  }

  /** After an orderly start at `first`, if the tickets are still within one lap of it, everything is as
      with the bound. */
  ghost predicate Calm(s: System, read: nat, first: nat, orderly: bool) {
    Stamped(s) && first <= read && (orderly && s.tickets <= first + RING ==> Ok(s, read))
  }

  /** What steps without a bound keep, and what they keep within one lap of `first`. */
  ghost predicate Follows(a: System, b: System, read: nat, first: nat, orderly: bool) {
    && Stamped(a) && Stamped(b) && a.tickets <= b.tickets && a.events <= b.events
    && (orderly && b.tickets <= first + RING ==> Evolves(a, b, read))
  }

  lemma FreeStepCalm(s: System, a: Action, read: nat, first: nat, orderly: bool)
    requires Calm(s, read, first, orderly)
    ensures Calm(FreeStep(s, a), read, first, orderly) && Follows(s, FreeStep(s, a), read, first, orderly)
  {
    StampedStep(s, a, s.tickets + 1);
    var u := FreeStep(s, a);
    if orderly && u.tickets <= first + RING {
      HookStepOk(s, a, read);
      assert u == HookStep(s, a, read + RING);
    }
  }

  lemma FollowsTransitive(a: System, b: System, c: System, read: nat, first: nat, orderly: bool)
    requires Follows(a, b, read, first, orderly) && Follows(b, c, read, first, orderly)
    ensures Follows(a, c, read, first, orderly)
  {
    if orderly && c.tickets <= first + RING { EvolvesTransitive(a, b, c, read); }
  }

  /** Tickets of the batch rise, within what the drain moved past. */
  ghost predicate RisingBatch(batch: seq<Delivered>, first: nat, end: nat) {
    && (forall k :: 0 <= k < |batch| ==> first < batch[k].sequence <= end)
    && (forall k, l :: 0 <= k < l < |batch| ==> batch[k].sequence < batch[l].sequence)
  }

  class FreeRing {
    var slots: seq<Slot>
    var tickets: nat
    var writers: map<nat, Stage>
    var events: seq<Event>
    var readTicket: nat

    ghost function State(): System
      reads this
    {
      System(slots, tickets, writers, events)
    }

    constructor ()
      ensures State() == Empty && readTicket == 0
    {
      slots, tickets, writers, events := seq(RING, _ => Slot(0, 0, 0, 0)), 0, map[], [];
      readTicket := 0;
    }

    /** Device threads run for a while, however far. */
    method Interfere(ghost first: nat, ghost orderly: bool)
      requires Calm(State(), readTicket, first, orderly)
      modifies this
      ensures readTicket == old(readTicket)
      ensures Calm(State(), readTicket, first, orderly) && Follows(old(State()), State(), readTicket, first, orderly)
    {
      ghost var before := State();
      var steps: nat := *;
      while steps > 0
        invariant readTicket == old(readTicket)
        invariant Calm(State(), readTicket, first, orderly) && Follows(before, State(), readTicket, first, orderly)
      {
        ghost var here := State();
        var action: Action := *;
        FreeStepCalm(here, action, readTicket, first, orderly);
        var next := FreeStep(System(slots, tickets, writers, events), action);
        slots, tickets, writers, events := next.slots, next.tickets, next.writers, next.events;
        FollowsTransitive(before, here, State(), readTicket, first, orderly);
        steps := steps - 1;
      }
    }

    /** drain_ptz_events.  `lost` is the sum of the overruns it logs. */
    method Drain() returns (batch: seq<Delivered>, lost: nat)
      requires Stamped(State()) && readTicket <= tickets
      modifies this
      ensures Stamped(State()) && old(events) <= events && old(tickets) <= tickets
      // every ticket moved past is delivered or counted as lost, in order, and none twice
      ensures old(readTicket) + |batch| + lost == readTicket && |batch| <= RING
      ensures RisingBatch(batch, old(readTicket), readTicket) && readTicket <= tickets
      ensures lost > 0 ==> tickets > old(readTicket) + RING
      // from an orderly start and within one lap nothing is lost and every ticket comes with the command
      // of its own call
      ensures old(Ok(State(), readTicket)) && tickets <= old(readTicket) + RING ==>
                && lost == 0 && InOrder(batch, events, old(readTicket)) && Ok(State(), readTicket)
                && (|batch| < RING ==> !Committed(State(), readTicket))
    {
      ghost var first, orderly := readTicket, Ok(State(), readTicket);
      batch, lost := [], 0;
      var drained := 0;
      var more := true;
      while drained < RING && more
        invariant Calm(State(), readTicket, first, orderly) && 0 <= |batch| <= drained <= RING
        invariant old(events) <= events && old(tickets) <= tickets
        invariant first + |batch| + lost == readTicket
        invariant RisingBatch(batch, first, readTicket) && readTicket <= tickets
        invariant lost > 0 ==> tickets > first + RING
        invariant orderly && tickets <= first + RING ==> InOrder(batch, events, first)
        invariant lost == 0 && more ==> |batch| == drained
        invariant !more && orderly && tickets <= first + RING ==> !Committed(State(), readTicket)
        decreases RING - drained, more
      {
        ghost var before := events;
        var skipped, item;
        more, skipped, item := DrainSlot(first, orderly);
        if orderly && tickets <= first + RING { InOrderGrows(batch, before, events, first); }
        lost := lost + skipped;
        if more {
          if skipped == 0 { batch := batch + [item]; }
          drained := drained + 1;
        }
      }
    }

    /** The body of the loop: stop, skip an overrun, or take the slot's command. */
    method DrainSlot(ghost first: nat, ghost orderly: bool) returns (more: bool, skipped: nat, item: Delivered)
      requires Calm(State(), readTicket, first, orderly)
      modifies this
      ensures Calm(State(), readTicket, first, orderly) && old(events) <= events && old(tickets) <= tickets
      ensures !more ==> readTicket == old(readTicket) && skipped == 0
      ensures more ==> readTicket <= tickets
      ensures !more && orderly && tickets <= first + RING ==> !Committed(State(), readTicket)
      ensures skipped > 0 ==> more && readTicket == old(readTicket) + skipped && tickets > first + RING
      ensures more && skipped == 0 ==> readTicket == old(readTicket) + 1 == item.sequence
      ensures more && orderly && tickets <= first + RING ==>
                readTicket <= |events| && item == Delivered(readTicket, events[old(readTicket)])
    {
      Interfere(first, orderly);
      skipped, item := 0, Delivered(0, Event(0, 0, 0));
      var expected := readTicket + 1;
      var committed := slots[readTicket % RING].committed;
      if orderly && tickets <= first + RING { NextSlot(State(), readTicket); }
      if committed == 0 || committed < expected {
        return false, 0, item;
      }
      if committed != expected {
        OverrunMeansLapped(State(), readTicket);
        skipped := committed - expected;
        readTicket := committed - 1;
        return true, skipped, item;
      }
      var event := LoadFields(first, orderly);
      item := Delivered(committed, event);
      if orderly && tickets <= first + RING { DeliverOk(State(), readTicket); }
      readTicket := committed;
      more := true;
    }

    /** The three field loads. */
    method LoadFields(ghost first: nat, ghost orderly: bool) returns (event: Event)
      requires Calm(State(), readTicket, first, orderly)
      requires orderly && tickets <= first + RING ==> Committed(State(), readTicket)
      modifies this
      ensures Calm(State(), readTicket, first, orderly) && readTicket == old(readTicket)
      ensures old(events) <= events && old(tickets) <= tickets
      ensures orderly && tickets <= first + RING ==> Committed(State(), readTicket) && event == events[readTicket]
    {
      ghost var here := State();
      Interfere(first, orderly);
      var channel := slots[readTicket % RING].channel;
      ghost var afterChannel := State();
      Interfere(first, orderly);
      var command := slots[readTicket % RING].command;
      ghost var afterCommand := State();
      Interfere(first, orderly);
      var speed := slots[readTicket % RING].speed;
      event := Event(channel, command, speed);
      if orderly && tickets <= first + RING {
        assert Committed(afterChannel, readTicket) && Committed(afterCommand, readTicket);
        assert TicketOk(State(), readTicket);
      }
    }
  }
}
