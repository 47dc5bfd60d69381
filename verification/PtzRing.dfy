/** The multi-producer ring that carries camera pan and tilt commands from the device's own threads
    to the worker.

    Any number of hook calls run at once.  Each takes a ticket with one atomic increment, writes its
    three fields into the ticket's slot and then commits the slot by storing ticket + 1.  The worker
    drains committed slots in ticket order.  Every store of every hook call is a step of its own. */
module PtzRing {

  const RING := 64

  datatype Event = Event(channel: int, command: int, speed: int)

  datatype Slot = Slot(committed: nat, channel: int, command: int, speed: int)

  /** The next store of a hook call that holds a ticket. */
  datatype Stage = StoringChannel | StoringCommand | StoringSpeed | Committing

  /** `writers` are the calls between ticket and commit, by ticket.  `events[t]` is the command the
      call with ticket t was made for. */
  datatype System = System(slots: seq<Slot>, tickets: nat, writers: map<nat, Stage>, events: seq<Event>)

  /** A hook call takes its ticket, or the call with the given ticket does its next store. */
  datatype Action = Take(event: Event) | Store(ticket: nat)

  predicate Supported(command: int) {
    0 <= command <= 14 || 18 <= command <= 21 || command == 25 || 32 <= command <= 37
  }

  predicate Shaped(s: System) {
    && |s.slots| == RING
    && |s.events| == s.tickets
    && forall t :: t in s.writers ==> t < s.tickets
  }

  /** One step of one hook call.  `limit` is where the device's threads stop taking tickets; a step
      that is not possible changes nothing. */
  function HookStep(s: System, a: Action, limit: nat): System
    requires Shaped(s)
  {
    match a
    case Take(e) =>
      if Supported(e.command) && s.tickets < limit then
        s.(tickets := s.tickets + 1, writers := s.writers[s.tickets := StoringChannel],
           events := s.events + [e])
      else s
    case Store(t) =>
      if t !in s.writers then s else
      var j := t % RING;
      var slot := s.slots[j];
      match s.writers[t]
      case StoringChannel =>
        s.(slots := s.slots[j := slot.(channel := s.events[t].channel)],
           writers := s.writers[t := StoringCommand])
      case StoringCommand =>
        s.(slots := s.slots[j := slot.(command := s.events[t].command)],
           writers := s.writers[t := StoringSpeed])
      case StoringSpeed =>
        s.(slots := s.slots[j := slot.(speed := s.events[t].speed)],
           writers := s.writers[t := Committing])
      case Committing =>
        s.(slots := s.slots[j := slot.(committed := t + 1)],
           writers := s.writers - {t})
  }

  /** A call takes a ticket exactly for these commands. */
  lemma TicketCommands(s: System, e: Event, limit: nat)
    requires Shaped(s) && s.tickets < limit
    ensures HookStep(s, Take(e), limit).tickets == s.tickets + 1
            <==> e.command in {0, 1, 2, 3, 4, 5, 6, 7, 8, 9, 10, 11, 12, 13, 14, 18, 19, 20, 21, 25,
                               32, 33, 34, 35, 36, 37}
    ensures HookStep(s, Take(e), limit).tickets == s.tickets ==> HookStep(s, Take(e), limit) == s
  {
  }

  // ---------------------------------------------------------------- the invariant

  predicate Committed(s: System, t: nat)
    requires |s.slots| == RING
  {
    t < s.tickets && t !in s.writers && s.slots[t % RING].committed == t + 1
  }

  /** The slot of an outstanding ticket: being written, or complete and waiting for the drain. */
  predicate TicketOk(s: System, t: nat)
    requires Shaped(s) && t < s.tickets
  {
    var slot := s.slots[t % RING];
    var e := s.events[t];
    if t in s.writers then
      && slot.committed <= t
      && (s.writers[t] != StoringChannel ==> slot.channel == e.channel)
      && (s.writers[t] == StoringSpeed || s.writers[t] == Committing ==> slot.command == e.command)
      && (s.writers[t] == Committing ==> slot.speed == e.speed)
    else
      slot == Slot(t + 1, e.channel, e.command, e.speed)
  }

  /** The ring as the worker may rely on it when its next ticket is `read`. */
  ghost predicate Ok(s: System, read: nat) {
    && Shaped(s)
    && read <= s.tickets <= read + RING
    && (forall t :: t in s.writers ==> read <= t)
    && (forall t :: read <= t < s.tickets ==> TicketOk(s, t))
    && (forall j :: 0 <= j < RING ==> s.slots[j].committed <= s.tickets)
    && (forall t :: 0 <= t < s.tickets ==> Supported(s.events[t].command))
  }

  const Empty := System(seq(RING, _ => Slot(0, 0, 0, 0)), 0, map[], [])

  /** What the worker may rely on across hook steps: commands are only added, and a committed slot
      that is still outstanding stays as it is. */
  ghost predicate Evolves(a: System, b: System, read: nat)
    requires Shaped(a) && Shaped(b)
  {
    && a.events <= b.events
    && forall t :: read <= t < a.tickets && Committed(a, t) ==>
                   Committed(b, t) && b.slots[t % RING] == a.slots[t % RING]
  }

  lemma HookStepOk(s: System, a: Action, read: nat)
    requires Ok(s, read)
    ensures Ok(HookStep(s, a, read + RING), read)
    ensures Evolves(s, HookStep(s, a, read + RING), read)
  {
    match a {
      case Take(e) => TakeOk(s, e, read);
      case Store(t) => if t in s.writers { StoreOk(s, t, read); }
    }
  }

  lemma TakeOk(s: System, e: Event, read: nat)
    requires Ok(s, read)
    ensures Ok(HookStep(s, Take(e), read + RING), read)
    ensures Evolves(s, HookStep(s, Take(e), read + RING), read)
  {
    var u := HookStep(s, Take(e), read + RING);
    if u != s {
      forall t | read <= t < u.tickets ensures TicketOk(u, t) {
        if t < s.tickets { assert TicketOk(s, t); }
      }
    }
  }

  lemma StoreOk(s: System, w: nat, read: nat)
    requires Ok(s, read) && w in s.writers
    ensures Ok(HookStep(s, Store(w), read + RING), read)
    ensures Evolves(s, HookStep(s, Store(w), read + RING), read)
  {
    var u := HookStep(s, Store(w), read + RING);
    assert TicketOk(s, w);
    forall t | read <= t < u.tickets ensures TicketOk(u, t) {
      assert TicketOk(s, t);
      if t != w { DistinctSlots(t, w); }
    }
    forall t | read <= t < s.tickets && Committed(s, t)
      ensures Committed(u, t) && u.slots[t % RING] == s.slots[t % RING]
    {
      DistinctSlots(t, w);
    }
  }

  lemma DistinctSlots(t: nat, w: nat)
    requires t != w && -RING < t - w < RING
    ensures t % RING != w % RING
  {
  }

  ghost function Run(s: System, actions: seq<Action>, read: nat): System
    requires Ok(s, read)
    decreases actions
  {
    if actions == [] then s
    else HookStepOk(s, actions[0], read);
         Run(HookStep(s, actions[0], read + RING), actions[1..], read)
  }

  lemma {:induction false} RunOk(s: System, actions: seq<Action>, read: nat)
    requires Ok(s, read)
    ensures Ok(Run(s, actions, read), read) && Evolves(s, Run(s, actions, read), read)
    decreases actions
  {
    if actions != [] {
      var u := HookStep(s, actions[0], read + RING);
      HookStepOk(s, actions[0], read);
      RunOk(u, actions[1..], read);
      EvolvesTransitive(s, u, Run(s, actions, read), read);
    }
  }

  lemma EvolvesTransitive(a: System, b: System, c: System, read: nat)
    requires Shaped(a) && Shaped(b) && Shaped(c)
    requires Evolves(a, b, read) && Evolves(b, c, read)
    ensures Evolves(a, c, read)
  {
  }

  lemma {:induction false} RunAppend(s: System, actions: seq<Action>, a: Action, read: nat)
    requires Ok(s, read)
    ensures Ok(Run(s, actions, read), read)
    ensures Run(s, actions + [a], read) == HookStep(Run(s, actions, read), a, read + RING)
    decreases actions
  {
    RunOk(s, actions, read);
    if actions == [] {
      HookStepOk(s, a, read);
      assert Run(HookStep(s, a, read + RING), [], read) == HookStep(s, a, read + RING);
    } else {
      HookStepOk(s, actions[0], read);
      RunAppend(HookStep(s, actions[0], read + RING), actions[1..], a, read);
      assert (actions + [a])[1..] == actions[1..] + [a];
    }
  }

  /** Delivering the oldest outstanding ticket moves the window on by one. */
  lemma DeliverOk(s: System, read: nat)
    requires Ok(s, read) && read < s.tickets && read !in s.writers
    ensures Ok(s, read + 1)
  {
  }

  /** The worker never meets a slot from a later lap: the slot it looks at is either not yet
      committed for its ticket, or holds exactly that ticket's command. */
  lemma NextSlot(s: System, read: nat)
    requires Ok(s, read)
    ensures var slot := s.slots[read % RING];
            if slot.committed < read + 1 then !Committed(s, read)
            else
              && Committed(s, read)
              && slot == Slot(read + 1, s.events[read].channel, s.events[read].command,
                              s.events[read].speed)
  {
    if read < s.tickets { assert TicketOk(s, read); }
  }

  // ---------------------------------------------------------------- the worker

  datatype Delivered = Delivered(sequence: nat, event: Event)

  ghost predicate InOrder(batch: seq<Delivered>, events: seq<Event>, first: nat) {
    && first + |batch| <= |events|
    && forall k :: 0 <= k < |batch| ==> batch[k] == Delivered(first + k + 1, events[first + k])
  }

  lemma InOrderGrows(batch: seq<Delivered>, events: seq<Event>, more: seq<Event>, first: nat)
    requires InOrder(batch, events, first) && events <= more
    ensures InOrder(batch, more, first)
  {
  }

  /** The n tickets from `read` on are all committed. */
  ghost predicate AllCommitted(s: System, read: nat, n: nat)
    requires |s.slots| == RING
  {
    forall t :: read <= t < read + n ==> Committed(s, t)
  }

  lemma NotYetDelivered(start: System, end: System, first: nat, read: nat)
    requires Shaped(start) && Shaped(end) && first <= read && Evolves(start, end, read)
    ensures !Committed(end, read) ==> forall n: nat :: AllCommitted(start, first, n) ==> n <= read - first
  {
    if !Committed(end, read) {
      forall n: nat | AllCommitted(start, first, n) ensures n <= read - first {
        assert n > read - first ==> Committed(start, read);
      }
    }
  }

  class PtzRing {
    var slots: seq<Slot>
    var tickets: nat
    var writers: map<nat, Stage>
    var events: seq<Event>
    var readTicket: nat
    ghost var delivered: seq<Event>

    ghost function State(): System
      reads this
    {
      System(slots, tickets, writers, events)
    }

    /** Everything delivered so far is the command of tickets 0, 1, 2, ... once each, in order. */
    ghost predicate Valid()
      reads this
    {
      Ok(State(), readTicket) && delivered == events[..readTicket]
    }

    constructor ()
      ensures Valid() && State() == Empty && readTicket == 0 && delivered == []
    {
      slots, tickets, writers, events := seq(RING, _ => Slot(0, 0, 0, 0)), 0, map[], [];
      readTicket, delivered := 0, [];
    }

    /** Device threads run for a while, never more than 64 tickets ahead of the worker. */
    method Interfere()
      requires Valid()
      modifies this
      ensures Valid() && readTicket == old(readTicket) && delivered == old(delivered)
      ensures Shaped(old(State())) && Evolves(old(State()), State(), readTicket)
      ensures exists actions :: State() == Run(old(State()), actions, readTicket)
    {
      ghost var before := State();
      ghost var actions: seq<Action> := [];
      ghost var read, done := readTicket, delivered;
      var steps: nat := *;
      while steps > 0
        invariant Ok(before, read) && State() == Run(before, actions, read)
        invariant readTicket == read && delivered == done
      {
        var action: Action := *;
        RunOk(before, actions, read);
        RunAppend(before, actions, action, read);
        actions := actions + [action];
        var next := HookStep(System(slots, tickets, writers, events), action, readTicket + RING);
        slots, tickets, writers, events := next.slots, next.tickets, next.writers, next.events;
        steps := steps - 1;
      }
      RunOk(before, actions, read);
    }

    /** drain_ptz_events: at most 64 slots, stopping at the first one not yet committed. */
    method Drain() returns (batch: seq<Delivered>)
      requires Valid()
      modifies this
      ensures Valid() && |batch| <= RING && Shaped(old(State()))
      ensures readTicket == old(readTicket) + |batch|
      // each ticket once, in order, with the command of the call that took it
      ensures old(events) <= events && delivered == old(delivered) + events[old(readTicket)..readTicket]
      ensures InOrder(batch, events, old(readTicket))
      // stopping early means the next ticket was not committed ...
      ensures |batch| < RING ==> !Committed(State(), readTicket)
      // ... so whatever was committed without a gap when the drain began has been delivered
      ensures forall n: nat :: n <= RING && AllCommitted(old(State()), old(readTicket), n) ==> n <= |batch|
    {
      ghost var start := State();
      ghost var first := readTicket;
      batch := [];
      var drained := 0;
      while drained < RING
        invariant Valid() && 0 <= drained == |batch| <= RING
        invariant readTicket == first + |batch|
        invariant Shaped(start) && Evolves(start, State(), readTicket)
        invariant delivered == old(delivered) + events[first..readTicket]
        invariant InOrder(batch, events, first)
      {
        ghost var eventsBefore := events;
        var more, item := DrainSlot(start);
        InOrderGrows(batch, eventsBefore, events, first);
        if !more {
          break;
        }
        batch := batch + [item];
        drained := drained + 1;
      }
      NotYetDelivered(start, State(), first, readTicket);
    }

    /** The body of the loop: look at the slot of the next ticket and, if it is committed, take it.
        A slot committed for a later lap would be an overrun; none is ever met. */
    method DrainSlot(ghost start: System) returns (more: bool, item: Delivered)
      requires Valid() && Shaped(start) && Evolves(start, State(), readTicket)
      modifies this
      ensures Valid() && old(events) <= events && Evolves(start, State(), readTicket)
      ensures !more ==> readTicket == old(readTicket) && delivered == old(delivered)
      ensures !more ==> !Committed(State(), readTicket)
      ensures more ==>
                && readTicket == old(readTicket) + 1 <= |events|
                && delivered == old(delivered) + [events[old(readTicket)]]
                && item == Delivered(readTicket, events[old(readTicket)])
    {
      ghost var here := State();
      Interfere();
      EvolvesTransitive(start, here, State(), readTicket);
      item := Delivered(0, Event(0, 0, 0));
      var expected := readTicket + 1;
      var committed := slots[readTicket % RING].committed;
      NextSlot(State(), readTicket);
      if committed == 0 || committed < expected {
        return false, item;
      }
      assert committed == expected;
      var event := LoadFields(start);
      item := Delivered(committed, event);
      DeliverOk(State(), readTicket);
      delivered := delivered + [events[readTicket]];
      readTicket := committed;
      more := true;
    }

    /** The three field loads of a committed slot, each with the device's threads running before it. */
    method LoadFields(ghost start: System) returns (event: Event)
      requires Valid() && Committed(State(), readTicket)
      requires Shaped(start) && Evolves(start, State(), readTicket)
      modifies this
      ensures Valid() && Committed(State(), readTicket) && Evolves(start, State(), readTicket)
      ensures readTicket == old(readTicket) && delivered == old(delivered) && old(events) <= events
      ensures event == events[readTicket]
    {
      ghost var here := State();
      Interfere();
      var channel := slots[readTicket % RING].channel;
      ghost var afterChannel := State();
      Interfere();
      var command := slots[readTicket % RING].command;
      ghost var afterCommand := State();
      Interfere();
      var speed := slots[readTicket % RING].speed;
      EvolvesTransitive(start, here, afterChannel, readTicket);
      EvolvesTransitive(start, afterChannel, afterCommand, readTicket);
      EvolvesTransitive(start, afterCommand, State(), readTicket);
      assert Committed(afterChannel, readTicket) && Committed(afterCommand, readTicket);
      assert TicketOk(State(), readTicket);
      event := Event(channel, command, speed);
    }
  }
}
