/** The HTTP controller's table of held keys: 64 entries of browser key codes, several of which stand
    for the same Doom key, that must look to the game like a keyboard with plain up and down. */
module HeldKeys {

  const HELD_CODES := 64
  const CODE_SIZE := 24
  const DEADMAN_MS := 2500

  /** The engine's key numbers: the number of keys, the first function key and the fixed table of
      special codes. */
  datatype Layout = Layout(keys: nat, f1: int, special: seq<(string, int)>)

  function Look(special: seq<(string, int)>, code: string): int {
    if special == [] then -1
    else if special[0].0 == code then special[0].1
    else Look(special[1..], code)
  }

  predicate In(c: char, low: char, high: char) { low <= c <= high }

  /** http_key_for_code; -1 for a code it does not know. */
  function KeyForCode(layout: Layout, code: string): int {
    if |code| == 4 && code[..3] == "Key" && In(code[3], 'A', 'Z') then
      code[3] as int - 'A' as int + 'a' as int
    else if |code| == 6 && code[..5] == "Digit" && In(code[5], '0', '9') then code[5] as int
    else if |code| == 7 && code[..6] == "Numpad" && In(code[6], '0', '9') then code[6] as int
    else if |code| == 2 && code[0] == 'F' && In(code[1], '1', '9') then
      layout.f1 + (code[1] as int - '0' as int) - 1
    else if |code| == 3 && code[0] == 'F' && code[1] == '1' && In(code[2], '0', '2') then
      layout.f1 + 10 + (code[2] as int - '0' as int) - 1
    else Look(layout.special, code)
  }

  /** Letters, both rows of digits and the twelve function keys; a digit and its keypad twin are one key. */
  lemma FixedCodes(layout: Layout, c: char)
    ensures In(c, 'A', 'Z') ==> KeyForCode(layout, "Key" + [c]) == c as int + 32
    ensures In(c, '0', '9') ==> KeyForCode(layout, "Digit" + [c]) == KeyForCode(layout, "Numpad" + [c]) == c as int
    ensures In(c, '1', '9') ==> KeyForCode(layout, "F" + [c]) == layout.f1 + (c as int - '1' as int)
    ensures In(c, '0', '2') ==> KeyForCode(layout, "F1" + [c]) == layout.f1 + 9 + (c as int - '0' as int)
  {
    assert ("Key" + [c])[..3] == "Key";
    assert ("Digit" + [c])[..5] == "Digit";
    assert ("Numpad" + [c])[..6] == "Numpad";
  }

  /** A special code has the key of its own entry, if no earlier entry has the same code. */
  lemma {:induction false} SpecialCodes(special: seq<(string, int)>, i: nat)
    requires i < |special| && forall k :: 0 <= k < i ==> special[k].0 != special[i].0
    ensures Look(special, special[i].0) == special[i].1
  {
    if i > 0 { SpecialCodes(special[1..], i - 1); }
  }

  /** The codes whose key the table can hold. */
  predicate Known(layout: Layout, code: string) {
    0 <= KeyForCode(layout, code) < layout.keys && |code| < CODE_SIZE
  }

  // ---------------------------------------------------------------- the keyboard the game sees

  datatype Event = Event(down: bool, key: int)

  predicate IsDown(log: seq<Event>, key: int) {
    log != [] && (if log[|log| - 1].key == key then log[|log| - 1].down else IsDown(log[..|log| - 1], key))
  }

  /** No key goes down twice or up twice. */
  predicate Alternating(log: seq<Event>) {
    log != [] ==>
      && Alternating(log[..|log| - 1])
      && IsDown(log[..|log| - 1], log[|log| - 1].key) != log[|log| - 1].down
  }

  function Count(log: seq<Event>, event: Event): nat {
    if log == [] then 0
    else Count(log[..|log| - 1], event) + if log[|log| - 1] == event then 1 else 0
  }

  /** Over a whole run every key went down exactly as often as it came up, once more if it is down. */
  lemma {:induction false} DownsMatchUps(log: seq<Event>, key: int)
    requires Alternating(log)
    ensures Count(log, Event(true, key)) == Count(log, Event(false, key)) + if IsDown(log, key) then 1 else 0
  {
    if log != [] { DownsMatchUps(log[..|log| - 1], key); }
  }

  lemma {:induction false} Posted(log: seq<Event>, event: Event)
    ensures forall key :: IsDown(log + [event], key) == if key == event.key then event.down else IsDown(log, key)
    ensures Alternating(log + [event]) == (Alternating(log) && IsDown(log, event.key) != event.down)
  {
    assert (log + [event])[..|log|] == log;
  }

  // ---------------------------------------------------------------- the set of held codes

  /** Some held code stands for the key. */
  ghost predicate Aliased(layout: Layout, held: set<string>, key: int) {
    exists code :: code in held && KeyForCode(layout, code) == key
  }

  /** What the game is told when the set of held codes changes by one code of this key. */
  ghost function Told(layout: Layout, before: set<string>, after: set<string>, key: int): (events: seq<Event>) {
    if Aliased(layout, before, key) == Aliased(layout, after, key) then []
    else [Event(Aliased(layout, after, key), key)]
  }

  /** One up event for each key that some held code stands for, in key order from `from` on. */
  ghost function Lifts(layout: Layout, held: set<string>, from: nat): (events: seq<Event>)
    requires from <= layout.keys
    decreases layout.keys - from
  {
    if from == layout.keys then []
    else (if Aliased(layout, held, from) then [Event(false, from)] else []) + Lifts(layout, held, from + 1)
  }

  lemma {:induction false} CountAppend(a: seq<Event>, b: seq<Event>, event: Event)
    ensures Count(a + b, event) == Count(a, event) + Count(b, event)
  {
    if b == [] {
      assert a + b == a;
    } else {
      assert (a + b)[..|a + b| - 1] == a + b[..|b| - 1];
      CountAppend(a, b[..|b| - 1], event);
    }
  }

  /** Releasing everything lifts each key that is down once and no other, and presses none. */
  lemma {:induction false} LiftsOnce(layout: Layout, held: set<string>, from: nat, event: Event)
    requires from <= layout.keys
    ensures Count(Lifts(layout, held, from), event)
            == if !event.down && from <= event.key < layout.keys && Aliased(layout, held, event.key) then 1 else 0
    decreases layout.keys - from
  {
    if from < layout.keys {
      LiftsOnce(layout, held, from + 1, event);
      var first := if Aliased(layout, held, from) then [Event(false, from)] else [];
      CountAppend(first, Lifts(layout, held, from + 1), event);
      assert first != [] ==> first[..0] == [];
    }
  }

  // A run of requests, on the set, the log and the time of the last activity alone.

  datatype Keyboard = Keyboard(held: set<string>, activity: nat, log: seq<Event>)

  /** What reaches the controller: keys, a heartbeat, a release of everything, and the dead-man check. */
  datatype Request =
    | Press(code: string, now: nat)
    | Release(code: string, now: nat)
    | Heartbeat(now: nat)
    | ReleaseEverything
    | Check(now: nat)

  predicate Accepts(layout: Layout, held: set<string>, code: string) {
    Known(layout, code) && (code in held || |held| < HELD_CODES)
  }

  ghost function Switched(layout: Layout, k: Keyboard, code: string, held: set<string>, now: nat): Keyboard {
    Keyboard(held, now, k.log + Told(layout, k.held, held, KeyForCode(layout, code)))
  }

  ghost function Next(layout: Layout, k: Keyboard, request: Request): Keyboard {
    match request
    case Press(code, now) =>
      if Accepts(layout, k.held, code) then Switched(layout, k, code, k.held + {code}, now) else k
    case Release(code, now) =>
      if Accepts(layout, k.held, code) then Switched(layout, k, code, k.held - {code}, now) else k
    case Heartbeat(now) => k.(activity := now)
    case ReleaseEverything => k.(held := {}, log := k.log + Lifts(layout, k.held, 0))
    case Check(now) =>
      if k.activity != 0 && now - k.activity > DEADMAN_MS then
        Keyboard({}, 0, k.log + Lifts(layout, k.held, 0))
      else k
  }

  ghost function After(layout: Layout, k: Keyboard, requests: seq<Request>): Keyboard {
    if requests == [] then k
    else Next(layout, After(layout, k, requests[..|requests| - 1]), requests[|requests| - 1])
  }

  function TimeOf(request: Request, before: nat): nat {
    if request.ReleaseEverything? then before else request.now
  }

  /** Requests in the order of a clock that has started and does not go back. */
  predicate Clocked(requests: seq<Request>, from: nat) {
    from > 0
    && forall i :: 0 <= i < |requests| ==>
         from <= TimeOf(requests[i], from)
         && forall j :: i < j < |requests| ==>
              requests[j].ReleaseEverything? || TimeOf(requests[i], from) <= requests[j].now
  }

  /** The log agrees with the set. */
  ghost predicate Agrees(layout: Layout, log: seq<Event>, held: set<string>) {
    Alternating(log) && forall key :: IsDown(log, key) <==> Aliased(layout, held, key)
  }

  lemma ToldAgrees(layout: Layout, log: seq<Event>, held: set<string>, code: string, down: bool)
    requires Agrees(layout, log, held)
    ensures var after := if down then held + {code} else held - {code};
            Agrees(layout, log + Told(layout, held, after, KeyForCode(layout, code)), after)
  {
    var key, after := KeyForCode(layout, code), if down then held + {code} else held - {code};
    forall other | other != key ensures Aliased(layout, held, other) <==> Aliased(layout, after, other) {
      if Aliased(layout, held, other) {
        var c :| c in held && KeyForCode(layout, c) == other;
        assert c in after;
      }
    }
    if Aliased(layout, held, key) == Aliased(layout, after, key) {
      assert log + [] == log;
    } else {
      Posted(log, Event(Aliased(layout, after, key), key));
    }
  }

  lemma {:induction false} LiftsAgree(layout: Layout, log: seq<Event>, held: set<string>, from: nat)
    requires from <= layout.keys && Alternating(log)
    requires forall code :: code in held ==> Known(layout, code)
    requires forall key :: IsDown(log, key) <==> from <= key && Aliased(layout, held, key)
    ensures Agrees(layout, log + Lifts(layout, held, from), {})
    decreases layout.keys - from
  {
    if from == layout.keys {
      assert log + [] == log;
    } else if Aliased(layout, held, from) {
      Posted(log, Event(false, from));
      LiftsAgree(layout, log + [Event(false, from)], held, from + 1);
      assert log + Lifts(layout, held, from)
          == log + [Event(false, from)] + Lifts(layout, held, from + 1);
    } else {
      LiftsAgree(layout, log, held, from + 1);
      assert Lifts(layout, held, from) == Lifts(layout, held, from + 1);
    }
  }

  // ---------------------------------------------------------------- the table

  datatype Entry = Entry(code: string, key: int, held: bool)

  predicate EntryOk(layout: Layout, e: Entry) {
    if e.code == "" then !e.held else Known(layout, e.code) && e.key == KeyForCode(layout, e.code)
  }

  predicate Distinct(table: seq<Entry>) {
    forall i, j :: 0 <= i < j < |table| && table[i].code != "" ==> table[i].code != table[j].code
  }

  predicate TableOk(layout: Layout, table: seq<Entry>) {
    && (forall i :: 0 <= i < |table| ==> EntryOk(layout, table[i]))
    && Distinct(table)
  }

  function HeldCodes(table: seq<Entry>): set<string> {
    set i | 0 <= i < |table| && table[i].held :: table[i].code
  }

  predicate Full(table: seq<Entry>) {
    forall i :: 0 <= i < |table| ==> table[i].held
  }

  lemma HeldLast(layout: Layout, table: seq<Entry>)
    requires TableOk(layout, table) && table != []
    ensures var n := |table| - 1;
            && TableOk(layout, table[..n])
            && (Full(table) <==> Full(table[..n]) && table[n].held)
            && HeldCodes(table) == HeldCodes(table[..n]) + (if table[n].held then {table[n].code} else {})
            && (table[n].held ==> table[n].code !in HeldCodes(table[..n]))
  {
    var n := |table| - 1;
    assert EntryOk(layout, table[n]);
    assert forall i :: 0 <= i < n && table[i].held ==> table[i].code != "" && EntryOk(layout, table[i]);
  }

  lemma OneMore(s: set<string>, code: string)
    ensures code !in s ==> |s + {code}| == |s| + 1
    ensures s + {} == s
  {
  }

  /** The set is as large as the table exactly when every entry is held. */
  lemma {:induction false} HeldCount(layout: Layout, table: seq<Entry>)
    requires TableOk(layout, table)
    ensures |HeldCodes(table)| <= |table|
    ensures |HeldCodes(table)| == |table| <==> Full(table)
  {
    if table != [] {
      var n := |table| - 1;
      HeldLast(layout, table);
      HeldCount(layout, table[..n]);
      OneMore(HeldCodes(table[..n]), table[n].code);
    }
  }

  lemma Room(layout: Layout, table: seq<Entry>, code: string)
    requires TableOk(layout, table)
    ensures |HeldCodes(table)| < |table| <==> !Full(table)
    ensures Full(table) && (exists i :: 0 <= i < |table| && table[i].code == code) ==> code in HeldCodes(table)
    ensures (forall i :: 0 <= i < |table| ==> table[i].code != code) ==> code !in HeldCodes(table)
  {
    HeldCount(layout, table);
  }

  /** Looking up by key in the table is looking up by alias in the set. */
  lemma KeyHeldMeans(layout: Layout, table: seq<Entry>, key: int)
    requires TableOk(layout, table)
    ensures (exists i :: 0 <= i < |table| && table[i].held && table[i].key == key)
            <==> Aliased(layout, HeldCodes(table), key)
  {
  }

  /** Writing one entry changes the set by that entry's codes only. */
  lemma Rewritten(layout: Layout, table: seq<Entry>, at: nat, entry: Entry)
    requires TableOk(layout, table) && at < |table| && entry.code != "" && EntryOk(layout, entry)
    requires table[at].code == entry.code
             || (!table[at].held && forall i :: 0 <= i < |table| ==> table[i].code != entry.code)
    ensures TableOk(layout, table[at := entry])
    ensures HeldCodes(table[at := entry])
            == if entry.held then HeldCodes(table) + {entry.code} else HeldCodes(table) - {entry.code}
  {
    var now := table[at := entry];
    forall code
      ensures code in HeldCodes(now) <==>
              code in if entry.held then HeldCodes(table) + {entry.code} else HeldCodes(table) - {entry.code}
    {
      if code in HeldCodes(table) && code != entry.code {
        var i :| 0 <= i < |table| && table[i].held && table[i].code == code;
        assert i != at && now[i].held && now[i].code == code;
      }
      if entry.held { assert now[at].held; }
    }
  }

  lemma LiftOne(layout: Layout, log: seq<Event>, held: set<string>, key: nat)
    requires key < layout.keys
    ensures log + Lifts(layout, held, key)
            == (if Aliased(layout, held, key) then log + [Event(false, key)] else log) + Lifts(layout, held, key + 1)
  {
  }

  lemma HeldKnown(layout: Layout, table: seq<Entry>)
    requires TableOk(layout, table)
    ensures forall code :: code in HeldCodes(table) ==> Known(layout, code)
    ensures forall key :: Aliased(layout, HeldCodes(table), key) ==> 0 <= key
  {
    forall code | code in HeldCodes(table) ensures Known(layout, code) {
      var i :| 0 <= i < |table| && table[i].held && table[i].code == code;
      assert EntryOk(layout, table[i]);
    }
  }

  lemma Unheld(layout: Layout, table: seq<Entry>, now: seq<Entry>)
    requires TableOk(layout, table) && |now| == |table|
    requires forall i :: 0 <= i < |now| ==> now[i] == table[i].(held := false)
    ensures TableOk(layout, now) && HeldCodes(now) == {}
  {
    forall i | 0 <= i < |now| ensures EntryOk(layout, now[i]) {
      assert EntryOk(layout, table[i]);
    }
  }

  class Controller {
    const layout: Layout
    const entries: array<Entry>
    var lastActivity: nat
    var log: seq<Event>

    ghost function Held(): set<string>
      reads this, entries
    {
      HeldCodes(entries[..])
    }

    ghost function View(): Keyboard
      reads this, entries
    {
      Keyboard(Held(), lastActivity, log)
    }

    ghost predicate Valid()
      reads this, entries
    {
      && entries.Length == HELD_CODES
      && KeyForCode(layout, "") < 0
      && TableOk(layout, entries[..])
      && Agrees(layout, log, Held())
      && (Held() != {} ==> lastActivity > 0)
    }

    constructor (layout: Layout)
      requires KeyForCode(layout, "") < 0
      ensures Valid() && fresh(entries) && Held() == {} && log == [] && this.layout == layout
    {
      this.layout := layout;
      entries := new Entry[HELD_CODES](_ => Entry("", 0, false));
      lastActivity, log := 0, [];
    }

    /** http_key_is_held */
    method KeyIsHeld(key: int) returns (held: bool)
      requires entries.Length == HELD_CODES && TableOk(layout, entries[..])
      ensures held <==> Aliased(layout, Held(), key)
    {
      KeyHeldMeans(layout, entries[..], key);
      for index := 0 to HELD_CODES
        invariant forall i :: 0 <= i < index ==> !(entries[i].held && entries[i].key == key)
      {
        if entries[index].held && entries[index].key == key {
          assert entries[..][index].held && entries[..][index].key == key;
          return true;
        }
      }
      assert forall i :: 0 <= i < |entries[..]| ==> !(entries[..][i].held && entries[..][i].key == key);
      return false;
    }

    /** The search of http_apply_key: the entry of this code, and the first free entry met before. */
    method Find(code: string) returns (binding: int, free: int)
      requires Valid() && code != ""
      ensures -1 <= binding < HELD_CODES && -1 <= free < HELD_CODES
      ensures binding >= 0 ==> entries[binding].code == code
      ensures binding < 0 ==> forall i :: 0 <= i < HELD_CODES ==> entries[i].code != code
      ensures binding < 0 && free >= 0 ==> !entries[free].held
      ensures binding < 0 && free < 0 ==> Full(entries[..])
    {
      binding, free := -1, -1;
      for index := 0 to HELD_CODES
        invariant binding < 0 && -1 <= free < HELD_CODES
        invariant forall i :: 0 <= i < index ==> entries[i].code != code
        invariant free >= 0 ==> !entries[free].held
        invariant free < 0 ==> forall i :: 0 <= i < index ==> entries[i].held
      {
        if entries[index].code == code {
          binding := index;
          break;
        }
        if !entries[index].held && free < 0 {
          free := index;
        }
      }
    }

    /** The entry for a code, taken over from a code that is not held if need be; -1 if the table is
        full of held codes. */
    method Bind(code: string, key: int) returns (binding: int)
      requires Valid() && Known(layout, code) && key == KeyForCode(layout, code)
      modifies entries
      ensures Valid() && Held() == old(Held()) && -1 <= binding < HELD_CODES
      ensures binding >= 0 <==> code in Held() || |Held()| < HELD_CODES
      ensures binding >= 0 ==> entries[binding].code == code
      ensures binding < 0 ==> entries[..] == old(entries[..])
    {
      ghost var table := entries[..];
      var found, free := Find(code);
      Room(layout, table, code);
      binding := found;
      if binding < 0 {
        assert forall i :: 0 <= i < |table| ==> table[i].code != code;
        binding := free;
        if binding < 0 {
          return;
        }
        Rewritten(layout, table, binding, Entry(code, key, false));
        entries[binding] := Entry(code, key, false);
        assert entries[..] == table[binding := Entry(code, key, false)];
        assert Held() == HeldCodes(table);
      } else {
        assert table[binding].code == code;
      }
    }

    /** http_apply_key: false exactly for an unknown code, or one that is not held when all 64 entries
        are; otherwise the set gains or loses the code and the game hears of it only when the Doom
        key really changes. */
    method ApplyKey(code: string, down: bool, now: nat) returns (applied: bool)
      requires Valid() && now > 0
      modifies this`log, this`lastActivity, entries
      ensures Valid()
      ensures applied <==> 0 <= KeyForCode(layout, code) < layout.keys && |code| < 24
                           && (code in old(Held()) || |old(Held())| < 64)
      ensures applied ==>
                && Held() == (if down then old(Held()) + {code} else old(Held()) - {code})
                && log == old(log) + Told(layout, old(Held()), Held(), KeyForCode(layout, code))
                && lastActivity == now
      ensures !applied ==>
                entries[..] == old(entries[..]) && log == old(log) && lastActivity == old(lastActivity)
    {
      var key := KeyForCode(layout, code);
      if key < 0 || key >= layout.keys || |code| >= CODE_SIZE {
        return false;
      }
      var binding := Bind(code, key);
      if binding < 0 {
        return false;
      }
      lastActivity := now;
      SwitchEntry(binding, code, down);
      return true;
    }

    /** The end of http_apply_key, with the entry of the code in hand. */
    method SwitchEntry(binding: nat, code: string, down: bool)
      requires Valid() && binding < HELD_CODES && code != "" && entries[binding].code == code && lastActivity > 0
      modifies this`log, entries
      ensures Valid()
      ensures Held() == if down then old(Held()) + {code} else old(Held()) - {code}
      ensures log == old(log) + Told(layout, old(Held()), Held(), KeyForCode(layout, code))
    {
      ghost var before := Held();
      var entry := entries[binding];
      ghost var now := entries[..][binding := entry.(held := down)];
      ToldAgrees(layout, log, before, code, down);
      Rewritten(layout, entries[..], binding, entry.(held := down));
      if entry.held { assert code in before; }
      if down && !entry.held {
        var alreadyHeld := KeyIsHeld(entry.key);
        entries[binding] := entry.(held := true);
        assert entries[..] == now;
        if !alreadyHeld { log := log + [Event(true, entry.key)]; }
      } else if !down && entry.held {
        entries[binding] := entry.(held := false);
        assert entries[..] == now;
        var stillHeld := KeyIsHeld(entry.key);
        if !stillHeld { log := log + [Event(false, entry.key)]; }
      } else {
        assert entries[..] == now;
      }
    }

    /** http_release_all: one up event for each key that was down, and nothing held. */
    method ReleaseAll()
      requires Valid()
      modifies this`log, entries
      ensures Valid() && Held() == {}
      ensures log == old(log) + Lifts(layout, old(Held()), 0)
    {
      ghost var held, start := Held(), log;
      HeldKnown(layout, entries[..]);
      var released := new bool[layout.keys](_ => false);
      Unhold(released);
      ghost var now := entries[..];
      for key := 0 to layout.keys
        invariant entries[..] == now
        invariant forall k :: 0 <= k < layout.keys ==> (released[k] <==> Aliased(layout, held, k))
        invariant log + Lifts(layout, held, key) == start + Lifts(layout, held, 0)
      {
        ghost var before := log;
        if released[key] { log := log + [Event(false, key)]; }
        LiftOne(layout, before, held, key);
      }
      assert log + [] == log;
      LiftsAgree(layout, start, held, 0);
    }

    /** The first loop of http_release_all. */
    method Unhold(released: array<bool>)
      requires Valid() && released.Length == layout.keys
      requires forall key :: 0 <= key < layout.keys ==> !released[key]
      modifies entries, released
      ensures entries.Length == HELD_CODES && TableOk(layout, entries[..]) && Held() == {}
      ensures forall key :: 0 <= key < layout.keys ==> (released[key] <==> Aliased(layout, old(Held()), key))
      ensures forall key :: Aliased(layout, old(Held()), key) ==> 0 <= key < layout.keys
    {
      ghost var table := entries[..];
      for index := 0 to HELD_CODES
        invariant forall i :: 0 <= i < HELD_CODES ==>
                    entries[i] == if i < index then table[i].(held := false) else table[i]
        invariant forall key :: 0 <= key < layout.keys ==>
                    (released[key] <==> exists i :: 0 <= i < index && table[i].held && table[i].key == key)
      {
        var key := entries[index].key;
        assert EntryOk(layout, table[index]);
        if entries[index].held && 0 <= key < layout.keys {
          released[key] := true;
          entries[index] := entries[index].(held := false);
        }
      }
      Unheld(layout, table, entries[..]);
      forall key ensures (exists i :: 0 <= i < |table| && table[i].held && table[i].key == key)
                         <==> Aliased(layout, HeldCodes(table), key) {
        KeyHeldMeans(layout, table, key);
      }
      forall key | Aliased(layout, HeldCodes(table), key) ensures 0 <= key < layout.keys {
        var i :| 0 <= i < |table| && table[i].held && table[i].key == key;
        assert EntryOk(layout, table[i]);
      }
    }

    /** The dead-man check of the polling loop. */
    method Watchdog(now: nat)
      requires Valid() && lastActivity <= now
      modifies this`log, this`lastActivity, entries
      ensures Valid() && lastActivity <= now
      ensures Held() == {} || now - lastActivity <= 2500
      ensures if old(lastActivity) != 0 && now - old(lastActivity) > 2500
              then Held() == {} && lastActivity == 0 && log == old(log) + Lifts(layout, old(Held()), 0)
              else entries[..] == old(entries[..]) && lastActivity == old(lastActivity) && log == old(log)
    {
      if lastActivity != 0 && now - lastActivity > DEADMAN_MS {
        ReleaseAll();
        lastActivity := 0;
      }
    }

    method ServeOne(request: Request)
      requires Valid() && (request.ReleaseEverything? || (request.now > 0 && lastActivity <= request.now))
      modifies this`log, this`lastActivity, entries
      ensures Valid() && View() == Next(layout, old(View()), request)
      ensures lastActivity <= TimeOf(request, old(lastActivity)) && old(log) <= log
      ensures request.Check? ==> Held() == {} || request.now - lastActivity <= DEADMAN_MS
    {
      match request {
        case Press(code, now) =>
          var _ := ApplyKey(code, true, now);
        case Release(code, now) =>
          var _ := ApplyKey(code, false, now);
        case Heartbeat(now) =>
          lastActivity := now;
        case ReleaseEverything =>
          ReleaseAll();
        case Check(now) =>
          Watchdog(now);
      }
    }

    /** Any sequence of requests and dead-man checks leaves the table holding, and the game told, what a
        plain set of held codes would; the log only grows and the game's keyboard is in step with the
        set throughout.  After a check nothing is held without activity in the last 2500 ms. */
    method Serve(requests: seq<Request>, ghost from: nat)
      requires Valid() && Clocked(requests, from) && lastActivity <= from
      modifies this`log, this`lastActivity, entries
      ensures Valid() && old(log) <= log
      ensures View() == After(layout, old(View()), requests)
      ensures requests != [] && requests[|requests| - 1].Check? ==>
                Held() == {} || requests[|requests| - 1].now - lastActivity <= 2500
    {
      ghost var start := View();
      ghost var clock := from;
      for i := 0 to |requests|
        invariant Valid() && View() == After(layout, start, requests[..i]) && start.log <= log
        invariant lastActivity <= clock && forall j :: i <= j < |requests| ==> clock <= TimeOf(requests[j], clock)
        invariant i > 0 && requests[i - 1].Check? ==>
                    Held() == {} || requests[i - 1].now - lastActivity <= DEADMAN_MS
      {
        assert requests[..i + 1][..i] == requests[..i];
        ServeOne(requests[i]);
        clock := TimeOf(requests[i], clock);
      }
      assert requests[..|requests|] == requests;
    }
  }
}
