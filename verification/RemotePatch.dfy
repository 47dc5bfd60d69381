/** Rewriting eight bytes of a stopped process a machine word at a time, where any single word read
    or write may fail. */
module RemotePatch {

  const WORD := 4
  const SITE := 8

  type Byte = b: int | 0 <= b < 256

  /** `memory` with `bytes` written from `address` on. */
  function Overwrite(memory: seq<Byte>, address: nat, bytes: seq<Byte>): seq<Byte>
    requires bytes == [] || address + |bytes| <= |memory|
  {
    if bytes == [] then memory else memory[..address] + bytes + memory[address + |bytes|..]
  }

  lemma OverwriteChangesExactly(memory: seq<Byte>, address: nat, bytes: seq<Byte>)
    requires address + |bytes| <= |memory|
    ensures var m := Overwrite(memory, address, bytes);
            && |m| == |memory| && m[address..address + |bytes|] == bytes
            && forall i :: 0 <= i < |m| && !(address <= i < address + |bytes|) ==> m[i] == memory[i]
  {
  }

  /** Writing one more word after k bytes. */
  lemma OverwriteExtends(memory: seq<Byte>, address: nat, bytes: seq<Byte>, k: nat, n: nat)
    requires k < n <= |bytes| && address + n <= |memory|
    ensures Overwrite(Overwrite(memory, address, bytes[..k]), address + k, bytes[k..n])
            == Overwrite(memory, address, bytes[..n])
  {
    assert bytes[..n] == bytes[..k] + bytes[k..n];
  }

  /** The last, partial word: the bytes past the end are written back as they were read. */
  lemma TailExtends(memory: seq<Byte>, address: nat, tail: seq<Byte>)
    requires 0 < |tail| <= WORD && address + WORD <= |memory|
    ensures Overwrite(memory, address, tail + memory[address + |tail|..address + WORD])
            == Overwrite(memory, address, tail)
  {
  }

  lemma TailWord(memory: seq<Byte>, address: nat, present: seq<Byte>, tail: seq<Byte>)
    requires 0 < |tail| <= WORD && address + WORD <= |memory|
    requires present == memory[address..address + WORD]
    ensures Overwrite(memory, address, tail + present[|tail|..]) == Overwrite(memory, address, tail)
  {
    assert present[|tail|..] == memory[address + |tail|..address + WORD];
    TailExtends(memory, address, tail);
  }

  lemma SliceExtends(memory: seq<Byte>, address: nat, offset: nat, take: nat, word: seq<Byte>)
    requires 0 < take <= |word| && address + offset + |word| <= |memory|
    requires word == memory[address + offset..address + offset + |word|]
    ensures (if offset == 0 then [] else memory[address..address + offset]) + word[..take]
            == memory[address..address + offset + take]
  {
  }

  /** m is `memory` with the first k bytes written, for a k between words. */
  predicate PrefixWritten(memory: seq<Byte>, address: nat, bytes: seq<Byte>, k: nat, m: seq<Byte>) {
    && k <= |bytes| && (k % WORD == 0 || k == |bytes|)
    && (k > 0 ==> address + k <= |memory|)
    && m == Overwrite(memory, address, bytes[..k])
  }

  ghost predicate PartWritten(memory: seq<Byte>, address: nat, bytes: seq<Byte>, m: seq<Byte>) {
    exists k :: PrefixWritten(memory, address, bytes, k, m)
  }

  lemma NothingWritten(memory: seq<Byte>, address: nat, bytes: seq<Byte>)
    ensures PrefixWritten(memory, address, bytes, 0, memory)
    ensures PartWritten(memory, address, bytes, memory)
  {
    assert bytes[..0] == [];
    assert PrefixWritten(memory, address, bytes, 0, memory);
  }

  lemma MoreWritten(start: seq<Byte>, address: nat, bytes: seq<Byte>, offset: nat, take: nat,
                    before: seq<Byte>, now: seq<Byte>)
    requires PrefixWritten(start, address, bytes, offset, before) && |before| == |start|
    requires offset < |bytes| && take == if |bytes| - offset < WORD then |bytes| - offset else WORD
    requires address + offset + take <= |before|
    requires now == Overwrite(before, address + offset, bytes[offset..offset + take])
    ensures PrefixWritten(start, address, bytes, offset + take, now)
    ensures PartWritten(start, address, bytes, now)
  {
    OverwriteExtends(start, address, bytes, offset, offset + take);
    assert PrefixWritten(start, address, bytes, offset + take, now);
  }

  ghost predicate AllPartWritten(start: seq<Byte>, address: nat, bytes: seq<Byte>, seen: set<seq<Byte>>) {
    forall m :: m in seen ==> PartWritten(start, address, bytes, m)
  }

  lemma OneMorePart(start: seq<Byte>, address: nat, bytes: seq<Byte>, seen: set<seq<Byte>>, m: seq<Byte>)
    requires AllPartWritten(start, address, bytes, seen) && PartWritten(start, address, bytes, m)
    ensures AllPartWritten(start, address, bytes, seen + {m})
  {
  }

  /** The eight displaced bytes and the jump that replaces them. */
  datatype Spec = Spec(original: seq<Byte>, patch: seq<Byte>)

  predicate WellFormed(spec: Spec) {
    |spec.original| == |spec.patch| == SITE
  }

  function Word(bytes: seq<Byte>, i: nat): seq<Byte>
    requires |bytes| == SITE && i < 2
  {
    bytes[WORD * i..WORD * i + WORD]
  }

  /** Every word is a's or b's. */
  predicate WordsFrom(bytes: seq<Byte>, a: seq<Byte>, b: seq<Byte>)
    requires |bytes| == |a| == |b| == SITE
  {
    forall i :: 0 <= i < 2 ==> Word(bytes, i) == Word(a, i) || Word(bytes, i) == Word(b, i)
  }

  /** What is_safe_partial_patch recognises. */
  predicate Mixed(spec: Spec, bytes: seq<Byte>)
    requires WellFormed(spec) && |bytes| == SITE
  {
    WordsFrom(bytes, spec.original, spec.patch)
  }

  function Site(memory: seq<Byte>, address: nat): (s: seq<Byte>)
    requires address + SITE <= |memory|
    ensures |s| == SITE
  {
    memory[address..address + SITE]
  }

  lemma TwoWords(a: seq<Byte>, b: seq<Byte>)
    requires |a| == |b| == SITE && Word(a, 0) == Word(b, 0) && Word(a, 1) == Word(b, 1)
    ensures a == b
  {
    assert a == Word(a, 0) + Word(a, 1) && b == Word(b, 0) + Word(b, 1);
  }

  /** Partway through writing eight bytes, every word is the old one or the new one. */
  lemma PartlyWritten(memory: seq<Byte>, address: nat, bytes: seq<Byte>, k: nat, m: seq<Byte>)
    requires |bytes| == SITE && address + SITE <= |memory| && PrefixWritten(memory, address, bytes, k, m)
    ensures |m| == |memory| && WordsFrom(Site(m, address), Site(memory, address), bytes)
    ensures k == SITE ==> Site(m, address) == bytes
    ensures forall i :: 0 <= i < |m| && !(address <= i < address + SITE) ==> m[i] == memory[i]
  {
    OverwriteChangesExactly(memory, address, bytes[..k]);
    var s := Site(m, address);
    if k == 0 {
      assert m == memory;
    } else if k == WORD {
      assert forall i :: 0 <= i < WORD ==> s[i] == m[address..address + WORD][i] == bytes[i];
      assert forall i :: WORD <= i < SITE ==> s[i] == m[address + i] == memory[address + i];
      assert Word(s, 0) == Word(bytes, 0);
      var t := Site(memory, address);
      assert forall i :: WORD <= i < SITE ==> s[i] == t[i];
      assert s[WORD..SITE] == t[WORD..SITE];
    } else {
      assert s == bytes;
    }
  }

  /** Words taken from a mixed site and from one of the two versions leave it mixed. */
  lemma MixedStays(spec: Spec, now: seq<Byte>, before: seq<Byte>, version: seq<Byte>)
    requires WellFormed(spec) && |now| == |before| == SITE && Mixed(spec, before)
    requires version == spec.original || version == spec.patch
    requires WordsFrom(now, before, version)
    ensures Mixed(spec, now)
  {
  }

  /** m differs from `memory` at most inside the site. */
  ghost predicate Confined(memory: seq<Byte>, address: nat, m: seq<Byte>) {
    && |m| == |memory|
    && forall i :: 0 <= i < |m| && !(address <= i < address + SITE) ==> m[i] == memory[i]
  }

  /** Whatever a write of one version passes through on a mixed site stays mixed and confined. */
  lemma WrittenSites(memory: seq<Byte>, address: nat, spec: Spec, version: seq<Byte>, seen: set<seq<Byte>>)
    requires WellFormed(spec) && address + SITE <= |memory|
    requires version == spec.original || version == spec.patch
    requires forall m :: m in seen ==> PartWritten(memory, address, version, m)
    ensures forall m :: m in seen ==> Confined(memory, address, m)
    ensures Mixed(spec, Site(memory, address)) ==>
              forall m :: m in seen ==> |m| == |memory| && Mixed(spec, Site(m, address))
    ensures Site(memory, address) == version ==>
              forall m :: m in seen ==> |m| == |memory| && Site(m, address) == version
  {
    forall m | m in seen
      ensures Confined(memory, address, m)
      ensures Mixed(spec, Site(memory, address)) ==> Mixed(spec, Site(m, address))
      ensures Site(memory, address) == version ==> Site(m, address) == version
    {
      var k :| PrefixWritten(memory, address, version, k, m);
      PartlyWritten(memory, address, version, k, m);
      if Mixed(spec, Site(memory, address)) {
        MixedStays(spec, Site(m, address), Site(memory, address), version);
      }
      if Site(memory, address) == version { TwoWords(Site(m, address), version); }
    }
  }

  lemma ConfinedThrough(memory: seq<Byte>, address: nat, middle: seq<Byte>, seen: set<seq<Byte>>)
    requires Confined(memory, address, middle)
    requires forall m :: m in seen ==> Confined(middle, address, m)
    ensures forall m :: m in seen ==> Confined(memory, address, m)
  {
  }

  class Remote {
    var memory: seq<Byte>
    // how many reads, writes and other requests have failed so far
    ghost var failures: nat

    constructor (initial: seq<Byte>)
      ensures memory == initial
    {
      memory, failures := initial, 0;
    }

    /** PTRACE_PEEKDATA */
    method Peek(address: nat) returns (ok: bool, word: seq<Byte>)
      modifies `failures
      ensures ok ==> address + WORD <= |memory| && word == memory[address..address + WORD]
      ensures ok ==> failures == old(failures)
      ensures !ok ==> failures > old(failures)
    {
      ok, word := *, [];
      if ok && address + WORD <= |memory| {
        word := memory[address..address + WORD];
      } else {
        ok := false;
        failures := failures + 1;
      }
    }

    /** PTRACE_POKEDATA: a whole word or nothing. */
    method Poke(address: nat, word: seq<Byte>) returns (ok: bool)
      requires |word| == WORD
      modifies this
      ensures |memory| == |old(memory)|
      ensures ok ==> address + WORD <= |old(memory)| && memory == Overwrite(old(memory), address, word)
      ensures ok ==> failures == old(failures)
      ensures !ok ==> memory == old(memory) && failures > old(failures)
    {
      ok := *;
      if ok && address + WORD <= |memory| {
        memory := memory[..address] + word + memory[address + WORD..];
      } else {
        ok := false;
        failures := failures + 1;
      }
    }

    /** One round of write_remote: a whole word, or the tail merged into the word it belongs to. */
    method WriteWord(address: nat, bytes: seq<Byte>, offset: nat) returns (ok: bool, take: nat)
      requires offset < |bytes|
      modifies this
      ensures |memory| == |old(memory)| && failures >= old(failures)
      ensures take == if |bytes| - offset < WORD then |bytes| - offset else WORD
      ensures ok <==> failures == old(failures)
      ensures !ok ==> memory == old(memory)
      ensures ok ==>
                && address + offset + take <= |old(memory)|
                && memory == Overwrite(old(memory), address + offset, bytes[offset..offset + take])
    {
      var word;
      take := WORD;
      if |bytes| - offset < WORD {
        take := |bytes| - offset;
        var read, present := Peek(address + offset);
        if !read {
          return false, take;
        }
        word := bytes[offset..offset + take] + present[take..];
        TailWord(memory, address + offset, present, bytes[offset..offset + take]);
      } else {
        word := bytes[offset..offset + WORD];
      }
      ok := Poke(address + offset, word);
    }

    /** write_remote.  `seen` holds every content the memory takes on. */
    method WriteRemote(address: nat, bytes: seq<Byte>) returns (status: int, ghost seen: set<seq<Byte>>)
      modifies this
      ensures |memory| == |old(memory)|
      ensures status == 0 || status == -1
      ensures status == 0 ==>
                && (bytes == [] || address + |bytes| <= |old(memory)|)
                && memory == Overwrite(old(memory), address, bytes)
      ensures status == 0 <==> failures == old(failures)
      ensures failures >= old(failures)
      ensures forall m :: m in seen + {memory} ==> PartWritten(old(memory), address, bytes, m)
      ensures memory != old(memory) ==> memory in seen
    {
      ghost var start := memory;
      seen := {};
      var offset := 0;
      NothingWritten(memory, address, bytes);
      while offset < |bytes|
        invariant 0 <= offset <= |bytes| && failures == old(failures) && |memory| == |start|
        invariant PrefixWritten(start, address, bytes, offset, memory)
        invariant PartWritten(start, address, bytes, memory)
        invariant AllPartWritten(start, address, bytes, seen)
        invariant memory != start ==> memory in seen
      {
        ghost var before := memory;
        var ok, take := WriteWord(address, bytes, offset);
        if !ok {
          return -1, seen;
        }
        MoreWritten(start, address, bytes, offset, take, before, memory);
        OneMorePart(start, address, bytes, seen, memory);
        offset := offset + take;
        seen := seen + {memory};
      }
      assert bytes[..offset] == bytes;
      return 0, seen;
    }

    /** read_remote */
    method ReadRemote(address: nat, length: nat) returns (status: int, bytes: seq<Byte>)
      modifies `failures
      ensures status == 0 || status == -1
      ensures status == 0 ==>
                || (length == 0 && bytes == [])
                || (address + length <= |memory| && bytes == memory[address..address + length])
      ensures status == 0 <==> failures == old(failures)
      ensures failures >= old(failures)
    {
      bytes := [];
      var offset := 0;
      while offset < length
        invariant 0 <= offset <= length && failures == old(failures)
        invariant offset > 0 ==> address + offset <= |memory|
        invariant bytes == if offset == 0 then [] else memory[address..address + offset]
      {
        var ok, word := Peek(address + offset);
        if !ok {
          return -1, [];
        }
        var take := if length - offset < WORD then length - offset else WORD;
        SliceExtends(memory, address, offset, take, word);
        bytes := bytes + word[..take];
        offset := offset + take;
      }
      return 0, bytes;
    }

    /** is_safe_partial_patch */
    method IsSafePartialPatch(spec: Spec, current: seq<Byte>) returns (safe: bool)
      requires WellFormed(spec) && |current| == SITE
      ensures safe <==> Mixed(spec, current)
    {
      var offset := 0;
      while offset < SITE
        invariant offset == 0 || offset == WORD || offset == SITE
        invariant offset >= WORD ==>
                    Word(current, 0) == Word(spec.original, 0) || Word(current, 0) == Word(spec.patch, 0)
        invariant offset >= SITE ==>
                    Word(current, 1) == Word(spec.original, 1) || Word(current, 1) == Word(spec.patch, 1)
      {
        if current[offset..offset + WORD] != spec.original[offset..offset + WORD]
           && current[offset..offset + WORD] != spec.patch[offset..offset + WORD] {
          assert !(Word(current, offset / WORD) == Word(spec.original, offset / WORD)
                   || Word(current, offset / WORD) == Word(spec.patch, offset / WORD));
          return false;
        }
        offset := offset + WORD;
      }
      return true;
    }

    /** A request to the kernel that may be refused: validating the target, stopping its threads,
        letting them go. */
    method Request() returns (ok: bool)
      modifies `failures
      ensures ok <==> failures == old(failures)
      ensures failures >= old(failures)
    {
      ok := *;
      if !ok {
        failures := failures + 1;
      }
    }

    /** inspect_or_modify: operations 0 and 2 look, 1 installs, -1 restores. */
    method InspectOrModify(address: nat, operation: int, spec: Spec)
      returns (status: int, ghost seen: set<seq<Byte>>)
      requires WellFormed(spec) && address + SITE <= |memory|
      modifies this
      ensures |memory| == |old(memory)| && failures >= old(failures)
      ensures status == 0 || status == -1
      // looking changes nothing
      ensures operation == 0 || operation == 2 ==> memory == old(memory) && seen == {}
      ensures status == 0 ==>
                Site(memory, address) == if operation == 1 || operation == 2 then spec.patch else spec.original
      // unknown bytes are never overwritten
      ensures operation == 1 && Site(old(memory), address) != spec.original ==>
                memory == old(memory) && seen == {} && status == -1
      ensures !Mixed(spec, Site(old(memory), address)) ==> memory == old(memory) && seen == {}
      // nothing outside the site changes, and every word stays the original's or the patch's
      ensures forall m :: m in seen + {memory} ==> Confined(old(memory), address, m)
      ensures Mixed(spec, Site(old(memory), address)) ==>
                forall m :: m in seen + {memory} ==> |m| == |memory| && Mixed(spec, Site(m, address))
      ensures operation != 1 && Site(old(memory), address) == spec.original ==>
                forall m :: m in seen + {memory} ==> |m| == |memory| && Site(m, address) == spec.original
      ensures memory != old(memory) ==> memory in seen
      // a failed install leaves a half-written site only after a second failure, in the rollback
      ensures operation == 1 && Site(old(memory), address) == spec.original && status == -1 ==>
                || Site(memory, address) == spec.original || Site(memory, address) == spec.patch
                || failures >= old(failures) + 2
      // without failures a look answers the comparison, an install over the original succeeds, and a
      // restore ends at the original
      ensures failures == old(failures) && (operation == 0 || operation == 2) ==>
                (status == 0 <==> Site(memory, address) == if operation == 0 then spec.original else spec.patch)
      ensures failures == old(failures) && operation == 1 && Site(old(memory), address) == spec.original ==>
                status == 0
      ensures operation != 0 && operation != 1 && operation != 2 && failures == old(failures)
              && Mixed(spec, Site(old(memory), address)) ==>
                status == 0 && Site(memory, address) == spec.original
    {
      seen := {};
      ghost var start := memory;
      var validated := Request();
      if !validated {
        return -1, seen;
      }
      if operation == 0 || operation == 2 {
        var expected := if operation == 0 then spec.original else spec.patch;
        var read := Request();
        if !read {
          return -1, seen;
        }
        return if memory[address..address + SITE] == expected then 0 else -1, seen;
      }
      var attached := Request();
      if !attached {
        return -1, seen;
      }
      var result, current := ReadRemote(address, SITE);
      if result != 0 {
        var _ := Request();
        return -1, seen;
      }
      if operation == 1 {
        status, seen := Install(address, spec, current);
      } else {
        status, seen := Restore(address, spec, current);
      }
      var detached := Request();
      if !detached {
        status := -1;
      }
    }

    /** The install branch: refuse anything but the original, and roll back a patch that cannot be
        written or verified. */
    method Install(address: nat, spec: Spec, current: seq<Byte>)
      returns (status: int, ghost seen: set<seq<Byte>>)
      requires WellFormed(spec) && address + SITE <= |memory| && current == Site(memory, address)
      modifies this
      ensures |memory| == |old(memory)| && failures >= old(failures)
      ensures status == 0 || status == -1
      ensures status == 0 ==> Site(memory, address) == spec.patch
      ensures current != spec.original ==> memory == old(memory) && seen == {} && status == -1
      ensures current == spec.original && failures == old(failures) ==> status == 0
      ensures current == spec.original && status == -1 && Site(memory, address) != spec.original ==>
                failures >= old(failures) + 2
      ensures forall m :: m in seen + {memory} ==> Confined(old(memory), address, m)
      ensures Mixed(spec, current) ==>
                forall m :: m in seen + {memory} ==> |m| == |memory| && Mixed(spec, Site(m, address))
      ensures memory != old(memory) ==> memory in seen
    {
      seen := {};
      ghost var start := memory;
      if current != spec.original {
        return -1, seen;
      }
      var written, wrote := PutVersion(address, spec, spec.patch);
      seen := wrote;
      var verified := [];
      var read := -1;
      if written == 0 {
        read, verified := ReadRemote(address, SITE);
      }
      if written != 0 || read != 0 || verified != spec.patch {
        ghost var middle := memory;
        var _, unwrote := PutVersion(address, spec, spec.original);
        ConfinedThrough(start, address, middle, unwrote + {memory});
        seen := seen + unwrote;
        return -1, seen;
      }
      return 0, seen;
    }

    /** write_remote of one version over the site. */
    method PutVersion(address: nat, spec: Spec, version: seq<Byte>)
      returns (status: int, ghost seen: set<seq<Byte>>)
      requires WellFormed(spec) && address + SITE <= |memory|
      requires version == spec.original || version == spec.patch
      modifies this
      ensures |memory| == |old(memory)| && failures >= old(failures)
      ensures status == 0 || status == -1
      ensures status == 0 <==> failures == old(failures)
      ensures status == 0 ==> Site(memory, address) == version
      ensures forall m :: m in seen + {memory} ==> Confined(old(memory), address, m)
      ensures Mixed(spec, Site(old(memory), address)) ==>
                forall m :: m in seen + {memory} ==> |m| == |memory| && Mixed(spec, Site(m, address))
      ensures Site(old(memory), address) == version ==>
                forall m :: m in seen + {memory} ==> |m| == |memory| && Site(m, address) == version
      ensures memory != old(memory) ==> memory in seen
    {
      ghost var start := memory;
      status, seen := WriteRemote(address, version);
      if status == 0 { OverwriteChangesExactly(start, address, version); }
      WrittenSites(start, address, spec, version, seen + {memory});
    }

    /** The restore branch: refuse a site with a word of neither version. */
    method Restore(address: nat, spec: Spec, current: seq<Byte>)
      returns (status: int, ghost seen: set<seq<Byte>>)
      requires WellFormed(spec) && address + SITE <= |memory| && current == Site(memory, address)
      modifies this
      ensures |memory| == |old(memory)| && failures >= old(failures)
      ensures status == 0 || status == -1
      ensures status == 0 ==> Site(memory, address) == spec.original
      ensures !Mixed(spec, current) ==> memory == old(memory) && seen == {} && status == -1
      ensures forall m :: m in seen + {memory} ==> Confined(old(memory), address, m)
      ensures Mixed(spec, current) ==>
                forall m :: m in seen + {memory} ==> |m| == |memory| && Mixed(spec, Site(m, address))
      ensures current == spec.original ==>
                forall m :: m in seen + {memory} ==> |m| == |memory| && Site(m, address) == spec.original
      ensures memory != old(memory) ==> memory in seen
      ensures failures == old(failures) && Mixed(spec, current) ==> status == 0
    {
      seen := {};
      var safe := IsSafePartialPatch(spec, current);
      if !safe {
        return -1, seen;
      }
      var written, wrote := PutVersion(address, spec, spec.original);
      seen := wrote;
      if written != 0 {
        return -1, seen;
      }
      var read, verified := ReadRemote(address, SITE);
      if read != 0 || verified != spec.original {
        return -1, seen;
      }
      return 0, seen;
    }
  }
}
