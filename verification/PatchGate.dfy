/** The supervisor's gates around a live patch: a marker goes to disk before the first patched byte
    and comes off only after the original is back and the hook has gone quiet. */
module PatchGate {
  import opened RemotePatch

  /** The state files the protocol reads or writes. */
  datatype File = Ready | OwnerPid | OwnerKind | Used | Active | SupervisorActive
                | PatchRestored | Quiesced | Restored | RecoveryFailed

  datatype Kind = DoomGate | LogGate

  /** What the gate waits for. */
  datatype Question = SiteFound | OwnerThere | GoGiven | OwnerGone | HookQuiet

  /** What the supervisor did that others can see, with what the site held at that moment. */
  datatype Note =
    | Wrote(file: File, site: seq<Byte>)
    | Removed(file: File, site: seq<Byte>)
    | Waited(question: Question, site: seq<Byte>)

  /** A whole run of a gate: the marker before the patch, the patch in place from its announcement until
      the owner is gone, the original back before that is announced. */
  function Course(kind: Kind, spec: Spec): seq<Note> {
    Preparation(kind, spec) + [Wrote(SupervisorActive, spec.patch), Waited(OwnerGone, spec.patch)] + Ending(spec)
  }

  function Preparation(kind: Kind, spec: Spec): seq<Note> {
    var o := spec.original;
    (if kind == DoomGate then [Waited(SiteFound, o), Waited(OwnerThere, o)] else [Waited(SiteFound, o)])
    + [Wrote(Ready, o), Waited(GoGiven, o), Waited(OwnerThere, o)]
    + MarkerCourse(kind, spec)
  }

  function MarkerCourse(kind: Kind, spec: Spec): seq<Note> {
    var o := spec.original;
    if kind == DoomGate then [Wrote(OwnerPid, o), Wrote(OwnerKind, o), Wrote(Used, o), Wrote(Active, o)]
    else [Wrote(OwnerPid, o), Wrote(Used, o), Wrote(Active, o)]
  }

  /** The end of a run that has restored the site. */
  function Ending(spec: Spec): seq<Note> {
    var o := spec.original;
    [Wrote(PatchRestored, o), Waited(HookQuiet, o), Removed(Active, o), Removed(SupervisorActive, o),
     Wrote(Restored, o)]
  }

  datatype Flags = Flags(result: int, patchInstalled: bool, markerWritten: bool)

  class Gate {
    const remote: Remote
    const address: nat
    const spec: Spec
    var disk: set<File>
    // whether every state so far, between any two steps of the supervisor, the hook and the kernel,
    // was recoverable
    ghost var covered: bool
    // how many steps outside the target have failed: files, waits and questions
    ghost var troubles: nat
    // the supervisor's visible acts so far, and what the site held whenever the device's threads ran
    ghost var trace: seq<Note>
    ghost var hookSaw: set<seq<Byte>>

    ghost function Held(): (s: seq<Byte>)
      requires address + SITE <= |remote.memory|
      reads this, remote
    {
      Site(remote.memory, address)
    }

    /** A state the supervisor may be killed in: only known words in the site, the marker on disk while
        they are not the original's, and the worker confirming quiescence only after the restoration
        has been announced, which in turn needs the original back. */
    ghost predicate Recoverable(memory: seq<Byte>)
      reads this
    {
      && WellFormed(spec) && address + SITE <= |memory|
      && Mixed(spec, Site(memory, address))
      && (Site(memory, address) != spec.original ==> Active in disk)
      && (Quiesced in disk ==> PatchRestored in disk)
      && (PatchRestored in disk ==> Site(memory, address) == spec.original)
    }

    ghost predicate Ok()
      reads this, remote
    {
      Recoverable(remote.memory) && covered
    }

    /** A target with its original bytes, and no quiesced or restored files left over. */
    constructor (target: Remote, address: nat, spec: Spec, disk: set<File>)
      requires WellFormed(spec) && address + SITE <= |target.memory|
      requires Site(target.memory, address) == spec.original
      requires Quiesced !in disk && PatchRestored !in disk
      ensures Ok() && remote == target && this.address == address && this.spec == spec && this.disk == disk
      ensures trace == [] && hookSaw == {}
    {
      this.remote, this.address, this.spec, this.disk := target, address, spec, disk;
      covered, troubles, trace, hookSaw := true, 0, [], {};
    }

    /** The injected worker, whenever it runs: once the restoration is announced and no call is in
        flight, it writes the quiesced file. */
    method HookRuns()
      requires Ok()
      modifies this
      ensures Ok() && old(disk) <= disk <= old(disk) + {Quiesced} && troubles == old(troubles)
      ensures trace == old(trace) && hookSaw == old(hookSaw) + {Held()}
    {
      hookSaw := hookSaw + {Held()};
      var quiet: bool := *;
      if quiet && PatchRestored in disk {
        disk := disk + {Quiesced};
      }
      covered := covered && Recoverable(remote.memory);
    }

    /** write_state: a failed write may or may not have created the file. */
    method WriteState(file: File) returns (ok: bool)
      requires Ok() && file != Quiesced
      requires file == PatchRestored ==> Site(remote.memory, address) == spec.original
      modifies this
      ensures Ok() && old(disk) <= disk <= old(disk) + {file, Quiesced}
      ensures ok ==> file in disk
      ensures troubles == old(troubles) + if ok then 0 else 1
      ensures trace == old(trace) + [Wrote(file, Held())] && old(hookSaw) <= hookSaw
    {
      trace := trace + [Wrote(file, Held())];
      ok := *;
      var created: bool := *;
      if ok || created {
        disk := disk + {file};
      }
      if !ok { troubles := troubles + 1; }
      covered := covered && Recoverable(remote.memory);
      HookRuns();
    }

    /** unlink, with a missing file counting as removed. */
    method Unlink(file: File) returns (ok: bool)
      requires Ok()
      requires file != PatchRestored && file != Quiesced
      requires file == Active ==> Site(remote.memory, address) == spec.original
      modifies this
      ensures Ok() && old(disk) - {file} <= disk <= old(disk) + {Quiesced}
      ensures ok ==> file !in disk
      ensures troubles == old(troubles) + if ok then 0 else 1
      ensures trace == old(trace) + [Removed(file, Held())] && old(hookSaw) <= hookSaw
    {
      trace := trace + [Removed(file, Held())];
      ok := *;
      if file !in disk {
        ok := true;
      }
      if ok {
        disk := disk - {file};
      } else {
        troubles := troubles + 1;
      }
      covered := covered && Recoverable(remote.memory);
      HookRuns();
    }

    /** wait_for_marker on the quiesced file. */
    method WaitForQuiesced() returns (ok: bool)
      requires Ok()
      modifies this
      ensures Ok() && old(disk) <= disk <= old(disk) + {Quiesced}
      ensures ok ==> Quiesced in disk
      ensures troubles == old(troubles) + if ok then 0 else 1
      ensures trace == old(trace) + [Waited(HookQuiet, Held())] && old(hookSaw) <= hookSaw
    {
      trace := trace + [Waited(HookQuiet, Held())];
      HookRuns();
      ok := *;
      ok := ok && Quiesced in disk;
      if !ok { troubles := troubles + 1; }
    }

    /** inspect_or_modify on the gate's own site. */
    method Modify(operation: int) returns (status: int)
      requires Ok() && (operation == 0 || operation == 1 || operation == -1)
      requires operation == 1 ==> Active in disk && PatchRestored !in disk
      modifies this, remote
      ensures Ok() && old(disk) <= disk <= old(disk) + {Quiesced}
      ensures status == 0 || status == -1
      ensures status == 0 && operation != 1 ==> Site(remote.memory, address) == spec.original
      ensures operation == 0 ==> remote.memory == old(remote.memory)
      ensures Site(old(remote.memory), address) == spec.original && operation != 1 ==>
                Site(remote.memory, address) == spec.original
      ensures remote.failures >= old(remote.failures) && troubles == old(troubles)
      ensures operation == -1 || Site(old(remote.memory), address) == spec.original ==>
                remote.failures > old(remote.failures) || status == 0
      ensures status == 0 && operation == 1 ==> Held() == spec.patch
      ensures trace == old(trace) && old(hookSaw) + {Held()} <= hookSaw
    {
      ghost var seen;
      status, seen := remote.InspectOrModify(address, operation, spec);
      covered := covered && (forall m :: m in seen + {remote.memory} ==> Recoverable(m));
      HookRuns();
    }

    /** Anything the gate asks of the outside world: finding the site, the go file, the owner. */
    method Ask(question: Question) returns (ok: bool)
      requires Ok()
      modifies this
      ensures Ok() && old(disk) <= disk <= old(disk) + {Quiesced}
      ensures troubles == old(troubles) + if ok then 0 else 1
      ensures trace == old(trace) + [Waited(question, Held())] && old(hookSaw) + {Held()} <= hookSaw
    {
      trace := trace + [Waited(question, Held())];
      HookRuns();
      ok := *;
      if !ok { troubles := troubles + 1; }
    }

    /** supervise_device_doom, supervise_device_log and supervise_device_audio_log. */
    method Supervise(kind: Kind) returns (result: int)
      requires Ok() && PatchRestored !in disk && Quiesced !in disk
      requires Site(remote.memory, address) == spec.original
      modifies this, remote
      ensures Ok()
      ensures result == 0 || result == 1
      ensures result == 0 ==>
                && Site(remote.memory, address) == spec.original
                && Quiesced in disk && Active !in disk && Restored in disk
      // a run that succeeds took the whole course, so the device's threads ran on the patched code
      ensures result == 0 ==> trace == old(trace) + Course(kind, spec) + [Removed(Ready, spec.original)]
      ensures result == 0 ==> spec.patch in hookSaw
      // if no access to the target fails the original bytes are back, whatever else went wrong, and
      // if nothing goes wrong at all the result is 0
      ensures remote.failures == old(remote.failures) ==> Site(remote.memory, address) == spec.original
      ensures remote.failures == old(remote.failures) && troubles == old(troubles) ==> result == 0
    {
      var flags := Body(kind);
      if flags.result != 0 && kind == DoomGate {
        var there := Ask(OwnerThere);
        if there {
          var _ := Ask(OwnerGone);
        }
      }
      if flags.patchInstalled {
        flags := RestoreAfterError(flags);
      }
      if flags.result != 0 {
        var _ := WriteState(RecoveryFailed);
      }
      if !flags.patchInstalled && flags.markerWritten && Quiesced in disk {
        var _ := Unlink(Active);
      }
      var _ := Unlink(Ready);
      return flags.result;
    }

    /** From entry to the `done` label. */
    method Body(kind: Kind) returns (flags: Flags)
      requires Ok() && PatchRestored !in disk && Quiesced !in disk
      requires Site(remote.memory, address) == spec.original
      modifies this, remote
      ensures Ok() && (flags.result == 0 || flags.result == 1)
      ensures flags.patchInstalled ==> flags.result != 0
      ensures flags.result == 0 ==>
                && Site(remote.memory, address) == spec.original
                && Quiesced in disk && Active !in disk && Restored in disk
      ensures remote.failures >= old(remote.failures) && troubles >= old(troubles)
      ensures remote.failures == old(remote.failures) ==>
                flags.patchInstalled || Site(remote.memory, address) == spec.original
      ensures remote.failures == old(remote.failures) && troubles == old(troubles) ==> flags.result == 0
      ensures flags.result == 0 ==>
                trace == old(trace) + Course(kind, spec) && spec.patch in hookSaw && !flags.markerWritten
    {
      flags := Flags(1, false, false);
      var prepared := Prepare(kind);
      if !prepared {
        return;
      }
      flags := flags.(markerWritten := true);
      var installed := Modify(1);
      if installed != 0 {
        return;
      }
      flags := flags.(patchInstalled := true);
      var announced := WriteState(SupervisorActive);
      if !announced {
        return;
      }
      var waited := Ask(OwnerGone);
      if kind == DoomGate && !waited {
        return;
      }
      var restored := Modify(-1);
      if restored != 0 {
        return;
      }
      flags := flags.(patchInstalled := false);
      var finished := Finish();
      if finished.0 { flags := flags.(markerWritten := false); }
      if finished.1 { flags := flags.(result := 0); }
    }

    /** Everything before the first patched byte, the marker last. */
    method Prepare(kind: Kind) returns (ok: bool)
      requires Ok() && PatchRestored !in disk && Quiesced !in disk
      requires Site(remote.memory, address) == spec.original
      modifies this, remote
      ensures Ok() && PatchRestored !in disk && Quiesced !in disk
      ensures Site(remote.memory, address) == spec.original
      ensures ok ==> Active in disk
      ensures remote.failures >= old(remote.failures) && troubles >= old(troubles)
      ensures remote.failures == old(remote.failures) && troubles == old(troubles) ==> ok
      ensures ok ==> trace == old(trace) + Preparation(kind, spec)
    {
      var resolved := Ask(SiteFound);
      if !resolved {
        return false;
      }
      if kind == DoomGate {
        var owned := Ask(OwnerThere);
        if !owned {
          return false;
        }
      }
      var inspected := Modify(0);
      if inspected != 0 {
        return false;
      }
      var ready := WriteState(Ready);
      if !ready {
        return false;
      }
      var go := Ask(GoGiven);
      if !go {
        return false;
      }
      var owner := Ask(OwnerThere);
      if !owner {
        return false;
      }
      ok := WriteMarker(kind);
    }

    /** The owner's record, then the marker. */
    method WriteMarker(kind: Kind) returns (ok: bool)
      requires Ok() && PatchRestored !in disk && Quiesced !in disk
      requires Site(remote.memory, address) == spec.original
      modifies this
      ensures Ok() && PatchRestored !in disk && Quiesced !in disk
      ensures ok ==> Active in disk
      ensures troubles >= old(troubles) && (troubles == old(troubles) ==> ok)
      ensures ok ==> trace == old(trace) + MarkerCourse(kind, spec)
    {
      ok := WriteState(OwnerPid);
      if ok && kind == DoomGate {
        ok := WriteState(OwnerKind);
      }
      if ok {
        ok := WriteState(Used);
      }
      if ok {
        ok := WriteState(Active);
      }
    }

    /** Announce the restoration, wait for the hook, take the marker off; says whether the marker is
        off and whether everything went well. */
    method Finish() returns (done: (bool, bool))
      requires Ok() && Site(remote.memory, address) == spec.original
      modifies this
      ensures Ok()
      ensures done.1 ==> done.0 && Quiesced in disk && Active !in disk && Restored in disk
      ensures troubles >= old(troubles) && (troubles == old(troubles) ==> done.1)
      ensures done.1 ==> trace == old(trace) + Ending(spec)
      ensures old(hookSaw) <= hookSaw
    {
      var announced := WriteState(PatchRestored);
      if !announced {
        return (false, false);
      }
      var quiesced := WaitForQuiesced();
      if !quiesced {
        return (false, false);
      }
      var unlinked := Unlink(Active);
      if !unlinked {
        return (false, false);
      }
      var _ := Unlink(SupervisorActive);
      var ok := WriteState(Restored);
      return (true, ok);
    }

    /** At the `done` label with the patch still installed. */
    method RestoreAfterError(before: Flags) returns (flags: Flags)
      requires Ok() && before.patchInstalled
      modifies this, remote
      ensures Ok() && flags.result == before.result
      ensures !flags.patchInstalled ==> Site(remote.memory, address) == spec.original
      ensures remote.failures >= old(remote.failures) && troubles >= old(troubles)
      ensures remote.failures == old(remote.failures) ==> !flags.patchInstalled
    {
      flags := before;
      var restored := Modify(-1);
      if restored == 0 {
        flags := flags.(patchInstalled := false);
        var _ := WriteState(PatchRestored);
        var quiesced := WaitForQuiesced();
        if quiesced {
          var _ := Unlink(Active);
          flags := flags.(markerWritten := false);
          var _ := Unlink(SupervisorActive);
          var _ := WriteState(Restored);
        }
      }
    }

    /** emergency_restore_device, from whatever state a gate was killed in. */
    method EmergencyRestore() returns (result: int)
      requires Ok()
      modifies this, remote
      ensures Ok()
      ensures result == 0 ==>
                && Site(remote.memory, address) == spec.original
                && Quiesced in disk && Active !in disk && Restored in disk
      ensures remote.failures == old(remote.failures) && troubles == old(troubles) ==> result == 0
      ensures result == 0 ==> trace == old(trace) + [Waited(SiteFound, old(Held()))] + Ending(spec)
    {
      var resolved := Ask(SiteFound);
      if !resolved {
        return 1;
      }
      var restored := Modify(-1);
      if restored != 0 {
        return 1;
      }
      var finished := Finish();
      return if finished.1 then 0 else 1;
    }
  }

  /** Any sequence of installs, restores and looks on a site that starts as the original: in every
      state on the way every word is the original's or the patch's, nothing outside the site changes,
      and a restore that meets no failure brings the original back.  `sites` and `failures` are what
      the site held and how much had failed before the first operation and after each. */
  method Exercise(remote: Remote, address: nat, spec: Spec, operations: seq<int>)
    returns (ghost mixed: bool, ghost sites: seq<seq<Byte>>, ghost failures: seq<nat>)
    requires WellFormed(spec) && address + SITE <= |remote.memory|
    requires Site(remote.memory, address) == spec.original
    modifies remote
    ensures mixed && Confined(old(remote.memory), address, remote.memory)
    ensures |sites| == |failures| == |operations| + 1
    ensures sites[|operations|] == Site(remote.memory, address) && failures[|operations|] == remote.failures
    ensures sites[0] == spec.original && failures[0] == old(remote.failures)
    ensures forall k :: 0 <= k <= |operations| ==> |sites[k]| == SITE && Mixed(spec, sites[k])
    ensures forall k :: 0 <= k < |operations| ==> failures[k] <= failures[k + 1]
    ensures forall k :: 0 <= k < |operations| && operations[k] == -1 && failures[k + 1] == failures[k] ==>
              sites[k + 1] == spec.original
  {
    ghost var start := remote.memory;
    mixed, sites, failures := true, [spec.original], [remote.failures];
    for i := 0 to |operations|
      invariant Confined(start, address, remote.memory) && address + SITE <= |remote.memory| && mixed
      invariant |sites| == |failures| == i + 1
      invariant sites[i] == Site(remote.memory, address) && failures[i] == remote.failures
      invariant sites[0] == spec.original && failures[0] == old(remote.failures)
      invariant forall k :: 0 <= k <= i ==> |sites[k]| == SITE && Mixed(spec, sites[k])
      invariant forall k :: 0 <= k < i ==> failures[k] <= failures[k + 1]
      invariant forall k :: 0 <= k < i && operations[k] == -1 && failures[k + 1] == failures[k] ==>
                  sites[k + 1] == spec.original
    {
      ghost var seen;
      var status;
      status, seen := remote.InspectOrModify(address, operations[i], spec);
      mixed := mixed && forall m :: m in seen ==> |m| == |start| && Mixed(spec, Site(m, address));
      sites, failures := sites + [Site(remote.memory, address)], failures + [remote.failures];
    }
  }
}
