// The debugger: its breakpoint table, the commands that edit it, and run control over one thread.
module Debugging {
  import opened Common
  import opened TargetMemory
  import opened Architecture
  import opened LogicalMemory
  import opened BreakpointIds
  import opened Machine
  import opened Stops
  import opened Retries
  import opened Commands
  import opened Ptrace
  import opened ByteAccess

  class Debugger {
    const tracee: Tracee
    var breakpoints: Table
    var pending: seq<Breakpoint>
    var nextId: int
    var detached: bool

    ghost const origin: State    // the target when the debugger took hold of it
    const sites: set<Address>    // every address at which a breakpoint may be asked for

    constructor (tracee: Tracee, sites: set<Address>)
      requires tracee.executed == 0
      requires forall a | a in sites :: tracee.arch.IsSite(a)
      ensures this.tracee == tracee && this.sites == sites && origin == State(tracee.cpu, tracee.mem)
      ensures breakpoints == map[] && pending == [] && nextId == 1 && !detached
      ensures Sound() && InStep()
    {
      this.tracee, this.sites := tracee, sites;
      origin := State(tracee.cpu, tracee.mem);
      breakpoints, pending, nextId, detached := map[], [], 1, false;
      new;
      NothingArmed(tracee.arch, tracee.mem, breakpoints);
      IdsArePairwiseDistinct(breakpoints, pending, nextId);
    }

    /** The table describes memory: armed footprints hold the trap, identifiers are distinct, entries sit on sites. */
    ghost predicate Sound()
      reads this, tracee
    {
      && InPlace(tracee.arch, tracee.mem, breakpoints)
      && breakpoints.Keys <= sites
      && (forall a | a in sites :: tracee.arch.IsSite(a))
      && DistinctIds(breakpoints, pending, nextId)
    }

    ghost function LogicalMem(): Memory
      reads this, tracee
    {
      Logical(tracee.arch, tracee.mem, breakpoints)
    }

    /** Registers and logical memory are those of the undebugged run after the instructions executed so far. */
    ghost predicate InStep()
      reads this, tracee
    {
      Mirrors(tracee.isa, tracee.arch, origin, tracee.executed, tracee.cpu, tracee.mem, breakpoints)
    }

    ghost predicate ResolvesToSites(resolve: Resolver) {
      forall spec, a | a in resolve(spec) :: a in sites
    }

    // ---------- arming and disarming ----------

    method Enable(a: Address) returns (ok: Outcome)
      requires Sound() && a in breakpoints
      modifies this`breakpoints, tracee`mem, tracee`refused
      ensures Sound() && LogicalMem() == old(LogicalMem())
      ensures breakpoints.Keys == old(breakpoints).Keys
      ensures breakpoints ==
                old(breakpoints)[a := old(breakpoints[a]).(saved := breakpoints[a].saved, enabled := ok == Ok)]
      ensures ok == Ok ==> tracee.refused == old(tracee.refused)
      ensures ok == Thrown ==> tracee.refused > old(tracee.refused) && tracee.mem == old(tracee.mem)
    {
      var b := breakpoints[a];
      assert EntryInPlace(tracee.arch, tracee.mem, a, b);
      if b.pending || (b.enabled && b.saved != []) {
        return Ok;
      }
      var saved := ReadBytes(tracee, a, tracee.arch.BreakpointSize());
      if saved.None? {
        return Thrown;
      }
      ok := Patch(a, b.(saved := saved.value));
    }

    /** The rest of enable, once the footprint has been read. */
    method Patch(a: Address, b: Breakpoint) returns (ok: Outcome)
      requires Sound() && a in breakpoints && !breakpoints[a].enabled
      requires RangeMapped(tracee.mem, a, tracee.arch.BreakpointSize())
      requires b == breakpoints[a].(saved := Footprint(tracee.arch, tracee.mem, a))
      modifies this`breakpoints, tracee`mem, tracee`refused
      ensures Sound() && LogicalMem() == old(LogicalMem())
      ensures breakpoints == old(breakpoints)[a := b.(enabled := ok == Ok)]
      ensures ok == Ok ==> tracee.refused == old(tracee.refused)
      ensures ok == Thrown ==> tracee.refused > old(tracee.refused) && tracee.mem == old(tracee.mem)
    {
      assert EntryInPlace(tracee.arch, tracee.mem, a, breakpoints[a]);
      Arming(tracee.arch, tracee.mem, breakpoints, a);
      UpdatedEntryKeepsIds(breakpoints, pending, nextId, a, b);
      UpdatedEntryKeepsIds(breakpoints, pending, nextId, a, b.(enabled := true));
      breakpoints := breakpoints[a := b];
      ok := WriteBytes(tracee, a, tracee.arch.BreakpointInstruction());
      if ok == Ok {
        breakpoints := breakpoints[a := b.(enabled := true)];
        assert breakpoints == old(breakpoints)[a := b.(enabled := true)];
      }
    }

    method Disable(a: Address) returns (ok: Outcome)
      requires Sound() && a in breakpoints
      modifies this`breakpoints, tracee`mem, tracee`refused
      ensures Sound() && LogicalMem() == old(LogicalMem())
      ensures breakpoints ==
                if ok == Ok then old(breakpoints)[a := old(breakpoints[a]).(enabled := false)] else old(breakpoints)
      ensures ok == Ok ==> tracee.refused == old(tracee.refused)
      ensures ok == Thrown ==> tracee.refused > old(tracee.refused) && tracee.mem == old(tracee.mem)
    {
      var b := breakpoints[a];
      assert EntryInPlace(tracee.arch, tracee.mem, a, b);
      if b.pending || !b.enabled || b.saved == [] {
        return Ok;
      }
      Disarming(tracee.arch, tracee.mem, breakpoints, a);
      UpdatedEntryKeepsIds(breakpoints, pending, nextId, a, b.(enabled := false));
      ok := WriteBytes(tracee, a, b.saved);
      if ok == Ok {
        breakpoints := breakpoints[a := b.(enabled := false)];
      }
    }

    // ---------- creating, removing and resolving entries ----------

    /**
     * An address already in the table keeps its entry as it is. Otherwise a new entry is inserted and armed;
     * if arming throws, the entry stays in the table disarmed.
     */
    method CreateBreakpoint(a: Address, specification: string, temporary: bool) returns (ok: Outcome, id: int)
      requires Sound() && a in sites
      modifies this`breakpoints, this`nextId, tracee`mem, tracee`refused
      ensures Sound() && LogicalMem() == old(LogicalMem())
      ensures a in old(breakpoints) ==>
                && ok == Ok && id == old(breakpoints)[a].id
                && breakpoints == old(breakpoints) && nextId == old(nextId) && tracee.mem == old(tracee.mem)
      ensures a !in old(breakpoints) ==>
                && id == old(nextId) && nextId == old(nextId) + 1 && a in breakpoints
                && var b := breakpoints[a];
                && b == Breakpoint(id, a, specification, b.saved, ok == Ok, temporary, false)
                && breakpoints == old(breakpoints)[a := b]
      ensures ok == Ok ==> tracee.refused == old(tracee.refused)
      ensures ok == Thrown ==> tracee.refused > old(tracee.refused)
    {
      if a in breakpoints {
        return Ok, breakpoints[a].id;
      }
      id := nextId;
      var b := Breakpoint(id, a, specification, [], false, temporary, false);
      DisarmedEntryInPlace(tracee.arch, tracee.mem, breakpoints, a, b);
      DisarmedEntryInvisible(tracee.arch, tracee.mem, breakpoints, a, b);
      NewEntryKeepsIds(breakpoints, pending, nextId, a, b);
      nextId := nextId + 1;
      breakpoints := breakpoints[a := b];
      ok := Enable(a);
    }

    method CreatePending(specification: string) returns (id: int)
      requires Sound()
      modifies this`pending, this`nextId
      ensures Sound()
      ensures id == old(nextId) && nextId == old(nextId) + 1
      ensures pending == old(pending) + [Breakpoint(id, 0, specification, [], false, false, true)]
    {
      id := nextId;
      var p := Breakpoint(id, 0, specification, [], false, false, true);
      NewPendingKeepsIds(breakpoints, pending, nextId, p);
      nextId := nextId + 1;
      pending := pending + [p];
    }

    /** The scan of the table for an identifier. */
    method FindId(id: int) returns (a: Option<Address>)
      ensures a.Some? ==> a.value in breakpoints && breakpoints[a.value].id == id
      ensures a.None? ==> forall k | k in breakpoints :: breakpoints[k].id != id
    {
      var left := breakpoints.Keys;
      while left != {}
        invariant left <= breakpoints.Keys
        invariant forall k | k in breakpoints && k !in left :: breakpoints[k].id != id
      {
        var k :| k in left;
        if breakpoints[k].id == id {
          return Some(k);
        }
        left := left - {k};
      }
      a := None;
    }

    /** Disarm and erase an entry. If disarming throws, the entry stays, armed. */
    method EraseEntry(a: Address) returns (ok: Outcome)
      requires Sound() && a in breakpoints
      modifies this`breakpoints, tracee`mem, tracee`refused
      ensures Sound() && LogicalMem() == old(LogicalMem())
      ensures breakpoints == if ok == Ok then old(breakpoints) - {a} else old(breakpoints)
      ensures ok == Ok ==> tracee.refused == old(tracee.refused)
      ensures ok == Thrown ==> tracee.refused > old(tracee.refused) && tracee.mem == old(tracee.mem)
    {
      ok := Disable(a);
      if ok == Ok {
        assert EntryInPlace(tracee.arch, tracee.mem, a, breakpoints[a]);
        DisarmedEntryInPlace(tracee.arch, tracee.mem, breakpoints, a, breakpoints[a]);
        DisarmedEntryInvisible(tracee.arch, tracee.mem, breakpoints, a, breakpoints[a]);
        ErasedEntryKeepsIds(breakpoints, pending, nextId, a);
        breakpoints := breakpoints - {a};
      }
    }

    /** Removes whichever live or pending entry has the identifier. */
    method RemoveBreakpoint(id: int) returns (ok: Outcome)
      requires Sound()
      modifies this`breakpoints, this`pending, tracee`mem, tracee`refused
      ensures Sound() && LogicalMem() == old(LogicalMem())
      ensures breakpoints.Keys <= old(breakpoints).Keys
      ensures forall a | a in breakpoints :: breakpoints[a] == old(breakpoints)[a]
      ensures ok == Ok ==>
                && (forall a | a in breakpoints :: breakpoints[a].id != id)
                && (forall a | a in old(breakpoints) && a !in breakpoints :: old(breakpoints)[a].id == id)
                && pending == WithoutId(old(pending), id)
                && tracee.refused == old(tracee.refused)
      ensures ok == Thrown ==>
                breakpoints == old(breakpoints) && pending == old(pending) && tracee.refused > old(tracee.refused)
    {
      var found := FindId(id);
      if found.Some? {
        IdsArePairwiseDistinct(breakpoints, pending, nextId);
        WithoutAbsent(pending, id);
        ok := EraseEntry(found.value);
        return;
      }
      WithoutIdDistinct(breakpoints, pending, id, nextId);
      pending := WithoutId(pending, id);
      ok := Ok;
    }

    /** Create a breakpoint at each address a specification resolved to. */
    method CreateAll(addresses: seq<Address>, specification: string) returns (ok: Outcome)
      requires Sound() && forall a | a in addresses :: a in sites
      modifies this`breakpoints, this`nextId, tracee`mem, tracee`refused
      ensures Sound() && LogicalMem() == old(LogicalMem())
      ensures Extends(old(breakpoints), breakpoints)
      ensures forall a | a in breakpoints :: a in old(breakpoints) || a in addresses
      ensures ok == Ok ==> tracee.refused == old(tracee.refused) && forall a | a in addresses :: a in breakpoints
      ensures ok == Ok ==>
                forall a | a in breakpoints && a !in old(breakpoints) :: MadeFor(breakpoints[a], specification)
      ensures ok == Thrown ==> tracee.refused > old(tracee.refused)
    {
      for i := 0 to |addresses|
        invariant Sound() && LogicalMem() == old(LogicalMem())
        invariant Extends(old(breakpoints), breakpoints)
        invariant forall a | a in breakpoints :: a in old(breakpoints) || a in addresses
        invariant forall a | a in breakpoints && a !in old(breakpoints) :: MadeFor(breakpoints[a], specification)
        invariant tracee.refused == old(tracee.refused)
        invariant forall j | 0 <= j < i :: addresses[j] in breakpoints
      {
        var id;
        ok, id := CreateBreakpoint(addresses[i], specification, false);
        if ok == Thrown {
          return;
        }
      }
      ok := Ok;
    }

    /** One turn of resolve_pending_breakpoints, for a specification that now resolves. */
    method PlacePending(i: nat, resolve: Resolver) returns (ok: Outcome)
      requires Sound() && ResolvesToSites(resolve) && i < |pending|
      modifies this`breakpoints, this`pending, this`nextId, tracee`mem, tracee`refused
      ensures Sound() && LogicalMem() == old(LogicalMem())
      ensures var p := old(pending)[i];
              && Placed(p, resolve, old(breakpoints), breakpoints, ok)
              && pending == if ok == Ok then old(pending)[..i] + old(pending)[i + 1..] else old(pending)
      ensures ok == Ok ==> tracee.refused == old(tracee.refused)
      ensures ok == Thrown ==> tracee.refused > old(tracee.refused)
    {
      var p := pending[i];
      ok := CreateAll(resolve(p.specification), p.specification);
      if ok == Ok {
        ErasedPendingKeepsIds(breakpoints, pending, nextId, i);
        pending := pending[..i] + pending[i + 1..];
      }
    }

    /** One turn of the loop: an entry that now resolves is placed and leaves the list. */
    method RetryPending(i: nat, resolve: Resolver, ghost t: Table, ghost all: seq<Breakpoint>, ghost done: nat)
      returns (ok: Outcome, resolved: bool)
      requires Sound() && ResolvesToSites(resolve) && i < |pending|
      requires Retrying(t, all, done, resolve, i, pending, breakpoints)
      modifies this`breakpoints, this`pending, this`nextId, tracee`mem, tracee`refused
      ensures Sound() && LogicalMem() == old(LogicalMem())
      ensures Extends(old(breakpoints), breakpoints)
      ensures ok == Ok ==>
                && tracee.refused == old(tracee.refused)
                && |pending| == |old(pending)| - (if resolved then 1 else 0)
                && Retrying(t, all, done + 1, resolve, if resolved then i else i + 1, pending, breakpoints)
      ensures ok == Thrown ==>
                && tracee.refused > old(tracee.refused) && pending == old(pending)
                && breakpoints.Keys <= Holdable(t, all, resolve)
    {
      resolved := resolve(pending[i].specification) != [];
      if !resolved {
        StillPending(t, all, done, resolve, i, pending, breakpoints);
        return Ok, resolved;
      }
      ok := PlacePending(i, resolve);
      if ok == Thrown {
        PlacedKeys(t, all, done, resolve, i, pending, old(breakpoints), breakpoints);
      } else {
        NoLongerPending(t, all, done, resolve, i, old(pending), old(breakpoints), breakpoints);
      }
    }

    /** Retry every pending specification; one that now resolves leaves the list once all its addresses have entries. */
    method ResolvePending(resolve: Resolver) returns (ok: Outcome)
      requires Sound() && ResolvesToSites(resolve)
      modifies this`breakpoints, this`pending, this`nextId, tracee`mem, tracee`refused
      ensures Sound() && LogicalMem() == old(LogicalMem())
      ensures Extends(old(breakpoints), breakpoints)
      ensures ok == Ok ==>
                && tracee.refused == old(tracee.refused)
                && pending == Unresolved(old(pending), resolve)
                && Followed(old(breakpoints), old(pending), resolve, None, breakpoints)
      ensures breakpoints.Keys <= Holdable(old(breakpoints), old(pending), resolve)
      ensures forall p | p in pending :: p in old(pending)
      ensures ok == Thrown ==> tracee.refused > old(tracee.refused)
    {
      var i := 0;
      ghost var done := 0;  // how many of the original entries have been looked at
      ghost var t, all := breakpoints, pending;
      RetryStarts(t, all, resolve);
      while i < |pending|
        invariant Sound() && LogicalMem() == old(LogicalMem())
        invariant Extends(t, breakpoints) && tracee.refused == old(tracee.refused)
        invariant Retrying(t, all, done, resolve, i, pending, breakpoints)
        decreases |pending| - i
      {
        var resolved;
        ok, resolved := RetryPending(i, resolve, t, all, done);
        if ok == Thrown {
          return;
        }
        done := done + 1;
        if !resolved {
          i := i + 1;
        }
      }
      Retried(t, all, done, resolve, i, pending, breakpoints);
      ok := Ok;
    }

    method SetBreakpoint(specification: string, resolve: Resolver) returns (ok: Outcome)
      requires Sound() && ResolvesToSites(resolve)
      modifies this`breakpoints, this`pending, this`nextId, tracee`mem, tracee`refused
      ensures Sound() && LogicalMem() == old(LogicalMem())
      ensures Extends(old(breakpoints), breakpoints)
      ensures forall a | a in breakpoints :: a in old(breakpoints) || a in resolve(specification)
      ensures resolve(specification) == [] ==>
                && ok == Ok && breakpoints == old(breakpoints)
                && pending == old(pending) + [Breakpoint(old(nextId), 0, specification, [], false, false, true)]
      ensures resolve(specification) != [] ==> pending == old(pending)
      ensures ok == Ok ==>
                && tracee.refused == old(tracee.refused)
                && (forall a | a in resolve(specification) :: a in breakpoints)
                && (forall a | a in breakpoints && a !in old(breakpoints) :: MadeFor(breakpoints[a], specification))
      ensures ok == Thrown ==> tracee.refused > old(tracee.refused)
    {
      var resolved := resolve(specification);
      if resolved == [] {
        var id := CreatePending(specification);
        return Ok;
      }
      ok := CreateAll(resolved, specification);
    }

    /**
     * Disarm everything. An entry whose bytes cannot be written back is skipped, so that no more entries stay armed
     * than requests were refused. With none refused, raw memory is logical memory again.
     */
    method Detach()
      requires Sound()
      modifies this`breakpoints, this`detached, tracee`mem, tracee`refused
      ensures Sound() && LogicalMem() == old(LogicalMem())
      ensures detached && tracee.refused >= old(tracee.refused)
      ensures breakpoints.Keys == old(breakpoints).Keys
      ensures !old(detached) ==> |ArmedSites(breakpoints)| <= tracee.refused - old(tracee.refused)
      ensures OnlyDisarmed(old(breakpoints), breakpoints)
      ensures tracee.refused == old(tracee.refused) && !old(detached) ==> tracee.mem == LogicalMem()
    {
      if detached {
        return;
      }
      var left := breakpoints.Keys;
      ghost var skipped: set<Address> := {};  // the entries whose bytes could not be written back
      while left != {}
        invariant Sound() && LogicalMem() == old(LogicalMem())
        invariant left <= breakpoints.Keys
        invariant |skipped| <= tracee.refused - old(tracee.refused)
        invariant OnlyDisarmed(old(breakpoints), breakpoints)
        invariant forall k | k in breakpoints && k !in left && k !in skipped :: !breakpoints[k].enabled
      {
        var k :| k in left;
        var ok := Disable(k);
        left := left - {k};
        skipped := if ok == Ok then skipped else skipped + {k};
      }
      detached := true;
      FewArmed(breakpoints, skipped);
      if tracee.refused == old(tracee.refused) {
        NothingArmed(tracee.arch, tracee.mem, breakpoints);
      }
    }

    // ---------- stops ----------

    /**
     * The trap branch of print_stop. Whatever raised the SIGTRAP, the pc moves to the candidate address if the
     * table has an entry there, armed or not, and a temporary entry is erased. Exceptions are swallowed. `hit` is
     * the address in the message "hit breakpoint", if it is printed.
     */
    method PrintStop(signal: Signal) returns (hit: Option<Address>)
      requires Sound()
      modifies this`breakpoints, tracee`cpu, tracee`mem, tracee`refused
      ensures Sound() && LogicalMem() == old(LogicalMem())
      ensures tracee.refused >= old(tracee.refused)
      ensures hit.Some? ==>
                && signal == SIGTRAP && hit.value == tracee.arch.TrapCandidate(old(tracee.cpu.pc))
                && hit.value in old(breakpoints)
      ensures tracee.cpu == old(tracee.cpu).(pc := if hit.Some? then hit.value else old(tracee.cpu.pc))
      ensures breakpoints in {old(breakpoints), AfterReport(old(breakpoints), hit)}
      ensures tracee.refused == old(tracee.refused) ==>
                && (hit.Some? <==>
                      signal == SIGTRAP && tracee.arch.TrapCandidate(old(tracee.cpu.pc)) in old(breakpoints))
                && breakpoints == AfterReport(old(breakpoints), hit)
    {
      hit := None;
      if signal == SIGTRAP {
        var registers := tracee.ReadRegisters();
        if registers.None? {
          return;
        }
        var candidate := tracee.arch.TrapCandidate(registers.value.pc);
        if candidate in breakpoints {
          var ok := tracee.SetPc(candidate);
          if ok == Thrown {
            return;
          }
          hit := Some(candidate);
          if breakpoints[candidate].temporary {
            ok := EraseEntry(candidate);
          }
        }
      }
    }

    /**
     * What follows every stop: modules are read again, pending breakpoints are retried, and then the stop is
     * reported if `report` says so.
     */
    method WaitAndReport(signal: Signal, report: bool, resolve: Resolver) returns (ok: Outcome, hit: Option<Address>)
      requires Sound() && ResolvesToSites(resolve)
      modifies this`breakpoints, this`pending, this`nextId, tracee`cpu, tracee`mem, tracee`refused
      ensures Sound() && LogicalMem() == old(LogicalMem())
      ensures tracee.refused >= old(tracee.refused)
      ensures ok == Thrown ==> tracee.refused > old(tracee.refused)
      ensures ok == Thrown || !report ==> hit == None
      ensures ok == Ok && !report ==> tracee.refused == old(tracee.refused)
      ensures hit.Some? ==>
                && signal == SIGTRAP && hit.value == tracee.arch.TrapCandidate(old(tracee.cpu.pc))
                && hit.value in Holdable(old(breakpoints), old(pending), resolve)
      ensures tracee.cpu == old(tracee.cpu).(pc := if hit.Some? then hit.value else old(tracee.cpu.pc))
      ensures tracee.refused == old(tracee.refused) && report && signal == SIGTRAP &&
              tracee.arch.TrapCandidate(old(tracee.cpu.pc)) in Holdable(old(breakpoints), old(pending), resolve) ==>
                hit.Some?
      ensures ok == Ok ==>
                && pending == Unresolved(old(pending), resolve)
                && Followed(old(breakpoints), old(pending), resolve, hit, breakpoints)
      ensures tracee.refused == old(tracee.refused) ==> TemporaryGone(old(breakpoints), breakpoints, hit)
    {
      hit := None;
      ok := tracee.ReadMaps();
      if ok == Thrown {
        return;
      }
      ok := ResolvePending(resolve);
      if ok == Thrown || !report {
        return;
      }
      ghost var middle := breakpoints;
      FollowedKeys(old(breakpoints), old(pending), resolve, None, middle);
      hit := PrintStop(signal);
      FollowedByReport(old(breakpoints), old(pending), resolve, middle, hit, breakpoints);
    }

    // ---------- run control ----------

    ghost predicate TameTarget() {
      Tame(tracee.isa, tracee.arch, origin, sites)
    }

    /** The undebugged target after n instructions. */
    ghost function Undebugged(n: nat): State {
      Run(tracee.isa, origin, n)
    }

    /** Logical memory alone follows the undebugged run; the pc may still await a rewind. */
    ghost predicate MemoryInStep()
      reads this, tracee
    {
      LogicalMem() == Undebugged(tracee.executed).mem
    }

    /** All registers but the pc are the undebugged ones, and the pc is where the trap and the report have left it. */
    ghost predicate StoppedAt(trapped: bool, hit: Option<Address>)
      reads this, tracee
    {
      var cpu := Undebugged(tracee.executed).cpu;
      var shown := Shown(tracee.arch, cpu.pc, trapped);
      && (hit.Some? ==> hit.value == tracee.arch.TrapCandidate(shown))
      && tracee.cpu == cpu.(pc := if hit.Some? then hit.value else shown)
    }

    /** Where the other registers and memory follow the undebugged run, the pc alone decides. */
    lemma StoppedInStep(trapped: bool, hit: Option<Address>)
      requires Sound() && MemoryInStep() && StoppedAt(trapped, hit)
      ensures InStep() <==> RightlyReported(tracee.arch, trapped, hit)
    {
      RewoundRightly(tracee.arch, Undebugged(tracee.executed).cpu.pc, trapped, hit);
    }

    /**
     * print_stop where no trap has advanced the pc, as the `thread` command does. On x86-64 it puts the pc wrong
     * exactly when it reports a hit, which it does exactly when some entry lies one byte below the pc.
     */
    method ReportAgain(signal: Signal) returns (hit: Option<Address>)
      requires Sound() && InStep()
      modifies this`breakpoints, tracee`cpu, tracee`mem, tracee`refused
      ensures Sound() && MemoryInStep() && StoppedAt(false, hit)
      ensures InStep() <==> RightlyReported(tracee.arch, false, hit)
      ensures tracee.refused >= old(tracee.refused)
      ensures tracee.refused == old(tracee.refused) ==>
                && (hit.Some? <==>
                      signal == SIGTRAP && tracee.arch.TrapCandidate(old(tracee.cpu.pc)) in old(breakpoints))
                && breakpoints == AfterReport(old(breakpoints), hit)
    {
      hit := PrintStop(signal);
      StoppedInStep(false, hit);
    }

    /** If the pc is on an armed entry: disarm it, execute the one instruction, arm it again. */
    method StepOverBreakpoint() returns (ok: Outcome)
      requires Sound() && InStep() && TameTarget()
      modifies this`breakpoints, tracee
      ensures Sound() && InStep()
      ensures ok == Ok ==> SameButSaved(old(breakpoints), breakpoints) && tracee.refused == old(tracee.refused)
      ensures ok == Ok ==>
                tracee.executed == old(tracee.executed) + if Armed(old(breakpoints), old(tracee.cpu.pc)) then 1 else 0
      ensures ok == Ok ==>
                && tracee.singleSteps - old(tracee.singleSteps) == tracee.executed - old(tracee.executed)
                && tracee.resumptions == old(tracee.resumptions)
      ensures ok == Thrown ==>
                && tracee.refused > old(tracee.refused)
                && old(tracee.executed) <= tracee.executed <= old(tracee.executed) + 1
                && breakpoints.Keys == old(breakpoints).Keys
    {
      var registers := tracee.ReadRegisters();
      if registers.None? {
        return Thrown;
      }
      var pc := registers.value.pc;
      if pc !in breakpoints || !breakpoints[pc].enabled {
        return Ok;
      }
      ok := Disable(pc);
      if ok == Ok {
        ok := StepDisarmed(pc, old(breakpoints));
      }
    }

    /** The rest of step_over_breakpoint, once the entry at the pc is disarmed. `t` is the table from before. */
    method StepDisarmed(pc: Address, ghost t: Table) returns (ok: Outcome)
      requires Sound() && InStep() && TameTarget() && pc == tracee.cpu.pc
      requires Armed(t, pc) && breakpoints == t[pc := t[pc].(enabled := false)]
      modifies this`breakpoints, tracee
      ensures Sound() && InStep()
      ensures breakpoints.Keys == old(breakpoints).Keys
      ensures old(tracee.executed) <= tracee.executed <= old(tracee.executed) + 1
      ensures ok == Ok ==>
                && SameButSaved(t, breakpoints)
                && tracee.refused == old(tracee.refused) && tracee.executed == old(tracee.executed) + 1
                && tracee.singleSteps == old(tracee.singleSteps) + 1 && tracee.resumptions == old(tracee.resumptions)
      ensures ok == Thrown ==> tracee.refused > old(tracee.refused)
    {
      MirrorTrap(tracee.isa, tracee.arch, origin, tracee.executed, tracee.cpu, tracee.mem, breakpoints, sites);
      MirrorStep(tracee.isa, tracee.arch, origin, tracee.executed, State(tracee.cpu, tracee.mem), breakpoints, sites);
      ok := tracee.SingleStep();
      if ok == Ok {
        ok := Enable(pc);
      }
    }

    /** PTRACE_CONT from a mirrored state: run to the first armed entry or to the interruption. */
    method Resume(patience: nat) returns (ok: Outcome, signal: Signal)
      requires Sound() && InStep() && TameTarget()
      modifies tracee
      ensures Sound() && MemoryInStep() && StoppedAt(signal == SIGTRAP, None)
      ensures tracee.executed >= old(tracee.executed)
      ensures ok == Thrown ==>
                tracee.refused > old(tracee.refused) && signal == SIGSTOP && tracee.executed == old(tracee.executed)
      ensures ok == Ok ==> tracee.refused == old(tracee.refused)
      ensures NoneArmedBetween(tracee.isa, origin, old(tracee.executed), tracee.executed, breakpoints)
      ensures signal == SIGTRAP ==> Armed(breakpoints, Undebugged(tracee.executed).cpu.pc)
      ensures ok == Ok ==> RunsOut(old(tracee.executed), tracee.executed, patience, signal)
      ensures ok == Ok ==>
                tracee.resumptions == old(tracee.resumptions) + 1 && tracee.singleSteps == old(tracee.singleSteps)
    {
      ghost var n, s := tracee.executed, State(tracee.cpu, tracee.mem);
      ghost var ran;
      ok, signal, ran := tracee.Cont(patience);
      if ok == Ok {
        StretchSimulates(tracee.isa, tracee.arch, origin, n, s, breakpoints, sites, ran);
        ghost var end := Run(tracee.isa, s, ran);
        MirrorTrap(tracee.isa, tracee.arch, origin, n + ran, end.cpu, end.mem, breakpoints, sites);
      } else {
        signal := SIGSTOP;
      }
    }

    /**
     * Continue. A trap is the first armed entry the undebugged run meets after at least one instruction, with the
     * pc rewound onto it if the hit is reported. Otherwise the run was interrupted, when the user's patience was at
     * its end and before it had passed one. `signal` is SIGSTOP too if an exception came before the target resumed.
     */
    method ContinueExecution(patience: nat, resolve: Resolver)
      returns (ok: Outcome, signal: Signal, hit: Option<Address>)
      requires Sound() && InStep() && TameTarget() && ResolvesToSites(resolve)
      modifies this`breakpoints, this`pending, this`nextId, tracee
      ensures Sound() && MemoryInStep() && StoppedAt(signal == SIGTRAP, hit)
      ensures InStep() <==> RightlyReported(tracee.arch, signal == SIGTRAP, hit)
      ensures StopsFirst(tracee.isa, origin, old(tracee.executed), tracee.executed, old(breakpoints), signal)
      ensures ok == Ok || signal == SIGTRAP ==>
                RunsOut(ResumedAt(tracee.isa, origin, old(tracee.executed), old(breakpoints)), tracee.executed,
                        patience, signal)
      ensures hit.Some? ==> signal == SIGTRAP && hit.value == Undebugged(tracee.executed).cpu.pc
      ensures tracee.refused >= old(tracee.refused) && (ok == Thrown ==> tracee.refused > old(tracee.refused))
      ensures tracee.refused == old(tracee.refused) ==> (signal == SIGTRAP <==> hit.Some?)
      ensures ok == Ok ==>
                && pending == Unresolved(old(pending), resolve)
                && Followed(old(breakpoints), old(pending), resolve, hit, breakpoints)
                && tracee.resumptions == old(tracee.resumptions) + 1
                && tracee.singleSteps == old(tracee.singleSteps) +
                                           (if Armed(old(breakpoints), old(tracee.cpu.pc)) then 1 else 0)
      ensures tracee.refused == old(tracee.refused) ==> TemporaryGone(old(breakpoints), breakpoints, hit)
    {
      signal, hit := SIGSTOP, None;
      ok := StepOverBreakpoint();
      if ok == Thrown {
        return;
      }
      ghost var from, t := tracee.executed, breakpoints;
      ok, signal := Resume(patience);
      StoppedFirst(tracee.isa, origin, old(tracee.executed), from, tracee.executed, old(breakpoints), t, signal);
      if ok == Ok {
        ok, hit := AfterResume(signal, resolve);
        if ok == Ok {
          FollowedFromSaved(old(breakpoints), t, old(pending), resolve, hit, breakpoints);
        }
      }
      StoppedInStep(signal == SIGTRAP, hit);
    }

    /** The rest of continue_execution, once the target has stopped. */
    method AfterResume(signal: Signal, resolve: Resolver) returns (ok: Outcome, hit: Option<Address>)
      requires Sound() && MemoryInStep() && StoppedAt(signal == SIGTRAP, None) && ResolvesToSites(resolve)
      requires signal == SIGTRAP ==> Armed(breakpoints, Undebugged(tracee.executed).cpu.pc)
      modifies this`breakpoints, this`pending, this`nextId, tracee`cpu, tracee`mem, tracee`refused
      ensures Sound() && MemoryInStep() && StoppedAt(signal == SIGTRAP, hit)
      ensures hit.Some? ==> signal == SIGTRAP && hit.value == Undebugged(tracee.executed).cpu.pc
      ensures tracee.refused >= old(tracee.refused) && (ok == Thrown ==> tracee.refused > old(tracee.refused))
      ensures tracee.refused == old(tracee.refused) ==> (signal == SIGTRAP <==> hit.Some?)
      ensures ok == Ok ==>
                && pending == Unresolved(old(pending), resolve)
                && Followed(old(breakpoints), old(pending), resolve, hit, breakpoints)
      ensures tracee.refused == old(tracee.refused) ==> TemporaryGone(old(breakpoints), breakpoints, hit)
    {
      CandidateOfTrap(tracee.arch, Undebugged(tracee.executed).cpu.pc);
      ok, hit := WaitAndReport(signal, true, resolve);
    }

    /** PTRACE_SINGLESTEP from a mirrored state: one instruction of the program, or the trap at an armed entry. */
    method StepOne() returns (ok: Outcome, trapped: bool)
      requires Sound() && InStep() && TameTarget()
      modifies tracee
      ensures Sound() && MemoryInStep() && StoppedAt(trapped, None)
      ensures ok == Thrown ==>
                tracee.refused > old(tracee.refused) && !trapped && tracee.executed == old(tracee.executed)
      ensures ok == Ok ==>
                && tracee.refused == old(tracee.refused)
                && (trapped <==> Armed(breakpoints, old(tracee.cpu.pc)))
                && tracee.executed == old(tracee.executed) + (if trapped then 0 else 1)
                && tracee.singleSteps == old(tracee.singleSteps) + 1
    {
      MirrorTrap(tracee.isa, tracee.arch, origin, tracee.executed, tracee.cpu, tracee.mem, breakpoints, sites);
      trapped := Armed(breakpoints, tracee.cpu.pc);
      if !trapped {
        MirrorStep(tracee.isa, tracee.arch, origin, tracee.executed, State(tracee.cpu, tracee.mem), breakpoints, sites);
      }
      ok := tracee.SingleStep();
      trapped := trapped && ok == Ok;
    }

    /** The stepping part of instruction_step, up to the second stop. */
    method StepOverAndOn() returns (ok: Outcome, trapped: bool)
      requires Sound() && InStep() && TameTarget()
      modifies this`breakpoints, tracee
      ensures Sound() && MemoryInStep() && StoppedAt(trapped, None)
      ensures old(tracee.executed) <= tracee.executed <= old(tracee.executed) + 2
      ensures ok == Thrown ==> tracee.refused > old(tracee.refused) && !trapped
      ensures ok == Ok ==>
                && tracee.refused == old(tracee.refused)
                && SameButSaved(old(breakpoints), breakpoints)
                && Landing(tracee.executed, trapped) ==
                     Advance(tracee.isa, origin, old(tracee.executed), ArmedSites(old(breakpoints)))
                && (trapped ==> Armed(old(breakpoints), Undebugged(tracee.executed).cpu.pc))
                && tracee.singleSteps - old(tracee.singleSteps) == SingleStepsFrom(old(breakpoints), old(tracee.cpu.pc))
    {
      trapped := false;
      ok := StepOverBreakpoint();
      if ok == Ok {
        ok, trapped := StepOne();
      }
    }

    /**
     * Step one instruction, after stepping over an armed entry at the pc: two instructions from an armed pc,
     * unless the second is armed too. `trapped` says that it was.
     */
    method InstructionStep(report: bool, resolve: Resolver)
      returns (ok: Outcome, trapped: bool, hit: Option<Address>)
      requires Sound() && InStep() && TameTarget() && ResolvesToSites(resolve)
      modifies this`breakpoints, this`pending, this`nextId, tracee
      ensures Sound() && MemoryInStep() && StoppedAt(trapped, hit)
      ensures InStep() <==> RightlyReported(tracee.arch, trapped, hit)
      ensures old(tracee.executed) <= tracee.executed <= old(tracee.executed) + 2
      ensures ok == Ok || trapped ==>
                Landing(tracee.executed, trapped) ==
                  Advance(tracee.isa, origin, old(tracee.executed), ArmedSites(old(breakpoints)))
      ensures ok == Ok && !Armed(old(breakpoints), old(tracee.cpu.pc)) ==>
                && tracee.executed == old(tracee.executed) + 1 && !trapped
                && tracee.singleSteps == old(tracee.singleSteps) + 1
      ensures ok == Ok && Armed(old(breakpoints), old(tracee.cpu.pc)) ==>
                && tracee.singleSteps == old(tracee.singleSteps) + 2
                && if Armed(old(breakpoints), Undebugged(old(tracee.executed) + 1).cpu.pc)
                   then tracee.executed == old(tracee.executed) + 1 && trapped
                   else tracee.executed == old(tracee.executed) + 2 && !trapped
      ensures tracee.refused >= old(tracee.refused) && (ok == Thrown ==> tracee.refused > old(tracee.refused))
      ensures ok == Thrown || !report ==> hit == None
      ensures ok == Ok && !report ==> tracee.refused == old(tracee.refused)
      ensures report && tracee.refused == old(tracee.refused) ==>
                ReportsStep(tracee.arch, Undebugged(tracee.executed).cpu.pc, trapped,
                            Holdable(old(breakpoints), old(pending), resolve), hit)
      ensures ok == Ok ==>
                && pending == Unresolved(old(pending), resolve)
                && Followed(old(breakpoints), old(pending), resolve, hit, breakpoints)
      ensures tracee.refused == old(tracee.refused) ==> TemporaryGone(old(breakpoints), breakpoints, hit)
    {
      hit := None;
      ok, trapped := StepOverAndOn();
      if ok == Ok {
        ok, hit := ReportStep(report, resolve, trapped, old(breakpoints));
      }
      StoppedInStep(trapped, hit);
    }

    /**
     * The report after a single step, which has either executed one instruction or met the trap at the pc. `t` is
     * the table from before the step.
     */
    method ReportStep(report: bool, resolve: Resolver, ghost trapped: bool, ghost t: Table)
      returns (ok: Outcome, hit: Option<Address>)
      requires Sound() && MemoryInStep() && StoppedAt(trapped, None) && ResolvesToSites(resolve)
      requires SameButSaved(t, breakpoints) && (trapped ==> Armed(t, Undebugged(tracee.executed).cpu.pc))
      modifies this`breakpoints, this`pending, this`nextId, tracee`cpu, tracee`mem, tracee`refused
      ensures Sound() && MemoryInStep() && StoppedAt(trapped, hit)
      ensures tracee.refused >= old(tracee.refused) && (ok == Thrown ==> tracee.refused > old(tracee.refused))
      ensures ok == Thrown || !report ==> hit == None
      ensures ok == Ok && !report ==> tracee.refused == old(tracee.refused)
      ensures report && tracee.refused == old(tracee.refused) ==>
                ReportsStep(tracee.arch, Undebugged(tracee.executed).cpu.pc, trapped,
                            Holdable(t, old(pending), resolve), hit)
      ensures ok == Ok ==>
                && pending == Unresolved(old(pending), resolve)
                && Followed(t, old(pending), resolve, hit, breakpoints)
      ensures tracee.refused == old(tracee.refused) ==> TemporaryGone(t, breakpoints, hit)
    {
      CandidateOfTrap(tracee.arch, Undebugged(tracee.executed).cpu.pc);
      SameHoldable(t, breakpoints, pending, resolve);
      ok, hit := WaitAndReport(SIGTRAP, report, resolve);
      if ok == Ok {
        FollowedFromSaved(t, old(breakpoints), old(pending), resolve, hit, breakpoints);
        if report && tracee.refused == old(tracee.refused) {
          StepReported(tracee.arch, Undebugged(tracee.executed).cpu.pc, trapped,
                       Holdable(t, old(pending), resolve), hit);
        }
      }
    }

    /** source_step from an unknown location: one instruction_step. */
    method StepSomewhere(location: Locator, resolve: Resolver)
      returns (ok: Outcome, end: StepEnd, trapped: bool, hit: Option<Address>)
      requires Sound() && InStep() && TameTarget() && ResolvesToSites(resolve)
      requires location(tracee.cpu.pc).None?
      modifies this`breakpoints, this`pending, this`nextId, tracee
      ensures Sound() && MemoryInStep() && StoppedAt(trapped, hit)
      ensures InStep() <==> RightlyReported(tracee.arch, trapped, hit)
      ensures tracee.executed >= old(tracee.executed)
      ensures tracee.refused >= old(tracee.refused) && (ok == Thrown ==> tracee.refused > old(tracee.refused))
      ensures ok == Ok ==>
                StepConcludes(tracee.isa, tracee.arch, origin, location, old(tracee.executed), old(breakpoints),
                              old(pending), resolve, end, Landing(tracee.executed, trapped), hit,
                              tracee.refused == old(tracee.refused))
      ensures ok == Ok ==>
                && pending == Unresolved(old(pending), resolve)
                && Followed(old(breakpoints), old(pending), resolve, hit, breakpoints)
      ensures tracee.refused == old(tracee.refused) ==> TemporaryGone(old(breakpoints), breakpoints, hit)
      ensures ok == Ok ==>
                tracee.singleSteps == old(tracee.singleSteps) +
                                        (if Armed(old(breakpoints), old(tracee.cpu.pc)) then 2 else 1)
    {
      end := Reported;
      ok, trapped, hit := InstructionStep(true, resolve);
      if ok == Ok {
        SteppedSomewhere(tracee.isa, tracee.arch, origin, location, old(tracee.executed), old(breakpoints),
                         old(pending), resolve, Landing(tracee.executed, trapped), hit,
                         tracee.refused == old(tracee.refused));
      }
    }

    /** source_step from a known location: the loop, and the report at its end. */
    method StepOffLine(location: Locator, before: Option<Place>, resolve: Resolver)
      returns (ok: Outcome, end: StepEnd, trapped: bool, hit: Option<Address>)
      requires Sound() && InStep() && TameTarget() && ResolvesToSites(resolve)
      requires before.Some? && before == location(tracee.cpu.pc)
      modifies this`breakpoints, this`pending, this`nextId, tracee
      ensures Sound() && MemoryInStep() && StoppedAt(trapped, hit)
      ensures InStep() <==> RightlyReported(tracee.arch, trapped, hit)
      ensures tracee.executed >= old(tracee.executed)
      ensures tracee.refused >= old(tracee.refused) && (ok == Thrown ==> tracee.refused > old(tracee.refused))
      ensures ok == Ok ==>
                StepConcludes(tracee.isa, tracee.arch, origin, location, old(tracee.executed), old(breakpoints),
                              old(pending), resolve, end, Landing(tracee.executed, trapped), hit,
                              tracee.refused == old(tracee.refused))
      ensures ok == Ok ==>
                && pending == Unresolved(old(pending), resolve)
                && Followed(old(breakpoints), old(pending), resolve, hit, breakpoints)
      ensures tracee.refused == old(tracee.refused) ==> TemporaryGone(old(breakpoints), breakpoints, hit)
    {
      hit := None;
      ok, end, trapped := StepWithinLine(location, before, resolve);
      if ok == Ok {
        hit := ReportLeaving(end, trapped, resolve, old(breakpoints), old(pending));
        StepConcluded(tracee.isa, tracee.arch, origin, location, old(tracee.executed), old(breakpoints), old(pending),
                      resolve, end, Landing(tracee.executed, trapped), hit, tracee.refused == old(tracee.refused));
      }
      StoppedInStep(trapped, hit);
    }

    /** print_stop where the loop has left the line; `t` and `waiting` are from before the step. */
    method ReportLeaving(end: StepEnd, ghost trapped: bool, ghost resolve: Resolver, ghost t: Table,
                         ghost waiting: seq<Breakpoint>)
      returns (hit: Option<Address>)
      requires Sound() && MemoryInStep() && StoppedAt(trapped, None)
      requires Settling(t, waiting, resolve, breakpoints)
      modifies this`breakpoints, tracee`cpu, tracee`mem, tracee`refused
      ensures Sound() && MemoryInStep() && StoppedAt(trapped, hit)
      ensures tracee.refused >= old(tracee.refused)
      ensures tracee.refused == old(tracee.refused) ==>
                && (hit.Some? <==> Leaves(tracee.arch, Undebugged(tracee.executed).cpu.pc, trapped, end,
                                          Holdable(t, waiting, resolve)))
                && TemporaryGone(t, breakpoints, hit)
      ensures Followed(t, waiting, resolve, hit, breakpoints)
    {
      hit := None;
      SettlingMeans(t, waiting, resolve, breakpoints);
      FollowedKeys(t, waiting, resolve, None, breakpoints);
      if end == Reported {
        hit := PrintStop(SIGTRAP);
        FollowedByReport(t, waiting, resolve, old(breakpoints), hit, breakpoints);
      }
    }

    /**
     * Single-step until the source location changes. The loop's steps are not reported. Where the step ends, and
     * when it leaves an x86-64 target out of step, is the business of StepConcludes.
     */
    method SourceStep(location: Locator, resolve: Resolver)
      returns (ok: Outcome, end: StepEnd, trapped: bool, hit: Option<Address>)
      requires Sound() && InStep() && TameTarget() && ResolvesToSites(resolve)
      modifies this`breakpoints, this`pending, this`nextId, tracee
      ensures Sound() && MemoryInStep() && StoppedAt(trapped, hit)
      ensures InStep() <==> RightlyReported(tracee.arch, trapped, hit)
      ensures tracee.executed >= old(tracee.executed)
      ensures tracee.refused >= old(tracee.refused) && (ok == Thrown ==> tracee.refused > old(tracee.refused))
      ensures ok == Ok ==>
                StepConcludes(tracee.isa, tracee.arch, origin, location, old(tracee.executed), old(breakpoints),
                              old(pending), resolve, end, Landing(tracee.executed, trapped), hit,
                              tracee.refused == old(tracee.refused))
      ensures ok == Ok ==>
                && pending == Unresolved(old(pending), resolve)
                && Followed(old(breakpoints), old(pending), resolve, hit, breakpoints)
      ensures tracee.refused == old(tracee.refused) ==> TemporaryGone(old(breakpoints), breakpoints, hit)
      ensures ok == Ok && location(old(tracee.cpu.pc)).None? ==>
                tracee.singleSteps == old(tracee.singleSteps) +
                                        (if Armed(old(breakpoints), old(tracee.cpu.pc)) then 2 else 1)
    {
      end, trapped, hit := Reported, false, None;
      var registers := tracee.ReadRegisters();
      if registers.None? {
        StoppedInStep(trapped, hit);
        return Thrown, end, trapped, hit;
      }
      var before := location(registers.value.pc);
      if before.None? {
        ok, end, trapped, hit := StepSomewhere(location, resolve);
        return;
      }
      ok, end, trapped, hit := StepOffLine(location, before, resolve);
    }

    /** The loop of source_step. */
    method StepWithinLine(location: Locator, before: Option<Place>, resolve: Resolver)
      returns (ok: Outcome, end: StepEnd, trapped: bool)
      requires Sound() && InStep() && TameTarget() && ResolvesToSites(resolve)
      requires before == location(tracee.cpu.pc)
      modifies this`breakpoints, this`pending, this`nextId, tracee
      ensures Sound() && MemoryInStep() && StoppedAt(trapped, None)
      ensures tracee.executed >= old(tracee.executed)
      ensures ok == Thrown ==> tracee.refused > old(tracee.refused)
      ensures ok == Ok ==>
                && tracee.refused == old(tracee.refused)
                && StepEnds(tracee.isa, tracee.arch, origin, location, old(tracee.executed),
                            ArmedSites(old(breakpoints)), ArmedAfter(old(breakpoints), old(pending), resolve),
                            end, Landing(tracee.executed, trapped))
                && pending == Unresolved(old(pending), resolve)
                && Settling(old(breakpoints), old(pending), resolve, breakpoints)
    {
      ghost var from, t, waiting := tracee.executed, breakpoints, pending;
      ghost var first, later := ArmedSites(t), ArmedAfter(t, waiting, resolve);
      trapped := false;
      for count := 0 to STEP_LIMIT
        invariant Sound() && InStep()
        invariant tracee.refused == old(tracee.refused)
        invariant AtTurn(from, t, waiting, resolve, count, trapped)
        invariant GoneOn(tracee.isa, tracee.arch, origin, location, from, first, later, count)
        invariant count == STEP_LIMIT ==>
                    StepEnds(tracee.isa, tracee.arch, origin, location, from, first, later, LimitReached,
                             Landing(tracee.executed, trapped))
      {
        var after;
        ok, trapped, after := Turn(from, t, waiting, resolve, count, location);
        if ok == Thrown {
          return ok, Reported, trapped;
        }
        TurnDone(tracee.isa, tracee.arch, origin, location, from, first, later, count,
                 Landing(tracee.executed, trapped));
        if after != before {
          return Ok, Reported, trapped;
        }
        if tracee.arch.X86_64? && trapped {
          return Ok, Strayed, trapped;  // the loop goes on from inside an instruction; see StepEnd
        }
      }
      ok, end := Ok, LimitReached;
    }

    /** Where the loop stands after `count` turns. */
    ghost predicate AtTurn(from: nat, t: Table, waiting: seq<Breakpoint>, resolve: Resolver, count: nat, trapped: bool)
      reads this, tracee
    {
      if count == 0 then
        tracee.executed == from && breakpoints == t && pending == waiting && !trapped
      else
        && Landing(tracee.executed, trapped) ==
             Landed(tracee.isa, origin, from, ArmedSites(t), ArmedAfter(t, waiting, resolve), count)
        && tracee.executed >= from
        && pending == Unresolved(waiting, resolve)
        && Settling(t, waiting, resolve, breakpoints)
    }

    /** One turn of that loop, up to the comparison of places. */
    method Turn(ghost from: nat, ghost t: Table, ghost waiting: seq<Breakpoint>, resolve: Resolver, ghost count: nat,
                location: Locator)
      returns (ok: Outcome, trapped: bool, after: Option<Place>)
      requires Sound() && InStep() && TameTarget() && ResolvesToSites(resolve)
      requires exists before :: AtTurn(from, t, waiting, resolve, count, before)
      modifies this`breakpoints, this`pending, this`nextId, tracee
      ensures Sound() && MemoryInStep() && StoppedAt(trapped, None)
      ensures InStep() <==> RightlyReported(tracee.arch, trapped, None)
      ensures tracee.executed >= old(tracee.executed)
      ensures ok == Thrown ==> tracee.refused > old(tracee.refused)
      ensures ok == Ok ==>
                && tracee.refused == old(tracee.refused) && AtTurn(from, t, waiting, resolve, count + 1, trapped)
                && after == location(ShownAt(tracee.isa, tracee.arch, origin, Landing(tracee.executed, trapped)))
                && tracee.singleSteps - old(tracee.singleSteps) ==
                     (if Armed(old(breakpoints), old(tracee.cpu.pc)) then 2 else 1)
    {
      var hit;
      after := None;
      ok, trapped, hit := InstructionStep(false, resolve);
      if ok == Thrown {
        return;
      }
      NextSettling(t, waiting, resolve, count == 0, old(breakpoints), old(pending), breakpoints, pending);
      var registers := tracee.ReadRegisters();
      if registers.None? {
        return Thrown, trapped, after;
      }
      after := location(registers.value.pc);
    }

    /** The debugger and the target as they are. */
    ghost function Now(): Moment
      reads this, tracee
    {
      Moment(tracee.executed, tracee.singleSteps, tracee.resumptions, tracee.cpu, tracee.mem,
             breakpoints, pending, nextId, tracee.refused)
    }

    /** The word above the frame pointer. */
    method ReturnAddress() returns (r: Option<Address>)
      modifies tracee`refused
      ensures tracee.refused >= old(tracee.refused)
      ensures r.Some? ==> IsReturnAddress(tracee.mem, tracee.cpu.fp, r.value) && tracee.refused == old(tracee.refused)
      ensures r.None? ==> tracee.refused > old(tracee.refused)
    {
      var registers := tracee.ReadRegisters();
      if registers.None? {
        return None;
      }
      var word := tracee.Peek(Plus(registers.value.fp, 8));
      r := if word.None? then None else Some(WordAsAddress(word.value));
    }

    /**
     * finish: a temporary breakpoint at the return address, then continue. `stops` is the table the run stops by:
     * an address that already has an entry keeps it as it is, armed or not, and only an entry made here is temporary.
     * A return address outside `sites` is beyond what is assumed of the program; there the model ends.
     */
    method StepOut(patience: nat, resolve: Resolver) returns (ok: Outcome, reply: Reply, ghost stops: Table)
      requires Sound() && InStep() && TameTarget() && ResolvesToSites(resolve)
      modifies this`breakpoints, this`pending, this`nextId, tracee
      ensures reply.Beyond? || reply.Stopped?
      ensures reply.Beyond? ==>
                && Sound() && InStep() && ok == Ok
                && Now() == old(Now())
                && exists a :: IsReturnAddress(old(tracee.mem), old(tracee.cpu.fp), a) && a !in sites
      ensures Sound() && MemoryInStep()
      ensures reply.Stopped? ==>
                && StoppedAt(reply.signal == SIGTRAP, reply.hit)
                && (InStep() <==> RightlyReported(tracee.arch, reply.signal == SIGTRAP, reply.hit))
                && StopsFirst(tracee.isa, origin, old(tracee.executed), tracee.executed, stops, reply.signal)
                && Extends(old(breakpoints), stops)
      ensures reply.Stopped? && (ok == Ok || reply.signal == SIGTRAP) ==>
                RunsOut(ResumedAt(tracee.isa, origin, old(tracee.executed), stops), tracee.executed, patience,
                        reply.signal)
      ensures tracee.refused >= old(tracee.refused) && (ok == Thrown ==> tracee.refused > old(tracee.refused))
      ensures tracee.refused == old(tracee.refused) && reply.Stopped? ==> (reply.signal == SIGTRAP <==> reply.hit.Some?)
      ensures ok == Ok && reply.Stopped? ==>
                && (exists a :: IsReturnAddress(old(tracee.mem), old(tracee.cpu.fp), a) &&
                      WithTemporary(old(breakpoints), stops, a, old(nextId)))
                && pending == Unresolved(old(pending), resolve)
                && Followed(stops, old(pending), resolve, reply.hit, breakpoints)
                && tracee.resumptions == old(tracee.resumptions) + 1
                && tracee.singleSteps == old(tracee.singleSteps) + (if Armed(stops, old(tracee.cpu.pc)) then 1 else 0)
      ensures tracee.refused == old(tracee.refused) && reply.Stopped? ==>
                && TemporaryGone(stops, breakpoints, reply.hit)
                && forall k | k in old(breakpoints) ::
                     k !in breakpoints <==>
                       reply.signal == SIGTRAP && tracee.cpu.pc == k && old(breakpoints)[k].temporary
    {
      reply, stops := Stopped(SIGSTOP, None), breakpoints;
      var returnAddress := ReturnAddress();
      if returnAddress.None? {
        StoppedInStep(false, None);
        return Thrown, reply, stops;
      }
      if returnAddress.value !in sites {
        return Ok, Beyond, stops;
      }
      var signal, hit;
      ok, signal, hit, stops := FinishAt(returnAddress.value, patience, resolve);
      reply := Stopped(signal, hit);
    }

    /** The rest of step_out, once the return address has been read. */
    method FinishAt(returnAddress: Address, patience: nat, resolve: Resolver)
      returns (ok: Outcome, signal: Signal, hit: Option<Address>, ghost stops: Table)
      requires Sound() && InStep() && TameTarget() && ResolvesToSites(resolve) && returnAddress in sites
      modifies this`breakpoints, this`pending, this`nextId, tracee
      ensures Sound() && MemoryInStep() && StoppedAt(signal == SIGTRAP, hit)
      ensures InStep() <==> RightlyReported(tracee.arch, signal == SIGTRAP, hit)
      ensures StopsFirst(tracee.isa, origin, old(tracee.executed), tracee.executed, stops, signal)
      ensures Extends(old(breakpoints), stops)
      ensures ok == Ok || signal == SIGTRAP ==>
                RunsOut(ResumedAt(tracee.isa, origin, old(tracee.executed), stops), tracee.executed, patience, signal)
      ensures tracee.refused >= old(tracee.refused) && (ok == Thrown ==> tracee.refused > old(tracee.refused))
      ensures tracee.refused == old(tracee.refused) ==> (signal == SIGTRAP <==> hit.Some?)
      ensures ok == Ok ==>
                && WithTemporary(old(breakpoints), stops, returnAddress, old(nextId))
                && pending == Unresolved(old(pending), resolve)
                && Followed(stops, old(pending), resolve, hit, breakpoints)
                && tracee.resumptions == old(tracee.resumptions) + 1
                && tracee.singleSteps == old(tracee.singleSteps) + (if Armed(stops, old(tracee.cpu.pc)) then 1 else 0)
      ensures tracee.refused == old(tracee.refused) ==>
                && TemporaryGone(stops, breakpoints, hit)
                && forall k | k in old(breakpoints) ::
                     k !in breakpoints <==>
                       signal == SIGTRAP && tracee.cpu.pc == k && old(breakpoints)[k].temporary
    {
      signal, hit := SIGSTOP, None;
      var id;
      ok, id := CreateBreakpoint(returnAddress, "<finish>", true);
      stops := breakpoints;
      if ok == Thrown {
        StoppedInStep(false, None);
        return;
      }
      ghost var waiting := pending;
      ok, signal, hit := ContinueExecution(patience, resolve);
      if tracee.refused == old(tracee.refused) {
        FinishRemoves(old(breakpoints), stops, returnAddress, old(nextId), waiting, resolve, hit, breakpoints);
      }
    }

    // ---------- sessions ----------

    ghost predicate Suits(command: Command) {
      command.Resolving() ==> ResolvesToSites(command.resolve)
    }

    /** The enable and disable commands. */
    method Toggle(id: int, on: bool) returns (ok: Outcome)
      requires Sound()
      modifies this`breakpoints, tracee`mem, tracee`refused
      ensures Sound() && LogicalMem() == old(LogicalMem())
      ensures tracee.refused >= old(tracee.refused)
      ensures ok == Thrown ==> tracee.refused > old(tracee.refused)
      ensures breakpoints.Keys == old(breakpoints).Keys
      ensures ok == Ok ==> Toggled(old(breakpoints), breakpoints, id, on)
      ensures forall a | a in breakpoints && breakpoints[a].id != id :: breakpoints[a] == old(breakpoints)[a]
    {
      IdsArePairwiseDistinct(breakpoints, pending, nextId);
      var found := FindId(id);
      if found.None? {
        return Ok;
      }
      if on {
        ok := Enable(found.value);
      } else {
        ok := Disable(found.value);
      }
    }

    /** The commands that edit breakpoints. The target stays in step whatever the kernel refuses. */
    method Edit(command: Command)
      requires Sound() && InStep() && Suits(command) && command.Edits()
      modifies this`breakpoints, this`pending, this`nextId, tracee`mem, tracee`refused
      ensures Sound() && InStep()
      ensures tracee.refused >= old(tracee.refused)
      ensures tracee.refused == old(tracee.refused) ==>
                Edited(command, old(breakpoints), old(pending), breakpoints, pending)
    {
      match command {
        case Break(specification, resolve) =>
          var ok := SetBreakpoint(specification, resolve);
        case Delete(id) =>
          var ok := RemoveBreakpoint(id);
        case Enable(id) =>
          var ok := Toggle(id, true);
        case Disable(id) =>
          var ok := Toggle(id, false);
      }
    }

    /** The commands that let the target run. */
    method Go(command: Command) returns (reply: Reply)
      requires Sound() && InStep() && TameTarget() && Suits(command) && (command.Continue? || command.Finish?)
      modifies this`breakpoints, this`pending, this`nextId, tracee
      ensures Sound() && MemoryInStep()
      ensures InStep() <==> !reply.Astray(tracee.arch)
      ensures Performed(tracee.isa, tracee.arch, origin, sites, command, reply, old(Now()), Now())
    {
      match command {
        case Continue(patience, resolve) =>
          var ok, signal, hit := ContinueExecution(patience, resolve);
          reply := Stopped(signal, hit);
        case Finish(patience, resolve) =>
          ghost var stops;
          var ok;
          ok, reply, stops := StepOut(patience, resolve);
      }
    }

    /** The commands that run the target, and `thread`. */
    method Control(command: Command) returns (reply: Reply)
      requires Sound() && InStep() && TameTarget() && Suits(command) && !command.Edits()
      modifies this`breakpoints, this`pending, this`nextId, tracee
      ensures Sound() && MemoryInStep()
      ensures InStep() <==> !reply.Astray(tracee.arch)
      ensures Performed(tracee.isa, tracee.arch, origin, sites, command, reply, old(Now()), Now())
    {
      if command.Continue? || command.Finish? {
        reply := Go(command);
        return;
      }
      match command {
        case StepI(resolve) =>
          var ok, trapped, hit := InstructionStep(true, resolve);
          reply := Stepped(Reported, trapped, hit);
        case Step(location, resolve) =>
          var ok, end, trapped, hit := SourceStep(location, resolve);
          reply := Stepped(end, trapped, hit);
        case Thread(signal) =>
          var hit := ReportAgain(signal);
          reply := Stepped(Reported, false, hit);
      }
    }

    /** One command line. Exceptions end the command and nothing else. */
    method Dispatch(command: Command) returns (reply: Reply)
      requires Sound() && InStep() && TameTarget() && Suits(command)
      modifies this`breakpoints, this`pending, this`nextId, tracee
      ensures Sound() && MemoryInStep()
      ensures InStep() <==> !reply.Astray(tracee.arch)
      ensures Performed(tracee.isa, tracee.arch, origin, sites, command, reply, old(Now()), Now())
    {
      if command.Edits() {
        Edit(command);
        reply := Quiet;
      } else {
        reply := Control(command);
      }
    }

    /**
     * A whole session, then detach. Each command does what it should, seen from the undebugged run, and registers
     * and logical memory are those of that run as long as no reply says that the pc was left wrong. There, and at a
     * `finish` to an address where no breakpoint is assumed, the model ends: what follows is not carried out.
     */
    method Session(commands: seq<Command>) returns (replies: seq<Reply>, ghost trace: seq<Moment>)
      requires Sound() && InStep() && TameTarget() && !detached
      requires forall c | c in commands :: Suits(c)
      modifies this, tracee
      ensures Sound() && MemoryInStep()
      ensures Told(tracee.isa, tracee.arch, origin, sites, commands, replies, trace) && trace[0] == old(Now())
      ensures |replies| < |commands| ==> replies != [] && replies[|replies| - 1].Ends(tracee.arch)
      ensures var last := trace[|replies|];
              && tracee.executed == last.executed && tracee.cpu == last.cpu && pending == last.pending
              && breakpoints.Keys == last.table.Keys
              && tracee.refused >= last.refused
              && |ArmedSites(breakpoints)| <= tracee.refused - last.refused
              && (tracee.refused == last.refused ==> tracee.mem == Undebugged(tracee.executed).mem)
      ensures InStep() <==> replies == [] || !replies[|replies| - 1].Astray(tracee.arch)
    {
      replies, trace := [], [Now()];
      var i := 0;
      while i < |commands| && (replies == [] || !replies[i - 1].Ends(tracee.arch))
        invariant |replies| == i && Told(tracee.isa, tracee.arch, origin, sites, commands, replies, trace)
        invariant Sound() && MemoryInStep() && !detached
        invariant trace[0] == old(Now()) && trace[i] == Now()
        invariant InStep() <==> i == 0 || !replies[i - 1].Astray(tracee.arch)
      {
        var reply := Dispatch(commands[i]);
        ToldNext(tracee.isa, tracee.arch, origin, sites, commands, replies, trace, reply, Now());
        replies, trace, i := replies + [reply], trace + [Now()], i + 1;
      }
      Detach();
    }
  }
}
