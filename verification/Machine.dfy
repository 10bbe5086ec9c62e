// The processor: an abstract instruction set, the undebugged run, and the run the hardware
// performs on patched memory.
module Machine {
  import opened Common
  import opened TargetMemory
  import opened Words
  import opened Architecture
  import opened LogicalMemory

  datatype Cpu = Cpu(pc: Address, fp: Address, regs: map<string, Address>)

  datatype State = State(cpu: Cpu, mem: Memory)

  /** What one instruction does: the new registers and the bytes it stores. */
  datatype Effect = Effect(cpu: Cpu, writes: Memory)

  /** An instruction set: the effect of the instruction at the pc, and the bytes it fetches or loads. */
  datatype Isa = Isa(exec: (Cpu, Memory) -> Effect, loads: (Cpu, Memory) -> set<Address>)

  function Store(m: Memory, writes: Memory): Memory {
    map x | x in m :: if x in writes then writes[x] else m[x]
  }

  function Next(isa: Isa, s: State): State {
    var e := isa.exec(s.cpu, s.mem);
    State(e.cpu, Store(s.mem, e.writes))
  }

  /** The machine after n instructions, with no debugger. */
  function Run(isa: Isa, s: State, n: nat): State {
    if n == 0 then s else Next(isa, Run(isa, s, n - 1))
  }

  ghost predicate SameOn(m: Memory, m': Memory, region: set<Address>) {
    forall x | x in region :: (x in m <==> x in m') && (x in m ==> m[x] == m'[x])
  }

  ghost predicate DependsOnLoads(isa: Isa, cpu: Cpu, m: Memory, m': Memory) {
    SameOn(m, m', isa.loads(cpu, m)) ==> isa.exec(cpu, m) == isa.exec(cpu, m')
  }

  /** An instruction depends only on the bytes it loads, among them the breakpoint-sized fetch at the pc. */
  ghost predicate Framed(isa: Isa, arch: Arch) {
    && (forall cpu: Cpu, m: Memory, m': Memory :: DependsOnLoads(isa, cpu, m, m'))
    && (forall cpu: Cpu, m: Memory, i | 0 <= i < arch.BreakpointSize() :: Plus(cpu.pc, i) in isa.loads(cpu, m))
  }

  /**
   * The processor takes the bytes at the pc for a breakpoint instruction: on x86-64 INT3, on AArch64 any BRK. This is
   * the instruction set's encoding, whatever the debugger writes.
   */
  ghost predicate TrapAt(arch: Arch, m: Memory, pc: Address) {
    forall a {:trigger Fetches(a)} :: Fetches(a) && a == pc ==> TrapBytes(arch, m, a)
  }

  /** TrapAt unfolds only where this is mentioned. */
  ghost predicate Fetches(a: Address) {
    true
  }

  predicate TrapBytes(arch: Arch, m: Memory, pc: Address) {
    if arch.X86_64? then pc in m && m[pc] == 0xcc
    else
      && pc in m && Plus(pc, 1) in m && Plus(pc, 2) in m && Plus(pc, 3) in m
      && IsBrk(m[pc], m[Plus(pc, 2)], m[Plus(pc, 3)])
  }

  lemma TrapAtMeans(arch: Arch, m: Memory, pc: Address)
    ensures TrapAt(arch, m, pc) <==> TrapBytes(arch, m, pc)
  {
    assert Fetches(pc);
  }

  /** Decoding the bytes at the pc. */
  method Decode(arch: Arch, m: Memory, pc: Address) returns (trap: bool)
    ensures trap <==> TrapAt(arch, m, pc)
  {
    TrapAtMeans(arch, m, pc);
    trap := TrapBytes(arch, m, pc);
  }

  /** The bytes of a BRK instruction with any operand; the operand fills the second byte and parts of two others. */
  predicate IsBrk(b0: Byte, b2: Byte, b3: Byte) {
    b0 & 0x1f == 0x00 && b2 & 0xe0 == 0x20 && b3 == 0xd4
  }

  /** In terms of the instruction word, which is stored with its low byte first. */
  lemma BrkEncoding(b0: Byte, b1: Byte, b2: Byte, b3: Byte)
    ensures var w: bv32 := (b0 as bv32) | ((b1 as bv32) << 8) | ((b2 as bv32) << 16) | ((b3 as bv32) << 24);
            IsBrk(b0, b2, b3) <==> w & 0xffe0001f == 0xd4200000
  {
  }

  /** What `enable` patches in is a breakpoint instruction to the processor. */
  lemma PatchTraps(arch: Arch, m: Memory, a: Address)
    requires arch.IsSite(a) && RangeMapped(m, a, arch.BreakpointSize())
    ensures TrapAt(arch, PutBytes(m, a, arch.BreakpointInstruction()), a)
  {
    var patched := PutBytes(m, a, arch.BreakpointInstruction());
    forall i: nat | i < arch.BreakpointSize()
      ensures Plus(a, i) in patched && patched[Plus(a, i)] == arch.BreakpointInstruction()[i]
    {
      NthByteOfSite(arch, a, i);
      PatchedAt(arch, m, a, arch.BreakpointInstruction(), Plus(a, i));
      assert Plus(a, i) in m;
    }
    TrapOfBytes(arch, patched, a);
  }

  lemma TrapOfBytes(arch: Arch, m: Memory, a: Address)
    requires forall i: nat | i < arch.BreakpointSize() ::
               Plus(a, i) in m && m[Plus(a, i)] == arch.BreakpointInstruction()[i]
    ensures TrapAt(arch, m, a)
  {
    TrapAtMeans(arch, m, a);
    assert Plus(a, 0) == a;
    assert Plus(a, 0) in m;
    if arch.AArch64? {
      assert Plus(a, 1) in m && Plus(a, 2) in m && Plus(a, 3) in m;
    }
  }

  /**
   * The instruction at this state does not load, store or overlap a byte on which a breakpoint may
   * sit, except that it may itself sit on one, and it is not a breakpoint instruction of the program's own.
   */
  ghost predicate Undisturbed(isa: Isa, arch: Arch, s: State, sites: set<Address>) {
    && (forall x | x in isa.loads(s.cpu, s.mem) && arch.SiteOf(x) in sites :: arch.SiteOf(x) == s.cpu.pc)
    && (forall x | x in isa.exec(s.cpu, s.mem).writes :: arch.SiteOf(x) !in sites)
    && !TrapAt(arch, s.mem, s.cpu.pc)
  }

  /** The assumption under which a software breakpoint debugger can be transparent at all. */
  ghost predicate Tame(isa: Isa, arch: Arch, origin: State, sites: set<Address>) {
    && Framed(isa, arch)
    && (forall a | a in sites :: arch.IsSite(a))
    && (forall n: nat :: UndisturbedAt(isa, arch, origin, sites, n))
  }

  ghost predicate UndisturbedAt(isa: Isa, arch: Arch, origin: State, sites: set<Address>, n: nat) {
    Undisturbed(isa, arch, Run(isa, origin, n), sites)
  }

  ghost predicate NoTrapBefore(isa: Isa, arch: Arch, s: State, k: nat) {
    forall i: nat | i < k :: !TrapAt(arch, Run(isa, s, i).mem, Run(isa, s, i).cpu.pc)
  }

  /** The undebugged run is on no armed entry from instruction count `from` up to but not including `to`. */
  ghost predicate NoneArmedBetween(isa: Isa, origin: State, from: nat, to: nat, t: Table) {
    forall i: nat | from <= i < to :: !Armed(t, Run(isa, origin, i).cpu.pc)
  }

  // ---------- running on patched memory ----------

  /** Outside armed slots raw memory is logical memory. */
  lemma LogicalOutsideArmed(arch: Arch, m: Memory, t: Table, region: set<Address>)
    requires forall x | x in region :: !Armed(t, arch.SiteOf(x))
    ensures SameOn(Logical(arch, m, t), m, region)
  {
  }

  /** The hardware traps exactly at armed entries. */
  lemma TrapIffArmed(isa: Isa, arch: Arch, m: Memory, t: Table, cpu: Cpu, sites: set<Address>)
    requires Framed(isa, arch) && InPlace(arch, m, t) && t.Keys <= sites
    requires Undisturbed(isa, arch, State(cpu, Logical(arch, m, t)), sites)
    ensures TrapAt(arch, m, cpu.pc) <==> Armed(t, cpu.pc)
  {
    if Armed(t, cpu.pc) {
      assert EntryInPlace(arch, m, cpu.pc, t[cpu.pc]);
      forall i: nat | i < arch.BreakpointSize()
        ensures Plus(cpu.pc, i) in m && m[Plus(cpu.pc, i)] == arch.BreakpointInstruction()[i]
      {
        NthByteOfSite(arch, cpu.pc, i);
        assert HoldsTrap(arch, m, Plus(cpu.pc, i));
      }
      TrapOfBytes(arch, m, cpu.pc);
    } else {
      var l := Logical(arch, m, t);
      var fetch := set i | 0 <= i < arch.BreakpointSize() :: Plus(cpu.pc, i);
      forall x | x in fetch ensures !Armed(t, arch.SiteOf(x)) {
        assert x in isa.loads(cpu, l);
      }
      LogicalOutsideArmed(arch, m, t, fetch);
      SameTrap(arch, m, l, cpu.pc);
    }
  }

  /** Whether a place traps depends on the bytes fetched there alone. */
  lemma SameTrap(arch: Arch, m: Memory, m': Memory, a: Address)
    requires forall i | 0 <= i < arch.BreakpointSize() ::
               (Plus(a, i) in m <==> Plus(a, i) in m') && (Plus(a, i) in m ==> m[Plus(a, i)] == m'[Plus(a, i)])
    ensures TrapAt(arch, m, a) <==> TrapAt(arch, m', a)
  {
    TrapAtMeans(arch, m, a);
    TrapAtMeans(arch, m', a);
    assert Plus(a, 0) == a;
    assert Plus(a, 0) in m <==> Plus(a, 0) in m';
    if arch.AArch64? {
      assert Plus(a, 1) in m <==> Plus(a, 1) in m';
      assert Plus(a, 2) in m <==> Plus(a, 2) in m';
      assert Plus(a, 3) in m <==> Plus(a, 3) in m';
    }
  }

  /** An instruction away from armed entries does the same on raw memory as on logical memory. */
  lemma SameEffect(isa: Isa, arch: Arch, m: Memory, t: Table, cpu: Cpu, sites: set<Address>)
    requires Framed(isa, arch) && t.Keys <= sites && !Armed(t, cpu.pc)
    requires Undisturbed(isa, arch, State(cpu, Logical(arch, m, t)), sites)
    ensures isa.exec(cpu, Logical(arch, m, t)) == isa.exec(cpu, m)
  {
    var l := Logical(arch, m, t);
    LogicalOutsideArmed(arch, m, t, isa.loads(cpu, l));
    assert DependsOnLoads(isa, cpu, l, m);
  }

  /** Stores that avoid the armed slots act on raw and on logical memory alike. */
  lemma StoresCommute(arch: Arch, m: Memory, t: Table, writes: Memory)
    requires InPlace(arch, m, t)
    requires forall x | x in writes :: arch.SiteOf(x) !in t
    ensures InPlace(arch, Store(m, writes), t)
    ensures Logical(arch, Store(m, writes), t) == Store(Logical(arch, m, t), writes)
  {
    StoresKeepInPlace(arch, m, t, writes);
    forall x | x in m
      ensures LogicalByte(arch, Store(m, writes), t, x) == Store(Logical(arch, m, t), writes)[x]
    {
    }
  }

  lemma StoresKeepInPlace(arch: Arch, m: Memory, t: Table, writes: Memory)
    requires InPlace(arch, m, t)
    requires forall x | x in writes :: arch.SiteOf(x) !in t
    ensures InPlace(arch, Store(m, writes), t)
  {
    forall k | k in t ensures EntryInPlace(arch, Store(m, writes), k, t[k]) {
      assert EntryInPlace(arch, m, k, t[k]);
      forall x: Address | arch.SiteOf(x) == k && t[k].enabled ensures HoldsTrap(arch, Store(m, writes), x) {
        assert HoldsTrap(arch, m, x);
      }
    }
  }

  /** One instruction of the patched machine is one instruction of the undebugged one. */
  lemma StepSimulates(isa: Isa, arch: Arch, m: Memory, t: Table, cpu: Cpu, sites: set<Address>)
    requires Framed(isa, arch) && InPlace(arch, m, t) && t.Keys <= sites && !Armed(t, cpu.pc)
    requires Undisturbed(isa, arch, State(cpu, Logical(arch, m, t)), sites)
    ensures var raw := Next(isa, State(cpu, m));
            && InPlace(arch, raw.mem, t)
            && State(raw.cpu, Logical(arch, raw.mem, t)) == Next(isa, State(cpu, Logical(arch, m, t)))
  {
    SameEffect(isa, arch, m, t, cpu, sites);
    StoresCommute(arch, m, t, isa.exec(cpu, m).writes);
  }

  /** The debugged target stands where the undebugged one stands after n instructions. */
  ghost predicate Mirrors(isa: Isa, arch: Arch, origin: State, n: nat, cpu: Cpu, m: Memory, t: Table) {
    && InPlace(arch, m, t)
    && State(cpu, Logical(arch, m, t)) == Run(isa, origin, n)
  }

  lemma MirrorTrap(isa: Isa, arch: Arch, origin: State, n: nat, cpu: Cpu, m: Memory, t: Table, sites: set<Address>)
    requires Tame(isa, arch, origin, sites) && t.Keys <= sites
    requires Mirrors(isa, arch, origin, n, cpu, m, t)
    ensures TrapAt(arch, m, cpu.pc) <==> Armed(t, cpu.pc)
    ensures Run(isa, origin, n).cpu.pc == cpu.pc
  {
    assert UndisturbedAt(isa, arch, origin, sites, n);
    TrapIffArmed(isa, arch, m, t, cpu, sites);
  }

  lemma MirrorStep(isa: Isa, arch: Arch, origin: State, n: nat, raw: State, t: Table, sites: set<Address>)
    requires Tame(isa, arch, origin, sites) && t.Keys <= sites && !Armed(t, raw.cpu.pc)
    requires Mirrors(isa, arch, origin, n, raw.cpu, raw.mem, t)
    ensures var next := Next(isa, raw); Mirrors(isa, arch, origin, n + 1, next.cpu, next.mem, t)
  {
    assert UndisturbedAt(isa, arch, origin, sites, n);
    StepSimulates(isa, arch, raw.mem, t, raw.cpu, sites);
  }

  /**
   * A stretch of the patched machine that meets no trap mirrors the same stretch of the undebugged
   * run and passes no armed entry.
   */
  lemma {:induction false} StretchSimulates(isa: Isa, arch: Arch, origin: State, n: nat, s: State, t: Table,
                                            sites: set<Address>, k: nat)
    requires Tame(isa, arch, origin, sites) && t.Keys <= sites
    requires Mirrors(isa, arch, origin, n, s.cpu, s.mem, t)
    requires NoTrapBefore(isa, arch, s, k)
    ensures Mirrors(isa, arch, origin, n + k, Run(isa, s, k).cpu, Run(isa, s, k).mem, t)
    ensures NoneArmedBetween(isa, origin, n, n + k, t)
  {
    if k > 0 {
      assert NoTrapBefore(isa, arch, s, k - 1);
      StretchSimulates(isa, arch, origin, n, s, t, sites, k - 1);
      OneMoreSimulates(isa, arch, origin, n + k - 1, Run(isa, s, k - 1), t, sites);
      assert Run(isa, s, k) == Next(isa, Run(isa, s, k - 1));
    }
  }

  lemma OneMoreSimulates(isa: Isa, arch: Arch, origin: State, n: nat, raw: State, t: Table, sites: set<Address>)
    requires Tame(isa, arch, origin, sites) && t.Keys <= sites
    requires Mirrors(isa, arch, origin, n, raw.cpu, raw.mem, t) && !TrapAt(arch, raw.mem, raw.cpu.pc)
    ensures var next := Next(isa, raw); Mirrors(isa, arch, origin, n + 1, next.cpu, next.mem, t)
    ensures !Armed(t, Run(isa, origin, n).cpu.pc)
  {
    MirrorTrap(isa, arch, origin, n, raw.cpu, raw.mem, t, sites);
    MirrorStep(isa, arch, origin, n, raw, t, sites);
  }

  // ---------- the assumption can be met ----------

  /** A machine whose every instruction has the size of a breakpoint and only moves the pc past itself. */
  function NopIsa(arch: Arch): Isa {
    Isa((cpu: Cpu, m: Memory) => Effect(cpu.(pc := Plus(cpu.pc, arch.BreakpointSize())), map[]),
        (cpu: Cpu, m: Memory) => set i | 0 <= i < arch.BreakpointSize() :: Plus(cpu.pc, i))
  }

  lemma NopStep(arch: Arch, s: State)
    requires arch.IsSite(s.cpu.pc)
    ensures var next := Next(NopIsa(arch), s); next.mem == s.mem && arch.IsSite(next.cpu.pc)
  {
  }

  lemma {:induction false} NopRun(arch: Arch, origin: State, n: nat)
    requires arch.IsSite(origin.cpu.pc)
    ensures var s := Run(NopIsa(arch), origin, n); s.mem == origin.mem && arch.IsSite(s.cpu.pc)
  {
    if n > 0 {
      NopRun(arch, origin, n - 1);
      NopStep(arch, Run(NopIsa(arch), origin, n - 1));
    }
  }

  /** It is tame from any memory without a trap of its own, wherever breakpoints may be placed. */
  lemma NopIsTame(arch: Arch, origin: State, sites: set<Address>)
    requires arch.IsSite(origin.cpu.pc) && forall a :: !TrapAt(arch, origin.mem, a)
    requires forall a | a in sites :: arch.IsSite(a)
    ensures Tame(NopIsa(arch), arch, origin, sites)
  {
    var isa := NopIsa(arch);
    forall n: nat ensures UndisturbedAt(isa, arch, origin, sites, n) {
      NopRun(arch, origin, n);
      var s := Run(isa, origin, n);
      forall x | x in isa.loads(s.cpu, s.mem) ensures arch.SiteOf(x) == s.cpu.pc {
        var i :| 0 <= i < arch.BreakpointSize() && x == Plus(s.cpu.pc, i);
        NthByteOfSite(arch, s.cpu.pc, i);
      }
    }
  }
}
