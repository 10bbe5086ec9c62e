// The two architectures as the breakpoint engine sees them.
module Architecture {
  import opened Common
  import opened TargetMemory
  import opened Words

  datatype Arch = X86_64 | AArch64 {

    function BreakpointSize(): nat {
      if X86_64? then 1 else 4
    }

    function BreakpointInstruction(): seq<Byte> {
      if X86_64? then [0xcc] else [0x00, 0x00, 0x20, 0xd4]
    }

    /** Where the hardware leaves the pc after executing a breakpoint instruction at a. */
    function AfterTrap(a: Address): Address {
      if X86_64? then Plus(a, 1) else a
    }

    /** The address print_stop takes a stopped pc back to when it looks for a breakpoint. */
    function TrapCandidate(pc: Address): Address {
      if X86_64? then Wrap(pc - BreakpointSize()) else pc
    }

    /** The position of a byte within the breakpoint-sized slot that holds it. */
    function ByteIndex(a: Address): nat
      ensures ByteIndex(a) < BreakpointSize()
    {
      if X86_64? then 0 else a % 4
    }

    /** The slot that holds address a: the only address whose breakpoint instruction can cover a. */
    function SiteOf(a: Address): Address {
      a - ByteIndex(a)
    }

    /** Addresses that can start an instruction: every address on x86-64, multiples of four on AArch64. */
    predicate IsSite(a: Address) {
      ByteIndex(a) == 0
    }
  }

  /** Rewinding undoes the hardware's advance. */
  lemma CandidateOfTrap(arch: Arch, a: Address)
    ensures arch.TrapCandidate(arch.AfterTrap(a)) == a
  {
  }

  /** The bytes a breakpoint at k overwrites are those whose site is k, and they lie in one aligned word. */
  lemma FootprintOfSite(arch: Arch, k: Address, a: Address)
    requires arch.IsSite(k)
    ensures Offset(a, k) < arch.BreakpointSize() <==> arch.SiteOf(a) == k
    ensures arch.SiteOf(a) == k ==> Offset(a, k) == arch.ByteIndex(a)
    ensures InOneWord(k, arch.BreakpointSize())
  {
    if a >= k {
      assert Offset(a, k) == a - k;
    } else {
      assert Offset(a, k) == a - k + ADDRESS_SPACE;
    }
  }

  lemma NthByteOfSite(arch: Arch, k: Address, i: nat)
    requires arch.IsSite(k) && i < arch.BreakpointSize()
    ensures arch.SiteOf(Plus(k, i)) == k && arch.ByteIndex(Plus(k, i)) == i
  {
  }
}
