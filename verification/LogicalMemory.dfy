// The breakpoint table, and the memory the target would have had without the debugger's patches.
module LogicalMemory {
  import opened Common
  import opened TargetMemory
  import opened Words
  import opened Architecture

  datatype Breakpoint = Breakpoint(
    id: int,
    address: Address,
    specification: string,
    saved: seq<Byte>,
    enabled: bool,
    temporary: bool,
    pending: bool)

  type Table = map<Address, Breakpoint>

  predicate Armed(t: Table, a: Address) {
    a in t && t[a].enabled
  }

  function ArmedSites(t: Table): set<Address> {
    set a | a in t && t[a].enabled
  }

  lemma {:induction false} NoLarger(a: set<Address>, b: set<Address>)
    requires a <= b
    ensures |a| <= |b|
  {
    if a != {} {
      var x :| x in a;
      NoLarger(a - {x}, b - {x});
    }
  }

  ghost predicate HoldsTrap(arch: Arch, m: Memory, x: Address) {
    x in m && m[x] == arch.BreakpointInstruction()[arch.ByteIndex(x)]
  }

  /** An armed entry: its footprint holds the breakpoint instruction and `saved` has one byte for each. */
  ghost predicate EntryInPlace(arch: Arch, m: Memory, a: Address, b: Breakpoint) {
    && arch.IsSite(a)
    && b.address == a
    && !b.pending
    && (b.enabled ==>
          && |b.saved| == arch.BreakpointSize()
          && forall x: Address {:trigger HoldsTrap(arch, m, x)} | arch.SiteOf(x) == a :: HoldsTrap(arch, m, x))
  }

  ghost predicate InPlace(arch: Arch, m: Memory, t: Table) {
    forall a {:trigger EntryInPlace(arch, m, a, t[a])} | a in t :: EntryInPlace(arch, m, a, t[a])
  }

  function LogicalByte(arch: Arch, m: Memory, t: Table, x: Address): Byte
    requires x in m
  {
    var site := arch.SiteOf(x);
    if Armed(t, site) && arch.ByteIndex(x) < |t[site].saved| then t[site].saved[arch.ByteIndex(x)] else m[x]
  }

  /** Logical memory: the saved byte at an armed footprint, the raw byte elsewhere. */
  function Logical(arch: Arch, m: Memory, t: Table): Memory {
    map x | x in m :: LogicalByte(arch, m, t, x)
  }

  /** What enable records before it patches. */
  function Footprint(arch: Arch, m: Memory, a: Address): seq<Byte>
    requires RangeMapped(m, a, arch.BreakpointSize())
  {
    BytesAt(m, a, arch.BreakpointSize())
  }

  /** A breakpoint-sized store at a site replaces that site's bytes and no others. */
  lemma PatchedAt(arch: Arch, m: Memory, a: Address, bytes: seq<Byte>, x: Address)
    requires arch.IsSite(a) && |bytes| == arch.BreakpointSize()
    requires RangeMapped(m, a, arch.BreakpointSize())
    ensures x in PutBytes(m, a, bytes) <==> x in m
    ensures arch.SiteOf(x) == a ==> x in m && Footprint(arch, m, a)[arch.ByteIndex(x)] == m[x]
    ensures x in m ==>
              PutBytes(m, a, bytes)[x] == if arch.SiteOf(x) == a then bytes[arch.ByteIndex(x)] else m[x]
  {
    PutBytesAt(m, a, bytes, x);
    FootprintOfSite(arch, a, x);
    if arch.SiteOf(x) == a {
      PlusOffset(a, arch.ByteIndex(x), x);
      assert Plus(a, arch.ByteIndex(x)) in m;
    }
  }

  lemma InPlaceRange(arch: Arch, m: Memory, t: Table, a: Address)
    requires InPlace(arch, m, t) && Armed(t, a)
    ensures arch.IsSite(a) && |t[a].saved| == arch.BreakpointSize()
    ensures RangeMapped(m, a, arch.BreakpointSize())
  {
    assert EntryInPlace(arch, m, a, t[a]);
    forall i | 0 <= i < arch.BreakpointSize() ensures Plus(a, i) in m {
      NthByteOfSite(arch, a, i);
      assert HoldsTrap(arch, m, Plus(a, i));
    }
  }

  // ---------- arming: save the footprint, then patch it ----------

  function Arm(arch: Arch, m: Memory, t: Table, a: Address): (r: (Memory, Table))
    requires a in t && RangeMapped(m, a, arch.BreakpointSize())
  {
    (PutBytes(m, a, arch.BreakpointInstruction()),
     t[a := t[a].(saved := Footprint(arch, m, a), enabled := true)])
  }

  lemma ArmingInPlace(arch: Arch, m: Memory, t: Table, a: Address)
    requires InPlace(arch, m, t) && a in t && RangeMapped(m, a, arch.BreakpointSize())
    ensures var (m', t') := Arm(arch, m, t, a); InPlace(arch, m', t')
  {
    var (m', t') := Arm(arch, m, t, a);
    assert EntryInPlace(arch, m, a, t[a]);
    forall k | k in t' ensures EntryInPlace(arch, m', k, t'[k]) {
      assert EntryInPlace(arch, m, k, t[k]);
      forall x: Address | arch.SiteOf(x) == k && t'[k].enabled
        ensures HoldsTrap(arch, m', x)
      {
        assert k != a ==> HoldsTrap(arch, m, x);
        PatchedAt(arch, m, a, arch.BreakpointInstruction(), x);
      }
    }
  }

  lemma ArmingKeepsLogical(arch: Arch, m: Memory, t: Table, a: Address)
    requires a in t && !t[a].enabled && arch.IsSite(a) && RangeMapped(m, a, arch.BreakpointSize())
    ensures var (m', t') := Arm(arch, m, t, a); Logical(arch, m', t') == Logical(arch, m, t)
  {
    var (m', t') := Arm(arch, m, t, a);
    forall x: Address
      ensures x in m' <==> x in m
      ensures x in m ==> LogicalByte(arch, m', t', x) == LogicalByte(arch, m, t, x)
    {
      PatchedAt(arch, m, a, arch.BreakpointInstruction(), x);
    }
  }

  /** Both ways `enable` can end leave logical memory alone: armed, or with fresh saved bytes but still disarmed. */
  lemma Arming(arch: Arch, m: Memory, t: Table, a: Address)
    requires InPlace(arch, m, t) && a in t && !t[a].enabled && RangeMapped(m, a, arch.BreakpointSize())
    ensures var (m', t') := Arm(arch, m, t, a);
            InPlace(arch, m', t') && Logical(arch, m', t') == Logical(arch, m, t)
    ensures var t' := t[a := t[a].(saved := Footprint(arch, m, a))];
            InPlace(arch, m, t') && Logical(arch, m, t') == Logical(arch, m, t)
    ensures InOneWord(a, arch.BreakpointSize())
  {
    var b := t[a].(saved := Footprint(arch, m, a));
    assert EntryInPlace(arch, m, a, t[a]);
    ArmingInPlace(arch, m, t, a);
    ArmingKeepsLogical(arch, m, t, a);
    DisarmedEntryInPlace(arch, m, t, a, b);
    DisarmedEntryInvisible(arch, m, t, a, b);
    FootprintOfSite(arch, a, a);
  }

  // ---------- disarming: write the saved bytes back ----------

  function Disarm(m: Memory, t: Table, a: Address): (r: (Memory, Table))
    requires a in t
  {
    (PutBytes(m, a, t[a].saved), t[a := t[a].(enabled := false)])
  }

  lemma DisarmingInPlace(arch: Arch, m: Memory, t: Table, a: Address)
    requires InPlace(arch, m, t) && Armed(t, a)
    ensures var (m', t') := Disarm(m, t, a); InPlace(arch, m', t')
  {
    var (m', t') := Disarm(m, t, a);
    InPlaceRange(arch, m, t, a);
    assert EntryInPlace(arch, m, a, t[a]);
    forall k | k in t' ensures EntryInPlace(arch, m', k, t'[k]) {
      assert EntryInPlace(arch, m, k, t[k]);
      forall x: Address | arch.SiteOf(x) == k && t'[k].enabled
        ensures HoldsTrap(arch, m', x)
      {
        assert k != a ==> HoldsTrap(arch, m, x);
        PatchedAt(arch, m, a, t[a].saved, x);
      }
    }
  }

  lemma DisarmingKeepsLogical(arch: Arch, m: Memory, t: Table, a: Address)
    requires InPlace(arch, m, t) && Armed(t, a)
    ensures var (m', t') := Disarm(m, t, a); Logical(arch, m', t') == Logical(arch, m, t)
  {
    InPlaceRange(arch, m, t, a);
    DisarmingKeepsBytes(arch, m, t, a);
  }

  lemma DisarmingKeepsBytes(arch: Arch, m: Memory, t: Table, a: Address)
    requires Armed(t, a) && arch.IsSite(a) && |t[a].saved| == arch.BreakpointSize()
    requires RangeMapped(m, a, arch.BreakpointSize())
    ensures var (m', t') := Disarm(m, t, a); Logical(arch, m', t') == Logical(arch, m, t)
  {
    var (m', t') := Disarm(m, t, a);
    forall x: Address
      ensures x in m' <==> x in m
      ensures x in m ==> LogicalByte(arch, m', t', x) == LogicalByte(arch, m, t, x)
    {
      PatchedAt(arch, m, a, t[a].saved, x);
    }
  }

  lemma Disarming(arch: Arch, m: Memory, t: Table, a: Address)
    requires InPlace(arch, m, t) && Armed(t, a)
    ensures var (m', t') := Disarm(m, t, a);
            InPlace(arch, m', t') && Logical(arch, m', t') == Logical(arch, m, t)
    ensures t[a].saved != [] && InOneWord(a, |t[a].saved|)
  {
    DisarmingInPlace(arch, m, t, a);
    DisarmingKeepsLogical(arch, m, t, a);
    InPlaceRange(arch, m, t, a);
    FootprintOfSite(arch, a, a);
  }

  // ---------- disarmed entries ----------

  lemma DisarmedEntryInPlace(arch: Arch, m: Memory, t: Table, a: Address, b: Breakpoint)
    requires InPlace(arch, m, t) && arch.IsSite(a) && b.address == a && !b.pending && !b.enabled
    ensures InPlace(arch, m, t[a := b]) && InPlace(arch, m, t - {a})
  {
    forall k | k in t ensures EntryInPlace(arch, m, k, t[k]) {}
  }

  /** Adding or erasing a disarmed entry does not change logical memory. */
  lemma DisarmedEntryInvisible(arch: Arch, m: Memory, t: Table, a: Address, b: Breakpoint)
    requires !Armed(t, a) && !b.enabled
    ensures Logical(arch, m, t[a := b]) == Logical(arch, m, t)
    ensures Logical(arch, m, t - {a}) == Logical(arch, m, t)
  {
    forall x | x in m
      ensures LogicalByte(arch, m, t[a := b], x) == LogicalByte(arch, m, t, x)
      ensures LogicalByte(arch, m, t - {a}, x) == LogicalByte(arch, m, t, x)
    {
    }
  }

  /** Where raw memory differs from logical memory, an armed entry accounts for it and holds the original byte. */
  lemma NoOrphanedTrap(arch: Arch, m: Memory, t: Table, x: Address)
    requires InPlace(arch, m, t) && x in m && m[x] != Logical(arch, m, t)[x]
    ensures Armed(t, arch.SiteOf(x))
    ensures m[x] == arch.BreakpointInstruction()[arch.ByteIndex(x)]
    ensures t[arch.SiteOf(x)].saved[arch.ByteIndex(x)] == Logical(arch, m, t)[x]
  {
    assert EntryInPlace(arch, m, arch.SiteOf(x), t[arch.SiteOf(x)]);
    assert HoldsTrap(arch, m, x);
  }

  /** With nothing armed, raw memory is logical memory. */
  lemma NothingArmed(arch: Arch, m: Memory, t: Table)
    requires forall a | a in t :: !t[a].enabled
    ensures Logical(arch, m, t) == m
  {
  }
}
