// Where the target stands when a command returns, in terms of the undebugged run and the table the command
// started with.
module Stops {
  import opened Common
  import opened TargetMemory
  import opened Architecture
  import opened LogicalMemory
  import opened BreakpointIds
  import opened Machine

  /** Where the modules loaded at some moment place a breakpoint specification. */
  type Resolver = string -> seq<Address>

  /** Why the target stopped: a trap, or the SIGSTOP that Ctrl-C sends it. */
  datatype Signal = SIGTRAP | SIGSTOP

  // ---------- the pc at a stop ----------

  /** Where the hardware leaves the pc: past the breakpoint instruction if the target trapped on one. */
  function Shown(arch: Arch, pc: Address, trapped: bool): Address {
    if trapped then arch.AfterTrap(pc) else pc
  }

  /** A stop left the pc right: print_stop said that it hit a breakpoint exactly if the target had trapped on one. */
  predicate RightlyReported(arch: Arch, trapped: bool, hit: Option<Address>) {
    arch.AArch64? || trapped == hit.Some?
  }

  /** Rewinding to the candidate address puts the pc right exactly when there was a trap to rewind. */
  lemma RewoundRightly(arch: Arch, pc: Address, trapped: bool, hit: Option<Address>)
    requires hit.Some? ==> hit.value == arch.TrapCandidate(Shown(arch, pc, trapped))
    ensures (if hit.Some? then hit.value else Shown(arch, pc, trapped)) == pc <==> RightlyReported(arch, trapped, hit)
  {
    CandidateOfTrap(arch, pc);
  }

  /** print_stop reports a hit exactly if an entry is at the candidate address; when that leaves an x86-64 pc right. */
  predicate ReportsStep(arch: Arch, pc: Address, trapped: bool, holdable: set<Address>, hit: Option<Address>) {
    && (hit.Some? <==> arch.TrapCandidate(Shown(arch, pc, trapped)) in holdable)
    && (arch.X86_64? ==> (RightlyReported(arch, trapped, hit) <==> trapped || Wrap(pc - 1) !in holdable))
  }

  /** On x86-64 the report of a step puts the pc wrong exactly if there was no trap but an entry one byte below. */
  lemma StepReported(arch: Arch, pc: Address, trapped: bool, holdable: set<Address>, hit: Option<Address>)
    requires hit.Some? <==> arch.TrapCandidate(Shown(arch, pc, trapped)) in holdable
    requires trapped ==> pc in holdable
    ensures arch.X86_64? ==> (RightlyReported(arch, trapped, hit) <==> trapped || Wrap(pc - 1) !in holdable)
    ensures ReportsStep(arch, pc, trapped, holdable, hit)
  {
    CandidateOfTrap(arch, pc);
  }

  /** The pc after print_stop has looked at a SIGTRAP, when the kernel refuses it nothing. */
  function ReportedPc(arch: Arch, t: Table, pc: Address): Address {
    if arch.TrapCandidate(pc) in t then arch.TrapCandidate(pc) else pc
  }

  /** Reporting leaves a pc alone that no trap advanced, unless on x86-64 some entry lies one byte below it. */
  lemma GenuineStopKept(arch: Arch, t: Table, pc: Address)
    ensures ReportedPc(arch, t, pc) == pc <==> arch.AArch64? || Wrap(pc - 1) !in t
  {
  }

  // ---------- detaching ----------

  /** The same entries, some of them disarmed. */
  ghost predicate OnlyDisarmed(t: Table, t': Table) {
    && t'.Keys == t.Keys
    && forall a | a in t :: t'[a] == t[a] || t'[a] == t[a].(enabled := false)
  }

  lemma FewArmed(t: Table, skipped: set<Address>)
    requires forall k | k in t && k !in skipped :: !t[k].enabled
    ensures |ArmedSites(t)| <= |skipped|
    ensures |skipped| == 0 ==> forall k | k in t :: !t[k].enabled
  {
    assert ArmedSites(t) <= skipped;
    NoLarger(ArmedSites(t), skipped);
  }

  // ---------- the table across a stop ----------

  /** The same entries, except that an entry may have read its saved bytes again. */
  ghost predicate SameButSaved(t: Table, t': Table) {
    && t'.Keys == t.Keys
    && forall a | a in t :: t'[a] == t[a].(saved := t'[a].saved)
  }

  /** Every entry of t is still there, unchanged. */
  ghost predicate Extends(t: Table, t': Table) {
    forall a | a in t :: a in t' && t'[a] == t[a]
  }

  /** An entry made for a specification: armed, and there to stay. */
  predicate MadeFor(b: Breakpoint, specification: string) {
    b.enabled && !b.temporary && b.specification == specification
  }

  /** An entry made at an address for one of the pending specifications. */
  ghost predicate Made(b: Breakpoint, a: Address, pending: seq<Breakpoint>, resolve: Resolver) {
    exists p :: p in pending && a in resolve(p.specification) && MadeFor(b, p.specification)
  }

  /** Every entry survives, but for a temporary one whose hit was reported. */
  ghost predicate Kept(t: Table, t': Table, hit: Option<Address>) {
    forall a | a in t ::
      (a in t' && t'[a] == t[a].(saved := t'[a].saved)) || (hit == Some(a) && t[a].temporary)
  }

  /** The table after a stop: every entry is kept, and the pending specifications that resolve have armed entries. */
  ghost predicate Followed(t: Table, pending: seq<Breakpoint>, resolve: Resolver, hit: Option<Address>, t': Table) {
    && Kept(t, t', hit)
    && (forall a | a in Holdable(t, pending, resolve) && a !in t :: a in t')
    && (forall a | a in t' && a !in t :: Made(t'[a], a, pending, resolve))
  }

  ghost predicate Peek(t: Table) {
    true
  }

  /** Followed without a report, in a form that unfolds only where Peek is mentioned; for loops to carry along. */
  ghost predicate Settling(t: Table, pending: seq<Breakpoint>, resolve: Resolver, t': Table) {
    forall x {:trigger Peek(x)} :: Peek(x) && x == t' ==> Followed(t, pending, resolve, None, x)
  }

  lemma SettlingMeans(t: Table, pending: seq<Breakpoint>, resolve: Resolver, t': Table)
    ensures Settling(t, pending, resolve, t') <==> Followed(t, pending, resolve, None, t')
  {
    assert Peek(t');
  }

  ghost predicate TemporaryGone(t: Table, t': Table, hit: Option<Address>) {
    hit.Some? && hit.value in t && t[hit.value].temporary ==> hit.value !in t'
  }

  /** The table after a reported hit: a temporary entry there is gone. */
  function AfterReport(t: Table, hit: Option<Address>): Table {
    if hit.Some? && hit.value in t && t[hit.value].temporary then t - {hit.value} else t
  }

  lemma FollowedKeys(t: Table, pending: seq<Breakpoint>, resolve: Resolver, hit: Option<Address>, t': Table)
    requires Followed(t, pending, resolve, hit, t')
    ensures t'.Keys <= Holdable(t, pending, resolve)
    ensures hit == None ==> t'.Keys == Holdable(t, pending, resolve)
  {
    forall a | a in t' ensures a in Holdable(t, pending, resolve) {
      if a !in t {
        assert Made(t'[a], a, pending, resolve);
      }
    }
  }

  lemma FollowedByReport(t: Table, pending: seq<Breakpoint>, resolve: Resolver, middle: Table, hit: Option<Address>,
                         t': Table)
    requires Followed(t, pending, resolve, None, middle) && t' in {middle, AfterReport(middle, hit)}
    ensures Followed(t, pending, resolve, hit, t')
    ensures t' == AfterReport(middle, hit) ==> TemporaryGone(t, t', hit)
  {
    forall a | a in middle && a !in t ensures !middle[a].temporary {
      assert Made(middle[a], a, pending, resolve);
    }
  }

  lemma SameHoldable(t: Table, t1: Table, pending: seq<Breakpoint>, resolve: Resolver)
    requires SameButSaved(t, t1)
    ensures Holdable(t1, pending, resolve) == Holdable(t, pending, resolve)
  {
  }

  lemma FollowedFromSaved(t: Table, t1: Table, pending: seq<Breakpoint>, resolve: Resolver, hit: Option<Address>,
                          t': Table)
    requires SameButSaved(t, t1) && Followed(t1, pending, resolve, hit, t')
    ensures Followed(t, pending, resolve, hit, t')
    ensures TemporaryGone(t1, t', hit) ==> TemporaryGone(t, t', hit)
  {
    SameHoldable(t, t1, pending, resolve);
  }

  /** The addresses armed once the pending specifications have been retried. */
  ghost function ArmedAfter(t: Table, pending: seq<Breakpoint>, resolve: Resolver): set<Address> {
    set a | a in Holdable(t, pending, resolve) && (a in t ==> t[a].enabled)
  }

  /** Retrying settles the table: a second time there is nothing to add. */
  lemma Settled(t: Table, pending: seq<Breakpoint>, resolve: Resolver, t': Table)
    requires Followed(t, pending, resolve, None, t')
    ensures ArmedSites(t') == ArmedAfter(t, pending, resolve)
    ensures Holdable(t', Unresolved(pending, resolve), resolve) == t'.Keys == Holdable(t, pending, resolve)
  {
    FollowedKeys(t, pending, resolve, None, t');
    forall a | a in t' && a !in t ensures t'[a].enabled {
      assert Made(t'[a], a, pending, resolve);
    }
    forall p | p in Unresolved(pending, resolve) ensures resolve(p.specification) == [] {
      UnresolvedMembers(pending, resolve, p);
    }
  }

  lemma FollowedTwice(t: Table, pending: seq<Breakpoint>, resolve: Resolver, t1: Table, t2: Table)
    requires Followed(t, pending, resolve, None, t1)
    requires Followed(t1, Unresolved(pending, resolve), resolve, None, t2)
    ensures Followed(t, pending, resolve, None, t2)
  {
    Settled(t, pending, resolve, t1);
    FollowedKeys(t1, Unresolved(pending, resolve), resolve, None, t2);
    forall a | a in t2 && a !in t ensures Made(t2[a], a, pending, resolve) {
      assert Made(t1[a], a, pending, resolve);
      var p :| p in pending && a in resolve(p.specification) && MadeFor(t1[a], p.specification);
      assert MadeFor(t2[a], p.specification);
    }
  }

  lemma {:induction false} UnresolvedTwice(pending: seq<Breakpoint>, resolve: Resolver)
    ensures Unresolved(Unresolved(pending, resolve), resolve) == Unresolved(pending, resolve)
  {
    if pending != [] {
      var rest := Unresolved(pending[1..], resolve);
      UnresolvedTwice(pending[1..], resolve);
      assert ([pending[0]] + rest)[1..] == rest;
      assert [] + rest == rest;
    }
  }

  /** One more stop without a report: the table stays settled, and what was armed before it is known. */
  lemma NextSettling(t: Table, waiting: seq<Breakpoint>, resolve: Resolver, first: bool, before: Table,
                     pending: seq<Breakpoint>, after: Table, pending': seq<Breakpoint>)
    requires if first then before == t && pending == waiting
             else Settling(t, waiting, resolve, before) && pending == Unresolved(waiting, resolve)
    requires Followed(before, pending, resolve, None, after) && pending' == Unresolved(pending, resolve)
    ensures Settling(t, waiting, resolve, after) && pending' == Unresolved(waiting, resolve)
    ensures ArmedSites(before) == if first then ArmedSites(t) else ArmedAfter(t, waiting, resolve)
  {
    SettlingMeans(t, waiting, resolve, after);
    if !first {
      SettlingMeans(t, waiting, resolve, before);
      Settled(t, waiting, resolve, before);
      FollowedTwice(t, waiting, resolve, before, after);
      UnresolvedTwice(waiting, resolve);
    }
  }

  // ---------- continue and finish ----------

  /** The undebugged run first meets an armed entry, after at least one instruction, at count `to`. */
  ghost predicate FirstArmed(isa: Isa, origin: State, from: nat, to: nat, t: Table) {
    && from < to
    && Armed(t, Run(isa, origin, to).cpu.pc)
    && NoneArmedBetween(isa, origin, from + 1, to, t)
  }

  /** A trap is the first armed entry. An interruption comes before the run has passed any, perhaps right on one. */
  ghost predicate StopsFirst(isa: Isa, origin: State, from: nat, to: nat, t: Table, signal: Signal) {
    if signal == SIGTRAP then FirstArmed(isa, origin, from, to, t)
    else from <= to && NoneArmedBetween(isa, origin, from + 1, to, t)
  }

  /** From where `continue` runs on: past the armed entry at `from`, if there is one. */
  ghost function ResumedAt(isa: Isa, origin: State, from: nat, t: Table): nat {
    from + if Armed(t, Run(isa, origin, from).cpu.pc) then 1 else 0
  }

  /** The target runs until it traps or the user's patience, counted in instructions, is at its end. */
  ghost predicate RunsOut(resumed: nat, to: nat, patience: nat, signal: Signal) {
    if signal == SIGTRAP then to < resumed + patience else to == resumed + patience
  }

  /** A stop of `continue` is determined by the undebugged run, the table and the user's patience. */
  lemma StopIsUnique(isa: Isa, origin: State, from: nat, t: Table, patience: nat, to: nat, signal: Signal,
                     to': nat, signal': Signal)
    requires StopsFirst(isa, origin, from, to, t, signal) && StopsFirst(isa, origin, from, to', t, signal')
    requires RunsOut(ResumedAt(isa, origin, from, t), to, patience, signal)
    requires RunsOut(ResumedAt(isa, origin, from, t), to', patience, signal')
    ensures to == to' && signal == signal'
  {
    assert to < to' && signal == SIGTRAP ==> Armed(t, Run(isa, origin, to).cpu.pc);
    assert to' < to && signal' == SIGTRAP ==> Armed(t, Run(isa, origin, to').cpu.pc);
  }

  /** Stepping over the armed entry at `from`, and then running, meets entries in the order of the undebugged run. */
  lemma StoppedFirst(isa: Isa, origin: State, from: nat, resumed: nat, to: nat, t: Table, t1: Table, signal: Signal)
    requires SameButSaved(t, t1) && from <= resumed <= to
    requires resumed == ResumedAt(isa, origin, from, t)
    requires NoneArmedBetween(isa, origin, resumed, to, t1)
    requires signal == SIGTRAP ==> Armed(t1, Run(isa, origin, to).cpu.pc)
    ensures StopsFirst(isa, origin, from, to, t, signal)
  {
    forall i: nat | from < i < to ensures !Armed(t, Run(isa, origin, i).cpu.pc) {
      assert !Armed(t1, Run(isa, origin, i).cpu.pc);
    }
  }

  ghost predicate IsReturnAddress(m: Memory, fp: Address, a: Address) {
    exists w :: WordIs(m, Plus(fp, 8), w) && WordAsAddress(w) == a
  }

  /** The word above an unpatched slot is the one the undebugged target has there. */
  lemma ReturnSlotUnpatched(arch: Arch, m: Memory, t: Table, fp: Address, a: Address)
    requires forall k | 0 <= k < 8 :: !Armed(t, arch.SiteOf(Plus(Plus(fp, 8), k)))
    ensures IsReturnAddress(m, fp, a) <==> IsReturnAddress(Logical(arch, m, t), fp, a)
  {
    var l := Logical(arch, m, t);
    forall w ensures WordIs(m, Plus(fp, 8), w) <==> WordIs(l, Plus(fp, 8), w) {
      assert forall k | 0 <= k < 8 :: Plus(Plus(fp, 8), k) in m <==> Plus(Plus(fp, 8), k) in l;
      assert forall k | 0 <= k < 8 && Plus(Plus(fp, 8), k) in m :: m[Plus(Plus(fp, 8), k)] == l[Plus(Plus(fp, 8), k)];
    }
  }

  /** The table finish runs with: the given one, plus an armed temporary entry if the return address had none. */
  ghost predicate WithTemporary(t: Table, stops: Table, a: Address, id: int) {
    if a in t then stops == t
    else a in stops && stops[a].enabled && stops[a].temporary && stops[a].id == id && stops == t[a := stops[a]]
  }

  /** finish can stop at the return address unless the table already has a disarmed entry there. */
  lemma FinishStopsAtReturn(t: Table, stops: Table, a: Address, id: int)
    requires WithTemporary(t, stops, a, id)
    ensures Armed(stops, a) <==> (a in t ==> t[a].enabled)
    ensures forall k | k != a :: Armed(stops, k) <==> Armed(t, k)
  {
  }

  /** With a disarmed entry at the return address 0x2000, finish runs with nothing armed at all. */
  lemma FinishMissesReturn(stops: Table, id: int)
    requires WithTemporary(map[0x2000 := Breakpoint(1, 0x2000, "*0x2000", [], false, false, false)], stops, 0x2000, id)
    ensures ArmedSites(stops) == {}
  {
  }

  /**
   * The entries finish removes: of those it found, exactly a temporary one whose hit was reported; of its own,
   * exactly when the hit reported was there.
   */
  lemma FinishRemoves(t: Table, stops: Table, a: Address, id: int, pending: seq<Breakpoint>, resolve: Resolver,
                      hit: Option<Address>, t': Table)
    requires WithTemporary(t, stops, a, id)
    requires Followed(stops, pending, resolve, hit, t') && TemporaryGone(stops, t', hit)
    ensures forall k | k in t :: k !in t' <==> hit == Some(k) && t[k].temporary
    ensures forall k | k in t && k in t' :: t'[k] == t[k].(saved := t'[k].saved)
    ensures a !in t ==> (a !in t' <==> hit == Some(a))
  {
    assert a !in t ==> a in stops;
  }

  /**
   * The entry a `finish` leaves behind when it is interrupted is such a temporary one. Here it is at 0x2000; the
   * next `finish` returns to 0x3000 but stops at 0x2000 first, and removes an entry that was there before it.
   */
  lemma LeftoverRemoved(stops: Table, id: int, resolve: Resolver, t': Table)
    requires var left := Breakpoint(1, 0x2000, "<finish>", [0x90], true, true, false);
             && WithTemporary(map[0x2000 := left], stops, 0x3000, id)
             && Followed(stops, [], resolve, Some(0x2000), t') && TemporaryGone(stops, t', Some(0x2000))
    ensures t'.Keys == {0x3000}
  {
    var t := map[0x2000 := Breakpoint(1, 0x2000, "<finish>", [0x90], true, true, false)];
    FinishRemoves(t, stops, 0x3000, id, [], resolve, Some(0x2000), t');
    FollowedKeys(stops, [], resolve, Some(0x2000), t');
    assert 0x3000 in stops && 0x3000 in t';
  }

  // ---------- stepi ----------

  /** A place in the undebugged run, and whether the target got there by a trap that is still to be rewound. */
  datatype Landing = Landing(n: nat, trapped: bool)

  /** One instruction_step: an armed entry is stepped over first, and an armed one right after it traps. */
  ghost function Advance(isa: Isa, origin: State, n: nat, armed: set<Address>): Landing {
    if Run(isa, origin, n).cpu.pc !in armed then Landing(n + 1, false)
    else if Run(isa, origin, n + 1).cpu.pc !in armed then Landing(n + 2, false)
    else Landing(n + 1, true)
  }

  /** How many single steps that takes: one to step over the entry at the pc, if it is armed, and one after it. */
  ghost function SingleStepsFrom(t: Table, pc: Address): nat {
    if Armed(t, pc) then 2 else 1
  }

  // ---------- step ----------

  const STEP_LIMIT: nat := 100000

  datatype Place = Place(file: string, line: int)

  type Locator = Address -> Option<Place>

  /**
   * How the loop of `step` ends: with a report, at the limit, or astray. Astray, the pc is past a trap and yet on
   * the line the step started from, so the loop goes on from inside an instruction; nothing is claimed after that.
   */
  datatype StepEnd = Reported | LimitReached | Strayed

  /** The landing of turn k. The first turn meets the entries armed before it, later ones also those since resolved. */
  ghost function Landed(isa: Isa, origin: State, from: nat, first: set<Address>, later: set<Address>, k: nat): Landing
    requires k > 0
  {
    if k == 1 then Advance(isa, origin, from, first)
    else Advance(isa, origin, Landed(isa, origin, from, first, later, k - 1).n, later)
  }

  ghost function ShownAt(isa: Isa, arch: Arch, origin: State, l: Landing): Address {
    Shown(arch, Run(isa, origin, l.n).cpu.pc, l.trapped)
  }

  ghost predicate OnLine(isa: Isa, arch: Arch, origin: State, location: Locator, from: nat, l: Landing) {
    location(ShownAt(isa, arch, origin, l)) == location(Run(isa, origin, from).cpu.pc)
  }

  /** How a turn that ended at this landing goes on, if it ends the loop at all. */
  ghost function TurnEnd(isa: Isa, arch: Arch, origin: State, location: Locator, from: nat, l: Landing)
    : Option<StepEnd>
  {
    if !OnLine(isa, arch, origin, location, from, l) then Some(Reported)
    else if arch.X86_64? && l.trapped then Some(Strayed)
    else None
  }

  ghost predicate GoesOn(isa: Isa, arch: Arch, origin: State, location: Locator, from: nat,
                         first: set<Address>, later: set<Address>, k: nat) {
    k > 0 ==> TurnEnd(isa, arch, origin, location, from, Landed(isa, origin, from, first, later, k)) == None
  }

  ghost predicate GoneOn(isa: Isa, arch: Arch, origin: State, location: Locator, from: nat,
                         first: set<Address>, later: set<Address>, k: nat) {
    forall j: nat | j <= k :: GoesOn(isa, arch, origin, location, from, first, later, j)
  }

  /** The loop ends at the landing of turn k, the first turn to end it, or the last one allowed. */
  ghost predicate EndsAtTurn(isa: Isa, arch: Arch, origin: State, location: Locator, from: nat,
                             first: set<Address>, later: set<Address>, k: nat, end: StepEnd, l: Landing) {
    && 0 < k <= STEP_LIMIT
    && l == Landed(isa, origin, from, first, later, k)
    && GoneOn(isa, arch, origin, location, from, first, later, k - 1)
    && match TurnEnd(isa, arch, origin, location, from, l)
       case Some(e) => end == e
       case None => end == LimitReached && k == STEP_LIMIT
  }

  ghost predicate StepEnds(isa: Isa, arch: Arch, origin: State, location: Locator, from: nat,
                           first: set<Address>, later: set<Address>, end: StepEnd, l: Landing) {
    exists k: nat :: EndsAtTurn(isa, arch, origin, location, from, first, later, k, end, l)
  }

  /** A turn after `count` others either ends the loop or lets it go on to the next, unless it was the last allowed. */
  lemma TurnDone(isa: Isa, arch: Arch, origin: State, location: Locator, from: nat, first: set<Address>,
                 later: set<Address>, count: nat, l: Landing)
    requires count < STEP_LIMIT && GoneOn(isa, arch, origin, location, from, first, later, count)
    requires l == Landed(isa, origin, from, first, later, count + 1)
    ensures match TurnEnd(isa, arch, origin, location, from, l)
            case Some(e) => StepEnds(isa, arch, origin, location, from, first, later, e, l)
            case None =>
              && GoneOn(isa, arch, origin, location, from, first, later, count + 1)
              && (count + 1 == STEP_LIMIT ==>
                    StepEnds(isa, arch, origin, location, from, first, later, LimitReached, l))
  {
    match TurnEnd(isa, arch, origin, location, from, l)
    case Some(e) =>
      assert EndsAtTurn(isa, arch, origin, location, from, first, later, count + 1, e, l);
    case None =>
      assert GoesOn(isa, arch, origin, location, from, first, later, count + 1);
      assert count + 1 == STEP_LIMIT ==>
          EndsAtTurn(isa, arch, origin, location, from, first, later, count + 1, LimitReached, l);
  }

  /** There is one such turn, so how a step ends is determined by the undebugged run and the armed addresses. */
  lemma StepEndIsUnique(isa: Isa, arch: Arch, origin: State, location: Locator, from: nat, first: set<Address>,
                        later: set<Address>, k: nat, end: StepEnd, l: Landing, k': nat, end': StepEnd, l': Landing)
    requires EndsAtTurn(isa, arch, origin, location, from, first, later, k, end, l)
    requires EndsAtTurn(isa, arch, origin, location, from, first, later, k', end', l')
    ensures k == k' && end == end' && l == l'
  {
    assert k < k' ==> GoesOn(isa, arch, origin, location, from, first, later, k);
    assert k' < k ==> GoesOn(isa, arch, origin, location, from, first, later, k');
  }

  /** On x86-64 a step goes astray if and only if an armed entry it stepped over leads directly to an armed one
      from which the pc one byte on is still on the starting line. */
  lemma StrayedBackToBack(isa: Isa, arch: Arch, origin: State, location: Locator, from: nat, first: set<Address>,
                          later: set<Address>, k: nat, end: StepEnd, l: Landing)
    requires EndsAtTurn(isa, arch, origin, location, from, first, later, k, end, l)
    ensures var armed := if k == 1 then first else later;
            var start := if k == 1 then from else Landed(isa, origin, from, first, later, k - 1).n;
            end == Strayed <==>
              && arch.X86_64?
              && Run(isa, origin, start).cpu.pc in armed && Run(isa, origin, start + 1).cpu.pc in armed
              && location(Plus(Run(isa, origin, start + 1).cpu.pc, 1)) == location(Run(isa, origin, from).cpu.pc)
  {
  }

  /** Strictly between two instruction counts, and at the last, the run stays on the source line it started from. */
  ghost predicate SamePlace(isa: Isa, origin: State, location: Locator, from: nat, to: nat) {
    forall i: nat | from <= i <= to :: location(Run(isa, origin, i).cpu.pc) == location(Run(isa, origin, from).cpu.pc)
  }

  /** The stop at `to` is the first departure from the source line, or the step limit. */
  ghost predicate LeavesAt(isa: Isa, origin: State, location: Locator, from: nat, to: nat) {
    && from < to <= from + 100000
    && SamePlace(isa, origin, location, from, to - 1)
    && (location(Run(isa, origin, to).cpu.pc) != location(Run(isa, origin, from).cpu.pc) || to == from + 100000)
  }

  /** No instruction the stretch executes starts at a marked address. */
  ghost predicate Unmarked(isa: Isa, origin: State, from: nat, to: nat, marks: set<Address>) {
    forall i: nat | from <= i < to :: Run(isa, origin, i).cpu.pc !in marks
  }

  lemma {:induction false} LandedIncreases(isa: Isa, origin: State, from: nat, first: set<Address>,
                                           later: set<Address>, j: nat, k: nat)
    requires 0 < j < k
    ensures from < Landed(isa, origin, from, first, later, j).n < Landed(isa, origin, from, first, later, k).n
  {
    if j < k - 1 {
      LandedIncreases(isa, origin, from, first, later, j, k - 1);
    } else if j > 1 {
      LandedIncreases(isa, origin, from, first, later, j - 1, j);
    }
  }

  lemma {:induction false} LandedUnmarked(isa: Isa, origin: State, from: nat, first: set<Address>,
                                          later: set<Address>, k: nat, to: nat)
    requires k > 0 && Landed(isa, origin, from, first, later, k).n <= to
    requires Unmarked(isa, origin, from, to, first + later)
    ensures Landed(isa, origin, from, first, later, k) == Landing(from + k, false)
  {
    if k > 1 {
      LandedIncreases(isa, origin, from, first, later, k - 1, k);
      LandedUnmarked(isa, origin, from, first, later, k - 1, to);
    }
  }

  /** Where no visited pc is marked, the loop leaves the line at the least number of instructions, or at the limit. */
  lemma UnmarkedStep(isa: Isa, arch: Arch, origin: State, location: Locator, from: nat, first: set<Address>,
                     later: set<Address>, end: StepEnd, l: Landing)
    requires StepEnds(isa, arch, origin, location, from, first, later, end, l)
    requires Unmarked(isa, origin, from, l.n, first + later)
    ensures !l.trapped && end != Strayed && LeavesAt(isa, origin, location, from, l.n)
  {
    var k: nat :| EndsAtTurn(isa, arch, origin, location, from, first, later, k, end, l);
    LandedUnmarked(isa, origin, from, first, later, k, l.n);
    forall i: nat | from < i < l.n
      ensures location(Run(isa, origin, i).cpu.pc) == location(Run(isa, origin, from).cpu.pc)
    {
      var j := i - from;
      assert GoesOn(isa, arch, origin, location, from, first, later, j);
      LandedIncreases(isa, origin, from, first, later, j, k);
      LandedUnmarked(isa, origin, from, first, later, j, l.n);
    }
  }

  /** Where `step` lands: one instruction_step on from an unknown location, otherwise at the end of its loop. */
  ghost predicate StepLands(isa: Isa, arch: Arch, origin: State, location: Locator, from: nat, t: Table,
                            pending: seq<Breakpoint>, resolve: Resolver, end: StepEnd, l: Landing) {
    if location(Run(isa, origin, from).cpu.pc).None? then
      end == Reported && l == Advance(isa, origin, from, ArmedSites(t))
    else
      StepEnds(isa, arch, origin, location, from, ArmedSites(t), ArmedAfter(t, pending, resolve), end, l)
  }

  /** The step ends with a report, and that report says that it hit a breakpoint. */
  predicate Leaves(arch: Arch, pc: Address, trapped: bool, end: StepEnd, holdable: set<Address>) {
    end == Reported && arch.TrapCandidate(Shown(arch, pc, trapped)) in holdable
  }

  /**
   * How a step that threw nothing ends. Where no visited pc is marked, it leaves the line at the least number of
   * instructions. If the kernel refused nothing, an x86-64 target is left wrong exactly if the step went astray, or
   * if its last single step met no trap and yet an entry lies one byte below the pc it reached.
   */
  ghost predicate StepConcludes(isa: Isa, arch: Arch, origin: State, location: Locator, from: nat, t: Table,
                                pending: seq<Breakpoint>, resolve: Resolver, end: StepEnd, l: Landing,
                                hit: Option<Address>, unrefused: bool) {
    && StepLands(isa, arch, origin, location, from, t, pending, resolve, end, l)
    && (location(Run(isa, origin, from).cpu.pc).Some? &&
        Unmarked(isa, origin, from, l.n, Holdable(t, pending, resolve)) ==>
          !l.trapped && end != Strayed && LeavesAt(isa, origin, location, from, l.n))
    && (unrefused ==>
          (hit.Some? <==>
            Leaves(arch, Run(isa, origin, l.n).cpu.pc, l.trapped, end, Holdable(t, pending, resolve))))
    && (unrefused && arch.X86_64? ==>
          (RightlyReported(arch, l.trapped, hit) <==>
            && end != Strayed
            && (end == Reported && !l.trapped ==>
                  Wrap(Run(isa, origin, l.n).cpu.pc - 1) !in Holdable(t, pending, resolve))))
  }

  lemma SteppedSomewhere(isa: Isa, arch: Arch, origin: State, location: Locator, from: nat, t: Table,
                         pending: seq<Breakpoint>, resolve: Resolver, l: Landing, hit: Option<Address>, unrefused: bool)
    requires location(Run(isa, origin, from).cpu.pc).None? && l == Advance(isa, origin, from, ArmedSites(t))
    requires unrefused ==>
               (hit.Some? <==> arch.TrapCandidate(ShownAt(isa, arch, origin, l)) in Holdable(t, pending, resolve))
    ensures StepConcludes(isa, arch, origin, location, from, t, pending, resolve, Reported, l, hit, unrefused)
  {
    if unrefused {
      StepReported(arch, Run(isa, origin, l.n).cpu.pc, l.trapped, Holdable(t, pending, resolve), hit);
    }
  }

  lemma StepConcluded(isa: Isa, arch: Arch, origin: State, location: Locator, from: nat, t: Table,
                      pending: seq<Breakpoint>, resolve: Resolver, end: StepEnd, l: Landing, hit: Option<Address>,
                      unrefused: bool)
    requires location(Run(isa, origin, from).cpu.pc).Some?
    requires StepEnds(isa, arch, origin, location, from, ArmedSites(t), ArmedAfter(t, pending, resolve), end, l)
    requires unrefused ==>
               (hit.Some? <==>
                 Leaves(arch, Run(isa, origin, l.n).cpu.pc, l.trapped, end, Holdable(t, pending, resolve)))
    ensures StepConcludes(isa, arch, origin, location, from, t, pending, resolve, end, l, hit, unrefused)
  {
    if Unmarked(isa, origin, from, l.n, Holdable(t, pending, resolve)) {
      UnmarkedStep(isa, arch, origin, location, from, ArmedSites(t), ArmedAfter(t, pending, resolve), end, l);
    }
    if unrefused {
      StepLeftRight(isa, arch, origin, location, from, t, pending, resolve, end, l, hit);
    }
  }

  lemma LandedTrap(isa: Isa, origin: State, from: nat, first: set<Address>, later: set<Address>, k: nat)
    requires k > 0 && Landed(isa, origin, from, first, later, k).trapped
    ensures Run(isa, origin, Landed(isa, origin, from, first, later, k).n).cpu.pc in first + later
  {
  }

  /** An x86-64 step leaves the pc wrong if it strays, or if a genuine last step ends one byte above an entry. */
  lemma StepLeftRight(isa: Isa, arch: Arch, origin: State, location: Locator, from: nat, t: Table,
                      pending: seq<Breakpoint>, resolve: Resolver, end: StepEnd, l: Landing, hit: Option<Address>)
    requires StepLands(isa, arch, origin, location, from, t, pending, resolve, end, l)
    requires location(Run(isa, origin, from).cpu.pc).Some?
    requires hit.Some? <==> Leaves(arch, Run(isa, origin, l.n).cpu.pc, l.trapped, end, Holdable(t, pending, resolve))
    ensures arch.X86_64? ==>
              (RightlyReported(arch, l.trapped, hit) <==>
                && end != Strayed
                && (end == Reported && !l.trapped ==>
                      Wrap(Run(isa, origin, l.n).cpu.pc - 1) !in Holdable(t, pending, resolve)))
  {
    var first, later := ArmedSites(t), ArmedAfter(t, pending, resolve);
    var k: nat :| EndsAtTurn(isa, arch, origin, location, from, first, later, k, end, l);
    if l.trapped {
      LandedTrap(isa, origin, from, first, later, k);
    }
    if end == Reported {
      StepReported(arch, Run(isa, origin, l.n).cpu.pc, l.trapped, Holdable(t, pending, resolve), hit);
    }
  }

  // ---------- failing cases on x86-64 ----------

  /** A machine whose every instruction has one byte and counts itself in the frame pointer. */
  function CountIsa(): Isa {
    Isa((cpu: Cpu, m: Memory) => Effect(cpu.(pc := Plus(cpu.pc, 1), fp := Plus(cpu.fp, 1)), map[]),
        (cpu: Cpu, m: Memory) => {cpu.pc})
  }

  /** On its undebugged run the pc and the count keep their distance. */
  lemma {:induction false} CountKeepsDistance(origin: State, n: nat)
    ensures var cpu := Run(CountIsa(), origin, n).cpu;
            Offset(cpu.pc, cpu.fp) == Offset(origin.cpu.pc, origin.cpu.fp)
  {
    if n > 0 {
      CountKeepsDistance(origin, n - 1);
      var cpu := Run(CountIsa(), origin, n - 1).cpu;
      SameDistance(cpu.pc, cpu.fp);
      assert Run(CountIsa(), origin, n) == Next(CountIsa(), Run(CountIsa(), origin, n - 1));
    }
  }

  lemma SameDistance(x: Address, y: Address)
    ensures Offset(Plus(x, 1), Plus(y, 1)) == Offset(x, y)
  {
    assert Plus(x, 1) == if x + 1 < ADDRESS_SPACE then x + 1 else 0;
    assert Plus(y, 1) == if y + 1 < ADDRESS_SPACE then y + 1 else 0;
    assert Offset(x, y) == if x >= y then x - y else x - y + ADDRESS_SPACE;
  }

  /** So a target at another distance is nowhere on that run. */
  lemma OffTheRun(origin: State, cpu: Cpu, m: Memory, t: Table)
    requires Offset(cpu.pc, cpu.fp) != Offset(origin.cpu.pc, origin.cpu.fp)
    ensures forall n: nat :: !Mirrors(CountIsa(), X86_64, origin, n, cpu, m, t)
  {
    forall n: nat ensures !Mirrors(CountIsa(), X86_64, origin, n, cpu, m, t) {
      CountKeepsDistance(origin, n);
    }
  }

  /** The failing cases start here. */
  const START := State(Cpu(0x1000, 0, map[]), map[0x1000 := 0x90, 0x1001 := 0x90])

  function EntryAt(a: Address, enabled: bool): Breakpoint {
    Breakpoint(1, a, "*ADDRESS", [0x90], enabled, false, false)
  }

  lemma EntriesInPlace(m: Memory, t: Table)
    requires forall a | a in t :: t[a] == EntryAt(a, t[a].enabled) && (t[a].enabled ==> a in m && m[a] == 0xcc)
    ensures InPlace(X86_64, m, t)
  {
    forall a | a in t ensures EntryInPlace(X86_64, m, a, t[a]) {
      forall x: Address | X86_64.SiteOf(x) == a && t[a].enabled ensures HoldsTrap(X86_64, m, x) {
      }
    }
  }

  /**
   * A step that ends at 0x1001, in step, above a disarmed entry at 0x1000: the report takes the pc back to 0x1000,
   * and the target is nowhere on the undebugged run any more.
   */
  lemma GenuineStepRewound()
    ensures var t: Table := map[0x1000 := EntryAt(0x1000, false)];
            var cpu := Cpu(0x1001, 1, map[]);
            var hit := X86_64.TrapCandidate(Shown(X86_64, cpu.pc, false));
            && Mirrors(CountIsa(), X86_64, START, 1, cpu, START.mem, t)
            && hit == 0x1000 && hit in t
            && forall n: nat :: !Mirrors(CountIsa(), X86_64, START, n, cpu.(pc := hit), START.mem, t)
  {
    var t: Table := map[0x1000 := EntryAt(0x1000, false)];
    var cpu := Cpu(0x1001, 1, map[]);
    EntriesInPlace(START.mem, t);
    NothingArmed(X86_64, START.mem, t);
    CountOne();
    OffTheRun(START, cpu.(pc := 0x1000), START.mem, t);
  }

  lemma CountOne()
    ensures Run(CountIsa(), START, 1) == State(Cpu(0x1001, 1, map[]), START.mem)
  {
    assert Run(CountIsa(), START, 0) == START;
    assert Store(START.mem, map[]) == START.mem;
  }

  /**
   * A trap at 0x1000 that is never reported leaves the pc at 0x1001: the target was in step before, and is nowhere on
   * the undebugged run after.
   */
  lemma UnreportedTrap()
    ensures var t: Table := map[0x1000 := EntryAt(0x1000, true)];
            var patched: Memory := map[0x1000 := 0xcc, 0x1001 := 0x90];
            && Mirrors(CountIsa(), X86_64, START, 0, START.cpu, patched, t)
            && TrapAt(X86_64, patched, START.cpu.pc)
            && forall n: nat ::
                 !Mirrors(CountIsa(), X86_64, START, n, START.cpu.(pc := X86_64.AfterTrap(0x1000)), patched, t)
  {
    var t: Table := map[0x1000 := EntryAt(0x1000, true)];
    var patched: Memory := map[0x1000 := 0xcc, 0x1001 := 0x90];
    EntriesInPlace(patched, t);
    PatchedStart(patched, t);
    TrapAtMeans(X86_64, patched, START.cpu.pc);
    OffTheRun(START, START.cpu.(pc := X86_64.AfterTrap(0x1000)), patched, t);
  }

  lemma PatchedStart(patched: Memory, t: Table)
    requires patched == map[0x1000 := 0xcc, 0x1001 := 0x90] && t == map[0x1000 := EntryAt(0x1000, true)]
    ensures Logical(X86_64, patched, t) == START.mem
  {
    assert LogicalByte(X86_64, patched, t, 0x1000) == 0x90;
    assert LogicalByte(X86_64, patched, t, 0x1001) == 0x90;
  }

  /**
   * Two armed instructions in a row, both on one line: the first turn of `step` executes one of them and goes astray,
   * with the pc at 0x1002. Whatever memory then holds, the target is nowhere on the undebugged run.
   */
  lemma StepGoesAstray(location: Locator, later: set<Address>, m: Memory, t: Table)
    requires location(0x1002) == location(0x1000)
    ensures var isa, armed, l := CountIsa(), {0x1000, 0x1001}, Landing(1, true);
            var cpu := Run(isa, START, 1).cpu.(pc := ShownAt(isa, X86_64, START, l));
            && EndsAtTurn(isa, X86_64, START, location, 0, armed, later, 1, Strayed, l)
            && cpu == Cpu(0x1002, 1, map[])
            && forall n: nat :: !Mirrors(isa, X86_64, START, n, cpu, m, t)
  {
    var isa, armed := CountIsa(), {0x1000, 0x1001};
    CountOne();
    assert Run(isa, START, 0) == START;
    assert Landed(isa, START, 0, armed, later, 1) == Landing(1, true);
    assert GoesOn(isa, X86_64, START, location, 0, armed, later, 0);
    OffTheRun(START, Cpu(0x1002, 1, map[]), m, t);
  }

  /** That machine and memory meet the assumption made of programs, so the cases above are cases of it. */
  lemma CountIsTame(sites: set<Address>)
    ensures Tame(CountIsa(), X86_64, START, sites)
  {
    forall n: nat ensures UndisturbedAt(CountIsa(), X86_64, START, sites, n) {
      CountKeepsMemory(n);
      var s := Run(CountIsa(), START, n);
      TrapAtMeans(X86_64, s.mem, s.cpu.pc);
      assert s.cpu.pc in s.mem ==> s.mem[s.cpu.pc] == 0x90;
    }
  }

  lemma {:induction false} CountKeepsMemory(n: nat)
    ensures Run(CountIsa(), START, n).mem == START.mem
  {
    if n > 0 {
      CountKeepsMemory(n - 1);
      assert Store(START.mem, map[]) == START.mem;
    }
  }
}
