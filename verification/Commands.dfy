// The command lines, what they reply, and what each does between two moments of a session.
module Commands {
  import opened Common
  import opened TargetMemory
  import opened Architecture
  import opened LogicalMemory
  import opened BreakpointIds
  import opened Machine
  import opened Stops

  /** A command line, with what the world contributes: the user's patience, the loaded modules, the last stop. */
  datatype Command =
    | Break(specification: string, resolve: Resolver)
    | Delete(id: int)
    | Enable(id: int)
    | Disable(id: int)
    | Continue(patience: nat, resolve: Resolver)
    | StepI(resolve: Resolver)
    | Step(location: Locator, resolve: Resolver)
    | Finish(patience: nat, resolve: Resolver)
    | Thread(signal: Signal)   // selecting the thread reports its last stop again
  {
    predicate Edits() {
      Break? || Delete? || Enable? || Disable?
    }

    predicate Resolving() {
      Break? || Continue? || StepI? || Step? || Finish?
    }
  }

  /** What a command line says of the stop it led to. `hit` is the address in "hit breakpoint". */
  datatype Reply =
    | Quiet
    | Stopped(signal: Signal, hit: Option<Address>)
    | Stepped(end: StepEnd, trapped: bool, hit: Option<Address>)
    | Beyond
  {
    /** The pc was left wrong: a trap without a hit reported, or a hit reported without a trap. */
    predicate Astray(arch: Arch) {
      match this
      case Stopped(signal, hit) => !RightlyReported(arch, signal == SIGTRAP, hit)
      case Stepped(_, trapped, hit) => !RightlyReported(arch, trapped, hit)
      case _ => false
    }

    predicate Ends(arch: Arch) {
      Astray(arch) || Beyond?
    }
  }

  /** The debugger and the target between two commands. */
  datatype Moment = Moment(
    executed: nat,     // instructions of the program
    singleSteps: nat,  // single-step requests answered
    resumptions: nat,  // continue requests answered
    cpu: Cpu,
    mem: Memory,
    table: Table,
    pending: seq<Breakpoint>,
    nextId: int,
    refused: nat)

  /** What a command does between two moments: always, and if the kernel refuses it nothing. */
  ghost predicate Performed(isa: Isa, arch: Arch, origin: State, sites: set<Address>, command: Command, reply: Reply,
                            b: Moment, a: Moment) {
    && a.executed >= b.executed && a.refused >= b.refused
    && (reply.Beyond? ==> LeftAlone(sites, command, b, a))
    && (!reply.Beyond? ==> Attempted(isa, origin, command, reply, b, a))
    && (a.refused == b.refused && !reply.Beyond? ==>
          match command
          case Continue(patience, resolve) => Continued(isa, origin, b.table, patience, resolve, reply, b, a)
          case StepI(resolve) => SteppedOne(isa, arch, origin, resolve, reply, b, a)
          case Step(location, resolve) => SteppedLine(isa, arch, origin, location, resolve, reply, b, a)
          case Finish(patience, resolve) => Finished(isa, origin, patience, resolve, reply, b, a)
          case Thread(signal) => Reselected(arch, signal, reply, b, a)
          case _ => Edited(command, b.table, b.pending, a.table, a.pending))
  }

  /** The model ends only at a `finish` to an address where no breakpoint is assumed, before it has done anything. */
  ghost predicate LeftAlone(sites: set<Address>, command: Command, b: Moment, a: Moment) {
    command.Finish? && a == b && exists r :: IsReturnAddress(b.mem, b.cpu.fp, r) && r !in sites
  }

  /** What holds of a command whatever the kernel has refused it. */
  ghost predicate Attempted(isa: Isa, origin: State, command: Command, reply: Reply, b: Moment, a: Moment) {
    match command
    case Continue(_, _) => reply.Stopped? && StopsFirst(isa, origin, b.executed, a.executed, b.table, reply.signal)
    case Finish(_, _) =>
      && reply.Stopped?
      && exists stops :: Extends(b.table, stops) && StopsFirst(isa, origin, b.executed, a.executed, stops, reply.signal)
    case StepI(_) =>
      && reply.Stepped? && a.executed <= b.executed + 2
      && (reply.trapped ==> Landing(a.executed, true) == Advance(isa, origin, b.executed, ArmedSites(b.table)))
    case Step(_, _) => reply.Stepped?
    case Thread(_) =>
      && reply.Stepped? && !reply.trapped && a.executed == b.executed && a.pending == b.pending
      && a.singleSteps == b.singleSteps && a.resumptions == b.resumptions
    case _ =>
      && reply.Quiet? && a.executed == b.executed && a.cpu == b.cpu
      && a.singleSteps == b.singleSteps && a.resumptions == b.resumptions
  }

  /** A session from moment to moment: each command does what it should, and none follows a reply that ends it. */
  ghost predicate Told(isa: Isa, arch: Arch, origin: State, sites: set<Address>, commands: seq<Command>,
                       replies: seq<Reply>, trace: seq<Moment>) {
    && |replies| <= |commands| && |trace| == |replies| + 1
    && (forall i | 0 <= i < |replies| ::
          Performed(isa, arch, origin, sites, commands[i], replies[i], trace[i], trace[i + 1]))
    && (forall i | 0 <= i < |replies| - 1 :: !replies[i].Ends(arch))
  }

  lemma ToldNext(isa: Isa, arch: Arch, origin: State, sites: set<Address>, commands: seq<Command>,
                 replies: seq<Reply>, trace: seq<Moment>, reply: Reply, now: Moment)
    requires Told(isa, arch, origin, sites, commands, replies, trace) && |replies| < |commands|
    requires replies == [] || !replies[|replies| - 1].Ends(arch)
    requires Performed(isa, arch, origin, sites, commands[|replies|], reply, trace[|replies|], now)
    ensures Told(isa, arch, origin, sites, commands, replies + [reply], trace + [now])
  {
    var longer, told := trace + [now], replies + [reply];
    forall i | 0 <= i < |told|
      ensures Performed(isa, arch, origin, sites, commands[i], told[i], longer[i], longer[i + 1])
    {
      assert i < |replies| ==> longer[i] == trace[i] && longer[i + 1] == trace[i + 1] && told[i] == replies[i];
    }
  }

  /** The table and the pending list after a stop. */
  ghost predicate Settles(t: Table, resolve: Resolver, hit: Option<Address>, b: Moment, a: Moment) {
    && Followed(t, b.pending, resolve, hit, a.table) && TemporaryGone(t, a.table, hit)
    && a.pending == Unresolved(b.pending, resolve)
  }

  ghost predicate Continued(isa: Isa, origin: State, stops: Table, patience: nat, resolve: Resolver, reply: Reply,
                            b: Moment, a: Moment) {
    && reply.Stopped? && StopsFirst(isa, origin, b.executed, a.executed, stops, reply.signal)
    && RunsOut(ResumedAt(isa, origin, b.executed, stops), a.executed, patience, reply.signal)
    && (reply.signal == SIGTRAP <==> reply.hit == Some(a.cpu.pc))
    && a.cpu == Run(isa, origin, a.executed).cpu
    && a.resumptions == b.resumptions + 1
    && a.singleSteps == b.singleSteps + (if Armed(stops, b.cpu.pc) then 1 else 0)
    && Settles(stops, resolve, reply.hit, b, a)
  }

  ghost predicate Finished(isa: Isa, origin: State, patience: nat, resolve: Resolver, reply: Reply,
                           b: Moment, a: Moment) {
    exists returned, stops ::
      && IsReturnAddress(b.mem, b.cpu.fp, returned) && WithTemporary(b.table, stops, returned, b.nextId)
      && Continued(isa, origin, stops, patience, resolve, reply, b, a)
  }

  /** print_stop reports a hit exactly if an entry, or one since resolved, is at the candidate address. */
  ghost predicate Hits(arch: Arch, pc: Address, trapped: bool, holdable: set<Address>, hit: Option<Address>) {
    var candidate := arch.TrapCandidate(Shown(arch, pc, trapped));
    hit == if candidate in holdable then Some(candidate) else None
  }

  ghost predicate SteppedOne(isa: Isa, arch: Arch, origin: State, resolve: Resolver, reply: Reply,
                             b: Moment, a: Moment) {
    && reply.Stepped?
    && Landing(a.executed, reply.trapped) == Advance(isa, origin, b.executed, ArmedSites(b.table))
    && a.singleSteps == b.singleSteps + (if Armed(b.table, b.cpu.pc) then 2 else 1)
    && Hits(arch, Run(isa, origin, a.executed).cpu.pc, reply.trapped, Holdable(b.table, b.pending, resolve), reply.hit)
    && Settles(b.table, resolve, reply.hit, b, a)
  }

  ghost predicate SteppedLine(isa: Isa, arch: Arch, origin: State, location: Locator, resolve: Resolver, reply: Reply,
                              b: Moment, a: Moment) {
    && reply.Stepped?
    && StepLands(isa, arch, origin, location, b.executed, b.table, b.pending, resolve, reply.end,
                 Landing(a.executed, reply.trapped))
    && (if reply.end == Reported then
          Hits(arch, Run(isa, origin, a.executed).cpu.pc, reply.trapped, Holdable(b.table, b.pending, resolve),
               reply.hit)
        else reply.hit == None)
    && Settles(b.table, resolve, reply.hit, b, a)
  }

  ghost predicate Reselected(arch: Arch, signal: Signal, reply: Reply, b: Moment, a: Moment) {
    && reply.Stepped? && a.executed == b.executed
    && (if signal == SIGTRAP then Hits(arch, b.cpu.pc, false, b.table.Keys, reply.hit) else reply.hit == None)
    && a.table == AfterReport(b.table, reply.hit) && a.pending == b.pending
  }

  /** The entries with the identifier are armed or disarmed as wanted; nothing else changes but saved bytes there. */
  ghost predicate Toggled(t: Table, t': Table, id: int, on: bool) {
    && t'.Keys == t.Keys
    && forall a | a in t :: t'[a] == if t[a].id == id then t[a].(enabled := on, saved := t'[a].saved) else t[a]
  }

  /** What an editing command that met no refusal does to the table and the pending list. */
  ghost predicate Edited(command: Command, t: Table, pending: seq<Breakpoint>, t': Table, pending': seq<Breakpoint>)
    requires command.Edits()
  {
    match command
    case Break(specification, resolve) =>
      if resolve(specification) == [] then
        && t' == t
        && |pending'| == |pending| + 1 && pending' == pending + [pending'[|pending|]]
        && pending'[|pending|].specification == specification
      else
        && pending' == pending && Extends(t, t')
        && (forall a | a in resolve(specification) :: a in t')
        && (forall a | a in t' && a !in t :: a in resolve(specification) && MadeFor(t'[a], specification))
    case Delete(id) => t' == (map a | a in t && t[a].id != id :: t[a]) && pending' == WithoutId(pending, id)
    case Enable(id) => Toggled(t, t', id, true) && pending' == pending
    case Disable(id) => Toggled(t, t', id, false) && pending' == pending
  }
}
