// The watchpoint table of the debugger, and how it reaches the debug registers of each thread.
module WatchTable {
  import opened Common
  import opened Architecture
  import opened WatchX86
  import opened WatchArm
  import Text

  datatype Watchpoint = Watchpoint(id: nat, slot: nat, address: Address, access: Access, bytes: nat)

  function RequestFor(w: Watchpoint): Request {
    Configure(w.slot, w.address, w.access, w.bytes)
  }

  /** The requests the architecture does not throw at. */
  predicate Acceptable(arch: Arch, q: Request) {
    if arch.X86_64? then Effective(q) else EffectiveHere(q)
  }

  // ---------- the command line ----------

  /** What the `watch` command line asks for, or the message it is refused with. */
  datatype Asked = Asked(address: Address, access: Access, bytes: nat) | Refused(reply: Reply)

  datatype Reply = Usage | BadAddress | BadAccess | BadSize | NoSlot | Failed | Added(id: nat)

  function AccessOf(word: string): Option<Access> {
    match word
    case "r" => Some(Read)
    case "w" => Some(Write)
    case "rw" => Some(ReadWrite)
    case _ => None
  }

  /** An omitted access is a write, an omitted size is eight; a size is cut to 32 bits. */
  function Meaning(arguments: seq<string>): Asked {
    if |arguments| < 2 then Refused(Usage)
    else if Text.Parsed(arguments[1]) == None then Refused(BadAddress)
    else if |arguments| >= 3 && AccessOf(arguments[2]) == None then Refused(BadAccess)
    else if |arguments| >= 4 && Text.Parsed(arguments[3]) == None then Refused(BadSize)
    else Asked(Text.Parsed(arguments[1]).value,
               if |arguments| >= 3 then AccessOf(arguments[2]).value else Write,
               if |arguments| >= 4 then Text.Parsed(arguments[3]).value % 0x1_0000_0000 else 8)
  }

  /** The command line, word by word. */
  lemma MeaningSpelt(arguments: seq<string>)
    ensures |arguments| < 2 ==> Meaning(arguments) == Refused(Usage)
    ensures |arguments| >= 2 && Text.Parsed(arguments[1]) == None ==> Meaning(arguments) == Refused(BadAddress)
    ensures |arguments| >= 2 && Text.Parsed(arguments[1]).Some? ==>
              var address := Text.Parsed(arguments[1]).value;
              && (|arguments| == 2 ==> Meaning(arguments) == Asked(address, Write, 8))
              && (|arguments| == 3 ==>
                    && (arguments[2] == "r" ==> Meaning(arguments) == Asked(address, Read, 8))
                    && (arguments[2] == "w" ==> Meaning(arguments) == Asked(address, Write, 8))
                    && (arguments[2] == "rw" ==> Meaning(arguments) == Asked(address, ReadWrite, 8)))
              && (|arguments| >= 3 && arguments[2] !in {"r", "w", "rw"} ==> Meaning(arguments) == Refused(BadAccess))
              && (|arguments| >= 4 && arguments[2] in {"r", "w", "rw"} && Text.Parsed(arguments[3]) == None ==>
                    Meaning(arguments) == Refused(BadSize))
              && (|arguments| >= 4 && arguments[2] in {"r", "w", "rw"} && Text.Parsed(arguments[3]).Some? ==>
                    && Meaning(arguments).Asked?
                    && Meaning(arguments) ==
                         Meaning(arguments[..3]).(bytes := Text.Parsed(arguments[3]).value % 0x1_0000_0000))
  {
  }

  /** The entry the next successful `watch` makes. */
  function NextEntry(m: Asked, n: nat): Watchpoint
    requires m.Asked?
  {
    Watchpoint(n + 1, n, m.address, m.access, m.bytes)
  }

  /** The table's shape in every reachable state: slots and ids are consecutive, and at most four. */
  predicate InOrder(entries: seq<Watchpoint>, nextId: nat) {
    && |entries| <= 4
    && nextId == |entries| + 1
    && forall i | 0 <= i < |entries| :: entries[i].slot == i && entries[i].id == i + 1
  }

  // ---------- what a thread's registers show ----------

  /** A thread's debug registers, on either architecture. */
  datatype Registers = OnX86(x86: DebugRegisters) | OnArm(arm: HardwareDebugState)

  ghost predicate Seen(r: Registers) {
    true
  }

  /** The slot of a request holds what the request asks for. */
  predicate Holds(r: Registers, q: Request) {
    match r
    case OnX86(x) => WellFormed(x) && Effective(q) && Decode(x, q.slot) == Wanted(q)
    case OnArm(x) => Complete(x) && EffectiveHere(q) && Meets(x.registers[q.slot], q)
  }

  /** The same; unfolds only where Seen is mentioned. */
  ghost predicate Shows(r: Registers, q: Request) {
    forall x {:trigger Seen(x)} :: Seen(x) && x == r ==> Holds(x, q)
  }

  lemma ShowsMeans(r: Registers, q: Request)
    ensures Shows(r, q) <==> Holds(r, q)
  {
    assert Seen(r);
  }

  /** Every entry of the table is set in its slot. */
  ghost predicate Programmed(r: Registers, entries: seq<Watchpoint>) {
    forall i | 0 <= i < |entries| :: Shows(r, RequestFor(entries[i]))
  }

  /** The registers of a programmed thread hold exactly the table at the occupied slots. */
  lemma ProgrammedMeans(r: Registers, entries: seq<Watchpoint>, i: nat)
    requires Programmed(r, entries) && i < |entries|
    ensures Holds(r, RequestFor(entries[i]))
  {
    ShowsMeans(r, RequestFor(entries[i]));
  }

  /** Slots other than `slot` show what they did. */
  ghost predicate SameBut(r: Registers, r': Registers, slot: nat) {
    forall q: Request {:trigger Shows(r', q)} | q.slot != slot && Shows(r, q) :: Shows(r', q)
  }

  lemma FulfilledX86(r: DebugRegisters, q: Request, r': DebugRegisters)
    requires WellFormed(r) && Fulfils(r, q, r') && Effective(q)
    ensures Shows(OnX86(r'), q) && SameBut(OnX86(r), OnX86(r'), q.slot)
  {
    OwnSlot(r, q, r');
    ShowsMeans(OnX86(r'), q);
    forall p: Request | p.slot != q.slot && Shows(OnX86(r), p) ensures Shows(OnX86(r'), p) {
      ShowsMeans(OnX86(r), p);
      OtherSlot(r, q, r', p.slot);
      ShowsMeans(OnX86(r'), p);
    }
  }

  lemma ThrownX86(r: DebugRegisters, r': DebugRegisters, slot: nat)
    requires WellFormed(r) && WellFormed(r') && ControlKept(r, r', slot)
    ensures SameBut(OnX86(r), OnX86(r'), slot)
  {
    forall p: Request | p.slot != slot && Shows(OnX86(r), p) ensures Shows(OnX86(r'), p) {
      ShowsMeans(OnX86(r), p);
      ShowsMeans(OnX86(r'), p);
    }
  }

  lemma FulfilledArm(r: HardwareDebugState, q: Request, r': HardwareDebugState)
    requires Done(r, q, r') && EffectiveHere(q)
    ensures Shows(OnArm(r'), q) && SameBut(OnArm(r), OnArm(r'), q.slot)
  {
    ShowsMeans(OnArm(r'), q);
    forall p: Request | p.slot != q.slot && Shows(OnArm(r), p) ensures Shows(OnArm(r'), p) {
      ShowsMeans(OnArm(r), p);
      ShowsMeans(OnArm(r'), p);
    }
  }

  /** Setting a free slot, or failing to, leaves a programmed thread programmed. */
  lemma StillProgrammed(r: Registers, r': Registers, entries: seq<Watchpoint>, slot: nat)
    requires Programmed(r, entries) && SameBut(r, r', slot) && forall w | w in entries :: w.slot != slot
    ensures Programmed(r', entries)
  {
  }

  /** Setting the next slot extends the programmed part of the table by one entry. */
  lemma OneMoreProgrammed(r: Registers, r': Registers, entries: seq<Watchpoint>, i: nat)
    requires i < |entries| && forall w | w in entries[..i] :: w.slot != entries[i].slot
    requires Programmed(r, entries[..i]) && SameBut(r, r', entries[i].slot) && Shows(r', RequestFor(entries[i]))
    ensures Programmed(r', entries[..i + 1])
  {
    StillProgrammed(r, r', entries[..i], entries[i].slot);
    assert entries[..i + 1] == entries[..i] + [entries[i]];
  }

  // ---------- what a history of commands comes to ----------

  datatype Event = Watch(arguments: seq<string>, stopped: seq<nat>) | NewThread(tid: nat)

  /** The message of a `watch`, or how the set-up of a new thread ended. */
  datatype Answer = Replied(reply: Reply) | SetUp(ok: Outcome)

  /** The entries recorded by the `watch` commands that succeeded. */
  function Recorded(events: seq<Event>, answers: seq<Answer>): seq<Watchpoint>
    requires |events| == |answers|
  {
    if events == [] then []
    else
      var n := |events| - 1;
      var before := Recorded(events[..n], answers[..n]);
      if events[n].Watch? && answers[n].Replied? && answers[n].reply.Added? && Meaning(events[n].arguments).Asked?
      then before + [NextEntry(Meaning(events[n].arguments), |before|)]
      else before
  }

  /** The threads that were set up when they appeared and were stopped at every later `watch` that succeeded. */
  function UpToDate(first: set<nat>, events: seq<Event>, answers: seq<Answer>): set<nat>
    requires |events| == |answers|
  {
    if events == [] then first
    else
      var n := |events| - 1;
      var before := UpToDate(first, events[..n], answers[..n]);
      match (events[n], answers[n])
      case (Watch(_, stopped), Replied(Added(_))) => set t | t in before && t in stopped
      case (NewThread(tid), SetUp(Ok)) => before + {tid}
      case (NewThread(tid), _) => before - {tid}
      case _ => before
  }

  /** The reply to a `watch` when the kernel refuses nothing. */
  function ExpectedReply(arch: Arch, arguments: seq<string>, stopped: seq<nat>, entries: seq<Watchpoint>): Reply {
    var m, n := Meaning(arguments), |entries|;
    if m.Refused? then m.reply
    else if n == 4 then NoSlot
    else if stopped != [] && !Acceptable(arch, RequestFor(NextEntry(m, n))) then Failed
    else Added(n + 1)
  }

  predicate AllAcceptable(arch: Arch, entries: seq<Watchpoint>) {
    forall w | w in entries :: Acceptable(arch, RequestFor(w))
  }

  /** What every event is answered with when the kernel refuses nothing. */
  function Expected(arch: Arch, events: seq<Event>): (answers: seq<Answer>)
    ensures |answers| == |events|
  {
    if events == [] then []
    else
      var n := |events| - 1;
      var before := Expected(arch, events[..n]);
      var entries := Recorded(events[..n], before);
      before + [match events[n]
                case Watch(arguments, stopped) => Replied(ExpectedReply(arch, arguments, stopped, entries))
                case NewThread(_) => SetUp(if AllAcceptable(arch, entries) then Ok else Thrown)]
  }

  lemma RecordedNext(events: seq<Event>, answers: seq<Answer>, i: nat, a: Answer)
    requires i < |events| && |answers| == i
    ensures var before := Recorded(events[..i], answers);
            Recorded(events[..i + 1], answers + [a]) ==
              if events[i].Watch? && a.Replied? && a.reply.Added? && Meaning(events[i].arguments).Asked?
              then before + [NextEntry(Meaning(events[i].arguments), |before|)]
              else before
  {
    assert events[..i + 1][..i] == events[..i] && (answers + [a])[..i] == answers;
  }

  lemma ExpectedNext(arch: Arch, events: seq<Event>, i: nat)
    requires i < |events|
    ensures var before := Expected(arch, events[..i]);
            var entries := Recorded(events[..i], before);
            Expected(arch, events[..i + 1]) ==
              before + [match events[i]
                        case Watch(arguments, stopped) => Replied(ExpectedReply(arch, arguments, stopped, entries))
                        case NewThread(_) => SetUp(if AllAcceptable(arch, entries) then Ok else Thrown)]
  {
    assert events[..i + 1][..i] == events[..i];
  }

  lemma UpToDateNext(first: set<nat>, events: seq<Event>, answers: seq<Answer>, i: nat, a: Answer)
    requires i < |events| && |answers| == i
    ensures var before := UpToDate(first, events[..i], answers);
            UpToDate(first, events[..i + 1], answers + [a]) ==
              match (events[i], a)
              case (Watch(_, stopped), Replied(Added(_))) => (set t | t in before && t in stopped)
              case (NewThread(tid), SetUp(Ok)) => before + {tid}
              case (NewThread(tid), _) => before - {tid}
              case _ => before
  {
    assert events[..i + 1][..i] == events[..i] && (answers + [a])[..i] == answers;
  }

  // ---------- the table ----------

  class Table {
    var entries: seq<Watchpoint>   // watchpoints_
    var nextId: nat                // next_watchpoint_id_
    const arch: Arch
    const file: DebugFile          // the kernel's registers, on x86-64
    const arm: WatchFile           // and on AArch64

    ghost predicate Ready()
      reads file, arm
    {
      file.Valid() && arm.Valid()
    }

    ghost predicate Valid()
      reads this, file, arm
    {
      Ready() && InOrder(entries, nextId)
    }

    /** The debug registers of a thread, if it is there. */
    ghost function At(tid: nat): Option<Registers>
      reads file, arm
    {
      if arch.X86_64? then (if tid in file.registers then Some(OnX86(file.registers[tid])) else None)
      else (if tid in arm.states then Some(OnArm(arm.states[tid])) else None)
    }

    ghost function RefusedSoFar(): nat
      reads file, arm
    {
      file.refused + arm.refused
    }

    constructor (arch: Arch, file: DebugFile, arm: WatchFile)
      requires file.Valid() && arm.Valid()
      ensures Valid() && this.arch == arch && this.file == file && this.arm == arm && entries == []
    {
      this.arch, this.file, this.arm := arch, file, arm;
      entries, nextId := [], 1;
    }

    /** The smallest slot no entry occupies. It is always the next one, so the search ends at the list's length. */
    method SmallestFree() returns (slot: nat)
      requires Valid()
      ensures slot == |entries|
      ensures forall i | 0 <= i < |entries| :: entries[i].slot != slot
    {
      var occupied: set<nat> := {};
      for i := 0 to |entries|
        invariant forall s: nat :: s in occupied <==> s < i
      {
        occupied := occupied + {entries[i].slot};
      }
      slot := 0;
      while slot in occupied
        invariant slot <= |entries|
        decreases |entries| - slot
      {
        slot := slot + 1;
      }
    }

    /** configure_watchpoint for one thread and one entry, in terms of what the registers show. */
    method ConfigureOne(tid: nat, w: Watchpoint) returns (ok: Outcome)
      requires Ready()
      modifies file, arm
      ensures Ready() && RefusedSoFar() >= old(RefusedSoFar())
      ensures forall t | t != tid :: At(t) == old(At(t))
      ensures At(tid).Some? <==> old(At(tid)).Some?
      ensures At(tid).Some? ==> SameBut(old(At(tid)).value, At(tid).value, w.slot)
      ensures ok == Ok ==>
                && At(tid).Some? && Acceptable(arch, RequestFor(w)) && Shows(At(tid).value, RequestFor(w))
      ensures RefusedSoFar() == old(RefusedSoFar()) ==> (ok == Thrown <==> !Acceptable(arch, RequestFor(w)))
    {
      if arch.X86_64? {
        ok := file.ConfigureWatchpoint(tid, w.slot, w.address, w.access, w.bytes);
        if tid in file.registers {
          ghost var r, r' := old(file.registers)[tid], file.registers[tid];
          if ok == Ok {
            FulfilledX86(r, RequestFor(w), r');
          } else {
            ThrownX86(r, r', w.slot);
          }
        }
      } else {
        ok := arm.ConfigureWatchpoint(tid, w.slot, w.address, w.access, w.bytes);
        if ok == Ok {
          FulfilledArm(old(arm.states)[tid], RequestFor(w), arm.states[tid]);
        }
      }
    }

    /** Sets one slot on every stopped thread, in order, until one of them refuses. */
    method ConfigureStopped(stopped: seq<nat>, w: Watchpoint) returns (ok: Outcome)
      requires Ready()
      modifies file, arm
      ensures Ready() && RefusedSoFar() >= old(RefusedSoFar())
      ensures forall t | t !in stopped :: At(t) == old(At(t))
      ensures forall t :: At(t).Some? <==> old(At(t)).Some?
      ensures forall t | At(t).Some? :: SameBut(old(At(t)).value, At(t).value, w.slot)
      ensures ok == Ok ==> forall t | t in stopped ::
                At(t).Some? && Acceptable(arch, RequestFor(w)) && Shows(At(t).value, RequestFor(w))
      ensures RefusedSoFar() == old(RefusedSoFar()) ==>
                (ok == Thrown <==> stopped != [] && !Acceptable(arch, RequestFor(w)))
    {
      for i := 0 to |stopped|
        invariant Ready() && RefusedSoFar() >= old(RefusedSoFar())
        invariant forall t | t !in stopped :: At(t) == old(At(t))
        invariant forall t :: At(t).Some? <==> old(At(t)).Some?
        invariant forall t | At(t).Some? :: SameBut(old(At(t)).value, At(t).value, w.slot)
        invariant forall t | t in stopped[..i] :: At(t).Some? && Shows(At(t).value, RequestFor(w))
        invariant i > 0 ==> Acceptable(arch, RequestFor(w))
      {
        ok := ConfigureOne(stopped[i], w);
        if ok == Thrown {
          return Thrown;
        }
        assert stopped[..i + 1] == stopped[..i] + [stopped[i]];
      }
      assert stopped[..|stopped|] == stopped;
      ok := Ok;
    }

    /** configure_thread_watchpoints: on success the thread's registers show the whole table. */
    method ConfigureThread(tid: nat) returns (ok: Outcome)
      requires Valid()
      modifies file, arm
      ensures Valid() && RefusedSoFar() >= old(RefusedSoFar())
      ensures forall t | t != tid :: At(t) == old(At(t))
      ensures ok == Ok && At(tid).Some? ==> Programmed(At(tid).value, entries)
      ensures ok == Ok && entries != [] ==> At(tid).Some?
      ensures ok == Ok ==> AllAcceptable(arch, entries)
      ensures RefusedSoFar() == old(RefusedSoFar()) ==> (ok == Ok <==> AllAcceptable(arch, entries))
    {
      for i := 0 to |entries|
        invariant Valid() && RefusedSoFar() >= old(RefusedSoFar())
        invariant forall t | t != tid :: At(t) == old(At(t))
        invariant i > 0 ==> At(tid).Some?
        invariant At(tid).Some? ==> Programmed(At(tid).value, entries[..i])
        invariant AllAcceptable(arch, entries[..i])
      {
        ghost var before := At(tid);
        ok := ConfigureOne(tid, entries[i]);
        if ok == Thrown {
          assert entries[i] in entries;
          return Thrown;
        }
        OneMoreProgrammed(before.value, At(tid).value, entries, i);
        assert entries[..i + 1] == entries[..i] + [entries[i]];
      }
      assert entries[..|entries|] == entries;
      ok := Ok;
    }

    /** The `watch` command, with the rows marked stopped in the thread table's order. */
    method SetWatchpoint(arguments: seq<string>, stopped: seq<nat>) returns (reply: Reply)
      requires Valid()
      modifies this, file, arm
      ensures Valid() && RefusedSoFar() >= old(RefusedSoFar())
      ensures RefusedSoFar() == old(RefusedSoFar()) ==>
                reply == ExpectedReply(arch, arguments, stopped, old(entries))
      ensures reply != Failed ==> reply == ExpectedReply(arch, arguments, stopped, old(entries))
      ensures reply.Added? ==>
                Meaning(arguments).Asked? && entries == old(entries) + [NextEntry(Meaning(arguments), |old(entries)|)]
      ensures !reply.Added? ==> entries == old(entries)
      ensures forall t | t !in stopped || !(reply.Added? || reply == Failed) :: At(t) == old(At(t))
      ensures forall t :: At(t).Some? <==> old(At(t)).Some?
      ensures forall t | At(t).Some? && (t in stopped || !reply.Added?) ::
                Programmed(old(At(t)).value, old(entries)) ==> Programmed(At(t).value, entries)
    {
      if |arguments| < 2 {
        return Usage;
      }
      var address := Text.ParseAddress(arguments[1]);
      if address == None {
        return BadAddress;
      }
      var access := Write;
      if |arguments| >= 3 {
        if arguments[2] == "r" {
          access := Read;
        } else if arguments[2] == "rw" {
          access := ReadWrite;
        } else if arguments[2] != "w" {
          return BadAccess;
        }
      }
      var bytes: nat := 8;
      if |arguments| >= 4 {
        var parsed := Text.ParseAddress(arguments[3]);
        if parsed == None {
          return BadSize;
        }
        bytes := parsed.value % 0x1_0000_0000;
      }
      assert Meaning(arguments) == Asked(address.value, access, bytes);
      reply := Allocate(address.value, access, bytes, stopped);
    }

    /** The rest of set_watchpoint, once its arguments are read. */
    method Allocate(address: Address, access: Access, bytes: nat, stopped: seq<nat>) returns (reply: Reply)
      requires Valid()
      modifies this, file, arm
      ensures Valid() && RefusedSoFar() >= old(RefusedSoFar())
      ensures var n := |old(entries)|;
              var w := Watchpoint(n + 1, n, address, access, bytes);
              var bad := stopped != [] && !Acceptable(arch, RequestFor(w));
              && (n == 4 <==> reply == NoSlot)
              && (n < 4 ==> reply in {Failed, Added(n + 1)} && (bad ==> reply == Failed))
              && (n < 4 && RefusedSoFar() == old(RefusedSoFar()) ==> (reply == Failed <==> bad))
              && entries == if reply.Added? then old(entries) + [w] else old(entries)
      ensures forall t | t !in stopped || reply == NoSlot :: At(t) == old(At(t))
      ensures forall t :: At(t).Some? <==> old(At(t)).Some?
      ensures forall t | At(t).Some? && (t in stopped || !reply.Added?) ::
                Programmed(old(At(t)).value, old(entries)) ==> Programmed(At(t).value, entries)
    {
      var slot := SmallestFree();
      if slot >= 4 {
        return NoSlot;
      }
      var w := Watchpoint(nextId, slot, address, access, bytes);
      var ok := ConfigureStopped(stopped, w);
      forall t | At(t).Some? && Programmed(old(At(t)).value, entries) ensures Programmed(At(t).value, entries) {
        StillProgrammed(old(At(t)).value, At(t).value, entries, slot);
      }
      if ok == Thrown {
        return Failed;
      }
      reply := Added(nextId);
      nextId := nextId + 1;
      entries := entries + [w];
      assert stopped != [] ==> stopped[0] in stopped;
    }

    /**
     * Any sequence of `watch` commands and new threads, starting with an empty table. The table is what the
     * successful commands recorded, a thread kept up to date shows all of it, and while the kernel refuses nothing
     * every answer is the expected one.
     */
    method Session(events: seq<Event>, ghost first: set<nat>) returns (answers: seq<Answer>)
      requires Valid() && entries == []
      modifies this, file, arm
      ensures Valid() && |answers| == |events|
      ensures entries == Recorded(events, answers)
      ensures forall t | t in UpToDate(first, events, answers) && At(t).Some? :: Programmed(At(t).value, entries)
      ensures RefusedSoFar() == old(RefusedSoFar()) ==> answers == Expected(arch, events)
    {
      answers := [];
      for i := 0 to |events|
        invariant Valid() && |answers| == i && RefusedSoFar() >= old(RefusedSoFar())
        invariant entries == Recorded(events[..i], answers)
        invariant forall t | t in UpToDate(first, events[..i], answers) && At(t).Some? ::
          Programmed(At(t).value, entries)
        invariant RefusedSoFar() == old(RefusedSoFar()) ==> answers == Expected(arch, events[..i])
      {
        var answer := Handle(events[i], UpToDate(first, events[..i], answers));
        RecordedNext(events, answers, i, answer);
        UpToDateNext(first, events, answers, i, answer);
        ExpectedNext(arch, events, i);
        answers := answers + [answer];
      }
      assert events[..|events|] == events;
    }

    /** One event. `current` are threads that show the whole table. */
    method Handle(event: Event, ghost current: set<nat>) returns (answer: Answer)
      requires Valid() && forall t | t in current && At(t).Some? :: Programmed(At(t).value, entries)
      modifies this, file, arm
      ensures Valid() && RefusedSoFar() >= old(RefusedSoFar())
      ensures match event
              case Watch(arguments, stopped) =>
                && answer.Replied?
                && (answer.reply.Added? ==> Meaning(arguments).Asked?)
                && entries == old(entries) +
                                (if answer.reply.Added? then [NextEntry(Meaning(arguments), |old(entries)|)] else [])
                && (RefusedSoFar() == old(RefusedSoFar()) ==>
                      answer.reply == ExpectedReply(arch, arguments, stopped, old(entries)))
                && forall t | t in current && At(t).Some? && (t in stopped || !answer.reply.Added?) ::
                     Programmed(At(t).value, entries)
              case NewThread(tid) =>
                && answer.SetUp? && entries == old(entries)
                && (RefusedSoFar() == old(RefusedSoFar()) ==> (answer.ok == Ok <==> AllAcceptable(arch, entries)))
                && forall t | t in (if answer.ok == Ok then current + {tid} else current - {tid}) && At(t).Some? ::
                     Programmed(At(t).value, entries)
    {
      match event
      case Watch(arguments, stopped) =>
        var reply := SetWatchpoint(arguments, stopped);
        answer := Replied(reply);
      case NewThread(tid) =>
        var ok := ConfigureThread(tid);
        answer := SetUp(ok);
    }
  }
}
