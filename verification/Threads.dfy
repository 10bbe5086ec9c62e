// The thread table against the kernel: which threads the debugger believes stopped, under every
// order in which the kernel may report stops, clones and exits.
module Threads {
  import opened Common

  type Tid = nat

  /** What waitpid can report: a stop, at which a clone may be announced, or the end of a thread. */
  datatype Event =
    | Stop(tid: Tid, signal: int, clone: Option<Tid>)
    | Gone(tid: Tid)

  /** A row of `threads_`. */
  datatype Row = Row(tid: Tid, stopped: bool, signal: int)

  type Table = map<Tid, Row>

  // ---------- what the kernel has told the debugger ----------

  /** PTRACE_CONT or PTRACE_SINGLESTEP. */
  datatype How = Cont | SingleStep

  datatype Entry = Reported(event: Event) | Resumed(tid: Tid, how: How)

  /** The threads whose last entry in the log is a reported stop. */
  ghost function StoppedAfter(log: seq<Entry>): set<Tid> {
    if log == [] then {}
    else
      var before := StoppedAfter(log[..|log| - 1]);
      match log[|log| - 1]
      case Reported(Stop(tid, _, _)) => before + {tid}
      case Reported(Gone(tid)) => before - {tid}
      case Resumed(tid, _) => before - {tid}
  }

  predicate IsStopOf(entry: Entry, tid: Tid) {
    entry.Reported? && entry.event.Stop? && entry.event.tid == tid
  }

  predicate EndsStop(entry: Entry, tid: Tid) {
    (entry.Resumed? && entry.tid == tid) || entry == Reported(Gone(tid))
  }

  /** Every resumption from the given entry on was of this kind. */
  ghost predicate OnlyBy(log: seq<Entry>, from: nat, how: How) {
    forall i | from <= i < |log| && log[i].Resumed? :: log[i].how == how
  }

  /** The kernel has reported the thread stopped, and since then it has been neither resumed nor reported gone. */
  ghost predicate StoppedSince(log: seq<Entry>, tid: Tid) {
    exists i :: 0 <= i < |log| && IsStopOf(log[i], tid) && UntouchedFrom(log, i + 1, tid)
  }

  ghost predicate UntouchedFrom(log: seq<Entry>, i: int, tid: Tid) {
    forall j | 0 <= i <= j < |log| :: !EndsStop(log[j], tid)
  }

  lemma {:induction false} StoppedAfterMeansStoppedSince(log: seq<Entry>, tid: Tid)
    ensures tid in StoppedAfter(log) <==> StoppedSince(log, tid)
  {
    if log != [] {
      var n := |log| - 1;
      var before := log[..n];
      StoppedAfterMeansStoppedSince(before, tid);
      if tid in StoppedAfter(log) {
        if IsStopOf(log[n], tid) {
          assert UntouchedFrom(log, n + 1, tid);
        } else {
          var i :| 0 <= i < n && IsStopOf(before[i], tid) && UntouchedFrom(before, i + 1, tid);
          assert IsStopOf(log[i], tid);
          forall j | i + 1 <= j < |log| ensures !EndsStop(log[j], tid) {
            assert j < n ==> log[j] == before[j];
          }
          assert UntouchedFrom(log, i + 1, tid);
        }
      }
      if StoppedSince(log, tid) {
        var i :| 0 <= i < |log| && IsStopOf(log[i], tid) && UntouchedFrom(log, i + 1, tid);
        if i < n {
          assert !EndsStop(log[n], tid);
          assert IsStopOf(before[i], tid);
          forall j | i + 1 <= j < n ensures !EndsStop(before[j], tid) {
            assert before[j] == log[j];
          }
          assert UntouchedFrom(before, i + 1, tid);
        }
      }
    }
  }

  // ---------- the table's reaction to an event ----------

  /** The table after wait_and_report has dealt with an event. A clone inserts a row only if there is none. */
  function Recorded(t: Table, e: Event): Table {
    match e
    case Gone(tid) => t - {tid}
    case Stop(tid, signal, clone) =>
      var t' := t[tid := Row(tid, true, signal)];
      if clone.Some? && clone.value !in t' then t'[clone.value := Row(clone.value, false, 0)] else t'
  }

  /** The rows after an event: a clone announced has one, not stopped if it is new; no other thread's row changes. */
  lemma RecordedRows(t: Table, e: Event)
    ensures match e
            case Gone(tid) => tid !in Recorded(t, e) && forall u | u != tid :: SameRow(t, Recorded(t, e), u)
            case Stop(tid, signal, clone) =>
              && tid in Recorded(t, e) && Recorded(t, e)[tid] == Row(tid, true, signal)
              && (forall u | u != tid && clone != Some(u) :: SameRow(t, Recorded(t, e), u))
              && (clone.Some? && clone.value != tid ==>
                    && clone.value in Recorded(t, e)
                    && (if clone.value in t then Recorded(t, e)[clone.value] == t[clone.value]
                        else !Recorded(t, e)[clone.value].stopped && Recorded(t, e)[clone.value].tid == clone.value))
  {
  }

  predicate SameRow(t: Table, t': Table, tid: Tid) {
    (tid in t <==> tid in t') && (tid in t ==> t'[tid] == t[tid])
  }

  /** A child's first stop and its parent's clone stop may arrive in either order; the table ends the same. */
  lemma ChildRowInEitherOrder(t: Table, parent: Tid, child: Tid, parentSignal: int, childSignal: int)
    requires parent != child
    ensures var announced := Stop(parent, parentSignal, Some(child));
            var first := Stop(child, childSignal, None);
            && Recorded(Recorded(t, announced), first) == Recorded(Recorded(t, first), announced)
            && Recorded(Recorded(t, announced), first)[child] == Row(child, true, childSignal)
  {
    var announced, first := Stop(parent, parentSignal, Some(child)), Stop(child, childSignal, None);
    var p := Row(parent, true, parentSignal);
    var c := Row(child, true, childSignal);
    assert Recorded(Recorded(t, first), announced) == t[child := c][parent := p];
    assert Recorded(Recorded(t, announced), first) == t[parent := p][child := c];
  }

  // ---------- the kernel ----------

  class Kernel {
    var stopped: set<Tid>   // reported stopped, not resumed since
    var running: set<Tid>   // every other live thread
    ghost var log: seq<Entry>
    ghost var refused: nat  // requests turned down, and waits in vain

    ghost predicate Valid()
      reads this
    {
      && stopped !! running
      && stopped == StoppedAfter(log)
    }

    /** The first thread, stopped after exec. */
    constructor (child: Tid)
      ensures Valid() && stopped == {child}
    {
      stopped, running, log, refused := {child}, {}, [Reported(Stop(child, SIGTRAP, None))], 0;
      new;
      assert log[..0] == [];
    }

    /** Any request that inspects or alters a thread. It can succeed only on a stopped one. */
    method Request(tid: Tid) returns (ok: Outcome)
      modifies `refused
      ensures ok == Ok ==> tid in stopped
      ensures refused == old(refused) + if ok == Ok then 0 else 1
    {
      if tid in stopped {
        if * {
          return Ok;
        }
      }
      refused := refused + 1;
      ok := Thrown;
    }

    /** PTRACE_CONT or PTRACE_SINGLESTEP. The debugger must never ask this of a running thread. */
    method Resume(tid: Tid, ghost how: How) returns (ok: Outcome)
      requires Valid() && tid in stopped
      modifies this
      ensures Valid()
      ensures ok == Ok ==> stopped == old(stopped) - {tid} && log == old(log) + [Resumed(tid, how)]
      ensures ok == Thrown ==> stopped == old(stopped) && running == old(running) && log == old(log)
      ensures refused == old(refused) + if ok == Ok then 0 else 1
    {
      if * {
        refused := refused + 1;
        return Thrown;
      }
      stopped, running, log := stopped - {tid}, running + {tid}, log + [Resumed(tid, how)];
      assert log[..|log| - 1] == old(log);
      ok := Ok;
    }

    /**
     * waitpid(-1). Running threads may meanwhile have cloned others. The event is any that a running thread can
     * cause; None stands for a call that fails, or that never returns because nothing is running.
     */
    method Wait() returns (e: Option<Event>)
      requires Valid()
      modifies this
      ensures Valid()
      ensures e.None? ==> stopped == old(stopped) && log == old(log)
      ensures e.Some? ==> e.value.tid !in old(stopped) && e.value.tid !in running
      ensures e.Some? ==>
                && stopped == old(stopped) + (if e.value.Stop? then {e.value.tid} else {})
                && log == old(log) + [Reported(e.value)]
      ensures refused == old(refused) + if e.Some? then 0 else 1
    {
      var born: set<Tid> := *;
      running := running + (born - stopped);
      if running == {} {
        refused := refused + 1;
        return None;
      }
      if * {
        refused := refused + 1;
        return None;
      }
      var tid :| tid in running;
      running := running - {tid};
      if * {
        e := Some(Gone(tid));
      } else {
        var signal: int := *;
        var clone: Option<Tid> := *;
        stopped := stopped + {tid};
        e := Some(Stop(tid, signal, clone));
      }
      log := log + [Reported(e.value)];
      assert log[..|log| - 1] == old(log);
    }
  }

  // ---------- the debugger's side ----------

  /** After the first i entries no thread was stopped. */
  ghost predicate Idle(log: seq<Entry>, i: int) {
    0 <= i <= |log| && StoppedAfter(log[..i]) == {}
  }

  const SIGTRAP: int := 5
  const SIGSTOP: int := 19
  const STEP_LIMIT: nat := 100000

  class ThreadControl {
    const kernel: Kernel
    const child: Tid
    var threads: Table
    var selected: Tid
    var alive: bool

    constructor (kernel: Kernel, child: Tid, signal: int)
      requires kernel.Valid() && kernel.stopped == {child}
      ensures this.kernel == kernel && this.child == child && selected == child && alive
      ensures Agrees()
    {
      this.kernel, this.child := kernel, child;
      threads, selected, alive := map[child := Row(child, true, signal)], child, true;
    }

    /** The rows marked stopped are exactly the threads the kernel has reported stopped. */
    ghost predicate Agrees()
      reads this, kernel
    {
      && kernel.Valid()
      && forall tid :: tid in kernel.stopped <==> tid in threads && threads[tid].stopped
    }

    /** Every thread stopped before, other than the one then selected, is stopped now, and was not selected since. */
    ghost predicate KeepsPaused(before: set<Tid>, selectedBefore: Tid)
      reads this, kernel
    {
      && before - {selectedBefore} <= kernel.stopped
      && selected !in before - {selectedBefore}
    }

    /** An exception comes of a refusal; a refusal may be swallowed. */
    ghost predicate Refusals(ok: Outcome, before: nat)
      reads kernel
    {
      kernel.refused >= before && (ok == Thrown ==> kernel.refused > before)
    }

    method ResumeThread(tid: Tid, ghost how: How) returns (ok: Outcome)
      requires Agrees()
      modifies this`threads, kernel
      ensures Agrees()
      ensures threads.Keys == old(threads).Keys
      ensures ok == Ok ==> kernel.stopped == old(kernel.stopped) - {tid}
      ensures ok == Thrown ==> kernel.stopped == old(kernel.stopped)
      ensures kernel.refused == old(kernel.refused) + if ok == Ok then 0 else 1
      ensures kernel.log == old(kernel.log) +
                              if ok == Ok && tid in old(kernel.stopped) then [Resumed(tid, how)] else []
    {
      if tid !in threads || !threads[tid].stopped {
        return Ok;
      }
      ok := kernel.Resume(tid, how);
      if ok == Ok {
        threads := threads[tid := threads[tid].(stopped := false, signal := 0)];
      }
    }

    /**
     * Whether an enabled breakpoint is at the pc, and whether disarming and arming it succeed, is left open.
     * The event that follows the single step may belong to any thread; if another thread's stop comes first,
     * arming again is attempted through the selected thread, which is running, and throws.
     */
    method StepOverBreakpoint() returns (ok: Outcome)
      requires Agrees()
      modifies this`threads, kernel
      ensures Agrees()
      ensures KeepsPaused(old(kernel.stopped), old(selected))
      ensures selected == old(selected)
      ensures forall e: Event |
                kernel.log == old(kernel.log) + [Resumed(selected, SingleStep), Reported(e)] &&
                e.Stop? && e.tid != selected ::
                ok == Thrown
      ensures Refusals(ok, old(kernel.refused)) && old(kernel.log) <= kernel.log
      ensures kernel.log == old(kernel.log) || ResumedFirst(old(kernel.log), selected, SingleStep)
      ensures OnlyBy(kernel.log, |old(kernel.log)|, SingleStep)
      ensures kernel.log == old(kernel.log) ==> kernel.stopped == old(kernel.stopped)
    {
      ok := kernel.Request(selected);  // pc
      if ok == Thrown {
        return;
      }
      if * {
        return;  // no enabled breakpoint there
      }
      var disarmed := kernel.Request(selected);
      if disarmed == Thrown {
        ok := Thrown;
        return;
      }
      ok := kernel.Resume(selected, SingleStep);
      if ok == Thrown {
        return;
      }
      threads := threads[selected := threads[selected].(stopped := false)];
      ok := AwaitStep();
    }

    /** The rest of step_over_breakpoint, once the selected thread has been let go on. */
    method AwaitStep() returns (ok: Outcome)
      requires Agrees() && selected !in kernel.stopped
      modifies this`threads, kernel
      ensures Agrees() && Refusals(ok, old(kernel.refused))
      ensures old(kernel.stopped) <= kernel.stopped
      ensures kernel.log == old(kernel.log) ||
              exists e :: kernel.log == old(kernel.log) + [Reported(e)]
      ensures forall e: Event | kernel.log == old(kernel.log) + [Reported(e)] && e.Stop? && e.tid != selected ::
                ok == Thrown
    {
      var e := kernel.Wait();
      if e.None? {
        return Thrown;
      }
      ok := Ok;
      var tid := e.value.tid;
      threads := threads[tid := Row(tid, e.value.Stop?, if e.value.Stop? then e.value.signal else 0)];
      if e.value.Stop? {
        ok := kernel.Request(selected);  // arming again
        if tid != selected {
          assert ok == Thrown;  // through a running thread, so the selection never moves to tid
        }
      }
    }

    /** `e` is the event, if one arrived. */
    method WaitAndReport() returns (ok: Outcome, e: Option<Event>)
      requires Agrees()
      modifies this`threads, this`selected, this`alive, kernel
      ensures Agrees()
      ensures e.None? ==>
                && ok == Thrown && threads == old(threads)
                && kernel.stopped == old(kernel.stopped) && selected == old(selected) && kernel.log == old(kernel.log)
      ensures e.Some? ==>
                && kernel.log == old(kernel.log) + [Reported(e.value)]
                && selected == e.value.tid && e.value.tid !in old(kernel.stopped)
                && kernel.stopped == old(kernel.stopped) + if e.value.Stop? then {e.value.tid} else {}
      ensures e.Some? && ok == Ok ==> threads == Recorded(old(threads), e.value)
      ensures alive <==> old(alive) && (e.Some? && e.value.Gone? ==> e.value.tid != child)
      ensures Refusals(ok, old(kernel.refused))
    {
      e := kernel.Wait();
      if e.None? {
        return Thrown, e;
      }
      var tid := e.value.tid;
      selected := tid;
      if e.value.Gone? {
        threads := threads - {tid};
        if tid == child {
          alive := false;
        }
        return Ok, e;
      }
      ok := RecordStop(tid, e.value.signal, e.value.clone);
    }

    /** The rest of wait_and_report, for a stop. */
    method RecordStop(tid: Tid, signal: int, clone: Option<Tid>) returns (ok: Outcome)
      requires kernel.Valid() && tid in kernel.stopped
      requires forall t | t != tid :: t in kernel.stopped <==> t in threads && threads[t].stopped
      modifies this`threads, kernel`refused
      ensures Agrees() && Refusals(ok, old(kernel.refused))
      ensures ok == Ok ==> threads == Recorded(old(threads), Stop(tid, signal, clone))
    {
      threads := threads[tid := Row(tid, true, signal)];
      if clone.Some? {
        ok := kernel.Request(tid);  // PTRACE_GETEVENTMSG
        if ok == Thrown {
          return;
        }
        if clone.value !in threads {
          threads := threads[clone.value := Row(clone.value, false, 0)];
        }
      }
      if signal == SIGSTOP {
        var options := kernel.Request(tid);  // options and watchpoints; failures are swallowed
      }
      ok := kernel.Request(tid);  // modules and pending breakpoints
    }

    /** In the log of a command there came a moment with no thread stopped, and then at most one event, now selected. */
    ghost predicate WaitedSince(before: seq<Entry>)
      reads this, kernel
    {
      exists i {:trigger Idle(kernel.log, i)} ::
        && |before| <= i <= |kernel.log| && Idle(kernel.log, i)
        && (i == |kernel.log| ||
            (i + 1 == |kernel.log| && kernel.log[i].Reported? && kernel.log[i].event.tid == selected))
    }

    /** Resume every stopped thread, then wait. `waited` says that it came to that. */
    method ContinueExecution() returns (ok: Outcome, waited: bool)
      requires Agrees()
      modifies this, kernel
      ensures Agrees() && Refusals(ok, old(kernel.refused)) && old(kernel.log) <= kernel.log
      ensures waited ==> kernel.stopped <= {selected} && WaitedSince(old(kernel.log))
      ensures kernel.refused == old(kernel.refused) ==> (waited <==> old(alive))
      ensures ok == Ok ==> (waited <==> old(alive))
      ensures !waited ==> selected == old(selected) && alive == old(alive)
    {
      waited := false;
      if !alive {
        return Ok, waited;
      }
      ok := StepOverBreakpoint();
      if ok == Thrown {
        return;
      }
      ok := ResumeAll();
      if ok == Thrown {
        return;
      }
      waited := true;
      ghost var log := kernel.log;
      assert log[..|log|] == log;
      var e;
      ok, e := WaitAndReport();
      assert kernel.log[..|log|] == log;
      assert Idle(kernel.log, |log|);
    }

    /** The loop of continue_execution. */
    method ResumeAll() returns (ok: Outcome)
      requires Agrees()
      modifies this`threads, kernel
      ensures Agrees() && Refusals(ok, old(kernel.refused)) && old(kernel.log) <= kernel.log
      ensures kernel.stopped <= old(kernel.stopped)
      ensures ok == Ok ==> kernel.stopped == {}
      ensures OnlyBy(kernel.log, |old(kernel.log)|, Cont)
      ensures ok == Ok ==> kernel.refused == old(kernel.refused)
    {
      var left := threads.Keys;
      while left != {}
        invariant Agrees() && kernel.refused == old(kernel.refused) && old(kernel.log) <= kernel.log
        invariant OnlyBy(kernel.log, |old(kernel.log)|, Cont)
        invariant kernel.stopped <= left <= threads.Keys && kernel.stopped <= old(kernel.stopped)
      {
        var tid :| tid in left;
        if threads[tid].stopped {
          ok := ResumeThread(tid, Cont);
          if ok == Thrown {
            return;
          }
        }
        left := left - {tid};
      }
      ok := Ok;
    }

    /** A temporary breakpoint at the return address, made through the selected thread, and continue. */
    method StepOut() returns (ok: Outcome, waited: bool)
      requires Agrees()
      modifies this, kernel
      ensures Agrees() && Refusals(ok, old(kernel.refused)) && old(kernel.log) <= kernel.log
      ensures waited ==> kernel.stopped <= {selected} && WaitedSince(old(kernel.log))
      ensures kernel.refused == old(kernel.refused) ==> (waited <==> old(alive))
      ensures ok == Ok ==> (waited <==> old(alive))
    {
      waited := false;
      ok := kernel.Request(selected);
      if ok == Ok {
        ok, waited := ContinueExecution();
      }
    }

    /** The log of the command ends with the event it waited for, whose thread is now selected. */
    ghost predicate OneEventSince(before: seq<Entry>)
      reads this, kernel
    {
      var n := |kernel.log|;
      && before < kernel.log && kernel.log[n - 1].Reported? && kernel.log[n - 1].event.tid == selected
    }

    /** The first thing a command asked of the kernel was to let this thread go on. */
    ghost predicate ResumedFirst(before: seq<Entry>, tid: Tid, how: How)
      reads kernel
    {
      before < kernel.log && kernel.log[|before|] == Resumed(tid, how)
    }

    method InstructionStep() returns (ok: Outcome)
      requires Agrees()
      modifies this, kernel
      ensures Agrees()
      ensures KeepsPaused(old(kernel.stopped), old(selected))
      ensures Refusals(ok, old(kernel.refused)) && old(kernel.log) <= kernel.log
      ensures ok == Ok && old(alive) ==> OneEventSince(old(kernel.log))
      ensures ok == Ok && old(alive) ==> old(selected) !in StoppedAfter(kernel.log[..|kernel.log| - 1])
      ensures ok == Ok && old(alive) && old(selected) in old(kernel.stopped) ==>
                ResumedFirst(old(kernel.log), old(selected), SingleStep)
      ensures OnlyBy(kernel.log, |old(kernel.log)|, SingleStep)
      ensures alive ==> old(alive)
    {
      if !alive {
        return Ok;
      }
      ok := StepOverBreakpoint();
      if ok == Thrown {
        return;
      }
      ok := ResumeThread(selected, SingleStep);
      if ok == Thrown {
        return;
      }
      var e;
      ok, e := WaitAndReport();
    }

    /** Whether and when the source location changes is left open. */
    method SourceStep() returns (ok: Outcome)
      requires Agrees()
      modifies this, kernel
      ensures Agrees()
      ensures KeepsPaused(old(kernel.stopped), old(selected))
      ensures Refusals(ok, old(kernel.refused)) && old(kernel.log) <= kernel.log
      ensures ok == Ok && old(alive) ==> OneEventSince(old(kernel.log))
      ensures ok == Ok && old(alive) ==> ResumedFirst(old(kernel.log), old(selected), SingleStep)
      ensures OnlyBy(kernel.log, |old(kernel.log)|, SingleStep)
    {
      ok := kernel.Request(selected);
      if ok == Thrown {
        return;
      }
      if * {
        ok := InstructionStep();
        return;
      }
      for count := 0 to STEP_LIMIT
        invariant Agrees() && KeepsPaused(old(kernel.stopped), old(selected))
        invariant kernel.refused >= old(kernel.refused) && old(kernel.log) <= kernel.log
        invariant count == 0 ==>
                    alive == old(alive) && selected == old(selected) && kernel.log == old(kernel.log)
        invariant count > 0 ==>
                    && alive && OneEventSince(old(kernel.log))
                    && ResumedFirst(old(kernel.log), old(selected), SingleStep)
        invariant OnlyBy(kernel.log, |old(kernel.log)|, SingleStep)
        invariant count == 0 ==> old(selected) in kernel.stopped
      {
        ok := InstructionStep();
        if ok == Thrown || !alive {
          return;
        }
        ok := kernel.Request(selected);
        if ok == Thrown {
          return;
        }
        if * {
          return;
        }
      }
      ok := Ok;
    }

    /** The `thread` command. */
    method Select(tid: Tid)
      requires Agrees()
      modifies this`selected
      ensures selected == if tid in kernel.stopped then tid else old(selected)
    {
      if tid in threads && threads[tid].stopped {
        selected := tid;
      }
    }

    /** Any sequence of commands, against any behaviour of the kernel, ends with table and kernel in agreement. */
    method Session(commands: seq<Command>)
      requires Agrees()
      modifies this, kernel
      ensures Agrees()
      ensures forall tid :: (tid in threads && threads[tid].stopped) <==> StoppedSince(kernel.log, tid)
    {
      for i := 0 to |commands|
        invariant Agrees()
      {
        var ok, waited;
        match commands[i] {
          case Continue => ok, waited := ContinueExecution();
          case Finish => ok, waited := StepOut();
          case Edit => ok := kernel.Request(selected);
          case StepI => ok := InstructionStep();
          case Step => ok := SourceStep();
          case Select(tid) => Select(tid);
        }
      }
      forall tid ensures tid in kernel.stopped <==> StoppedSince(kernel.log, tid) {
        StoppedAfterMeansStoppedSince(kernel.log, tid);
      }
    }
  }

  /** `Edit` stands for the commands that only inspect or alter the selected thread's memory. */
  datatype Command = Continue | StepI | Step | Finish | Edit | Select(tid: Tid)
}
