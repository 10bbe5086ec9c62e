// The traced process and the ptrace requests the debugger makes of it. The kernel may refuse any
// request; `refused` counts refusals so that contracts can speak of runs without one.
module Ptrace {
  import opened Common
  import opened TargetMemory
  import opened Words
  import opened Architecture
  import opened Machine
  import opened Stops

  class Tracee {
    const arch: Arch
    const isa: Isa
    var mem: Memory
    var cpu: Cpu
    var refused: nat
    ghost var executed: nat     // instructions of the program executed so far
    ghost var singleSteps: nat  // single-step requests answered so far
    ghost var resumptions: nat  // continue requests answered so far

    constructor (arch: Arch, isa: Isa, cpu: Cpu, mem: Memory)
      ensures this.arch == arch && this.isa == isa && this.cpu == cpu && this.mem == mem
      ensures executed == 0 && singleSteps == 0 && resumptions == 0
    {
      this.arch, this.isa, this.cpu, this.mem := arch, isa, cpu, mem;
      refused, executed, singleSteps, resumptions := 0, 0, 0, 0;
    }

    /** PTRACE_PEEKDATA. */
    method Peek(a: Address) returns (r: Option<Word>)
      modifies this`refused
      ensures refused >= old(refused)
      ensures r.Some? ==> refused == old(refused) && WordIs(mem, a, r.value)
      ensures r.None? ==> refused > old(refused)
    {
      if RangeMapped(mem, a, 8) {
        if * {
          var w := LoadWord(mem, a);
          return Some(w);
        }
      }
      refused := refused + 1;
      r := None;
    }

    /** PTRACE_POKEDATA. */
    method Poke(a: Address, w: Word) returns (ok: Outcome)
      modifies this`refused, this`mem
      ensures refused >= old(refused)
      ensures ok == Ok ==> refused == old(refused) && RangeMapped(old(mem), a, 8) && mem == Poked(old(mem), a, w)
      ensures ok == Thrown ==> refused > old(refused) && mem == old(mem)
    {
      if RangeMapped(mem, a, 8) {
        if * {
          mem := Poked(mem, a, w);
          return Ok;
        }
      }
      refused := refused + 1;
      ok := Thrown;
    }

    /** refresh_modules: /proc/PID/maps may be unreadable. What it finds is the business of the command's resolver. */
    method ReadMaps() returns (ok: Outcome)
      modifies this`refused
      ensures ok == Ok ==> refused == old(refused)
      ensures ok == Thrown ==> refused > old(refused)
    {
      if * {
        return Ok;
      }
      refused := refused + 1;
      ok := Thrown;
    }

    /** PTRACE_GETREGS or PTRACE_GETREGSET. */
    method ReadRegisters() returns (r: Option<Cpu>)
      modifies this`refused
      ensures refused >= old(refused)
      ensures r.Some? ==> refused == old(refused) && r.value == cpu
      ensures r.None? ==> refused > old(refused)
    {
      if * {
        return Some(cpu);
      }
      refused := refused + 1;
      r := None;
    }

    /** Read the registers, change the pc, and write them back; either request may be refused. */
    method SetPc(a: Address) returns (ok: Outcome)
      modifies this`refused, this`cpu
      ensures refused >= old(refused)
      ensures ok == Ok ==> refused == old(refused) && cpu == old(cpu).(pc := a)
      ensures ok == Thrown ==> refused > old(refused) && cpu == old(cpu)
    {
      if * {
        cpu := cpu.(pc := a);
        return Ok;
      }
      refused := refused + 1;
      ok := Thrown;
    }

    /** PTRACE_SINGLESTEP and the stop that answers it. */
    method SingleStep() returns (ok: Outcome)
      modifies this
      ensures refused >= old(refused)
      ensures ok == Thrown ==>
                refused > old(refused) && cpu == old(cpu) && mem == old(mem) && executed == old(executed)
      ensures singleSteps == old(singleSteps) + (if ok == Ok then 1 else 0) && resumptions == old(resumptions)
      ensures ok == Ok && TrapAt(arch, old(mem), old(cpu.pc)) ==>
                && refused == old(refused) && mem == old(mem) && executed == old(executed)
                && cpu == old(cpu).(pc := arch.AfterTrap(old(cpu.pc)))
      ensures ok == Ok && !TrapAt(arch, old(mem), old(cpu.pc)) ==>
                && refused == old(refused) && executed == old(executed) + 1
                && State(cpu, mem) == Next(isa, State(old(cpu), old(mem)))
    {
      if * {
        refused := refused + 1;
        return Thrown;
      }
      var trap := Decode(arch, mem, cpu.pc);
      if trap {
        cpu := cpu.(pc := arch.AfterTrap(cpu.pc));
      } else {
        var next := Next(isa, State(cpu, mem));
        cpu, mem, executed := next.cpu, next.mem, executed + 1;
      }
      singleSteps := singleSteps + 1;
      ok := Ok;
    }

    /**
     * PTRACE_CONT and the stop that answers it: the first trap, or a SIGSTOP after `patience` instructions, which
     * may catch the target on a breakpoint instruction before it is executed.
     */
    method Cont(patience: nat) returns (ok: Outcome, signal: Signal, ghost ran: nat)
      modifies this
      ensures refused >= old(refused)
      ensures ok == Thrown ==>
                && refused > old(refused) && ran == 0
                && cpu == old(cpu) && mem == old(mem) && executed == old(executed)
      ensures resumptions == old(resumptions) + (if ok == Ok then 1 else 0) && singleSteps == old(singleSteps)
      ensures ok == Ok ==>
                && refused == old(refused) && executed == old(executed) + ran
                && NoTrapBefore(isa, arch, old(State(cpu, mem)), ran)
                && var end := Run(isa, old(State(cpu, mem)), ran);
                && mem == end.mem
                && (signal == SIGTRAP ==> TrapAt(arch, end.mem, end.cpu.pc))
                && (if signal == SIGTRAP then ran < patience else ran == patience)
                && cpu == if signal == SIGTRAP then end.cpu.(pc := arch.AfterTrap(end.cpu.pc)) else end.cpu
    {
      ran := 0;
      signal := SIGSTOP;
      if * {
        refused := refused + 1;
        return Thrown, signal, ran;
      }
      var left := patience;
      var trap := Decode(arch, mem, cpu.pc);
      while left > 0 && !trap
        invariant trap <==> TrapAt(arch, mem, cpu.pc)
        invariant executed == old(executed) + ran && refused == old(refused)
        invariant singleSteps == old(singleSteps) && resumptions == old(resumptions)
        invariant State(cpu, mem) == Run(isa, old(State(cpu, mem)), ran)
        invariant NoTrapBefore(isa, arch, old(State(cpu, mem)), ran)
        invariant ran + left == patience
      {
        var next := Next(isa, State(cpu, mem));
        cpu, mem, executed := next.cpu, next.mem, executed + 1;
        left, ran := left - 1, ran + 1;
        trap := Decode(arch, mem, cpu.pc);
      }
      if left > 0 {
        signal := SIGTRAP;
        cpu := cpu.(pc := arch.AfterTrap(cpu.pc));
      }
      resumptions := resumptions + 1;
      ok := Ok;
    }
  }
}
