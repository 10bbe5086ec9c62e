// AArch64 hardware watchpoints: sixteen pairs of an address and a control register, fetched and stored together.
module WatchArm {
  import opened Common
  import opened WatchX86

  datatype Register = Register(address: Address, control: bv32, padding: bv32)

  /** The NT_ARM_HW_WATCH register set of a thread. */
  datatype HardwareDebugState = HardwareDebugState(info: bv32, registers: seq<Register>)

  predicate Complete(s: HardwareDebugState) {
    |s.registers| == 16
  }

  const UNUSED := Register(0, 0, 0)

  // ---------- what a control word means ----------

  predicate Enabled(control: bv32) {
    control & 1 == 1
  }

  predicate UserOnly(control: bv32) {
    (control >> 1) & 3 == 2
  }

  predicate OnLoad(control: bv32) {
    (control >> 3) & 1 == 1
  }

  predicate OnStore(control: bv32) {
    (control >> 4) & 1 == 1
  }

  /** The byte-select field, one bit for each of eight bytes. */
  function Selected(control: bv32): bv32 {
    (control >> 5) & 0xff
  }

  /** The first `bytes` bytes. */
  function FirstBytes(bytes: nat): bv32 {
    match bytes
    case 1 => 0x01
    case 2 => 0x03
    case 4 => 0x0f
    case _ => 0xff
  }

  predicate ValidSize(bytes: nat) {
    bytes in {1, 2, 4, 8}
  }

  /** Unlike on x86-64 the address need not be aligned, there are sixteen slots, and loads can be watched alone. */
  predicate EffectiveHere(q: Request) {
    q.slot < 16 && (q.Configure? ==> ValidSize(q.bytes))
  }

  /** The register meets the request: exactly the accesses asked for, on exactly the bytes asked for. */
  predicate Meets(r: Register, q: Request) {
    match q
    case Clear(_) => r == UNUSED
    case Configure(_, address, access, bytes) =>
      && r.address == address
      && Enabled(r.control) && UserOnly(r.control)
      && (OnLoad(r.control) <==> access != Write)
      && (OnStore(r.control) <==> access != Read)
      && Selected(r.control) == FirstBytes(bytes)
      && r.control & 0xffff_e000 == 0
  }

  /** The state before and after a request that met no refusal. */
  ghost predicate Done(s: HardwareDebugState, q: Request, s': HardwareDebugState) {
    && Complete(s) && Complete(s') && s'.info == s.info
    && (forall i | 0 <= i < 16 && !(EffectiveHere(q) && i == q.slot) :: s'.registers[i] == s.registers[i])
    && (EffectiveHere(q) ==> Meets(s'.registers[q.slot], q))
  }

  /** The word configure_watchpoint stores. */
  function ControlWord(access: Access, bytes: nat): bv32
    requires ValidSize(bytes)
  {
    var mask: bv32 := match bytes
      case 1 => (1 << 1) - 1
      case 2 => (1 << 2) - 1
      case 4 => (1 << 4) - 1
      case _ => (1 << 8) - 1;
    var kind: bv32 := if access == Write then 2 else if access == Read then 1 else 3;
    1 | (2 << 1) | (kind << 3) | (mask << 5)
  }

  lemma ControlWordMeets(slot: nat, address: Address, access: Access, bytes: nat, padding: bv32)
    requires ValidSize(bytes)
    ensures Meets(Register(address, ControlWord(access, bytes), padding), Configure(slot, address, access, bytes))
  {
    match bytes { case 1 => case 2 => case 4 => case _ => }
  }

  // ---------- histories ----------

  /** The last effective request on a slot. */
  function LastRequest(history: seq<Request>, slot: nat): Option<Request> {
    if history == [] then None
    else
      var q := history[|history| - 1];
      if EffectiveHere(q) && q.slot == slot then Some(q) else LastRequest(history[..|history| - 1], slot)
  }

  /** After any history each slot meets the last effective request on it, or holds what it held at first. */
  lemma {:induction false} HistoryMeets(states: seq<HardwareDebugState>, history: seq<Request>, slot: nat)
    requires |states| == |history| + 1 && slot < 16
    requires Complete(states[0])
    requires forall i | 0 <= i < |history| :: Done(states[i], history[i], states[i + 1])
    ensures var n := |history|;
            && Complete(states[n]) && states[n].info == states[0].info
            && match LastRequest(history, slot)
               case Some(q) => Meets(states[n].registers[slot], q)
               case None => states[n].registers[slot] == states[0].registers[slot]
  {
    if history != [] {
      var n := |history| - 1;
      forall i | 0 <= i < n ensures Done(states[..n + 1][i], history[..n][i], states[..n + 1][i + 1]) {
        assert Done(states[i], history[i], states[i + 1]);
      }
      HistoryMeets(states[..n + 1], history[..n], slot);
      assert Done(states[n], history[n], states[n + 1]);
    }
  }

  // ---------- the kernel's register sets, and the two operations ----------

  /** Bit i + 5 of a control word: the processor watches byte i from the address on. */
  predicate WatchesByte(control: bv32, i: nat) {
    match i
    case 0 => control & 0x0020 != 0
    case 1 => control & 0x0040 != 0
    case 2 => control & 0x0080 != 0
    case 3 => control & 0x0100 != 0
    case 4 => control & 0x0200 != 0
    case 5 => control & 0x0400 != 0
    case 6 => control & 0x0800 != 0
    case 7 => control & 0x1000 != 0
    case _ => false
  }

  /** A register that meets a request watches exactly the bytes and accesses asked for. */
  lemma MeetsWatches(r: Register, q: Request, i: nat)
    requires Meets(r, q) && EffectiveHere(q)
    ensures q.Configure? ==>
              && r.address == q.address && r.control & 0x1 != 0
              && (WatchesByte(r.control, i) <==> i < q.bytes)
              && (r.control & 0x08 != 0 <==> q.access != Write)
              && (r.control & 0x10 != 0 <==> q.access != Read)
    ensures q.Clear? ==> r.control & 0x1 == 0 && !WatchesByte(r.control, i)
  {
    if q.Configure? {
      SelectedBits(r.control, q.bytes, i);
      AccessBits(r.control);
    }
  }

  lemma SelectedBits(control: bv32, bytes: nat, i: nat)
    requires ValidSize(bytes) && Selected(control) == FirstBytes(bytes)
    ensures WatchesByte(control, i) <==> i < bytes
  {
    match bytes { case 1 => case 2 => case 4 => case _ => }
  }

  lemma AccessBits(control: bv32)
    ensures Enabled(control) <==> control & 0x1 != 0
    ensures OnLoad(control) <==> control & 0x08 != 0
    ensures OnStore(control) <==> control & 0x10 != 0
  {
  }

  /** The requests acted on: sixteen slots and four sizes. */
  lemma EffectiveHereMeans(slot: nat, address: Address, access: Access, bytes: nat)
    ensures EffectiveHere(Configure(slot, address, access, bytes)) <==>
              slot < 16 && (bytes == 1 || bytes == 2 || bytes == 4 || bytes == 8)
    ensures EffectiveHere(Clear(slot)) <==> slot < 16
  {
  }

  class WatchFile {
    var states: map<nat, HardwareDebugState>   // by thread
    ghost var refused: nat                     // requests the kernel has turned down

    ghost predicate Valid()
      reads this
    {
      forall tid | tid in states :: Complete(states[tid])
    }

    constructor (states: map<nat, HardwareDebugState>)
      requires forall tid | tid in states :: Complete(states[tid])
      ensures Valid() && this.states == states && refused == 0
    {
      this.states := states;
      refused := 0;
    }

    /** PTRACE_GETREGSET and PTRACE_SETREGSET; either may be refused, and then nothing has changed. */
    method Fetch(tid: nat) returns (s: Option<HardwareDebugState>)
      modifies `refused
      ensures s.Some? ==> tid in states && s.value == states[tid]
      ensures refused == old(refused) + if s.Some? then 0 else 1
    {
      if tid in states {
        if * {
          return Some(states[tid]);
        }
      }
      refused := refused + 1;
      s := None;
    }

    method Store(tid: nat, s: HardwareDebugState) returns (ok: Outcome)
      requires Valid() && Complete(s)
      modifies this
      ensures Valid()
      ensures ok == Ok ==> tid in old(states) && states == old(states)[tid := s]
      ensures ok == Thrown ==> states == old(states)
      ensures refused == old(refused) + if ok == Ok then 0 else 1
    {
      if tid in states {
        if * {
          states := states[tid := s];
          return Ok;
        }
      }
      refused := refused + 1;
      ok := Thrown;
    }

    method ConfigureWatchpoint(tid: nat, slot: nat, address: Address, access: Access, bytes: nat) returns (ok: Outcome)
      requires Valid()
      modifies this
      ensures Valid() && refused >= old(refused)
      ensures ok == Ok ==> Changed(old(states), Configure(slot, address, access, bytes), tid, states)
      ensures ok == Ok ==> EffectiveHere(Configure(slot, address, access, bytes))
      ensures ok == Thrown ==> states == old(states)
      ensures refused == old(refused) ==> (ok == Thrown <==> !EffectiveHere(Configure(slot, address, access, bytes)))
    {
      if slot >= 16 {
        return Thrown;
      }
      if bytes != 1 && bytes != 2 && bytes != 4 && bytes != 8 {
        return Thrown;
      }
      var fetched := Fetch(tid);
      if fetched.None? {
        return Thrown;
      }
      var s := fetched.value;
      var r := s.registers[slot].(address := address, control := ControlWord(access, bytes));
      ControlWordMeets(slot, address, access, bytes, r.padding);
      ok := Store(tid, s.(registers := s.registers[slot := r]));
    }

    method ClearWatchpoint(tid: nat, slot: nat) returns (ok: Outcome)
      requires Valid()
      modifies this
      ensures Valid() && refused >= old(refused)
      ensures ok == Ok ==> Changed(old(states), Clear(slot), tid, states)
      ensures ok == Thrown ==> states == old(states)
      ensures refused == old(refused) <==> ok == Ok
    {
      var fetched := Fetch(tid);
      if fetched.None? {
        return Thrown;
      }
      var s := fetched.value;
      if slot < 16 {
        ok := Store(tid, s.(registers := s.registers[slot := UNUSED]));
      } else {
        ok := Ok;
      }
    }

    /** One request; a malformed one throws and changes nothing. */
    method Perform(tid: nat, q: Request) returns (ok: Outcome)
      requires Valid() && tid in states
      modifies this
      ensures Valid() && tid in states && refused >= old(refused)
      ensures refused == old(refused) ==> Done(old(states)[tid], q, states[tid])
    {
      match q {
        case Configure(slot, address, access, bytes) => ok := ConfigureWatchpoint(tid, slot, address, access, bytes);
        case Clear(slot) => ok := ClearWatchpoint(tid, slot);
      }
    }

    /** Any sequence of requests on a thread, from any registers, of which the kernel refuses none. */
    method PerformAll(tid: nat, history: seq<Request>)
      requires Valid() && tid in states
      modifies this
      ensures Valid() && tid in states && refused >= old(refused)
      ensures refused == old(refused) ==>
                forall slot: nat | slot < 16 ::
                  match LastRequest(history, slot)
                  case Some(q) => Meets(states[tid].registers[slot], q)
                  case None => states[tid].registers[slot] == old(states)[tid].registers[slot]
    {
      ghost var trace := [states[tid]];
      for i := 0 to |history|
        invariant Valid() && tid in states && refused >= old(refused)
        invariant refused == old(refused) ==>
                    && |trace| == i + 1 && trace[0] == old(states)[tid] && trace[i] == states[tid]
                    && forall j | 0 <= j < i :: Done(trace[j], history[j], trace[j + 1])
      {
        var ok := Perform(tid, history[i]);
        trace := trace + [states[tid]];
      }
      if refused == old(refused) {
        forall slot: nat | slot < 16
          ensures match LastRequest(history, slot)
                  case Some(q) => Meets(states[tid].registers[slot], q)
                  case None => states[tid].registers[slot] == old(states)[tid].registers[slot]
        {
          HistoryMeets(trace, history, slot);
        }
      }
    }
  }

  /** Only the one thread's state has changed, as the request asks. */
  ghost predicate Changed(before: map<nat, HardwareDebugState>, q: Request, tid: nat,
                          now: map<nat, HardwareDebugState>) {
    tid in before && tid in now && now == before[tid := now[tid]] && Done(before[tid], q, now[tid])
  }
}
