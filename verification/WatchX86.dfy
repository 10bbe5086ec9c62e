// x86-64 hardware watchpoints: the bit fields of debug register 7 and the four address registers.
module WatchX86 {
  import opened Common

  datatype Access = Read | Write | ReadWrite

  /** The debug registers of one thread: DR0 to DR3, and DR7. */
  datatype DebugRegisters = DebugRegisters(address: seq<Address>, control: bv64)

  predicate WellFormed(r: DebugRegisters) {
    |r.address| == 4
  }

  // ---------- the layout of DR7, by section 17.2.4 of the Intel SDM, Volume 3B ----------

  /** The three two-bit fields of a breakpoint: local and global enable, R/W, LEN. */
  datatype Kind = Enable | RW | LEN

  /** Breakpoint n: enable in bits 2n and 2n+1, R/W in bits 16+4n and 17+4n, LEN in bits 18+4n and 19+4n. */
  function Field(control: bv64, slot: nat, kind: Kind): bv64 {
    match kind
    case Enable => (
      match slot
      case 0 => control & 3
      case 1 => (control >> 2) & 3
      case 2 => (control >> 4) & 3
      case _ => (control >> 6) & 3)
    case RW => (
      match slot
      case 0 => (control >> 16) & 3
      case 1 => (control >> 20) & 3
      case 2 => (control >> 24) & 3
      case _ => (control >> 28) & 3)
    case LEN => (
      match slot
      case 0 => (control >> 18) & 3
      case 1 => (control >> 22) & 3
      case 2 => (control >> 26) & 3
      case _ => (control >> 30) & 3)
  }

  /** The bits that belong to no breakpoint. */
  const OTHER_BITS: bv64 := 0xffff_ffff_0000_ff00

  /** LEN encodings: 00 one byte, 01 two, 11 four, 10 eight. */
  function Length(bytes: nat): Option<bv64> {
    match bytes
    case 1 => Some(0)
    case 2 => Some(1)
    case 4 => Some(3)
    case 8 => Some(2)
    case _ => None
  }

  /** R/W encodings: 01 data writes, 11 data reads and writes. There is no read-only condition. */
  function AccessCode(access: Access): bv64 {
    if access == Write then 1 else 3
  }

  /** What a breakpoint is set to watch, read off the registers. */
  datatype Setting = Setting(enable: bv64, access: bv64, length: bv64, address: Address)

  function Decode(r: DebugRegisters, slot: nat): Setting
    requires WellFormed(r) && slot < 4
  {
    Setting(Field(r.control, slot, Enable), Field(r.control, slot, RW), Field(r.control, slot, LEN), r.address[slot])
  }

  // ---------- requests ----------

  datatype Request =
    | Configure(slot: nat, address: Address, access: Access, bytes: nat)
    | Clear(slot: nat)

  predicate NaturallyAligned(address: Address, bytes: nat) {
    match bytes
    case 2 => address % 2 == 0
    case 4 => address % 4 == 0
    case 8 => address % 8 == 0
    case _ => true
  }

  /** The requests that reach the registers. The others throw or, for Clear, do nothing. */
  predicate Effective(q: Request) {
    q.slot < 4 && (q.Configure? ==> Length(q.bytes).Some? && NaturallyAligned(q.address, q.bytes))
  }

  /** What a request asks of its slot. */
  function Wanted(q: Request): Setting
    requires Effective(q)
  {
    if q.Clear? then Setting(0, 0, 0, 0)
    else Setting(1, AccessCode(q.access), Length(q.bytes).value, q.address)
  }

  // Facts about bits are stated so that they unfold only where a lemma mentions Look of the word concerned.
  // Elsewhere the solver treats them as plain names and does not turn them into circuits.

  ghost predicate Look(control: bv64) {
    true
  }

  ghost predicate FieldIs(control: bv64, slot: nat, kind: Kind, value: bv64) {
    forall c {:trigger Look(c)} :: Look(c) && c == control ==> Field(c, slot, kind) == value
  }

  ghost predicate SlotIs(control: bv64, slot: nat, enable: bv64, access: bv64, length: bv64) {
    FieldIs(control, slot, Enable, enable) && FieldIs(control, slot, RW, access) && FieldIs(control, slot, LEN, length)
  }

  ghost predicate SlotKept(before: bv64, control: bv64, slot: nat) {
    SlotIs(control, slot, Field(before, slot, Enable), Field(before, slot, RW), Field(before, slot, LEN))
  }

  ghost predicate OthersKept(before: bv64, control: bv64, slot: nat) {
    forall other: nat {:trigger SlotKept(before, control, other)} | other < 4 && other != slot ::
      SlotKept(before, control, other)
  }

  ghost predicate RestKept(before: bv64, control: bv64) {
    forall c {:trigger Look(c)} :: Look(c) && c == control ==> c & OTHER_BITS == before & OTHER_BITS
  }

  /** The registers before and after a request that met no refusal. */
  ghost predicate Fulfils(r: DebugRegisters, q: Request, r': DebugRegisters)
    requires WellFormed(r)
  {
    && WellFormed(r')
    && if !Effective(q) then r' == r
       else
         var w := Wanted(q);
         && SlotIs(r'.control, q.slot, w.enable, w.access, w.length)
         && r'.address == r.address[q.slot := w.address]
         && OthersKept(r.control, r'.control, q.slot)
         && RestKept(r.control, r'.control)
  }

  lemma FieldRead(control: bv64, slot: nat, kind: Kind, value: bv64)
    requires FieldIs(control, slot, kind, value)
    ensures Field(control, slot, kind) == value
  {
    assert Look(control);
  }

  /** A fulfilled request sets its own slot to what it asks for. */
  lemma OwnSlot(r: DebugRegisters, q: Request, r': DebugRegisters)
    requires WellFormed(r) && Fulfils(r, q, r') && Effective(q)
    ensures Decode(r', q.slot) == Wanted(q)
  {
    var w := Wanted(q);
    FieldRead(r'.control, q.slot, Enable, w.enable);
    FieldRead(r'.control, q.slot, RW, w.access);
    FieldRead(r'.control, q.slot, LEN, w.length);
  }

  lemma SlotKeptRead(before: bv64, control: bv64, slot: nat)
    requires SlotKept(before, control, slot)
    ensures forall kind :: Field(control, slot, kind) == Field(before, slot, kind)
  {
    forall kind ensures Field(control, slot, kind) == Field(before, slot, kind) {
      FieldRead(control, slot, kind, Field(before, slot, kind));
    }
  }

  /** And it leaves every other slot alone. */
  lemma OtherSlot(r: DebugRegisters, q: Request, r': DebugRegisters, slot: nat)
    requires WellFormed(r) && Fulfils(r, q, r') && slot < 4 && (Effective(q) ==> q.slot != slot)
    ensures Decode(r', slot) == Decode(r, slot)
  {
    if Effective(q) {
      assert SlotKept(r.control, r'.control, slot);
      SlotKeptRead(r.control, r'.control, slot);
    }
  }

  lemma RestRead(before: bv64, control: bv64)
    requires RestKept(before, control)
    ensures control & OTHER_BITS == before & OTHER_BITS
  {
    assert Look(control);
  }

  /** Nor does it touch a bit that belongs to no breakpoint. */
  lemma OtherBits(r: DebugRegisters, q: Request, r': DebugRegisters)
    requires WellFormed(r) && Fulfils(r, q, r')
    ensures r'.control & OTHER_BITS == r.control & OTHER_BITS
  {
    if Effective(q) {
      RestRead(r.control, r'.control);
    }
  }

  // ---------- what the processor watches ----------

  /** Bits 0 and 1, 2 and 3, 4 and 5, 6 and 7: breakpoint n is on, locally or globally. */
  predicate IsOn(control: bv64, slot: nat) {
    match slot
    case 0 => control & 0x03 != 0
    case 1 => control & 0x0c != 0
    case 2 => control & 0x30 != 0
    case _ => control & 0xc0 != 0
  }

  /** The four bits of breakpoint n above bit 15: R/W in the lower two, LEN in the upper two. */
  function Condition(control: bv64, slot: nat): bv64 {
    match slot
    case 0 => control & 0xf_0000
    case 1 => (control & 0xf0_0000) >> 4
    case 2 => (control & 0xf00_0000) >> 8
    case _ => (control & 0xf000_0000) >> 12
  }

  /** R/W 01: the processor breaks on data writes. R/W 11: on data writes and reads. */
  predicate BreaksOn(condition: bv64, store: bool) {
    if store then condition & 0x1_0000 != 0 else condition & 0x3_0000 == 0x3_0000
  }

  /** LEN 00: one byte. 01: two. 10: eight. 11: four. */
  function BytesCovered(condition: bv64): nat {
    var len := condition & 0xc_0000;
    if len == 0 then 1 else if len == 0x4_0000 then 2 else if len == 0x8_0000 then 8 else 4
  }

  /** The processor breaks when a byte is stored or loaded: it is among those covered, from the aligned address on. */
  predicate BreaksAt(r: DebugRegisters, slot: nat, x: Address, store: bool)
    requires WellFormed(r) && slot < 4
  {
    var condition := Condition(r.control, slot);
    var start, bytes := r.address[slot], BytesCovered(condition);
    && IsOn(r.control, slot) && BreaksOn(condition, store)
    && start - start % bytes <= x < start - start % bytes + bytes
  }

  /** The setting of a slot, bit by bit in its place. */
  lemma FieldsInPlace(control: bv64, slot: nat)
    requires slot < 4
    ensures Field(control, slot, Enable) != 0 <==> IsOn(control, slot)
    ensures Condition(control, slot) == (Field(control, slot, RW) << 16) | (Field(control, slot, LEN) << 18)
    ensures Field(control, slot, RW) < 4 && Field(control, slot, LEN) < 4
  {
    match slot { case 0 => case 1 => case 2 => case _ => }
  }

  lemma ConditionMeans(access: bv64, length: bv64, condition: bv64)
    requires access < 4 && length < 4 && condition == (access << 16) | (length << 18)
    ensures BreaksOn(condition, true) <==> access == 1 || access == 3
    ensures BreaksOn(condition, false) <==> access == 3
    ensures BytesCovered(condition) ==
              if length == 0 then 1 else if length == 1 then 2 else if length == 2 then 8 else 4
  {
  }

  /** The requests acted on: four slots, four sizes, and an address that is a multiple of the size. */
  lemma EffectiveMeans(slot: nat, address: Address, access: Access, bytes: nat)
    ensures Effective(Configure(slot, address, access, bytes)) <==>
              slot < 4 && (bytes == 1 || bytes == 2 || bytes == 4 || bytes == 8) && address % bytes == 0
    ensures Effective(Clear(slot)) <==> slot < 4
  {
  }

  /**
   * A slot that decodes to what a request wants makes the processor break exactly on the bytes and accesses asked
   * for; loads cannot be had without stores. A cleared slot makes it break on nothing.
   */
  lemma WantedBreaks(r: DebugRegisters, q: Request, x: Address, store: bool)
    requires WellFormed(r) && Effective(q) && Decode(r, q.slot) == Wanted(q)
    ensures BreaksAt(r, q.slot, x, store) <==>
              q.Configure? && q.address <= x < q.address + q.bytes && (store || q.access != Write)
  {
    var w := Wanted(q);
    FieldsInPlace(r.control, q.slot);
    ConditionMeans(w.access, w.length, Condition(r.control, q.slot));
    WantedCodes(q);
  }

  /** So after a request that met no refusal the processor breaks exactly where and when it asks. */
  lemma FulfilledBreaks(r: DebugRegisters, q: Request, r': DebugRegisters, x: Address, store: bool)
    requires WellFormed(r) && Fulfils(r, q, r') && Effective(q)
    ensures BreaksAt(r', q.slot, x, store) <==>
              q.Configure? && q.address <= x < q.address + q.bytes && (store || q.access != Write)
  {
    OwnSlot(r, q, r');
    WantedBreaks(r', q, x, store);
  }

  lemma WantedCodes(q: Request)
    requires Effective(q)
    ensures Wanted(q).enable != 0 <==> q.Configure?
    ensures q.Configure? ==>
              && (Wanted(q).access == 3 <==> q.access != Write) && (Wanted(q).access == 1 <==> q.access == Write)
              && q.address % q.bytes == 0
              && q.bytes == if Wanted(q).length == 0 then 1 else if Wanted(q).length == 1 then 2
                            else if Wanted(q).length == 2 then 8 else 4
  {
  }

  // ---------- histories ----------

  /** What the last effective request on a slot asked for. */
  function LastWanted(history: seq<Request>, slot: nat): Option<Setting> {
    if history == [] then None
    else
      var q := history[|history| - 1];
      if Effective(q) && q.slot == slot then Some(Wanted(q)) else LastWanted(history[..|history| - 1], slot)
  }

  /** One state of the registers before the first request and one after each. */
  ghost predicate Answers(states: seq<DebugRegisters>, history: seq<Request>) {
    && |states| == |history| + 1
    && (forall i | 0 <= i < |states| :: WellFormed(states[i]))
    && (forall i | 0 <= i < |history| :: Fulfils(states[i], history[i], states[i + 1]))
  }

  lemma AnswersPrefix(states: seq<DebugRegisters>, history: seq<Request>)
    requires Answers(states, history) && history != []
    ensures var n := |history| - 1;
            Answers(states[..n + 1], history[..n]) && Fulfils(states[n], history[n], states[n + 1])
  {
    var n := |history| - 1;
    forall i | 0 <= i < n ensures Fulfils(states[..n + 1][i], history[..n][i], states[..n + 1][i + 1]) {
      assert Fulfils(states[i], history[i], states[i + 1]);
    }
  }

  ghost predicate LookAt(states: seq<DebugRegisters>) {
    true
  }

  /** The same, unfolding only where LookAt is mentioned. */
  ghost predicate AnswersHidden(states: seq<DebugRegisters>, history: seq<Request>) {
    forall s {:trigger LookAt(s)} :: LookAt(s) && s == states ==> Answers(s, history)
  }

  lemma AnswersShown(states: seq<DebugRegisters>, history: seq<Request>)
    ensures AnswersHidden(states, history) <==> Answers(states, history)
  {
    assert LookAt(states);
  }

  lemma AnswersNext(states: seq<DebugRegisters>, history: seq<Request>, i: nat, r: DebugRegisters)
    requires i < |history| && |states| == i + 1 && AnswersHidden(states, history[..i])
    requires WellFormed(states[i]) && Fulfils(states[i], history[i], r)
    ensures AnswersHidden(states + [r], history[..i + 1])
  {
    var longer, requests := states + [r], history[..i + 1];
    AnswersShown(states, history[..i]);
    forall j | 0 <= j < |requests| ensures Fulfils(longer[j], requests[j], longer[j + 1]) {
      assert j < i ==> Fulfils(states[j], history[..i][j], states[j + 1]);
    }
    AnswersShown(longer, requests);
  }

  /**
   * After any history of requests, from any initial registers, each slot decodes to the last effective request
   * on it, or to what it held at first.
   */
  lemma {:induction false} HistoryDecodes(states: seq<DebugRegisters>, history: seq<Request>, slot: nat)
    requires Answers(states, history) && slot < 4
    ensures Decode(states[|history|], slot) ==
              match LastWanted(history, slot) case Some(w) => w case None => Decode(states[0], slot)
  {
    if history != [] {
      var n := |history| - 1;
      AnswersPrefix(states, history);
      HistoryDecodes(states[..n + 1], history[..n], slot);
      if Effective(history[n]) && history[n].slot == slot {
        OwnSlot(states[n], history[n], states[n + 1]);
      } else {
        OtherSlot(states[n], history[n], states[n + 1], slot);
      }
    }
  }

  /** Through any history, the bits that belong to no breakpoint stay as they were. */
  lemma {:induction false} HistoryKeepsOtherBits(states: seq<DebugRegisters>, history: seq<Request>)
    requires Answers(states, history)
    ensures states[|history|].control & OTHER_BITS == states[0].control & OTHER_BITS
  {
    if history != [] {
      var n := |history| - 1;
      AnswersPrefix(states, history);
      HistoryKeepsOtherBits(states[..n + 1], history[..n]);
      OtherBits(states[n], history[n], states[n + 1]);
    }
  }

  // ---------- the bit surgery ----------

  /** `x << (slot * 2)`. */
  function AtEnable(x: bv64, slot: nat): bv64 {
    match slot
    case 0 => x
    case 1 => x << 2
    case 2 => x << 4
    case _ => x << 6
  }

  /** `x << (16 + slot * 4)`. */
  function AtField(x: bv64, slot: nat): bv64 {
    match slot
    case 0 => x << 16
    case 1 => x << 20
    case 2 => x << 24
    case _ => x << 28
  }

  /** The word configure_watchpoint computes. */
  ghost predicate Configured(c: bv64, slot: nat, a: bv64, l: bv64, r: bv64) {
    forall x {:trigger Look(x)} :: Look(x) && x == r ==>
      x == (c & !AtField(0xf, slot) & !AtEnable(3, slot)) | AtEnable(1, slot) | AtField(a | (l << 2), slot)
  }

  /** The word clear_watchpoint computes. */
  ghost predicate Cleared(c: bv64, slot: nat, r: bv64) {
    forall x {:trigger Look(x)} :: Look(x) && x == r ==> x == c & !AtField(0xf, slot) & !AtEnable(3, slot)
  }

  /** Fits a two-bit field. Written as equalities, which cost the solver nothing. */
  predicate InField(x: bv64) {
    x == 0 || x == 1 || x == 2 || x == 3
  }

  // One lemma per field keeps the bit-level reasoning small.

  lemma ConfiguredOwn(c: bv64, slot: nat, a: bv64, l: bv64, r: bv64)
    requires slot < 4 && InField(a) && InField(l) && Configured(c, slot, a, l, r)
    ensures SlotIs(r, slot, 1, a, l)
  {
    assert Look(r);
  }

  lemma ConfiguredOtherEnable(c: bv64, slot: nat, a: bv64, l: bv64, r: bv64, other: nat)
    requires slot < 4 && other < 4 && other != slot && InField(a) && InField(l) && Configured(c, slot, a, l, r)
    ensures FieldIs(r, other, Enable, Field(c, other, Enable))
  {
    assert Look(r);
  }

  lemma ConfiguredOtherRW(c: bv64, slot: nat, a: bv64, l: bv64, r: bv64, other: nat)
    requires slot < 4 && other < 4 && other != slot && InField(a) && InField(l) && Configured(c, slot, a, l, r)
    ensures FieldIs(r, other, RW, Field(c, other, RW))
  {
    assert Look(r);
  }

  lemma ConfiguredOtherLEN(c: bv64, slot: nat, a: bv64, l: bv64, r: bv64, other: nat)
    requires slot < 4 && other < 4 && other != slot && InField(a) && InField(l) && Configured(c, slot, a, l, r)
    ensures FieldIs(r, other, LEN, Field(c, other, LEN))
  {
    assert Look(r);
  }

  lemma ConfiguredRest(c: bv64, slot: nat, a: bv64, l: bv64, r: bv64)
    requires slot < 4 && InField(a) && InField(l) && Configured(c, slot, a, l, r)
    ensures RestKept(c, r)
  {
    assert Look(r);
    match slot { case 0 => case 1 => case 2 => case _ => }
  }

  lemma ClearedOwn(c: bv64, slot: nat, r: bv64)
    requires slot < 4 && Cleared(c, slot, r)
    ensures SlotIs(r, slot, 0, 0, 0)
  {
    assert Look(r);
  }

  lemma ClearedOtherEnable(c: bv64, slot: nat, r: bv64, other: nat)
    requires slot < 4 && other < 4 && other != slot && Cleared(c, slot, r)
    ensures FieldIs(r, other, Enable, Field(c, other, Enable))
  {
    assert Look(r);
  }

  lemma ClearedOtherRW(c: bv64, slot: nat, r: bv64, other: nat)
    requires slot < 4 && other < 4 && other != slot && Cleared(c, slot, r)
    ensures FieldIs(r, other, RW, Field(c, other, RW))
  {
    assert Look(r);
  }

  lemma ClearedOtherLEN(c: bv64, slot: nat, r: bv64, other: nat)
    requires slot < 4 && other < 4 && other != slot && Cleared(c, slot, r)
    ensures FieldIs(r, other, LEN, Field(c, other, LEN))
  {
    assert Look(r);
  }

  lemma ClearedRest(c: bv64, slot: nat, r: bv64)
    requires slot < 4 && Cleared(c, slot, r)
    ensures RestKept(c, r)
  {
    assert Look(r);
  }

  lemma ConfiguredSlot(c: bv64, slot: nat, a: bv64, l: bv64, r: bv64)
    requires slot < 4 && InField(a) && InField(l) && Configured(c, slot, a, l, r)
    ensures SlotIs(r, slot, 1, a, l) && OthersKept(c, r, slot) && RestKept(c, r)
  {
    ConfiguredOwn(c, slot, a, l, r);
    ConfiguredRest(c, slot, a, l, r);
    forall other: nat | other < 4 && other != slot ensures SlotKept(c, r, other) {
      ConfiguredOtherEnable(c, slot, a, l, r, other);
      ConfiguredOtherRW(c, slot, a, l, r, other);
      ConfiguredOtherLEN(c, slot, a, l, r, other);
    }
  }

  lemma ClearedSlot(c: bv64, slot: nat, r: bv64)
    requires slot < 4 && Cleared(c, slot, r)
    ensures SlotIs(r, slot, 0, 0, 0) && OthersKept(c, r, slot) && RestKept(c, r)
  {
    ClearedOwn(c, slot, r);
    ClearedRest(c, slot, r);
    forall other: nat | other < 4 && other != slot ensures SlotKept(c, r, other) {
      ClearedOtherEnable(c, slot, r, other);
      ClearedOtherRW(c, slot, r, other);
      ClearedOtherLEN(c, slot, r, other);
    }
  }

  /** The `control &=` and `control |=` steps of configure_watchpoint. */
  method WithSlot(c: bv64, slot: nat, access: bv64, length: bv64) returns (control: bv64)
    requires slot < 4
    ensures Configured(c, slot, access, length, control)
  {
    control := c;
    control := control & !AtField(0xf, slot);
    control := control & !AtEnable(3, slot);
    control := control | AtEnable(1, slot);
    control := control | AtField(access | (length << 2), slot);
  }

  /** The `control &=` steps of clear_watchpoint. */
  method WithoutSlot(c: bv64, slot: nat) returns (control: bv64)
    requires slot < 4
    ensures Cleared(c, slot, control)
  {
    control := c;
    control := control & !AtField(0xf, slot);
    control := control & !AtEnable(3, slot);
  }

  lemma CodesFit(access: Access, bytes: nat)
    ensures InField(AccessCode(access)) && (Length(bytes).Some? ==> InField(Length(bytes).value))
  {
  }

  lemma ConfiguredFulfils(r: DebugRegisters, q: Request, r': DebugRegisters)
    requires WellFormed(r) && WellFormed(r') && Effective(q)
    requires SlotIs(r'.control, q.slot, Wanted(q).enable, Wanted(q).access, Wanted(q).length)
    requires r'.address == r.address[q.slot := Wanted(q).address]
    requires OthersKept(r.control, r'.control, q.slot) && RestKept(r.control, r'.control)
    ensures Fulfils(r, q, r')
  {
  }

  // ---------- the kernel's register file, and the two operations ----------

  class DebugFile {
    var registers: map<nat, DebugRegisters>   // by thread
    ghost var refused: nat                    // requests the kernel has turned down

    ghost predicate Valid()
      reads this
    {
      forall tid | tid in registers :: WellFormed(registers[tid])
    }

    constructor (registers: map<nat, DebugRegisters>)
      requires forall tid | tid in registers :: WellFormed(registers[tid])
      ensures Valid() && this.registers == registers && refused == 0
    {
      this.registers := registers;
      refused := 0;
    }

    /** PTRACE_PEEKUSER on DR7. */
    method ReadControl(tid: nat) returns (c: Option<bv64>)
      modifies `refused
      ensures c.Some? ==> tid in registers && c.value == registers[tid].control
      ensures refused == old(refused) + if c.Some? then 0 else 1
    {
      if tid in registers {
        if * {
          return Some(registers[tid].control);
        }
      }
      refused := refused + 1;
      c := None;
    }

    /** PTRACE_POKEUSER on an address register and then on DR7; either may be refused. */
    method WriteSlot(tid: nat, slot: nat, address: Address, control: bv64) returns (ok: Outcome)
      requires Valid() && slot < 4
      modifies this
      ensures Valid() && OnlyThread(old(registers), registers, tid)
      ensures ok == Ok ==>
                && tid in registers && tid in old(registers)
                && registers[tid] == DebugRegisters(old(registers)[tid].address[slot := address], control)
      ensures ok == Thrown && tid in registers ==>
                registers[tid] in {old(registers)[tid],
                                   old(registers)[tid].(address := old(registers)[tid].address[slot := address])}
      ensures refused == old(refused) + if ok == Ok then 0 else 1
    {
      if tid !in registers {
        refused := refused + 1;
        return Thrown;
      }
      if * {
        refused := refused + 1;
        return Thrown;
      }
      var r := registers[tid];
      registers := registers[tid := r.(address := r.address[slot := address])];
      if * {
        refused := refused + 1;
        return Thrown;
      }
      registers := registers[tid := registers[tid].(control := control)];
      ok := Ok;
    }

    /** A request that throws has at most written the slot's address register. */
    method ConfigureWatchpoint(tid: nat, slot: nat, address: Address, access: Access, bytes: nat) returns (ok: Outcome)
      requires Valid()
      modifies this
      ensures Valid() && OnlyThread(old(registers), registers, tid)
      ensures !Effective(Configure(slot, address, access, bytes)) ==>
                ok == Thrown && registers == old(registers) && refused == old(refused)
      ensures Effective(Configure(slot, address, access, bytes)) ==>
                (ok == Thrown <==> refused > old(refused)) && refused >= old(refused)
      ensures ok == Ok ==>
                && tid in registers && tid in old(registers)
                && Fulfils(old(registers)[tid], Configure(slot, address, access, bytes), registers[tid])
      ensures ok == Thrown && tid in registers ==> ControlKept(old(registers)[tid], registers[tid], slot)
    {
      if slot >= 4 {
        return Thrown;
      }
      var length := LengthOf(bytes);
      if length.None? {
        return Thrown;
      }
      if !NaturallyAligned(address, bytes) {
        return Thrown;
      }
      var accessBits: bv64 := if access == Write then 1 else 3;
      CodesFit(access, bytes);
      ok := ConfigureSlot(tid, slot, address, accessBits, length.value);
      if ok == Ok {
        ConfiguredFulfils(old(registers)[tid], Configure(slot, address, access, bytes), registers[tid]);
      }
    }

    /** The switch of configure_watchpoint. */
    static method LengthOf(bytes: nat) returns (length: Option<bv64>)
      ensures length == Length(bytes)
    {
      match bytes {
        case 1 => length := Some(0);
        case 2 => length := Some(1);
        case 4 => length := Some(3);
        case 8 => length := Some(2);
        case _ => length := None;
      }
    }

    /** The rest of configure_watchpoint, once the request has been checked. */
    method ConfigureSlot(tid: nat, slot: nat, address: Address, accessBits: bv64, length: bv64) returns (ok: Outcome)
      requires Valid() && slot < 4 && InField(accessBits) && InField(length)
      modifies this
      ensures Valid() && OnlyThread(old(registers), registers, tid)
      ensures ok == Ok ==>
                && tid in registers && tid in old(registers)
                && WellFormed(registers[tid])
                && registers[tid].address == old(registers)[tid].address[slot := address]
                && SlotIs(registers[tid].control, slot, 1, accessBits, length)
                && OthersKept(old(registers)[tid].control, registers[tid].control, slot)
                && RestKept(old(registers)[tid].control, registers[tid].control)
      ensures ok == Thrown && tid in registers ==> ControlKept(old(registers)[tid], registers[tid], slot)
      ensures (ok == Thrown <==> refused > old(refused)) && refused >= old(refused)
    {
      var read := ReadControl(tid);
      if read.None? {
        return Thrown;
      }
      var control := WithSlot(read.value, slot, accessBits, length);
      ConfiguredSlot(read.value, slot, accessBits, length, control);
      ok := WriteSlot(tid, slot, address, control);
    }

    method ClearWatchpoint(tid: nat, slot: nat) returns (ok: Outcome)
      requires Valid()
      modifies this
      ensures Valid() && OnlyThread(old(registers), registers, tid)
      ensures slot >= 4 ==> ok == Ok && registers == old(registers)
      ensures slot < 4 && ok == Ok ==>
                && tid in registers && tid in old(registers)
                && Fulfils(old(registers)[tid], Clear(slot), registers[tid])
      ensures ok == Thrown && tid in registers ==> ControlKept(old(registers)[tid], registers[tid], slot)
      ensures (ok == Thrown <==> refused > old(refused)) && refused >= old(refused)
    {
      if slot >= 4 {
        return Ok;
      }
      var read := ReadControl(tid);
      if read.None? {
        return Thrown;
      }
      var control := WithoutSlot(read.value, slot);
      ClearedSlot(read.value, slot, control);
      ok := WriteSlot(tid, slot, 0, control);
    }

    /** One request; a malformed one throws and changes nothing. */
    method Perform(tid: nat, q: Request) returns (ok: Outcome)
      requires Valid() && tid in registers
      modifies this
      ensures Valid() && registers.Keys == old(registers).Keys && refused >= old(refused)
      ensures refused == old(refused) ==> Fulfils(old(registers)[tid], q, registers[tid])
    {
      match q {
        case Configure(slot, address, access, bytes) => ok := ConfigureWatchpoint(tid, slot, address, access, bytes);
        case Clear(slot) => ok := ClearWatchpoint(tid, slot);
      }
    }

    /** Any sequence of requests on a thread, from any registers, of which the kernel refuses none. */
    method PerformAll(tid: nat, history: seq<Request>)
      requires Valid() && tid in registers
      modifies this
      ensures Valid() && tid in registers && refused >= old(refused)
      ensures refused == old(refused) ==> Follows(old(registers)[tid], history, registers[tid])
    {
      ghost var states := [registers[tid]];
      for i := 0 to |history|
        invariant Valid() && tid in registers && refused >= old(refused)
        invariant refused == old(refused) ==>
                    |states| == i + 1 && states[0] == old(registers)[tid] && states[i] == registers[tid]
        invariant refused == old(refused) ==> AnswersHidden(states, history[..i])
      {
        var ok := Perform(tid, history[i]);
        if refused == old(refused) {
          AnswersNext(states, history, i, registers[tid]);
          states := states + [registers[tid]];
        }
      }
      if refused == old(refused) {
        assert history[..|history|] == history;
        AnswersFollow(states, history);
      }
    }
  }

  /** Through a history, each slot has come to show the last effective request on it, and other bits are unchanged. */
  ghost predicate Follows(r: DebugRegisters, history: seq<Request>, r': DebugRegisters) {
    && WellFormed(r) && WellFormed(r')
    && forall x {:trigger Look(x)} :: Look(x) && x == r'.control ==> FollowsBits(r, history, r')
  }

  ghost predicate FollowsBits(r: DebugRegisters, history: seq<Request>, r': DebugRegisters)
    requires WellFormed(r) && WellFormed(r')
  {
    && (forall slot: nat | slot < 4 ::
          Decode(r', slot) == match LastWanted(history, slot) case Some(w) => w case None => Decode(r, slot))
    && r'.control & OTHER_BITS == r.control & OTHER_BITS
  }

  /** What Follows says, spelt out. */
  lemma FollowsMeans(r: DebugRegisters, history: seq<Request>, r': DebugRegisters)
    requires Follows(r, history, r')
    ensures WellFormed(r) && WellFormed(r')
    ensures forall slot: nat | slot < 4 ::
              Decode(r', slot) == match LastWanted(history, slot) case Some(w) => w case None => Decode(r, slot)
    ensures r'.control & OTHER_BITS == r.control & OTHER_BITS
  {
    assert Look(r'.control);
  }

  lemma AnswersFollow(states: seq<DebugRegisters>, history: seq<Request>)
    requires AnswersHidden(states, history)
    ensures |states| == |history| + 1 && Follows(states[0], history, states[|history|])
  {
    AnswersShown(states, history);
    forall slot: nat | slot < 4
      ensures Decode(states[|history|], slot) ==
                match LastWanted(history, slot) case Some(w) => w case None => Decode(states[0], slot)
    {
      HistoryDecodes(states, history, slot);
    }
    HistoryKeepsOtherBits(states, history);
  }

  ghost predicate OnlyThread(before: map<nat, DebugRegisters>, now: map<nat, DebugRegisters>, tid: nat) {
    now.Keys == before.Keys && forall t | t in now && t != tid :: now[t] == before[t]
  }

  ghost predicate ControlKept(r: DebugRegisters, r': DebugRegisters, slot: nat) {
    && r'.control == r.control
    && |r'.address| == |r.address|
    && forall s: nat | s < |r.address| && s != slot :: r'.address[s] == r.address[s]
  }
}
