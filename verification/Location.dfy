// The interpreter of DWARF location expressions for local variables.
module Location {
  import opened Common
  import Text

  // Operation codes, section 7.7.1 of DWARF 5.
  const DW_OP_addr := 0x03
  const DW_OP_deref := 0x06
  const DW_OP_plus_uconst := 0x23
  const DW_OP_reg0 := 0x50
  const DW_OP_reg31 := 0x6f
  const DW_OP_breg0 := 0x70
  const DW_OP_breg31 := 0x8f
  const DW_OP_regx := 0x90
  const DW_OP_fbreg := 0x91
  const DW_OP_bregx := 0x92
  const DW_OP_stack_value := 0x9f

  datatype Operation = Operation(atom: nat, number: Address, number2: Address)

  /** The stopped thread: its DWARF registers, its frame pointer, and the words of memory that can be read. */
  datatype Target = Target(register: nat -> Option<Address>, frame: Address, word: Address -> Option<Address>)

  datatype Variable = Variable(name: string, value: string, available: bool)

  predicate IsReg(op: Operation) {
    DW_OP_reg0 <= op.atom <= DW_OP_reg31 || op.atom == DW_OP_regx
  }

  /** The register a register operation names; regx is cut to 32 bits. */
  function RegisterOf(op: Operation): nat {
    if op.atom == DW_OP_regx || op.atom == DW_OP_bregx then op.number % 0x1_0000_0000
    else if op.atom < DW_OP_breg0 then (if op.atom >= DW_OP_reg0 then op.atom - DW_OP_reg0 else 0)
    else op.atom - DW_OP_breg0
  }

  // ---------- the top of the stack ----------

  const UNKNOWN_REGISTER := "<unknown register>"
  const BAD := "<bad DWARF expression>"
  const UNSUPPORTED := "<unsupported DWARF expression>"
  const UNAVAILABLE := "<unavailable>"

  /** What an expression leaves on top: a value, nothing, a reported fault, or an unreadable word. */
  datatype Top = Value(value: Address) | Empty | Fault(message: string) | Unreadable

  predicate Failed(t: Top) {
    t.Fault? || t.Unreadable?
  }

  function Contents(t: Target, register: nat): Top {
    match t.register(register)
    case Some(v) => Value(v)
    case None => Fault(UNKNOWN_REGISTER)
  }

  function Shifted(top: Top, distance: int): Top {
    match top
    case Value(v) => Value(Wrap(v + distance))
    case Empty => Fault(BAD)
    case _ => top
  }

  function Loaded(t: Target, top: Top): Top {
    match top
    case Value(a) => (match t.word(a) case Some(v) => Value(v) case None => Unreadable)
    case Empty => Fault(BAD)
    case _ => top
  }

  /**
   * The top of the stack after an expression. No operation takes two operands or drops one, so the value is
   * determined by the last operation and what was on top before it: no stack is needed to say it.
   */
  function TopOf(ops: seq<Operation>, t: Target): Top {
    if ops == [] then Empty
    else
      var before, op := TopOf(ops[..|ops| - 1], t), ops[|ops| - 1];
      if Failed(before) then before else After(before, op, t)
  }

  function After(before: Top, op: Operation, t: Target): Top {
    if op.atom == DW_OP_addr then Value(op.number)
    else if IsReg(op) then Contents(t, RegisterOf(op))
    else if IsBased(op) then Shifted(Contents(t, RegisterOf(op)), op.number2)
    else if op.atom == DW_OP_fbreg then Value(Wrap(t.frame + 16 + op.number))
    else if op.atom == DW_OP_deref then Loaded(t, before)
    else if op.atom == DW_OP_plus_uconst then Shifted(before, op.number)
    else if op.atom == DW_OP_stack_value then before
    else Fault(UNSUPPORTED)
  }

  predicate IsBased(op: Operation) {
    DW_OP_breg0 <= op.atom <= DW_OP_breg31 || op.atom == DW_OP_bregx
  }

  /** The operations after which evaluate_location takes the top for the value itself. */
  predicate MarksValue(op: Operation) {
    IsReg(op) || op.atom == DW_OP_deref || op.atom == DW_OP_stack_value
  }

  predicate TakenAsValue(ops: seq<Operation>) {
    exists i | 0 <= i < |ops| :: MarksValue(ops[i])
  }

  /** What evaluate_location finds for any expression at all. */
  function Found(ops: seq<Operation>, t: Target): Top {
    var top := TopOf(ops, t);
    if !top.Value? || TakenAsValue(ops) then top else Loaded(t, top)
  }

  /** How the outcome is reported in the variable; None when reading a word throws. */
  ghost predicate Reports(before: Variable, found: Top, r: Option<Variable>) {
    match found
    case Unreadable => r == None
    case Fault(message) => r == Some(before.(value := message))
    case Empty => r == Some(before.(value := UNAVAILABLE))
    case Value(v) =>
      && r.Some? && r.value == before.(value := r.value.value, available := true)
      && |r.value.value| > 2 && r.value.value[..2] == "0x" && Text.Shortest(r.value.value[2..], v)
  }

  function LastOf(stack: seq<Address>): Top {
    if stack == [] then Empty else Value(stack[|stack| - 1])
  }

  // ---------- the codes interpreted, by their values ----------

  /** addr, deref, plus_uconst, reg0 to reg31, breg0 to breg31, regx, fbreg, bregx and stack_value. */
  predicate IsInterpreted(atom: nat) {
    atom == 0x03 || atom == 0x06 || atom == 0x23 || 0x50 <= atom <= 0x92 || atom == 0x9f
  }

  /** An operation that neither fails nor throws, and what is on top of the stack before and after it. */
  predicate Runs1(op: Operation, before: Option<Address>, after: Option<Address>, t: Target) {
    if op.atom == 0x03 then after == Some(op.number)
    else if op.atom == 0x06 then before.Some? && after.Some? && after == t.word(before.value)
    else if op.atom == 0x23 then before.Some? && after == Some(Wrap(before.value + op.number))
    else if 0x50 <= op.atom <= 0x6f then after.Some? && after == t.register(op.atom - 0x50)
    else if 0x70 <= op.atom <= 0x8f then
      t.register(op.atom - 0x70).Some? && after == Some(Wrap(t.register(op.atom - 0x70).value + op.number2))
    else if op.atom == 0x90 then after.Some? && after == t.register(op.number % 0x1_0000_0000)
    else if op.atom == 0x91 then after == Some(Wrap(t.frame + 16 + op.number))
    else if op.atom == 0x92 then
      && t.register(op.number % 0x1_0000_0000).Some?
      && after == Some(Wrap(t.register(op.number % 0x1_0000_0000).value + op.number2))
    else op.atom == 0x9f && after == before
  }

  /** The first i operations neither fail nor throw, with these on top of the stack in between. */
  predicate Runs(ops: seq<Operation>, i: nat, tops: seq<Option<Address>>, t: Target) {
    && i <= |ops| && |tops| == i + 1 && tops[0] == None
    && forall j | 0 <= j < i :: Runs1(ops[j], tops[j], tops[j + 1], t)
  }

  function AsTop(top: Option<Address>): Top {
    match top case Some(v) => Value(v) case None => Empty
  }

  lemma Runs1Is(op: Operation, before: Option<Address>, after: Option<Address>, t: Target)
    requires Runs1(op, before, after, t)
    ensures After(AsTop(before), op, t) == AsTop(after)
  {
  }

  lemma {:induction false} RunsIs(ops: seq<Operation>, i: nat, tops: seq<Option<Address>>, t: Target)
    requires Runs(ops, i, tops, t)
    ensures TopOf(ops[..i], t) == AsTop(tops[i])
  {
    if i > 0 {
      assert Runs(ops, i - 1, tops[..i], t);
      RunsIs(ops, i - 1, tops[..i], t);
      Runs1Is(ops[i - 1], tops[i - 1], tops[i], t);
      NextTop(ops, i - 1, t);
    }
  }

  lemma {:induction false} Messages(ops: seq<Operation>, t: Target)
    ensures TopOf(ops, t).Fault? ==>
              TopOf(ops, t).message in
                {"<unknown register>", "<bad DWARF expression>", "<unsupported DWARF expression>"}
  {
    if ops != [] {
      Messages(ops[..|ops| - 1], t);
    }
  }

  lemma UninterpretedFails(ops: seq<Operation>, i: nat, t: Target)
    requires i < |ops| && !IsInterpreted(ops[i].atom)
    ensures Failed(TopOf(ops, t))
    ensures !Failed(TopOf(ops[..i], t)) ==> TopOf(ops, t) == Fault("<unsupported DWARF expression>")
  {
    assert ops[..i + 1][..i] == ops[..i];
    FaultsLast(ops, i, t);
  }

  /** Operations that are not interpreted: the first of them is reported if what precedes it runs through. */
  lemma UninterpretedReported(ops: seq<Operation>, t: Target)
    ensures (exists i | 0 <= i < |ops| :: !IsInterpreted(ops[i].atom)) ==>
              Found(ops, t).Unreadable? ||
              (Found(ops, t).Fault? &&
               Found(ops, t).message in
                 {"<unknown register>", "<bad DWARF expression>", "<unsupported DWARF expression>"})
    ensures forall i: nat, tops | i < |ops| && !IsInterpreted(ops[i].atom) && Runs(ops, i, tops, t) ::
              Found(ops, t) == Fault("<unsupported DWARF expression>")
    ensures forall tops | Runs(ops, |ops|, tops, t) && tops[|ops|] == None :: Found(ops, t) == Empty
  {
    Messages(ops, t);
    if i :| 0 <= i < |ops| && !IsInterpreted(ops[i].atom) {
      UninterpretedFails(ops, i, t);
    }
    forall i: nat, tops | i < |ops| && !IsInterpreted(ops[i].atom) && Runs(ops, i, tops, t)
      ensures Found(ops, t) == Fault("<unsupported DWARF expression>")
    {
      RunsIs(ops, i, tops, t);
      UninterpretedFails(ops, i, t);
    }
    forall tops | Runs(ops, |ops|, tops, t) && tops[|ops|] == None ensures Found(ops, t) == Empty {
      RunsIs(ops, |ops|, tops, t);
      assert ops[..|ops|] == ops;
    }
  }

  /** The operations after which the top is the value itself: deref, stack_value, reg0 to reg31 and regx. */
  predicate GivesValue(atom: nat) {
    atom == 0x06 || atom == 0x9f || 0x50 <= atom <= 0x6f || atom == 0x90
  }

  /** An expression that runs through: what is left on top is the value, or else the address of the value. */
  lemma FoundOfRun(ops: seq<Operation>, tops: seq<Option<Address>>, t: Target)
    requires Runs(ops, |ops|, tops, t) && tops[|ops|].Some?
    ensures var v := tops[|ops|].value;
            Found(ops, t) == if exists i | 0 <= i < |ops| :: GivesValue(ops[i].atom) then Value(v)
                             else match t.word(v) case Some(w) => Value(w) case None => Unreadable
  {
    RunsIs(ops, |ops|, tops, t);
    assert ops[..|ops|] == ops;
    forall i | 0 <= i < |ops| ensures GivesValue(ops[i].atom) <==> MarksValue(ops[i]) {
    }
  }

  /**
   * Whatever the expression, Found is reported. An operation that is not interpreted keeps any value from being
   * printed, and is reported as such if what precedes it neither fails nor throws.
   */
  method EvaluateLocation(variable: Variable, ops: seq<Operation>, t: Target) returns (r: Option<Variable>)
    ensures Reports(variable, Found(ops, t), r)
    ensures (exists i | 0 <= i < |ops| :: !IsInterpreted(ops[i].atom)) ==>
              r.None? ||
              (r.value == variable.(value := r.value.value) &&
               r.value.value in {"<unknown register>", "<bad DWARF expression>", "<unsupported DWARF expression>"})
    ensures forall i: nat, tops | i < |ops| && !IsInterpreted(ops[i].atom) && Runs(ops, i, tops, t) ::
              r == Some(variable.(value := "<unsupported DWARF expression>"))
    ensures forall tops | Runs(ops, |ops|, tops, t) && tops[|ops|] == None ::
              r == Some(variable.(value := "<unavailable>"))
  {
    UninterpretedReported(ops, t);
    var stack: seq<Address> := [];
    var stackValue, registerValue := false, false;
    for index := 0 to |ops|
      invariant TopOf(ops[..index], t) == LastOf(stack)
      invariant stackValue || registerValue <==> TakenAsValue(ops[..index])
    {
      NextTop(ops, index, t);
      FaultsLast(ops, index, t);
      OneMore(ops, index);
      var turn := Interpret(ops[index], stack, t);
      match turn
      case Says(message) => return Some(variable.(value := message));
      case Throws => return None;
      case Went(next, isRegister, isValue) =>
        stack := next;
        registerValue := registerValue || isRegister;
        stackValue := stackValue || isValue;
    }
    assert ops[..|ops|] == ops;
    r := Conclude(variable, stack, stackValue || registerValue, t);
  }

  /** One turn of the loop: the new stack and the flags it sets, or how it leaves the function. */
  datatype Turn = Went(stack: seq<Address>, isRegister: bool, isValue: bool) | Says(message: string) | Throws

  method Interpret(op: Operation, stack: seq<Address>, t: Target) returns (turn: Turn)
    ensures match After(LastOf(stack), op, t)
            case Fault(message) => turn == Says(message)
            case Unreadable => turn == Throws
            case top => turn.Went? && LastOf(turn.stack) == top && (turn.isRegister || turn.isValue <==> MarksValue(op))
  {
    if op.atom == DW_OP_addr {
      return Went(stack + [op.number], false, false);
    } else if DW_OP_reg0 <= op.atom <= DW_OP_reg31 {
      turn := PushRegister(op.atom - DW_OP_reg0, 0, true, stack, t);
    } else if op.atom == DW_OP_regx {
      turn := PushRegister(op.number % 0x1_0000_0000, 0, true, stack, t);
    } else if DW_OP_breg0 <= op.atom <= DW_OP_breg31 {
      turn := PushRegister(op.atom - DW_OP_breg0, op.number2, false, stack, t);
    } else if op.atom == DW_OP_bregx {
      turn := PushRegister(op.number % 0x1_0000_0000, op.number2, false, stack, t);
    } else if op.atom == DW_OP_fbreg {
      return Went(stack + [Wrap(t.frame + 16 + op.number)], false, false);
    } else if op.atom == DW_OP_deref {
      if stack == [] {
        return Says(BAD);
      }
      var word := t.word(stack[|stack| - 1]);
      if word.None? {
        return Throws;
      }
      return Went(stack[|stack| - 1 := word.value], true, false);
    } else if op.atom == DW_OP_plus_uconst {
      if stack == [] {
        return Says(BAD);
      }
      return Went(stack[|stack| - 1 := Wrap(stack[|stack| - 1] + op.number)], false, false);
    } else if op.atom == DW_OP_stack_value {
      return Went(stack, false, true);
    } else {
      return Says(UNSUPPORTED);
    }
  }

  /** The four register operations: the register, shifted by an offset, or the message that there is none. */
  method PushRegister(register: nat, offset: Address, isRegister: bool, stack: seq<Address>, t: Target)
    returns (turn: Turn)
    ensures match t.register(register)
            case None => turn == Says(UNKNOWN_REGISTER)
            case Some(v) => turn == Went(stack + [Wrap(v + offset)], isRegister, false)
  {
    var value := t.register(register);
    if value.None? {
      return Says(UNKNOWN_REGISTER);
    }
    turn := Went(stack + [Wrap(value.value + offset)], isRegister, false);
  }

  /** The rest of evaluate_location, after the loop. */
  method Conclude(variable: Variable, stack: seq<Address>, asValue: bool, t: Target) returns (r: Option<Variable>)
    ensures Reports(variable, if stack == [] || asValue then LastOf(stack) else Loaded(t, LastOf(stack)), r)
  {
    if stack == [] {
      return Some(variable.(value := UNAVAILABLE));
    }
    var value := stack[|stack| - 1];
    if !asValue {
      var word := t.word(value);
      if word.None? {
        return None;
      }
      value := word.value;
    }
    var printed := Text.Hex(value);
    r := Some(variable.(value := printed, available := true));
  }

  lemma NextTop(ops: seq<Operation>, index: nat, t: Target)
    requires index < |ops| && !Failed(TopOf(ops[..index], t))
    ensures TopOf(ops[..index + 1], t) == After(TopOf(ops[..index], t), ops[index], t)
  {
    assert ops[..index + 1][..index] == ops[..index];
  }

  /** A failure is final: what fails after some operations fails the whole expression. */
  lemma {:induction false} FaultsLast(ops: seq<Operation>, index: nat, t: Target)
    requires index < |ops|
    ensures Failed(TopOf(ops[..index + 1], t)) ==> TopOf(ops, t) == TopOf(ops[..index + 1], t)
    decreases |ops| - index
  {
    if index + 1 < |ops| {
      assert ops[..index + 2][..index + 1] == ops[..index + 1];
      FaultsLast(ops, index + 1, t);
    } else {
      assert ops[..index + 1] == ops;
    }
  }

  lemma OneMore(ops: seq<Operation>, index: nat)
    requires index < |ops|
    ensures TakenAsValue(ops[..index + 1]) <==> TakenAsValue(ops[..index]) || MarksValue(ops[index])
  {
    var longer, shorter := ops[..index + 1], ops[..index];
    assert longer[index] == ops[index];
    if i :| 0 <= i < |shorter| && MarksValue(shorter[i]) {
      assert MarksValue(longer[i]);
    }
    if i :| 0 <= i < |longer| && MarksValue(longer[i]) {
      assert i < index ==> MarksValue(shorter[i]);
    }
  }

  // ---------- the standard ----------

  /** The operations of section 2.5.1 of DWARF 5 that are interpreted, with their operands. */
  datatype Instruction =
    | Addr(address: Address)
    | Bregx(register: nat, offset: int)
    | Fbreg(offset: int)
    | PlusUconst(addend: nat)
    | Deref

  /** What an expression is evaluated in. */
  datatype Context = Context(register: nat -> Option<Address>, frameBase: Address, word: Address -> Option<Address>)

  datatype Evaluation = Stack(values: seq<Address>) | NoRegister | NoWord | Underflow

  /** Each operation pops its operands off the stack and pushes its result. */
  function Execute(i: Instruction, stack: seq<Address>, c: Context): Evaluation {
    match i
    case Addr(address) => Stack(stack + [address])
    case Bregx(register, offset) => (
      match c.register(register)
      case Some(v) => Stack(stack + [Wrap(v + offset)])
      case None => NoRegister)
    case Fbreg(offset) => Stack(stack + [Wrap(c.frameBase + offset)])
    case PlusUconst(addend) =>
      if stack == [] then Underflow
      else Stack(stack[..|stack| - 1] + [Wrap(stack[|stack| - 1] + addend)])
    case Deref =>
      if stack == [] then Underflow
      else
        match c.word(stack[|stack| - 1])
        case Some(v) => Stack(stack[..|stack| - 1] + [v])
        case None => NoWord
  }

  function Evaluate(e: seq<Instruction>, stack: seq<Address>, c: Context): Evaluation
    decreases |e|
  {
    if e == [] then Stack(stack)
    else
      match Execute(e[0], stack, c)
      case Stack(s) => Evaluate(e[1..], s, c)
      case failure => failure
  }

  /** An expression that leaves a result: it starts by pushing something. Operands have 64 bits. */
  predicate Expression(e: seq<Instruction>) {
    && e != [] && (e[0].Addr? || e[0].Bregx? || e[0].Fbreg?)
    && forall i | i in e ::
         (i.Bregx? ==> i.register < ADDRESS_SPACE) && (i.PlusUconst? ==> i.addend < ADDRESS_SPACE)
  }

  /** Location descriptions in section 2.6.1.1: a register, an implicit value, or a memory location. */
  datatype Description =
    | Register(number: nat, extended: bool)
    | Implicit(expression: seq<Instruction>)
    | Memory(expression: seq<Instruction>)

  predicate WellFormed(d: Description) {
    match d
    case Register(number, extended) => number < if extended then ADDRESS_SPACE else 32
    case Implicit(e) => Expression(e)
    case Memory(e) => Expression(e)
  }

  /** An operation as libdw presents it; a signed operand is in two's complement. */
  function Assembled(i: Instruction): Operation
    requires (i.Bregx? ==> i.register < ADDRESS_SPACE) && (i.PlusUconst? ==> i.addend < ADDRESS_SPACE)
  {
    match i
    case Addr(address) => Operation(DW_OP_addr, address, 0)
    case Bregx(register, offset) => Operation(DW_OP_bregx, register, Wrap(offset))
    case Fbreg(offset) => Operation(DW_OP_fbreg, Wrap(offset), 0)
    case PlusUconst(addend) => Operation(DW_OP_plus_uconst, addend, 0)
    case Deref => Operation(DW_OP_deref, 0, 0)
  }

  function Assembly(e: seq<Instruction>): (ops: seq<Operation>)
    requires forall i | i in e ::
               (i.Bregx? ==> i.register < ADDRESS_SPACE) && (i.PlusUconst? ==> i.addend < ADDRESS_SPACE)
    ensures |ops| == |e| && forall k | 0 <= k < |e| :: ops[k] == Assembled(e[k])
  {
    if e == [] then [] else Assembly(e[..|e| - 1]) + [Assembled(e[|e| - 1])]
  }

  function Encoded(d: Description): seq<Operation>
    requires WellFormed(d)
  {
    match d
    case Register(number, extended) => [Operation(if extended then DW_OP_regx else DW_OP_reg0 + number,
                                                  if extended then number else 0, 0)]
    case Implicit(e) => Assembly(e) + [Operation(DW_OP_stack_value, 0, 0)]
    case Memory(e) => Assembly(e)
  }

  function TopOfStack(e: Evaluation): Top {
    match e
    case Stack(s) => if s == [] then Empty else Value(s[|s| - 1])
    case NoRegister => Fault(UNKNOWN_REGISTER)
    case NoWord => Unreadable
    case Underflow => Fault(BAD)
  }

  /** The value of the variable, or why it has none. */
  function Meaning(d: Description, c: Context): Top {
    match d
    case Register(number, _) => (match c.register(number) case Some(v) => Value(v) case None => Fault(UNKNOWN_REGISTER))
    case Implicit(e) => TopOfStack(Evaluate(e, [], c))
    case Memory(e) =>
      match TopOfStack(Evaluate(e, [], c))
      case Value(a) => (match c.word(a) case Some(v) => Value(v) case None => Unreadable)
      case failure => failure
  }

  /** The thread's context: its frame base lies sixteen bytes above the frame pointer. */
  function ContextOf(t: Target): Context {
    Context(t.register, Wrap(t.frame + 16), t.word)
  }

  lemma {:induction false} EvaluateAppend(e: seq<Instruction>, i: Instruction, stack: seq<Address>, c: Context)
    ensures Evaluate(e + [i], stack, c) ==
              match Evaluate(e, stack, c) case Stack(s) => Execute(i, s, c) case failure => failure
    decreases |e|
  {
    if e == [] {
      assert (e + [i])[0] == i && (e + [i])[1..] == [];
      match Execute(i, stack, c) case Stack(s) => assert Evaluate([], s, c) == Stack(s); case _ =>
    } else {
      assert (e + [i])[0] == e[0] && (e + [i])[1..] == e[1..] + [i];
      match Execute(e[0], stack, c) case Stack(s) => EvaluateAppend(e[1..], i, s, c); case _ =>
    }
  }

  /** The thread has the same register under a number and under its lowest 32 bits. */
  predicate ReadsAlike(i: Instruction, t: Target) {
    i.Bregx? ==> t.register(i.register % 0x1_0000_0000) == t.register(i.register)
  }

  lemma AssembledExecutes(before: Evaluation, i: Instruction, t: Target)
    requires (i.Bregx? ==> i.register < ADDRESS_SPACE) && (i.PlusUconst? ==> i.addend < ADDRESS_SPACE)
    requires ReadsAlike(i, t) && before.Stack?
    ensures After(TopOfStack(before), Assembled(i), t) == TopOfStack(Execute(i, before.values, ContextOf(t)))
  {
    match i
    case Bregx(register, offset) =>
      if t.register(register).Some? {
        WrapSum(t.register(register).value, offset);
      }
    case Fbreg(offset) =>
      WrapSum(t.frame + 16, offset);
    case _ =>
  }

  lemma WrapSum(x: int, y: int)
    ensures Wrap(x + Wrap(y)) == Wrap(x + y) == Wrap(Wrap(x) + y)
  {
    WrapTurns(x + y, y / ADDRESS_SPACE);
    WrapTurns(x + y, x / ADDRESS_SPACE);
  }

  /** Whole turns around the address space do not matter. */
  lemma WrapTurns(x: int, turns: int)
    ensures Wrap(x - turns * ADDRESS_SPACE) == Wrap(x)
  {
    var rest := x - x / ADDRESS_SPACE * ADDRESS_SPACE;
    assert 0 <= rest < ADDRESS_SPACE;
    assert x - turns * ADDRESS_SPACE == (x / ADDRESS_SPACE - turns) * ADDRESS_SPACE + rest;
  }

  /** The stackless reading of the operations is the top of the standard's stack. */
  lemma {:induction false} TopIsEvaluated(e: seq<Instruction>, t: Target)
    requires forall i | i in e ::
               (i.Bregx? ==> i.register < ADDRESS_SPACE) && (i.PlusUconst? ==> i.addend < ADDRESS_SPACE)
    requires forall i | i in e :: ReadsAlike(i, t)
    ensures TopOf(Assembly(e), t) == TopOfStack(Evaluate(e, [], ContextOf(t)))
  {
    if e != [] {
      var n := |e| - 1;
      TopIsEvaluated(e[..n], t);
      EvaluateAppend(e[..n], e[n], [], ContextOf(t));
      assert e == e[..n] + [e[n]] && Assembly(e)[..n] == Assembly(e[..n]);
      var before := Evaluate(e[..n], [], ContextOf(t));
      if before.Stack? {
        AssembledExecutes(before, e[n], t);
      }
    }
  }

  predicate DerefsInMemory(d: Description) {
    d.Memory? && Deref in d.expression
  }

  predicate WideRegister(d: Description) {
    match d
    case Register(number, _) => number >= 0x1_0000_0000
    case Implicit(e) => exists i | i in e :: IsWide(i)
    case Memory(e) => exists i | i in e :: IsWide(i)
  }

  predicate IsWide(i: Instruction) {
    i.Bregx? && i.register >= 0x1_0000_0000
  }

  lemma MarksOfAssembly(e: seq<Instruction>)
    requires Expression(e)
    ensures TakenAsValue(Assembly(e)) <==> Deref in e
  {
    if Deref in e {
      var k :| 0 <= k < |e| && e[k] == Deref;
      assert MarksValue(Assembly(e)[k]);
    }
    forall k | 0 <= k < |e| && MarksValue(Assembly(e)[k]) ensures e[k] == Deref {
    }
  }

  lemma {:induction false} ExpressionHasTop(e: seq<Instruction>, stack: seq<Address>, c: Context)
    requires stack != [] || (e != [] && (e[0].Addr? || e[0].Bregx? || e[0].Fbreg?))
    ensures TopOfStack(Evaluate(e, stack, c)) != Empty && Evaluate(e, stack, c) != Underflow
    decreases |e|
  {
    if e != [] {
      match Execute(e[0], stack, c) case Stack(s) => ExpressionHasTop(e[1..], s, c); case _ =>
    }
  }

  /** What evaluate_location makes of an implicit value and of a memory location, by the standard's evaluation. */
  lemma FoundImplicit(e: seq<Instruction>, t: Target)
    requires Expression(e) && forall i | i in e :: ReadsAlike(i, t)
    ensures Found(Encoded(Implicit(e)), t) == Meaning(Implicit(e), ContextOf(t))
  {
    TopIsEvaluated(e, t);
    FoundWithStackValue(Assembly(e), t);
  }

  lemma FoundWithStackValue(ops: seq<Operation>, t: Target)
    ensures Found(ops + [Operation(DW_OP_stack_value, 0, 0)], t) == TopOf(ops, t)
  {
    var longer := ops + [Operation(DW_OP_stack_value, 0, 0)];
    assert longer[..|ops|] == ops && MarksValue(longer[|ops|]);
  }

  lemma FoundMemory(e: seq<Instruction>, t: Target)
    requires Expression(e) && forall i | i in e :: ReadsAlike(i, t)
    ensures Found(Encoded(Memory(e)), t) ==
              if Deref in e then TopOfStack(Evaluate(e, [], ContextOf(t))) else Meaning(Memory(e), ContextOf(t))
  {
    TopIsEvaluated(e, t);
    MarksOfAssembly(e);
    ExpressionHasTop(e, [], ContextOf(t));
  }

  lemma FoundRegister(number: nat, extended: bool, t: Target)
    requires WellFormed(Register(number, extended))
    ensures Found(Encoded(Register(number, extended)), t) ==
              Contents(t, if extended then number % 0x1_0000_0000 else number)
  {
    var ops := Encoded(Register(number, extended));
    assert TopOf([], t) == Empty && ops[..0] == [];
    assert MarksValue(ops[0]);
  }

  // ---------- modules loaded away from their link address ----------

  /** The expression as it reads in a module loaded at a base: addresses move, nothing else does. */
  function Relocated(e: seq<Instruction>, base: Address): (moved: seq<Instruction>)
    ensures |moved| == |e|
  {
    if e == [] then []
    else [if e[0].Addr? then Addr(Wrap(base + e[0].address)) else e[0]] + Relocated(e[1..], base)
  }

  function LoadedAt(d: Description, base: Address): Description {
    match d
    case Register(_, _) => d
    case Implicit(e) => Implicit(Relocated(e, base))
    case Memory(e) => Memory(Relocated(e, base))
  }

  /** An address the expression pushes is looked at: loaded from, or left as the result. */
  predicate LooksAtAddress(e: seq<Instruction>, onTop: bool) {
    if e == [] then onTop
    else
      match e[0]
      case Addr(_) => LooksAtAddress(e[1..], true)
      case PlusUconst(_) => LooksAtAddress(e[1..], onTop)
      case Deref => onTop || LooksAtAddress(e[1..], false)
      case _ => LooksAtAddress(e[1..], false)
  }

  predicate UsesAddress(d: Description) {
    !d.Register? && LooksAtAddress(d.expression, false)
  }

  lemma {:induction false} RelocatedUnseen(e: seq<Instruction>, base: Address, s: seq<Address>, s': seq<Address>,
                                           onTop: bool, c: Context)
    requires |s| == |s'| && !LooksAtAddress(e, onTop) && (!onTop ==> LastOf(s) == LastOf(s'))
    ensures TopOfStack(Evaluate(e, s, c)) == TopOfStack(Evaluate(Relocated(e, base), s', c))
    decreases |e|
  {
    if e != [] {
      var moved := Relocated(e, base);
      assert moved[1..] == Relocated(e[1..], base);
      var r, r' := Execute(e[0], s, c), Execute(moved[0], s', c);
      if r.Stack? && r'.Stack? {
        RelocatedUnseen(e[1..], base, r.values, r'.values,
                        e[0].Addr? || (e[0].PlusUconst? && onTop), c);
      }
    }
  }

  /** Unmoved, every expression is itself. */
  lemma {:induction false} RelocatedByNothing(e: seq<Instruction>)
    ensures Relocated(e, 0) == e
  {
    if e != [] {
      RelocatedByNothing(e[1..]);
    }
  }

  lemma MeaningWhereLoaded(d: Description, base: Address, c: Context)
    requires base == 0 || !UsesAddress(d)
    ensures Meaning(LoadedAt(d, base), c) == Meaning(d, c)
  {
    if !d.Register? {
      if base == 0 {
        RelocatedByNothing(d.expression);
      } else {
        RelocatedUnseen(d.expression, base, [], [], false, c);
      }
    }
  }

  /** Off three failing families, evaluate_location finds what the standard says, wherever the module is loaded. */
  lemma FoundIsMeaning(d: Description, base: Address, t: Target)
    requires WellFormed(d) && !DerefsInMemory(d) && !WideRegister(d) && (base == 0 || !UsesAddress(d))
    ensures Found(Encoded(d), t) == Meaning(LoadedAt(d, base), ContextOf(t))
  {
    MeaningWhereLoaded(d, base, ContextOf(t));
    match d
    case Register(number, extended) => FoundRegister(number, extended, t);
    case Implicit(e) =>
      NarrowReadsAlike(e, t);
      FoundImplicit(e, t);
    case Memory(e) =>
      NarrowReadsAlike(e, t);
      FoundMemory(e, t);
  }

  lemma NarrowReadsAlike(e: seq<Instruction>, t: Target)
    requires forall i | i in e :: !IsWide(i)
    ensures forall i | i in e :: ReadsAlike(i, t)
  {
  }

  /** A target in which every register can be read and no word holds its own address. */
  const PLAIN := Target(_ => Some(0), 0, (a: Address) => Some(Plus(a, 1)))

  /** The same, but without registers above 32 bits, as on every architecture there is. */
  const NARROW := PLAIN.(register := (n: nat) => if n < 0x1_0000_0000 then Some(0) else None)

  lemma {:induction false} PlainHasTop(e: seq<Instruction>, stack: seq<Address>)
    requires stack != [] || (e != [] && (e[0].Addr? || e[0].Bregx? || e[0].Fbreg?))
    ensures TopOfStack(Evaluate(e, stack, ContextOf(PLAIN))).Value?
    decreases |e|
  {
    if e != [] {
      match Execute(e[0], stack, ContextOf(PLAIN)) case Stack(s) => PlainHasTop(e[1..], s); case _ =>
    }
  }

  /** On every memory location that dereferences it does not: the last load is skipped, and a target shows it. */
  lemma DerefIsNotMeaning(d: Description)
    requires WellFormed(d) && DerefsInMemory(d)
    ensures Found(Encoded(d), PLAIN) != Meaning(d, ContextOf(PLAIN))
  {
    var e := d.expression;
    FoundMemory(e, PLAIN);
    PlainHasTop(e, []);
    LoadSkipped(e);
  }

  lemma LoadSkipped(e: seq<Instruction>)
    requires TopOfStack(Evaluate(e, [], ContextOf(PLAIN))).Value?
    ensures Meaning(Memory(e), ContextOf(PLAIN)) != TopOfStack(Evaluate(e, [], ContextOf(PLAIN)))
  {
    PlainWord(TopOfStack(Evaluate(e, [], ContextOf(PLAIN))).value);
  }

  lemma PlainWord(a: Address)
    ensures ContextOf(PLAIN).word(a).Some? && ContextOf(PLAIN).word(a) != Some(a)
  {
  }

  /** The last thing pushed is an address. */
  predicate EndsOnAddress(e: seq<Instruction>, onTop: bool) {
    if e == [] then onTop
    else EndsOnAddress(e[1..], StaysOnTop(e[0], onTop))
  }

  /** The top of the second stack is that of the first, shifted by the base if it comes of an address. */
  predicate Shifts(s: seq<Address>, s': seq<Address>, base: Address, onTop: bool) {
    && (s != [] ==> s' != [])
    && (onTop ==> s != [] && s'[|s'| - 1] == Plus(s[|s| - 1], base))
  }

  predicate StaysOnTop(i: Instruction, onTop: bool) {
    i.Addr? || (onTop && (i.PlusUconst? || i.Deref?))
  }

  /** Every register can be read, and every word holds the address after its own. */
  ghost predicate Plain(c: Context) {
    (forall n :: c.register(n).Some?) && forall a :: c.word(a) == Some(Plus(a, 1))
  }

  lemma ExecuteShifts(i: Instruction, base: Address, s: seq<Address>, s': seq<Address>, onTop: bool, c: Context)
    requires Plain(c) && Shifts(s, s', base, onTop) && (s != [] || i.Addr? || i.Bregx? || i.Fbreg?)
    ensures var moved := if i.Addr? then Addr(Wrap(base + i.address)) else i;
            var r, r' := Execute(i, s, c), Execute(moved, s', c);
            r.Stack? && r'.Stack? && r.values != [] && Shifts(r.values, r'.values, base, StaysOnTop(i, onTop))
  {
    match i
    case PlusUconst(addend) =>
      if onTop {
        PlusCommutes(s[|s| - 1], base, addend);
      }
    case Deref =>
      if onTop {
        PlusCommutes(s[|s| - 1], base, 1);
      }
    case _ =>
  }

  lemma {:induction false} RelocatedShifts(e: seq<Instruction>, base: Address, s: seq<Address>, s': seq<Address>,
                                           onTop: bool, c: Context)
    requires Plain(c) && Shifts(s, s', base, onTop) && EndsOnAddress(e, onTop)
    requires s != [] || (e != [] && (e[0].Addr? || e[0].Bregx? || e[0].Fbreg?))
    ensures var r, r' := Evaluate(e, s, c), Evaluate(Relocated(e, base), s', c);
            r.Stack? && r'.Stack? && Shifts(r.values, r'.values, base, true)
    decreases |e|
  {
    if e != [] {
      var moved := Relocated(e, base);
      assert moved[1..] == Relocated(e[1..], base);
      ExecuteShifts(e[0], base, s, s', onTop, c);
      var r, r' := Execute(e[0], s, c), Execute(moved[0], s', c);
      RelocatedShifts(e[1..], base, r.values, r'.values, StaysOnTop(e[0], onTop), c);
    }
  }

  lemma PlusCommutes(a: Address, base: Address, n: int)
    ensures Wrap(Plus(a, base) + n) == Plus(Wrap(a + n), base)
  {
    WrapSum(n, a + base);
    WrapSum(base, a + n);
  }

  /**
   * In a module not loaded at its link address it does not, where the last thing pushed is an address: DW_OP_addr
   * pushes the address in the file.
   */
  lemma AddressIsNotMeaning(d: Description, base: Address)
    requires WellFormed(d) && !d.Register? && !DerefsInMemory(d) && EndsOnAddress(d.expression, false) && base != 0
    ensures Found(Encoded(d), PLAIN) != Meaning(LoadedAt(d, base), ContextOf(PLAIN))
  {
    if d.Implicit? {
      FoundImplicit(d.expression, PLAIN);
    } else {
      FoundMemory(d.expression, PLAIN);
    }
    var e, c := d.expression, ContextOf(PLAIN);
    RelocatedShifts(e, base, [], [], false, c);
    MeaningShifts(d, base, c, Evaluate(e, [], c).values, Evaluate(Relocated(e, base), [], c).values);
  }

  lemma MeaningShifts(d: Description, base: Address, c: Context, s: seq<Address>, s': seq<Address>)
    requires !d.Register? && base != 0 && Plain(c)
    requires Evaluate(d.expression, [], c) == Stack(s)
    requires Evaluate(LoadedAt(d, base).expression, [], c) == Stack(s')
    requires Shifts(s, s', base, true)
    ensures Meaning(d, c) != Meaning(LoadedAt(d, base), c)
  {
    MeaningOfStack(d, s, c);
    MeaningOfStack(LoadedAt(d, base), s', c);
    TopsDiffer(s[|s| - 1], s'[|s'| - 1], base);
  }

  lemma MeaningOfStack(d: Description, s: seq<Address>, c: Context)
    requires !d.Register? && Evaluate(d.expression, [], c) == Stack(s) && s != [] && Plain(c)
    ensures Meaning(d, c) == Value(if d.Implicit? then s[|s| - 1] else Plus(s[|s| - 1], 1))
  {
  }

  lemma TopsDiffer(a: Address, a': Address, base: Address)
    requires a' == Plus(a, base) && base != 0
    ensures a != a' && Plus(a, 1) != Plus(a', 1)
  {
    assert a' == if a + base < ADDRESS_SPACE then a + base else a + base - ADDRESS_SPACE;
    NextIs(a);
    NextIs(a');
  }

  lemma NextIs(a: Address)
    ensures Plus(a, 1) == if a + 1 < ADDRESS_SPACE then a + 1 else 0
  {
  }

  /** The code cannot tell a register number from its lowest 32 bits, so it never misses a register in NARROW. */
  lemma {:induction false} NarrowLikePlain(ops: seq<Operation>)
    requires forall op | op in ops :: !IsBased(op) || op.atom == DW_OP_bregx
    requires forall op | op in ops :: !IsReg(op) || op.atom == DW_OP_regx
    ensures TopOf(ops, NARROW) == TopOf(ops, PLAIN)
  {
    if ops != [] {
      NarrowLikePlain(ops[..|ops| - 1]);
      assert ops[|ops| - 1] in ops;
    }
  }

  lemma {:induction false} WideFails(e: seq<Instruction>, stack: seq<Address>)
    requires stack != [] || (e != [] && (e[0].Addr? || e[0].Bregx? || e[0].Fbreg?))
    requires exists i | i in e :: IsWide(i)
    ensures Evaluate(e, stack, ContextOf(NARROW)) == NoRegister
    decreases |e|
  {
    if !IsWide(e[0]) {
      var i :| i in e && IsWide(i);
      assert i in e[1..];
      match Execute(e[0], stack, ContextOf(NARROW)) case Stack(s) => WideFails(e[1..], s);
    }
  }

  /** Nor does it where a register number has more than 32 bits: the number is cut, and some register is read. */
  lemma WideIsNotMeaning(d: Description)
    requires WellFormed(d) && WideRegister(d)
    ensures Found(Encoded(d), NARROW) != Meaning(d, ContextOf(NARROW))
  {
    match d
    case Register(number, extended) => FoundRegister(number, extended, NARROW);
    case Implicit(e) => WideExpression(d, e);
    case Memory(e) => WideExpression(d, e);
  }

  lemma WideExpression(d: Description, e: seq<Instruction>)
    requires WellFormed(d) && d in {Implicit(e), Memory(e)} && exists i | i in e :: IsWide(i)
    ensures Found(Encoded(d), NARROW).Value? && Meaning(d, ContextOf(NARROW)) == Fault(UNKNOWN_REGISTER)
  {
    WideFails(e, []);
    PlainHasTop(e, []);
    if d.Implicit? {
      FoundImplicit(e, PLAIN);
    } else {
      FoundMemory(e, PLAIN);
    }
    EncodedIsNumbered(d, e);
    NarrowLikePlain(Encoded(d));
  }

  /** No description of this kind uses an operation with the register in its code. */
  lemma EncodedIsNumbered(d: Description, e: seq<Instruction>)
    requires WellFormed(d) && d in {Implicit(e), Memory(e)}
    ensures forall op | op in Encoded(d) :: (IsBased(op) ==> op.atom == DW_OP_bregx) && !IsReg(op)
  {
    var ops := Encoded(d);
    forall k | 0 <= k < |ops| ensures (IsBased(ops[k]) ==> ops[k].atom == DW_OP_bregx) && !IsReg(ops[k]) {
      assert k < |e| ==> ops[k] == Assembled(e[k]);
    }
  }
}
