/** The engine of src/cpu.rs as a pure state machine.

    `State` is the whole observable state of a `Cpu`: the registers, the
    4096-byte memory, the call stack, the framebuffer and the keypad.
    `Execute` is one call of `execute_opcode`, `Cycle` one call of
    `emulate_cycle`; both return `Err` where the Rust code would panic, and
    the state after a panic is not modelled.  The class in cpu.dfy is proved
    to compute exactly these functions. */
module Machine {
  import opened Bytes
  import Keypad
  import Display
  import opened Decoder

  const MEMORY_SIZE: int := 4096
  const REGISTER_COUNT: int := 16
  const STACK_SIZE: int := 16

  /** `PROGRAM_START`, where the program counter starts. */
  const PROGRAM_START: Word := 0x200

  /** VF, the flag register. */
  const VF: Nib := 0xF

  type Ram = s: seq<Byte> | |s| == MEMORY_SIZE witness seq(MEMORY_SIZE, _ => 0)

  type Regs = s: seq<Byte> | |s| == REGISTER_COUNT witness seq(REGISTER_COUNT, _ => 0)

  type Stack = s: seq<Word> | |s| == STACK_SIZE witness seq(STACK_SIZE, _ => 0)

  datatype State = State(
    i: Word,                 // index register
    pc: Word,                // program counter
    memory: Ram,
    v: Regs,                 // V0..VF
    stack: Stack,
    sp: Byte,                // stack pointer
    frame: Display.Frame,
    keypad: Keypad.Keypad,
    dt: Byte,                // delay timer
    st: Byte)                // sound timer

  /** `Cpu::new`. */
  function Init(): (s: State)
    ensures s.pc == PROGRAM_START && s.i == 0 && s.sp == 0 && s.dt == 0 && s.st == 0
    ensures forall k :: 0 <= k < MEMORY_SIZE ==> s.memory[k] == 0
    ensures forall k :: 0 <= k < REGISTER_COUNT ==> s.v[k] == 0 && s.stack[k] == 0
    ensures s.frame == Display.Blank() && s.keypad == Keypad.New()
  {
    State(0, PROGRAM_START, seq(MEMORY_SIZE, _ => 0), seq(REGISTER_COUNT, _ => 0),
          seq(STACK_SIZE, _ => 0), 0, Display.Blank(), Keypad.New(), 0, 0)
  }

  /** `load_rom`: byte k of the ROM goes to memory[k], from address 0 up;
      a ROM longer than memory runs off its end. */
  function LoadRom(s: State, rom: seq<Byte>): (r: Result<State>)
    ensures r.Err? <==> |rom| > MEMORY_SIZE
    ensures r.Err? ==> r.fault == MemoryBounds
    ensures r.Ok? ==> r.value == s.(memory := r.value.memory)
    ensures r.Ok? ==> forall k :: 0 <= k < |rom| ==> r.value.memory[k] == rom[k]
    ensures r.Ok? ==> forall k :: |rom| <= k < MEMORY_SIZE ==> r.value.memory[k] == s.memory[k]
  {
    if |rom| > MEMORY_SIZE then Err(MemoryBounds)
    else Ok(s.(memory := rom + s.memory[|rom|..]))
  }

  /** `read_opcode`: the big-endian word at pc and pc + 1. */
  function Fetch(memory: Ram, pc: Word): (r: Result<Word>)
    ensures r.Err? <==> pc + 1 >= MEMORY_SIZE
    ensures r.Err? ==> r.fault == MemoryBounds
    ensures r.Ok? ==> r.value / 0x100 == memory[pc] && r.value % 0x100 == memory[pc + 1]
  {
    if pc + 1 >= MEMORY_SIZE then Err(MemoryBounds)
    else Ok(memory[pc] as int * 0x100 + memory[pc + 1])
  }

  function SetV(s: State, x: Nib, b: Byte): State
  {
    s.(v := s.v[x := b])
  }

  /** `self.pc += if c { 2 } else { 0 }`; only the taken skip can overflow. */
  function Skip(t: State, c: bool): Result<State>
  {
    if !c then Ok(t)
    else if t.pc + 2 > MAX_WORD then Err(AddOverflow)
    else Ok(t.(pc := t.pc + 2))
  }

  /** How many of `keys` are pressed. */
  function PressedCount(keys: seq<bool>): (n: nat)
    ensures n <= |keys|
    ensures n == 0 <==> forall k :: 0 <= k < |keys| ==> !keys[k]
  {
    if keys == [] then 0
    else PressedCount(keys[..|keys| - 1]) + (if keys[|keys| - 1] then 1 else 0)
  }

  /** The highest index of a pressed key, -1 when none is pressed. */
  function LastPressed(keys: seq<bool>): (k: int)
    ensures -1 <= k < |keys|
    ensures k >= 0 ==> keys[k]
    ensures forall j :: k < j < |keys| ==> !keys[j]
  {
    if keys == [] then -1
    else if keys[|keys| - 1] then |keys| - 1
    else LastPressed(keys[..|keys| - 1])
  }

  /** The arms that move pc (RET, the jumps, CALL and the skips), and CLS,
      which always faults because `cls` indexes the display past its first
      dimension. */
  predicate IsFlow(ins: Instr)
  {
    ins.Cls? || ins.Ret? || ins.Jp? || ins.Call? || ins.JpV0? || ins.SeByte? || ins.SneByte? ||
    ins.SeReg? || ins.SneReg? || ins.Skp? || ins.Sknp?
  }

  /** The arms that write one register and leave VF alone. */
  predicate IsAlu(ins: Instr)
  {
    ins.LdByte? || ins.AddByte? || ins.LdReg? || ins.Or? || ins.And? || ins.Xor? || ins.Rnd? || ins.LdVxDt?
  }

  /** The arms that write VF: the flagged arithmetic and the shifts. */
  predicate IsArith(ins: Instr)
  {
    ins.AddReg? || ins.Sub? || ins.Shr? || ins.SubN? || ins.Shl?
  }

  /** The arms that write memory or copy a block of it. */
  predicate IsBlock(ins: Instr)
  {
    ins.LdB? || ins.StoreRegs? || ins.LoadRegs?
  }

  /** The arms that set I or a timer, and the unmatched words. */
  predicate IsMisc(ins: Instr)
  {
    ins.LdI? || ins.AddI? || ins.LdF? || ins.LdDtVx? || ins.LdStVx? || ins.NoOp?
  }

  function FlowArm(t: State, ins: Instr): Result<State>
    requires IsFlow(ins)
  {
    match ins
    case Cls => Err(DisplayBounds)
    case Ret =>
      if t.sp == 0 then Err(StackUnderflow)
      else if t.sp - 1 >= STACK_SIZE then Err(StackBounds)
      else Ok(t.(sp := t.sp - 1, pc := t.stack[t.sp - 1]))
    case Jp(a) => Ok(t.(pc := a))
    case Call(a) =>
      if t.sp >= STACK_SIZE then Err(StackBounds)
      else Ok(t.(stack := t.stack[t.sp := t.pc], sp := t.sp + 1, pc := a))
    case JpV0(a) => Ok(t.(pc := a + t.v[0]))
    case SeByte(x, kk) => Skip(t, t.v[x] == kk)
    case SneByte(x, kk) => Skip(t, t.v[x] != kk)
    case SeReg(x, y) => Skip(t, t.v[x] == t.v[y])
    case SneReg(x, y) => Skip(t, t.v[x] != t.v[y])
    case Skp(x) => (
      match Keypad.IsPressed(t.keypad, t.v[x])
      case Err(f) => Err(f)
      case Ok(p) => Skip(t, p))
    case Sknp(x) => (
      match Keypad.IsPressed(t.keypad, t.v[x])
      case Err(f) => Err(f)
      case Ok(p) => Skip(t, !p))
  }

  function AluArm(t: State, ins: Instr, rnd: Byte): Result<State>
    requires IsAlu(ins)
  {
    match ins
    case LdByte(x, kk) => Ok(SetV(t, x, kk))
    case AddByte(x, kk) =>
      if t.v[x] + kk > MAX_BYTE then Err(AddOverflow) else Ok(SetV(t, x, t.v[x] + kk))
    case LdReg(x, y) => Ok(SetV(t, x, t.v[y]))
    case Or(x, y) => Ok(SetV(t, x, Or8(t.v[x], t.v[y])))
    case And(x, y) => Ok(SetV(t, x, And8(t.v[x], t.v[y])))
    case Xor(x, y) => Ok(SetV(t, x, Xor8(t.v[x], t.v[y])))
    case Rnd(x, kk) => Ok(SetV(t, x, And8(kk, rnd)))
    case LdVxDt(x) => Ok(SetV(t, x, t.dt))
  }

  /** VF is written before Vx, and Vx is computed from the values both had
      before; SHL doubles Vx after VF has been written. */
  function ArithArm(t: State, ins: Instr): State
    requires IsArith(ins)
  {
    match ins
    case AddReg(x, y) =>
      var sum := t.v[x] as int + t.v[y];
      SetV(SetV(t, VF, if sum > MAX_BYTE then 1 else 0), x, sum % 0x100)
    case Sub(x, y) =>
      var diff := (t.v[x] as int - t.v[y]) % 0x100;
      SetV(SetV(t, VF, if t.v[x] < t.v[y] then 0 else 1), x, diff)
    case Shr(x, _) =>
      if t.v[x] % 2 == 1 then SetV(t, VF, 1) else SetV(t, x, t.v[x] / 2)
    case SubN(x, y) =>
      var diff := (t.v[y] as int - t.v[x]) % 0x100;
      SetV(SetV(t, VF, if t.v[y] < t.v[x] then 0 else 1), x, diff)
    case Shl(x, _) =>
      var u := SetV(t, VF, And8(t.v[x], 0x80));
      SetV(u, x, u.v[x] as int * 2 % 0x100)
  }

  function BlockArm(t: State, ins: Instr): Result<State>
    requires IsBlock(ins)
  {
    match ins
    case LdB(x) =>
      if t.i + 2 >= MEMORY_SIZE then Err(MemoryBounds)
      else Ok(t.(memory := t.memory[t.i := t.v[x] / 100][t.i + 1 := t.v[x] / 10 % 10][t.i + 2 := t.v[x] % 10]))
    case StoreRegs(x) =>
      if t.i + x >= MEMORY_SIZE then Err(MemoryBounds)
      else Ok(t.(memory := t.memory[..t.i] + t.v[..x + 1] + t.memory[t.i + x + 1..]))
    case LoadRegs(x) =>
      if t.i + x >= MEMORY_SIZE then Err(MemoryBounds)
      else Ok(t.(v := t.memory[t.i..t.i + x + 1] + t.v[x + 1..]))
  }

  /** `DRW Vx, Vy, n`: the n bytes from I, drawn at (Vx, Vy); VF is 0 after
      a collision and 1 otherwise. */
  function DrawArm(t: State, x: Nib, y: Nib, n: Nib): Result<State>
  {
    if t.i + n > MAX_WORD then Err(AddOverflow)
    else if t.i + n > MEMORY_SIZE then Err(MemoryBounds)
    else match Display.DrawOn(t.frame, t.v[x], t.v[y], t.memory[t.i..t.i + n])
      case DrawFault => Err(DisplayBounds)
      case Drawn(f, hit) => Ok(SetV(t.(frame := f), VF, if hit then 0 else 1))
  }

  /** `LD Vx, K`: pc goes back by 2 and then on by 2 per pressed key; Vx
      ends with the highest pressed index. */
  function KeyWaitArm(t: State, x: Nib): Result<State>
    requires t.pc >= 2
  {
    var n := PressedCount(t.keypad.keys);
    var pc := t.pc - 2;
    if n == 0 then Ok(t.(pc := pc))
    else if pc + 2 * n > MAX_WORD then Err(AddOverflow)
    else Ok(SetV(t.(pc := pc + 2 * n), x, LastPressed(t.keypad.keys)))
  }

  function MiscArm(t: State, ins: Instr): Result<State>
    requires IsMisc(ins)
  {
    match ins
    case LdI(a) => Ok(t.(i := a))
    case AddI(x) =>
      if t.i + t.v[x] > MAX_WORD then Err(AddOverflow) else Ok(t.(i := t.i + t.v[x]))
    case LdF(x) => Ok(t.(i := t.v[x] as int * 5))
    case LdDtVx(x) => Ok(t.(dt := t.v[x]))
    case LdStVx(x) => Ok(t.(st := t.v[x]))
    case NoOp => Ok(t)
  }

  /** The arm of `execute_opcode` selected by `ins`, run on the state `t`
      whose pc has already been advanced by 2. */
  function Perform(t: State, ins: Instr, rnd: Byte): Result<State>
    requires t.pc >= 2
  {
    if IsFlow(ins) then FlowArm(t, ins)
    else if IsAlu(ins) then AluArm(t, ins, rnd)
    else if IsArith(ins) then Ok(ArithArm(t, ins))
    else if IsBlock(ins) then BlockArm(t, ins)
    else if ins.Drw? then DrawArm(t, ins.x, ins.y, ins.n)
    else if ins.LdVxK? then KeyWaitArm(t, ins.x)
    else MiscArm(t, ins)
  }

  /** `execute_opcode`: advance pc by 2, then run the arm the word selects. */
  function Execute(s: State, op: Word, rnd: Byte): Result<State>
  {
    if s.pc + 2 > MAX_WORD then Err(AddOverflow)
    else Perform(s.(pc := s.pc + 2), Decode(op), rnd)
  }

  /** The timer step at the end of `emulate_cycle`: each timer that is
      nonzero goes down by one, so neither ever goes below zero. */
  function Tick(s: State): (t: State)
    ensures t == s.(dt := t.dt, st := t.st)
    ensures s.dt > 0 ==> t.dt == s.dt - 1
    ensures s.dt == 0 ==> t.dt == 0
    ensures s.st > 0 ==> t.st == s.st - 1
    ensures s.st == 0 ==> t.st == 0
  {
    s.(dt := if s.dt > 0 then s.dt - 1 else 0, st := if s.st > 0 then s.st - 1 else 0)
  }

  /** `emulate_cycle`: fetch, execute once, tick the timers. */
  function Cycle(s: State, rnd: Byte): Result<State>
  {
    match Fetch(s.memory, s.pc)
    case Err(f) => Err(f)
    case Ok(op) =>
      match Execute(s, op, rnd)
      case Err(f) => Err(f)
      case Ok(t) => Ok(Tick(t))
  }

  // Control flow

  /** Whether an arm leaves pc where the initial advance by 2 put it. */
  predicate Sequential(ins: Instr)
  {
    !(ins.Ret? || ins.Jp? || ins.Call? || ins.SeByte? || ins.SneByte? || ins.SeReg? ||
      ins.SneReg? || ins.JpV0? || ins.Skp? || ins.Sknp? || ins.LdVxK?)
  }

  /** pc advances by 2 before the dispatch, so loads, arithmetic, memory
      and draw arms and unmatched words end at the next instruction; an
      unmatched word changes nothing else. */
  lemma AdvancesPc(s: State, op: Word, rnd: Byte)
    ensures s.pc + 2 > MAX_WORD ==> Execute(s, op, rnd) == Err(AddOverflow)
    ensures Sequential(Decode(op)) && Execute(s, op, rnd).Ok? ==>
      Execute(s, op, rnd).value.pc == s.pc + 2
    ensures Decode(op).NoOp? && s.pc + 2 <= MAX_WORD ==> Execute(s, op, rnd) == Ok(s.(pc := s.pc + 2))
  {
  }

  /** `JP addr` jumps to the low 12 bits of the word. */
  lemma Jumps(s: State, op: Word, rnd: Byte)
    requires s.pc + 2 <= MAX_WORD
    ensures op / 0x1000 == 0x1 ==> Execute(s, op, rnd) == Ok(s.(pc := op % 0x1000))
  {
    Operands(op);
  }

  /** `JP V0, addr` jumps to the low 12 bits of the word plus V0. */
  lemma JumpsOffset(s: State, op: Word, rnd: Byte)
    requires s.pc + 2 <= MAX_WORD
    ensures op / 0x1000 == 0xB ==> Execute(s, op, rnd) == Ok(s.(pc := op % 0x1000 + s.v[0]))
  {
    Operands(op);
  }

  /** `CALL addr` pushes the address of the next instruction and jumps;
      the seventeenth nested call runs off the stack. */
  lemma CallPushes(s: State, op: Word, rnd: Byte)
    requires op / 0x1000 == 0x2 && s.pc + 2 <= MAX_WORD
    ensures s.sp >= STACK_SIZE ==> Execute(s, op, rnd) == Err(StackBounds)
    ensures s.sp < STACK_SIZE ==>
      Execute(s, op, rnd) == Ok(s.(stack := s.stack[s.sp := s.pc + 2], sp := s.sp + 1, pc := op % 0x1000))
  {
    Operands(op);
  }

  /** `RET` pops the top of the stack into pc; with an empty stack the
      decrement of sp underflows. */
  lemma RetPops(s: State, rnd: Byte)
    requires s.pc + 2 <= MAX_WORD
    ensures s.sp == 0 ==> Execute(s, 0x00EE, rnd) == Err(StackUnderflow)
    ensures 0 < s.sp <= STACK_SIZE ==>
      Execute(s, 0x00EE, rnd) == Ok(s.(sp := s.sp - 1, pc := s.stack[s.sp - 1]))
    ensures s.sp > STACK_SIZE ==> Execute(s, 0x00EE, rnd) == Err(StackBounds)
  {
    assert Decode(0x00EE) == Ret;
  }

  /** A `RET` right after a `CALL` resumes after the call with the stack
      pointer it started with. */
  lemma CallThenRet(s: State, op: Word, rnd: Byte, rnd': Byte)
    requires op / 0x1000 == 0x2 && s.pc + 2 <= MAX_WORD && s.sp < STACK_SIZE
    ensures Execute(s, op, rnd).Ok?
    ensures var t := Execute(s, op, rnd).value;
      Execute(t, 0x00EE, rnd') == Ok(s.(pc := s.pc + 2, stack := t.stack))
  {
    CallPushes(s, op, rnd);
    var t := Execute(s, op, rnd).value;
    RetPops(t, rnd');
  }

  /** The conditional skips against a byte. */
  lemma ByteSkips(s: State, op: Word, rnd: Byte)
    requires s.pc + 2 <= MAX_WORD
    ensures Decode(op).SeByte? ==> var ins := Decode(op);
      Execute(s, op, rnd) == Skip(s.(pc := s.pc + 2), s.v[ins.x] == ins.kk)
    ensures Decode(op).SneByte? ==> var ins := Decode(op);
      Execute(s, op, rnd) == Skip(s.(pc := s.pc + 2), s.v[ins.x] != ins.kk)
  {
  }

  /** The same for `SE Vx, Vy`, which compares two registers. */
  lemma RegisterSkips(s: State, op: Word, rnd: Byte)
    requires s.pc + 2 <= MAX_WORD
    ensures Decode(op).SeReg? ==> var ins := Decode(op);
      Execute(s, op, rnd) == Skip(s.(pc := s.pc + 2), s.v[ins.x] == s.v[ins.y])
  {
  }

  /** And for `SNE Vx, Vy`. */
  lemma RegisterSkipsNot(s: State, op: Word, rnd: Byte)
    requires s.pc + 2 <= MAX_WORD
    ensures Decode(op).SneReg? ==> var ins := Decode(op);
      Execute(s, op, rnd) == Skip(s.(pc := s.pc + 2), s.v[ins.x] != s.v[ins.y])
  {
  }

  /** `SKP Vx` and `SKNP Vx` test key Vx; a Vx of 16 or more is not a key. */
  lemma KeySkips(s: State, op: Word, rnd: Byte)
    requires s.pc + 2 <= MAX_WORD
    requires Decode(op).Skp? || Decode(op).Sknp?
    ensures var x := Decode(op).x; s.v[x] >= Keypad.KEY_COUNT ==> Execute(s, op, rnd) == Err(KeyBounds)
    ensures var x := Decode(op).x; s.v[x] < Keypad.KEY_COUNT ==>
      Execute(s, op, rnd) == Skip(s.(pc := s.pc + 2), s.keypad.keys[s.v[x]] == Decode(op).Skp?)
  {
  }

  /** The six conditional skips. */
  predicate IsSkip(ins: Instr)
  {
    ins.SeByte? || ins.SneByte? || ins.SeReg? || ins.SneReg? || ins.Skp? || ins.Sknp?
  }

  /** Whether a skip's condition holds in `s`: a key skip on a register
      that is not a key index takes neither way. */
  predicate SkipTaken(s: State, ins: Instr)
  {
    match ins
    case SeByte(x, kk) => s.v[x] == kk
    case SneByte(x, kk) => s.v[x] != kk
    case SeReg(x, y) => s.v[x] == s.v[y]
    case SneReg(x, y) => s.v[x] != s.v[y]
    case Skp(x) => s.v[x] < Keypad.KEY_COUNT && s.keypad.keys[s.v[x]]
    case Sknp(x) => s.v[x] < Keypad.KEY_COUNT && !s.keypad.keys[s.v[x]]
    case _ => false
  }

  /** Every skip faults exactly when it tests a key index of 16 or more, or
      when it is taken and the second advance of pc passes 0xFFFF; otherwise
      it only moves pc, by 4 when taken and by 2 when not. */
  lemma SkipOverflow(s: State, op: Word, rnd: Byte)
    requires s.pc + 2 <= MAX_WORD && IsSkip(Decode(op))
    ensures var ins := Decode(op);
      Execute(s, op, rnd).Err? <==>
        ((ins.Skp? || ins.Sknp?) && s.v[ins.x] >= Keypad.KEY_COUNT) || (SkipTaken(s, ins) && s.pc + 4 > MAX_WORD)
    ensures Execute(s, op, rnd).Ok? ==>
      Execute(s, op, rnd).value == s.(pc := if SkipTaken(s, Decode(op)) then s.pc + 4 else s.pc + 2)
  {
    var ins := Decode(op);
    if ins.Skp? || ins.Sknp? {
      KeySkips(s, op, rnd);
    } else {
      ByteSkips(s, op, rnd);
      RegisterSkips(s, op, rnd);
      RegisterSkipsNot(s, op, rnd);
    }
  }

  // Registers

  /** `t` differs from `s` only in the registers and in pc having moved on
      to the next instruction. */
  predicate RegistersOnly(s: State, t: State)
  {
    t.pc == s.pc + 2 && t == s.(pc := t.pc, v := t.v)
  }

  /** No register other than Vx and VF differs between `s` and `t`. */
  predicate OthersKept(s: State, t: State, x: Nib)
  {
    forall k :: 0 <= k < REGISTER_COUNT && k != x && k != VF ==> t.v[k] == s.v[k]
  }

  /** `ADD Vx, Vy` wraps the sum into Vx and sets VF exactly when it
      carries; the flag is written first, so for x = F the sum wins. */
  lemma AddRegFlag(s: State, op: Word, x: Nib, y: Nib, rnd: Byte)
    requires s.pc + 2 <= MAX_WORD && Decode(op) == AddReg(x, y)
    ensures Execute(s, op, rnd).Ok?
    ensures var t := Execute(s, op, rnd).value; var sum := s.v[x] as int + s.v[y];
      RegistersOnly(s, t) && OthersKept(s, t, x) && t.v[x] == sum % 0x100 &&
      (x != VF ==> t.v[VF] == if sum > MAX_BYTE then 1 else 0)
  {
  }

  /** `SUB Vx, Vy` stores Vx - Vy wrapped and sets VF exactly when there
      is no borrow. */
  lemma SubFlag(s: State, op: Word, x: Nib, y: Nib, rnd: Byte)
    requires s.pc + 2 <= MAX_WORD && Decode(op) == Sub(x, y)
    ensures Execute(s, op, rnd).Ok?
    ensures var t := Execute(s, op, rnd).value;
      RegistersOnly(s, t) && OthersKept(s, t, x) &&
      (s.v[x] >= s.v[y] ==> t.v[x] == s.v[x] - s.v[y]) &&
      (s.v[x] < s.v[y] ==> t.v[x] == s.v[x] as int - s.v[y] + 0x100) &&
      (x != VF ==> t.v[VF] == if s.v[x] >= s.v[y] then 1 else 0)
  {
  }

  /** `SUBN Vx, Vy` stores Vy - Vx wrapped and sets VF exactly when there
      is no borrow. */
  lemma SubNFlag(s: State, op: Word, x: Nib, y: Nib, rnd: Byte)
    requires s.pc + 2 <= MAX_WORD && Decode(op) == SubN(x, y)
    ensures Execute(s, op, rnd).Ok?
    ensures var t := Execute(s, op, rnd).value;
      RegistersOnly(s, t) && OthersKept(s, t, x) &&
      (s.v[y] >= s.v[x] ==> t.v[x] == s.v[y] - s.v[x]) &&
      (s.v[y] < s.v[x] ==> t.v[x] == s.v[y] as int - s.v[x] + 0x100) &&
      (x != VF ==> t.v[VF] == if s.v[y] >= s.v[x] then 1 else 0)
  {
  }

  /** The register loads and the bitwise operations write Vx only and so
      leave VF alone unless Vx is VF. */
  lemma FlagKept(s: State, op: Word, rnd: Byte)
    requires s.pc + 2 <= MAX_WORD
    requires var ins := Decode(op); ins.LdByte? || ins.LdReg? || ins.Or? || ins.And? || ins.Xor?
    ensures Execute(s, op, rnd).Ok?
    ensures var t := Execute(s, op, rnd).value; var x := Decode(op).x;
      t == s.(pc := s.pc + 2, v := s.v[x := t.v[x]])
    ensures var t := Execute(s, op, rnd).value; var ins := Decode(op);
      t.v[ins.x] == match ins
        case LdByte(_, kk) => kk
        case LdReg(x, y) => s.v[y]
        case Or(x, y) => Or8(s.v[x], s.v[y])
        case And(x, y) => And8(s.v[x], s.v[y])
        case Xor(x, y) => Xor8(s.v[x], s.v[y])
  {
  }

  /** `ADD Vx, byte` is an unchecked `+=`: a sum past 255 overflows, any
      other sum lands in Vx and VF is left alone. */
  lemma AddByteOverflow(s: State, op: Word, x: Nib, kk: Byte, rnd: Byte)
    requires s.pc + 2 <= MAX_WORD && Decode(op) == AddByte(x, kk)
    ensures s.v[x] + kk > MAX_BYTE ==> Execute(s, op, rnd) == Err(AddOverflow)
    ensures s.v[x] + kk <= MAX_BYTE ==> Execute(s, op, rnd) == Ok(s.(pc := s.pc + 2, v := s.v[x := s.v[x] + kk]))
  {
  }

  /** `SHR Vx` as written: an odd Vx only sets VF to 1; an even Vx is
      halved and VF is left alone. */
  lemma ShiftRight(s: State, op: Word, x: Nib, y: Nib, rnd: Byte)
    requires s.pc + 2 <= MAX_WORD && Decode(op) == Shr(x, y)
    ensures s.v[x] % 2 == 1 ==> Execute(s, op, rnd) == Ok(s.(pc := s.pc + 2, v := s.v[VF := 1]))
    ensures s.v[x] % 2 == 0 ==> Execute(s, op, rnd) == Ok(s.(pc := s.pc + 2, v := s.v[x := s.v[x] / 2]))
  {
  }

  /** `SHL Vx` as written: VF gets the top bit in place (0 or 0x80), then
      Vx doubles modulo 256; for x = F the doubled flag is always 0. */
  lemma ShiftLeft(s: State, op: Word, x: Nib, y: Nib, rnd: Byte)
    requires s.pc + 2 <= MAX_WORD && Decode(op) == Shl(x, y)
    ensures Execute(s, op, rnd).Ok?
    ensures var t := Execute(s, op, rnd).value;
      RegistersOnly(s, t) && OthersKept(s, t, x) &&
      (x != VF ==> t.v[VF] == (if s.v[x] >= 0x80 then 0x80 else 0) && t.v[x] == s.v[x] as int * 2 % 0x100) &&
      (x == VF ==> t.v[VF] == 0)
  {
    And80(s.v[x]);
  }

  // Memory, index register and timers

  /** Whether `t` differs from `s` only in memory and in pc having moved on
      to the next instruction. */
  predicate MemoryOnly(s: State, t: State)
  {
    t.pc == s.pc + 2 && t == s.(pc := t.pc, memory := t.memory)
  }

  /** The three decimal digits of a byte put it back together. */
  lemma Digits(b: Byte)
    ensures b / 100 <= 2 && b / 10 % 10 < 10 && b % 10 < 10
    ensures b / 100 * 100 + b / 10 % 10 * 10 + b % 10 == b
  {
    var h, r := b / 100, b % 100;
    assert b == h * 100 + r;
    assert b / 10 == h * 10 + r / 10;
    assert b % 10 == r % 10;
  }

  /** `LD B, Vx` writes the hundreds, tens and ones digit of Vx to I, I+1
      and I+2 and nothing else; I+2 past the end of memory is a fault. */
  lemma Bcd(s: State, op: Word, x: Nib, rnd: Byte)
    requires s.pc + 2 <= MAX_WORD && Decode(op) == LdB(x)
    ensures s.i + 2 >= MEMORY_SIZE ==> Execute(s, op, rnd) == Err(MemoryBounds)
    ensures s.i + 2 < MEMORY_SIZE ==> Execute(s, op, rnd).Ok?
    ensures s.i + 2 < MEMORY_SIZE ==> var t := Execute(s, op, rnd).value;
      MemoryOnly(s, t) &&
      t.memory[s.i] * 100 + t.memory[s.i + 1] * 10 + t.memory[s.i + 2] == s.v[x] &&
      t.memory[s.i] <= 2 && t.memory[s.i + 1] < 10 && t.memory[s.i + 2] < 10 &&
      forall a :: 0 <= a < MEMORY_SIZE && !(s.i <= a <= s.i + 2) ==> t.memory[a] == s.memory[a]
  {
    Digits(s.v[x]);
  }

  /** The example of the tests: 234 gives the digits 2, 3 and 4. */
  lemma Bcd234(s: State, rnd: Byte)
    requires s.pc + 2 <= MAX_WORD && s.i == 0x300 && s.v[2] == 234
    ensures Execute(s, 0xF233, rnd).Ok?
    ensures var t := Execute(s, 0xF233, rnd).value;
      t.memory[0x300] == 2 && t.memory[0x301] == 3 && t.memory[0x302] == 4
  {
    assert Decode(0xF233) == LdB(2);
  }

  /** `LD [I], Vx` copies exactly V0..Vx to memory from I; I + x past the
      end of memory is a fault. */
  lemma StoreRegisters(s: State, op: Word, x: Nib, rnd: Byte)
    requires s.pc + 2 <= MAX_WORD && Decode(op) == StoreRegs(x)
    ensures s.i + x >= MEMORY_SIZE ==> Execute(s, op, rnd) == Err(MemoryBounds)
    ensures s.i + x < MEMORY_SIZE ==> Execute(s, op, rnd).Ok?
    ensures s.i + x < MEMORY_SIZE ==> var t := Execute(s, op, rnd).value;
      MemoryOnly(s, t) &&
      (forall k :: 0 <= k <= x ==> t.memory[s.i + k] == s.v[k]) &&
      (forall a :: 0 <= a < MEMORY_SIZE && !(s.i <= a <= s.i + x) ==> t.memory[a] == s.memory[a])
  {
    if s.i + x < MEMORY_SIZE {
      var t := Execute(s, op, rnd).value;
      assert t.memory == s.memory[..s.i] + s.v[..x + 1] + s.memory[s.i + x + 1..];
      forall k | 0 <= k <= x ensures t.memory[s.i + k] == s.v[k] {
      }
    }
  }

  /** `LD Vx, [I]` copies exactly memory[I..I+x] into V0..Vx; the other
      registers, VF included when x < F, keep their values. */
  lemma LoadRegisters(s: State, op: Word, x: Nib, rnd: Byte)
    requires s.pc + 2 <= MAX_WORD && Decode(op) == LoadRegs(x)
    ensures s.i + x >= MEMORY_SIZE ==> Execute(s, op, rnd) == Err(MemoryBounds)
    ensures s.i + x < MEMORY_SIZE ==> Execute(s, op, rnd).Ok?
    ensures s.i + x < MEMORY_SIZE ==> var t := Execute(s, op, rnd).value;
      RegistersOnly(s, t) &&
      (forall k :: 0 <= k <= x ==> t.v[k] == s.memory[s.i + k]) &&
      (forall k :: x < k < REGISTER_COUNT ==> t.v[k] == s.v[k])
  {
  }

  /** An `LD [I], Vx` followed by an `LD Vx, [I]` with the same I gives back
      the registers it stored. */
  lemma StoreThenLoad(s: State, store: Word, load: Word, x: Nib, rnd: Byte, rnd': Byte)
    requires s.pc + 4 <= MAX_WORD && s.i + x < MEMORY_SIZE
    requires Decode(store) == StoreRegs(x) && Decode(load) == LoadRegs(x)
    ensures Execute(s, store, rnd).Ok?
    ensures var t := Execute(s, store, rnd).value;
      Execute(t, load, rnd') == Ok(t.(pc := t.pc + 2))
  {
    StoreRegisters(s, store, x, rnd);
    var t := Execute(s, store, rnd).value;
    LoadRegisters(t, load, x, rnd');
    var u := Execute(t, load, rnd').value;
    assert u.v == t.v;
  }

  /** `LD I, addr` loads the low 12 bits of the word into I. */
  lemma LoadIndex(s: State, op: Word, rnd: Byte)
    requires s.pc + 2 <= MAX_WORD
    ensures op / 0x1000 == 0xA ==> Execute(s, op, rnd) == Ok(s.(pc := s.pc + 2, i := op % 0x1000))
  {
    Operands(op);
  }

  /** `ADD I, Vx` is an unchecked `+=` on the 16-bit I; `LD F, Vx` sets I
      to 5 * Vx without masking Vx to a digit. */
  lemma IndexRegister(s: State, op: Word, rnd: Byte)
    requires s.pc + 2 <= MAX_WORD
    ensures Decode(op).AddI? ==> var x := Decode(op).x;
      Execute(s, op, rnd) == if s.i + s.v[x] > MAX_WORD then Err(AddOverflow)
        else Ok(s.(pc := s.pc + 2, i := s.i + s.v[x]))
    ensures Decode(op).LdF? ==> var x := Decode(op).x;
      Execute(s, op, rnd) == Ok(s.(pc := s.pc + 2, i := s.v[x] as int * 5))
  {
  }

  /** `LD Vx, DT` copies the delay timer into a register. */
  lemma ReadTimer(s: State, op: Word, rnd: Byte)
    requires s.pc + 2 <= MAX_WORD
    ensures Decode(op).LdVxDt? ==> var x := Decode(op).x;
      Execute(s, op, rnd) == Ok(s.(pc := s.pc + 2, v := s.v[x := s.dt]))
  {
  }

  /** `LD DT, Vx` and `LD ST, Vx` copy a register into a timer. */
  lemma TimerLoads(s: State, op: Word, rnd: Byte)
    requires s.pc + 2 <= MAX_WORD
    ensures Decode(op).LdDtVx? ==> var x := Decode(op).x;
      Execute(s, op, rnd) == Ok(s.(pc := s.pc + 2, dt := s.v[x]))
    ensures Decode(op).LdStVx? ==> var x := Decode(op).x;
      Execute(s, op, rnd) == Ok(s.(pc := s.pc + 2, st := s.v[x]))
  {
  }

  /** `RND Vx, byte` stores the byte masked with the random value. */
  lemma Random(s: State, op: Word, x: Nib, kk: Byte, rnd: Byte)
    requires s.pc + 2 <= MAX_WORD && Decode(op) == Rnd(x, kk)
    ensures Execute(s, op, rnd) == Ok(s.(pc := s.pc + 2, v := s.v[x := And8(kk, rnd)]))
  {
  }

  // Key wait and draw

  /** `LD Vx, K` as written: pc goes back to the instruction, then moves on
      by 2 for every pressed key while Vx takes each pressed index in turn,
      ending with the highest; with no key pressed nothing changes, so the
      instruction runs again. */
  lemma WaitKey(s: State, op: Word, x: Nib, rnd: Byte)
    requires s.pc + 2 <= MAX_WORD && Decode(op) == LdVxK(x)
    ensures (forall k :: 0 <= k < Keypad.KEY_COUNT ==> !s.keypad.keys[k]) ==> Execute(s, op, rnd) == Ok(s)
    ensures var n := PressedCount(s.keypad.keys); n > 0 ==>
      Execute(s, op, rnd) == if s.pc + 2 * n > MAX_WORD then Err(AddOverflow)
        else Ok(s.(pc := s.pc + 2 * n, v := s.v[x := LastPressed(s.keypad.keys)]))
  {
  }

  /** `DRW Vx, Vy, n` draws the n bytes from I at (Vx, Vy): the slice past
      the end of memory and a set bit in a column of 32 or more are faults;
      otherwise exactly the touched pixels flip and VF is 0 when some
      touched pixel was lit and 1 when none was. */
  lemma DrawSprite(s: State, op: Word, x: Nib, y: Nib, n: Nib, rnd: Byte)
    requires s.pc + 2 <= MAX_WORD && Decode(op) == Drw(x, y, n)
    ensures s.i + n > MAX_WORD ==> Execute(s, op, rnd) == Err(AddOverflow)
    ensures MEMORY_SIZE < s.i + n <= MAX_WORD ==> Execute(s, op, rnd) == Err(MemoryBounds)
    ensures s.i + n <= MEMORY_SIZE ==> var sprite := s.memory[s.i..s.i + n];
      (Execute(s, op, rnd).Err? <==> Display.OffScreen(s.v[x], s.v[y], sprite, 0)) &&
      (Execute(s, op, rnd).Err? ==> Execute(s, op, rnd).fault == DisplayBounds)
    ensures s.i + n <= MEMORY_SIZE && Execute(s, op, rnd).Ok? ==>
      var sprite := s.memory[s.i..s.i + n];
      var t := Execute(s, op, rnd).value;
      t == s.(pc := s.pc + 2, frame := t.frame, v := s.v[VF := t.v[VF]]) &&
      (forall c, r :: 0 <= c < Display.HEIGHT && 0 <= r < Display.WIDTH ==>
         t.frame[c][r] == if Display.Touched(s.v[x], s.v[y], sprite, 0, c, r)
           then Display.Flip(s.frame[c][r]) else s.frame[c][r]) &&
      (t.v[VF] == 0 <==> (exists c, r :: 0 <= c < Display.HEIGHT && 0 <= r < Display.WIDTH &&
                           Display.Touched(s.v[x], s.v[y], sprite, 0, c, r) && s.frame[c][r] == 1)) &&
      t.v[VF] <= 1
  {
    if s.i + n <= MEMORY_SIZE {
      var sprite := s.memory[s.i..s.i + n];
      Display.FaultIff(s.frame, s.v[x], s.v[y], sprite, 0);
      Display.Pointwise(s.frame, s.v[x], s.v[y], sprite, 0);
    }
  }

  // The cycle

  /** The arms other than DRW leave the frame as it is. */
  lemma FlowKeepsFrame(t: State, ins: Instr)
    requires IsFlow(ins)
    ensures FlowArm(t, ins).Ok? ==> FlowArm(t, ins).value.frame == t.frame
  {
  }

  lemma AluKeepsFrame(t: State, ins: Instr, rnd: Byte)
    requires IsAlu(ins)
    ensures AluArm(t, ins, rnd).Ok? ==> AluArm(t, ins, rnd).value.frame == t.frame
  {
  }

  lemma ArithKeepsFrame(t: State, ins: Instr)
    requires IsArith(ins)
    ensures ArithArm(t, ins).frame == t.frame
  {
  }

  lemma BlockKeepsFrame(t: State, ins: Instr)
    requires IsBlock(ins)
    ensures BlockArm(t, ins).Ok? ==> BlockArm(t, ins).value.frame == t.frame
  {
  }

  lemma MiscKeepsFrame(t: State, ins: Instr)
    requires IsMisc(ins)
    ensures MiscArm(t, ins).Ok? ==> MiscArm(t, ins).value.frame == t.frame
  {
  }

  /** Every instruction keeps the frame a picture of 0/1 pixels: only DRW
      changes it, and a draw keeps 0/1 pixels 0/1. */
  lemma ExecuteKeepsBinary(s: State, op: Word, rnd: Byte)
    requires Display.Binary(s.frame)
    ensures Execute(s, op, rnd).Ok? ==> Display.Binary(Execute(s, op, rnd).value.frame)
  {
    if s.pc + 2 <= MAX_WORD {
      var t := s.(pc := s.pc + 2);
      var ins := Decode(op);
      if IsFlow(ins) {
        FlowKeepsFrame(t, ins);
      } else if IsAlu(ins) {
        AluKeepsFrame(t, ins, rnd);
      } else if IsArith(ins) {
        ArithKeepsFrame(t, ins);
      } else if IsBlock(ins) {
        BlockKeepsFrame(t, ins);
      } else if ins.Drw? {
        if t.i + ins.n <= MAX_WORD && t.i + ins.n <= MEMORY_SIZE {
          Display.KeepsBinary(t.frame, t.v[ins.x], t.v[ins.y], t.memory[t.i..t.i + ins.n], 0);
        }
      } else if !ins.LdVxK? {
        MiscKeepsFrame(t, ins);
      }
    }
  }

  /** `emulate_cycle` executes the big-endian word at pc exactly once and
      then ticks the timers; a pc at the last byte of memory is a fault. */
  lemma CycleOnce(s: State, rnd: Byte)
    ensures s.pc + 1 >= MEMORY_SIZE ==> Cycle(s, rnd) == Err(MemoryBounds)
    ensures s.pc + 1 < MEMORY_SIZE ==>
      var op := s.memory[s.pc] as int * 0x100 + s.memory[s.pc + 1];
      (Cycle(s, rnd).Ok? <==> Execute(s, op, rnd).Ok?) &&
      (Cycle(s, rnd).Ok? ==> Cycle(s, rnd).value == Tick(Execute(s, op, rnd).value))
  {
    if s.pc + 1 < MEMORY_SIZE {
      var op := s.memory[s.pc] as int * 0x100 + s.memory[s.pc + 1];
      assert Fetch(s.memory, s.pc) == Ok(op);
    }
  }

  /** The test program 61AA 621A at the program start: two cycles load V1
      and V2 and leave pc two instructions further on. */
  lemma TwoLoads(s: State, rnd: Byte, rnd': Byte)
    requires s.pc == PROGRAM_START
    requires s.memory[0x200] == 0x61 && s.memory[0x201] == 0xAA
    requires s.memory[0x202] == 0x62 && s.memory[0x203] == 0x1A
    ensures Cycle(s, rnd).Ok?
    ensures var t := Cycle(s, rnd).value;
      Cycle(t, rnd').Ok? &&
      var u := Cycle(t, rnd').value;
      u.v[1] == 0xAA && u.v[2] == 0x1A && u.pc == PROGRAM_START + 4
  {
    assert Decode(0x61AA) == LdByte(1, 0xAA);
    assert Decode(0x621A) == LdByte(2, 0x1A);
    var t := Cycle(s, rnd).value;
    assert t.memory == s.memory;
  }

  /** The test of `JP`: 1A2A from the initial state jumps to 0A2A. */
  lemma JumpExample(rnd: Byte)
    ensures Execute(Init(), 0x1A2A, rnd) == Ok(Init().(pc := 0x0A2A))
  {
    Jumps(Init(), 0x1A2A, rnd);
  }

  /** Because `load_rom` writes from address 0 while pc starts at 0x200, a
      ROM of at most 0x200 bytes is never fetched: the first cycle after
      loading it reads the zero word, which is an unmatched no-op. */
  lemma RomBelowStart(rom: seq<Byte>)
    requires |rom| <= PROGRAM_START
    ensures LoadRom(Init(), rom).Ok?
    ensures var s := LoadRom(Init(), rom).value; Fetch(s.memory, s.pc) == Ok(0) && Decode(0).NoOp?
  {
    var s := LoadRom(Init(), rom).value;
    assert s.memory[PROGRAM_START] == 0 && s.memory[PROGRAM_START + 1] == 0;
  }
}
