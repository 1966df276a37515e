/** The `Cpu` of src/cpu.rs as an object whose methods update it in place.

    memory, V0..VF and the stack are fixed-size arrays, the framebuffer is a
    `Display.Display`, and the remaining registers are fields.  Every method
    is proved to do exactly what the matching function of module `Machine`
    says, through `Snapshot()`, the value of the whole state.  A method that
    returns `Err` stands for a panic; what it has written by then is not
    specified. */
module Cpu {
  import opened Bytes
  import Keypad
  import Display
  import opened Decoder
  import opened Machine

  class Cpu {
    var i: Word
    var pc: Word
    const memory: array<Byte>
    const v: array<Byte>
    const stack: array<Word>
    var sp: Byte
    const display: Display.Display
    var keypad: Keypad.Keypad
    var dt: Byte
    var st: Byte

    ghost predicate Valid()
    {
      memory.Length == MEMORY_SIZE && v.Length == REGISTER_COUNT && stack.Length == STACK_SIZE &&
      memory != v && display.Valid()
    }

    /** The whole state as a `Machine.State`. */
    ghost function Snapshot(): State
      requires Valid()
      reads this, memory, v, stack, display.memory
    {
      State(i, pc, memory[..], v[..], stack[..], sp, display.Pixels(), keypad, dt, st)
    }

    /** `Cpu::new`. */
    constructor ()
      ensures Valid() && fresh(memory) && fresh(v) && fresh(stack) && fresh(display) && fresh(display.memory)
      ensures Snapshot() == Init()
    {
      i := 0;
      pc := PROGRAM_START;
      memory := new Byte[MEMORY_SIZE](_ => 0);
      v := new Byte[REGISTER_COUNT](_ => 0);
      stack := new Word[STACK_SIZE](_ => 0);
      sp := 0;
      display := new Display.Display();
      keypad := Keypad.New();
      dt := 0;
      st := 0;
      new;
      assert memory[..] == Init().memory;
      assert v[..] == Init().v;
      assert stack[..] == Init().stack;
    }

    /** `load_rom`: copies the ROM byte by byte from address 0. */
    method LoadRom(rom: seq<Byte>) returns (r: Result<()>)
      requires Valid()
      modifies memory
      ensures Valid()
      ensures Machine.LoadRom(old(Snapshot()), rom) == if r.Ok? then Ok(Snapshot()) else Err(r.fault)
    {
      var k := 0;
      while k < |rom|
        invariant 0 <= k <= |rom| && k <= MEMORY_SIZE
        invariant forall a :: 0 <= a < MEMORY_SIZE ==> memory[a] == if a < k then rom[a] else old(memory[a])
      {
        if k >= MEMORY_SIZE {
          return Err(MemoryBounds);
        }
        memory[k] := rom[k];
        k := k + 1;
      }
      assert memory[..] == rom + old(memory[..])[|rom|..];
      return Ok(());
    }

    /** `read_opcode`: the big-endian word at pc. */
    function ReadOpcode(): (r: Result<Word>)
      requires Valid()
      reads this, memory
      ensures r == Fetch(memory[..], pc)
    {
      if pc + 1 >= MEMORY_SIZE then Err(MemoryBounds)
      else Ok(memory[pc] as int * 0x100 + memory[pc + 1])
    }

    /** `emulate_cycle`: one fetched word executed once, then the timers. */
    method EmulateCycle(rnd: Byte) returns (r: Result<()>)
      requires Valid()
      modifies this, memory, v, stack, display.memory
      ensures Valid()
      ensures Cycle(old(Snapshot()), rnd) == if r.Ok? then Ok(Snapshot()) else Err(r.fault)
    {
      var op := ReadOpcode();
      if op.Err? {
        return Err(op.fault);
      }
      r := ExecuteOpcode(op.value, rnd);
      if r.Err? {
        return;
      }
      if dt > 0 {
        dt := dt - 1;
      }
      if st > 0 {
        st := st - 1;
      }
    }

    /** `execute_opcode`: pc moves on by 2, then the selected arm runs. */
    method ExecuteOpcode(op: Word, rnd: Byte) returns (r: Result<()>)
      requires Valid()
      modifies this, memory, v, stack, display.memory
      ensures Valid()
      ensures Execute(old(Snapshot()), op, rnd) == if r.Ok? then Ok(Snapshot()) else Err(r.fault)
    {
      if pc + 2 > MAX_WORD {
        return Err(AddOverflow);
      }
      pc := pc + 2;
      var ins := Decode(op);
      if IsFlow(ins) {
        r := Flow(ins);
      } else if IsAlu(ins) {
        r := Alu(ins, rnd);
      } else if IsArith(ins) {
        Arith(ins);
        r := Ok(());
      } else if IsBlock(ins) {
        r := Block(ins);
      } else if ins.Drw? {
        r := DrawSprite(ins.x, ins.y, ins.n);
      } else if ins.LdVxK? {
        r := WaitKey(ins.x);
      } else {
        r := Misc(ins);
      }
    }

    /** CLS, RET, the jumps, CALL and the skips. */
    method Flow(ins: Instr) returns (r: Result<()>)
      requires Valid() && IsFlow(ins)
      modifies this, stack, display.memory
      ensures Valid()
      ensures FlowArm(old(Snapshot()), ins) == if r.Ok? then Ok(Snapshot()) else Err(r.fault)
    {
      r := Ok(());
      var skip := false;
      match ins {
        case Cls =>
          r := display.Cls();
          return;
        case Ret =>
          if sp == 0 {
            return Err(StackUnderflow);
          }
          sp := sp - 1;
          if sp >= STACK_SIZE {
            return Err(StackBounds);
          }
          pc := stack[sp];
        case Jp(a) =>
          pc := a;
        case Call(a) =>
          if sp >= STACK_SIZE {
            return Err(StackBounds);
          }
          stack[sp] := pc;
          sp := sp + 1;
          pc := a;
        case JpV0(a) =>
          pc := a + v[0];
        case SeByte(x, kk) =>
          skip := v[x] == kk;
        case SneByte(x, kk) =>
          skip := v[x] != kk;
        case SeReg(x, y) =>
          skip := v[x] == v[y];
        case SneReg(x, y) =>
          skip := v[x] != v[y];
        case Skp(x) =>
          var pressed := Keypad.IsPressed(keypad, v[x]);
          if pressed.Err? {
            return Err(pressed.fault);
          }
          skip := pressed.value;
        case Sknp(x) =>
          var pressed := Keypad.IsPressed(keypad, v[x]);
          if pressed.Err? {
            return Err(pressed.fault);
          }
          skip := !pressed.value;
      }
      if skip {
        if pc + 2 > MAX_WORD {
          return Err(AddOverflow);
        }
        pc := pc + 2;
      }
    }

    /** Writes one register. */
    method SetRegister(x: Nib, b: Byte)
      requires Valid()
      modifies v
      ensures Valid()
      ensures Snapshot() == SetV(old(Snapshot()), x, b)
    {
      v[x] := b;
    }

    /** The register loads, the bitwise arms, `ADD Vx, byte` and RND. */
    method Alu(ins: Instr, rnd: Byte) returns (r: Result<()>)
      requires Valid() && IsAlu(ins)
      modifies v
      ensures Valid()
      ensures AluArm(old(Snapshot()), ins, rnd) == if r.Ok? then Ok(Snapshot()) else Err(r.fault)
    {
      r := Ok(());
      match ins {
        case LdByte(x, kk) =>
          SetRegister(x, kk);
        case AddByte(x, kk) =>
          if v[x] as int + kk > MAX_BYTE {
            return Err(AddOverflow);
          }
          SetRegister(x, v[x] + kk);
        case LdReg(x, y) =>
          SetRegister(x, v[y]);
        case Or(x, y) =>
          SetRegister(x, Or8(v[x], v[y]));
        case And(x, y) =>
          SetRegister(x, And8(v[x], v[y]));
        case Xor(x, y) =>
          SetRegister(x, Xor8(v[x], v[y]));
        case Rnd(x, kk) =>
          SetRegister(x, And8(kk, rnd));
        case LdVxDt(x) =>
          SetRegister(x, dt);
      }
    }

    /** The arithmetic arms that set VF and the shifts. */
    method Arith(ins: Instr)
      requires Valid() && IsArith(ins)
      modifies v
      ensures Valid()
      ensures Snapshot() == ArithArm(old(Snapshot()), ins)
    {
      match ins {
        case AddReg(x, y) =>
          var sum := v[x] as int + v[y];
          SetRegister(VF, if sum > MAX_BYTE then 1 else 0);
          SetRegister(x, sum % 0x100);
        case Sub(x, y) =>
          var diff, borrow := (v[x] as int - v[y]) % 0x100, v[x] < v[y];
          SetRegister(VF, if borrow then 0 else 1);
          SetRegister(x, diff);
        case Shr(x, _) =>
          if v[x] % 2 == 1 {
            SetRegister(VF, 1);
          } else {
            SetRegister(x, v[x] / 2);
          }
        case SubN(x, y) =>
          var diff, borrow := (v[y] as int - v[x]) % 0x100, v[y] < v[x];
          SetRegister(VF, if borrow then 0 else 1);
          SetRegister(x, diff);
        case Shl(x, _) =>
          SetRegister(VF, And8(v[x], 0x80));
          SetRegister(x, v[x] as int * 2 % 0x100);
      }
    }

    /** LD B, Vx and the register block store and load. */
    method Block(ins: Instr) returns (r: Result<()>)
      requires Valid() && IsBlock(ins)
      modifies memory, v
      ensures Valid()
      ensures BlockArm(old(Snapshot()), ins) == if r.Ok? then Ok(Snapshot()) else Err(r.fault)
    {
      match ins {
        case LdB(x) =>
          if i + 2 >= MEMORY_SIZE {
            return Err(MemoryBounds);
          }
          memory[i] := v[x] / 100;
          memory[i + 1] := v[x] / 10 % 10;
          memory[i + 2] := v[x] % 10;
          return Ok(());
        case StoreRegs(x) =>
          r := StoreRegisters(x);
        case LoadRegs(x) =>
          r := LoadRegisters(x);
      }
    }

    /** `LD [I], Vx`: memory[I + k] = V[k] for k in 0..=x. */
    method StoreRegisters(x: Nib) returns (r: Result<()>)
      requires Valid()
      modifies memory
      ensures Valid()
      ensures BlockArm(old(Snapshot()), StoreRegs(x)) == if r.Ok? then Ok(Snapshot()) else Err(r.fault)
    {
      var k := 0;
      while k < x + 1
        invariant 0 <= k <= x + 1 && (k > 0 ==> i + k <= MEMORY_SIZE)
        invariant forall a :: 0 <= a < MEMORY_SIZE ==>
          memory[a] == if i <= a < i + k then v[a - i] else old(memory[a])
      {
        if i + k >= MEMORY_SIZE {
          return Err(MemoryBounds);
        }
        memory[i + k] := v[k];
        k := k + 1;
      }
      ghost var was := old(memory[..]);
      assert memory[..] == was[..i] + v[..x + 1] + was[i + x + 1..];
      return Ok(());
    }

    /** `LD Vx, [I]`: V[k] = memory[I + k] for k in 0..=x. */
    method LoadRegisters(x: Nib) returns (r: Result<()>)
      requires Valid()
      modifies v
      ensures Valid()
      ensures BlockArm(old(Snapshot()), LoadRegs(x)) == if r.Ok? then Ok(Snapshot()) else Err(r.fault)
    {
      var k := 0;
      while k < x + 1
        invariant 0 <= k <= x + 1 && (k > 0 ==> i + k <= MEMORY_SIZE)
        invariant forall j :: 0 <= j < k ==> v[j] == memory[i + j]
        invariant forall j :: k <= j < REGISTER_COUNT ==> v[j] == old(v[j])
      {
        if i + k >= MEMORY_SIZE {
          return Err(MemoryBounds);
        }
        v[k] := memory[i + k];
        k := k + 1;
      }
      assert v[..] == memory[i..i + x + 1] + old(v[..])[x + 1..];
      return Ok(());
    }

    /** `DRW Vx, Vy, n`. */
    method DrawSprite(x: Nib, y: Nib, n: Nib) returns (r: Result<()>)
      requires Valid()
      modifies v, display.memory
      ensures Valid()
      ensures DrawArm(old(Snapshot()), x, y, n) == if r.Ok? then Ok(Snapshot()) else Err(r.fault)
    {
      if i + n > MAX_WORD {
        return Err(AddOverflow);
      }
      if i + n > MEMORY_SIZE {
        return Err(MemoryBounds);
      }
      var collision := display.Draw(v[x], v[y], memory[i..i + n]);
      if collision.Err? {
        return Err(collision.fault);
      }
      v[VF] := if collision.value then 0 else 1;
      return Ok(());
    }

    /** `LD Vx, K`: pc goes back by 2, then each pressed key in turn is
        stored in Vx and moves pc on by 2. */
    method WaitKey(x: Nib) returns (r: Result<()>)
      requires Valid() && pc >= 2
      modifies this, v
      ensures Valid()
      ensures KeyWaitArm(old(Snapshot()), x) == if r.Ok? then Ok(Snapshot()) else Err(r.fault)
    {
      ghost var start := Snapshot();
      ghost var keys := keypad.keys;
      pc := pc - 2;
      var k := 0;
      while k < Keypad.KEY_COUNT
        invariant 0 <= k <= Keypad.KEY_COUNT
        invariant i == old(i) && sp == old(sp) && dt == old(dt) && st == old(st) && keypad == old(keypad)
        invariant pc == old(pc) - 2 + 2 * PressedCount(keys[..k])
        invariant forall j :: 0 <= j < REGISTER_COUNT && j != x ==> v[j] == old(v[j])
        invariant v[x] == if PressedCount(keys[..k]) == 0 then old(v[x]) else LastPressed(keys[..k])
      {
        PrefixStep(keys, k);
        if keypad.keys[k] {
          v[x] := k;
          if pc + 2 > MAX_WORD {
            PrefixMonotone(keys, k + 1, Keypad.KEY_COUNT);
            assert keys[..Keypad.KEY_COUNT] == keys;
            assert start.pc - 2 + 2 * PressedCount(keys) > MAX_WORD;
            return Err(AddOverflow);
          }
          pc := pc + 2;
        }
        k := k + 1;
      }
      assert keys[..k] == keys;
      KeyWaitDone(start, x, pc, v[..]);
      assert Snapshot() == start.(pc := pc, v := v[..]);
      return Ok(());
    }

    /** LD I, ADD I, LD F and the timer loads. */
    method Misc(ins: Instr) returns (r: Result<()>)
      requires Valid() && IsMisc(ins)
      modifies this
      ensures Valid()
      ensures MiscArm(old(Snapshot()), ins) == if r.Ok? then Ok(Snapshot()) else Err(r.fault)
    {
      r := Ok(());
      match ins {
        case LdI(a) =>
          i := a;
        case AddI(x) =>
          if i + v[x] > MAX_WORD {
            return Err(AddOverflow);
          }
          i := i + v[x];
        case LdF(x) =>
          i := v[x] as int * 5;
        case LdDtVx(x) =>
          dt := v[x];
        case LdStVx(x) =>
          st := v[x];
        case NoOp =>
      }
    }
  }

  /** One more key in the prefix, in the terms of the key-wait loop. */
  lemma PrefixStep(keys: seq<bool>, k: nat)
    requires k < |keys|
    ensures PressedCount(keys[..k + 1]) == PressedCount(keys[..k]) + if keys[k] then 1 else 0
    ensures LastPressed(keys[..k + 1]) == if keys[k] then k else LastPressed(keys[..k])
  {
    assert keys[..k + 1][..k] == keys[..k];
  }

  /** A longer prefix has at least as many pressed keys. */
  lemma {:induction false} PrefixMonotone(keys: seq<bool>, k: nat, m: nat)
    requires k <= m <= |keys|
    ensures PressedCount(keys[..k]) <= PressedCount(keys[..m])
    decreases m - k
  {
    if k < m {
      PrefixStep(keys, k);
      PrefixMonotone(keys, k + 1, m);
    }
  }

  /** The state the key-wait loop leaves behind is the one the arm
      describes: pc moved back and forward by two per pressed key, and Vx
      holding the highest pressed key when there is one. */
  lemma KeyWaitDone(t: State, x: Nib, pc: Word, regs: Regs)
    requires t.pc >= 2
    requires pc == t.pc - 2 + 2 * PressedCount(t.keypad.keys)
    requires forall j :: 0 <= j < REGISTER_COUNT && j != x ==> regs[j] == t.v[j]
    requires regs[x] == if PressedCount(t.keypad.keys) == 0 then t.v[x] else LastPressed(t.keypad.keys)
    ensures KeyWaitArm(t, x) == Ok(t.(pc := pc, v := regs))
  {
    if PressedCount(t.keypad.keys) == 0 {
      assert regs == t.v;
    } else {
      assert regs == t.v[x := LastPressed(t.keypad.keys)];
    }
  }
}
