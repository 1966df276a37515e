/** Instruction decoding (src/cpu.rs, `execute_opcode`).

    `execute_opcode` splits the 16-bit word into four nibbles
    (op_1, op_2, op_3, op_4) and dispatches on the exact nibble tuple; the
    operands are the low 12 bits (addr), the low 8 bits (byte), the low
    nibble (n), op_2 (x) and op_3 (y).  A word matching no arm is a no-op.
    `Decode` names the arm a word selects; `Encode` is its inverse on the
    recognised words. */
module Decoder {
  import opened Bytes

  type Nib = n: int | 0 <= n < 0x10

  type Addr = a: int | 0 <= a < 0x1000

  /** One variant per arm of the dispatch.  SHR and SHL keep the y field of
      their encoding although the arm ignores it, so that decoding loses
      nothing. */
  datatype Instr =
    | Cls                       // 00E0
    | Ret                       // 00EE
    | Jp(addr: Addr)            // 1nnn
    | Call(addr: Addr)          // 2nnn
    | SeByte(x: Nib, kk: Byte)  // 3xkk
    | SneByte(x: Nib, kk: Byte) // 4xkk
    | SeReg(x: Nib, y: Nib)     // 5xy0
    | LdByte(x: Nib, kk: Byte)  // 6xkk
    | AddByte(x: Nib, kk: Byte) // 7xkk
    | LdReg(x: Nib, y: Nib)     // 8xy0
    | Or(x: Nib, y: Nib)        // 8xy1
    | And(x: Nib, y: Nib)       // 8xy2
    | Xor(x: Nib, y: Nib)       // 8xy3
    | AddReg(x: Nib, y: Nib)    // 8xy4
    | Sub(x: Nib, y: Nib)       // 8xy5
    | Shr(x: Nib, y: Nib)       // 8xy6
    | SubN(x: Nib, y: Nib)      // 8xy7
    | Shl(x: Nib, y: Nib)       // 8xyE
    | SneReg(x: Nib, y: Nib)    // 9xy0
    | LdI(addr: Addr)           // Annn
    | JpV0(addr: Addr)          // Bnnn
    | Rnd(x: Nib, kk: Byte)     // Cxkk
    | Drw(x: Nib, y: Nib, n: Nib) // Dxyn
    | Skp(x: Nib)               // Ex9E
    | Sknp(x: Nib)              // ExA1
    | LdVxDt(x: Nib)            // Fx07
    | LdVxK(x: Nib)             // Fx0A
    | LdDtVx(x: Nib)            // Fx15
    | LdStVx(x: Nib)            // Fx18
    | AddI(x: Nib)              // Fx1E
    | LdF(x: Nib)               // Fx29
    | LdB(x: Nib)               // Fx33
    | StoreRegs(x: Nib)         // Fx55
    | LoadRegs(x: Nib)          // Fx65
    | NoOp                      // every other word

  /** The word with nibbles a, b, c, d from the most significant down. */
  function Pack(a: Nib, b: Nib, c: Nib, d: Nib): Word
  {
    a * 0x1000 + b * 0x100 + c * 0x10 + d
  }

  /** The 0nnn arms: only 00E0 and 00EE are recognised. */
  function DispatchSys(op2: Nib, op3: Nib, op4: Nib): Instr
  {
    if op2 == 0x0 && op3 == 0xE && op4 == 0x0 then Cls
    else if op2 == 0x0 && op3 == 0xE && op4 == 0xE then Ret
    else NoOp
  }

  /** The 8xyn arms, selected by n. */
  function DispatchAlu(x: Nib, y: Nib, n: Nib): Instr
  {
    if n == 0x0 then LdReg(x, y)
    else if n == 0x1 then Or(x, y)
    else if n == 0x2 then And(x, y)
    else if n == 0x3 then Xor(x, y)
    else if n == 0x4 then AddReg(x, y)
    else if n == 0x5 then Sub(x, y)
    else if n == 0x6 then Shr(x, y)
    else if n == 0x7 then SubN(x, y)
    else if n == 0xE then Shl(x, y)
    else NoOp
  }

  /** The Exkk arms, selected by kk. */
  function DispatchKey(x: Nib, op3: Nib, op4: Nib): Instr
  {
    if op3 == 0x9 && op4 == 0xE then Skp(x)
    else if op3 == 0xA && op4 == 0x1 then Sknp(x)
    else NoOp
  }

  /** The Fxkk arms, selected by kk. */
  function DispatchMisc(x: Nib, op3: Nib, op4: Nib): Instr
  {
    if op3 == 0x0 && op4 == 0x7 then LdVxDt(x)
    else if op3 == 0x0 && op4 == 0xA then LdVxK(x)
    else if op3 == 0x1 && op4 == 0x5 then LdDtVx(x)
    else if op3 == 0x1 && op4 == 0x8 then LdStVx(x)
    else if op3 == 0x1 && op4 == 0xE then AddI(x)
    else if op3 == 0x2 && op4 == 0x9 then LdF(x)
    else if op3 == 0x3 && op4 == 0x3 then LdB(x)
    else if op3 == 0x5 && op4 == 0x5 then StoreRegs(x)
    else if op3 == 0x6 && op4 == 0x5 then LoadRegs(x)
    else NoOp
  }

  /** The dispatch on the nibble tuple (op_1, op_2, op_3, op_4); x is op_2,
      y is op_3, n is op_4, the address the last three nibbles, the byte the
      last two. */
  function Dispatch(op1: Nib, op2: Nib, op3: Nib, op4: Nib): Instr
  {
    var addr := op2 * 0x100 + op3 * 0x10 + op4;
    var kk := op3 * 0x10 + op4;
    match op1
    case 0x0 => DispatchSys(op2, op3, op4)
    case 0x1 => Jp(addr)
    case 0x2 => Call(addr)
    case 0x3 => SeByte(op2, kk)
    case 0x4 => SneByte(op2, kk)
    case 0x5 => if op4 == 0x0 then SeReg(op2, op3) else NoOp
    case 0x6 => LdByte(op2, kk)
    case 0x7 => AddByte(op2, kk)
    case 0x8 => DispatchAlu(op2, op3, op4)
    case 0x9 => if op4 == 0x0 then SneReg(op2, op3) else NoOp
    case 0xA => LdI(addr)
    case 0xB => JpV0(addr)
    case 0xC => Rnd(op2, kk)
    case 0xD => Drw(op2, op3, op4)
    case 0xE => DispatchKey(op2, op3, op4)
    case _ => DispatchMisc(op2, op3, op4)
  }

  /** `(opcode & 0xF000) >> 12`, `(opcode & 0x0F00) >> 8`,
      `(opcode & 0x00F0) >> 4` and `opcode & 0x000F`, then the dispatch. */
  function Decode(op: Word): Instr
  {
    Dispatch(op / 0x1000, op / 0x100 % 0x10, op / 0x10 % 0x10, op % 0x10)
  }

  /** The nibble tuple (op_1, op_2, op_3, op_4) that selects an instruction's
      arm (NoOp: the all-zero word). */
  function Nibbles(ins: Instr): (Nib, Nib, Nib, Nib)
  {
    match ins
    case Cls => (0x0, 0x0, 0xE, 0x0)
    case Ret => (0x0, 0x0, 0xE, 0xE)
    case Jp(a) => (0x1, a / 0x100, a / 0x10 % 0x10, a % 0x10)
    case Call(a) => (0x2, a / 0x100, a / 0x10 % 0x10, a % 0x10)
    case SeByte(x, kk) => (0x3, x, kk / 0x10, kk % 0x10)
    case SneByte(x, kk) => (0x4, x, kk / 0x10, kk % 0x10)
    case SeReg(x, y) => (0x5, x, y, 0x0)
    case LdByte(x, kk) => (0x6, x, kk / 0x10, kk % 0x10)
    case AddByte(x, kk) => (0x7, x, kk / 0x10, kk % 0x10)
    case LdReg(x, y) => (0x8, x, y, 0x0)
    case Or(x, y) => (0x8, x, y, 0x1)
    case And(x, y) => (0x8, x, y, 0x2)
    case Xor(x, y) => (0x8, x, y, 0x3)
    case AddReg(x, y) => (0x8, x, y, 0x4)
    case Sub(x, y) => (0x8, x, y, 0x5)
    case Shr(x, y) => (0x8, x, y, 0x6)
    case SubN(x, y) => (0x8, x, y, 0x7)
    case Shl(x, y) => (0x8, x, y, 0xE)
    case SneReg(x, y) => (0x9, x, y, 0x0)
    case LdI(a) => (0xA, a / 0x100, a / 0x10 % 0x10, a % 0x10)
    case JpV0(a) => (0xB, a / 0x100, a / 0x10 % 0x10, a % 0x10)
    case Rnd(x, kk) => (0xC, x, kk / 0x10, kk % 0x10)
    case Drw(x, y, n) => (0xD, x, y, n)
    case Skp(x) => (0xE, x, 0x9, 0xE)
    case Sknp(x) => (0xE, x, 0xA, 0x1)
    case LdVxDt(x) => (0xF, x, 0x0, 0x7)
    case LdVxK(x) => (0xF, x, 0x0, 0xA)
    case LdDtVx(x) => (0xF, x, 0x1, 0x5)
    case LdStVx(x) => (0xF, x, 0x1, 0x8)
    case AddI(x) => (0xF, x, 0x1, 0xE)
    case LdF(x) => (0xF, x, 0x2, 0x9)
    case LdB(x) => (0xF, x, 0x3, 0x3)
    case StoreRegs(x) => (0xF, x, 0x5, 0x5)
    case LoadRegs(x) => (0xF, x, 0x6, 0x5)
    case NoOp => (0x0, 0x0, 0x0, 0x0)
  }
  /** The canonical word of an instruction. */
  function Encode(ins: Instr): Word
  {
    var t := Nibbles(ins);
    Pack(t.0, t.1, t.2, t.3)
  }

  lemma Div16(op: int, q: int, r: int)
    requires op == 0x10 * q + r && 0 <= r < 0x10
    ensures op / 0x10 == q && op % 0x10 == r
  {
  }

  lemma Div256(op: int, q: int, r: int)
    requires op == 0x100 * q + r && 0 <= r < 0x100
    ensures op / 0x100 == q && op % 0x100 == r
  {
  }

  lemma Div4096(op: int, q: int, r: int)
    requires op == 0x1000 * q + r && 0 <= r < 0x1000
    ensures op / 0x1000 == q && op % 0x1000 == r
  {
  }

  /** The fields of a packed word are the nibbles it was packed from. */
  lemma Fields(a: Nib, b: Nib, c: Nib, d: Nib)
    ensures var op := Pack(a, b, c, d);
      op / 0x1000 == a && op / 0x100 % 0x10 == b && op / 0x10 % 0x10 == c && op % 0x10 == d &&
      op % 0x1000 == b * 0x100 + c * 0x10 + d && op % 0x100 == c * 0x10 + d
  {
    var op := Pack(a, b, c, d);
    Div16(op, 0x100 * a + 0x10 * b + c, d);
    Div256(op, 0x10 * a + b, 0x10 * c + d);
    Div4096(op, a, 0x100 * b + 0x10 * c + d);
    Div16(0x100 * a + 0x10 * b + c, 0x10 * a + b, c);
    Div16(0x10 * a + b, a, b);
  }

  /** The nibble fields of a word put it back together. */
  lemma Split(op: Word)
    ensures op == Pack(op / 0x1000, op / 0x100 % 0x10, op / 0x10 % 0x10, op % 0x10)
    ensures op % 0x1000 == op / 0x100 % 0x10 * 0x100 + op % 0x100
    ensures op % 0x100 == op / 0x10 % 0x10 * 0x10 + op % 0x10
    ensures op == op / 0x1000 * 0x1000 + op % 0x1000
  {
    var a, r := op / 0x1000, op % 0x1000;
    var b, r2 := r / 0x100, r % 0x100;
    var c, d := r2 / 0x10, r2 % 0x10;
    assert op == Pack(a, b, c, d);
    Fields(a, b, c, d);
  }

  /** An address is its three nibbles; a byte its two. */
  lemma AddrNibbles(a: Addr)
    ensures a / 0x100 < 0x10 && a == a / 0x100 * 0x100 + a / 0x10 % 0x10 * 0x10 + a % 0x10
  {
  }

  lemma ByteNibbles(kk: Byte)
    ensures kk / 0x10 < 0x10 && kk == kk / 0x10 * 0x10 + kk % 0x10
  {
  }

  lemma NibblesAddr(b: Nib, c: Nib, d: Nib)
    ensures var a := b * 0x100 + c * 0x10 + d; a / 0x100 == b && a / 0x10 % 0x10 == c && a % 0x10 == d
  {
    Fields(0, b, c, d);
    Div256(b * 0x100 + c * 0x10 + d, b, c * 0x10 + d);
  }

  lemma NibblesByte(c: Nib, d: Nib)
    ensures var kk := c * 0x10 + d; kk / 0x10 == c && kk % 0x10 == d
  {
    Div16(c * 0x10 + d, c, d);
  }

  lemma DecodePack(a: Nib, b: Nib, c: Nib, d: Nib)
    ensures Decode(Pack(a, b, c, d)) == Dispatch(a, b, c, d)
  {
    Fields(a, b, c, d);
  }

  lemma DispatchAddr(ins: Instr)
    requires ins.Jp? || ins.Call? || ins.LdI? || ins.JpV0?
    ensures var t := Nibbles(ins); Dispatch(t.0, t.1, t.2, t.3) == ins
  {
    AddrNibbles(ins.addr);
  }

  lemma DispatchByte(ins: Instr)
    requires ins.SeByte? || ins.SneByte? || ins.LdByte? || ins.AddByte? || ins.Rnd?
    ensures var t := Nibbles(ins); Dispatch(t.0, t.1, t.2, t.3) == ins
  {
    ByteNibbles(ins.kk);
  }

  lemma DispatchNibbles(ins: Instr)
    ensures var t := Nibbles(ins); Dispatch(t.0, t.1, t.2, t.3) == ins
  {
    if ins.Jp? || ins.Call? || ins.LdI? || ins.JpV0? {
      DispatchAddr(ins);
    } else if ins.SeByte? || ins.SneByte? || ins.LdByte? || ins.AddByte? || ins.Rnd? {
      DispatchByte(ins);
    }
  }

  /** Decoding the canonical word of any instruction gives it back. */
  lemma DecodeEncode(ins: Instr)
    ensures Decode(Encode(ins)) == ins
  {
    var t := Nibbles(ins);
    DecodePack(t.0, t.1, t.2, t.3);
    DispatchNibbles(ins);
  }

  lemma NibblesDispatchLow(a: Nib, b: Nib, c: Nib, d: Nib)
    requires a < 0x8 && !Dispatch(a, b, c, d).NoOp?
    ensures Nibbles(Dispatch(a, b, c, d)) == (a, b, c, d)
  {
    NibblesAddr(b, c, d);
    NibblesByte(c, d);
  }

  lemma NibblesDispatchMid(a: Nib, b: Nib, c: Nib, d: Nib)
    requires 0x8 <= a < 0xE && !Dispatch(a, b, c, d).NoOp?
    ensures Nibbles(Dispatch(a, b, c, d)) == (a, b, c, d)
  {
    NibblesAddr(b, c, d);
    NibblesByte(c, d);
  }

  lemma NibblesDispatchHigh(a: Nib, b: Nib, c: Nib, d: Nib)
    requires a >= 0xE && !Dispatch(a, b, c, d).NoOp?
    ensures Nibbles(Dispatch(a, b, c, d)) == (a, b, c, d)
  {
    NibblesAddr(b, c, d);
    NibblesByte(c, d);
  }

  /** Every word that selects an arm is the canonical word of that arm's
      instruction, so no two recognised words select the same instruction. */
  lemma EncodeDecode(op: Word)
    requires !Decode(op).NoOp?
    ensures Encode(Decode(op)) == op
  {
    Split(op);
    var a, b, c, d := op / 0x1000, op / 0x100 % 0x10, op / 0x10 % 0x10, op % 0x10;
    if a < 0x8 {
      NibblesDispatchLow(a, b, c, d);
    } else if a < 0xE {
      NibblesDispatchMid(a, b, c, d);
    } else {
      NibblesDispatchHigh(a, b, c, d);
    }
  }

  /** Whether the instruction has an x (register) operand. */
  predicate HasX(ins: Instr)
  {
    !(ins.Cls? || ins.Ret? || ins.Jp? || ins.Call? || ins.LdI? || ins.JpV0? || ins.NoOp?)
  }

  /** Whether the instruction has a y (register) operand. */
  predicate HasY(ins: Instr)
  {
    ins.SeReg? || ins.LdReg? || ins.Or? || ins.And? || ins.Xor? || ins.AddReg? || ins.Sub? ||
    ins.Shr? || ins.SubN? || ins.Shl? || ins.SneReg? || ins.Drw?
  }

  /** The operands are the fields `execute_opcode` extracts: addr is
      `opcode & 0xFFF`, byte `opcode & 0x0FF`, n `opcode & 0x00F`, x bits
      8-11 and y bits 4-7. */
  lemma Operands(op: Word)
    ensures var ins := Decode(op);
      (ins.Jp? || ins.Call? || ins.LdI? || ins.JpV0?) ==> ins.addr == op % 0x1000
    ensures var ins := Decode(op);
      (ins.SeByte? || ins.SneByte? || ins.LdByte? || ins.AddByte? || ins.Rnd?) ==> ins.kk == op % 0x100
    ensures var ins := Decode(op); ins.Drw? ==> ins.n == op % 0x10
    ensures var ins := Decode(op); HasX(ins) ==> ins.x == op / 0x100 % 0x10
    ensures var ins := Decode(op); HasY(ins) ==> ins.y == op / 0x10 % 0x10
  {
    Split(op);
    DispatchOperands(op / 0x1000, op / 0x100 % 0x10, op / 0x10 % 0x10, op % 0x10);
  }

  lemma DispatchOperands(a: Nib, b: Nib, c: Nib, d: Nib)
    ensures var ins := Dispatch(a, b, c, d);
      (ins.Jp? || ins.Call? || ins.LdI? || ins.JpV0?) ==> ins.addr == b * 0x100 + c * 0x10 + d
    ensures var ins := Dispatch(a, b, c, d);
      (ins.SeByte? || ins.SneByte? || ins.LdByte? || ins.AddByte? || ins.Rnd?) ==> ins.kk == c * 0x10 + d
    ensures var ins := Dispatch(a, b, c, d); ins.Drw? ==> ins.n == d
    ensures var ins := Dispatch(a, b, c, d); HasX(ins) ==> ins.x == b
    ensures var ins := Dispatch(a, b, c, d); HasY(ins) ==> ins.y == c
  {
  }

  /** The dispatch is an exact nibble match, not a range match: 5xyn and
      9xyn with n != 0, 8xyn with n outside 0-7 and E, and every 0nnn other
      than 00E0 and 00EE do nothing. */
  lemma ExactMatch(op: Word)
    ensures (op / 0x1000 == 0x5 || op / 0x1000 == 0x9) && op % 0x10 != 0 ==> Decode(op) == NoOp
    ensures op / 0x1000 == 0x8 && (0x8 <= op % 0x10 < 0xE || op % 0x10 == 0xF) ==> Decode(op) == NoOp
    ensures op / 0x1000 == 0x0 && op != 0x00E0 && op != 0x00EE ==> Decode(op) == NoOp
  {
    Split(op);
  }
}
