/** Machine integers of the interpreter and the ways a step can fail.

    Rust's `u8` and `u16` are subset types of `int` here.  Plain `+`/`-` on
    them panics in a debug build when it leaves the range, and indexing an
    array out of range panics in every build; both kinds of panic are
    reported as a `Fault` instead of being wrapped. */
module Bytes {

  /** Rust `u8`. */
  type Byte = b: int | 0 <= b < 0x100

  /** Rust `u16`. */
  type Word = w: int | 0 <= w < 0x1_0000

  const MAX_BYTE: int := 0xFF
  const MAX_WORD: int := 0xFFFF

  /** Why a step of the engine panicked. */
  datatype Fault =
    | MemoryBounds     // `memory[..]` indexed or sliced past 4096
    | StackBounds      // `stack[sp]` with sp >= 16 (a 17th nested CALL)
    | StackUnderflow   // `sp -= 1` with sp == 0 (RET without CALL)
    | DisplayBounds    // framebuffer indexed with a column >= 32
    | KeyBounds        // `keys[k]` with k >= 16
    | AddOverflow      // plain `+=` past the top of `u8`/`u16`

  datatype Result<+T> = Ok(value: T) | Err(fault: Fault)

  /** `a & b` on `u8`. */
  function And8(a: Byte, b: Byte): Byte
  {
    (a as bv8 & b as bv8) as int
  }

  /** `a | b` on `u8`. */
  function Or8(a: Byte, b: Byte): Byte
  {
    (a as bv8 | b as bv8) as int
  }

  /** `a ^ b` on `u8`. */
  function Xor8(a: Byte, b: Byte): Byte
  {
    (a as bv8 ^ b as bv8) as int
  }

  /** Masking with 0x80 keeps exactly the top bit. */
  lemma And80(a: Byte)
    ensures And8(a, 0x80) == if a >= 0x80 then 0x80 else 0
  {
    var b := a as bv8;
    assert (b & 0x80) == if b >= 0x80 then 0x80 else 0;
  }
}
