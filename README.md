# CHIP-8 interpreter core in Dafny

This project models the engine of a small CHIP-8 interpreter written in Rust.
It covers three pieces:

- the `Cpu` of `src/cpu.rs`: four kilobytes of memory, sixteen 8-bit
  registers V0..VF, the index register I, the program counter, a sixteen-entry
  call stack, the two timers, and the fetch-decode-execute step;
- the monochrome framebuffer of `src/display.rs`, with its clear and
  XOR-blit draw;
- the sixteen-key keypad of `src/keypad.rs`.

The model is written in the source's own form, file by file:

- `bytes.dfy` (module `Bytes`) holds the machine's integer widths (`Byte`,
  `Word`) and the bitwise operators. It also holds `Result` and `Fault`. A
  Rust panic is modelled as an `Err` that names its cause:
  - an out-of-range index into memory, the stack, the display or the keypad;
  - a `u8`/`u16` addition that overflows, which panics in a debug build;
  - a stack pointer decremented below zero.

  Arithmetic wraps only where the source asks for it, with
  `overflowing_add` and `overflowing_sub`. What is left in the machine after
  a panic is not specified.
- `keypad.dfy` (module `Keypad`) is a pure value: sixteen booleans and the
  `is_pressed` query.
- `display.dfy` (module `Display`) has the framebuffer as a class over a
  two-dimensional array, changed in place by `Cls` and `Draw`. `Cls` states
  cell by cell what it zeroes and that it faults. `Draw` is proved against
  the pure function `DrawOn`, which walks the sprite's
  bits in the order of the source's nested loops. The draw lemmas are proved
  about `DrawOn`: exactly when it faults, what it does pixel by pixel, what
  the collision flag means, and that drawing twice restores a frame of 0/1 pixels.
- `decoder.dfy` (module `Decoder`) splits an instruction word into four
  nibbles and matches them as `execute_opcode` does. The result is one
  `Instr` per arm, or `NoOp` for the fallback arm. It proves the decoding
  round trips and the operand extraction.
- `machine.dfy` (module `Machine`) is the whole engine as a pure state
  transformer. `Execute` is one `execute_opcode` and `Cycle` is one
  `emulate_cycle`. The lemmas here state what each instruction does to the
  state.
- `cpu.dfy` (module `Cpu`) is the `Cpu` as an object whose methods update
  its arrays and fields in place, with the same loops as the source. Every
  method is proved to produce exactly the state the matching `Machine`
  function describes, through the ghost value `Snapshot()`.

Where the code departs from the usual CHIP-8 behaviour, the model follows
the code:

- The frame buffer is declared `[[u8; 64]; 32]` but indexed `[x][y]`, with x
  up to 63. So the first index (called `c` here) has 32 values and the
  second (called `r`) has 64.
  - `cls` runs x over 0..64, so it always panics once x reaches 32, after
    zeroing the first 32 entries of every line.
  - `draw` panics exactly when a set sprite bit lands on a wrapped x of 32
    or more.
- `load_rom` copies the ROM to address 0, not to the program start 0x200.
  A ROM longer than memory panics; it is not rejected up front.
- ADD Vx, byte uses `+=` on a `u8`, so an overflow is a panic, not a wrap.
- SHR sets VF to 1 and leaves the other registers alone when Vx is odd. It halves Vx and
  leaves VF alone when Vx is even.
- SHL stores the raw masked bit 0x80 or 0 into VF.
- DRW sets VF to 0 on a collision and to 1 otherwise.
- LD Vx, K scans all sixteen keys in one pass. Vx ends up holding the
  highest pressed key, and pc moves forward by two for every pressed key.
  With no key pressed, pc is moved back onto the instruction.
- LD F, Vx sets I to Vx·5 without masking Vx.

RND's random byte is a parameter (`rnd`) of `Execute`, `Cycle` and the
`Cpu` methods. `Keypad::new` is not defined in `src/keypad.rs`; the model
takes it to produce a keypad with every key released.

## Model

| member | source | states |
|---|---|---|
| Bytes.And80 | src/cpu.rs:200 | proof step for SHL: a byte masked with 0x80 is 0x80 when the byte is at least 0x80 and 0 otherwise |
| Keypad.New | src/cpu.rs:38 | the keypad the engine starts with has every key released |
| Keypad.IsPressed | src/keypad.rs:6-8 | faults with an out-of-bounds error exactly when the index is 16 or more; otherwise returns that key's state |
| Keypad.Extensional | src/keypad.rs:1-8 | two keypads are equal exactly when every key query answers the same |
| Display.Blank | src/display.rs:9-11 | the new frame has every pixel off |
| Display.FrameEq | src/display.rs:4-6 | frames that agree on every pixel are equal |
| Display.SetPixel | src/display.rs:36 | writing one pixel changes that pixel and no other |
| Display.TouchedStep | src/display.rs:26-34 | proof step for the draw lemmas: the pixels touched from a bit onward are that bit's pixel, if the bit is set, plus those touched from the next bit |
| Display.NoRevisit | src/display.rs:24-32 | in a sprite of at most 32 rows, no later set bit wraps onto a pixel already touched |
| Display.FaultIff | src/display.rs:21-42 | a draw panics exactly when some set sprite bit lands at a wrapped column of 32 or more |
| Display.Pointwise | src/display.rs:21-42 | after a draw, exactly the touched pixels are flipped and all others are kept; the collision flag is true exactly when some touched pixel was lit |
| Display.KeepsBinary | src/display.rs:36 | a frame of 0/1 pixels stays 0/1 after a draw |
| Display.NoSetBits | src/display.rs:28-29 | a sprite with no set bits leaves the frame as it is and reports no collision |
| Display.DrawStep | src/display.rs:26-38 | proof step for `Draw`: one step of the inner loop: skip a clear bit, panic off-screen, or flip the pixel and record whether it was lit |
| Display.MergeTwice | src/display.rs:33-35 | proof step for `Draw`: accumulating the collision flag over two steps is the OR of both |
| Display.DrawTwice | src/display.rs:21-42 | drawing the same sprite twice restores a frame of 0/1 pixels; the second draw collides exactly when the first found some touched pixel off |
| Display.DrawTwiceOnBlank | src/display.rs:21-42 | on a blank frame a sprite with a set bit gives no collision the first time, then a collision and the blank frame again |
| Display.Flip | src/display.rs:36 | definition (no contract); the pixel value `(1 == 1) ^ (old == 1)`, so 1 for every old value other than 1; stated by KeepsBinary and DrawTwice |
| Display.Bit | src/display.rs:28 | definition (no contract); bit `7 - i` of a sprite row; stated by NoSetBits and DrawStep |
| Display.DrawFrom | src/display.rs:24-39 | definition (no contract); the nested loops from bit index 8j + i onward, ending in a fault or in the frame and collision flag; stated by FaultIff, Pointwise, KeepsBinary, NoSetBits and DrawStep |
| Display.DrawOn | src/display.rs:21-42 | definition (no contract); `draw` as a whole, `DrawFrom` from bit 0; stated by DrawTwice and DrawTwiceOnBlank, and `Display.Display.Draw` is proved equal to it |
| Display.Display.Pixels | src/display.rs:4-6 | the frame read off the array agrees with it cell by cell |
| Display.Display.constructor | src/display.rs:9-11 | a fresh display shows the blank frame |
| Display.Display.Cls | src/display.rs:13-19 | always ends in an out-of-bounds fault, having zeroed the first 32 entries of every line and kept the rest |
| Display.Display.Draw | src/display.rs:21-42 | the nested loops leave the frame and the collision flag `DrawOn` gives, or fault exactly when `DrawOn` does |
| Decoder.Decode | src/cpu.rs:70-80 | definition (no contract); splits the word into its four nibbles and dispatches on them; stated by Operands, DecodeEncode, EncodeDecode and ExactMatch |
| Decoder.Dispatch | src/cpu.rs:84-311 | definition (no contract); the match of `execute_opcode` on the nibble tuple, one `Instr` per arm and `NoOp` for the fallback; stated by DecodePack, DispatchNibbles and ExactMatch |
| Decoder.Encode | src/cpu.rs:84-311 | definition (no contract); the word each arm matches, with the fallback encoded as 0; stated by DecodeEncode and EncodeDecode |
| Decoder.Fields | src/cpu.rs:70-80 | the four nibbles and the address and byte fields of a packed word are the nibbles it was packed from |
| Decoder.Split | src/cpu.rs:70-80 | every word is the packing of its four nibbles, and its address and byte fields are made of its low nibbles |
| Decoder.DecodePack | src/cpu.rs:77-84 | decoding a packed word is matching its four nibbles |
| Decoder.DispatchNibbles | src/cpu.rs:84-311 | every instruction is matched by its own nibbles |
| Decoder.DecodeEncode | src/cpu.rs:84-311 | decoding the encoding of any instruction gives the instruction back |
| Decoder.EncodeDecode | src/cpu.rs:84-311 | every word that hits a non-fallback arm is the encoding of what it decodes to |
| Decoder.Operands | src/cpu.rs:70-74 | each decoded operand is the field of the word the source extracts: addr = low 12 bits, byte = low 8, n = low 4, x and y the middle nibbles |
| Decoder.ExactMatch | src/cpu.rs:84-311 | 5xy? and 9xy? with a nonzero last nibble, 8xy8..8xyD, 8xyF and every 0??? other than 00E0 and 00EE fall through to the no-op arm |
| Machine.Init | src/cpu.rs:29-42 | the new engine has I, sp and both timers at 0, pc at 0x200, zeroed memory, registers and stack, a blank frame and no key pressed |
| Machine.LoadRom | src/cpu.rs:21-25 | faults exactly when the ROM is longer than memory; otherwise memory starts with the ROM, everything after it and every other field is unchanged |
| Machine.Fetch | src/cpu.rs:44-49 | faults exactly when pc + 1 is outside memory; otherwise the word's high byte is memory[pc] and its low byte is memory[pc + 1] |
| Machine.PressedCount | src/cpu.rs:262-267 | the number of pressed keys is at most the number of keys, and it is 0 exactly when no key is pressed |
| Machine.LastPressed | src/cpu.rs:262-267 | the index the scan leaves behind is a pressed key with no pressed key after it, or -1 when none is pressed |
| Machine.Skip | src/cpu.rs:116 | definition (no contract); `pc += if c { 2 } else { 0 }`, faulting only when the taken add overflows; stated by ByteSkips, RegisterSkips, RegisterSkipsNot, KeySkips and SkipOverflow |
| Machine.FlowArm | src/cpu.rs:85-252 | definition (no contract); CLS, RET, JP, CALL, the skips, JP V0, SKP and SKNP on the state after the pc advance; stated by RetPops, Jumps, JumpsOffset, CallPushes, CallThenRet and the skip lemmas |
| Machine.AluArm | src/cpu.rs:129-257 | definition (no contract); LD Vx, byte, ADD Vx, byte, LD Vx, Vy, OR, AND, XOR, RND and LD Vx, DT; stated by FlagKept, AddByteOverflow, Random and ReadTimer |
| Machine.ArithArm | src/cpu.rs:159-202 | definition (no contract); ADD, SUB, SHR, SUBN and SHL on two registers, VF written as the source orders it; stated by AddRegFlag, SubFlag, SubNFlag, ShiftRight and ShiftLeft |
| Machine.BlockArm | src/cpu.rs:290-309 | definition (no contract); LD B, LD [I], Vx and LD Vx, [I] with their memory bounds; stated by Bcd, StoreRegisters, LoadRegisters and StoreThenLoad |
| Machine.DrawArm | src/cpu.rs:226-234 | definition (no contract); DRW: the u16 add I + n, the slice bound, the draw and VF = 0 on a collision; stated by DrawSprite |
| Machine.KeyWaitArm | src/cpu.rs:259-268 | definition (no contract); LD Vx, K as the count and the highest index of the pressed keys; stated by WaitKey |
| Machine.MiscArm | src/cpu.rs:209-288 | definition (no contract); LD I, ADD I, LD F, LD DT, Vx, LD ST, Vx and the fallback arm; stated by LoadIndex, IndexRegister, TimerLoads and AdvancesPc |
| Machine.Perform | src/cpu.rs:84-312 | definition (no contract); the arm the decoded instruction selects; stated by every instruction lemma below |
| Machine.Execute | src/cpu.rs:68-313 | definition (no contract); `pc += 2`, faulting on overflow, then `Perform` on the decoded word; stated by AdvancesPc and the instruction lemmas, and `Cpu.Cpu.ExecuteOpcode` is proved equal to it |
| Machine.Cycle | src/cpu.rs:51-66 | definition (no contract); fetch, execute, tick; stated by CycleOnce and TwoLoads, and `Cpu.Cpu.EmulateCycle` is proved equal to it |
| Machine.Tick | src/cpu.rs:57-65 | each timer goes down by one when it is nonzero and stays at zero otherwise; nothing else changes |
| Machine.AdvancesPc | src/cpu.rs:82 | pc + 2 overflowing faults; every instruction that does not jump, call, return, skip or wait leaves pc two further on; the fallback arm changes nothing else |
| Machine.Jumps | src/cpu.rs:96-99 | JP sets pc to the low 12 bits of the word and changes nothing else |
| Machine.JumpsOffset | src/cpu.rs:214-217 | JP V0 sets pc to the low 12 bits of the word plus V0 and changes nothing else |
| Machine.CallPushes | src/cpu.rs:101-112 | CALL with a full stack faults; otherwise it pushes the return address at sp, increments sp and jumps to addr |
| Machine.RetPops | src/cpu.rs:90-94 | RET with sp = 0 underflows, with sp above 16 indexes out of bounds, and otherwise pops pc from the stack and decrements sp |
| Machine.CallThenRet | src/cpu.rs:90-112 | a CALL followed by a RET comes back two past the CALL with sp and every other field restored, apart from the stack slot written |
| Machine.ByteSkips | src/cpu.rs:114-122 | SE and SNE Vx, byte skip the next instruction exactly when Vx equals, or differs from, the byte; a taken skip faults when pc + 2 overflows; nothing else changes |
| Machine.RegisterSkips | src/cpu.rs:124-127 | SE Vx, Vy skips exactly when the two registers are equal; a taken skip faults when pc + 2 overflows |
| Machine.RegisterSkipsNot | src/cpu.rs:204-207 | SNE Vx, Vy skips exactly when the two registers differ; a taken skip faults when pc + 2 overflows |
| Machine.SkipOverflow | src/cpu.rs:114-252 | each of the six skips (SE, SNE, SKP, SKNP) faults exactly when it tests a key index of 16 or more, or when it is taken and pc + 2 passes 0xFFFF; otherwise it only moves pc, by 4 when taken and by 2 when not |
| Machine.KeySkips | src/cpu.rs:236-252 | SKP and SKNP fault on a key index of 16 or more; otherwise they skip exactly when the key is or is not pressed, and a taken skip faults when pc + 2 overflows |
| Machine.AddRegFlag | src/cpu.rs:159-167 | ADD Vx, Vy stores (Vx + Vy) mod 256, sets VF exactly when the sum exceeds 255 (unless x is F), and changes no other register or field |
| Machine.SubFlag | src/cpu.rs:169-177 | SUB stores Vx − Vy wrapped to a byte and sets VF to 1 exactly when Vx ≥ Vy (unless x is F, where VF holds the difference) |
| Machine.SubNFlag | src/cpu.rs:188-196 | SUBN stores Vy − Vx wrapped to a byte and sets VF to 1 exactly when Vy ≥ Vx (unless x is F, where VF holds the difference) |
| Machine.FlagKept | src/cpu.rs:129-157 | LD Vx, byte, LD Vx, Vy, OR, AND and XOR change only Vx, to the byte, Vy or the bitwise combination; VF is untouched unless it is Vx |
| Machine.AddByteOverflow | src/cpu.rs:134-137 | ADD Vx, byte faults exactly when the sum exceeds 255, and otherwise stores the sum and changes nothing else |
| Machine.ShiftRight | src/cpu.rs:179-186 | SHR with Vx odd sets VF to 1 and changes no other register (for x = F that VF is Vx); with Vx even it halves Vx and keeps VF |
| Machine.ShiftLeft | src/cpu.rs:198-202 | SHL stores Vx·2 mod 256 and puts 0x80 in VF when Vx ≥ 0x80, otherwise 0; with x = F the result in VF is 0 |
| Machine.Digits | src/cpu.rs:292-294 | proof step for LD B: hundreds, tens and units of a byte recompose to it, with hundreds at most 2 |
| Machine.Bcd | src/cpu.rs:290-295 | LD B faults when I + 2 is outside memory; otherwise memory[I..I+2] holds the decimal digits of Vx, all other memory is kept and nothing else changes |
| Machine.Bcd234 | src/cpu.rs:518-528 | F233 with V2 = 234 writes 2, 3, 4 at I |
| Machine.StoreRegisters | src/cpu.rs:297-302 | LD [I], Vx faults when I + x is outside memory; otherwise memory[I + k] = Vk for k ≤ x, all other memory is kept and nothing else changes |
| Machine.LoadRegisters | src/cpu.rs:304-309 | LD Vx, [I] faults when I + x is outside memory; otherwise Vk = memory[I + k] for k ≤ x, the higher registers are kept and nothing else changes |
| Machine.StoreThenLoad | src/cpu.rs:297-309 | loading registers right after storing them changes nothing but pc |
| Machine.LoadIndex | src/cpu.rs:209-212 | LD I sets I to addr and changes nothing else |
| Machine.IndexRegister | src/cpu.rs:280-288 | ADD I faults on a 16-bit overflow and otherwise adds Vx to I; LD F sets I to Vx·5 |
| Machine.ReadTimer | src/cpu.rs:254-257 | LD Vx, DT copies the delay timer into Vx and changes nothing else |
| Machine.TimerLoads | src/cpu.rs:270-278 | LD DT, Vx and LD ST, Vx copy Vx into the timer and change nothing else |
| Machine.Random | src/cpu.rs:219-224 | RND stores the byte ANDed with the random byte and changes nothing else |
| Machine.WaitKey | src/cpu.rs:259-268 | with no key pressed, LD Vx, K leaves the machine exactly as before the fetch; otherwise pc moves forward two per pressed key (faulting on overflow) and Vx holds the highest pressed key |
| Machine.DrawSprite | src/cpu.rs:226-234 | DRW faults with an overflow when I + n passes 0xFFFF, with a memory fault when the sprite slice leaves memory, and faults on the display exactly when the draw would go off-screen; otherwise it flips exactly the touched pixels, and VF is 0 exactly when a touched pixel was lit |
| Machine.FlowKeepsFrame | src/cpu.rs:85-252 | CLS, RET, the jumps, CALL and the skips leave the frame unchanged |
| Machine.AluKeepsFrame | src/cpu.rs:129-257 | the register loads, ADD Vx, byte, the bitwise operators, RND and LD Vx, DT leave the frame unchanged |
| Machine.ArithKeepsFrame | src/cpu.rs:159-202 | the flagged arithmetic and the shifts leave the frame unchanged |
| Machine.BlockKeepsFrame | src/cpu.rs:290-309 | LD B and the register block copies leave the frame unchanged |
| Machine.MiscKeepsFrame | src/cpu.rs:209-288 | the index and timer loads and the fallback arm leave the frame unchanged |
| Machine.ExecuteKeepsBinary | src/cpu.rs:84-312 | every instruction that does not fault keeps the frame made of 0/1 pixels |
| Machine.CycleOnce | src/cpu.rs:51-66 | a cycle faults when the opcode cannot be fetched, and otherwise runs the fetched word and then ticks the timers |
| Machine.TwoLoads | src/cpu.rs:566-592 | running 61AA then 621A from 0x200 sets V1 and V2 and leaves pc at 0x204 |
| Machine.JumpExample | src/cpu.rs:322-326 | 1A2A on a fresh engine sets pc to 0x0A2A |
| Machine.RomBelowStart | src/cpu.rs:21-32 | a ROM of at most 0x200 bytes loaded into a fresh engine leaves a zero word at pc, which decodes to the no-op arm |
| Cpu.Cpu.constructor | src/cpu.rs:29-42 | a fresh object's state is `Init()` |
| Cpu.Cpu.LoadRom | src/cpu.rs:21-25 | the copy loop gives the state `Machine.LoadRom` describes, or its fault |
| Cpu.Cpu.ReadOpcode | src/cpu.rs:44-49 | is `Fetch` of the current memory at pc |
| Cpu.Cpu.EmulateCycle | src/cpu.rs:51-66 | leaves the state `Cycle` describes, or faults as it does |
| Cpu.Cpu.ExecuteOpcode | src/cpu.rs:68-313 | leaves the state `Execute` describes, or faults as it does |
| Cpu.Cpu.Flow | src/cpu.rs:85-252 | CLS, RET, JP, CALL, JP V0, the skips, SKP and SKNP update the object as `FlowArm` says |
| Cpu.Cpu.SetRegister | src/cpu.rs:131 | writing one register changes that register and nothing else |
| Cpu.Cpu.Alu | src/cpu.rs:129-257 | the loads, ADD Vx, byte, the bitwise operators, RND and LD Vx, DT update the object as `AluArm` says |
| Cpu.Cpu.Arith | src/cpu.rs:159-202 | ADD, SUB, SHR, SUBN and SHL on two registers update the object as `ArithArm` says |
| Cpu.Cpu.Block | src/cpu.rs:290-309 | LD B, LD [I], Vx and LD Vx, [I] update memory or registers as `BlockArm` says |
| Cpu.Cpu.StoreRegisters | src/cpu.rs:297-302 | the store loop writes memory as `BlockArm` says, or faults where the source indexes past memory |
| Cpu.Cpu.LoadRegisters | src/cpu.rs:304-309 | the load loop fills the registers as `BlockArm` says, or faults where the source indexes past memory |
| Cpu.Cpu.DrawSprite | src/cpu.rs:226-234 | DRW updates the display and VF as `DrawArm` says |
| Cpu.Cpu.WaitKey | src/cpu.rs:259-268 | the key-scan loop leaves pc and Vx as `KeyWaitArm` says |
| Cpu.Cpu.Misc | src/cpu.rs:209-288 | LD I, ADD I, LD F, LD DT, Vx and LD ST, Vx update the object as `MiscArm` says |
| Cpu.PrefixMonotone | src/cpu.rs:262-267 | scanning more keys never lowers the number found pressed, so an overflow part-way through the scan is an overflow of the whole |

## Left out

- The random number generator is not modelled. RND's random byte is a parameter.
- The "BEEP!" line printed when the sound timer reaches one is left out. It is output only.
- `FONT_SET` is a table of constants that the engine never loads.
- `src/chip8.rs` and `src/main.rs` are not part of this model. They are an earlier skeleton `Cpu`: its `execute_opcode` does nothing and its `read_opcode` ORs the two bytes without shifting. `main` builds that struct and runs one cycle of it.
- The input side that sets keys lives outside the engine.
- What a panic leaves behind is not modelled. Writes a faulting instruction made before the panicking index are not reflected; the result is just the `Err`.
- Keypad.New: `Keypad::new` has no definition in `src/keypad.rs`, so the starting keypad is assumed to have every key released.
- Display.Pointwise, Display.NoRevisit, Display.DrawTwice and Display.DrawTwiceOnBlank are stated for sprites of at most 32 rows. Taller sprites wrap onto rows already drawn. DRW passes at most 15 rows, so every draw the engine makes is covered.
- Machine.CallThenRet only covers a CALL from a stack that is not full.
