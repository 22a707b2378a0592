# CHIP-8 interpreter core in Dafny

This project models the interpreter core of a small CHIP-8 emulator written
in Rust. The model has six parts:

- **Instruction decoder.** Bit slicing of 16-bit instruction words into
  nibbles and operand fields, the 34-entry table of nibble patterns, and the
  dispatch on the nibble tuple.
- **Memory.** A flat 4 KiB memory with the hexadecimal font at 0, the
  program at 0x200 and a stack that grows down from 0xEFE.
- **Sprites.** Each byte of sprite data is one row of eight pixels, most
  significant bit leftmost. `get_screen_mask` turns a sprite into a screen
  mask.
- **Display.** A 64x32 monochrome grid. Sprites are XOR-blitted onto it:
  columns wrap, rows do not, and the draw reports collisions.
- **Register arithmetic.** The 0x8xy_ family and its flag register VF.
- **Interpreter state and one step of `execute`.** A step fetches the word
  at pc, decodes it, and runs the instruction.

The modules follow the source files:

| module | file | source |
|---|---|---|
| `Bits` | bits.dfy | Unsigned `u8`/`u16` values, shifts, bitwise operations, bit tests |
| `Opcode` | opcode.dfy | `src/cpu/opcode.rs` |
| `Memory` | memory.dfy | `src/cpu/memory.rs` |
| `Sprites` | sprite.dfy | `src/cpu/sprite.rs` and `Sprite` in `src/cpu/display.rs` |
| `Display` | display.dfy | `Display` in `src/cpu/display.rs` |
| `Alu` | alu.dfy | The arithmetic arms of `execute` in `src/cpu/mod.rs` |
| `Cpu` | cpu.dfy | `Cpu` in `src/cpu/mod.rs` |
| `CpuProps` | cpu_props.dfy | Instruction-by-instruction properties of `Cpu.Step` |
| `Wrappers` | wrappers.dfy | `Option` and `Result` |

Values from outside the core become parameters of `Cpu.Step`:

- `keys`: the sixteen-key keypad;
- `delay`: the delay timer's reading;
- `rnd`: the random generator's draw.

`Step` has three kinds of outcome:

- A panic in the source (a slice out of range, a debug-build arithmetic
  overflow, a key or screen row out of range) is `Err(Panic(kind))`.
- An unsupported opcode, which the source prints before exiting, is
  `Err(UnsupportedOpcode(word, address))`.
- Everything else is `Ok(state)`.

## Model

| member | source | states |
|---|---|---|
| Opcode.BitSlice | src/cpu/opcode.rs:39-41 | Shifting right by `offset` and masking with 2^size - 1 gives `(number / 2^offset) mod 2^size` |
| Opcode.GetNibble | src/cpu/opcode.rs:43-45 | Nibble `index` is the base-16 digit of weight 16^index |
| Opcode.Reg1 | src/cpu/opcode.rs:49-51 | The first register operand is bits 8..11 of the word |
| Opcode.Reg2 | src/cpu/opcode.rs:53-55 | The second register operand is bits 4..7 of the word |
| Opcode.ByteOperand | src/cpu/opcode.rs:57-59 | The immediate byte is the word modulo 256 |
| Opcode.NibbleOperand | src/cpu/opcode.rs:61-63 | The sprite height operand is the word modulo 16 |
| Opcode.Tribble | src/cpu/opcode.rs:65-67 | The address operand is the word modulo 4096 |
| Opcode.ToNibbleTuple | src/cpu/opcode.rs:69-76 | The four nibbles, most significant first, reassemble the word |
| Opcode.NibbleTupleFields | src/cpu/opcode.rs:49-76 | The tuple is `get_nibble` at 3, 2, 1, 0; its tails are exactly `reg1`, `reg2`, `nibble`, `byte` and `tribble` |
| Opcode.Decode | src/cpu/mod.rs:114-299 | The `opcode!` dispatch over the table of src/cpu/opcode.rs:3-36: a decoded word fits the pattern of the instruction it decodes to, and is that instruction's encoding. Opcode.TableMatchIsDecoded, Opcode.DecodeEncode and Opcode.EncodeDecode complete the account |
| Opcode.TableMatchIsDecoded | src/cpu/opcode.rs:3-36 | A word fits pattern k of the table if and only if the dispatch decodes it to pattern k's instruction |
| Opcode.PatternsDisjoint | src/cpu/opcode.rs:3-36 | No word fits two patterns, so the order of the `match` arms does not matter |
| Opcode.UnsupportedIffNoPattern | src/cpu/mod.rs:292-299 | The dispatch falls to the unsupported-opcode arm exactly when the word fits none of the patterns |
| Opcode.DecodeEncode | src/cpu/opcode.rs:3-36 | Every instruction, written out as its pattern with operands in the wildcards, decodes back to itself |
| Opcode.EncodeDecode | src/cpu/opcode.rs:3-36 | Every word that decodes is the encoding of what it decodes to, so decoding loses nothing |
| Opcode.ZeroIsUnsupported | src/cpu/opcode.rs:3-4 | 0x0000 fits no pattern: this table has no SYS instruction |
| Opcode.ArithFIsUnsupported | src/cpu/opcode.rs:12-20 | 0x8xyF fits no pattern of the arithmetic family |
| Opcode.MiscZeroIsUnsupported | src/cpu/opcode.rs:28-36 | 0xFx00 fits no pattern of the F family |
| Memory.New | src/cpu/memory.rs:38-44 | The fresh memory is 4096 bytes: the font table at 0, the program at 0x200, zeros everywhere else |
| Memory.ReadAt | src/cpu/memory.rs:46-48 | Reading `count` bytes at `offset` returns exactly those memory cells |
| Memory.WriteAt | src/cpu/memory.rs:50-52 | Writing a buffer sets its cells and leaves every other cell unchanged |
| Memory.ReadU16At | src/cpu/memory.rs:54-56 | The 16-bit read is big-endian: the high byte is at `offset` |
| Memory.WriteU16At | src/cpu/memory.rs:58-60 | A big-endian write reads back as the value and leaves every other cell unchanged |
| Memory.ReadAfterWrite | src/cpu/memory.rs:46-52 | Reading back what was written returns it |
| Memory.WriteWhatWasRead | src/cpu/memory.rs:46-52 | Writing back what was read leaves memory unchanged |
| Memory.WriteU16WhatWasRead | src/cpu/memory.rs:54-60 | Writing back the word just read leaves memory unchanged |
| Memory.FontGlyph | src/cpu/memory.rs:18-44 | In a fresh memory, glyph d is the five font bytes at 5d |
| Sprites.New | src/cpu/sprite.rs:8-15 | One row per byte; each row packs back to its byte |
| Sprites.RowOfMsbFirst | src/cpu/display.rs:40-51 | The leftmost pixel is bit 7 of the byte and the rightmost is bit 0 (`BigEndian` bit order) |
| Sprites.RowOfPackRow | src/cpu/sprite.rs:8-15 | Unpacking the byte a row packs to gives the row back |
| Sprites.NewInjective | src/cpu/display.rs:40-51 | Different sprite data gives different sprites |
| Sprites.GetScreenMask | src/cpu/sprite.rs:17-26 | The line-major mask holds the sprite's pixel at each covered cell (columns modulo 64) and false elsewhere |
| Sprites.MaskOffSprite | src/cpu/sprite.rs:17-26 | A mask cell the sprite does not cover is false |
| Sprites.VisitCell | src/cpu/sprite.rs:19-21 | The line-then-column loop visits every covered cell exactly once |
| Display.New | src/cpu/display.rs:9-11 | A new display is 64x32 and blank |
| Display.Clear | src/cpu/display.rs:13-15 | Clearing leaves a blank 64x32 display, whatever it showed |
| Display.Draw | src/cpu/display.rs:17-34 | Each cell becomes itself XOR the sprite's pixel there; cells off the sprite keep their value; the result is true exactly when a lit cell was under a set pixel |
| Display.DrawTwiceRestores | src/cpu/display.rs:17-34 | Drawing the same sprite twice at the same place restores the screen |
| Display.RedrawCollides | src/cpu/display.rs:17-34 | On a blank screen, the second of two identical draws collides exactly when the sprite shows a pixel |
| Display.DrawOnBlankNeverCollides | src/cpu/display.rs:27-29 | A draw on a blank screen never reports a collision |
| Display.DrawIsMaskXor | src/cpu/display.rs:17-34 | The draw equals the screen XOR the sprite's `get_screen_mask` |
| Display.DrawWrapsColumns | src/cpu/display.rs:21-25 | A row of eight lit pixels drawn at column 60 on a blank screen lights exactly columns 60..63 and 0..3 of that row |
| Display.DrawGlyphZero | src/cpu/memory.rs:19 | The font glyph for 0 drawn at the corner of a blank screen lights exactly a hollow 4x5 rectangle |
| Display.RedrawGlyphZero | src/cpu/display.rs:17-34 | Drawing that glyph again collides and blanks the screen |
| Alu.AddAsWritten | src/cpu/mod.rs:169-181 | ADD Vx, Vy in the source's order. Without a carry, Vx gets the sum and VF is cleared. With a carry, VF becomes 1 first, so an operand that is VF counts as 1: ADD Vx, VF gives Vx + 1 mod 256, ADD VF, Vy gives 1 + Vy mod 256, and ADD VF, VF gives 2 |
| Alu.Add | src/cpu/mod.rs:169-181 | Vx gets the sum modulo 256 and VF the carry; together they spell the full sum; other registers are kept |
| Alu.AddAsWrittenReadsNewFlag | src/cpu/mod.rs:176-179 | With V0 = VF = 0xFF, ADD V0, VF as written gives 0x00, not the intended 0xFE. With VF = V1 = 0x80, ADD VF, V1 gives VF = 0x81, not 0x00 |
| Alu.SubAsWritten | src/cpu/mod.rs:187-199 | SUB Vx, Vy in the source's order. Without a borrow, Vx gets the difference and VF is set. With a borrow, VF becomes 0 first, so an operand that is VF counts as 0: SUB Vx, VF leaves Vx unchanged, and SUB VF, Vy gives -Vy mod 256 |
| Alu.Sub | src/cpu/mod.rs:187-199 | VF is 1 exactly when Vx >= Vy; Vx gets the difference, plus 256 on a borrow |
| Alu.SubAsWrittenReadsNewFlag | src/cpu/mod.rs:194-197 | With V0 = 0 and VF = 1, SUB V0, VF as written gives 0x00, not the intended 0xFF. With VF = 1 and V1 = 2, SUB VF, V1 gives 0xFE, not 0xFF |
| Alu.RSubAsWritten | src/cpu/mod.rs:201-213 | RSUB Vx, Vy in the source's order. Without a borrow, Vx gets Vy - Vx and VF is set. With a borrow, VF becomes 0 first, so an operand that is VF counts as 0: RSUB Vx, VF gives -Vx mod 256, and RSUB VF, Vy gives Vy |
| Alu.RSub | src/cpu/mod.rs:201-213 | VF is 1 exactly when Vy >= Vx; Vx gets Vy - Vx, plus 256 on a borrow |
| Alu.RSubAsWrittenReadsNewFlag | src/cpu/mod.rs:208-211 | With V0 = 2 and VF = 1, RSUB V0, VF as written gives 0xFE, not the intended 0xFF. With VF = 2 and V1 = 1, RSUB VF, V1 gives 0x01, not 0xFF |
| Alu.AsWrittenAgreesOffFlag | src/cpu/mod.rs:169-213 | The as-written and corrected versions agree unless VF is an operand of a carrying or borrowing operation |
| Alu.Or | src/cpu/mod.rs:215-217 | Each bit of Vx becomes the OR of the bits of Vx and Vy; other registers are kept |
| Alu.And | src/cpu/mod.rs:219-221 | Each bit of Vx becomes the AND of the bits of Vx and Vy; other registers are kept |
| Alu.Xor | src/cpu/mod.rs:223-225 | Each bit of Vx becomes the XOR of the bits of Vx and Vy; other registers are kept |
| Alu.ShiftRight | src/cpu/mod.rs:227-230 | VF gets the bit shifted out and Vx the rest (2 Vx' + VF = Vx); SHR VF leaves VF zero |
| Alu.ShiftLeft | src/cpu/mod.rs:232-235 | VF gets bit 7 and Vx the doubled value modulo 256 (Vx' + 256 VF = 2 Vx); SHL VF doubles the new flag |
| Cpu.New | src/cpu/mod.rs:31-43 | Registers and index are zero, pc is 0x200, sp is 0xEFE, memory is the fresh memory of `Memory::new` (fonts at 0, the program at 0x200, zeros elsewhere), and the screen is the one the user interface passes in |
| Cpu.Fetch | src/cpu/mod.rs:45-49 | Returns the big-endian word at pc and advances pc by 2; a word past the end of memory panics |
| Cpu.Push | src/cpu/mod.rs:51-54 | sp drops by 2 and the value reads back at sp; only those two bytes change; sp < 2 underflows |
| Cpu.Pop | src/cpu/mod.rs:56-60 | Returns the word at sp and raises sp by 2; a word past the end of memory panics |
| Cpu.CallTo | src/cpu/mod.rs:62-65 | Pushes pc truncated to 16 bits, so sp drops by 2 and the word at the new sp reads back as that pc, then jumps to the address; registers, index and screen are kept; fails exactly when the push fails |
| Cpu.Return | src/cpu/mod.rs:67-69 | pc becomes the word popped from sp and sp rises by 2; registers, index, memory and screen are kept |
| Cpu.SkipIf | src/cpu/mod.rs:86-90 | pc advances by one word exactly when the condition holds; nothing else changes |
| Cpu.BcdDigits | src/cpu/mod.rs:93-97 | Three decimal digits, hundreds first, that spell the byte |
| Cpu.Bcd | src/cpu/mod.rs:92-99 | The digits are stored at index..index+2 and nothing else changes; a range past memory panics |
| Cpu.LoadRegs | src/cpu/mod.rs:101-104 | V0..Vx take the bytes at index; higher registers are kept; a range past memory panics |
| Cpu.StoreRegs | src/cpu/mod.rs:106-109 | V0..Vx are written at index and no other byte changes; a range past memory panics |
| Cpu.DrawSprite | src/cpu/mod.rs:71-84 | The n bytes at index are XOR-drawn at (Vx, Vy) and VF becomes the collision flag; succeeds exactly when the bytes are in memory and the sprite fits vertically |
| Cpu.FirstPressed | src/cpu/mod.rs:155-163 | The lowest-numbered key that is down, or none when no key is down |
| Cpu.KeyPressed | src/cpu/user_interface.rs:42-44 | A key number below 16 reads the keypad; 16 or more panics |
| Cpu.Execute | src/cpu/mod.rs:111-301 | Runs each arm as the source does, ADD/SUB/RSUB Vx, Vy in the source's evaluation order included; every completed instruction leaves a valid state, and every failure of a decoded instruction is a panic |
| Cpu.Step | src/cpu/mod.rs:111-114 | One fetch, decode and execute; a completed step leaves a valid state |
| CpuProps.StepFetchOutOfRange | src/cpu/mod.rs:45-47 | A pc with no whole word left in memory panics |
| CpuProps.StepUnsupported | src/cpu/mod.rs:292-299 | A step reports an unsupported opcode, with the word and its address, exactly when the word decodes to nothing |
| CpuProps.StepAdvancesPc | src/cpu/mod.rs:111-301 | Every completed instruction other than jumps, calls, returns, skips and the key wait leaves pc just past itself |
| CpuProps.StepJump | src/cpu/mod.rs:115-117 | JMP addr sets pc to addr and changes nothing else |
| CpuProps.StepJumpIndexed | src/cpu/mod.rs:119-121 | JMP V0, addr goes to addr + V0, which always fits in 16 bits |
| CpuProps.StepSkipIfEqualByte | src/cpu/mod.rs:241-243 | SKE Vx, byte moves pc by 4 exactly when Vx equals the byte, else by 2 |
| CpuProps.StepSkipIfNotEqualByte | src/cpu/mod.rs:249-251 | SKNE Vx, byte moves pc by 4 exactly when Vx differs from the byte, else by 2 |
| CpuProps.StepSkipIfEqualReg | src/cpu/mod.rs:245-247 | SKE Vx, Vy moves pc by 4 exactly when the registers are equal, else by 2 |
| CpuProps.StepSkipIfNotEqualReg | src/cpu/mod.rs:253-255 | SKNE Vx, Vy moves pc by 4 exactly when the registers differ, else by 2 |
| CpuProps.StepSkipIfKey | src/cpu/mod.rs:257-263 | SKP skips exactly when key Vx is down and SKNP exactly when it is up; Vx >= 16 panics |
| CpuProps.CallThenReturn | src/cpu/mod.rs:123-129 | CALL followed by the RET at its target resumes just after the CALL, with sp, registers, index and screen as before |
| CpuProps.CallToThenReturn | src/cpu/mod.rs:62-69 | `call` then `ret` returns to the pushed pc with sp restored, whatever pc held in between |
| CpuProps.CallUnderflows | src/cpu/mod.rs:51-54 | CALL with sp below 2 panics on the stack-pointer subtraction |
| CpuProps.StepMovByte | src/cpu/mod.rs:131-133 | MOV Vx, byte puts the byte in Vx and changes nothing else but pc |
| CpuProps.StepMovReg | src/cpu/mod.rs:135-137 | MOV Vx, Vy copies Vy into Vx and changes nothing else but pc |
| CpuProps.StepAddByte | src/cpu/mod.rs:165-167 | ADD Vx, byte wraps at 256 and leaves VF alone |
| CpuProps.StepAdd | src/cpu/mod.rs:169-181 | ADD Vx, Vy gives the registers `Alu.AddAsWritten` computes and changes nothing else but pc. When neither operand is VF or the sum does not carry, that is the corrected `Alu.Add`: the sum modulo 256 in Vx and, for x other than F, the carry in VF |
| CpuProps.StepSub | src/cpu/mod.rs:187-199 | SUB Vx, Vy gives the registers `Alu.SubAsWritten` computes and changes nothing else but pc. When neither operand is VF or nothing is borrowed, that is the corrected `Alu.Sub`: the difference modulo 256 in Vx and, for x other than F, the no-borrow flag in VF |
| CpuProps.StepRSub | src/cpu/mod.rs:201-213 | RSUB Vx, Vy gives the registers `Alu.RSubAsWritten` computes and changes nothing else but pc. When neither operand is VF or nothing is borrowed, that is the corrected `Alu.RSub`: Vy - Vx modulo 256 in Vx and, for x other than F, the no-borrow flag in VF |
| CpuProps.StepOr | src/cpu/mod.rs:215-217 | OR Vx, Vy: bit b of the new Vx is set iff it is set in Vx or Vy; nothing else but pc changes |
| CpuProps.StepAnd | src/cpu/mod.rs:219-221 | AND Vx, Vy: bit b of the new Vx is set iff it is set in both; nothing else but pc changes |
| CpuProps.StepXor | src/cpu/mod.rs:223-225 | XOR Vx, Vy: bit b of the new Vx is set iff it is set in exactly one; nothing else but pc changes |
| CpuProps.StepShiftRight | src/cpu/mod.rs:227-230 | SHR Vx halves Vx with the lost bit in VF; SHR VF leaves VF zero; nothing else but pc changes |
| CpuProps.StepShiftLeft | src/cpu/mod.rs:232-235 | SHL Vx doubles Vx modulo 256 with the lost bit in VF; SHL VF doubles the new flag; nothing else but pc changes |
| CpuProps.StepAddIndex | src/cpu/mod.rs:183-185 | ADD I, Vx wraps around at 2^64 (`usize` `wrapping_add`) |
| CpuProps.StepRandomBounded | src/cpu/mod.rs:237-239 | RND Vx, byte stores a value no greater than the byte and changes nothing else but pc |
| CpuProps.StepReadDelay | src/cpu/mod.rs:147-149 | MOV Vx, DT stores the timer's reading truncated to 8 bits |
| CpuProps.StepSetTimers | src/cpu/mod.rs:143-153 | MOV DT, Vx and MOV ST, Vx change nothing in the modelled state but pc |
| CpuProps.StepWaitKey | src/cpu/mod.rs:155-163 | MOV Vx, K stores the lowest key that is down; with no key down the machine is left as it was, so the next step polls again |
| CpuProps.StepBcd | src/cpu/mod.rs:277-279 | BCD Vx stores three decimal digits at index that spell Vx; it panics exactly when they run past memory; otherwise pc advances and no other register, memory cell or pixel changes |
| CpuProps.StepMovI | src/cpu/mod.rs:139-141 | MOV I, addr sets index to the address and changes nothing else but pc |
| CpuProps.StepLoad | src/cpu/mod.rs:281-283 | LD Vx, [I] loads V0..Vx from the bytes at index and keeps the higher registers and everything else but pc; it panics exactly when the range runs past memory |
| CpuProps.StepStore | src/cpu/mod.rs:285-287 | STR [I], Vx writes V0..Vx at index and changes no other byte and nothing else but pc; it panics exactly when the range runs past memory |
| CpuProps.StoreThenLoad | src/cpu/mod.rs:101-109 | `store_regs` then `load_regs` at the same index gives V0..Vx back, whatever the registers held in between |
| CpuProps.LoadThenStore | src/cpu/mod.rs:101-109 | `load_regs` then `store_regs` at the same index leaves memory unchanged |
| CpuProps.StepStoreThenLoad | src/cpu/mod.rs:281-287 | Two steps, STR [I], Vx and then LD Vx, [I], give V0..Vx back whatever the registers were set to in between, and pc ends two instructions on |
| CpuProps.StepLoadThenStore | src/cpu/mod.rs:281-287 | Two steps, LD Vx, [I] and then STR [I], Vx, leave memory as it was, and pc ends two instructions on |
| CpuProps.StepFont | src/cpu/mod.rs:289-291 | FONT Vx sets index to 5 Vx; Vx >= 52 overflows the `u8` multiply and panics |
| CpuProps.StepFontGlyph | src/cpu/mod.rs:289-291 | While the font table is in place, FONT Vx for a digit leaves index on the five bytes of that digit's glyph |
| CpuProps.FreshFontGlyph | src/cpu/mod.rs:31-43 | A fresh machine holds the font table at address 0, so the five bytes at 5d are the glyph for digit d |
| CpuProps.StepClear | src/cpu/mod.rs:265-267 | CLS blanks the screen and changes nothing else but pc |
| CpuProps.StepDraw | src/cpu/mod.rs:269-275 | DRW Vx, Vy, n draws the n bytes at index and sets VF to the collision; it panics exactly when the bytes run past memory or the sprite falls below the screen; otherwise pc advances and no other register, index, sp or memory changes |

## Left out

- `src/main.rs` and `src/cpu/user_interface.rs`, the Piston window front end, are not part of this model. Threads, locks and rendering are I/O. The screen the front end shows is `Cpu.State.screen`, and its keypad is the `keys` parameter of `Cpu.Step`.
- `src/cpu/timers.rs` and `src/cpu/timer.rs` are not part of this model: they use wall-clock time, `f64` and audio. The delay timer's reading is the `delay` parameter.
- CpuProps.StepSetTimers: MOV DT, Vx and MOV ST, Vx only change pc in the model, because the timers are outside it.
- Randomness: RND takes the generator's draw as the `rnd` parameter, and stores `rnd mod (byte + 1)`. This draw stands in for `gen_range(0, byte + 1)`. The model does not claim the value is uniform.
- MOV Vx, K: the source sleeps 5 ms between polls of the keypad. The model's step with no key down returns the state before the fetch, so the next step polls again.
- The unsupported-opcode arm prints a message and exits the process. The model returns `Err(UnsupportedOpcode(word, address))` instead.
- `Cpu::draw` calls `display::draw_sprite`, which is not defined in the source. The model draws with the semantics of `Display::draw` on the sprite `Sprite::new` builds from the n bytes at index. Rows past the bottom panic, as a row index of 32 or more would in `Display::draw`.
- `Cpu::draw`'s assertion that the height is at most 15 always holds for a nibble operand, so it is not modelled.
- Integer overflow follows a debug build: an overflowing `u8` or `usize` operation panics. `wrapping_add` wraps.
- `usize` is taken to be 64 bits wide, as on a 64-bit target. So ADD I, Vx wraps at 2^64, and an `index + n` at or past 2^64 in DRW panics. A 32-bit target would wrap and panic at 2^32 instead.
- Cpu.New: the initial screen is a parameter, because `Cpu::new` takes the user interface as given. It is blank only because `src/main.rs` builds an all-dark display, and the model does not promise blankness.
- Memory.New and Cpu.New require that the program fits below 4 KiB. For a longer program, the source's second `splice` panics on a range past the end of memory before any instruction runs.
- Instruction count: the usual CHIP-8 instruction list has 35 entries, counting SYS addr. The table in `src/cpu/opcode.rs` has 34 patterns and no SYS, so 0x0nnn words other than CLS and RET are unsupported here, as in the code.
- `src/cpu/sprite.rs` is not reachable from the crate's module tree. Its `get_screen_mask` is still modelled, and `Display.DrawIsMaskXor` relates it to the draw.

## Findings

| source | as written | input that shows it | evidently intended | confidence | as-written member | corrected member |
|---|---|---|---|---|---|---|
| src/cpu/mod.rs:169-181 | On a carry, VF is set to 1 before the wrapped sum is recomputed from the registers, so an operand that is VF counts as the new flag, not VF's old value | V0 = VF = 0xFF, ADD V0, VF: V0 becomes 0x00. VF = V1 = 0x80, ADD VF, V1: VF becomes 0x81 | V0 becomes 0xFE, and VF becomes 0x00, the wrapped sums of the operands | not executed | Alu.AddAsWritten, Alu.AddAsWrittenReadsNewFlag | Alu.Add |
| src/cpu/mod.rs:187-199 | On a borrow, VF is set to 0 before the wrapped difference is recomputed, so an operand that is VF counts as 0 | V0 = 0, VF = 1, SUB V0, VF: V0 becomes 0x00. VF = 1, V1 = 2, SUB VF, V1: VF becomes 0xFE | V0 becomes 0xFF, and VF becomes 0xFF | not executed | Alu.SubAsWritten, Alu.SubAsWrittenReadsNewFlag | Alu.Sub |
| src/cpu/mod.rs:201-213 | On a borrow, VF is set to 0 before Vy - Vx is recomputed, so an operand that is VF counts as 0 | V0 = 2, VF = 1, RSUB V0, VF: V0 becomes 0xFE. VF = 2, V1 = 1, RSUB VF, V1: VF becomes 0x01 | V0 becomes 0xFF, and VF becomes 0xFF | not executed | Alu.RSubAsWritten, Alu.RSubAsWrittenReadsNewFlag | Alu.RSub |

`Cpu.Step` runs the as-written operations, as the source does. The corrected operations are the reference they are compared against. `Alu.AsWrittenAgreesOffFlag` shows the two versions differ only when VF is an operand of a carrying or borrowing operation. `CpuProps.StepAdd`, `CpuProps.StepSub` and `CpuProps.StepRSub` carry this agreement to whole steps.
