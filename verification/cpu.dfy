/**
 * The interpreter: registers, program counter, index register, stack
 * pointer, memory and screen, and `Step`, which fetches one instruction,
 * decodes it and executes it.
 *
 * What the source reads from the outside world is passed in: the keypad
 * (sixteen keys), the delay timer's current reading and the value the
 * random generator would produce. Where the source panics (a slice out of
 * range, an arithmetic overflow in a debug build, a key or screen row
 * index out of range) `Step` returns `Err(Panic(..))`; where it reports an
 * unsupported opcode and exits, `Step` returns `Err(UnsupportedOpcode(..))`.
 */
module Cpu {
  import opened Wrappers
  import opened Bits
  import opened Opcode
  import Memory
  import Display
  import Sprites
  import Alu

  /** One more than the largest `usize`. */
  const UsizeLimit: nat := 0x1_0000_0000_0000_0000

  /** The number of keys on the keypad. */
  const KeyCount: nat := 0x10

  datatype State = State(
    gpr: Alu.Registers,
    pc: nat,
    index: nat,
    sp: nat,
    mem: seq<Byte>,
    screen: Display.Grid)

  /** What the source's types guarantee about a running interpreter. */
  predicate Valid(s: State)
  {
    && |s.mem| == Memory.MemorySize
    && Display.IsScreen(s.screen)
    && s.index < UsizeLimit
  }

  datatype PanicKind =
    | MemoryOutOfRange    // a slice or read past the end of memory
    | ArithmeticOverflow  // a checked `u8`/`usize` operation overflowed
    | KeyOutOfRange       // a key number of 16 or more
    | ScreenOutOfRange    // a sprite row below the bottom of the screen

  datatype Fault =
    | UnsupportedOpcode(word: Word, address: nat)
    | Panic(kind: PanicKind)

  /**
   * `Cpu::new`: zeroed registers and index, pc at the program, the stack
   * pointer at the stack base and a fresh memory holding the program. The
   * screen is the one the user interface hands over, unchanged.
   */
  function New(rom: seq<Byte>, screen: Display.Grid): (s: State)
    requires Memory.ProgramCodeBase + |rom| <= Memory.MemorySize
    requires Display.IsScreen(screen)
    ensures Valid(s)
    ensures s.pc == Memory.ProgramCodeBase && s.sp == Memory.StackBase && s.index == 0
    ensures forall i :: 0 <= i < 0x10 ==> s.gpr[i] == 0
    ensures s.mem == Memory.New(rom)
    ensures s.mem[Memory.ProgramCodeBase..Memory.ProgramCodeBase + |rom|] == rom
    ensures s.screen == screen
  {
    State(seq(0x10, _ => 0), Memory.ProgramCodeBase, 0, Memory.StackBase, Memory.New(rom), screen)
  }

  // ---------------------------------------------------------------------
  // Helpers of execute
  // ---------------------------------------------------------------------

  /** `fetch_instruction`: the big-endian word at pc, and pc moved past it. */
  function Fetch(s: State): (r: Result<(Word, State), Fault>)
    requires Valid(s)
    ensures s.pc + Memory.WordSize > Memory.MemorySize <==> r == Err(Panic(MemoryOutOfRange))
    ensures r.Ok? ==> r.value.0 == s.mem[s.pc] as int * 0x100 + s.mem[s.pc + 1]
    ensures r.Ok? ==> r.value.1 == s.(pc := s.pc + Memory.WordSize)
  {
    if s.pc + Memory.WordSize > Memory.MemorySize then Err(Panic(MemoryOutOfRange))
    else Ok((Memory.ReadU16At(s.mem, s.pc), s.(pc := s.pc + Memory.WordSize)))
  }

  /** `push`: sp moves down one word and the value is stored there. */
  function Push(s: State, value: Word): (r: Result<State, Fault>)
    requires Valid(s)
    ensures s.sp < Memory.WordSize ==> r == Err(Panic(ArithmeticOverflow))
    ensures Memory.WordSize <= s.sp <= Memory.MemorySize <==> r.Ok?
    ensures r.Ok? ==> Valid(r.value)
    ensures r.Ok? ==> r.value.sp + Memory.WordSize == s.sp
    ensures r.Ok? ==> Memory.ReadU16At(r.value.mem, r.value.sp) == value
    ensures r.Ok? ==> forall i :: 0 <= i < |s.mem| && i != r.value.sp && i != r.value.sp + 1 ==> r.value.mem[i] == s.mem[i]
    ensures r.Ok? ==> r.value == s.(sp := r.value.sp, mem := r.value.mem)
  {
    if s.sp < Memory.WordSize then Err(Panic(ArithmeticOverflow))
    else
      var sp := s.sp - Memory.WordSize;
      if sp + Memory.WordSize > Memory.MemorySize then Err(Panic(MemoryOutOfRange))
      else Ok(s.(sp := sp, mem := Memory.WriteU16At(s.mem, value, sp)))
  }

  /** `pop`: the word at sp, and sp moved up past it. */
  function Pop(s: State): (r: Result<(Word, State), Fault>)
    requires Valid(s)
    ensures s.sp + Memory.WordSize <= Memory.MemorySize <==> r.Ok?
    ensures r.Ok? ==> r.value.0 == Memory.ReadU16At(s.mem, s.sp)
    ensures r.Ok? ==> r.value.1 == s.(sp := s.sp + Memory.WordSize)
  {
    if s.sp + Memory.WordSize > Memory.MemorySize then Err(Panic(MemoryOutOfRange))
    else Ok((Memory.ReadU16At(s.mem, s.sp), s.(sp := s.sp + Memory.WordSize)))
  }

  /** `call`: push pc, truncated to 16 bits, and jump. */
  function CallTo(s: State, addr: Addr): (r: Result<State, Fault>)
    requires Valid(s)
    ensures r.Ok? <==> Push(s, s.pc % 0x1_0000).Ok?
    ensures r.Ok? ==> Valid(r.value) && r.value.pc == addr
    ensures r.Ok? ==>
      && r.value.sp + Memory.WordSize == s.sp
      && Memory.ReadU16At(r.value.mem, r.value.sp) == s.pc % 0x1_0000
      && r.value == s.(pc := addr, sp := r.value.sp, mem := r.value.mem)
  {
    match Push(s, s.pc % 0x1_0000)
    case Err(e) => Err(e)
    case Ok(s1) => Ok(s1.(pc := addr))
  }

  /** `ret`: pop pc. */
  function Return(s: State): (r: Result<State, Fault>)
    requires Valid(s)
    ensures r.Ok? <==> Pop(s).Ok?
    ensures r.Ok? ==> Valid(r.value) && r.value.sp == s.sp + Memory.WordSize
    ensures r.Ok? ==> r.value.pc == Memory.ReadU16At(s.mem, s.sp)
    ensures r.Ok? ==> r.value == s.(pc := Memory.ReadU16At(s.mem, s.sp), sp := s.sp + Memory.WordSize)
  {
    match Pop(s)
    case Err(e) => Err(e)
    case Ok((v, s1)) => Ok(s1.(pc := v))
  }

  /** `skip_if`: step over the next instruction when the predicate holds. */
  function SkipIf(s: State, cond: bool): (s': State)
    ensures s'.pc == if cond then s.pc + Memory.WordSize else s.pc
    ensures s' == s.(pc := s'.pc)
  {
    if cond then s.(pc := s.pc + Memory.WordSize) else s
  }

  /** The three decimal digits of a byte, hundreds first. */
  function BcdDigits(n: Byte): (d: seq<Byte>)
    ensures |d| == 3
    ensures forall i :: 0 <= i < 3 ==> d[i] < 10
    ensures 100 * (d[0] as int) + 10 * (d[1] as int) + d[2] == n
  {
    DivDiv(n, 10, 10);
    assert n / 10 == 10 * (n / 100) + (n / 10) % 10;
    [(n / 100) % 10, (n / 10) % 10, n % 10]
  }

  /** `bcd`: the digits of `n` stored at index, index + 1 and index + 2. */
  function Bcd(s: State, n: Byte): (r: Result<State, Fault>)
    requires Valid(s)
    ensures s.index + 3 <= Memory.MemorySize <==> r.Ok?
    ensures r.Ok? ==> Valid(r.value) && r.value == s.(mem := r.value.mem)
    ensures r.Ok? ==> Memory.ReadAt(r.value.mem, s.index, 3) == BcdDigits(n)
    ensures r.Ok? ==> forall i :: 0 <= i < |s.mem| && !(s.index <= i < s.index + 3) ==> r.value.mem[i] == s.mem[i]
  {
    if s.index + 3 > Memory.MemorySize then Err(Panic(MemoryOutOfRange))
    else Ok(s.(mem := Memory.WriteAt(s.mem, BcdDigits(n), s.index)))
  }

  /** `load_regs`: V0..Vx read from memory at index; the other registers keep their values. */
  function LoadRegs(s: State, x: Reg): (r: Result<State, Fault>)
    requires Valid(s)
    ensures s.index + x + 1 <= Memory.MemorySize <==> r.Ok?
    ensures r.Ok? ==> Valid(r.value) && r.value == s.(gpr := r.value.gpr)
    ensures r.Ok? ==> forall i :: 0 <= i <= x ==> r.value.gpr[i] == s.mem[s.index + i]
    ensures r.Ok? ==> forall i :: x < i < 0x10 ==> r.value.gpr[i] == s.gpr[i]
  {
    if s.index + x + 1 > Memory.MemorySize then Err(Panic(MemoryOutOfRange))
    else Ok(s.(gpr := Memory.ReadAt(s.mem, s.index, x + 1) + s.gpr[x + 1..]))
  }

  /** `store_regs`: V0..Vx written to memory at index. */
  function StoreRegs(s: State, x: Reg): (r: Result<State, Fault>)
    requires Valid(s)
    ensures s.index + x + 1 <= Memory.MemorySize <==> r.Ok?
    ensures r.Ok? ==> Valid(r.value) && r.value == s.(mem := r.value.mem)
    ensures r.Ok? ==> forall i :: 0 <= i <= x ==> r.value.mem[s.index + i] == s.gpr[i]
    ensures r.Ok? ==> forall i :: 0 <= i < |s.mem| && !(s.index <= i <= s.index + x) ==> r.value.mem[i] == s.mem[i]
  {
    if s.index + x + 1 > Memory.MemorySize then Err(Panic(MemoryOutOfRange))
    else Ok(s.(mem := Memory.WriteAt(s.mem, s.gpr[..x + 1], s.index)))
  }

  /**
   * `draw`: the `n` bytes at index, read as a sprite, XORed onto the
   * screen at (Vx, Vy); VF becomes 1 exactly when the draw collided.
   */
  function DrawSprite(s: State, x: Reg, y: Reg, n: Nibble): (r: Result<State, Fault>)
    requires Valid(s)
    ensures r.Ok? <==> s.index + n <= Memory.MemorySize && (n == 0 || s.gpr[y] + n <= Sprites.ScreenHeight)
    ensures r.Ok? ==>
      var sp := Sprites.New(s.mem[s.index..s.index + n]);
      && Valid(r.value)
      && r.value == s.(gpr := s.gpr[Alu.Flag := r.value.gpr[Alu.Flag]], screen := r.value.screen)
      && (forall row, col :: 0 <= row < Sprites.ScreenHeight && 0 <= col < Sprites.ScreenWidth ==>
            r.value.screen[row][col] == Display.XoredAt(s.screen, sp, s.gpr[x], s.gpr[y], row, col))
      && r.value.gpr[Alu.Flag] == Alu.FlagOf(Display.Collides(s.screen, sp, s.gpr[x], s.gpr[y]))
  {
    if s.index + n >= UsizeLimit then Err(Panic(ArithmeticOverflow))
    else if s.index + n > Memory.MemorySize then Err(Panic(MemoryOutOfRange))
    else
      var sp := Sprites.New(s.mem[s.index..s.index + n]);
      if !Sprites.FitsVertically(sp, s.gpr[y]) then Err(Panic(ScreenOutOfRange))
      else
        var (screen, hit) := Display.Draw(s.screen, sp, s.gpr[x], s.gpr[y]);
        Ok(s.(gpr := s.gpr[Alu.Flag := Alu.FlagOf(hit)], screen := screen))
  }

  /** The lowest-numbered pressed key from `from` on, if any. */
  function FirstPressed(keys: seq<bool>, from: nat): (k: Option<nat>)
    requires from <= |keys|
    ensures k.Some? ==> from <= k.value < |keys| && keys[k.value]
    ensures k.Some? ==> forall j :: from <= j < k.value ==> !keys[j]
    ensures k.None? ==> forall j :: from <= j < |keys| ==> !keys[j]
    decreases |keys| - from
  {
    if from == |keys| then None
    else if keys[from] then Some(from)
    else FirstPressed(keys, from + 1)
  }

  /** `is_key_pressed`: indexing the sixteen-key keypad. */
  function KeyPressed(keys: seq<bool>, key: Byte): (r: Result<bool, Fault>)
    requires |keys| == KeyCount
    ensures key < KeyCount <==> r.Ok?
    ensures r.Ok? ==> r.value == keys[key]
  {
    if key >= KeyCount then Err(Panic(KeyOutOfRange)) else Ok(keys[key])
  }

  // ---------------------------------------------------------------------
  // execute
  // ---------------------------------------------------------------------

  /** The effect of an instruction on the registers alone. */
  function SetReg(s: State, x: Reg, v: Byte): State
  {
    s.(gpr := s.gpr[x := v])
  }

  /** Jumps, subroutine calls and the register-comparison skips. */
  function ExecuteFlow(s: State, i: Instr): (r: Result<State, Fault>)
    requires Valid(s)
    requires i.Jmp? || i.JmpV0? || i.Call? || i.Ret? || i.SkeByte? || i.SkneByte? || i.SkeReg? || i.SkneReg?
    ensures r.Ok? ==> Valid(r.value)
    ensures r.Err? ==> r.error.Panic?
  {
    match i
    case Jmp(a) => Ok(s.(pc := a))
    case JmpV0(a) => Ok(s.(pc := a + s.gpr[0]))
    case Call(a) => CallTo(s, a)
    case Ret => Return(s)
    case SkeByte(x, kk) => Ok(SkipIf(s, s.gpr[x] == kk))
    case SkneByte(x, kk) => Ok(SkipIf(s, s.gpr[x] != kk))
    case SkeReg(x, y) => Ok(SkipIf(s, s.gpr[x] == s.gpr[y]))
    case SkneReg(x, y) => Ok(SkipIf(s, s.gpr[x] != s.gpr[y]))
  }

  /** Loads of immediates and the register-to-register arithmetic. */
  function ExecuteRegs(s: State, i: Instr, rnd: nat): (r: Result<State, Fault>)
    requires Valid(s)
    requires || i.MovByte? || i.MovReg? || i.AddByte? || i.AddReg? || i.Sub? || i.RSub?
             || i.Or? || i.And? || i.Xor? || i.Shr? || i.Shl? || i.Rnd?
    ensures r.Ok? && Valid(r.value)
  {
    match i
    case MovByte(x, kk) => Ok(SetReg(s, x, kk))
    case MovReg(x, y) => Ok(SetReg(s, x, s.gpr[y]))
    case AddByte(x, kk) => Ok(SetReg(s, x, (s.gpr[x] as int + kk) % 0x100))
    case AddReg(x, y) => Ok(s.(gpr := Alu.AddAsWritten(s.gpr, x, y)))
    case Sub(x, y) => Ok(s.(gpr := Alu.SubAsWritten(s.gpr, x, y)))
    case RSub(x, y) => Ok(s.(gpr := Alu.RSubAsWritten(s.gpr, x, y)))
    case Or(x, y) => Ok(s.(gpr := Alu.Or(s.gpr, x, y)))
    case And(x, y) => Ok(s.(gpr := Alu.And(s.gpr, x, y)))
    case Xor(x, y) => Ok(s.(gpr := Alu.Xor(s.gpr, x, y)))
    case Shr(x, _) => Ok(s.(gpr := Alu.ShiftRight(s.gpr, x)))
    case Shl(x, _) => Ok(s.(gpr := Alu.ShiftLeft(s.gpr, x)))
    case Rnd(x, kk) => Ok(SetReg(s, x, rnd % (kk + 1)))
  }

  /** The index register, the memory it points at, and the screen. */
  function ExecuteIndex(s: State, i: Instr): (r: Result<State, Fault>)
    requires Valid(s)
    requires i.MovI? || i.AddI? || i.Font? || i.Bcd? || i.Load? || i.Store? || i.Drw? || i.Cls?
    ensures r.Ok? ==> Valid(r.value)
    ensures r.Err? ==> r.error.Panic?
  {
    match i
    case MovI(a) => Ok(s.(index := a))
    case AddI(x) => Ok(s.(index := (s.index + s.gpr[x]) % UsizeLimit))
    case Font(x) =>
      if s.gpr[x] as int * Memory.FontSize > 0xFF then Err(Panic(ArithmeticOverflow))
      else Ok(s.(index := s.gpr[x] as int * Memory.FontSize))
    case Bcd(x) => Bcd(s, s.gpr[x])
    case Load(x) => LoadRegs(s, x)
    case Store(x) => StoreRegs(s, x)
    case Drw(x, y, n) => DrawSprite(s, x, y, n)
    case Cls => Ok(s.(screen := Display.Clear(s.screen)))
  }

  /**
   * The keypad and the timers. MOV Vx, K with no key down returns `s0`,
   * the state before the fetch: the source polls until a key is
   * pressed, and the next step polls again.
   */
  function ExecuteIo(s0: State, s: State, i: Instr, keys: seq<bool>, delay: nat): (r: Result<State, Fault>)
    requires Valid(s) && Valid(s0) && |keys| == KeyCount
    requires i.Skp? || i.Sknp? || i.WaitKey? || i.MovFromDt? || i.MovToDt? || i.MovToSt?
    ensures r.Ok? ==> Valid(r.value)
    ensures r.Err? ==> r.error.Panic?
  {
    match i
    case Skp(x) =>
      (match KeyPressed(keys, s.gpr[x])
       case Err(e) => Err(e)
       case Ok(down) => Ok(SkipIf(s, down)))
    case Sknp(x) =>
      (match KeyPressed(keys, s.gpr[x])
       case Err(e) => Err(e)
       case Ok(down) => Ok(SkipIf(s, !down)))
    case WaitKey(x) =>
      (match FirstPressed(keys, 0)
       case None => Ok(s0)
       case Some(k) => Ok(SetReg(s, x, k)))
    case MovFromDt(x) => Ok(SetReg(s, x, delay % 0x100))
    case MovToDt(_) => Ok(s)
    case MovToSt(_) => Ok(s)
  }

  /**
   * The dispatch of `execute` for instruction `i`, with `s` the state
   * after the fetch and `s0` the state before it.
   */
  function Execute(s0: State, s: State, i: Instr, keys: seq<bool>, delay: nat, rnd: nat): (r: Result<State, Fault>)
    requires Valid(s) && Valid(s0) && |keys| == KeyCount
    ensures r.Ok? ==> Valid(r.value)
    ensures r.Err? ==> r.error.Panic?
  {
    if i.Jmp? || i.JmpV0? || i.Call? || i.Ret? || i.SkeByte? || i.SkneByte? || i.SkeReg? || i.SkneReg? then
      ExecuteFlow(s, i)
    else if i.Skp? || i.Sknp? || i.WaitKey? || i.MovFromDt? || i.MovToDt? || i.MovToSt? then
      ExecuteIo(s0, s, i, keys, delay)
    else if i.MovI? || i.AddI? || i.Font? || i.Bcd? || i.Load? || i.Store? || i.Drw? || i.Cls? then
      ExecuteIndex(s, i)
    else
      ExecuteRegs(s, i, rnd)
  }

  /**
   * `execute`: fetch, decode and run one instruction. `keys` is the
   * keypad, `delay` the delay timer's reading and `rnd` the random
   * generator's draw.
   */
  function Step(s: State, keys: seq<bool>, delay: nat, rnd: nat): (r: Result<State, Fault>)
    requires Valid(s) && |keys| == KeyCount
    ensures r.Ok? ==> Valid(r.value)
  {
    match Fetch(s)
    case Err(e) => Err(e)
    case Ok((w, s1)) =>
      match Decode(w)
      case None => Err(UnsupportedOpcode(w, s1.pc - Memory.WordSize))
      case Some(i) => Execute(s, s1, i, keys, delay, rnd)
  }
}
