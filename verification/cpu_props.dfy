/**
 * What one step of the interpreter does, instruction by instruction, and
 * what sequences of steps undo or complete.
 */
module CpuProps {
  import opened Wrappers
  import opened Bits
  import opened Opcode
  import Memory
  import Display
  import Sprites
  import Alu
  import opened Cpu

  /** The word at pc is in memory and decodes to `i`. */
  predicate Fetches(s: State, i: Instr)
    requires Valid(s)
  {
    s.pc + Memory.WordSize <= Memory.MemorySize && Decode(Memory.ReadU16At(s.mem, s.pc)) == Some(i)
  }

  /** The state after fetching: pc past the instruction word. */
  function Advanced(s: State): State
  {
    s.(pc := s.pc + Memory.WordSize)
  }

  /** A step runs the fetched instruction on the advanced state. */
  lemma {:induction false} StepRuns(s: State, i: Instr, keys: seq<bool>, delay: nat, rnd: nat)
    requires Valid(s) && |keys| == KeyCount
    requires Fetches(s, i)
    ensures Step(s, keys, delay, rnd) == Execute(s, Advanced(s), i, keys, delay, rnd)
  {
  }

  // ---------------------------------------------------------------------
  // Fetch and decode
  // ---------------------------------------------------------------------

  /** A pc too close to the end of memory for a whole word panics. */
  lemma {:induction false} StepFetchOutOfRange(s: State, keys: seq<bool>, delay: nat, rnd: nat)
    requires Valid(s) && |keys| == KeyCount
    requires s.pc + Memory.WordSize > Memory.MemorySize
    ensures Step(s, keys, delay, rnd) == Err(Panic(MemoryOutOfRange))
  {
  }

  /**
   * A step reports an unsupported opcode exactly when the fetched word
   * matches no pattern, and the report names the word and its address.
   */
  lemma {:induction false} StepUnsupported(s: State, keys: seq<bool>, delay: nat, rnd: nat)
    requires Valid(s) && |keys| == KeyCount
    requires s.pc + Memory.WordSize <= Memory.MemorySize
    ensures var w := Memory.ReadU16At(s.mem, s.pc);
      (Decode(w) == None <==> Step(s, keys, delay, rnd) == Err(UnsupportedOpcode(w, s.pc)))
  {
    var w := Memory.ReadU16At(s.mem, s.pc);
    match Decode(w)
    case None =>
    case Some(i) =>
      StepRuns(s, i, keys, delay, rnd);
  }

  // ---------------------------------------------------------------------
  // The program counter
  // ---------------------------------------------------------------------

  /** Instructions that may set pc to something other than the next instruction. */
  predicate IsControl(i: Instr)
  {
    || i.Jmp? || i.JmpV0? || i.Call? || i.Ret?
    || i.SkeByte? || i.SkneByte? || i.SkeReg? || i.SkneReg? || i.Skp? || i.Sknp?
    || i.WaitKey?
  }

  /** Every other instruction that completes leaves pc just past itself. */
  lemma {:induction false} StepAdvancesPc(s: State, i: Instr, keys: seq<bool>, delay: nat, rnd: nat)
    requires Valid(s) && |keys| == KeyCount
    requires Fetches(s, i) && !IsControl(i)
    requires Step(s, keys, delay, rnd).Ok?
    ensures Step(s, keys, delay, rnd).value.pc == s.pc + Memory.WordSize
  {
    StepRuns(s, i, keys, delay, rnd);
  }

  /** JMP addr sets pc to addr and changes nothing else. */
  lemma {:induction false} StepJump(s: State, a: Addr, keys: seq<bool>, delay: nat, rnd: nat)
    requires Valid(s) && |keys| == KeyCount
    requires Fetches(s, Jmp(a))
    ensures Step(s, keys, delay, rnd) == Ok(s.(pc := a))
  {
    StepRuns(s, Jmp(a), keys, delay, rnd);
  }

  /** JMP V0, addr jumps to addr plus V0, which never exceeds 16 bits. */
  lemma {:induction false} StepJumpIndexed(s: State, a: Addr, keys: seq<bool>, delay: nat, rnd: nat)
    requires Valid(s) && |keys| == KeyCount
    requires Fetches(s, JmpV0(a))
    ensures Step(s, keys, delay, rnd) == Ok(s.(pc := a + s.gpr[0]))
    ensures a + s.gpr[0] < 0x1_0000
  {
    StepRuns(s, JmpV0(a), keys, delay, rnd);
  }

  // ---------------------------------------------------------------------
  // Skips
  // ---------------------------------------------------------------------

  /** SKE Vx, byte skips the next instruction exactly when Vx equals the byte. */
  lemma {:induction false} StepSkipIfEqualByte(s: State, x: Reg, kk: Byte, keys: seq<bool>, delay: nat, rnd: nat)
    requires Valid(s) && |keys| == KeyCount
    requires Fetches(s, SkeByte(x, kk))
    ensures Step(s, keys, delay, rnd) == Ok(s.(pc := s.pc + if s.gpr[x] == kk then 4 else 2))
  {
    StepRuns(s, SkeByte(x, kk), keys, delay, rnd);
  }

  /** SKNE Vx, byte skips the next instruction exactly when Vx differs from the byte. */
  lemma {:induction false} StepSkipIfNotEqualByte(s: State, x: Reg, kk: Byte, keys: seq<bool>, delay: nat, rnd: nat)
    requires Valid(s) && |keys| == KeyCount
    requires Fetches(s, SkneByte(x, kk))
    ensures Step(s, keys, delay, rnd) == Ok(s.(pc := s.pc + if s.gpr[x] != kk then 4 else 2))
  {
    StepRuns(s, SkneByte(x, kk), keys, delay, rnd);
  }

  /** SKE Vx, Vy skips the next instruction exactly when the registers are equal. */
  lemma {:induction false} StepSkipIfEqualReg(s: State, x: Reg, y: Reg, keys: seq<bool>, delay: nat, rnd: nat)
    requires Valid(s) && |keys| == KeyCount
    requires Fetches(s, SkeReg(x, y))
    ensures Step(s, keys, delay, rnd) == Ok(s.(pc := s.pc + if s.gpr[x] == s.gpr[y] then 4 else 2))
  {
    StepRuns(s, SkeReg(x, y), keys, delay, rnd);
  }

  /** SKNE Vx, Vy skips the next instruction exactly when the registers differ. */
  lemma {:induction false} StepSkipIfNotEqualReg(s: State, x: Reg, y: Reg, keys: seq<bool>, delay: nat, rnd: nat)
    requires Valid(s) && |keys| == KeyCount
    requires Fetches(s, SkneReg(x, y))
    ensures Step(s, keys, delay, rnd) == Ok(s.(pc := s.pc + if s.gpr[x] != s.gpr[y] then 4 else 2))
  {
    StepRuns(s, SkneReg(x, y), keys, delay, rnd);
  }

  /**
   * SKP Vx skips exactly when key Vx is down, and SKNP exactly when it is
   * up; a key number of 16 or more panics.
   */
  lemma {:induction false} StepSkipIfKey(s: State, x: Reg, keys: seq<bool>, delay: nat, rnd: nat)
    requires Valid(s) && |keys| == KeyCount
    ensures Fetches(s, Skp(x)) ==>
      (Step(s, keys, delay, rnd) ==
         if s.gpr[x] >= KeyCount then Err(Panic(KeyOutOfRange))
         else Ok(s.(pc := s.pc + if keys[s.gpr[x]] then 4 else 2)))
    ensures Fetches(s, Sknp(x)) ==>
      (Step(s, keys, delay, rnd) ==
         if s.gpr[x] >= KeyCount then Err(Panic(KeyOutOfRange))
         else Ok(s.(pc := s.pc + if !keys[s.gpr[x]] then 4 else 2)))
  {
    if Fetches(s, Skp(x)) {
      StepRuns(s, Skp(x), keys, delay, rnd);
    }
    if Fetches(s, Sknp(x)) {
      StepRuns(s, Sknp(x), keys, delay, rnd);
    }
  }

  // ---------------------------------------------------------------------
  // Subroutines
  // ---------------------------------------------------------------------

  /**
   * CALL pushes the address of the following instruction and jumps; the
   * RET at the target then resumes just after the CALL with the stack
   * pointer back where it was.
   */
  lemma {:induction false} CallThenReturn(s: State, a: Addr, keys: seq<bool>, delay: nat, rnd: nat)
    requires Valid(s) && |keys| == KeyCount
    requires Fetches(s, Call(a))
    requires Step(s, keys, delay, rnd).Ok?
    requires Fetches(Step(s, keys, delay, rnd).value, Ret)
    ensures Step(s, keys, delay, rnd).value.pc == a
    ensures Step(s, keys, delay, rnd).value.sp == s.sp - Memory.WordSize
    ensures var s2 := Step(Step(s, keys, delay, rnd).value, keys, delay, rnd);
      s2.Ok? && s2.value.pc == s.pc + Memory.WordSize && s2.value.sp == s.sp
      && s2.value.gpr == s.gpr && s2.value.index == s.index && s2.value.screen == s.screen
  {
    var t := Advanced(s);
    assert Step(s, keys, delay, rnd) == CallTo(t, a) by {
      StepRuns(s, Call(a), keys, delay, rnd);
    }
    var s1 := CallTo(t, a).value;
    assert Step(s1, keys, delay, rnd) == Return(Advanced(s1)) by {
      StepRuns(s1, Ret, keys, delay, rnd);
    }
    CallToThenReturn(t, a, s1.pc + Memory.WordSize);
  }

  /**
   * `call` then `ret`, whatever pc held in between, comes back to the
   * pushed pc with the stack pointer restored; only the stack word in
   * memory stays changed.
   */
  lemma {:induction false} CallToThenReturn(s: State, a: Addr, pc: nat)
    requires Valid(s) && s.pc < 0x1_0000
    requires CallTo(s, a).Ok?
    ensures var s1 := CallTo(s, a).value;
      s1.sp == s.sp - Memory.WordSize && s1.pc == a
      && Return(s1.(pc := pc)) == Ok(s.(mem := s1.mem))
  {
    var s1 := CallTo(s, a).value;
    var p := Push(s, s.pc % 0x1_0000).value;
    assert s1 == p.(pc := a);
    assert Memory.ReadU16At(p.mem, p.sp) == s.pc;
  }

  /** CALL with fewer than two bytes of stack left underflows the stack pointer. */
  lemma {:induction false} CallUnderflows(s: State, a: Addr, keys: seq<bool>, delay: nat, rnd: nat)
    requires Valid(s) && |keys| == KeyCount
    requires Fetches(s, Call(a)) && s.sp < Memory.WordSize
    ensures Step(s, keys, delay, rnd) == Err(Panic(ArithmeticOverflow))
  {
    StepRuns(s, Call(a), keys, delay, rnd);
  }

  // ---------------------------------------------------------------------
  // Arithmetic
  // ---------------------------------------------------------------------

  /** MOV Vx, byte loads the byte into Vx and changes nothing else but pc. */
  lemma {:induction false} StepMovByte(s: State, x: Reg, kk: Byte, keys: seq<bool>, delay: nat, rnd: nat)
    requires Valid(s) && |keys| == KeyCount
    requires Fetches(s, MovByte(x, kk))
    ensures Step(s, keys, delay, rnd) == Ok(Advanced(s).(gpr := s.gpr[x := kk]))
  {
    StepRuns(s, MovByte(x, kk), keys, delay, rnd);
    assert Execute(s, Advanced(s), MovByte(x, kk), keys, delay, rnd) == ExecuteRegs(Advanced(s), MovByte(x, kk), rnd);
  }

  /** MOV Vx, Vy copies Vy into Vx and changes nothing else but pc. */
  lemma {:induction false} StepMovReg(s: State, x: Reg, y: Reg, keys: seq<bool>, delay: nat, rnd: nat)
    requires Valid(s) && |keys| == KeyCount
    requires Fetches(s, MovReg(x, y))
    ensures Step(s, keys, delay, rnd) == Ok(Advanced(s).(gpr := s.gpr[x := s.gpr[y]]))
  {
    StepRuns(s, MovReg(x, y), keys, delay, rnd);
    assert Execute(s, Advanced(s), MovReg(x, y), keys, delay, rnd) == ExecuteRegs(Advanced(s), MovReg(x, y), rnd);
  }

  /** ADD Vx, byte wraps around at 256 and, unlike ADD Vx, Vy, leaves VF alone. */
  lemma {:induction false} StepAddByte(s: State, x: Reg, kk: Byte, keys: seq<bool>, delay: nat, rnd: nat)
    requires Valid(s) && |keys| == KeyCount
    requires Fetches(s, AddByte(x, kk))
    ensures Step(s, keys, delay, rnd) == Ok(Advanced(s).(gpr := s.gpr[x := (s.gpr[x] as int + kk) % 0x100]))
  {
    StepRuns(s, AddByte(x, kk), keys, delay, rnd);
    ExecuteAddByte(s, Advanced(s), x, kk, keys, delay, rnd);
  }

  /** The ADD Vx, byte arm on its own, away from the fetch and decode. */
  lemma {:induction false} ExecuteAddByte(s0: State, s: State, x: Reg, kk: Byte, keys: seq<bool>, delay: nat, rnd: nat)
    requires Valid(s) && Valid(s0) && |keys| == KeyCount
    ensures Execute(s0, s, AddByte(x, kk), keys, delay, rnd) == Ok(s.(gpr := s.gpr[x := (s.gpr[x] as int + kk) % 0x100]))
  {
    assert Execute(s0, s, AddByte(x, kk), keys, delay, rnd) == ExecuteRegs(s, AddByte(x, kk), rnd);
  }

  /**
   * ADD Vx, Vy runs the source's evaluation order. Unless VF is an operand
   * and the sum carries, that is the intended result: the sum modulo 256
   * in Vx and the carry in VF.
   */
  lemma {:induction false} StepAdd(s: State, x: Reg, y: Reg, keys: seq<bool>, delay: nat, rnd: nat)
    requires Valid(s) && |keys| == KeyCount
    requires Fetches(s, AddReg(x, y))
    ensures var r := Step(s, keys, delay, rnd);
      r.Ok? && r.value == Advanced(s).(gpr := Alu.AddAsWritten(s.gpr, x, y))
    ensures var r := Step(s, keys, delay, rnd);
      (x != Alu.Flag && y != Alu.Flag) || s.gpr[x] as int + s.gpr[y] <= 0xFF ==>
        && r.value.gpr == Alu.Add(s.gpr, x, y)
        && r.value.gpr[x] == (s.gpr[x] as int + s.gpr[y]) % 0x100
        && (x != Alu.Flag ==> r.value.gpr[Alu.Flag] == Alu.FlagOf(s.gpr[x] as int + s.gpr[y] > 0xFF))
  {
    StepRuns(s, AddReg(x, y), keys, delay, rnd);
    Alu.AsWrittenAgreesOffFlag(s.gpr, x, y);
  }

  /**
   * SUB Vx, Vy runs the source's evaluation order. Unless VF is an operand
   * and the subtraction borrows, that is the intended result: the
   * difference modulo 256 in Vx, VF set exactly when nothing was borrowed.
   */
  lemma {:induction false} StepSub(s: State, x: Reg, y: Reg, keys: seq<bool>, delay: nat, rnd: nat)
    requires Valid(s) && |keys| == KeyCount
    requires Fetches(s, Sub(x, y))
    ensures var r := Step(s, keys, delay, rnd);
      r.Ok? && r.value == Advanced(s).(gpr := Alu.SubAsWritten(s.gpr, x, y))
    ensures var r := Step(s, keys, delay, rnd);
      (x != Alu.Flag && y != Alu.Flag) || s.gpr[x] >= s.gpr[y] ==>
        && r.value.gpr == Alu.Sub(s.gpr, x, y)
        && r.value.gpr[x] == (s.gpr[x] as int - s.gpr[y]) % 0x100
        && (x != Alu.Flag ==> r.value.gpr[Alu.Flag] == Alu.FlagOf(s.gpr[x] >= s.gpr[y]))
  {
    assert Step(s, keys, delay, rnd) == Ok(Advanced(s).(gpr := Alu.SubAsWritten(s.gpr, x, y))) by {
      StepRuns(s, Sub(x, y), keys, delay, rnd);
    }
    Alu.AsWrittenAgreesOffFlag(s.gpr, x, y);
    DiffMod(s.gpr[x], s.gpr[y]);
  }

  /**
   * RSUB Vx, Vy runs the source's evaluation order. Unless VF is an
   * operand and the subtraction borrows, that is the intended result:
   * Vy - Vx modulo 256 in Vx, VF set exactly when nothing was borrowed.
   */
  lemma {:induction false} StepRSub(s: State, x: Reg, y: Reg, keys: seq<bool>, delay: nat, rnd: nat)
    requires Valid(s) && |keys| == KeyCount
    requires Fetches(s, RSub(x, y))
    ensures var r := Step(s, keys, delay, rnd);
      r.Ok? && r.value == Advanced(s).(gpr := Alu.RSubAsWritten(s.gpr, x, y))
    ensures var r := Step(s, keys, delay, rnd);
      (x != Alu.Flag && y != Alu.Flag) || s.gpr[y] >= s.gpr[x] ==>
        && r.value.gpr == Alu.RSub(s.gpr, x, y)
        && r.value.gpr[x] == (s.gpr[y] as int - s.gpr[x]) % 0x100
        && (x != Alu.Flag ==> r.value.gpr[Alu.Flag] == Alu.FlagOf(s.gpr[y] >= s.gpr[x]))
  {
    assert Step(s, keys, delay, rnd) == Ok(Advanced(s).(gpr := Alu.RSubAsWritten(s.gpr, x, y))) by {
      StepRuns(s, RSub(x, y), keys, delay, rnd);
    }
    Alu.AsWrittenAgreesOffFlag(s.gpr, x, y);
    DiffMod(s.gpr[y], s.gpr[x]);
  }

  /** A byte difference plus 256 on a borrow is the difference modulo 256. */
  lemma {:induction false} DiffMod(a: Byte, b: Byte)
    ensures (a as int - b) % 0x100 == if a >= b then a - b else a as int - b + 0x100
  {
    if a < b {
      DivUnique(a as int - b, 0x100, -1, a as int - b + 0x100);
    }
  }

  /**
   * OR Vx, Vy sets in Vx every bit set in Vx or Vy; VF is left alone
   * unless it is Vx, and nothing else but pc changes.
   */
  lemma {:induction false} StepOr(s: State, x: Reg, y: Reg, keys: seq<bool>, delay: nat, rnd: nat)
    requires Valid(s) && |keys| == KeyCount
    requires Fetches(s, Or(x, y))
    ensures Step(s, keys, delay, rnd) == Ok(Advanced(s).(gpr := Alu.Or(s.gpr, x, y)))
    ensures var g := Step(s, keys, delay, rnd).value.gpr;
      forall b: nat :: b < 8 ==> (Bits.Bit(g[x], b) <==> Bits.Bit(s.gpr[x], b) || Bits.Bit(s.gpr[y], b))
  {
    StepRuns(s, Or(x, y), keys, delay, rnd);
    assert Execute(s, Advanced(s), Or(x, y), keys, delay, rnd) == ExecuteRegs(Advanced(s), Or(x, y), rnd);
  }

  /** AND Vx, Vy keeps in Vx the bits set in both; nothing else but pc changes. */
  lemma {:induction false} StepAnd(s: State, x: Reg, y: Reg, keys: seq<bool>, delay: nat, rnd: nat)
    requires Valid(s) && |keys| == KeyCount
    requires Fetches(s, And(x, y))
    ensures Step(s, keys, delay, rnd) == Ok(Advanced(s).(gpr := Alu.And(s.gpr, x, y)))
    ensures var g := Step(s, keys, delay, rnd).value.gpr;
      forall b: nat :: b < 8 ==> (Bits.Bit(g[x], b) <==> Bits.Bit(s.gpr[x], b) && Bits.Bit(s.gpr[y], b))
  {
    StepRuns(s, And(x, y), keys, delay, rnd);
    assert Execute(s, Advanced(s), And(x, y), keys, delay, rnd) == ExecuteRegs(Advanced(s), And(x, y), rnd);
  }

  /** XOR Vx, Vy keeps in Vx the bits set in exactly one; nothing else but pc changes. */
  lemma {:induction false} StepXor(s: State, x: Reg, y: Reg, keys: seq<bool>, delay: nat, rnd: nat)
    requires Valid(s) && |keys| == KeyCount
    requires Fetches(s, Xor(x, y))
    ensures Step(s, keys, delay, rnd) == Ok(Advanced(s).(gpr := Alu.Xor(s.gpr, x, y)))
    ensures var g := Step(s, keys, delay, rnd).value.gpr;
      forall b: nat :: b < 8 ==> (Bits.Bit(g[x], b) <==> Bits.Bit(s.gpr[x], b) != Bits.Bit(s.gpr[y], b))
  {
    StepRuns(s, Xor(x, y), keys, delay, rnd);
    assert Execute(s, Advanced(s), Xor(x, y), keys, delay, rnd) == ExecuteRegs(Advanced(s), Xor(x, y), rnd);
  }

  /**
   * SHR Vx: VF gets the bit shifted out and Vx the rest. SHR VF shifts
   * the flag just written, leaving VF zero.
   */
  lemma {:induction false} StepShiftRight(s: State, x: Reg, y: Reg, keys: seq<bool>, delay: nat, rnd: nat)
    requires Valid(s) && |keys| == KeyCount
    requires Fetches(s, Shr(x, y))
    ensures var r := Step(s, keys, delay, rnd);
      && r.Ok? && r.value.pc == s.pc + Memory.WordSize
      && (x != Alu.Flag ==> r.value.gpr[x] == s.gpr[x] / 2 && r.value.gpr[Alu.Flag] == s.gpr[x] % 2)
      && (x == Alu.Flag ==> r.value.gpr[Alu.Flag] == 0)
    ensures Step(s, keys, delay, rnd) == Ok(Advanced(s).(gpr := Alu.ShiftRight(s.gpr, x)))
  {
    StepRuns(s, Shr(x, y), keys, delay, rnd);
  }

  /**
   * SHL Vx: VF gets the top bit shifted out and Vx the doubled value
   * modulo 256. SHL VF doubles the flag just written.
   */
  lemma {:induction false} StepShiftLeft(s: State, x: Reg, y: Reg, keys: seq<bool>, delay: nat, rnd: nat)
    requires Valid(s) && |keys| == KeyCount
    requires Fetches(s, Shl(x, y))
    ensures var r := Step(s, keys, delay, rnd);
      && r.Ok? && r.value.pc == s.pc + Memory.WordSize
      && (x != Alu.Flag ==>
            r.value.gpr[x] == (2 * s.gpr[x] as int) % 0x100 && r.value.gpr[Alu.Flag] == s.gpr[x] / 0x80)
      && (x == Alu.Flag ==> r.value.gpr[Alu.Flag] == 2 * (s.gpr[Alu.Flag] / 0x80))
    ensures Step(s, keys, delay, rnd) == Ok(Advanced(s).(gpr := Alu.ShiftLeft(s.gpr, x)))
  {
    StepRuns(s, Shl(x, y), keys, delay, rnd);
  }

  /** ADD I, Vx wraps around at the width of `usize`. */
  lemma {:induction false} StepAddIndex(s: State, x: Reg, keys: seq<bool>, delay: nat, rnd: nat)
    requires Valid(s) && |keys| == KeyCount
    requires Fetches(s, AddI(x))
    ensures Step(s, keys, delay, rnd) == Ok(Advanced(s).(index := (s.index + s.gpr[x]) % UsizeLimit))
  {
    assert Step(s, keys, delay, rnd) == ExecuteIndex(Advanced(s), AddI(x)) by {
      StepRuns(s, AddI(x), keys, delay, rnd);
    }
    ExecuteAddIndex(Advanced(s), x);
  }

  /** ADD I, Vx on the state after the fetch. */
  lemma {:induction false} ExecuteAddIndex(t: State, x: Reg)
    requires Valid(t)
    ensures ExecuteIndex(t, AddI(x)) == Ok(t.(index := (t.index + t.gpr[x]) % UsizeLimit))
  {
  }

  /** RND Vx, byte stores a value no greater than the byte. */
  lemma {:induction false} StepRandomBounded(s: State, x: Reg, kk: Byte, keys: seq<bool>, delay: nat, rnd: nat)
    requires Valid(s) && |keys| == KeyCount
    requires Fetches(s, Rnd(x, kk))
    ensures var r := Step(s, keys, delay, rnd);
      r.Ok? && r.value.gpr[x] <= kk && r.value == Advanced(s).(gpr := s.gpr[x := r.value.gpr[x]])
  {
    StepRuns(s, Rnd(x, kk), keys, delay, rnd);
  }

  // ---------------------------------------------------------------------
  // Timers and keys
  // ---------------------------------------------------------------------

  /** MOV Vx, DT stores the timer's reading truncated to 8 bits. */
  lemma {:induction false} StepReadDelay(s: State, x: Reg, keys: seq<bool>, delay: nat, rnd: nat)
    requires Valid(s) && |keys| == KeyCount
    requires Fetches(s, MovFromDt(x))
    ensures Step(s, keys, delay, rnd) == Ok(Advanced(s).(gpr := s.gpr[x := delay % 0x100]))
  {
    StepRuns(s, MovFromDt(x), keys, delay, rnd);
  }

  /** MOV DT, Vx and MOV ST, Vx change nothing the model holds but pc. */
  lemma {:induction false} StepSetTimers(s: State, x: Reg, keys: seq<bool>, delay: nat, rnd: nat)
    requires Valid(s) && |keys| == KeyCount
    requires Fetches(s, MovToDt(x)) || Fetches(s, MovToSt(x))
    ensures Step(s, keys, delay, rnd) == Ok(Advanced(s))
  {
    if Fetches(s, MovToDt(x)) {
      StepRuns(s, MovToDt(x), keys, delay, rnd);
    } else {
      StepRuns(s, MovToSt(x), keys, delay, rnd);
    }
  }

  /**
   * MOV Vx, K with no key down leaves the machine as it was, so the next
   * step polls again; otherwise it stores the lowest key that is down.
   */
  lemma {:induction false} StepWaitKey(s: State, x: Reg, keys: seq<bool>, delay: nat, rnd: nat)
    requires Valid(s) && |keys| == KeyCount
    requires Fetches(s, WaitKey(x))
    ensures (forall k :: 0 <= k < KeyCount ==> !keys[k]) ==> Step(s, keys, delay, rnd) == Ok(s)
    ensures forall k :: 0 <= k < KeyCount && keys[k] && (forall j :: 0 <= j < k ==> !keys[j]) ==>
      Step(s, keys, delay, rnd) == Ok(Advanced(s).(gpr := s.gpr[x := k]))
  {
    StepRuns(s, WaitKey(x), keys, delay, rnd);
    forall k | 0 <= k < KeyCount && keys[k] && (forall j :: 0 <= j < k ==> !keys[j])
      ensures FirstPressed(keys, 0) == Some(k)
    {
      var f := FirstPressed(keys, 0);
      assert f.Some?;
      assert !(f.value < k) && !(k < f.value);
    }
  }

  // ---------------------------------------------------------------------
  // Memory through the index register
  // ---------------------------------------------------------------------

  /** BCD Vx stores three decimal digits at index that spell Vx. */
  lemma {:induction false} StepBcd(s: State, x: Reg, keys: seq<bool>, delay: nat, rnd: nat)
    requires Valid(s) && |keys| == KeyCount
    requires Fetches(s, Bcd(x))
    ensures var r := Step(s, keys, delay, rnd);
      && (r.Ok? <==> s.index + 3 <= Memory.MemorySize)
      && (r.Ok? ==>
            var m := r.value.mem;
            && m[s.index] < 10 && m[s.index + 1] < 10 && m[s.index + 2] < 10
            && 100 * (m[s.index] as int) + 10 * (m[s.index + 1] as int) + m[s.index + 2] == s.gpr[x])
    ensures var r := Step(s, keys, delay, rnd);
      r.Ok? ==>
        && r.value == Advanced(s).(mem := r.value.mem)
        && forall i :: 0 <= i < |s.mem| && !(s.index <= i < s.index + 3) ==> r.value.mem[i] == s.mem[i]
  {
    StepRuns(s, Bcd(x), keys, delay, rnd);
  }

  /**
   * STR [I], Vx then LD Vx, [I] with the same index gives V0..Vx back,
   * whatever the registers held in between, and leaves the rest alone.
   */
  lemma {:induction false} StoreThenLoad(s: State, x: Reg, g: Alu.Registers)
    requires Valid(s)
    requires StoreRegs(s, x).Ok?
    ensures var t := StoreRegs(s, x).value.(gpr := g);
      LoadRegs(t, x).Ok? && LoadRegs(t, x).value.gpr == s.gpr[..x + 1] + g[x + 1..]
  {
  }

  /** LD Vx, [I] then STR [I], Vx writes back what was read: memory is unchanged. */
  lemma {:induction false} LoadThenStore(s: State, x: Reg)
    requires Valid(s)
    requires LoadRegs(s, x).Ok?
    ensures StoreRegs(LoadRegs(s, x).value, x) == LoadRegs(s, x)
    ensures StoreRegs(LoadRegs(s, x).value, x).value.mem == s.mem
  {
    var s1 := LoadRegs(s, x).value;
    Memory.WriteWhatWasRead(s.mem, s.index, x + 1);
    assert s1.gpr[..x + 1] == Memory.ReadAt(s.mem, s.index, x + 1);
  }

  /** MOV I, addr sets index to the address and changes nothing else but pc. */
  lemma {:induction false} StepMovI(s: State, a: Addr, keys: seq<bool>, delay: nat, rnd: nat)
    requires Valid(s) && |keys| == KeyCount
    requires Fetches(s, MovI(a))
    ensures Step(s, keys, delay, rnd) == Ok(Advanced(s).(index := a))
  {
    StepRuns(s, MovI(a), keys, delay, rnd);
  }

  /**
   * LD Vx, [I] reads V0..Vx from memory at index, keeps the higher
   * registers and everything else but pc, and panics exactly when the
   * range runs past memory.
   */
  lemma {:induction false} StepLoad(s: State, x: Reg, keys: seq<bool>, delay: nat, rnd: nat)
    requires Valid(s) && |keys| == KeyCount
    requires Fetches(s, Load(x))
    ensures Step(s, keys, delay, rnd) == LoadRegs(Advanced(s), x)
    ensures var r := Step(s, keys, delay, rnd);
      && (r.Ok? <==> s.index + x + 1 <= Memory.MemorySize)
      && (r.Ok? ==> r.value == Advanced(s).(gpr := s.mem[s.index..s.index + x + 1] + s.gpr[x + 1..]))
  {
    StepRuns(s, Load(x), keys, delay, rnd);
    var r := Step(s, keys, delay, rnd);
    if r.Ok? {
      assert r.value.gpr == s.mem[s.index..s.index + x + 1] + s.gpr[x + 1..];
    }
  }

  /**
   * STR [I], Vx writes V0..Vx to memory at index, changes no other byte
   * and nothing else but pc, and panics exactly when the range runs past
   * memory.
   */
  lemma {:induction false} StepStore(s: State, x: Reg, keys: seq<bool>, delay: nat, rnd: nat)
    requires Valid(s) && |keys| == KeyCount
    requires Fetches(s, Store(x))
    ensures Step(s, keys, delay, rnd) == StoreRegs(Advanced(s), x)
    ensures var r := Step(s, keys, delay, rnd);
      && (r.Ok? <==> s.index + x + 1 <= Memory.MemorySize)
      && (r.Ok? ==>
            && r.value == Advanced(s).(mem := r.value.mem)
            && r.value.mem[s.index..s.index + x + 1] == s.gpr[..x + 1]
            && forall i :: 0 <= i < |s.mem| && !(s.index <= i <= s.index + x) ==> r.value.mem[i] == s.mem[i])
  {
    StepRuns(s, Store(x), keys, delay, rnd);
  }

  /**
   * Two steps, STR [I], Vx and then an LD Vx, [I] fetched next, give
   * V0..Vx back whatever the registers were set to in between.
   */
  lemma {:induction false} StepStoreThenLoad(s: State, x: Reg, g: Alu.Registers, keys: seq<bool>, delay: nat, rnd: nat)
    requires Valid(s) && |keys| == KeyCount
    requires Fetches(s, Store(x))
    requires s.index + x + 1 <= Memory.MemorySize
    requires Fetches(Step(s, keys, delay, rnd).value.(gpr := g), Load(x))
    ensures var r := Step(Step(s, keys, delay, rnd).value.(gpr := g), keys, delay, rnd);
      && r.Ok? && r.value.pc == s.pc + 2 * Memory.WordSize
      && r.value.gpr == s.gpr[..x + 1] + g[x + 1..]
  {
    StepStore(s, x, keys, delay, rnd);
    var t := Step(s, keys, delay, rnd).value.(gpr := g);
    StepLoad(t, x, keys, delay, rnd);
    StoreThenLoad(Advanced(s), x, g);
  }

  /**
   * Two steps, LD Vx, [I] and then an STR [I], Vx fetched next, leave
   * memory as it was.
   */
  lemma {:induction false} StepLoadThenStore(s: State, x: Reg, keys: seq<bool>, delay: nat, rnd: nat)
    requires Valid(s) && |keys| == KeyCount
    requires Fetches(s, Load(x))
    requires s.index + x + 1 <= Memory.MemorySize
    requires Fetches(Step(s, keys, delay, rnd).value, Store(x))
    ensures var r := Step(Step(s, keys, delay, rnd).value, keys, delay, rnd);
      && r.Ok? && r.value.pc == s.pc + 2 * Memory.WordSize
      && r.value.mem == s.mem
  {
    StepLoad(s, x, keys, delay, rnd);
    var t := Step(s, keys, delay, rnd).value;
    StepStore(t, x, keys, delay, rnd);
    LoadThenStore(Advanced(s), x);
  }

  /** FONT Vx points index at glyph Vx; a register of 52 or more overflows the byte multiply. */
  lemma {:induction false} StepFont(s: State, x: Reg, keys: seq<bool>, delay: nat, rnd: nat)
    requires Valid(s) && |keys| == KeyCount
    requires Fetches(s, Font(x))
    ensures s.gpr[x] < 52 ==> Step(s, keys, delay, rnd) == Ok(Advanced(s).(index := s.gpr[x] as int * Memory.FontSize))
    ensures s.gpr[x] >= 52 ==> Step(s, keys, delay, rnd) == Err(Panic(ArithmeticOverflow))
  {
    StepRuns(s, Font(x), keys, delay, rnd);
  }

  /**
   * FONT Vx for a digit, while the font table is still in place at
   * address 0, leaves index on the five bytes of that digit's glyph.
   */
  lemma {:induction false} StepFontGlyph(s: State, x: Reg, keys: seq<bool>, delay: nat, rnd: nat)
    requires Valid(s) && |keys| == KeyCount
    requires Fetches(s, Font(x))
    requires s.gpr[x] < Memory.FontCount
    requires s.mem[..Memory.FontSize * Memory.FontCount] == Memory.Fonts
    ensures var r := Step(s, keys, delay, rnd);
      && r.Ok? && r.value.index == Memory.FontSize * s.gpr[x]
      && Memory.ReadAt(r.value.mem, r.value.index, Memory.FontSize)
           == Memory.Fonts[Memory.FontSize * s.gpr[x]..Memory.FontSize * s.gpr[x] + Memory.FontSize]
  {
    StepFont(s, x, keys, delay, rnd);
    var d := s.gpr[x] as int;
    assert s.mem[Memory.FontSize * d..Memory.FontSize * d + Memory.FontSize]
        == s.mem[..Memory.FontSize * Memory.FontCount][Memory.FontSize * d..Memory.FontSize * d + Memory.FontSize];
  }

  /**
   * A fresh machine holds the font table at address 0, so it meets the
   * font condition of StepFontGlyph: glyph d is the five bytes at 5d.
   */
  lemma {:induction false} FreshFontGlyph(rom: seq<Byte>, screen: Display.Grid, d: Nibble)
    requires Memory.ProgramCodeBase + |rom| <= Memory.MemorySize
    requires Display.IsScreen(screen)
    ensures Cpu.New(rom, screen).mem[..Memory.FontSize * Memory.FontCount] == Memory.Fonts
    ensures var s := Cpu.New(rom, screen);
      Memory.ReadAt(s.mem, Memory.FontSize * d, Memory.FontSize) == Memory.Fonts[Memory.FontSize * d..Memory.FontSize * d + Memory.FontSize]
  {
    Memory.FontGlyph(rom, d);
  }

  // ---------------------------------------------------------------------
  // The screen
  // ---------------------------------------------------------------------

  /** CLS blanks the screen and touches nothing else. */
  lemma {:induction false} StepClear(s: State, keys: seq<bool>, delay: nat, rnd: nat)
    requires Valid(s) && |keys| == KeyCount
    requires Fetches(s, Cls)
    ensures var r := Step(s, keys, delay, rnd);
      r.Ok? && Display.IsBlank(r.value.screen) && r.value == Advanced(s).(screen := r.value.screen)
  {
    StepRuns(s, Cls, keys, delay, rnd);
  }

  /**
   * DRW Vx, Vy, n draws the n bytes at index at (Vx, Vy) and sets VF to
   * the collision. It panics when those bytes run past memory or a
   * sprite row would fall below the screen.
   */
  lemma {:induction false} StepDraw(s: State, x: Reg, y: Reg, n: Nibble, keys: seq<bool>, delay: nat, rnd: nat)
    requires Valid(s) && |keys| == KeyCount
    requires Fetches(s, Drw(x, y, n))
    ensures var r := Step(s, keys, delay, rnd);
      && (r.Ok? <==> s.index + n <= Memory.MemorySize && (n == 0 || s.gpr[y] + n <= Sprites.ScreenHeight))
      && (r.Ok? ==>
            var sp := Sprites.New(s.mem[s.index..s.index + n]);
            && r.value.pc == s.pc + Memory.WordSize
            && r.value.screen == Display.Draw(s.screen, sp, s.gpr[x], s.gpr[y]).0
            && r.value.gpr[Alu.Flag] == Alu.FlagOf(Display.Draw(s.screen, sp, s.gpr[x], s.gpr[y]).1))
    ensures var r := Step(s, keys, delay, rnd);
      r.Ok? ==>
        && r.value == Advanced(s).(gpr := r.value.gpr, screen := r.value.screen)
        && forall i :: 0 <= i < |s.gpr| && i != Alu.Flag ==> r.value.gpr[i] == s.gpr[i]
  {
    StepRuns(s, Drw(x, y, n), keys, delay, rnd);
    var r := Step(s, keys, delay, rnd);
    if r.Ok? {
      var sp := Sprites.New(s.mem[s.index..s.index + n]);
      Display.ScreenExt(r.value.screen, Display.Draw(s.screen, sp, s.gpr[x], s.gpr[y]).0);
    }
  }
}
