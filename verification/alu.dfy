/**
 * The register-to-register arithmetic of the 0x8xy_ family and its flag
 * register VF (V15). Each operation takes the sixteen registers and the
 * operand register numbers and returns the new registers.
 *
 * ADD, SUB and RSUB have two versions here. The `...AsWritten` versions
 * follow the source statement by statement: on carry or borrow it writes
 * VF first and then recomputes the wrapped result from the registers, so
 * when an operand is VF itself it reads the flag just written. The plain
 * versions compute the wrapped result from the operands as they were,
 * which is what the no-carry branch already does. The interpreter runs
 * the as-written versions, as the source does; the plain versions are
 * the reference they are compared against.
 */
module Alu {
  import opened Bits
  import Opcode

  type Reg = Opcode.Reg

  /** The sixteen general-purpose registers V0..VF. */
  type Registers = g: seq<Byte> | |g| == 0x10 witness seq(0x10, _ => 0)

  /** VF, the flag register. */
  const Flag: Reg := 0xF

  function FlagOf(b: bool): Byte
  {
    if b then 1 else 0
  }

  /** The registers other than `x` and VF are left alone. */
  predicate OthersKept(g: Registers, g': Registers, x: Reg)
  {
    forall i :: 0 <= i < 0x10 && i != x && i != Flag ==> g'[i] == g[i]
  }

  // ---------------------------------------------------------------------
  // ADD Vx, Vy
  // ---------------------------------------------------------------------

  /**
   * ADD Vx, Vy as the source evaluates it. Without a carry, Vx gets the
   * sum and VF is cleared. With a carry, VF is set to 1 first and the sum
   * is taken again from the registers, so an operand that is VF counts
   * as 1 rather than its old value.
   */
  function AddAsWritten(g: Registers, x: Reg, y: Reg): (g': Registers)
    ensures OthersKept(g, g', x)
    ensures g[x] as int + g[y] <= 0xFF ==> g'[x] == g[x] as int + g[y] && (x != Flag ==> g'[Flag] == 0)
    ensures g[x] as int + g[y] > 0xFF && x != Flag && y != Flag ==>
      g'[x] == (g[x] as int + g[y]) % 0x100 && g'[Flag] == 1
    ensures g[x] as int + g[y] > 0xFF && x != Flag && y == Flag ==>
      g'[x] == (g[x] as int + 1) % 0x100 && g'[Flag] == 1
    ensures g[x] as int + g[y] > 0xFF && x == Flag && y != Flag ==> g'[Flag] == (1 + g[y] as int) % 0x100
    ensures g[x] as int + g[y] > 0xFF && x == Flag && y == Flag ==> g'[Flag] == 2
  {
    if g[x] as int + g[y] <= 0xFF then
      var g1 := g[Flag := 0];
      g1[x := g[x] as int + g[y]]
    else
      var g1 := g[Flag := 1];
      g1[x := (g1[x] as int + g1[y]) % 0x100]
  }

  /**
   * ADD Vx, Vy: Vx becomes the sum modulo 256 and VF the carry out of
   * bit 7; when x is VF the sum overwrites the carry.
   */
  function Add(g: Registers, x: Reg, y: Reg): (g': Registers)
    ensures OthersKept(g, g', x)
    ensures x != Flag ==> g'[x] as int + 0x100 * (g'[Flag] as int) == g[x] as int + g[y]
    ensures x == Flag ==> g'[x] == (g[x] as int + g[y]) % 0x100
  {
    var g1 := g[Flag := FlagOf(g[x] as int + g[y] > 0xFF)];
    g1[x := (g[x] as int + g[y]) % 0x100]
  }

  /**
   * Reading the flag after writing it: V0 = 0xFF plus VF = 0xFF gives 0x00,
   * not 0xFE; and VF = 0x80 plus V1 = 0x80 into VF gives 0x81, not 0x00.
   */
  lemma {:induction false} AddAsWrittenReadsNewFlag()
    ensures var g := seq(0x10, i => if i == 0 || i == 0xF then 0xFF else 0);
      AddAsWritten(g, 0, 0xF)[0] == 0x00 && Add(g, 0, 0xF)[0] == 0xFE
    ensures var g := seq(0x10, i => if i == 1 || i == 0xF then 0x80 else 0);
      AddAsWritten(g, 0xF, 1)[0xF] == 0x81 && Add(g, 0xF, 1)[0xF] == 0x00
  {
  }

  // ---------------------------------------------------------------------
  // SUB Vx, Vy and RSUB Vx, Vy
  // ---------------------------------------------------------------------

  /**
   * SUB Vx, Vy as the source evaluates it. Without a borrow, Vx gets the
   * difference and VF is set. With a borrow, VF is cleared first and the
   * difference is taken again from the registers, so an operand that is
   * VF counts as 0.
   */
  function SubAsWritten(g: Registers, x: Reg, y: Reg): (g': Registers)
    ensures OthersKept(g, g', x)
    ensures g[x] >= g[y] ==> g'[x] == g[x] - g[y] && (x != Flag ==> g'[Flag] == 1)
    ensures g[x] < g[y] && x != Flag && y != Flag ==> g'[x] == (g[x] as int - g[y]) % 0x100 && g'[Flag] == 0
    ensures g[x] < g[y] && x != Flag && y == Flag ==> g'[x] == g[x] && g'[Flag] == 0
    ensures g[x] < g[y] && x == Flag ==> g'[Flag] == (0 - g[y] as int) % 0x100
  {
    if g[x] >= g[y] then
      var g1 := g[Flag := 1];
      g1[x := g[x] as int - g[y]]
    else
      var g1 := g[Flag := 0];
      g1[x := (g1[x] as int - g1[y]) % 0x100]
  }

  /**
   * SUB Vx, Vy: Vx becomes Vx - Vy modulo 256 and VF is 1 exactly when
   * there was no borrow (Vx >= Vy).
   */
  function Sub(g: Registers, x: Reg, y: Reg): (g': Registers)
    ensures OthersKept(g, g', x)
    ensures x != Flag ==> g'[Flag] == FlagOf(g[x] >= g[y])
    ensures x != Flag ==> g'[x] == g[x] as int - g[y] + 0x100 * (1 - g'[Flag] as int)
    ensures x == Flag ==> g'[x] == (g[x] as int - g[y]) % 0x100
  {
    var g1 := g[Flag := FlagOf(g[x] >= g[y])];
    g1[x := (g[x] as int - g[y]) % 0x100]
  }

  /**
   * SUB with a borrow: V0 = 0 minus VF = 1 leaves V0 at 0 instead of 0xFF;
   * VF = 1 minus V1 = 2 into VF gives 0xFE instead of 0xFF.
   */
  lemma {:induction false} SubAsWrittenReadsNewFlag()
    ensures var g := seq(0x10, i => if i == 0xF then 1 else 0);
      SubAsWritten(g, 0, 0xF)[0] == 0x00 && Sub(g, 0, 0xF)[0] == 0xFF
    ensures var g := seq(0x10, i => if i == 0xF then 1 else if i == 1 then 2 else 0);
      SubAsWritten(g, 0xF, 1)[0xF] == 0xFE && Sub(g, 0xF, 1)[0xF] == 0xFF
  {
  }

  /**
   * RSUB Vx, Vy as the source evaluates it. Without a borrow, Vx gets
   * Vy - Vx and VF is set. With a borrow, VF is cleared first and the
   * difference is taken again from the registers, so an operand that is
   * VF counts as 0.
   */
  function RSubAsWritten(g: Registers, x: Reg, y: Reg): (g': Registers)
    ensures OthersKept(g, g', x)
    ensures g[y] >= g[x] ==> g'[x] == g[y] - g[x] && (x != Flag ==> g'[Flag] == 1)
    ensures g[y] < g[x] && x != Flag && y != Flag ==> g'[x] == (g[y] as int - g[x]) % 0x100 && g'[Flag] == 0
    ensures g[y] < g[x] && x != Flag && y == Flag ==> g'[x] == (0 - g[x] as int) % 0x100 && g'[Flag] == 0
    ensures g[y] < g[x] && x == Flag ==> g'[Flag] == g[y]
  {
    if g[y] >= g[x] then
      var g1 := g[Flag := 1];
      g1[x := g[y] as int - g[x]]
    else
      var g1 := g[Flag := 0];
      g1[x := (g1[y] as int - g1[x]) % 0x100]
  }

  /**
   * RSUB Vx, Vy: Vx becomes Vy - Vx modulo 256 and VF is 1 exactly when
   * there was no borrow (Vy >= Vx).
   */
  function RSub(g: Registers, x: Reg, y: Reg): (g': Registers)
    ensures OthersKept(g, g', x)
    ensures x != Flag ==> g'[Flag] == FlagOf(g[y] >= g[x])
    ensures x != Flag ==> g'[x] == g[y] as int - g[x] + 0x100 * (1 - g'[Flag] as int)
    ensures x == Flag ==> g'[x] == (g[y] as int - g[x]) % 0x100
  {
    var g1 := g[Flag := FlagOf(g[y] >= g[x])];
    g1[x := (g[y] as int - g[x]) % 0x100]
  }

  /**
   * RSUB with a borrow: VF = 1 minus V0 = 2 into V0 gives 0xFE instead of
   * 0xFF; V1 = 1 minus VF = 2 into VF gives 0x01 instead of 0xFF.
   */
  lemma {:induction false} RSubAsWrittenReadsNewFlag()
    ensures var g := seq(0x10, i => if i == 0 then 2 else if i == 0xF then 1 else 0);
      RSubAsWritten(g, 0, 0xF)[0] == 0xFE && RSub(g, 0, 0xF)[0] == 0xFF
    ensures var g := seq(0x10, i => if i == 0xF then 2 else if i == 1 then 1 else 0);
      RSubAsWritten(g, 0xF, 1)[0xF] == 0x01 && RSub(g, 0xF, 1)[0xF] == 0xFF
  {
  }

  /**
   * The two readings agree whenever neither operand is VF, and also when
   * no carry or borrow occurs: the defect is confined to the flag
   * register being an operand of an overflowing operation.
   */
  lemma {:induction false} AsWrittenAgreesOffFlag(g: Registers, x: Reg, y: Reg)
    ensures (x != Flag && y != Flag) || g[x] as int + g[y] <= 0xFF ==> AddAsWritten(g, x, y) == Add(g, x, y)
    ensures (x != Flag && y != Flag) || g[x] >= g[y] ==> SubAsWritten(g, x, y) == Sub(g, x, y)
    ensures (x != Flag && y != Flag) || g[y] >= g[x] ==> RSubAsWritten(g, x, y) == RSub(g, x, y)
  {
  }

  // ---------------------------------------------------------------------
  // OR, AND, XOR Vx, Vy
  // ---------------------------------------------------------------------

  /** OR Vx, Vy: each bit of Vx becomes set when it is set in Vx or in Vy. */
  function Or(g: Registers, x: Reg, y: Reg): (g': Registers)
    ensures forall i :: 0 <= i < 0x10 && i != x ==> g'[i] == g[i]
    ensures forall b: nat :: b < 8 ==> (Bit(g'[x], b) <==> Bit(g[x], b) || Bit(g[y], b))
  {
    Pow2Values();
    var v := BitOr(g[x], g[y]);
    forall b: nat | b < 8
      ensures Bit(v, b) <==> Bit(g[x], b) || Bit(g[y], b)
    {
      BitOrBits(g[x], g[y], b);
    }
    g[x := v]
  }

  /** AND Vx, Vy: each bit of Vx stays set only when it is set in Vy too. */
  function And(g: Registers, x: Reg, y: Reg): (g': Registers)
    ensures forall i :: 0 <= i < 0x10 && i != x ==> g'[i] == g[i]
    ensures forall b: nat :: b < 8 ==> (Bit(g'[x], b) <==> Bit(g[x], b) && Bit(g[y], b))
  {
    var v := BitAnd(g[x], g[y]);
    forall b: nat | b < 8
      ensures Bit(v, b) <==> Bit(g[x], b) && Bit(g[y], b)
    {
      BitAndBits(g[x], g[y], b);
    }
    g[x := v]
  }

  /** XOR Vx, Vy: each bit of Vx flips where Vy has a set bit. */
  function Xor(g: Registers, x: Reg, y: Reg): (g': Registers)
    ensures forall i :: 0 <= i < 0x10 && i != x ==> g'[i] == g[i]
    ensures forall b: nat :: b < 8 ==> (Bit(g'[x], b) <==> Bit(g[x], b) != Bit(g[y], b))
  {
    Pow2Values();
    var v := BitXor(g[x], g[y]);
    forall b: nat | b < 8
      ensures Bit(v, b) <==> Bit(g[x], b) != Bit(g[y], b)
    {
      BitXorBits(g[x], g[y], b);
    }
    g[x := v]
  }

  // ---------------------------------------------------------------------
  // SHR Vx and SHL Vx
  // ---------------------------------------------------------------------

  /**
   * SHR Vx: VF takes bit 0 of Vx, then Vx is shifted right one place.
   * The shift reads Vx after the flag write, so SHR VF leaves VF zero.
   */
  function ShiftRight(g: Registers, x: Reg): (g': Registers)
    ensures OthersKept(g, g', x)
    ensures x != Flag ==> 2 * g'[x] as int + g'[Flag] == g[x] && g'[Flag] <= 1
    ensures x == Flag ==> g'[Flag] == 0
  {
    assert Bit(g[x], 0) == (g[x] % 2 == 1);
    var g1 := g[Flag := FlagOf(Bit(g[x], 0))];
    g1[x := g1[x] / 2]
  }

  /**
   * SHL Vx: VF takes bit 7 of Vx, then Vx is shifted left one place,
   * losing the top bit. SHL VF shifts the flag just written.
   */
  function ShiftLeft(g: Registers, x: Reg): (g': Registers)
    ensures OthersKept(g, g', x)
    ensures x != Flag ==> g'[x] as int + 0x100 * (g'[Flag] as int) == 2 * g[x] as int && g'[Flag] <= 1
    ensures x == Flag ==> g'[Flag] == 2 * (g[Flag] / 0x80)
  {
    TopBit(g[x]);
    var g1 := g[Flag := FlagOf(Bit(g[x], 7))];
    g1[x := (2 * g1[x] as int) % 0x100]
  }

  /** Bit 7 of a byte is set exactly when the byte is at least 0x80. */
  lemma {:induction false} TopBit(b: Byte)
    ensures Bit(b, 7) == (b / 0x80 == 1)
    ensures b / 0x80 <= 1
  {
    Pow2Values();
  }
}
