/**
 * The instruction decoder: bit slicing of a 16-bit instruction word into
 * nibbles and operand fields, the table of nibble patterns that name the
 * instruction set, and `Decode`, which dispatches on the nibble tuple as
 * the interpreter's `match` does.
 */
module Opcode {
  import opened Wrappers
  import opened Bits

  /** A register index V0..VF. */
  type Reg = r: int | 0 <= r < 0x10

  /** A 12-bit address operand. */
  type Addr = a: int | 0 <= a < 0x1000

  // ---------------------------------------------------------------------
  // Bit slicing
  // ---------------------------------------------------------------------

  /**
   * `size` bits of `number` starting at bit `offset`: shift right, then
   * mask with 2^size - 1. A shift by 16 or more, or a mask width of 16 or
   * more (which overflows `2u16.pow`), panics in the source.
   */
  function BitSlice(number: Word, offset: nat, size: nat): (r: Word)
    requires offset < 16 && size < 16
    ensures r == (number / Pow2(offset)) % Pow2(size)
  {
    ShrIsDiv(number, offset);
    AndLowMask(Bits.Shr(number, offset), size);
    QuotientBounded(number, Pow2(offset), Pow2(size));
    BitAnd(Bits.Shr(number, offset), Pow2(size) - 1)
  }

  /** Nibble `index` of `number`, nibble 0 being the least significant. */
  function GetNibble(number: Word, index: nat): (r: Nibble)
    requires index < 4
    ensures r == (number / Pow2(4 * index)) % 0x10
  {
    BitSlice(number, index * 4, 4)
  }

  /** The first register operand: bits 8..11. */
  function Reg1(w: Word): (r: Reg)
    ensures r == (w / 0x100) % 0x10
  {
    GetNibble(w, 2)
  }

  /** The second register operand: bits 4..7. */
  function Reg2(w: Word): (r: Reg)
    ensures r == (w / 0x10) % 0x10
  {
    GetNibble(w, 1)
  }

  /** The immediate byte: bits 0..7. */
  function ByteOperand(w: Word): (r: Byte)
    ensures r == w % 0x100
  {
    BitSlice(w, 0, 8)
  }

  /** The 4-bit count: bits 0..3. */
  function NibbleOperand(w: Word): (r: Nibble)
    ensures r == w % 0x10
  {
    GetNibble(w, 0)
  }

  /** The 12-bit address: bits 0..11. */
  function Tribble(w: Word): (r: Addr)
    ensures r == w % 0x1000
  {
    BitSlice(w, 0, 12)
  }

  /**
   * The four nibbles, most significant first, as hexadecimal digits; they
   * reassemble the word. `NibbleTupleFields` shows they are the nibbles
   * `GetNibble` slices out.
   */
  function ToNibbleTuple(w: Word): (t: (Nibble, Nibble, Nibble, Nibble))
    ensures t.0 * 0x1000 + t.1 * 0x100 + t.2 * 0x10 + t.3 == w
  {
    HexDigits(w);
    (w / 0x1000, (w / 0x100) % 0x10, (w / 0x10) % 0x10, w % 0x10)
  }

  /**
   * The tuple is `GetNibble` at indexes 3, 2, 1, 0, and the operand fields
   * the interpreter reads are its tails.
   */
  lemma {:induction false} NibbleTupleFields(w: Word)
    ensures ToNibbleTuple(w) == (GetNibble(w, 3), GetNibble(w, 2), GetNibble(w, 1), GetNibble(w, 0))
    ensures var t := ToNibbleTuple(w);
      && t.1 == Reg1(w) && t.2 == Reg2(w) && t.3 == NibbleOperand(w)
      && ByteOperand(w) == t.2 * 0x10 + t.3
      && Tribble(w) == t.1 * 0x100 + t.2 * 0x10 + t.3
  {
    GetNibbleIsDigit(w);
    HexDigits(w);
  }

  /** `GetNibble` at each index is the hexadecimal digit of that weight. */
  lemma {:induction false} GetNibbleIsDigit(w: Word)
    ensures GetNibble(w, 3) == (w / 0x1000) % 0x10 && GetNibble(w, 2) == (w / 0x100) % 0x10
    ensures GetNibble(w, 1) == (w / 0x10) % 0x10 && GetNibble(w, 0) == w % 0x10
  {
    Pow2Values();
    NibbleWeight(w, 3, 0x1000);
    NibbleWeight(w, 2, 0x100);
    NibbleWeight(w, 1, 0x10);
    NibbleWeight(w, 0, 0x1);
  }

  /** Nibble `index` is the digit of weight `p` = 16^index. */
  lemma {:induction false} NibbleWeight(w: Word, index: nat, p: nat)
    requires index < 4 && p == Pow2(4 * index)
    ensures GetNibble(w, index) == (w / p) % 0x10
  {
  }

  /** A word is the sum of its hexadecimal digits times their weights. */
  lemma {:induction false} HexDigits(w: Word)
    ensures w / 0x1000 < 0x10 && (w / 0x1000) % 0x10 == w / 0x1000
    ensures w % 0x100 == ((w / 0x10) % 0x10) * 0x10 + w % 0x10
    ensures w % 0x1000 == ((w / 0x100) % 0x10) * 0x100 + w % 0x100
    ensures w == (w / 0x1000) * 0x1000 + w % 0x1000
  {
    DivDiv(w, 0x10, 0x10);
    DivDiv(w, 0x100, 0x10);
    var q1, q2, q3 := w / 0x10, w / 0x100, w / 0x1000;
    assert w == q1 * 0x10 + w % 0x10;
    assert q1 == q2 * 0x10 + q1 % 0x10;
    assert q2 == q3 * 0x10 + q2 % 0x10;
    DivUnique(w, 0x100, q2, (q1 % 0x10) * 0x10 + w % 0x10);
    DivUnique(w, 0x1000, q3, (q2 % 0x10) * 0x100 + (q1 % 0x10) * 0x10 + w % 0x10);
  }

  // ---------------------------------------------------------------------
  // The instruction set
  // ---------------------------------------------------------------------

  /**
   * One decoded instruction. Operands are the fields the interpreter reads
   * for that instruction; `Shr` and `Shl` also carry their unused second
   * register nibble so that decoding loses nothing.
   */
  datatype Instr =
    | Cls
    | Ret
    | Jmp(addr: Addr)
    | Call(addr: Addr)
    | SkeByte(x: Reg, kk: Byte)
    | SkneByte(x: Reg, kk: Byte)
    | SkeReg(x: Reg, y: Reg)
    | MovByte(x: Reg, kk: Byte)
    | AddByte(x: Reg, kk: Byte)
    | MovReg(x: Reg, y: Reg)
    | Or(x: Reg, y: Reg)
    | And(x: Reg, y: Reg)
    | Xor(x: Reg, y: Reg)
    | AddReg(x: Reg, y: Reg)
    | Sub(x: Reg, y: Reg)
    | Shr(x: Reg, y: Reg)
    | RSub(x: Reg, y: Reg)
    | Shl(x: Reg, y: Reg)
    | SkneReg(x: Reg, y: Reg)
    | MovI(addr: Addr)
    | JmpV0(addr: Addr)
    | Rnd(x: Reg, kk: Byte)
    | Drw(x: Reg, y: Reg, n: Nibble)
    | Skp(x: Reg)
    | Sknp(x: Reg)
    | MovFromDt(x: Reg)
    | WaitKey(x: Reg)
    | MovToDt(x: Reg)
    | MovToSt(x: Reg)
    | AddI(x: Reg)
    | Font(x: Reg)
    | Bcd(x: Reg)
    | Store(x: Reg)
    | Load(x: Reg)

  /** A nibble position of a pattern: a literal digit or a wildcard. */
  datatype Field = Lit(digit: Nibble) | Any

  /** A pattern over the four nibbles, most significant first. */
  datatype Pattern = Pattern(n3: Field, n2: Field, n1: Field, n0: Field)

  /** The instruction patterns, in the order the source lists them, each with the source's name for it. */
  const Table: seq<Pattern> := [
    Pattern(Lit(0x0), Lit(0x0), Lit(0xE), Lit(0x0)),  // CLS
    Pattern(Lit(0x0), Lit(0x0), Lit(0xE), Lit(0xE)),  // RET
    Pattern(Lit(0x1), Any,      Any,      Any),       // JMP addr
    Pattern(Lit(0x2), Any,      Any,      Any),       // CALL addr
    Pattern(Lit(0x3), Any,      Any,      Any),       // SKE Vx, byte
    Pattern(Lit(0x4), Any,      Any,      Any),       // SKNE Vx, byte
    Pattern(Lit(0x5), Any,      Any,      Lit(0x0)),  // SKE Vx, Vy
    Pattern(Lit(0x6), Any,      Any,      Any),       // MOV Vx, byte
    Pattern(Lit(0x7), Any,      Any,      Any),       // ADD Vx, byte
    Pattern(Lit(0x8), Any,      Any,      Lit(0x0)),  // MOV Vx, Vy
    Pattern(Lit(0x8), Any,      Any,      Lit(0x1)),  // OR Vx, Vy
    Pattern(Lit(0x8), Any,      Any,      Lit(0x2)),  // AND Vx, Vy
    Pattern(Lit(0x8), Any,      Any,      Lit(0x3)),  // XOR Vx, Vy
    Pattern(Lit(0x8), Any,      Any,      Lit(0x4)),  // ADD Vx, Vy
    Pattern(Lit(0x8), Any,      Any,      Lit(0x5)),  // SUB Vx, Vy
    Pattern(Lit(0x8), Any,      Any,      Lit(0x6)),  // SHR Vx
    Pattern(Lit(0x8), Any,      Any,      Lit(0x7)),  // RSUB Vx, Vy
    Pattern(Lit(0x8), Any,      Any,      Lit(0xE)),  // SHL Vx
    Pattern(Lit(0x9), Any,      Any,      Lit(0x0)),  // SKNE Vx, Vy
    Pattern(Lit(0xA), Any,      Any,      Any),       // MOV I, addr
    Pattern(Lit(0xB), Any,      Any,      Any),       // JMP V0, addr
    Pattern(Lit(0xC), Any,      Any,      Any),       // RND Vx, tribble
    Pattern(Lit(0xD), Any,      Any,      Any),       // DRW Vx, Vy, nibble
    Pattern(Lit(0xE), Any,      Lit(0x9), Lit(0xE)),  // SKP Vx
    Pattern(Lit(0xE), Any,      Lit(0xA), Lit(0x1)),  // SKNP Vx
    Pattern(Lit(0xF), Any,      Lit(0x0), Lit(0x7)),  // MOV Vx, DT
    Pattern(Lit(0xF), Any,      Lit(0x0), Lit(0xA)),  // MOV Vx, K
    Pattern(Lit(0xF), Any,      Lit(0x1), Lit(0x5)),  // MOV DT, Vx
    Pattern(Lit(0xF), Any,      Lit(0x1), Lit(0x8)),  // MOV ST, Vx
    Pattern(Lit(0xF), Any,      Lit(0x1), Lit(0xE)),  // ADD I, Vx
    Pattern(Lit(0xF), Any,      Lit(0x2), Lit(0x9)),  // FONT Vx
    Pattern(Lit(0xF), Any,      Lit(0x3), Lit(0x3)),  // BCD Vx
    Pattern(Lit(0xF), Any,      Lit(0x5), Lit(0x5)),  // STR [I], Vx
    Pattern(Lit(0xF), Any,      Lit(0x6), Lit(0x5))  // LD Vx, [I]
  ]

  predicate FieldMatches(f: Field, v: Nibble)
  {
    f.Any? || f.digit == v
  }

  /** A nibble tuple fits pattern `p`: every literal nibble of `p` equals the tuple's. */
  predicate TupleMatches(p: Pattern, t: (Nibble, Nibble, Nibble, Nibble))
  {
    FieldMatches(p.n3, t.0) && FieldMatches(p.n2, t.1) && FieldMatches(p.n1, t.2) && FieldMatches(p.n0, t.3)
  }

  /** `w` fits pattern `p`. */
  predicate Matches(p: Pattern, w: Word)
  {
    TupleMatches(p, ToNibbleTuple(w))
  }

  /** The position in `Table` of the pattern an instruction was decoded from. */
  function TableIndex(i: Instr): (k: nat)
    ensures k < |Table|
  {
    match i
    case Cls => 0
    case Ret => 1
    case Jmp(_) => 2
    case Call(_) => 3
    case SkeByte(_, _) => 4
    case SkneByte(_, _) => 5
    case SkeReg(_, _) => 6
    case MovByte(_, _) => 7
    case AddByte(_, _) => 8
    case MovReg(_, _) => 9
    case Or(_, _) => 10
    case And(_, _) => 11
    case Xor(_, _) => 12
    case AddReg(_, _) => 13
    case Sub(_, _) => 14
    case Shr(_, _) => 15
    case RSub(_, _) => 16
    case Shl(_, _) => 17
    case SkneReg(_, _) => 18
    case MovI(_) => 19
    case JmpV0(_) => 20
    case Rnd(_, _) => 21
    case Drw(_, _, _) => 22
    case Skp(_) => 23
    case Sknp(_) => 24
    case MovFromDt(_) => 25
    case WaitKey(_) => 26
    case MovToDt(_) => 27
    case MovToSt(_) => 28
    case AddI(_) => 29
    case Font(_) => 30
    case Bcd(_) => 31
    case Store(_) => 32
    case Load(_) => 33
  }

  // ---------------------------------------------------------------------
  // Decoding
  // ---------------------------------------------------------------------

  /**
   * The instruction a word encodes, or `None` when it fits no pattern: the
   * interpreter's `match` on the nibble tuple.
   */
  function Decode(w: Word): (r: Option<Instr>)
    ensures r.Some? ==> Matches(Table[TableIndex(r.value)], w)
    ensures r.Some? ==> Encode(r.value) == w
  {
    var t := ToNibbleTuple(w);
    NibblesOfDecodeNibbles(t);
    var r := DecodeNibbles(t);
    if r.Some? then TupleMatchIsDecoded(t, TableIndex(r.value)); r else r
  }

  /**
   * The dispatch on a nibble tuple. The operands are the tuple's tails,
   * which `ToNibbleTuple` guarantees are the word's `Reg1`, `Reg2`,
   * `ByteOperand`, `NibbleOperand` and `Tribble` fields.
   */
  function DecodeNibbles(t: (Nibble, Nibble, Nibble, Nibble)): Option<Instr>
  {
    var x, y, n := t.1, t.2, t.3;
    var kk := t.2 * 0x10 + t.3;
    var nnn := t.1 * 0x100 + kk;
    match t
    case (0x0, 0x0, 0xE, 0x0) => Some(Cls)
    case (0x0, 0x0, 0xE, 0xE) => Some(Ret)
    case (0x1, _, _, _) => Some(Jmp(nnn))
    case (0x2, _, _, _) => Some(Call(nnn))
    case (0x3, _, _, _) => Some(SkeByte(x, kk))
    case (0x4, _, _, _) => Some(SkneByte(x, kk))
    case (0x5, _, _, 0x0) => Some(SkeReg(x, y))
    case (0x6, _, _, _) => Some(MovByte(x, kk))
    case (0x7, _, _, _) => Some(AddByte(x, kk))
    case (0x8, _, _, 0x0) => Some(MovReg(x, y))
    case (0x8, _, _, 0x1) => Some(Or(x, y))
    case (0x8, _, _, 0x2) => Some(And(x, y))
    case (0x8, _, _, 0x3) => Some(Xor(x, y))
    case (0x8, _, _, 0x4) => Some(AddReg(x, y))
    case (0x8, _, _, 0x5) => Some(Sub(x, y))
    case (0x8, _, _, 0x6) => Some(Shr(x, y))
    case (0x8, _, _, 0x7) => Some(RSub(x, y))
    case (0x8, _, _, 0xE) => Some(Shl(x, y))
    case (0x9, _, _, 0x0) => Some(SkneReg(x, y))
    case (0xA, _, _, _) => Some(MovI(nnn))
    case (0xB, _, _, _) => Some(JmpV0(nnn))
    case (0xC, _, _, _) => Some(Rnd(x, kk))
    case (0xD, _, _, _) => Some(Drw(x, y, n))
    case (0xE, _, 0x9, 0xE) => Some(Skp(x))
    case (0xE, _, 0xA, 0x1) => Some(Sknp(x))
    case (0xF, _, 0x0, 0x7) => Some(MovFromDt(x))
    case (0xF, _, 0x0, 0xA) => Some(WaitKey(x))
    case (0xF, _, 0x1, 0x5) => Some(MovToDt(x))
    case (0xF, _, 0x1, 0x8) => Some(MovToSt(x))
    case (0xF, _, 0x1, 0xE) => Some(AddI(x))
    case (0xF, _, 0x2, 0x9) => Some(Font(x))
    case (0xF, _, 0x3, 0x3) => Some(Bcd(x))
    case (0xF, _, 0x5, 0x5) => Some(Store(x))
    case (0xF, _, 0x6, 0x5) => Some(Load(x))
    case _ => None
  }

  /** The 12-bit address split into its three nibbles, most significant first. */
  function AddrDigits(a: Addr): (t: (Nibble, Nibble, Nibble))
    ensures t.0 * 0x100 + t.1 * 0x10 + t.2 == a
  {
    HexDigits(a);
    (a / 0x100, (a / 0x10) % 0x10, a % 0x10)
  }

  /** A byte split into its two nibbles, most significant first. */
  function ByteDigits(kk: Byte): (t: (Nibble, Nibble))
    ensures t.0 * 0x10 + t.1 == kk
  {
    (kk / 0x10, kk % 0x10)
  }

  /** The nibbles an instruction is written as: its pattern's literals, with the operands in the wildcards. */
  function Nibbles(i: Instr): (t: (Nibble, Nibble, Nibble, Nibble))
  {
    match i
    case Cls => (0x0, 0x0, 0xE, 0x0)
    case Ret => (0x0, 0x0, 0xE, 0xE)
    case Jmp(a) => var d := AddrDigits(a); (0x1, d.0, d.1, d.2)
    case Call(a) => var d := AddrDigits(a); (0x2, d.0, d.1, d.2)
    case SkeByte(x, kk) => var d := ByteDigits(kk); (0x3, x, d.0, d.1)
    case SkneByte(x, kk) => var d := ByteDigits(kk); (0x4, x, d.0, d.1)
    case SkeReg(x, y) => (0x5, x, y, 0x0)
    case MovByte(x, kk) => var d := ByteDigits(kk); (0x6, x, d.0, d.1)
    case AddByte(x, kk) => var d := ByteDigits(kk); (0x7, x, d.0, d.1)
    case MovReg(x, y) => (0x8, x, y, 0x0)
    case Or(x, y) => (0x8, x, y, 0x1)
    case And(x, y) => (0x8, x, y, 0x2)
    case Xor(x, y) => (0x8, x, y, 0x3)
    case AddReg(x, y) => (0x8, x, y, 0x4)
    case Sub(x, y) => (0x8, x, y, 0x5)
    case Shr(x, y) => (0x8, x, y, 0x6)
    case RSub(x, y) => (0x8, x, y, 0x7)
    case Shl(x, y) => (0x8, x, y, 0xE)
    case SkneReg(x, y) => (0x9, x, y, 0x0)
    case MovI(a) => var d := AddrDigits(a); (0xA, d.0, d.1, d.2)
    case JmpV0(a) => var d := AddrDigits(a); (0xB, d.0, d.1, d.2)
    case Rnd(x, kk) => var d := ByteDigits(kk); (0xC, x, d.0, d.1)
    case Drw(x, y, n) => (0xD, x, y, n)
    case Skp(x) => (0xE, x, 0x9, 0xE)
    case Sknp(x) => (0xE, x, 0xA, 0x1)
    case MovFromDt(x) => (0xF, x, 0x0, 0x7)
    case WaitKey(x) => (0xF, x, 0x0, 0xA)
    case MovToDt(x) => (0xF, x, 0x1, 0x5)
    case MovToSt(x) => (0xF, x, 0x1, 0x8)
    case AddI(x) => (0xF, x, 0x1, 0xE)
    case Font(x) => (0xF, x, 0x2, 0x9)
    case Bcd(x) => (0xF, x, 0x3, 0x3)
    case Store(x) => (0xF, x, 0x5, 0x5)
    case Load(x) => (0xF, x, 0x6, 0x5)
  }

  /** The word an instruction is written as (the inverse of `Decode`). */
  function Encode(i: Instr): Word
  {
    var t := Nibbles(i);
    t.0 * 0x1000 + t.1 * 0x100 + t.2 * 0x10 + t.3
  }

  // ---------------------------------------------------------------------
  // Properties of the decoder
  // ---------------------------------------------------------------------

  /** Four nibbles assembled into a word come back out of `ToNibbleTuple`. */
  lemma {:induction false} NibblesOf(w: Word, a: Nibble, b: Nibble, c: Nibble, d: Nibble)
    requires w == a * 0x1000 + b * 0x100 + c * 0x10 + d
    ensures ToNibbleTuple(w) == (a, b, c, d)
  {
    var t := ToNibbleTuple(w);
    PositionalUnique(t.0, t.1, t.2, t.3, a, b, c, d);
  }

  /** Base-16 digits are unique: two nibble tuples that assemble the same word are equal. */
  lemma {:induction false} PositionalUnique(a: Nibble, b: Nibble, c: Nibble, d: Nibble, a': Nibble, b': Nibble, c': Nibble, d': Nibble)
    requires a * 0x1000 + b * 0x100 + c * 0x10 + d == a' * 0x1000 + b' * 0x100 + c' * 0x10 + d'
    ensures a == a' && b == b' && c == c' && d == d'
  {
    var w := a * 0x1000 + b * 0x100 + c * 0x10 + d;
    DivUnique(w, 0x10, a * 0x100 + b * 0x10 + c, d);
    DivUnique(w, 0x10, a' * 0x100 + b' * 0x10 + c', d');
    var u := a * 0x100 + b * 0x10 + c;
    DivUnique(u, 0x10, a * 0x10 + b, c);
    DivUnique(u, 0x10, a' * 0x10 + b', c');
    var v := a * 0x10 + b;
    DivUnique(v, 0x10, a, b);
    DivUnique(v, 0x10, a', b');
  }

  /** The nibbles of an instruction decode back to it. */
  lemma {:induction false} DecodeNibblesOfNibbles(i: Instr)
    ensures DecodeNibbles(Nibbles(i)) == Some(i)
  {
  }

  /** A tuple that decodes is the nibbles of what it decodes to. */
  lemma {:induction false} NibblesOfDecodeNibbles(t: (Nibble, Nibble, Nibble, Nibble))
    ensures DecodeNibbles(t).Some? ==> Nibbles(DecodeNibbles(t).value) == t
  {
    OperandDigits(t);
    if t.0 < 0x8 {
      NibblesOfDecodeLow(t);
    } else if t.0 == 0x8 {
      NibblesOfDecodeArith(t);
    } else if t.0 < 0xE {
      NibblesOfDecodeHigh(t);
    } else {
      NibblesOfDecodeKeysTimers(t);
    }
  }

  /** The operand fields of a tuple split back into the tuple's own nibbles. */
  lemma {:induction false} OperandDigits(t: (Nibble, Nibble, Nibble, Nibble))
    ensures ByteDigits(t.2 * 0x10 + t.3) == (t.2, t.3)
    ensures AddrDigits(t.1 * 0x100 + t.2 * 0x10 + t.3) == (t.1, t.2, t.3)
  {
    var b := ByteDigits(t.2 * 0x10 + t.3);
    PositionalUnique(0, 0, b.0, b.1, 0, 0, t.2, t.3);
    var a := AddrDigits(t.1 * 0x100 + t.2 * 0x10 + t.3);
    PositionalUnique(0, a.0, a.1, a.2, 0, t.1, t.2, t.3);
  }

  lemma {:induction false} NibblesOfDecodeLow(t: (Nibble, Nibble, Nibble, Nibble))
    requires t.0 < 0x8
    requires ByteDigits(t.2 * 0x10 + t.3) == (t.2, t.3)
    requires AddrDigits(t.1 * 0x100 + t.2 * 0x10 + t.3) == (t.1, t.2, t.3)
    ensures DecodeNibbles(t).Some? ==> Nibbles(DecodeNibbles(t).value) == t
  {
  }

  lemma {:induction false} NibblesOfDecodeArith(t: (Nibble, Nibble, Nibble, Nibble))
    requires t.0 == 0x8
    ensures DecodeNibbles(t).Some? ==> Nibbles(DecodeNibbles(t).value) == t
  {
  }

  lemma {:induction false} NibblesOfDecodeHigh(t: (Nibble, Nibble, Nibble, Nibble))
    requires 0x8 < t.0 < 0xE
    requires ByteDigits(t.2 * 0x10 + t.3) == (t.2, t.3)
    requires AddrDigits(t.1 * 0x100 + t.2 * 0x10 + t.3) == (t.1, t.2, t.3)
    ensures DecodeNibbles(t).Some? ==> Nibbles(DecodeNibbles(t).value) == t
  {
  }

  lemma {:induction false} NibblesOfDecodeKeysTimers(t: (Nibble, Nibble, Nibble, Nibble))
    requires t.0 >= 0xE
    ensures DecodeNibbles(t).Some? ==> Nibbles(DecodeNibbles(t).value) == t
  {
  }

  /** Every instruction decodes back from its encoding. */
  lemma {:induction false} DecodeEncode(i: Instr)
    ensures Decode(Encode(i)) == Some(i)
  {
    var t := Nibbles(i);
    NibblesOf(Encode(i), t.0, t.1, t.2, t.3);
    DecodeNibblesOfNibbles(i);
  }

  /** A word that decodes is the encoding of what it decodes to. */
  lemma {:induction false} EncodeDecode(w: Word)
    ensures Decode(w).Some? ==> Encode(Decode(w).value) == w
  {
    NibblesOfDecodeNibbles(ToNibbleTuple(w));
  }

  /** A tuple fits pattern `k` exactly when the dispatch picks pattern `k`'s instruction. */
  lemma {:induction false} TupleMatchIsDecoded(t: (Nibble, Nibble, Nibble, Nibble), k: nat)
    requires k < |Table|
    ensures TupleMatches(Table[k], t) <==> DecodeNibbles(t).Some? && TableIndex(DecodeNibbles(t).value) == k
  {
    if k < 5 {
      TupleMatchIsDecodedA(t, k);
    } else if k < 9 {
      TupleMatchIsDecodedB(t, k);
    } else if k < 14 {
      TupleMatchIsDecodedC(t, k);
    } else if k < 19 {
      TupleMatchIsDecodedD(t, k);
    } else if k < 23 {
      TupleMatchIsDecodedE(t, k);
    } else if k < 27 {
      TupleMatchIsDecodedF(t, k);
    } else if k < 31 {
      TupleMatchIsDecodedG(t, k);
    } else {
      TupleMatchIsDecodedH(t, k);
    }
  }

  // The equivalence for one slice of table positions at a time, so that
  // each proof unfolds only a few patterns.

  lemma {:induction false} TupleMatchIsDecodedA(t: (Nibble, Nibble, Nibble, Nibble), k: nat)
    requires k < 5
    ensures TupleMatches(Table[k], t) <==> DecodeNibbles(t).Some? && TableIndex(DecodeNibbles(t).value) == k
  {
  }

  lemma {:induction false} TupleMatchIsDecodedB(t: (Nibble, Nibble, Nibble, Nibble), k: nat)
    requires 5 <= k < 9
    ensures TupleMatches(Table[k], t) <==> DecodeNibbles(t).Some? && TableIndex(DecodeNibbles(t).value) == k
  {
  }

  lemma {:induction false} TupleMatchIsDecodedC(t: (Nibble, Nibble, Nibble, Nibble), k: nat)
    requires 9 <= k < 14
    ensures TupleMatches(Table[k], t) <==> DecodeNibbles(t).Some? && TableIndex(DecodeNibbles(t).value) == k
  {
  }

  lemma {:induction false} TupleMatchIsDecodedD(t: (Nibble, Nibble, Nibble, Nibble), k: nat)
    requires 14 <= k < 19
    ensures TupleMatches(Table[k], t) <==> DecodeNibbles(t).Some? && TableIndex(DecodeNibbles(t).value) == k
  {
  }

  lemma {:induction false} TupleMatchIsDecodedE(t: (Nibble, Nibble, Nibble, Nibble), k: nat)
    requires 19 <= k < 23
    ensures TupleMatches(Table[k], t) <==> DecodeNibbles(t).Some? && TableIndex(DecodeNibbles(t).value) == k
  {
  }

  lemma {:induction false} TupleMatchIsDecodedF(t: (Nibble, Nibble, Nibble, Nibble), k: nat)
    requires 23 <= k < 27
    ensures TupleMatches(Table[k], t) <==> DecodeNibbles(t).Some? && TableIndex(DecodeNibbles(t).value) == k
  {
  }

  lemma {:induction false} TupleMatchIsDecodedG(t: (Nibble, Nibble, Nibble, Nibble), k: nat)
    requires 27 <= k < 31
    ensures TupleMatches(Table[k], t) <==> DecodeNibbles(t).Some? && TableIndex(DecodeNibbles(t).value) == k
  {
  }

  lemma {:induction false} TupleMatchIsDecodedH(t: (Nibble, Nibble, Nibble, Nibble), k: nat)
    requires 31 <= k < |Table|
    ensures TupleMatches(Table[k], t) <==> DecodeNibbles(t).Some? && TableIndex(DecodeNibbles(t).value) == k
  {
  }

  /**
   * A word fits pattern `k` exactly when it decodes to the instruction of
   * pattern `k`. Hence no word fits two patterns, and a word decodes to
   * `None` exactly when it fits none.
   */
  lemma {:induction false} TableMatchIsDecoded(w: Word, k: nat)
    requires k < |Table|
    ensures Matches(Table[k], w) <==> Decode(w).Some? && TableIndex(Decode(w).value) == k
  {
    TupleMatchIsDecoded(ToNibbleTuple(w), k);
  }

  /** The patterns are pairwise disjoint. */
  lemma {:induction false} PatternsDisjoint(w: Word, k1: nat, k2: nat)
    requires k1 < |Table| && k2 < |Table|
    requires Matches(Table[k1], w) && Matches(Table[k2], w)
    ensures k1 == k2
  {
    TableMatchIsDecoded(w, k1);
    TableMatchIsDecoded(w, k2);
  }

  /** A word fitting no pattern is exactly a word `Decode` rejects. */
  lemma {:induction false} UnsupportedIffNoPattern(w: Word)
    ensures Decode(w).None? <==> forall k :: 0 <= k < |Table| ==> !Matches(Table[k], w)
  {
    if Decode(w).Some? {
      TableMatchIsDecoded(w, TableIndex(Decode(w).value));
    } else {
      forall k | 0 <= k < |Table| ensures !Matches(Table[k], w) {
        TableMatchIsDecoded(w, k);
      }
    }
  }

  /** 0x0000 fits no pattern (there is no SYS instruction). */
  lemma {:induction false} ZeroIsUnsupported()
    ensures Decode(0x0000) == None
  {
    NibblesOf(0x0000, 0, 0, 0, 0);
  }

  /** 0x8xyF fits no pattern: the arithmetic family has no operation F. */
  lemma {:induction false} ArithFIsUnsupported(w: Word)
    requires w / 0x1000 == 0x8 && w % 0x10 == 0xF
    ensures Decode(w) == None
  {
  }

  /** 0xFx00 fits no pattern: the F family has no operation 00. */
  lemma {:induction false} MiscZeroIsUnsupported(w: Word)
    requires w / 0x1000 == 0xF && w % 0x100 == 0x00
    ensures Decode(w) == None
  {
  }
}
