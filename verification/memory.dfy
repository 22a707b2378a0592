/**
 * The interpreter's flat 4 KiB memory: font glyphs at offset 0, the
 * program image at 0x200 and the call stack growing down from 0xEFE, all
 * in one byte sequence. Reads and writes outside the sequence panic in
 * the source, so they are preconditions here.
 */
module Memory {
  import opened Bits

  const MemorySize: nat := 0x1000
  const FontsBase: nat := 0
  const FontSize: nat := 5
  const FontCount: nat := 16
  const ProgramCodeBase: nat := 0x200
  const StackBase: nat := 0xEFE
  const WordSize: nat := 2

  /** The glyphs of the hexadecimal digits 0..F, five rows of one byte each. */
  const Fonts: seq<Byte> :=
    [0xf0, 0x90, 0x90, 0x90, 0xf0] +   // 0
    [0x20, 0x60, 0x20, 0x20, 0x70] +   // 1
    [0xf0, 0x10, 0xf0, 0x80, 0xf0] +   // 2
    [0xf0, 0x10, 0xf0, 0x10, 0xf0] +   // 3
    [0x90, 0x90, 0xf0, 0x10, 0x10] +   // 4
    [0xf0, 0x80, 0xf0, 0x10, 0xf0] +   // 5
    [0xf0, 0x80, 0xf0, 0x90, 0xf0] +   // 6
    [0xf0, 0x10, 0x20, 0x40, 0x40] +   // 7
    [0xf0, 0x90, 0xf0, 0x90, 0xf0] +   // 8
    [0xf0, 0x90, 0xf0, 0x10, 0xf0] +   // 9
    [0xf0, 0x90, 0xf0, 0x90, 0x90] +   // A
    [0xe0, 0x90, 0xe0, 0x90, 0xe0] +   // B
    [0xf0, 0x80, 0x80, 0x80, 0xf0] +   // C
    [0xe0, 0x90, 0x90, 0x90, 0xe0] +   // D
    [0xf0, 0x80, 0xf0, 0x80, 0xf0] +   // E
    [0xf0, 0x80, 0xf0, 0x80, 0x80]     // F

  /** `Vec::splice`: replace `s[lo..hi]` by `items`. */
  function Splice<T>(s: seq<T>, lo: nat, hi: nat, items: seq<T>): seq<T>
    requires lo <= hi <= |s|
  {
    s[..lo] + items + s[hi..]
  }

  /**
   * A fresh memory: zeros, with the font table spliced in at `FontsBase`
   * and the program at `ProgramCodeBase`. A program that does not fit
   * below `MemorySize` makes the second splice panic.
   */
  function New(program: seq<Byte>): (m: seq<Byte>)
    requires ProgramCodeBase + |program| <= MemorySize
    ensures |m| == MemorySize
    ensures m[FontsBase..FontsBase + FontSize * FontCount] == Fonts
    ensures m[ProgramCodeBase..ProgramCodeBase + |program|] == program
    ensures forall i :: FontsBase + FontSize * FontCount <= i < ProgramCodeBase ==> m[i] == 0
    ensures forall i :: ProgramCodeBase + |program| <= i < MemorySize ==> m[i] == 0
  {
    var zeros: seq<Byte> := seq(MemorySize, _ => 0);
    var withFonts := Splice(zeros, FontsBase, FontsBase + FontSize * FontCount, Fonts);
    Splice(withFonts, ProgramCodeBase, ProgramCodeBase + |program|, program)
  }

  /** The `count` bytes at `offset`. */
  function ReadAt(m: seq<Byte>, offset: nat, count: nat): (buf: seq<Byte>)
    requires offset + count <= |m|
    ensures |buf| == count
    ensures forall i :: 0 <= i < count ==> buf[i] == m[offset + i]
  {
    m[offset..offset + count]
  }

  /** `m` with `buf` written at `offset`. */
  function WriteAt(m: seq<Byte>, buf: seq<Byte>, offset: nat): (m': seq<Byte>)
    requires offset + |buf| <= |m|
    ensures |m'| == |m|
    ensures forall i :: 0 <= i < |buf| ==> m'[offset + i] == buf[i]
    ensures forall i :: 0 <= i < |m| && !(offset <= i < offset + |buf|) ==> m'[i] == m[i]
  {
    m[..offset] + buf + m[offset + |buf|..]
  }

  /** The big-endian 16-bit word at `offset`. */
  function ReadU16At(m: seq<Byte>, offset: nat): (v: Word)
    requires offset + WordSize <= |m|
    ensures v == m[offset] as int * 0x100 + m[offset + 1]
  {
    var bytes := ReadAt(m, offset, WordSize);
    bytes[0] as int * 0x100 + bytes[1]
  }

  /** `m` with `value` written big-endian at `offset`. */
  function WriteU16At(m: seq<Byte>, value: Word, offset: nat): (m': seq<Byte>)
    requires offset + WordSize <= |m|
    ensures |m'| == |m|
    ensures ReadU16At(m', offset) == value
    ensures forall i :: 0 <= i < |m| && i != offset && i != offset + 1 ==> m'[i] == m[i]
  {
    WriteAt(m, [value / 0x100, value % 0x100], offset)
  }

  // ---------------------------------------------------------------------
  // Round trips
  // ---------------------------------------------------------------------

  /** Reading back what was just written returns it. */
  lemma {:induction false} ReadAfterWrite(m: seq<Byte>, buf: seq<Byte>, offset: nat)
    requires offset + |buf| <= |m|
    ensures ReadAt(WriteAt(m, buf, offset), offset, |buf|) == buf
  {
  }

  /** Writing back what was just read changes nothing. */
  lemma {:induction false} WriteWhatWasRead(m: seq<Byte>, offset: nat, count: nat)
    requires offset + count <= |m|
    ensures WriteAt(m, ReadAt(m, offset, count), offset) == m
  {
  }

  /** Writing back the word just read changes nothing. */
  lemma {:induction false} WriteU16WhatWasRead(m: seq<Byte>, offset: nat)
    requires offset + WordSize <= |m|
    ensures WriteU16At(m, ReadU16At(m, offset), offset) == m
  {
    var m' := WriteU16At(m, ReadU16At(m, offset), offset);
    assert m'[offset] == m[offset] && m'[offset + 1] == m[offset + 1] by {
      var v := ReadU16At(m, offset);
      DivUnique(v, 0x100, m[offset], m[offset + 1]);
    }
  }

  /** The glyph for 0: a full bar, two side posts for three rows, a full bar. */
  lemma {:induction false} FontZero()
    ensures Fonts[..FontSize] == [0xF0, 0x90, 0x90, 0x90, 0xF0]
  {
  }

  /** Glyph `d` of a fresh memory is the five bytes at `d * FontSize`. */
  lemma {:induction false} FontGlyph(program: seq<Byte>, d: nat)
    requires ProgramCodeBase + |program| <= MemorySize
    requires d < FontCount
    ensures ReadAt(New(program), d * FontSize, FontSize) == Fonts[d * FontSize..d * FontSize + FontSize]
  {
    var m := New(program);
    assert m[..FontSize * FontCount] == Fonts;
  }
}
