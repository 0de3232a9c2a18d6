/** The PowerPC instructions the constant loaders emit: their 32-bit encodings
    (assembler_ppc.hpp, assembler_ppc.inline.hpp) and what each does to the
    sixty-four-bit general purpose registers (PowerPC Architecture, Book I,
    sections 3.3.8, 3.3.11 and 3.3.12). Words, fields and register contents are
    integers; the fields of a word do not overlap, so or-ing them is adding them. */
module PpcMachine {
  type Reg = r: int | 0 <= r < 32
  type Imm16 = i: int | 0 <= i < 0x1_0000
  type Six = n: int | 0 <= n < 64
  type Word = w: int | 0 <= w < 0x1_0000_0000
  type Regs = r: seq<int> | |r| == 32 && forall i :: 0 <= i < 32 ==> 0 <= r[i] < 0x1_0000_0000_0000_0000
    witness seq(32, i => 0)

  /** Decoded instructions; immediates keep the sixteen bits of their field. */
  datatype Insn =
    | Addi(rt: Reg, ra: Reg, imm: Imm16)
    | Addis(rt: Reg, ra: Reg, imm: Imm16)
    | Ori(ra: Reg, rs: Reg, imm: Imm16)
    | Oris(ra: Reg, rs: Reg, imm: Imm16)
    | Rldicr(ra: Reg, rs: Reg, sh: Six, me: Six)
    | Rldimi(ra: Reg, rs: Reg, sh: Six, mb: Six)

  // ------------------------------------------------------------- encoding

  const ADDI_OP := 14
  const ADDIS_OP := 15
  const ORI_OP := 24
  const ORIS_OP := 25
  const RLD_OP := 30
  const RLDICR_XO := 1
  const RLDIMI_XO := 3

  function DForm(op: int, hi: Reg, lo: Reg, imm: Imm16): (w: Word)
    requires 0 <= op < 64
  {
    ((op * 32 + hi) * 32 + lo) * 0x1_0000 + imm
  }

  /** The shift count is split, five bits before the mask and one after the extended
      opcode (sh162030); the mask bound is rotated left by one (mb2126). */
  function MdForm(xo: int, rs: Reg, ra: Reg, sh: Six, mb: Six): (w: Word)
    requires 0 <= xo < 8
  {
    var top := (RLD_OP * 32 + rs) * 32 + ra;
    (((((top * 32 + sh % 32) * 32 + mb % 32) * 2 + mb / 32) * 8 + xo) * 2 + sh / 32) * 2
  }

  function Encode(i: Insn): Word {
    match i
    case Addi(rt, ra, imm) => DForm(ADDI_OP, rt, ra, imm)
    case Addis(rt, ra, imm) => DForm(ADDIS_OP, rt, ra, imm)
    case Ori(ra, rs, imm) => DForm(ORI_OP, rs, ra, imm)
    case Oris(ra, rs, imm) => DForm(ORIS_OP, rs, ra, imm)
    case Rldicr(ra, rs, sh, me) => MdForm(RLDICR_XO, rs, ra, sh, me)
    case Rldimi(ra, rs, sh, mb) => MdForm(RLDIMI_XO, rs, ra, sh, mb)
  }

  datatype Decoded = Known(insn: Insn) | Unknown

  function DecodeD(op: int, w: Word): Decoded {
    var imm := w % 0x1_0000;
    var lo := w / 0x1_0000 % 32;
    var hi := w / 0x1_0000 / 32 % 32;
    if op == ADDI_OP then Known(Addi(hi, lo, imm))
    else if op == ADDIS_OP then Known(Addis(hi, lo, imm))
    else if op == ORI_OP then Known(Ori(lo, hi, imm))
    else if op == ORIS_OP then Known(Oris(lo, hi, imm))
    else Unknown
  }

  function DecodeMd(w: Word): Decoded {
    var w1 := w / 2;      // without the record bit
    var w2 := w1 / 2;     // without the last bit of the shift count
    var w3 := w2 / 8;     // without the extended opcode
    var w4 := w3 / 2;     // without the first bit of the mask bound
    var w5 := w4 / 32;    // without the mask bound
    var w6 := w5 / 32;    // without the shift count
    var sh := w5 % 32 + w1 % 2 * 32;
    var mb := w4 % 32 + w3 % 2 * 32;
    var ra := w6 % 32;
    var rs := w6 / 32 % 32;
    if w % 2 == 0 && w2 % 8 == RLDICR_XO then Known(Rldicr(ra, rs, sh, mb))
    else if w % 2 == 0 && w2 % 8 == RLDIMI_XO then Known(Rldimi(ra, rs, sh, mb))
    else Unknown
  }

  function Decode(w: Word): Decoded {
    var op := w / 0x400_0000;
    if op == RLD_OP then DecodeMd(w) else DecodeD(op, w)
  }

  lemma DFormFields(op: int, hi: Reg, lo: Reg, imm: Imm16)
    requires 0 <= op < 64
    ensures var w := DForm(op, hi, lo, imm);
            w / 0x400_0000 == op && w / 0x1_0000 / 32 % 32 == hi && w / 0x1_0000 % 32 == lo && w % 0x1_0000 == imm
  {
  }

  lemma MdFormDecodes(xo: int, rs: Reg, ra: Reg, sh: Six, mb: Six)
    requires xo == RLDICR_XO || xo == RLDIMI_XO
    ensures var w := MdForm(xo, rs, ra, sh, mb);
            && w / 0x400_0000 == RLD_OP
            && DecodeMd(w) == Known(if xo == RLDICR_XO then Rldicr(ra, rs, sh, mb) else Rldimi(ra, rs, sh, mb))
  {
    var w := MdForm(xo, rs, ra, sh, mb);
    var top := (RLD_OP * 32 + rs) * 32 + ra;
    var w5 := top * 32 + sh % 32;
    var w4 := w5 * 32 + mb % 32;
    var w3 := w4 * 2 + mb / 32;
    var w2 := w3 * 8 + xo;
    var w1 := w2 * 2 + sh / 32;
    assert w / 2 == w1 && w % 2 == 0;
    assert w1 / 2 == w2;
    assert w2 / 8 == w3 && w2 % 8 == xo;
    assert w3 / 2 == w4 && w3 % 2 == mb / 32;
    assert w4 / 32 == w5;
    assert w5 / 32 == top;
  }

  /** Emitting and decoding lose nothing: the word written for an instruction
      is read back by the processor as that instruction. */
  lemma DecodeEncode(i: Insn)
    ensures Decode(Encode(i)) == Known(i)
  {
    match i
    case Addi(rt, ra, imm) => DFormFields(ADDI_OP, rt, ra, imm);
    case Addis(rt, ra, imm) => DFormFields(ADDIS_OP, rt, ra, imm);
    case Ori(ra, rs, imm) => DFormFields(ORI_OP, rs, ra, imm);
    case Oris(ra, rs, imm) => DFormFields(ORIS_OP, rs, ra, imm);
    case Rldicr(ra, rs, sh, me) => MdFormDecodes(RLDICR_XO, rs, ra, sh, me);
    case Rldimi(ra, rs, sh, mb) => MdFormDecodes(RLDIMI_XO, rs, ra, sh, mb);
  }

  /** The word of every instruction, in numbers: opcode, register fields, immediate; for the
      rotates the low five bits of the shift count and of the mask bound, the high bit of the mask
      bound, the extended opcode and the high bit of the shift count. */
  lemma EncodeIs(i: Insn)
    ensures match i
            case Addi(rt, ra, imm) => Encode(i) == 0x3800_0000 + rt * 0x20_0000 + ra * 0x1_0000 + imm
            case Addis(rt, ra, imm) => Encode(i) == 0x3c00_0000 + rt * 0x20_0000 + ra * 0x1_0000 + imm
            case Ori(ra, rs, imm) => Encode(i) == 0x6000_0000 + rs * 0x20_0000 + ra * 0x1_0000 + imm
            case Oris(ra, rs, imm) => Encode(i) == 0x6400_0000 + rs * 0x20_0000 + ra * 0x1_0000 + imm
            case Rldicr(ra, rs, sh, me) =>
              Encode(i) == 0x7800_0004 + rs * 0x20_0000 + ra * 0x1_0000
                           + sh % 32 * 0x800 + me % 32 * 0x40 + me / 32 * 0x20 + sh / 32 * 2
            case Rldimi(ra, rs, sh, mb) =>
              Encode(i) == 0x7800_000c + rs * 0x20_0000 + ra * 0x1_0000
                           + sh % 32 * 0x800 + mb % 32 * 0x40 + mb / 32 * 0x20 + sh / 32 * 2
  {
  }

  /** The decoder knows the words of the six instructions and no others. */
  lemma EncodeDecode(w: Word)
    ensures Decode(w).Known? ==> Encode(Decode(w).insn) == w
  {
    var op := w / 0x400_0000;
    if op == RLD_OP {
      MdFormOf(w);
    } else {
      DFormOf(w);
    }
  }

  lemma DFormOf(w: Word)
    ensures DForm(w / 0x400_0000, w / 0x1_0000 / 32 % 32, w / 0x1_0000 % 32, w % 0x1_0000) == w
  {
    var high := w / 0x1_0000;
    assert w == high * 0x1_0000 + w % 0x1_0000;
    assert high == high / 32 * 32 + high % 32;
    assert high / 32 == high / 32 / 32 * 32 + high / 32 % 32;
    assert w / 0x400_0000 == high / 32 / 32;
  }

  lemma MdFormOf(w: Word)
    requires w / 0x400_0000 == RLD_OP
    ensures DecodeMd(w).Known? ==> Encode(DecodeMd(w).insn) == w
  {
    var w1 := w / 2;
    var w2 := w1 / 2;
    var w3 := w2 / 8;
    var w4 := w3 / 2;
    var w5 := w4 / 32;
    var w6 := w5 / 32;
    TopOf(w6, w);
    if w % 2 == 0 {
      MdFormFrom(w, w1, w2, w3, w4, w5, w2 % 8, w6 / 32 % 32, w6 % 32, w5 % 32 + w1 % 2 * 32, w4 % 32 + w3 % 2 * 32);
    }
  }

  /** A word is its fields put together again. */
  lemma MdFormFrom(w: Word, w1: int, w2: int, w3: int, w4: int, w5: int, xo: int, rs: Reg, ra: Reg, sh: Six, mb: Six)
    requires w == 2 * w1 && w1 == 2 * w2 + w1 % 2 && w2 == 8 * w3 + xo && w3 == 2 * w4 + w3 % 2 && 0 <= xo < 8
    requires w4 == 32 * w5 + w4 % 32 && w5 == 32 * ((RLD_OP * 32 + rs) * 32 + ra) + w5 % 32
    requires sh == w5 % 32 + w1 % 2 * 32 && mb == w4 % 32 + w3 % 2 * 32
    ensures MdForm(xo, rs, ra, sh, mb) == w
  {
    SixParts(sh, w5 % 32, w1 % 2);
    SixParts(mb, w4 % 32, w3 % 2);
  }

  lemma SixParts(n: Six, low: int, high: int)
    requires n == low + high * 32 && 0 <= low < 32 && 0 <= high < 2
    ensures n % 32 == low && n / 32 == high
  {
  }

  lemma TopOf(w6: int, w: Word)
    requires w6 == w / 2 / 2 / 8 / 2 / 32 / 32
    ensures w6 == (w / 0x400_0000 * 32 + w6 / 32 % 32) * 32 + w6 % 32
  {
    assert w6 == w / 0x1_0000;
    assert w6 / 32 / 32 == w / 0x400_0000;
  }

  // ------------------------------------------------------------ execution

  function Wrap(v: int): (w: int)
    ensures 0 <= w < 0x1_0000_0000_0000_0000
  {
    v % 0x1_0000_0000_0000_0000
  }

  function Pow2(n: nat): (p: int)
    ensures p > 0
  {
    if n == 0 then 1 else 2 * Pow2(n - 1)
  }

  lemma Pow2Values()
    ensures Pow2(16) == 0x1_0000 && Pow2(32) == 0x1_0000_0000 && Pow2(64) == 0x1_0000_0000_0000_0000
  {
    assert Pow2(8) == 0x100;
    assert Pow2(16) == 0x1_0000;
    assert Pow2(24) == 0x100_0000;
    assert Pow2(32) == 0x1_0000_0000;
    assert Pow2(40) == 0x100 * 0x1_0000_0000;
    assert Pow2(48) == 0x1_0000 * 0x1_0000_0000;
    assert Pow2(56) == 0x100_0000 * 0x1_0000_0000;
  }

  /** The sign-extended value of an immediate field. */
  function SImm(imm: Imm16): (v: int)
    ensures -0x8000 <= v < 0x8000
  {
    if imm < 0x8000 then imm else imm - 0x1_0000
  }

  /** Bitwise or of two natural numbers. */
  function Or(a: nat, b: nat): nat {
    if a == 0 then b else if b == 0 then a
    else (if a % 2 == 1 || b % 2 == 1 then 1 else 0) + 2 * Or(a / 2, b / 2)
  }

  function Rotl(v: int, n: Six): int
    requires 0 <= v < 0x1_0000_0000_0000_0000
  {
    Wrap(v * Pow2(n)) + v / Pow2(64 - n)
  }

  /** Bits lo..hi of a doubleword, in place; bit 0 is the least significant. */
  function Field(v: int, lo: int, hi: int): int
    requires 0 <= lo && hi < 64 && lo <= hi + 1
  {
    v % Pow2(hi + 1) - v % Pow2(lo)
  }

  /** `into` with the bits of the rotate mask taken from `from`: bits lo..hi, or
      around the end of the doubleword when lo is above hi. */
  function InsertField(into: int, from: int, lo: Six, hi: Six): int {
    if lo <= hi then into - Field(into, lo, hi) + Field(from, lo, hi)
    else from - Field(from, hi + 1, lo - 1) + Field(into, hi + 1, lo - 1)
  }

  /** An operand register of addi and addis: number 0 stands for the constant zero. */
  function Base(r: Regs, ra: Reg): int {
    if ra == 0 then 0 else r[ra]
  }

  /** The value an instruction writes, as a doubleword. */
  function Result(i: Insn, r: Regs): (v: int)
    ensures 0 <= v < 0x1_0000_0000_0000_0000
  {
    Wrap(match i
         case Addi(_, ra, imm) => Base(r, ra) + SImm(imm)
         case Addis(_, ra, imm) => Base(r, ra) + SImm(imm) * 0x1_0000
         case Ori(_, rs, imm) => Or(r[rs], imm)
         case Oris(_, rs, imm) => Or(r[rs], imm * 0x1_0000)
         case Rldicr(_, rs, sh, me) => Field(Rotl(r[rs], sh), 63 - me, 63)
         case Rldimi(ra, rs, sh, mb) => InsertField(r[ra], Rotl(r[rs], sh), sh, 63 - mb))
  }

  function Target(i: Insn): Reg {
    match i
    case Addi(rt, _, _) => rt
    case Addis(rt, _, _) => rt
    case Ori(ra, _, _) => ra
    case Oris(ra, _, _) => ra
    case Rldicr(ra, _, _, _) => ra
    case Rldimi(ra, _, _, _) => ra
  }

  function Exec(i: Insn, r: Regs): Regs {
    r[Target(i) := Result(i, r)]
  }

  function Run(code: seq<Insn>, r: Regs): Regs {
    if code == [] then r else Run(code[1..], Exec(code[0], r))
  }

  lemma {:induction false} RunConcat(a: seq<Insn>, b: seq<Insn>, r: Regs)
    ensures Run(a + b, r) == Run(b, Run(a, r))
  {
    if a == [] {
      assert a + b == b;
    } else {
      assert (a + b)[1..] == a[1..] + b;
      RunConcat(a[1..], b, Exec(a[0], r));
    }
  }
}
