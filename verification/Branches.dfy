/** Relative branches: the li and bd fields (assembler_ppc.hpp), patching and
    decoding (assembler_ppc.cpp), and the range test of b (assembler_ppc.inline.hpp;
    PowerPC Architecture, Book I, section 2.4.1). A word is its unsigned value; code
    positions and addresses are integers, narrowed to `int` where the source does. */
module Branches {
  import opened PpcMachine

  const B_OP := 18
  const BC_OP := 16

  /** Conversion to a 32-bit signed integer. */
  function Int32(v: int): (n: int)
    ensures -0x8000_0000 <= n < 0x8000_0000
    ensures -0x8000_0000 <= v < 0x8000_0000 ==> n == v
  {
    (v + 0x8000_0000) % 0x1_0000_0000 - 0x8000_0000
  }

  function Op(w: Word): int { w / 0x400_0000 }

  /** The li field: twenty-four bits above the lowest two. */
  function LiBits(w: Word): int { w / 4 % 0x100_0000 }

  /** The bd field: fourteen bits above the lowest two. */
  function BdBits(w: Word): int { w / 4 % 0x4000 }

  /** inst & ~li(-1) | li(v) */
  function WithLi(w: Word, v: int): Word { w - LiBits(w) * 4 + v % 0x100_0000 * 4 }

  /** inst & ~bd(-1) | bd(v) */
  function WithBd(w: Word, v: int): Word { w - BdBits(w) * 4 + v % 0x4000 * 4 }

  /** inv_li_field: the sign-extended li field, in bytes. */
  function InvLi(w: Word): int {
    (if LiBits(w) < 0x80_0000 then LiBits(w) else LiBits(w) - 0x100_0000) * 4
  }

  /** inv_bd_field without the position. */
  function InvBd(w: Word): int {
    (if BdBits(w) < 0x2000 then BdBits(w) else BdBits(w) - 0x4000) * 4
  }

  /** disp: the distance in instructions, computed in an `int`. */
  function Disp(x: int, off: int): int { Int32(x - off) / 4 }

  predicate IsBranch(w: Word) { Op(w) == B_OP || Op(w) == BC_OP }

  /** is_bxx and is_bcxx, in numbers. */
  lemma BranchOpcodes(w: Word)
    ensures Op(w) == B_OP <==> 0x4800_0000 <= w < 0x4c00_0000
    ensures Op(w) == BC_OP <==> 0x4000_0000 <= w < 0x4400_0000
  {
  }

  /** patched_branch */
  function PatchedBranch(dest: int, inst: Word, pos: int): Word
    requires IsBranch(inst)
  {
    if Op(inst) == B_OP then WithLi(inst, Disp(dest, pos)) else WithBd(inst, Disp(dest, pos))
  }

  /** branch_destination */
  function BranchDestination(inst: Word, pos: int): int
    requires IsBranch(inst)
  {
    Int32(pos + if Op(inst) == B_OP then InvLi(inst) else InvBd(inst))
  }

  /** The byte distances the field of a branch can hold. */
  predicate Holds(inst: Word, distance: int) {
    && distance % 4 == 0
    && if Op(inst) == B_OP then -0x200_0000 <= distance < 0x200_0000 else -0x8000 <= distance < 0x8000
  }

  /** Replacing a field leaves the rest: opcode, and the AA and LK bits. */
  lemma WithLiFields(w: Word, v: int)
    ensures Op(WithLi(w, v)) == Op(w) && WithLi(w, v) % 4 == w % 4
    ensures LiBits(WithLi(w, v)) == v % 0x100_0000
  {
    var n := (w / 4 - LiBits(w) + v % 0x100_0000);
    assert WithLi(w, v) == n * 4 + w % 4;
    assert n == w / 4 / 0x100_0000 * 0x100_0000 + v % 0x100_0000;
  }

  /** Likewise for bc, with the BO and BI fields, which lie above the displacement. */
  lemma WithBdFields(w: Word, v: int)
    ensures WithBd(w, v) / 0x1_0000 == w / 0x1_0000 && Op(WithBd(w, v)) == Op(w) && WithBd(w, v) % 4 == w % 4
    ensures BdBits(WithBd(w, v)) == v % 0x4000
  {
    var hi, l := w / 0x1_0000, w % 4;
    assert w == hi * 0x1_0000 + BdBits(w) * 4 + l;
    BdLayout(hi, v % 0x4000, l);
    BdLayout(hi, BdBits(w), l);
  }

  lemma BdLayout(hi: int, b: int, l: int)
    requires 0 <= hi && 0 <= b < 0x4000 && 0 <= l < 4
    ensures var x := hi * 0x1_0000 + b * 4 + l;
            x / 0x1_0000 == hi && x / 0x400_0000 == hi / 0x400 && x % 4 == l && x / 4 % 0x4000 == b
  {
    var x := hi * 0x1_0000 + b * 4 + l;
    assert x / 4 == hi * 0x4000 + b;
  }

  /** Adding two distances to a position agrees, as `int`, only if they are equal. */
  lemma SameTarget(dest: int, pos: int, d: int)
    requires -0x8000_0000 <= dest < 0x8000_0000 && -0x8000_0000 <= d < 0x8000_0000
    ensures Int32(pos + d) == dest <==> d == Int32(dest - pos)
  {
  }

  /** Patching and decoding: the branch goes where it was sent exactly when its field can
      hold the distance, and no bit outside the field changes. */
  lemma PatchRoundTrip(dest: int, inst: Word, pos: int)
    requires IsBranch(inst) && -0x8000_0000 <= dest < 0x8000_0000
    ensures var w := PatchedBranch(dest, inst, pos);
            && Op(w) == Op(inst) && w % 4 == inst % 4
            && (Op(inst) == BC_OP ==> w / 0x1_0000 == inst / 0x1_0000)
            && (BranchDestination(w, pos) == dest <==> Holds(inst, Int32(dest - pos)))
  {
    var v := Disp(dest, pos);
    var w := PatchedBranch(dest, inst, pos);
    if Op(inst) == B_OP {
      WithLiFields(inst, v);
      SameTarget(dest, pos, InvLi(w));
      LiHolds(w, Int32(dest - pos));
    } else {
      WithBdFields(inst, v);
      SameTarget(dest, pos, InvBd(w));
      BdHolds(w, Int32(dest - pos));
    }
  }

  /** A field that was set to a distance in words reads back as the distance if it fits. */
  lemma LiHolds(w: Word, distance: int)
    requires LiBits(w) == distance / 4 % 0x100_0000
    ensures InvLi(w) == distance <==> distance % 4 == 0 && -0x200_0000 <= distance < 0x200_0000
  {
  }

  lemma BdHolds(w: Word, distance: int)
    requires BdBits(w) == distance / 4 % 0x4000
    ensures InvBd(w) == distance <==> distance % 4 == 0 && -0x8000 <= distance < 0x8000
  {
  }

  // ------------------------------------------------------- emitting b

  /** b and bl */
  function EmitB(target: int, pc: int, lk: int): Word
    requires 0 <= lk < 2
  {
    B_OP * 0x400_0000 + Disp(target, pc) % 0x100_0000 * 4 + lk
  }

  /** bc and bcl */
  function EmitBc(bo: Reg, bi: Reg, target: int, pc: int, lk: int): Word
    requires 0 <= lk < 2
  {
    ((BC_OP * 32 + bo) * 32 + bi) * 0x1_0000 + Disp(target, pc) % 0x4000 * 4 + lk
  }

  /** The words of the branches, in numbers: the distance goes into its field as it is, without
      what the field cannot hold. */
  lemma BranchWords(bo: Reg, bi: Reg, target: int, pc: int, lk: int)
    requires 0 <= lk < 2
    ensures var d := target - pc;
            && EmitB(target, pc, lk) == 0x4800_0000 + (d % 0x400_0000 - d % 4) + lk
            && EmitBc(bo, bi, target, pc, lk) == 0x4000_0000 + bo * 0x20_0000 + bi * 0x1_0000 + (d % 0x1_0000 - d % 4) + lk
  {
    DispField(target - pc);
  }

  /** The low bits of a distance survive the narrowing to `int`. */
  lemma DispField(d: int)
    ensures Int32(d) / 4 % 0x100_0000 * 4 == d % 0x400_0000 - d % 4
    ensures Int32(d) / 4 % 0x4000 * 4 == d % 0x1_0000 - d % 4
  {
    var q := (d + 0x8000_0000) / 0x1_0000_0000;
    var w := d / 4;
    assert Int32(d) == d - q * 0x1_0000_0000;
    assert Int32(d) / 4 == w - q * 0x4000_0000;
    LowBits(w, q);
    FieldBits(d);
  }

  lemma LowBits(w: int, q: int)
    ensures (w - q * 0x4000_0000) % 0x100_0000 == w % 0x100_0000
    ensures (w - q * 0x4000_0000) % 0x4000 == w % 0x4000
  {
    LowBits24(w, q * 0x40);
    LowBits14(w, q * 0x1_0000);
  }

  lemma LowBits24(w: int, k: int)
    ensures (w - k * 0x100_0000) % 0x100_0000 == w % 0x100_0000
  {
  }

  lemma LowBits14(w: int, k: int)
    ensures (w - k * 0x4000) % 0x4000 == w % 0x4000
  {
  }

  lemma FieldBits(d: int)
    ensures d / 4 % 0x100_0000 * 4 == d % 0x400_0000 - d % 4
    ensures d / 4 % 0x4000 * 4 == d % 0x1_0000 - d % 4
  {
    var w, r := d / 4, d % 4;
    LowBits26(w / 0x100_0000, w % 0x100_0000, r);
    LowBits16(w / 0x4000, w % 0x4000, r);
  }

  lemma LowBits26(q: int, field: int, r: int)
    requires 0 <= field < 0x100_0000 && 0 <= r < 4
    ensures ((q * 0x100_0000 + field) * 4 + r) % 0x400_0000 == field * 4 + r
  {
    assert (q * 0x100_0000 + field) * 4 + r == q * 0x400_0000 + (field * 4 + r);
  }

  lemma LowBits16(q: int, field: int, r: int)
    requires 0 <= field < 0x4000 && 0 <= r < 4
    ensures ((q * 0x4000 + field) * 4 + r) % 0x1_0000 == field * 4 + r
  {
    assert (q * 0x4000 + field) * 4 + r == q * 0x1_0000 + (field * 4 + r);
  }

  predicate IsWithinRangeOfB(target: int, pc: int) {
    target % 4 == 0 && -0x80_0000 <= Disp(target, pc) < 0x80_0000 - 1
  }

  predicate IsWithinRangeOfBcxx(target: int, pc: int) {
    target % 4 == 0 && -0x2000 <= Disp(target, pc) < 0x2000 - 1
  }

  /** Exactly which targets pass the range tests. Of those less than 2^31 bytes away, the aligned
      ones at a distance that the field can hold, apart from the largest; of all, those whose
      distance is such a one up to a multiple of 2^32. */
  lemma WithinRangeExactly(target: int, pc: int)
    ensures var d := target - pc;
            && (IsWithinRangeOfB(target, pc) <==> target % 4 == 0 && (d + 0x200_0000) % 0x1_0000_0000 < 0x400_0000 - 4)
            && (IsWithinRangeOfBcxx(target, pc) <==> target % 4 == 0 && (d + 0x8000) % 0x1_0000_0000 < 0x1_0000 - 4)
            && (-0x8000_0000 <= d < 0x8000_0000 ==>
                  && (IsWithinRangeOfB(target, pc) <==> target % 4 == 0 && -0x200_0000 <= d < 0x200_0000 - 4)
                  && (IsWithinRangeOfBcxx(target, pc) <==> target % 4 == 0 && -0x8000 <= d < 0x8000 - 4))
  {
    InWindow(target - pc, 0x200_0000);
    InWindow(target - pc, 0x8000);
  }

  lemma InWindow(d: int, half: int)
    requires half == 0x200_0000 || half == 0x8000
    ensures -half <= Int32(d) < half - 4 <==> (d + half) % 0x1_0000_0000 < 2 * half - 4
  {
    var n := Int32(d);
    LowBits32(n + half, (d + 0x8000_0000) / 0x1_0000_0000);
    Residue(n + half);
  }

  lemma LowBits32(n: int, k: int)
    ensures (n + k * 0x1_0000_0000) % 0x1_0000_0000 == n % 0x1_0000_0000
  {
  }

  lemma Residue(n: int)
    requires -0x8000_0000 <= n < 0x1_0000_0000
    ensures n % 0x1_0000_0000 == if n < 0 then n + 0x1_0000_0000 else n
  {
  }

  /** bxx_destination */
  function BxxDestination(inst: Word, pc: int): int { pc + InvLi(inst) }

  lemma EmitBField(target: int, pc: int, lk: int)
    requires 0 <= lk < 2
    ensures Op(EmitB(target, pc, lk)) == B_OP && EmitB(target, pc, lk) % 4 == lk
    ensures LiBits(EmitB(target, pc, lk)) == Disp(target, pc) % 0x100_0000
  {
    assert EmitB(target, pc, lk) / 4 == B_OP * 0x100_0000 + Disp(target, pc) % 0x100_0000;
  }

  lemma EmitBcField(bo: Reg, bi: Reg, target: int, pc: int, lk: int)
    requires 0 <= lk < 2
    ensures Op(EmitBc(bo, bi, target, pc, lk)) == BC_OP && BdBits(EmitBc(bo, bi, target, pc, lk)) == Disp(target, pc) % 0x4000
  {
    BdLayout((BC_OP * 32 + bo) * 32 + bi, Disp(target, pc) % 0x4000, lk);
  }

  /** Likewise for bc and its own test. */
  lemma WithinRangeReachesBcxx(bo: Reg, bi: Reg, target: int, pc: int, lk: int)
    requires 0 <= lk < 2 && pc % 4 == 0
    requires IsWithinRangeOfBcxx(target, pc)
    ensures pc + InvBd(EmitBc(bo, bi, target, pc, lk)) == target <==> -0x8000_0000 <= target - pc < 0x8000_0000
  {
    EmitBcField(bo, bi, target, pc, lk);
    BdHolds(EmitBc(bo, bi, target, pc, lk), Int32(target - pc));
    Int32Fits(target - pc);
  }

  /** A target that passes the range test is reached exactly when it is less than 2^31
      bytes away: `disp` keeps only 32 bits of the distance. */
  lemma WithinRangeReaches(target: int, pc: int, lk: int)
    requires 0 <= lk < 2 && pc % 4 == 0
    requires IsWithinRangeOfB(target, pc)
    ensures BxxDestination(EmitB(target, pc, lk), pc) == target <==> -0x8000_0000 <= target - pc < 0x8000_0000
  {
    EmitBField(target, pc, lk);
    LiHolds(EmitB(target, pc, lk), Int32(target - pc));
    Int32Fits(target - pc);
  }

  lemma Int32Fits(v: int)
    ensures Int32(v) == v <==> -0x8000_0000 <= v < 0x8000_0000
    ensures v % 4 == 0 ==> Int32(v) % 4 == 0
  {
  }

  /** A target exactly 2^32 bytes ahead passes the test and is not reached. */
  lemma TooFarPasses()
    ensures IsWithinRangeOfB(0x1_0000_0000, 0)
    ensures BxxDestination(EmitB(0x1_0000_0000, 0, 0), 0) == 0
  {
    assert Disp(0x1_0000_0000, 0) == 0;
    EmitBField(0x1_0000_0000, 0, 0);
    assert LiBits(EmitB(0x1_0000_0000, 0, 0)) == 0;
  }
}
