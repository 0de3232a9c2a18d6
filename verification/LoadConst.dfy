/** Loading 64-bit constants: `Assembler::load_const` and
    `Assembler::load_const_optimized` (assembler_ppc.cpp). */
module LoadConst {
  import opened PpcMachine

  datatype OptReg = NoReg | SomeReg(reg: Reg)

  // ------------------------------------------------- one instruction each

  function Imm(v: int): Imm16 { v % 0x1_0000 }
  function Li(d: Reg, v: int): Insn { Addi(d, 0, Imm(v)) }
  function Lis(d: Reg, v: int): Insn { Addis(d, 0, Imm(v)) }
  function AddTo(d: Reg, v: int): Insn { Addi(d, d, Imm(v)) }
  function AddHighTo(d: Reg, v: int): Insn { Addis(d, d, Imm(v)) }
  function OrTo(d: Reg, v: int): Insn { Ori(d, d, Imm(v)) }
  /** sldi(d, d, 32) */
  function Shl32(d: Reg): Insn { Rldicr(d, d, 32, 31) }
  /** insrdi(d, s, 32, 0) */
  function Insert32(d: Reg, s: Reg): Insn { Rldimi(d, s, 32, 0) }

  predicate IsSimm(v: int) { -0x8000 <= v < 0x8000 }

  function Set(r: Regs, d: Reg, v: int): Regs {
    r[d := Wrap(v)]
  }

  lemma LiEffect(d: Reg, v: int, r: Regs)
    requires IsSimm(v)
    ensures Exec(Li(d, v), r) == Set(r, d, v)
    ensures Exec(Lis(d, v), r) == Set(r, d, v * 0x1_0000)
  {
  }

  lemma AddEffect(d: Reg, v: int, r: Regs)
    requires d != 0 && IsSimm(v)
    ensures Exec(AddTo(d, v), r) == Set(r, d, r[d] + v)
    ensures Exec(AddHighTo(d, v), r) == Set(r, d, r[d] + v * 0x1_0000)
  {
  }

  /** Or-ing into bits that are clear is adding. */
  lemma {:induction false} OrClear(q: nat, b: nat, n: nat)
    requires b < Pow2(n)
    ensures Or(q * Pow2(n), b) == q * Pow2(n) + b
    decreases n
  {
    if q * Pow2(n) != 0 && b != 0 {
      assert q * Pow2(n) == 2 * (q * Pow2(n - 1));
      OrClear(q, b / 2, n - 1);
    }
  }

  lemma OrLow(x: nat, v: nat)
    requires x % 0x1_0000 == 0 && v < 0x1_0000
    ensures Or(x, v) == x + v
  {
    var q := x / 0x1_0000;
    Pow2Values();
    OrClear(q, v, 16);
    assert x == q * 0x1_0000;
  }

  lemma OrHigh(x: nat, v: nat)
    requires x % 0x1_0000_0000 == 0 && v < 0x1_0000
    ensures Or(x, v * 0x1_0000) == x + v * 0x1_0000
  {
    var q := x / 0x1_0000_0000;
    Pow2Values();
    OrClear(q, v * 0x1_0000, 32);
    assert x == q * 0x1_0000_0000;
  }

  lemma ExecOri(d: Reg, v: Imm16, r: Regs, s: int)
    requires Or(r[d], v) == s
    ensures Exec(Ori(d, d, v), r) == Set(r, d, s)
  {
  }

  lemma ExecOris(d: Reg, v: Imm16, r: Regs, s: int)
    requires Or(r[d], v * 0x1_0000) == s
    ensures Exec(Oris(d, d, v), r) == Set(r, d, s)
  {
  }

  lemma OrEffect(d: Reg, v: Imm16, r: Regs)
    requires r[d] % 0x1_0000 == 0
    ensures Exec(Ori(d, d, v), r) == Set(r, d, r[d] + v)
  {
    OrLow(r[d], v);
    ExecOri(d, v, r, r[d] + v);
  }

  lemma OrHighEffect(d: Reg, v: Imm16, r: Regs)
    requires r[d] % 0x1_0000_0000 == 0
    ensures Exec(Oris(d, d, v), r) == Set(r, d, r[d] + v * 0x1_0000)
  {
    OrHigh(r[d], v);
    ExecOris(d, v, r, r[d] + v * 0x1_0000);
  }

  lemma ShiftArith(v: int)
    requires 0 <= v < 0x1_0000_0000_0000_0000
    ensures Wrap(v * 0x1_0000_0000) == v % 0x1_0000_0000 * 0x1_0000_0000
  {
    var h, l := v / 0x1_0000_0000, v % 0x1_0000_0000;
    assert v * 0x1_0000_0000 == h * 0x1_0000_0000_0000_0000 + l * 0x1_0000_0000;
  }

  lemma Rotl32(v: int)
    requires 0 <= v < 0x1_0000_0000_0000_0000
    ensures Rotl(v, 32) == v % 0x1_0000_0000 * 0x1_0000_0000 + v / 0x1_0000_0000
  {
    Pow2Values();
    ShiftArith(v);
  }

  /** The upper half of a doubleword that is two 32-bit halves. */
  lemma UpperHalf(hi: int, lo: int)
    requires 0 <= hi < 0x1_0000_0000 && 0 <= lo < 0x1_0000_0000
    ensures Field(hi * 0x1_0000_0000 + lo, 32, 63) == hi * 0x1_0000_0000
  {
    Pow2Values();
    var x := hi * 0x1_0000_0000 + lo;
    assert x % 0x1_0000_0000_0000_0000 == x;
    assert x % 0x1_0000_0000 == lo;
  }

  lemma Shl32Value(v: int)
    requires 0 <= v < 0x1_0000_0000_0000_0000
    ensures Field(Rotl(v, 32), 32, 63) == Wrap(v * 0x1_0000_0000)
  {
    ShiftArith(v);
    Rotl32(v);
    UpperHalf(v % 0x1_0000_0000, v / 0x1_0000_0000);
  }

  lemma Shl32Effect(d: Reg, r: Regs)
    ensures Exec(Shl32(d), r) == Set(r, d, r[d] * 0x1_0000_0000)
  {
    Shl32Value(r[d]);
    assert Wrap(Wrap(r[d] * 0x1_0000_0000)) == Wrap(r[d] * 0x1_0000_0000) by { WrapAdd(r[d] * 0x1_0000_0000, 0); }
  }

  lemma Insert32Effect(d: Reg, s: Reg, r: Regs)
    ensures Exec(Insert32(d, s), r) == Set(r, d, r[d] % 0x1_0000_0000 + r[s] % 0x1_0000_0000 * 0x1_0000_0000)
  {
    var v, w := r[s], r[d];
    Rotl32(v);
    UpperHalf(v % 0x1_0000_0000, v / 0x1_0000_0000);
    UpperHalf(w / 0x1_0000_0000, w % 0x1_0000_0000);
  }

  // -------------------------------------------------- sixteen-bit chunks

  /** The lowest chunk of rem, as a short. */
  function Chunk(rem: int): (c: int)
    ensures IsSimm(c)
  {
    var u := rem % 0x1_0000;
    if u < 0x8000 then u else u - 0x1_0000
  }

  /** What remains above the lowest chunk, compensated for its sign. */
  function Rest(rem: int): (next: int)
    ensures rem == next * 0x1_0000 + Chunk(rem)
  {
    rem / 0x1_0000 + rem % 0x1_0000 / 0x8000
  }

  // ------------------------------------------- load_const_optimized

  function When(c: bool, i: Insn): seq<Insn> {
    if c then [i] else []
  }

  /** opt 3: the upper half is built in tmp and the lower one in d. */
  function Halves(d: Reg, tmp: Reg, xa: int, xb: int, xc: int, xd: int, addXd: bool): (code: seq<Insn>)
    ensures |code| <= 4
  {
    var loadXa := xa != 0 || xb < 0;
    When(loadXa, Lis(tmp, xa)) + When(xc != 0, Lis(d, xc))
    + (if loadXa then When(xb != 0, OrTo(tmp, xb)) else [Li(tmp, xb)])
    + (if xc != 0 then When(addXd && xd != 0, AddTo(d, xd)) else [Li(d, xd)])
  }

  /** opt 4: the upper two chunks. */
  function UpperChunks(d: Reg, xa: int, xb: int): (code: seq<Insn>)
    ensures |code| <= 2
  {
    if xa != 0 then [Lis(d, xa)] + When(xb != 0, AddTo(d, xb)) else [Li(d, xb)]
  }

  /** Everything but the lowest chunk, without a temporary. */
  function AllButLast(d: Reg, rem2: int, xc: int): (code: seq<Insn>)
    ensures |code| <= 4
  {
    if rem2 == 0 then [Lis(d, xc)]  // opt 2
    else UpperChunks(d, Chunk(Rest(rem2)), Chunk(rem2)) + [Shl32(d)] + When(xc != 0, AddHighTo(d, xc))
  }

  /** The instructions `load_const_optimized` emits, and the remainder it returns. */
  function Optimized(d: Reg, x: int, tmp: OptReg, rest: bool): (seq<Insn>, int) {
    var xd := Chunk(x);
    var rem1 := Rest(x);
    if rem1 == 0 then ([Li(d, xd)], 0)  // opt 1
    else
      var xc := Chunk(rem1);
      var rem2 := Rest(rem1);
      if rem2 != 0 && tmp.SomeReg? then
        var returnXd := xc != 0 && rest && xd >= 0;
        var xa, xb := Chunk(x / 0x1_0000_0000_0000), Chunk(x / 0x1_0000_0000);
        (Halves(d, tmp.reg, xa, xb, xc, xd, !returnXd) + [Insert32(d, tmp.reg)], if returnXd then xd else 0)
      else  // opt 5: the remainder may be handed back
        (AllButLast(d, rem2, xc) + When(!rest && xd != 0, AddTo(d, xd)), if rest then xd else 0)
  }

  lemma WrapMultiple(y: int, k: int)
    ensures Wrap(y + k * 0x1_0000_0000_0000_0000) == Wrap(y)
  {
  }

  lemma WrapAdd(a: int, b: int)
    ensures Wrap(Wrap(a) + b) == Wrap(a + b)
  {
    WrapMultiple(Wrap(a) + b, a / 0x1_0000_0000_0000_0000);
  }

  lemma WrapShl(a: int)
    ensures Wrap(Wrap(a) * 0x1_0000_0000) == Wrap(a * 0x1_0000_0000)
  {
    WrapMultiple(Wrap(a) * 0x1_0000_0000, a / 0x1_0000_0000_0000_0000 * 0x1_0000_0000);
  }

  lemma RunOne(i: Insn, r: Regs)
    ensures Run([i], r) == Exec(i, r)
  {
    assert Run([i][1..], Exec(i, r)) == Exec(i, r);
  }

  lemma RunWhen(c: bool, i: Insn, r: Regs)
    ensures Run(When(c, i), r) == if c then Exec(i, r) else r
  {
    if c { RunOne(i, r); }
  }

  /** Adding v to d, where v may be zero and the instruction then missing. */
  lemma RunAdd(c: bool, d: Reg, v: int, r: Regs)
    requires d != 0 && IsSimm(v) && (!c ==> v == 0)
    ensures Run(When(c, AddTo(d, v)), r) == Set(r, d, r[d] + v)
    ensures Run(When(c, AddHighTo(d, v)), r) == Set(r, d, r[d] + v * 0x1_0000)
  {
    RunWhen(c, AddTo(d, v), r);
    RunWhen(c, AddHighTo(d, v), r);
    AddEffect(d, v, r);
    assert Wrap(r[d]) == r[d];
  }

  lemma RunUpperChunks(d: Reg, xa: int, xb: int, r: Regs)
    requires d != 0 && IsSimm(xa) && IsSimm(xb)
    ensures Run(UpperChunks(d, xa, xb), r) == Set(r, d, xa * 0x1_0000 + xb)
    ensures |UpperChunks(d, xa, xb)| <= 2
  {
    if xa != 0 {
      RunConcat([Lis(d, xa)], When(xb != 0, AddTo(d, xb)), r);
      RunOne(Lis(d, xa), r);
      LiEffect(d, xa, r);
      RunAdd(xb != 0, d, xb, Set(r, d, xa * 0x1_0000));
      WrapAdd(xa * 0x1_0000, xb);
    } else {
      RunOne(Li(d, xb), r);
      LiEffect(d, xb, r);
    }
  }

  /** The four chunks in order: upper two, shift, third. */
  lemma RunNoTmp(d: Reg, xa: int, xb: int, xc: int, r: Regs)
    requires d != 0 && IsSimm(xa) && IsSimm(xb) && IsSimm(xc)
    ensures Run(UpperChunks(d, xa, xb) + [Shl32(d)] + When(xc != 0, AddHighTo(d, xc)), r)
         == Set(r, d, (xa * 0x1_0000 + xb) * 0x1_0000_0000 + xc * 0x1_0000)
  {
    var hi := xa * 0x1_0000 + xb;
    RunConcat(UpperChunks(d, xa, xb) + [Shl32(d)], When(xc != 0, AddHighTo(d, xc)), r);
    RunConcat(UpperChunks(d, xa, xb), [Shl32(d)], r);
    RunUpperChunks(d, xa, xb, r);
    var r1 := Set(r, d, hi);
    RunOne(Shl32(d), r1);
    Shl32Effect(d, r1);
    WrapShl(hi);
    assert Exec(Shl32(d), r1) == Set(r, d, hi * 0x1_0000_0000);
    RunAdd(xc != 0, d, xc, Set(r, d, hi * 0x1_0000_0000));
    WrapAdd(hi * 0x1_0000_0000, xc * 0x1_0000);
  }

  lemma WrapHalves(x: int)
    ensures Wrap(x) == x / 0x1_0000_0000 % 0x1_0000_0000 * 0x1_0000_0000 + x % 0x1_0000_0000
  {
    var h := x / 0x1_0000_0000;
    WrapMultiple(h % 0x1_0000_0000 * 0x1_0000_0000 + x % 0x1_0000_0000, h / 0x1_0000_0000);
  }

  lemma WrapLow(y: int)
    ensures Wrap(y) % 0x1_0000_0000 == y % 0x1_0000_0000
  {
    WrapHalves(y);
  }

  lemma UpperHalfOf(x: int, xa: int, xb: int)
    requires xa == Chunk(x / 0x1_0000_0000_0000) && xb == Chunk(x / 0x1_0000_0000)
    ensures (xa * 0x1_0000 + xb % 0x1_0000) % 0x1_0000_0000 == x / 0x1_0000_0000 % 0x1_0000_0000
  {
    var h := x / 0x1_0000_0000;
    assert x / 0x1_0000_0000_0000 == h / 0x1_0000;
    assert h / 0x1_0000 == Rest(h / 0x1_0000) * 0x1_0000 + xa;
    assert h == Rest(h / 0x1_0000) * 0x1_0000_0000 + xa * 0x1_0000 + h % 0x1_0000;
    assert xb % 0x1_0000 == h % 0x1_0000;
  }

  lemma LowClear(y: int)
    ensures Wrap(y * 0x1_0000) % 0x1_0000 == 0
  {
    var k := y * 0x1_0000 / 0x1_0000_0000_0000_0000;
    assert Wrap(y * 0x1_0000) == (y - k * 0x1_0000_0000_0000) * 0x1_0000;
  }

  /** Completing the upper half in tmp, after lis if there was one. */
  lemma RunTmpHalf(tmp: Reg, xa: int, xb: int, loadXa: bool, r: Regs)
    requires IsSimm(xa) && IsSimm(xb) && loadXa == (xa != 0 || xb < 0)
    requires loadXa ==> r[tmp] == Wrap(xa * 0x1_0000)
    ensures Run(if loadXa then When(xb != 0, OrTo(tmp, xb)) else [Li(tmp, xb)], r)
         == Set(r, tmp, xa * 0x1_0000 + xb % 0x1_0000)
  {
    if loadXa {
      RunWhen(xb != 0, OrTo(tmp, xb), r);
      OrTmp(tmp, xa, xb, r);
    } else {
      RunOne(Li(tmp, xb), r);
      LiEffect(tmp, xb, r);
    }
  }

  lemma OrTmp(tmp: Reg, xa: int, xb: int, r: Regs)
    requires r[tmp] == Wrap(xa * 0x1_0000)
    ensures Exec(OrTo(tmp, xb), r) == Set(r, tmp, xa * 0x1_0000 + xb % 0x1_0000)
    ensures xb == 0 ==> r == Set(r, tmp, xa * 0x1_0000 + xb % 0x1_0000)
  {
    LowClear(xa);
    OrEffect(tmp, Imm(xb), r);
    assert Wrap(Wrap(xa * 0x1_0000) + xb % 0x1_0000) == Wrap(xa * 0x1_0000 + xb % 0x1_0000) by {
      WrapAdd(xa * 0x1_0000, xb % 0x1_0000);
    }
  }

  /** Completing the lower half in d, after lis if there was one. */
  lemma RunLowHalf(d: Reg, xc: int, xd: int, addXd: bool, r: Regs)
    requires d != 0 && IsSimm(xc) && IsSimm(xd)
    requires xc != 0 ==> r[d] == Wrap(xc * 0x1_0000)
    ensures Run(if xc != 0 then When(addXd && xd != 0, AddTo(d, xd)) else [Li(d, xd)], r)
         == Set(r, d, xc * 0x1_0000 + if xc != 0 && !addXd then 0 else xd)
  {
    if xc == 0 {
      RunOne(Li(d, xd), r);
      LiEffect(d, xd, r);
    } else if addXd {
      RunAdd(xd != 0, d, xd, r);
      WrapAdd(xc * 0x1_0000, xd);
    }
  }

  /** The two halves before they are joined. */
  lemma RunHalves(d: Reg, tmp: Reg, xa: int, xb: int, xc: int, xd: int, addXd: bool, r: Regs)
    requires d != 0 && d != tmp && IsSimm(xa) && IsSimm(xb) && IsSimm(xc) && IsSimm(xd)
    ensures Run(Halves(d, tmp, xa, xb, xc, xd, addXd), r)
         == Set(Set(r, tmp, xa * 0x1_0000 + xb % 0x1_0000), d,
                xc * 0x1_0000 + if xc != 0 && !addXd then 0 else xd)
  {
    var loadXa := xa != 0 || xb < 0;
    var p1, p2 := When(loadXa, Lis(tmp, xa)), When(xc != 0, Lis(d, xc));
    var p3 := if loadXa then When(xb != 0, OrTo(tmp, xb)) else [Li(tmp, xb)];
    var p4 := if xc != 0 then When(addXd && xd != 0, AddTo(d, xd)) else [Li(d, xd)];
    RunConcat(p1 + p2 + p3, p4, r);
    RunConcat(p1 + p2, p3, r);
    RunConcat(p1, p2, r);
    var r1 := Run(p1, r);
    RunWhen(loadXa, Lis(tmp, xa), r);
    LiEffect(tmp, xa, r);
    var r2 := Run(p2, r1);
    RunWhen(xc != 0, Lis(d, xc), r1);
    LiEffect(d, xc, r1);
    var r3 := Run(p3, r2);
    RunTmpHalf(tmp, xa, xb, loadXa, r2);
    RunLowHalf(d, xc, xd, addXd, r3);
  }

  lemma LowHalfOf(x: int, xc: int, xd: int, ret: int)
    requires xc == Chunk(Rest(x)) && xd == Chunk(x)
    requires ret == 0 || (ret == xd && xd >= 0)
    ensures (xc * 0x1_0000 + xd - ret) % 0x1_0000_0000 + ret == x % 0x1_0000_0000
  {
    var up := Rest(Rest(x));
    assert x == up * 0x1_0000_0000 + xc * 0x1_0000 + xd;
    var low := if xc >= 0 then xc * 0x1_0000 else xc * 0x1_0000 + 0x1_0000_0000;
    if ret != 0 {
      assert (xc * 0x1_0000) % 0x1_0000_0000 == low;
      assert x % 0x1_0000_0000 == low + xd;
    }
  }

  /** Joining the halves gives x less what is handed back. */
  lemma JoinedHalves(x: int, hi: int, lo: int, ret: int)
    requires hi == Chunk(x / 0x1_0000_0000_0000) * 0x1_0000 + Chunk(x / 0x1_0000_0000) % 0x1_0000
    requires lo == Chunk(Rest(x)) * 0x1_0000 + Chunk(x) - ret
    requires ret == 0 || (ret == Chunk(x) && ret >= 0)
    ensures Wrap(lo) % 0x1_0000_0000 + Wrap(hi) % 0x1_0000_0000 * 0x1_0000_0000 + ret == Wrap(x)
  {
    WrapLow(hi);
    WrapLow(lo);
    UpperHalfOf(x, Chunk(x / 0x1_0000_0000_0000), Chunk(x / 0x1_0000_0000));
    LowHalfOf(x, Chunk(Rest(x)), Chunk(x), ret);
    WrapHalves(x);
  }

  lemma RunJoined(d: Reg, tmp: Reg, xa: int, xb: int, xc: int, xd: int, addXd: bool, r: Regs)
    requires d != 0 && d != tmp && IsSimm(xa) && IsSimm(xb) && IsSimm(xc) && IsSimm(xd)
    ensures var hi := xa * 0x1_0000 + xb % 0x1_0000;
            var lo := xc * 0x1_0000 + if xc != 0 && !addXd then 0 else xd;
            Run(Halves(d, tmp, xa, xb, xc, xd, addXd) + [Insert32(d, tmp)], r)
            == Set(Set(r, tmp, hi), d, Wrap(lo) % 0x1_0000_0000 + Wrap(hi) % 0x1_0000_0000 * 0x1_0000_0000)
  {
    var r1 := Run(Halves(d, tmp, xa, xb, xc, xd, addXd), r);
    RunHalves(d, tmp, xa, xb, xc, xd, addXd, r);
    RunConcat(Halves(d, tmp, xa, xb, xc, xd, addXd), [Insert32(d, tmp)], r);
    RunOne(Insert32(d, tmp), r1);
    Insert32Effect(d, tmp, r1);
  }

  lemma RunAllButLast(d: Reg, rem2: int, xc: int, r: Regs)
    requires d != 0 && IsSimm(xc)
    ensures Run(AllButLast(d, rem2, xc), r) == Set(r, d, rem2 * 0x1_0000_0000 + xc * 0x1_0000)
  {
    if rem2 == 0 {
      RunOne(Lis(d, xc), r);
      LiEffect(d, xc, r);
    } else {
      var xb, xa := Chunk(rem2), Chunk(Rest(rem2));
      RunNoTmp(d, xa, xb, xc, r);
      var top := Rest(Rest(rem2));
      assert rem2 == top * 0x1_0000_0000 + xa * 0x1_0000 + xb;
      WrapMultiple((xa * 0x1_0000 + xb) * 0x1_0000_0000 + xc * 0x1_0000, top);
    }
  }

  /** What loading x into d means: on the register file r the code leaves x, less the
      remainder ret, in d and touches at most d and tmp. */
  ghost predicate Loads(code: seq<Insn>, ret: int, d: Reg, tmp: OptReg, x: int, r: Regs) {
    var r' := Run(code, r);
    && Wrap(r'[d] + ret) == Wrap(x)
    && forall k: Reg :: k != d && tmp != SomeReg(k) ==> r'[k] == r[k]
  }

  lemma SetLoads(code: seq<Insn>, ret: int, d: Reg, tmp: OptReg, x: int, r: Regs, h: int, v: int)
    requires Run(code, r) == Set(if tmp == NoReg then r else Set(r, tmp.reg, h), d, v) || Run(code, r) == Set(r, d, v)
    requires Wrap(v + ret) == Wrap(x)
    ensures Loads(code, ret, d, tmp, x, r)
  {
    WrapAdd(v, ret);
  }

  lemma TmpLoads(d: Reg, x: int, tmp: Reg, addXd: bool, r: Regs)
    requires d != 0 && d != tmp
    requires addXd || (Chunk(x) >= 0 && Chunk(Rest(x)) != 0)
    ensures var code := Halves(d, tmp, Chunk(x / 0x1_0000_0000_0000), Chunk(x / 0x1_0000_0000),
                               Chunk(Rest(x)), Chunk(x), addXd) + [Insert32(d, tmp)];
            Loads(code, if addXd then 0 else Chunk(x), d, SomeReg(tmp), x, r)
  {
    var xa, xb := Chunk(x / 0x1_0000_0000_0000), Chunk(x / 0x1_0000_0000);
    var xc, xd := Chunk(Rest(x)), Chunk(x);
    var ret := if addXd then 0 else xd;
    var hi, lo := xa * 0x1_0000 + xb % 0x1_0000, xc * 0x1_0000 + xd - ret;
    var joined := Wrap(lo) % 0x1_0000_0000 + Wrap(hi) % 0x1_0000_0000 * 0x1_0000_0000;
    var code := Halves(d, tmp, xa, xb, xc, xd, addXd) + [Insert32(d, tmp)];
    assert Run(code, r) == Set(Set(r, tmp, hi), d, joined) by {
      RunJoined(d, tmp, xa, xb, xc, xd, addXd, r);
    }
    assert Wrap(joined + ret) == Wrap(x) by {
      JoinedHalves(x, hi, lo, ret);
      WrapAdd(x, 0);
    }
    SetLoads(code, ret, d, SomeReg(tmp), x, r, hi, joined);
  }

  lemma RunPlain(d: Reg, rem2: int, xc: int, xd: int, rest: bool, r: Regs)
    requires d != 0 && IsSimm(xc) && IsSimm(xd)
    ensures Run(AllButLast(d, rem2, xc) + When(!rest && xd != 0, AddTo(d, xd)), r)
         == Set(r, d, rem2 * 0x1_0000_0000 + xc * 0x1_0000 + if rest then 0 else xd)
  {
    var last := When(!rest && xd != 0, AddTo(d, xd));
    var v := rem2 * 0x1_0000_0000 + xc * 0x1_0000;
    RunConcat(AllButLast(d, rem2, xc), last, r);
    RunAllButLast(d, rem2, xc, r);
    if !rest {
      RunAdd(xd != 0, d, xd, Set(r, d, v));
      WrapAdd(v, xd);
    }
  }

  lemma PlainLoads(d: Reg, x: int, tmp: OptReg, rest: bool, r: Regs)
    requires d != 0
    ensures var xd := Chunk(x);
            Loads(AllButLast(d, Rest(Rest(x)), Chunk(Rest(x))) + When(!rest && xd != 0, AddTo(d, xd)),
                  if rest then xd else 0, d, tmp, x, r)
  {
    var xd, xc, rem2 := Chunk(x), Chunk(Rest(x)), Rest(Rest(x));
    RunPlain(d, rem2, xc, xd, rest, r);
    SetLoads(AllButLast(d, rem2, xc) + When(!rest && xd != 0, AddTo(d, xd)),
             if rest then xd else 0, d, tmp, x, r, 0,
             rem2 * 0x1_0000_0000 + xc * 0x1_0000 + if rest then 0 else xd);
  }

  /** `load_const_optimized`: for every x, with or without a temporary and a returned
      remainder, the emitted code loads x; the remainder is a signed 16-bit value, zero
      unless it was asked for; at most five instructions. */
  lemma OptimizedLoads(d: Reg, x: int, tmp: OptReg, rest: bool, r: Regs)
    requires d != 0 && tmp != SomeReg(d)
    ensures var (code, ret) := Optimized(d, x, tmp, rest);
            Loads(code, ret, d, tmp, x, r) && |code| <= 5 && IsSimm(ret) && (!rest ==> ret == 0)
  {
    var xd, rem1 := Chunk(x), Rest(x);
    if rem1 == 0 {
      RunOne(Li(d, xd), r);
      LiEffect(d, xd, r);
      SetLoads([Li(d, xd)], 0, d, tmp, x, r, 0, xd);
    } else if Rest(rem1) != 0 && tmp.SomeReg? {
      TmpLoads(d, x, tmp.reg, !(Chunk(rem1) != 0 && rest && xd >= 0), r);
    } else {
      PlainLoads(d, x, tmp, rest, r);
    }
  }

  // ------------------------------------------------ patchable constants

  /** The k-th sixteen bits of x, counted from the right, without sign. */
  function Sixteen(x: int, k: nat): (c: Imm16)
    decreases k
  {
    if k == 0 then x % 0x1_0000 else Sixteen(x / 0x1_0000, k - 1)
  }

  /** The instructions `load_const` emits. */
  function Patchable(d: Reg, x: int, tmp: OptReg): (code: seq<Insn>)
    ensures |code| == 5
  {
    var xa, xb, xc, xd := Sixteen(x, 3), Sixteen(x, 2), Sixteen(x, 1), Sixteen(x, 0);
    if tmp == NoReg then
      [Addis(d, 0, xa), Ori(d, d, xb), Shl32(d), Oris(d, d, xc), Ori(d, d, xd)]
    else
      [Addis(tmp.reg, 0, xa), Addis(d, 0, xc), Ori(tmp.reg, tmp.reg, xb), Ori(d, d, xd), Insert32(d, tmp.reg)]
  }

  function EncodeAll(code: seq<Insn>): (words: seq<Word>)
    ensures |words| == |code|
    ensures forall i :: 0 <= i < |code| ==> words[i] == Encode(code[i])
  {
    seq(|code|, i requires 0 <= i < |code| => Encode(code[i]))
  }

  /** set_imm: the lower sixteen bits of a word replaced. */
  function SetImm(w: Word, s: int): Word {
    w - w % 0x1_0000 + s % 0x1_0000
  }

  /** get_imm masked with 0xffff. */
  function GetImm(w: Word): Imm16 {
    w % 0x1_0000
  }

  predicate IsOri(w: Word) { w / 0x400_0000 == ORI_OP }
  predicate IsLis(w: Word) { w / 0x400_0000 == ADDIS_OP && w / 0x1_0000 % 32 == 0 }

  /** patch_const: a new constant into the immediates of a load_const sequence. */
  function PatchConst(words: seq<Word>, y: int): (patched: seq<Word>)
    requires |words| == 5 && (IsOri(words[1]) || IsLis(words[1]))
  {
    var xa, xb, xc, xd := Sixteen(y, 3), Sixteen(y, 2), Sixteen(y, 1), Sixteen(y, 0);
    if IsOri(words[1]) then
      [SetImm(words[0], xa), SetImm(words[1], xb), words[2], SetImm(words[3], xc), SetImm(words[4], xd)]
    else
      [SetImm(words[0], xa), SetImm(words[1], xc), SetImm(words[2], xb), SetImm(words[3], xd), words[4]]
  }

  /** get_const: the constant a load_const sequence loads. */
  function GetConst(words: seq<Word>): int
    requires |words| == 5 && (IsOri(words[1]) || IsLis(words[1]))
  {
    if IsOri(words[1]) then
      ((GetImm(words[0]) * 0x1_0000 + GetImm(words[1])) * 0x1_0000 + GetImm(words[3])) * 0x1_0000 + GetImm(words[4])
    else
      ((GetImm(words[0]) * 0x1_0000 + GetImm(words[2])) * 0x1_0000 + GetImm(words[1])) * 0x1_0000 + GetImm(words[3])
  }

  lemma SetImmDForm(op: int, hi: Reg, lo: Reg, imm: Imm16, s: Imm16)
    requires 0 <= op < 64
    ensures SetImm(DForm(op, hi, lo, imm), s) == DForm(op, hi, lo, s)
    ensures GetImm(DForm(op, hi, lo, imm)) == imm
  {
  }

  /** The second word tells the two forms apart. */
  lemma FormKnown(d: Reg, x: int, tmp: OptReg)
    ensures var words := EncodeAll(Patchable(d, x, tmp));
            IsOri(words[1]) == (tmp == NoReg) && (tmp != NoReg ==> IsLis(words[1]))
  {
    if tmp == NoReg {
      DFormFields(ORI_OP, d, d, Sixteen(x, 2));
    } else {
      DFormFields(ADDIS_OP, d, 0, Sixteen(x, 1));
    }
  }

  /** Patching the emission of x with y gives, word for word, the emission of y. */
  lemma PatchedIsEmitted(d: Reg, x: int, y: int, tmp: OptReg)
    ensures var words := EncodeAll(Patchable(d, x, tmp));
            && (IsOri(words[1]) || IsLis(words[1]))
            && PatchConst(words, y) == EncodeAll(Patchable(d, y, tmp))
  {
    FormKnown(d, x, tmp);
    var xa, xb, xc, xd := Sixteen(x, 3), Sixteen(x, 2), Sixteen(x, 1), Sixteen(x, 0);
    var ya, yb, yc, yd := Sixteen(y, 3), Sixteen(y, 2), Sixteen(y, 1), Sixteen(y, 0);
    if tmp == NoReg {
      SetImmDForm(ADDIS_OP, d, 0, xa, ya);
      SetImmDForm(ORI_OP, d, d, xb, yb);
      SetImmDForm(ORIS_OP, d, d, xc, yc);
      SetImmDForm(ORI_OP, d, d, xd, yd);
    } else {
      var t := tmp.reg;
      SetImmDForm(ADDIS_OP, t, 0, xa, ya);
      SetImmDForm(ADDIS_OP, d, 0, xc, yc);
      SetImmDForm(ORI_OP, t, t, xb, yb);
      SetImmDForm(ORI_OP, d, d, xd, yd);
    }
  }

  lemma TwoChunks(y: int)
    ensures y % 0x1_0000_0000 == y / 0x1_0000 % 0x1_0000 * 0x1_0000 + y % 0x1_0000
    ensures y / 0x1_0000 / 0x1_0000 == y / 0x1_0000_0000
  {
  }

  lemma FourChunks(x: int)
    ensures ((Sixteen(x, 3) * 0x1_0000 + Sixteen(x, 2)) * 0x1_0000 + Sixteen(x, 1)) * 0x1_0000 + Sixteen(x, 0) == Wrap(x)
  {
    var x1 := x / 0x1_0000;
    var x2 := x / 0x1_0000_0000;
    TwoChunks(x);
    TwoChunks(x2);
    assert Sixteen(x, 2) == Sixteen(x1, 1) == Sixteen(x2, 0);
    assert Sixteen(x, 3) == Sixteen(x1, 2) == Sixteen(x2, 1);
    WrapHalves(x);
  }

  /** Reading back: get_const of the emission of x is x, as a doubleword. */
  lemma GetConstEmitted(d: Reg, x: int, tmp: OptReg)
    ensures var words := EncodeAll(Patchable(d, x, tmp));
            (IsOri(words[1]) || IsLis(words[1])) && GetConst(words) == Wrap(x)
  {
    FormKnown(d, x, tmp);
    FourChunks(x);
    var xa, xb, xc, xd := Sixteen(x, 3), Sixteen(x, 2), Sixteen(x, 1), Sixteen(x, 0);
    if tmp == NoReg {
      SetImmDForm(ADDIS_OP, d, 0, xa, 0);
      SetImmDForm(ORI_OP, d, d, xb, 0);
      SetImmDForm(ORIS_OP, d, d, xc, 0);
      SetImmDForm(ORI_OP, d, d, xd, 0);
    } else {
      var t := tmp.reg;
      SetImmDForm(ADDIS_OP, t, 0, xa, 0);
      SetImmDForm(ADDIS_OP, d, 0, xc, 0);
      SetImmDForm(ORI_OP, t, t, xb, 0);
      SetImmDForm(ORI_OP, d, d, xd, 0);
    }
  }

  lemma ShlOn(d: Reg, q: int, r: Regs)
    ensures Exec(Shl32(d), Set(r, d, q)) == Set(r, d, q * 0x1_0000_0000)
  {
    Shl32Effect(d, Set(r, d, q));
    WrapShl(q);
  }

  /** Adding to a register that was just set. */
  lemma Settle(x: Regs, r: Regs, d: Reg, q: int, w: int)
    requires x == Set(Set(r, d, q), d, Wrap(q) + w)
    ensures x == Set(r, d, q + w)
  {
    WrapAdd(q, w);
  }

  lemma HighClear(q: int)
    ensures Wrap(q * 0x1_0000_0000) % 0x1_0000_0000 == 0
  {
    var k := q * 0x1_0000_0000 / 0x1_0000_0000_0000_0000;
    assert Wrap(q * 0x1_0000_0000) == (q - k * 0x1_0000_0000) * 0x1_0000_0000;
  }

  lemma OrHighOn(d: Reg, q: int, v: Imm16, r: Regs)
    ensures Exec(Oris(d, d, v), Set(r, d, q * 0x1_0000_0000)) == Set(r, d, q * 0x1_0000_0000 + v * 0x1_0000)
  {
    var r1 := Set(r, d, q * 0x1_0000_0000);
    assert r1[d] % 0x1_0000_0000 == 0 by { HighClear(q); }
    OrHighEffect(d, v, r1);
    Settle(Exec(Oris(d, d, v), r1), r, d, q * 0x1_0000_0000, v * 0x1_0000);
  }

  lemma OrOn(d: Reg, q: int, v: Imm16, r: Regs)
    ensures Exec(Ori(d, d, v), Set(r, d, q * 0x1_0000)) == Set(r, d, q * 0x1_0000 + v)
  {
    var r1 := Set(r, d, q * 0x1_0000);
    assert r1[d] % 0x1_0000 == 0 by { LowClear(q); }
    OrEffect(d, v, r1);
    Settle(Exec(Ori(d, d, v), r1), r, d, q * 0x1_0000, v);
  }

  lemma LisOn(d: Reg, hi: Imm16, r: Regs)
    ensures Exec(Addis(d, 0, hi), r) == Set(r, d, SImm(hi) * 0x1_0000)
  {
    LiEffect(d, SImm(hi), r);
  }

  lemma RunFive(a: Insn, b: Insn, c: Insn, e: Insn, f: Insn, r: Regs, r1: Regs, r2: Regs, r3: Regs, r4: Regs)
    requires Exec(a, r) == r1 && Exec(b, r1) == r2 && Exec(c, r2) == r3 && Exec(e, r3) == r4
    ensures Run([a, b, c, e, f], r) == Exec(f, r4)
  {
    RunConcat([a], [b, c, e, f], r);
    RunConcat([b], [c, e, f], r1);
    RunConcat([c], [e, f], r2);
    RunConcat([e], [f], r3);
    assert [a] + [b, c, e, f] == [a, b, c, e, f];
    assert [b] + [c, e, f] == [b, c, e, f];
    assert [c] + [e, f] == [c, e, f];
    assert [e] + [f] == [e, f];
    RunOne(a, r);
    RunOne(b, r1);
    RunOne(c, r2);
    RunOne(e, r3);
    RunOne(f, r4);
  }

  lemma RunDirect(d: Reg, xa: Imm16, xb: Imm16, xc: Imm16, xd: Imm16, r: Regs)
    ensures Run([Addis(d, 0, xa), Ori(d, d, xb), Shl32(d), Oris(d, d, xc), Ori(d, d, xd)], r)
         == Set(r, d, ((SImm(xa) * 0x1_0000 + xb) * 0x1_0000 + xc) * 0x1_0000 + xd)
  {
    var a: int := SImm(xa);
    var hi: int := a * 0x1_0000 + xb;
    var mid: int := hi * 0x1_0000 + xc;
    assert Exec(Addis(d, 0, xa), r) == Set(r, d, a * 0x1_0000) by { LisOn(d, xa, r); }
    assert Exec(Ori(d, d, xb), Set(r, d, a * 0x1_0000)) == Set(r, d, hi) by { OrOn(d, a, xb, r); }
    assert Exec(Shl32(d), Set(r, d, hi)) == Set(r, d, hi * 0x1_0000_0000) by { ShlOn(d, hi, r); }
    assert Exec(Oris(d, d, xc), Set(r, d, hi * 0x1_0000_0000)) == Set(r, d, mid * 0x1_0000) by { OrHighOn(d, hi, xc, r); }
    assert Exec(Ori(d, d, xd), Set(r, d, mid * 0x1_0000)) == Set(r, d, mid * 0x1_0000 + xd) by { OrOn(d, mid, xd, r); }
    RunFive(Addis(d, 0, xa), Ori(d, d, xb), Shl32(d), Oris(d, d, xc), Ori(d, d, xd), r,
            Set(r, d, a * 0x1_0000), Set(r, d, hi), Set(r, d, hi * 0x1_0000_0000), Set(r, d, mid * 0x1_0000));
  }

  lemma RunParallel(d: Reg, t: Reg, xa: Imm16, xb: Imm16, xc: Imm16, xd: Imm16, r: Regs)
    requires d != t
    ensures Run([Addis(t, 0, xa), Addis(d, 0, xc), Ori(t, t, xb), Ori(d, d, xd), Insert32(d, t)], r)
         == Set(Set(r, t, SImm(xa) * 0x1_0000 + xb), d,
                (xc * 0x1_0000 + xd) + (xa * 0x1_0000 + xb) * 0x1_0000_0000)
  {
    var a, c := SImm(xa) * 0x1_0000, SImm(xc) * 0x1_0000;
    var hi: int, lo: int := a + xb, c + xd;
    assert Exec(Addis(t, 0, xa), r) == Set(r, t, a) by { LisOn(t, xa, r); }
    assert Exec(Addis(d, 0, xc), Set(r, t, a)) == Set(Set(r, t, a), d, c) by { LisOn(d, xc, Set(r, t, a)); }
    assert Set(Set(r, t, a), d, c) == Set(Set(r, d, c), t, a);
    assert Exec(Ori(t, t, xb), Set(Set(r, d, c), t, a)) == Set(Set(r, d, c), t, hi) by { OrOn(t, SImm(xa), xb, Set(r, d, c)); }
    assert Set(Set(r, d, c), t, hi) == Set(Set(r, t, hi), d, c);
    assert Exec(Ori(d, d, xd), Set(Set(r, t, hi), d, c)) == Set(Set(r, t, hi), d, lo) by { OrOn(d, SImm(xc), xd, Set(r, t, hi)); }
    RunFive(Addis(t, 0, xa), Addis(d, 0, xc), Ori(t, t, xb), Ori(d, d, xd), Insert32(d, t), r,
            Set(r, t, a), Set(Set(r, t, a), d, c), Set(Set(r, t, hi), d, c), Set(Set(r, t, hi), d, lo));
    HalfValue(xa, xb);
    HalfValue(xc, xd);
    InsertOn(d, t, hi, lo, xa * 0x1_0000 + xb, xc * 0x1_0000 + xd, r);
  }

  lemma InsertOn(d: Reg, t: Reg, hi: int, lo: int, h: int, l: int, r: Regs)
    requires d != t && Wrap(hi) % 0x1_0000_0000 == h && Wrap(lo) % 0x1_0000_0000 == l
    ensures Exec(Insert32(d, t), Set(Set(r, t, hi), d, lo)) == Set(Set(r, t, hi), d, l + h * 0x1_0000_0000)
  {
    var r1 := Set(Set(r, t, hi), d, lo);
    Insert32Effect(d, t, r1);
    assert Set(r1, d, l + h * 0x1_0000_0000) == Set(Set(r, t, hi), d, l + h * 0x1_0000_0000);
  }

  lemma HalfValue(hi: Imm16, lo: Imm16)
    ensures Wrap(SImm(hi) * 0x1_0000 + lo) % 0x1_0000_0000 == hi * 0x1_0000 + lo
  {
    WrapLow(SImm(hi) * 0x1_0000 + lo);
  }

  lemma DirectValue(x: int)
    ensures Wrap(((SImm(Sixteen(x, 3)) * 0x1_0000 + Sixteen(x, 2)) * 0x1_0000 + Sixteen(x, 1)) * 0x1_0000 + Sixteen(x, 0)) == Wrap(x)
  {
    var v: int := ((SImm(Sixteen(x, 3)) * 0x1_0000 + Sixteen(x, 2)) * 0x1_0000 + Sixteen(x, 1)) * 0x1_0000 + Sixteen(x, 0);
    FourChunks(x);
    WrapAdd(x, 0);
    WrapMultiple(v, if Sixteen(x, 3) < 0x8000 then 0 else 1);
  }

  lemma ParallelValue(x: int)
    ensures Wrap((Sixteen(x, 1) * 0x1_0000 + Sixteen(x, 0)) + (Sixteen(x, 3) * 0x1_0000 + Sixteen(x, 2)) * 0x1_0000_0000) == Wrap(x)
  {
    FourChunks(x);
    WrapAdd(x, 0);
  }

  /** `load_const`: both forms are five instructions and load every x exactly. */
  lemma PatchableLoads(d: Reg, x: int, tmp: OptReg, r: Regs)
    requires tmp != SomeReg(d)
    ensures Loads(Patchable(d, x, tmp), 0, d, tmp, x, r) && |Patchable(d, x, tmp)| == 5
  {
    var xa, xb, xc, xd := Sixteen(x, 3), Sixteen(x, 2), Sixteen(x, 1), Sixteen(x, 0);
    if tmp == NoReg {
      RunDirect(d, xa, xb, xc, xd, r);
      DirectValue(x);
      SetLoads(Patchable(d, x, tmp), 0, d, tmp, x, r, 0,
               ((SImm(xa) * 0x1_0000 + xb) * 0x1_0000 + xc) * 0x1_0000 + xd);
    } else {
      RunParallel(d, tmp.reg, xa, xb, xc, xd, r);
      ParallelValue(x);
      var upper: int, lower: int := xa, xc;
      SetLoads(Patchable(d, x, tmp), 0, d, tmp, x, r, SImm(xa) * 0x1_0000 + xb,
               (lower * 0x1_0000 + xd) + (upper * 0x1_0000 + xb) * 0x1_0000_0000);
    }
  }

  // ------------------------------------------------------- the code buffer

  /** The buffer the emitters append to. `insns` is what its words encode. */
  class CodeBuffer {
    var words: seq<Word>
    ghost var insns: seq<Insn>

    ghost predicate Valid()
      reads this
    {
      words == EncodeAll(insns)
    }

    constructor ()
      ensures Valid() && words == []
    {
      words, insns := [], [];
    }

    /** The processor reads the buffer back as the instructions put into it. */
    lemma Decodes()
      requires Valid()
      ensures |words| == |insns|
      ensures forall k :: 0 <= k < |insns| ==> Decode(words[k]) == Known(insns[k])
    {
      forall k | 0 <= k < |insns|
        ensures Decode(words[k]) == Known(insns[k])
      {
        DecodeEncode(insns[k]);
      }
    }

    method Emit(i: Insn)
      requires Valid()
      modifies this
      ensures Valid() && insns == old(insns) + [i]
    {
      words, insns := words + [Encode(i)], insns + [i];
    }

    /** load_const */
    method EmitConst(d: Reg, x: int, tmp: OptReg)
      requires Valid() && tmp != SomeReg(d)
      modifies this
      ensures Valid() && insns == old(insns) + Patchable(d, x, tmp)
      ensures forall r: Regs :: Loads(insns[|old(insns)|..], 0, d, tmp, x, r)
    {
      EmitPatchable(d, x, tmp);
      assert insns[|old(insns)|..] == Patchable(d, x, tmp);
      forall r: Regs
        ensures Loads(Patchable(d, x, tmp), 0, d, tmp, x, r)
      {
        PatchableLoads(d, x, tmp, r);
      }
    }

    method EmitPatchable(d: Reg, x: int, tmp: OptReg)
      requires Valid()
      modifies this
      ensures Valid() && insns == old(insns) + Patchable(d, x, tmp)
    {
      var xa, xb, xc, xd := Sixteen(x, 3), Sixteen(x, 2), Sixteen(x, 1), Sixteen(x, 0);
      if tmp == NoReg {
        Emit(Addis(d, 0, xa));
        Emit(Ori(d, d, xb));
        Emit(Shl32(d));
        Emit(Oris(d, d, xc));
        Emit(Ori(d, d, xd));
      } else {
        Emit(Addis(tmp.reg, 0, xa));
        Emit(Addis(d, 0, xc));
        Emit(Ori(tmp.reg, tmp.reg, xb));
        Emit(Ori(d, d, xd));
        Emit(Insert32(d, tmp.reg));
      }
    }

    method EmitWhen(c: bool, i: Insn)
      requires Valid()
      modifies this
      ensures Valid() && insns == old(insns) + When(c, i)
    {
      if c { Emit(i); }
    }

    /** load_const_optimized */
    method EmitOptimized(d: Reg, x: int, tmp: OptReg, rest: bool) returns (ret: int)
      requires Valid() && d != 0 && tmp != SomeReg(d)
      modifies this
      ensures Valid() && insns == old(insns) + Optimized(d, x, tmp, rest).0 && ret == Optimized(d, x, tmp, rest).1
      ensures forall r: Regs :: Loads(insns[|old(insns)|..], ret, d, tmp, x, r)
      ensures |insns| <= |old(insns)| + 5 && IsSimm(ret) && (!rest ==> ret == 0)
    {
      ret := EmitChunks(d, x, tmp, rest);
      assert insns[|old(insns)|..] == Optimized(d, x, tmp, rest).0;
      forall r: Regs
        ensures Loads(Optimized(d, x, tmp, rest).0, ret, d, tmp, x, r)
                && |Optimized(d, x, tmp, rest).0| <= 5 && IsSimm(ret) && (!rest ==> ret == 0)
      {
        OptimizedLoads(d, x, tmp, rest, r);
      }
      OptimizedLoads(d, x, tmp, rest, seq(32, i => 0));
    }

    method EmitChunks(d: Reg, x: int, tmp: OptReg, rest: bool) returns (ret: int)
      requires Valid()
      modifies this
      ensures Valid() && insns == old(insns) + Optimized(d, x, tmp, rest).0 && ret == Optimized(d, x, tmp, rest).1
    {
      var rem := x;
      var xd := Chunk(rem);
      rem := Rest(rem);
      if rem == 0 {
        Emit(Li(d, xd));
        return 0;
      }
      var xc := Chunk(rem);
      rem := Rest(rem);
      if rem != 0 && tmp != NoReg {
        ret := EmitViaTmp(d, x, tmp.reg, xc, xd, rest);
        return;
      }
      EmitAllButLast(d, rem, xc);
      if rest { return xd; }
      EmitWhen(xd != 0, AddTo(d, xd));
      return 0;
    }

    /** The branches of load_const_optimized without a temporary, up to the last chunk. */
    method EmitAllButLast(d: Reg, rem2: int, xc: int)
      requires Valid()
      modifies this
      ensures Valid() && insns == old(insns) + AllButLast(d, rem2, xc)
    {
      var rem := rem2;
      if rem == 0 {
        Emit(Lis(d, xc));
        return;
      }
      var xb := Chunk(rem);
      rem := Rest(rem);
      var xa := Chunk(rem);
      if xa != 0 {
        Emit(Lis(d, xa));
        EmitWhen(xb != 0, AddTo(d, xb));
      } else {
        Emit(Li(d, xb));
      }
      assert insns == old(insns) + UpperChunks(d, xa, xb);
      Emit(Shl32(d));
      EmitWhen(xc != 0, AddHighTo(d, xc));
    }

    /** The branch of load_const_optimized that has a temporary. */
    method EmitViaTmp(d: Reg, x: int, tmp: Reg, xc: int, xd: int, rest: bool) returns (ret: int)
      requires Valid()
      modifies this
      ensures Valid()
      ensures var returnXd := xc != 0 && rest && xd >= 0;
              && ret == (if returnXd then xd else 0)
              && insns == old(insns)
                          + (Halves(d, tmp, Chunk(x / 0x1_0000_0000_0000), Chunk(x / 0x1_0000_0000), xc, xd, !returnXd)
                             + [Insert32(d, tmp)])
    {
      var xa, xb := Chunk(x / 0x1_0000_0000_0000), Chunk(x / 0x1_0000_0000);
      var returnXd := xc != 0 && rest && xd >= 0;
      EmitHalves(d, tmp, xa, xb, xc, xd, !returnXd);
      Emit(Insert32(d, tmp));
      return if returnXd then xd else 0;
    }

    method EmitHalves(d: Reg, tmp: Reg, xa: int, xb: int, xc: int, xd: int, addXd: bool)
      requires Valid()
      modifies this
      ensures Valid() && insns == old(insns) + Halves(d, tmp, xa, xb, xc, xd, addXd)
    {
      var loadXa := xa != 0 || xb < 0;
      EmitWhen(loadXa, Lis(tmp, xa));
      EmitWhen(xc != 0, Lis(d, xc));
      EmitWhen(if loadXa then xb != 0 else true, if loadXa then OrTo(tmp, xb) else Li(tmp, xb));
      EmitWhen(if xc != 0 then addXd && xd != 0 else true, if xc != 0 then AddTo(d, xd) else Li(d, xd));
    }
  }

  /** patch_const, in place. */
  method PatchInPlace(code: array<Word>, at: nat, y: int)
    requires at + 5 <= code.Length && (IsOri(code[at + 1]) || IsLis(code[at + 1]))
    modifies code
    ensures code[..] == old(code[..at]) + PatchConst(old(code[at..at + 5]), y) + old(code[at + 5..])
  {
    ghost var p := PatchConst(code[at..at + 5], y);
    if IsOri(code[at + 1]) {
      code[at] := SetImm(code[at], Sixteen(y, 3));
      code[at + 1] := SetImm(code[at + 1], Sixteen(y, 2));
      code[at + 3] := SetImm(code[at + 3], Sixteen(y, 1));
      code[at + 4] := SetImm(code[at + 4], Sixteen(y, 0));
      assert code[at] == p[0] && code[at + 1] == p[1] && code[at + 2] == p[2] && code[at + 3] == p[3] && code[at + 4] == p[4];
    } else {
      code[at] := SetImm(code[at], Sixteen(y, 3));
      code[at + 2] := SetImm(code[at + 2], Sixteen(y, 2));
      code[at + 1] := SetImm(code[at + 1], Sixteen(y, 1));
      code[at + 3] := SetImm(code[at + 3], Sixteen(y, 0));
      assert code[at] == p[0] && code[at + 1] == p[1] && code[at + 2] == p[2] && code[at + 3] == p[3] && code[at + 4] == p[4];
    }
  }
}
