/** Receiver type profiling (interp_masm_ppc_64.cpp): the recursive emitter of
    record_klass_in_profile_helper, the code it emits, and what that code records. */
module ReceiverProfile {
  /** A branch target: the caller's `done` label, or a position in the code. */
  datatype Label = Done | To(pc: nat)

  /** One step of emitted code. Cells are numbered from the method data pointer. */
  datatype Insn =
    | Test(cell: nat, miss: Label)    // test_mdp_data_at: load the cell, go to miss unless it is the receiver
    | Bump(cell: nat)                 // increment_mdp_data_at
    | Jump(to: Label)
    | IfZero(to: Label)               // on the value loaded last
    | IfNonzero(to: Label)
    | IfReceiver(to: Label)           // when the receiver is not null
    | StoreReceiver(cell: nat)
    | LoadOne                         // counter_increment
    | StoreScratch(cell: nat)

  datatype State = State(cells: seq<int>, scratch: int, tests: nat)

  /** The layout of VirtualCallData: the shared counter, then a receiver and a count per row. */
  const TOTAL: nat := 0
  function Recv(row: nat): nat { 1 + 2 * row }
  function Count(row: nat): nat { 2 + 2 * row }
  function Size(n: nat): nat { 1 + 2 * n }

  // ---- Running the code -------------------------------------------------------------------

  predicate Forward(l: Label, pc: nat) { l.To? ==> l.pc > pc }

  /** Every branch goes forward and every cell exists. */
  predicate Ok(i: Insn, pc: nat, size: nat) {
    match i
    case Test(c, l) => c < size && Forward(l, pc)
    case Jump(l) => Forward(l, pc)
    case IfZero(l) => Forward(l, pc)
    case IfNonzero(l) => Forward(l, pc)
    case IfReceiver(l) => Forward(l, pc)
    case LoadOne => true
    case _ => i.cell < size
  }

  ghost predicate WellFormed(code: seq<Insn>, size: nat) {
    forall pc :: 0 <= pc < |code| ==> Ok(code[pc], pc, size)
  }

  function Dest(code: seq<Insn>, l: Label): nat { if l.Done? then |code| else l.pc }

  /** Runs from pc to the end of the code, where `done` is bound. */
  ghost function Run(code: seq<Insn>, pc: nat, r: int, s: State): (s': State)
    requires WellFormed(code, |s.cells|)
    ensures |s'.cells| == |s.cells|
    decreases |code| - pc
  {
    if pc >= |code| then s
    else
      assert Ok(code[pc], pc, |s.cells|);
      match code[pc]
      case Test(c, l) =>
        var t := s.(scratch := s.cells[c], tests := s.tests + 1);
        if s.cells[c] == r then Run(code, pc + 1, r, t) else Run(code, Dest(code, l), r, t)
      case Bump(c) => Run(code, pc + 1, r, s.(cells := s.cells[c := s.cells[c] + 1]))
      case Jump(l) => Run(code, Dest(code, l), r, s)
      case IfZero(l) => Run(code, if s.scratch == 0 then Dest(code, l) else pc + 1, r, s)
      case IfNonzero(l) => Run(code, if s.scratch != 0 then Dest(code, l) else pc + 1, r, s)
      case IfReceiver(l) => Run(code, if r != 0 then Dest(code, l) else pc + 1, r, s)
      case StoreReceiver(c) => Run(code, pc + 1, r, s.(cells := s.cells[c := r]))
      case LoadOne => Run(code, pc + 1, r, s.(scratch := 1))
      case StoreScratch(c) => Run(code, pc + 1, r, s.(cells := s.cells[c := s.scratch]))
  }

  // ---- The emitted code -------------------------------------------------------------------

  /** Every instruction of a piece of code is determined by where it lies: the predicates below
      say which code lies at `at`. */
  ghost predicate IsRow(code: seq<Insn>, row: nat, at: nat) {
    && at + 3 <= |code|
    && code[at] == Test(Recv(row), To(at + 3)) && code[at + 1] == Bump(Count(row)) && code[at + 2] == Jump(Done)
  }

  ghost predicate IsRowOf(code: seq<Insn>, row: nat, k: nat, at: nat)
    requires row <= k
  {
    IsRow(code, k, at + 3 * (k - row))
  }

  ghost predicate IsRows(code: seq<Insn>, row: nat, n: nat, at: nat) {
    forall k :: row <= k < n ==> IsRowOf(code, row, k, at)
  }

  function ClaimSize(start: nat): nat { if start > 0 then 4 else 3 }

  ghost predicate IsClaim(code: seq<Insn>, start: nat, at: nat) {
    && at + ClaimSize(start) <= |code|
    && code[at] == StoreReceiver(Recv(start)) && code[at + 1] == LoadOne && code[at + 2] == StoreScratch(Count(start))
    && (start > 0 ==> code[at + 3] == Jump(Done))
  }

  function LastSize(virtual: bool): nat { if virtual then 3 else 1 }

  ghost predicate IsLast(code: seq<Insn>, at: nat, virtual: bool) {
    && at + LastSize(virtual) <= |code|
    && if virtual then code[at] == IfZero(To(at + 3)) && code[at + 1] == Bump(TOTAL) && code[at + 2] == Jump(Done)
       else code[at] == IfNonzero(Done)
  }

  function LevelSize(n: nat, start: nat, virtual: bool): nat
    requires start < n
    decreases n - start
  {
    ClaimSize(start) +
    if start == n - 1 then 3 + LastSize(virtual)
    else 4 + LevelSize(n, start + 1, virtual) + 3 * (n - start - 1)
  }

  /** The code of the helper for rows start, ..., n - 1. */
  ghost predicate IsLevel(code: seq<Insn>, n: nat, start: nat, at: nat, virtual: bool)
    requires start < n
    decreases n - start, 1
  {
    if start == n - 1 then
      && IsRow(code, start, at)
      && IsLast(code, at + 3, virtual)
      && IsClaim(code, start, at + 3 + LastSize(virtual))
    else
      && IsLevelUpTo(code, n, start, n, at, virtual)
      && IsClaim(code, start, Found(n, start, at, virtual) + 3 * (n - start - 1))
  }

  /** Where found_null is bound. */
  function Found(n: nat, start: nat, at: nat, virtual: bool): nat
    requires start < n - 1
  {
    at + 4 + LevelSize(n, start + 1, virtual)
  }

  /** The same up to row `row` of the loop. */
  ghost predicate IsLevelUpTo(code: seq<Insn>, n: nat, start: nat, row: nat, at: nat, virtual: bool)
    requires start < n - 1 && start < row <= n
    decreases n - start, 0
  {
    var found := Found(n, start, at, virtual);
    && found + 3 * (row - start - 1) <= |code|
    && IsRow(code, start, at)
    && code[at + 3] == IfZero(To(found))
    && IsLevel(code, n, start + 1, at + 4, virtual)
    && IsRows(code, start + 1, row, found)
  }

  ghost predicate IsRecord(code: seq<Insn>, n: nat, at: nat, virtual: bool) {
    if n == 0 then
      if virtual then |code| == at + 1 && code[at] == Bump(TOTAL) else |code| == at
    else
      |code| == at + LevelSize(n, 0, virtual) && IsLevel(code, n, 0, at, virtual)
  }

  /** profile_virtual_call, once there is a method data pointer. */
  ghost predicate IsVirtualCall(code: seq<Insn>, n: nat, canBeNull: bool) {
    if canBeNull then
      |code| >= 3 && code[..3] == [IfReceiver(To(3)), Bump(TOTAL), Jump(Done)] && IsRecord(code, n, 3, true)
    else
      IsRecord(code, n, 0, true)
  }

  /** The two hold the same instructions from lo to hi. */
  ghost predicate Agree(code: seq<Insn>, code': seq<Insn>, lo: nat, hi: nat) {
    hi <= |code| && hi <= |code'| && forall i :: lo <= i < hi ==> code'[i] == code[i]
  }

  /** Code is not disturbed by what happens elsewhere in the buffer. */
  lemma {:induction false} LevelStays(code: seq<Insn>, code': seq<Insn>, n: nat, start: nat, at: nat, virtual: bool)
    requires start < n && IsLevel(code, n, start, at, virtual)
    requires Agree(code, code', at, at + LevelSize(n, start, virtual))
    ensures IsLevel(code', n, start, at, virtual)
    decreases n - start, 1
  {
    if start < n - 1 {
      LevelUpToStays(code, code', n, start, n, at, virtual);
    }
  }

  lemma {:induction false} LevelUpToStays(code: seq<Insn>, code': seq<Insn>, n: nat, start: nat, row: nat, at: nat, virtual: bool)
    requires start < n - 1 && start < row <= n && IsLevelUpTo(code, n, start, row, at, virtual)
    requires Agree(code, code', at, Found(n, start, at, virtual) + 3 * (row - start - 1))
    ensures IsLevelUpTo(code', n, start, row, at, virtual)
    decreases n - start, 0
  {
    var first, found := start + 1, Found(n, start, at, virtual);
    LevelStays(code, code', n, first, at + 4, virtual);
    forall k | first <= k < row
      ensures IsRowOf(code', first, k, found)
    {
      assert IsRowOf(code, first, k, found);
    }
  }

  /** The first turn of the row loop. */
  lemma FirstRow(code: seq<Insn>, code': seq<Insn>, n: nat, start: nat, at: nat, virtual: bool)
    requires start < n - 1 && |code| == at + 3 && IsRow(code, start, at)
    requires |code'| == Found(n, start, at, virtual) && Agree(code, code', 0, |code|)
    requires code'[at + 3] == IfZero(To(|code'|)) && IsLevel(code', n, start + 1, at + 4, virtual)
    ensures IsLevelUpTo(code', n, start, start + 1, at, virtual)
  {
  }

  /** One more turn of the row loop. */
  lemma NextRow(code: seq<Insn>, code': seq<Insn>, n: nat, start: nat, row: nat, at: nat, virtual: bool)
    requires start < n - 1 && start < row < n && IsLevelUpTo(code, n, start, row, at, virtual)
    requires |code| == Found(n, start, at, virtual) + 3 * (row - start - 1)
    requires Agree(code, code', 0, |code|) && IsRow(code', row, |code|)
    ensures IsLevelUpTo(code', n, start, row + 1, at, virtual)
  {
    LevelUpToStays(code, code', n, start, row, at, virtual);
    assert IsRowOf(code', start + 1, row, Found(n, start, at, virtual));
  }

  lemma LastRow(code: seq<Insn>, code': seq<Insn>, n: nat, start: nat, at: nat, virtual: bool)
    requires start < n - 1 && IsLevelUpTo(code, n, start, n, at, virtual)
    requires |code| == Found(n, start, at, virtual) + 3 * (n - start - 1)
    requires Agree(code, code', 0, |code|) && IsClaim(code', start, |code|)
    ensures IsLevel(code', n, start, at, virtual)
  {
    LevelUpToStays(code, code', n, start, n, at, virtual);
  }

  /** The emitter. A label is bound by patching the branch that was waiting for it. */
  class Emitter {
    var code: seq<Insn>
    const n: nat          // TypeProfileWidth
    const virtual: bool

    constructor (n: nat, virtual: bool)
      ensures this.n == n && this.virtual == virtual && code == []
    {
      this.n, this.virtual, code := n, virtual, [];
    }

    /** The buffer only grew. */
    twostate predicate Appended(size: nat)
      reads this
    {
      |code| == |old(code)| + size && Agree(old(code), code, 0, |old(code)|)
    }

    method EmitRow(row: nat)
      modifies this
      ensures Appended(3) && IsRow(code, row, |old(code)|)
    {
      var at := |code|;
      code := code + [Test(Recv(row), Done), Bump(Count(row)), Jump(Done)];
      code := code[at := Test(Recv(row), To(|code|))];
    }

    method EmitLast()
      modifies this
      ensures Appended(LastSize(virtual)) && IsLast(code, |old(code)|, virtual)
    {
      var at := |code|;
      if virtual {
        code := code + [IfZero(Done), Bump(TOTAL), Jump(Done)];
        code := code[at := IfZero(To(|code|))];
      } else {
        code := code + [IfNonzero(Done)];
      }
    }

    method EmitClaim(start: nat)
      modifies this
      ensures Appended(ClaimSize(start)) && IsClaim(code, start, |old(code)|)
    {
      code := code + [StoreReceiver(Recv(start)), LoadOne, StoreScratch(Count(start))];
      if start > 0 {
        code := code + [Jump(Done)];
      }
    }

    /** After the first row: the case 3 tests of the other rows, up to the label found_null. */
    method EmitInner(start: nat)
      requires start + 1 < n && |code| >= 3 && IsRow(code, start, |code| - 3)
      modifies this
      ensures Appended(1 + LevelSize(n, start + 1, virtual))
      ensures IsLevelUpTo(code, n, start, start + 1, |old(code)| - 3, virtual)
      decreases n - start, 0
    {
      var at := |code|;
      code := code + [IfZero(Done)];
      EmitLevel(start + 1);
      ghost var unbound := code;
      code := code[at := IfZero(To(|code|))];
      LevelStays(unbound, code, n, start + 1, at + 1, virtual);
      FirstRow(old(code), code, n, start, at - 3, virtual);
    }

    /** record_klass_in_profile_helper. */
    method EmitLevel(start: nat)
      requires start < n
      modifies this
      ensures Appended(LevelSize(n, start, virtual)) && IsLevel(code, n, start, |old(code)|, virtual)
      decreases n - start, 1
    {
      ghost var at := |code|;
      var row := start;
      while row < n
        invariant start <= row <= n
        invariant row == start ==> code == old(code)
        invariant row > start ==>
          && start < n - 1 && |code| == Found(n, start, at, virtual) + 3 * (row - start - 1)
          && Agree(old(code), code, 0, at) && IsLevelUpTo(code, n, start, row, at, virtual)
      {
        ghost var before := code;
        EmitRow(row);
        if row > start {
          NextRow(before, code, n, start, row, at, virtual);
        } else if start == n - 1 {
          EmitLast();
          break;
        } else {
          EmitInner(start);
        }
        row := row + 1;
      }
      ghost var before := code;
      EmitClaim(start);
      if start < n - 1 {
        LastRow(before, code, n, start, at, virtual);
      }
    }

    /** record_klass_in_profile. */
    method EmitRecord()
      modifies this
      ensures |code| >= |old(code)| && Agree(old(code), code, 0, |old(code)|)
      ensures IsRecord(code, n, |old(code)|, virtual)
    {
      if n == 0 {
        if virtual {
          code := code + [Bump(TOTAL)];
        }
      } else {
        EmitLevel(0);
      }
    }

    /** profile_virtual_call, into an empty buffer. */
    method EmitVirtualCall(canBeNull: bool)
      requires virtual && code == []
      modifies this
      ensures IsVirtualCall(code, n, canBeNull)
    {
      if canBeNull {
        code := [IfReceiver(Done), Bump(TOTAL), Jump(Done)];
        code := code[0 := IfReceiver(To(|code|))];
      }
      ghost var prefix := code;
      EmitRecord();
      assert canBeNull ==> code[..3] == prefix;
    }
  }

  // ---- The code is well formed, and how many tests it holds --------------------------------

  /** Where a level stores the receiver and the count of its first row. */
  function ClaimAt(n: nat, start: nat, at: nat, virtual: bool): nat
    requires start < n
  {
    if start == n - 1 then at + 3 + LastSize(virtual) else Found(n, start, at, virtual) + 3 * (n - start - 1)
  }

  lemma LevelParts(code: seq<Insn>, n: nat, start: nat, at: nat, virtual: bool)
    requires start < n && IsLevel(code, n, start, at, virtual)
    ensures var claim := ClaimAt(n, start, at, virtual);
            && at + LevelSize(n, start, virtual) == claim + ClaimSize(start) <= |code| && at + 3 <= claim
            && IsRow(code, start, at) && IsClaim(code, start, claim)
  {
  }

  lemma RowsOk(code: seq<Insn>, first: nat, n: nat, at: nat, pc: nat)
    requires IsRows(code, first, n, at) && first < n && at <= pc < at + 3 * (n - first)
    ensures pc < |code| && Ok(code[pc], pc, Size(n))
  {
    var k := first + (pc - at) / 3;
    assert IsRowOf(code, first, k, at);
    assert at + 3 * (k - first) <= pc < at + 3 * (k - first) + 3;
  }

  lemma {:induction false} LevelOk(code: seq<Insn>, n: nat, start: nat, at: nat, virtual: bool, pc: nat)
    requires start < n && IsLevel(code, n, start, at, virtual)
    requires at <= pc < at + LevelSize(n, start, virtual)
    ensures pc < |code| && Ok(code[pc], pc, Size(n))
    decreases n - start
  {
    LevelParts(code, n, start, at, virtual);
    if start < n - 1 && at + 4 <= pc < ClaimAt(n, start, at, virtual) {
      var found := Found(n, start, at, virtual);
      if pc < found {
        LevelOk(code, n, start + 1, at + 4, virtual, pc);
      } else {
        RowsOk(code, start + 1, n, found, pc);
      }
    }
  }

  lemma RecordOk(code: seq<Insn>, n: nat, virtual: bool)
    requires IsRecord(code, n, 0, virtual)
    ensures WellFormed(code, Size(n))
  {
    forall pc | 0 <= pc < |code|
      ensures Ok(code[pc], pc, Size(n))
    {
      if n > 0 {
        LevelOk(code, n, 0, 0, virtual, pc);
      }
    }
  }

  lemma VirtualCallOk(code: seq<Insn>, n: nat, canBeNull: bool)
    requires IsVirtualCall(code, n, canBeNull)
    ensures WellFormed(code, Size(n))
  {
    if canBeNull {
      assert code[0] == code[..3][0] && code[1] == code[..3][1] && code[2] == code[..3][2];
      forall pc | 0 <= pc < |code|
        ensures Ok(code[pc], pc, Size(n))
      {
        if pc >= 3 && n > 0 {
          LevelOk(code, n, 0, 3, true, pc);
        }
      }
    } else {
      RecordOk(code, n, true);
    }
  }

  /** How many receiver tests lie in lo, ..., hi - 1. */
  function Tests(code: seq<Insn>, lo: nat, hi: nat): nat
    requires lo <= hi <= |code|
    decreases hi - lo
  {
    if lo == hi then 0 else (if code[lo].Test? then 1 else 0) + Tests(code, lo + 1, hi)
  }

  lemma {:induction false} TestsSplit(code: seq<Insn>, lo: nat, mid: nat, hi: nat)
    requires lo <= mid <= hi <= |code|
    ensures Tests(code, lo, hi) == Tests(code, lo, mid) + Tests(code, mid, hi)
    decreases mid - lo
  {
    if lo < mid {
      TestsSplit(code, lo + 1, mid, hi);
    }
  }

  lemma {:induction false} NoTests(code: seq<Insn>, lo: nat, hi: nat)
    requires lo <= hi <= |code| && forall i :: lo <= i < hi ==> !code[i].Test?
    ensures Tests(code, lo, hi) == 0
    decreases hi - lo
  {
    if lo < hi {
      NoTests(code, lo + 1, hi);
    }
  }

  lemma OneTest(code: seq<Insn>, row: nat, at: nat)
    requires IsRow(code, row, at)
    ensures Tests(code, at, at + 3) == 1
  {
    NoTests(code, at + 1, at + 3);
  }

  lemma {:induction false} RowTests(code: seq<Insn>, first: nat, row: nat, n: nat, at: nat)
    requires first <= row <= n && at + 3 * (n - first) <= |code| && IsRows(code, first, n, at)
    ensures Tests(code, at + 3 * (row - first), at + 3 * (n - first)) == n - row
    decreases n - row
  {
    if row < n {
      assert IsRowOf(code, first, row, at);
      RowTests(code, first, row + 1, n, at);
      var pc := at + 3 * (row - first);
      TestsSplit(code, pc, pc + 3, at + 3 * (n - first));
      OneTest(code, row, pc);
    }
  }

  function Triangle(m: nat): nat { if m == 0 then 0 else m + Triangle(m - 1) }

  lemma {:induction false} TriangleIs(m: nat)
    ensures Triangle(m) == m * (m + 1) / 2
  {
    if m > 0 {
      TriangleIs(m - 1);
      assert m * (m + 1) == 2 * m + (m - 1) * m;
    }
  }

  /** Between the first row and the claim there are the tests of the inner level and of the
      other rows. */
  lemma OuterTests(code: seq<Insn>, n: nat, start: nat, at: nat, virtual: bool, inner: nat)
    requires start < n - 1 && IsLevelUpTo(code, n, start, n, at, virtual)
    requires Tests(code, at + 4, Found(n, start, at, virtual)) == inner
    ensures Tests(code, at + 3, Found(n, start, at, virtual) + 3 * (n - start - 1)) == inner + (n - start - 1)
  {
    var found := Found(n, start, at, virtual);
    TestsSplit(code, at + 4, found, found + 3 * (n - start - 1));
    RowTests(code, start + 1, start + 1, n, found);
  }

  lemma LastTests(code: seq<Insn>, at: nat, virtual: bool)
    requires IsLast(code, at, virtual)
    ensures Tests(code, at, at + LastSize(virtual)) == 0
  {
    NoTests(code, at, at + LastSize(virtual));
  }

  /** The tests between the first row of a level and its claim. */
  lemma {:induction false} BodyTests(code: seq<Insn>, n: nat, start: nat, at: nat, virtual: bool)
    requires start < n && IsLevel(code, n, start, at, virtual)
    ensures at + 3 <= ClaimAt(n, start, at, virtual) <= |code|
    ensures Tests(code, at + 3, ClaimAt(n, start, at, virtual)) == n - start - 1 + Triangle(n - start - 1)
    decreases n - start, 0
  {
    if start == n - 1 {
      LastTests(code, at + 3, virtual);
    } else {
      LevelTests(code, n, start + 1, at + 4, virtual);
      OuterTests(code, n, start, at, virtual, Triangle(n - start - 1));
    }
  }

  /** A helper for m rows emits m + (m - 1) + ... + 1 receiver tests. */
  lemma {:induction false} LevelTests(code: seq<Insn>, n: nat, start: nat, at: nat, virtual: bool)
    requires start < n && IsLevel(code, n, start, at, virtual)
    ensures at + LevelSize(n, start, virtual) <= |code|
    ensures Tests(code, at, at + LevelSize(n, start, virtual)) == Triangle(n - start)
    decreases n - start, 1
  {
    BodyTests(code, n, start, at, virtual);
    LevelParts(code, n, start, at, virtual);
    var claim := ClaimAt(n, start, at, virtual);
    FrameTests(code, start, at, claim, claim + ClaimSize(start));
  }

  lemma FrameTests(code: seq<Insn>, start: nat, at: nat, claim: nat, end: nat)
    requires at + 3 <= claim && IsRow(code, start, at) && IsClaim(code, start, claim) && end == claim + ClaimSize(start)
    ensures Tests(code, at, end) == 1 + Tests(code, at + 3, claim)
  {
    TestsSplit(code, at, claim, end);
    NoTests(code, claim, end);
    TestsSplit(code, at, at + 3, claim);
    OneTest(code, start, at);
  }

  // ---- What the code does -----------------------------------------------------------------

  /** The first of rows row, ..., n - 1 that holds v, or n. */
  function First(cells: seq<int>, v: int, row: nat, n: nat): (m: nat)
    requires row <= n && |cells| == Size(n)
    ensures row <= m <= n && (m < n ==> cells[Recv(m)] == v)
    ensures forall k :: row <= k < m ==> cells[Recv(k)] != v
    decreases n - row
  {
    if row == n || cells[Recv(row)] == v then row else First(cells, v, row + 1, n)
  }

  function Increment(cells: seq<int>, c: nat): seq<int>
    requires c < |cells|
  {
    cells[c := cells[c] + 1]
  }

  /** The bounded table, from row `start` on: a matching row is counted, or else the first empty
      row is claimed, or else a virtual call is counted as polymorphic. */
  function Recorded(cells: seq<int>, n: nat, start: nat, r: int, virtual: bool): seq<int>
    requires start <= n && |cells| == Size(n)
  {
    var m, e := First(cells, r, start, n), First(cells, 0, start, n);
    if m < n then Increment(cells, Count(m))
    else if e < n then cells[Recv(e) := r][Count(e) := 1]
    else if virtual then Increment(cells, TOTAL)
    else cells
  }

  function Searched(cells: seq<int>, n: nat, start: nat, r: int): nat
    requires start <= n && |cells| == Size(n)
  {
    var m := First(cells, r, start, n);
    m - start + if m < n then 1 else 0
  }

  lemma HitRun(code: seq<Insn>, row: nat, at: nat, r: int, s: State)
    requires WellFormed(code, |s.cells|) && IsRow(code, row, at) && Count(row) < |s.cells| && s.cells[Recv(row)] == r
    ensures Run(code, at, r, s) == State(Increment(s.cells, Count(row)), r, s.tests + 1)
  {
    var t := s.(scratch := r, tests := s.tests + 1);
    var u := t.(cells := Increment(s.cells, Count(row)));
    assert Run(code, at + 2, r, u) == Run(code, |code|, r, u);
    assert Run(code, at + 1, r, t) == Run(code, at + 2, r, u);
  }

  lemma MissRun(code: seq<Insn>, row: nat, at: nat, r: int, s: State)
    requires WellFormed(code, |s.cells|) && IsRow(code, row, at) && Count(row) < |s.cells| && s.cells[Recv(row)] != r
    ensures Run(code, at, r, s) == Run(code, at + 3, r, State(s.cells, s.cells[Recv(row)], s.tests + 1))
  {
  }

  lemma {:induction false} RowsRun(code: seq<Insn>, first: nat, row: nat, n: nat, at: nat, r: int, s: State) returns (x: int)
    requires WellFormed(code, |s.cells|) && |s.cells| == Size(n) && first <= row <= n && IsRows(code, first, n, at)
    ensures var m := First(s.cells, r, row, n);
            var s' := Run(code, at + 3 * (row - first), r, s);
            if m < n then s' == State(Increment(s.cells, Count(m)), r, s.tests + m - row + 1)
            else s' == Run(code, at + 3 * (n - first), r, State(s.cells, x, s.tests + n - row))
    decreases n - row
  {
    if row == n {
      x := s.scratch;
    } else {
      assert IsRowOf(code, first, row, at);
      var pc := at + 3 * (row - first);
      if s.cells[Recv(row)] == r {
        HitRun(code, row, pc, r, s);
        x := r;
      } else {
        var t := State(s.cells, s.cells[Recv(row)], s.tests + 1);
        MissRun(code, row, pc, r, s);
        x := RowsRun(code, first, row + 1, n, at, r, t);
      }
    }
  }

  lemma ClaimRun(code: seq<Insn>, start: nat, at: nat, r: int, s: State)
    requires WellFormed(code, |s.cells|) && IsClaim(code, start, at) && Count(start) < |s.cells|
    requires start > 0 || at + ClaimSize(start) == |code|
    ensures Run(code, at, r, s) == State(s.cells[Recv(start) := r][Count(start) := 1], 1, s.tests)
  {
    var t := s.(cells := s.cells[Recv(start) := r]);
    var u := t.(scratch := 1);
    var v := u.(cells := u.cells[Count(start) := 1]);
    assert Run(code, at + 3, r, v) == v;
    assert Run(code, at + 2, r, u) == v;
    assert Run(code, at + 1, r, t) == v;
  }

  /** A level is entered when no earlier row matched or was empty. */
  lemma {:induction false} LevelRun(code: seq<Insn>, n: nat, start: nat, at: nat, virtual: bool, r: int, s: State)
    requires start < n && IsLevel(code, n, start, at, virtual) && |s.cells| == Size(n) && WellFormed(code, |s.cells|)
    requires r != 0 && (start > 0 || at + LevelSize(n, start, virtual) == |code|)
    ensures var s' := Run(code, at, r, s);
            && s'.cells == Recorded(s.cells, n, start, r, virtual)
            && s'.tests == s.tests + Searched(s.cells, n, start, r)
    decreases n - start
  {
    var found := s.cells[Recv(start)];
    if found == r {
      HitRun(code, start, at, r, s);
    } else {
      var t := State(s.cells, found, s.tests + 1);
      MissRun(code, start, at, r, s);
      if start == n - 1 {
        LastRun(code, n, start, at, virtual, r, t);
      } else if found != 0 {
        assert Run(code, at + 3, r, t) == Run(code, at + 4, r, t);
        LevelRun(code, n, start + 1, at + 4, virtual, r, t);
      } else {
        NullRun(code, n, start, at, virtual, r, t);
      }
    }
  }

  lemma LastRun(code: seq<Insn>, n: nat, start: nat, at: nat, virtual: bool, r: int, t: State)
    requires start == n - 1 && IsLevel(code, n, start, at, virtual) && |t.cells| == Size(n) && WellFormed(code, |t.cells|)
    requires r != 0 && (start > 0 || at + LevelSize(n, start, virtual) == |code|)
    requires t.scratch == t.cells[Recv(start)] != r
    ensures var s' := Run(code, at + 3, r, t);
            s'.cells == Recorded(t.cells, n, start, r, virtual) && s'.tests == t.tests
  {
    var claim := at + 3 + LastSize(virtual);
    if t.scratch == 0 {
      assert Run(code, at + 3, r, t) == Run(code, claim, r, t);
      ClaimRun(code, start, claim, r, t);
    } else if virtual {
      var u := t.(cells := Increment(t.cells, TOTAL));
      assert Run(code, at + 5, r, u) == Run(code, |code|, r, u);
      assert Run(code, at + 4, r, t) == Run(code, at + 5, r, u);
    } else {
      assert Run(code, at + 3, r, t) == Run(code, |code|, r, t);
    }
  }

  lemma NullRun(code: seq<Insn>, n: nat, start: nat, at: nat, virtual: bool, r: int, t: State)
    requires start < n - 1 && IsLevel(code, n, start, at, virtual) && |t.cells| == Size(n) && WellFormed(code, |t.cells|)
    requires r != 0 && (start > 0 || at + LevelSize(n, start, virtual) == |code|)
    requires t.scratch == t.cells[Recv(start)] == 0
    ensures var s' := Run(code, at + 3, r, t);
            && s'.cells == Recorded(t.cells, n, start, r, virtual)
            && s'.tests == t.tests + Searched(t.cells, n, start + 1, r)
  {
    var first, found := start + 1, Found(n, start, at, virtual);
    assert Run(code, at + 3, r, t) == Run(code, found, r, t);
    var x := RowsRun(code, first, first, n, found, r, t);
    var m := First(t.cells, r, first, n);
    if m == n {
      var claim := found + 3 * (n - first);
      ClaimRun(code, start, claim, r, State(t.cells, x, t.tests + n - first));
    }
  }

  /** The emitted decision tree behaves like the bounded table, and reads each row at most once. */
  lemma RecordRun(code: seq<Insn>, n: nat, virtual: bool, r: int, s: State)
    requires IsRecord(code, n, 0, virtual) && |s.cells| == Size(n) && r != 0
    ensures WellFormed(code, |s.cells|)
    ensures var s' := Run(code, 0, r, s);
            && s'.cells == Recorded(s.cells, n, 0, r, virtual)
            && s'.tests == s.tests + Searched(s.cells, n, 0, r) <= s.tests + n
    ensures n > 0 ==> Tests(code, 0, |code|) == n * (n + 1) / 2
  {
    RecordOk(code, n, virtual);
    if n > 0 {
      LevelRun(code, n, 0, 0, virtual, r, s);
      LevelTests(code, n, 0, 0, virtual);
      TriangleIs(n);
    } else if virtual {
      assert Run(code, 1, r, s.(cells := Increment(s.cells, TOTAL))).cells == Increment(s.cells, TOTAL);
    }
  }

  /** One profiled virtual call. */
  function Called(cells: seq<int>, n: nat, r: int): seq<int>
    requires |cells| == Size(n)
  {
    if r == 0 then Increment(cells, TOTAL) else Recorded(cells, n, 0, r, true)
  }

  lemma VirtualCallRun(code: seq<Insn>, n: nat, canBeNull: bool, r: int, s: State)
    requires IsVirtualCall(code, n, canBeNull) && |s.cells| == Size(n) && (r != 0 || canBeNull)
    ensures WellFormed(code, |s.cells|) && Run(code, 0, r, s).cells == Called(s.cells, n, r)
  {
    VirtualCallOk(code, n, canBeNull);
    if !canBeNull {
      RecordRun(code, n, true, r, s);
    } else {
      assert code[0] == code[..3][0] && code[1] == code[..3][1] && code[2] == code[..3][2];
      var u := s.(cells := Increment(s.cells, TOTAL));
      if r == 0 {
        assert Run(code, 2, r, u) == u;
        assert Run(code, 1, r, s) == u;
      } else if n > 0 {
        assert Run(code, 0, r, s) == Run(code, 3, r, s);
        LevelRun(code, n, 0, 3, true, r, s);
      } else {
        assert Run(code, 4, r, u) == u;
        assert Run(code, 0, r, s) == Run(code, 3, r, s);
      }
    }
  }

  // ---- Whole runs -------------------------------------------------------------------------

  /** The profile after the emitted code ran once for each call. */
  ghost function RunCalls(code: seq<Insn>, n: nat, calls: seq<int>): (cells: seq<int>)
    requires WellFormed(code, Size(n))
    ensures |cells| == Size(n)
  {
    if calls == [] then seq(Size(n), _ => 0)
    else
      var last := |calls| - 1;
      Run(code, 0, calls[last], State(RunCalls(code, n, calls[..last]), 0, 0)).cells
  }

  lemma {:induction false} CodeReplays(code: seq<Insn>, n: nat, canBeNull: bool, calls: seq<int>)
    requires IsVirtualCall(code, n, canBeNull) && (canBeNull || 0 !in calls)
    ensures WellFormed(code, Size(n)) && RunCalls(code, n, calls) == Replay(n, calls)
  {
    VirtualCallOk(code, n, canBeNull);
    if calls != [] {
      var last := |calls| - 1;
      assert calls[last] in calls;
      CodeReplays(code, n, canBeNull, calls[..last]);
      VirtualCallRun(code, n, canBeNull, calls[last], State(Replay(n, calls[..last]), 0, 0));
    }
  }

  /** The distinct non-null receivers in order of first appearance. */
  function Distinct(calls: seq<int>): (d: seq<int>)
  {
    if calls == [] then []
    else
      var d, r := Distinct(calls[..|calls| - 1]), calls[|calls| - 1];
      if r == 0 || r in d then d else d + [r]
  }

  lemma {:induction false} DistinctExactly(calls: seq<int>)
    ensures forall r :: r in Distinct(calls) <==> r != 0 && r in calls
    ensures forall i, j :: 0 <= i < j < |Distinct(calls)| ==> Distinct(calls)[i] != Distinct(calls)[j]
  {
    if calls != [] {
      var before, r := calls[..|calls| - 1], calls[|calls| - 1];
      assert calls == before + [r];
      DistinctExactly(before);
    }
  }

  /** The calls that are not to one of `kept`. */
  function Others(calls: seq<int>, kept: seq<int>): nat {
    if calls == [] then 0
    else Others(calls[..|calls| - 1], kept) + if calls[|calls| - 1] in kept then 0 else 1
  }

  lemma {:induction false} OthersSame(calls: seq<int>, kept: seq<int>, r: int)
    requires r !in calls
    ensures Others(calls, kept + [r]) == Others(calls, kept)
  {
    if calls != [] {
      var before, last := calls[..|calls| - 1], calls[|calls| - 1];
      assert last in calls && forall x :: x in before ==> x in calls;
      OthersSame(before, kept, r);
    }
  }

  /** The table after a run of calls. */
  function Replay(n: nat, calls: seq<int>): (cells: seq<int>)
    ensures |cells| == Size(n)
  {
    if calls == [] then seq(Size(n), _ => 0)
    else Called(Replay(n, calls[..|calls| - 1]), n, calls[|calls| - 1])
  }

  /** The receivers that got a row. */
  function Kept(n: nat, calls: seq<int>): seq<int> {
    var d := Distinct(calls);
    if |d| <= n then d else d[..n]
  }

  function Sum(cells: seq<int>, n: nat): int
    requires Size(n) <= |cells|
  {
    if n == 0 then cells[TOTAL] else Sum(cells, n - 1) + cells[Count(n - 1)]
  }

  /** Row i of the table, in terms of the calls made. */
  ghost predicate RowExact(n: nat, calls: seq<int>, cells: seq<int>, i: nat)
    requires |cells| == Size(n) && i < n
  {
    var kept := Kept(n, calls);
    if i < |kept| then cells[Recv(i)] == kept[i] && cells[Count(i)] == multiset(calls)[kept[i]]
    else cells[Recv(i)] == 0 && cells[Count(i)] == 0
  }

  /** The first n distinct receivers get a row each, in order of appearance, with exact counts;
      every other call, and every call on null, is in the shared counter; nothing is lost. */
  lemma {:induction false} ProfileExact(n: nat, calls: seq<int>)
    ensures Exact(n, calls, Replay(n, calls))
  {
    if calls == [] {
      SumZero(Replay(n, calls), n);
    } else {
      var before, r := calls[..|calls| - 1], calls[|calls| - 1];
      assert calls == before + [r];
      ProfileExact(n, before);
      var kept := Kept(n, before);
      if r in kept {
        var i :| 0 <= i < |kept| && kept[i] == r;
        HitExact(n, before, r, i, Replay(n, before));
      } else if r == 0 || |kept| >= n {
        OtherExact(n, before, r, Replay(n, before));
      } else {
        NewExact(n, before, r, Replay(n, before));
      }
    }
  }

  /** The same of the emitted code, run once per call. */
  lemma RunIsExact(code: seq<Insn>, n: nat, canBeNull: bool, calls: seq<int>)
    requires IsVirtualCall(code, n, canBeNull) && (canBeNull || 0 !in calls)
    ensures WellFormed(code, Size(n)) && Exact(n, calls, RunCalls(code, n, calls))
  {
    CodeReplays(code, n, canBeNull, calls);
    ProfileExact(n, calls);
  }

  /** Where the table is: row i in cells 2 * i + 1 and 2 * i + 2. */
  ghost predicate RowAt(d: seq<int>, calls: seq<int>, cells: seq<int>, i: nat)
    requires 2 * i + 2 < |cells|
  {
    && cells[2 * i + 1] == (if i < |d| then d[i] else 0)
    && cells[2 * i + 2] == (if i < |d| then multiset(calls)[d[i]] else 0)
  }

  /** And the shared counter in cell 0: only null is counted there as long as there are rows. */
  ghost predicate TableAt(n: nat, calls: seq<int>, cells: seq<int>) {
    var d := Distinct(calls);
    && |cells| == 2 * n + 1 && (forall i :: 0 <= i < n ==> RowAt(d, calls, cells, i))
    && (|d| <= n ==> cells[0] == multiset(calls)[0])
  }

  lemma ExactAt(n: nat, calls: seq<int>, cells: seq<int>)
    requires |cells| == Size(n) && Exact(n, calls, cells)
    ensures TableAt(n, calls, cells)
  {
    var d := Distinct(calls);
    forall i | 0 <= i < n
      ensures RowAt(d, calls, cells, i)
    {
      assert RowExact(n, calls, cells, i);
    }
    if |d| <= n { OnlyNull(calls); }
  }

  /** What the emitted code leaves in the method data, cell by cell. */
  lemma RunCells(code: seq<Insn>, n: nat, canBeNull: bool, calls: seq<int>)
    requires IsVirtualCall(code, n, canBeNull) && (canBeNull || 0 !in calls)
    ensures WellFormed(code, Size(n)) && TableAt(n, calls, RunCalls(code, n, calls))
  {
    RunIsExact(code, n, canBeNull, calls);
    ExactAt(n, calls, RunCalls(code, n, calls));
  }

  /** When every receiver has a row, only calls on null are left. */
  lemma OnlyNull(calls: seq<int>)
    ensures Others(calls, Distinct(calls)) == multiset(calls)[0]
  {
    DistinctExactly(calls);
    NullsAre(calls, Distinct(calls));
  }

  lemma {:induction false} NullsAre(calls: seq<int>, kept: seq<int>)
    requires forall r :: r in calls ==> (r in kept <==> r != 0)
    ensures Others(calls, kept) == multiset(calls)[0]
  {
    if calls != [] {
      var before, r := calls[..|calls| - 1], calls[|calls| - 1];
      assert calls == before + [r];
      assert r in calls;
      NullsAre(before, kept);
    }
  }

  lemma {:induction false} SumZero(cells: seq<int>, n: nat)
    requires Size(n) <= |cells| && forall c :: 0 <= c < |cells| ==> cells[c] == 0
    ensures Sum(cells, n) == 0
  {
    if n > 0 {
      SumZero(cells, n - 1);
    }
  }

  /** Changing one counter changes the sum by as much; receivers do not count. */
  lemma {:induction false} SumUpdate(cells: seq<int>, cells': seq<int>, n: nat, c: nat, amount: int)
    requires Size(n) <= |cells| == |cells'| && c < |cells| && c % 2 == 0
    requires cells'[c] == cells[c] + amount && forall k: nat :: Count(k) < |cells| && Count(k) != c ==> cells'[Count(k)] == cells[Count(k)]
    requires c != TOTAL ==> cells'[TOTAL] == cells[TOTAL]
    ensures Sum(cells', n) == Sum(cells, n) + if c < Size(n) then amount else 0
  {
    if n > 0 {
      SumUpdate(cells, cells', n - 1, c, amount);
    }
  }

  /** The table is right about the calls so far. */
  ghost predicate Exact(n: nat, calls: seq<int>, cells: seq<int>)
    requires |cells| == Size(n)
  {
    && (forall i :: 0 <= i < n ==> RowExact(n, calls, cells, i))
    && cells[TOTAL] == Others(calls, Kept(n, calls))
    && Sum(cells, n) == |calls|
  }

  lemma KeptFacts(n: nat, calls: seq<int>)
    ensures var kept := Kept(n, calls);
            && |kept| <= n && (|kept| < n ==> kept == Distinct(calls))
            && (forall i :: 0 <= i < |kept| ==> kept[i] != 0 && kept[i] in calls)
            && (forall i, j :: 0 <= i < j < |kept| ==> kept[i] != kept[j])
  {
    DistinctExactly(calls);
    var d := Distinct(calls);
    forall i | 0 <= i < |d|
      ensures d[i] != 0 && d[i] in calls
    {
      assert d[i] in d;
    }
  }

  /** A call whose receiver has a row. */
  lemma HitExact(n: nat, calls: seq<int>, r: int, i: nat, cells: seq<int>)
    requires |cells| == Size(n) && Exact(n, calls, cells) && i < |Kept(n, calls)| && Kept(n, calls)[i] == r
    ensures Called(cells, n, r) == Increment(cells, Count(i)) && Exact(n, calls + [r], Increment(cells, Count(i)))
  {
    KeptFacts(n, calls);
    var kept, cells', after := Kept(n, calls), Increment(cells, Count(i)), calls + [r];
    assert after[..|after| - 1] == calls;
    DistinctExactly(calls);
    assert r in Distinct(calls);
    assert Kept(n, after) == kept;
    assert r in kept;
    forall k | 0 <= k < n
      ensures RowExact(n, after, cells', k) && (cells[Recv(k)] == r ==> k == i)
    {
      assert RowExact(n, calls, cells, k);
    }
    assert RowExact(n, calls, cells, i);
    SumUpdate(cells, cells', n, Count(i), 1);
  }

  lemma KeptSame(n: nat, calls: seq<int>, r: int)
    requires r == 0 || (r !in Kept(n, calls) && |Kept(n, calls)| == n)
    ensures Kept(n, calls + [r]) == Kept(n, calls) && r !in Kept(n, calls)
  {
    assert (calls + [r])[..|calls|] == calls;
    KeptFacts(n, calls);
  }

  /** A call on null, or one for which there is no row left. */
  lemma OtherExact(n: nat, calls: seq<int>, r: int, cells: seq<int>)
    requires |cells| == Size(n) && Exact(n, calls, cells)
    requires r == 0 || (r !in Kept(n, calls) && |Kept(n, calls)| == n)
    ensures Called(cells, n, r) == Increment(cells, TOTAL) && Exact(n, calls + [r], Increment(cells, TOTAL))
  {
    KeptSame(n, calls, r);
    OtherCalled(n, calls, r, cells);
    var cells', after := Increment(cells, TOTAL), calls + [r];
    forall k | 0 <= k < n
      ensures RowExact(n, after, cells', k)
    {
      assert RowExact(n, calls, cells, k);
    }
    assert cells'[TOTAL] == Others(after, Kept(n, after)) by {
      assert after[..|calls|] == calls;
    }
    SumUpdate(cells, cells', n, TOTAL, 1);
  }

  lemma OtherCalled(n: nat, calls: seq<int>, r: int, cells: seq<int>)
    requires |cells| == Size(n) && Exact(n, calls, cells)
    requires r == 0 || (r !in Kept(n, calls) && |Kept(n, calls)| == n)
    ensures Called(cells, n, r) == Increment(cells, TOTAL)
  {
    KeptFacts(n, calls);
    forall k | 0 <= k < n
      ensures r != 0 ==> cells[Recv(k)] != r && cells[Recv(k)] != 0
    {
      assert RowExact(n, calls, cells, k);
    }
  }

  /** The first call on a receiver while there is a row left. */
  lemma NewExact(n: nat, calls: seq<int>, r: int, cells: seq<int>)
    requires |cells| == Size(n) && Exact(n, calls, cells)
    requires r != 0 && r !in Kept(n, calls) && |Kept(n, calls)| < n
    ensures Exact(n, calls + [r], Called(cells, n, r))
  {
    KeptFacts(n, calls);
    var kept, after := Kept(n, calls), calls + [r];
    var e := |kept|;
    var cells' := cells[Recv(e) := r][Count(e) := 1];
    assert after[..|after| - 1] == calls;
    assert Kept(n, after) == kept + [r];
    DistinctExactly(calls);
    OthersSame(calls, kept, r);
    assert RowExact(n, calls, cells, e);
    forall k | 0 <= k < n
      ensures RowExact(n, after, cells', k) && cells[Recv(k)] != r && (k < e ==> cells[Recv(k)] != 0)
    {
      assert RowExact(n, calls, cells, k);
    }
    assert Called(cells, n, r) == cells';
    SumUpdate(cells, cells', n, Count(e), 1);
  }
}
