/** The interpreter's stack-lock protocol: `lock_object` and `unlock_object`
    (interp_masm_ppc_64.cpp), run by any number of threads one memory access at a
    time, with the part of `ObjectSynchronizer::slow_enter` (synchronizer.cpp) that
    does not inflate. Biased locking is off. */
module ThinLock {
  import opened PpcMachine
  import opened Wrappers

  type Tid = int
  type Obj = int
  type Addr = int

  /** A BasicObjectLock: the object field and the displaced header. The thread is the one
      on whose stack the box lies; it never changes. */
  datatype Box = Box(tid: Tid, obj: Option<Obj>, header: int)

  /** Where a thread is. The emitted code is cut at its accesses to shared words and boxes;
      `fast` is false once the runtime has taken over. */
  datatype Pc =
    | Idle
    | Load(box: Addr, obj: Obj, fast: bool)            // ld displaced_header, mark
    | Store(box: Addr, obj: Obj, dh: int, fast: bool)  // std displaced_header, box
    | Cas(box: Addr, obj: Obj, dh: int, fast: bool)    // cmpxchgd mark: dh -> box
    | Test(box: Addr, obj: Obj, current: int)          // is the current header in my page?
    | Clear(box: Addr, obj: Obj)                       // std 0, box
    | Blocked(box: Addr, obj: Obj)                     // waiting in the runtime
    | ExitLoad(box: Addr)                              // ld displaced_header, box
    | ExitCas(box: Addr, dh: int)                      // cmpxchgd mark: box -> dh
    | ExitSlow(box: Addr)                              // the exit CAS failed
    | ExitFree(box: Addr)                              // std 0, box's object field

  /** A thread with the bounds of its stack. */
  datatype Thread = Thread(lo: Addr, hi: Addr, sp: Addr, pc: Pc)

  /** mark, boxes and threads are the machine; `stacks` lists for every object the boxes that
      have acquired it and not yet released it, oldest first, and `header` is the last
      unlocked mark of every object. These two only record what happened. */
  datatype State = State(
    pageBits: nat,
    mark: map<Obj, int>,
    boxes: map<Addr, Box>,
    threads: map<Tid, Thread>,
    stacks: map<Obj, seq<Addr>>,
    header: map<Obj, int>)

  datatype Action =
    | Enter(tid: Tid, box: Addr, obj: Obj)  // a free box gets the object, lock_object starts
    | Exit(tid: Tid, obj: Obj)              // unlock_object starts on the innermost box
    | Advance(tid: Tid)                     // the thread's next access
    | MoveSp(tid: Tid, sp: Addr)            // calls and returns between lock operations
    | Install(obj: Obj, mark: int)          // a hash or age is put into an unlocked mark

  predicate IsNeutral(m: int) { m % 8 == 1 }

  /** mark | unlocked_value */
  function SetUnlocked(m: int): int { if m % 2 == 1 then m else m + 1 }

  predicate OnStack(th: Thread, a: Addr) { th.lo <= a < th.hi }

  // -------------------------------------------------- the recursion test

  /** Bitwise and. */
  function And(a: nat, b: nat): nat {
    if a == 0 || b == 0 then 0
    else (if a % 2 == 1 && b % 2 == 1 then 1 else 0) + 2 * And(a / 2, b / 2)
  }

  /** (current - SP) & (~(page size - 1) | lock mask) == 0, on doublewords. */
  predicate InMyPage(current: int, sp: int, pageBits: nat)
    requires 12 <= pageBits < 64
  {
    And(Wrap(current - sp), PageMask(64, pageBits)) == 0
  }

  function PageMask(bits: nat, pageBits: nat): (m: nat)
    requires 2 <= pageBits <= bits
  {
    Pow2Mono(pageBits, bits);
    Pow2(bits) - Pow2(pageBits) + 3
  }

  lemma {:induction false} Pow2Mono(a: nat, b: nat)
    requires a <= b
    ensures Pow2(a) <= Pow2(b)
    decreases b
  {
    if a < b { Pow2Mono(a, b - 1); }
  }

  lemma {:induction false} AndOnes(x: nat, n: nat)
    requires x < Pow2(n)
    ensures And(x, Pow2(n) - 1) == x
    decreases n
  {
    if x != 0 {
      assert (Pow2(n) - 1) / 2 == Pow2(n - 1) - 1;
      AndOnes(x / 2, n - 1);
    }
  }

  lemma {:induction false} AndHigh(x: nat, k: nat, n: nat)
    requires k <= n && x < Pow2(n)
    ensures Pow2(k) <= Pow2(n)
    ensures And(x, Pow2(n) - Pow2(k)) == 0 <==> x < Pow2(k)
    decreases k
  {
    Pow2Mono(k, n);
    if k == 0 {
      AndOnes(x, n);
    } else {
      AndHigh(x / 2, k - 1, n - 1);
      assert (Pow2(n) - Pow2(k)) / 2 == Pow2(n - 1) - Pow2(k - 1);
    }
  }

  /** The mask test accepts exactly the words below the page size with clear lock bits. */
  lemma MaskTest(x: nat, k: nat, n: nat)
    requires 2 <= k <= n && x < Pow2(n)
    ensures And(x, PageMask(n, k)) == 0 <==> x < Pow2(k) && x % 4 == 0
  {
    Pow2Mono(k, n);
    var m := PageMask(n, k);
    assert Pow2(n) == 4 * Pow2(n - 2) && Pow2(k) == 4 * Pow2(k - 2);
    AndHigh(x / 4, k - 2, n - 2);
    assert m / 2 / 2 == Pow2(n - 2) - Pow2(k - 2);
    assert m % 2 == 1 && m / 2 % 2 == 1;
    assert And(x, m) == 0 <==> x % 2 == 0 && And(x / 2, m / 2) == 0;
    assert And(x / 2, m / 2) == 0 <==> x / 2 % 2 == 0 && And(x / 2 / 2, m / 2 / 2) == 0;
  }

  // ------------------------------------------------------- the invariant

  /** Stacks are apart by at least a page: their guard zones. SP is sixteen-byte aligned. */
  ghost predicate Layout(s: State) {
    && 12 <= s.pageBits < 64
    && (forall t :: t in s.threads ==>
          var th := s.threads[t];
          0 <= th.lo <= th.sp <= th.hi && th.hi + Pow2(s.pageBits) <= 0x1_0000_0000_0000_0000 && th.sp % 16 == 0)
    && (forall t, u :: t in s.threads && u in s.threads && t != u ==> Apart(s.threads[t], s.threads[u], Pow2(s.pageBits)))
    && (forall b :: b in s.boxes ==>
          s.boxes[b].tid in s.threads && OnStack(s.threads[s.boxes[b].tid], b) && b % 16 == 0)
  }

  predicate Apart(th: Thread, other: Thread, page: int) {
    th.hi + page <= other.lo || other.hi + page <= th.lo
  }

  /** What the mark word of an object and its acquired boxes look like. */
  ghost predicate LockInv(s: State, o: Obj)
    requires o in s.mark && o in s.stacks && o in s.header
  {
    var st := s.stacks[o];
    && IsNeutral(s.header[o])
    && s.mark[o] == (if st == [] then s.header[o] else st[0])
    && (forall i :: 0 <= i < |st| ==> st[i] in s.boxes)
    && (forall i :: 0 <= i < |st| ==>
          && s.boxes[st[i]].obj == Some(o)
          && s.boxes[st[i]].tid == s.boxes[st[0]].tid
          && s.boxes[st[i]].header == (if i == 0 then s.header[o] else 0))
    && (forall i, j :: 0 <= i < j < |st| ==> st[i] != st[j])
  }

  /** The box a locking thread is working on: its own, filled in, not yet acquired. */
  ghost predicate Entering(s: State, t: Tid, b: Addr, o: Obj) {
    && b in s.boxes && s.boxes[b].tid == t && s.boxes[b].obj == Some(o)
    && o in s.stacks && b !in s.stacks[o]
  }

  /** The box an unlocking thread is working on: the innermost one of its object. */
  ghost predicate Leaving(s: State, t: Tid, b: Addr) {
    && b in s.boxes && s.boxes[b].tid == t && s.boxes[b].obj.Some?
    && var o := s.boxes[b].obj.value;
       o in s.stacks && s.stacks[o] != [] && s.stacks[o][|s.stacks[o]| - 1] == b
  }

  ghost predicate OwnedBy(s: State, t: Tid, o: Obj) {
    o in s.stacks && s.stacks[o] != [] && s.stacks[o][0] in s.boxes && s.boxes[s.stacks[o][0]].tid == t
  }

  ghost predicate PcInv(s: State, t: Tid)
    requires t in s.threads
  {
    match s.threads[t].pc
    case Idle => true
    case Load(b, o, _) => Entering(s, t, b, o)
    case Store(b, o, dh, fast) => Entering(s, t, b, o) && dh % 2 == 1 && (fast || !OwnedBy(s, t, o))
    case Cas(b, o, dh, fast) =>
      Entering(s, t, b, o) && dh % 2 == 1 && s.boxes[b].header == dh && (fast || !OwnedBy(s, t, o))
    case Test(b, o, cur) =>
      && Entering(s, t, b, o)
      && (IsNeutral(cur) || (cur in s.boxes && (s.boxes[cur].tid == t ==> OwnedBy(s, t, o))))
    case Clear(b, o) => Entering(s, t, b, o) && OwnedBy(s, t, o)
    case Blocked(b, o) => Entering(s, t, b, o) && !OwnedBy(s, t, o)
    case ExitLoad(b) => Leaving(s, t, b)
    case ExitCas(b, dh) => Leaving(s, t, b) && s.boxes[b].header == dh && dh != 0
    case ExitSlow(b) => false
    case ExitFree(b) =>
      && b in s.boxes && s.boxes[b].tid == t
      && forall o :: o in s.stacks ==> b !in s.stacks[o]
  }

  ghost predicate Inv(s: State) {
    && Layout(s)
    && s.mark.Keys == s.stacks.Keys == s.header.Keys
    && (forall o :: o in s.mark ==> LockInv(s, o))
    && (forall t :: t in s.threads ==> PcInv(s, t))
  }

  /** A start: nothing locked, nobody locking. */
  ghost predicate Init(s: State) {
    && Layout(s)
    && s.mark.Keys == s.stacks.Keys && s.header == s.mark
    && (forall o :: o in s.mark ==> IsNeutral(s.mark[o]) && s.stacks[o] == [])
    && (forall t :: t in s.threads ==> s.threads[t].pc == Idle)
  }

  lemma InitInv(s: State)
    requires Init(s)
    ensures Inv(s)
  {
  }

  // ---------------------------------------------------------- the steps

  /** The words and records that the next access of thread t is about exist. */
  predicate Defined(s: State, t: Tid) {
    && t in s.threads && 12 <= s.pageBits < 64
    && match s.threads[t].pc
       case Idle => true
       case Load(_, o, _) => o in s.mark
       case Store(b, _, _, _) => b in s.boxes
       case Cas(_, o, _, _) => o in s.mark && o in s.stacks
       case Test(_, _, _) => true
       case Clear(b, o) => b in s.boxes && o in s.stacks
       case Blocked(_, _) => true
       case ExitLoad(b) => Holding(s, b)
       case ExitCas(b, _) => Holding(s, b)
       case ExitSlow(_) => true
       case ExitFree(b) => b in s.boxes
  }

  predicate Holding(s: State, b: Addr) {
    && b in s.boxes && s.boxes[b].obj.Some?
    && var o := s.boxes[b].obj.value; o in s.mark && o in s.stacks && s.stacks[o] != []
  }

  ghost predicate Enabled(s: State, a: Action) {
    match a
    case Enter(t, b, o) =>
      && t in s.threads && s.threads[t].pc == Idle && o in s.mark
      && OnStack(s.threads[t], b) && b % 16 == 0
      && (b in s.boxes ==> s.boxes[b].obj == None)
    case Exit(t, o) =>
      && t in s.threads && s.threads[t].pc == Idle && OwnedBy(s, t, o)
    case Advance(t) => Defined(s, t)
    case MoveSp(t, sp) =>
      t in s.threads && s.threads[t].pc == Idle && s.threads[t].lo <= sp <= s.threads[t].hi && sp % 16 == 0
    case Install(o, m) => o in s.mark && IsNeutral(s.mark[o]) && IsNeutral(m)
  }

  function Goto(s: State, t: Tid, pc: Pc): State
    requires t in s.threads
  {
    s.(threads := s.threads[t := s.threads[t].(pc := pc)])
  }

  function SetHeader(s: State, b: Addr, dh: int): State
    requires b in s.boxes
  {
    s.(boxes := s.boxes[b := s.boxes[b].(header := dh)])
  }

  function Acquire(s: State, b: Addr, o: Obj): State
    requires o in s.stacks
  {
    s.(stacks := s.stacks[o := s.stacks[o] + [b]])
  }

  function Release(s: State, o: Obj): State
    requires o in s.stacks && s.stacks[o] != []
  {
    s.(stacks := s.stacks[o := s.stacks[o][..|s.stacks[o]| - 1]])
  }

  /** The next access of thread t, up to the one after. */
  function Access(s: State, t: Tid): (s': State)
    requires Defined(s, t)
    ensures s'.header == s.header
  {
    var th := s.threads[t];
    match th.pc
    case Idle => s
    case Load(b, o, fast) =>
      Goto(s, t, AfterLoad(th, b, o, fast, s.mark[o]))
    case Store(b, o, dh, fast) => Goto(SetHeader(s, b, dh), t, Cas(b, o, dh, fast))
    case Cas(b, o, dh, fast) =>
      if s.mark[o] == dh then Goto(Acquire(s.(mark := s.mark[o := b]), b, o), t, Idle)
      else Goto(s, t, if fast then Test(b, o, s.mark[o]) else Blocked(b, o))
    case Test(b, o, cur) =>
      Goto(s, t, if InMyPage(cur, th.sp, s.pageBits) then Clear(b, o) else Load(b, o, false))
    case Clear(b, o) => Goto(Acquire(SetHeader(s, b, 0), b, o), t, Idle)
    case Blocked(_, _) => s
    case ExitLoad(b) =>
      var dh := s.boxes[b].header;
      if dh == 0 then Goto(Release(s, s.boxes[b].obj.value), t, ExitFree(b))
      else Goto(s, t, ExitCas(b, dh))
    case ExitCas(b, dh) =>
      var o := s.boxes[b].obj.value;
      if s.mark[o] == b then Goto(Release(s.(mark := s.mark[o := dh]), o), t, ExitFree(b))
      else Goto(s, t, ExitSlow(b))
    case ExitSlow(_) => s
    case ExitFree(b) => Goto(s.(boxes := s.boxes[b := s.boxes[b].(obj := None)]), t, Idle)
  }

  ghost function Apply(s: State, a: Action): (s': State)
    requires Enabled(s, a)
    ensures !a.Install? ==> s'.header == s.header
  {
    match a
    case Enter(t, b, o) =>
      var dh := if b in s.boxes then s.boxes[b].header else 0;
      Goto(s.(boxes := s.boxes[b := Box(t, Some(o), dh)]), t, Load(b, o, true))
    case Exit(t, o) => Goto(s, t, ExitLoad(s.stacks[o][|s.stacks[o]| - 1]))
    case Advance(t) => Access(s, t)
    case MoveSp(t, sp) => s.(threads := s.threads[t := s.threads[t].(sp := sp)])
    case Install(o, m) => s.(mark := s.mark[o := m], header := s.header[o := m])
  }

  // -------------------------------------------- every step keeps the invariant

  /** What thread t may change: its own pc, its own boxes, and the stacks of objects that
      are free or that it owns, where only its own boxes come and go. */
  ghost predicate Frame(s: State, s': State, t: Tid) {
    && s'.pageBits == s.pageBits && s'.header == s.header
    && s'.threads.Keys == s.threads.Keys
    && (forall u :: u in s.threads ==>
          s'.threads[u].lo == s.threads[u].lo && s'.threads[u].hi == s.threads[u].hi && s'.threads[u].sp == s.threads[u].sp)
    && (forall u :: u in s.threads && u != t ==> s'.threads[u] == s.threads[u])
    && s.boxes.Keys <= s'.boxes.Keys
    && (forall c :: c in s.boxes ==> s'.boxes[c].tid == s.boxes[c].tid && (s.boxes[c].tid != t ==> s'.boxes[c] == s.boxes[c]))
    && (forall c :: c in s'.boxes && c !in s.boxes ==> s'.boxes[c].tid == t && t in s.threads && OnStack(s.threads[t], c) && c % 16 == 0)
    && s'.stacks.Keys == s.stacks.Keys && s'.mark.Keys == s.mark.Keys
    && (forall o :: o in s.stacks ==> StackFrame(s, s', t, o))
  }

  ghost predicate StackFrame(s: State, s': State, t: Tid, o: Obj)
    requires o in s.stacks && o in s'.stacks
  {
    || s'.stacks[o] == s.stacks[o]
    || (&& (s.stacks[o] == [] || OwnedBy(s, t, o))
        && forall c :: c in s.boxes && s.boxes[c].tid != t ==> (c in s'.stacks[o] <==> c in s.stacks[o]))
  }

  lemma OthersKeep(s: State, s': State, t: Tid, u: Tid)
    requires Inv(s) && Frame(s, s', t) && u in s.threads && u != t
    ensures PcInv(s', u)
  {
    assert PcInv(s, u);
    forall o | o in s.stacks
      ensures (OwnedBy(s, u, o) ==> s'.stacks[o] == s.stacks[o]) && (OwnedBy(s', u, o) ==> OwnedBy(s, u, o))
      ensures forall c :: c in s.boxes && s.boxes[c].tid == u ==> (c in s'.stacks[o] <==> c in s.stacks[o])
    {
      assert StackFrame(s, s', t, o);
      NotOwnedKeeps(s, s', t, u, o);
    }
  }

  /** Another thread's step does not make u the owner. */
  lemma NotOwnedKeeps(s: State, s': State, t: Tid, u: Tid, o: Obj)
    requires Frame(s, s', t) && u != t && o in s.stacks && o in s.mark && o in s.header && LockInv(s, o)
    ensures OwnedBy(s', u, o) ==> OwnedBy(s, u, o)
  {
    assert StackFrame(s, s', t, o);
    if OwnedBy(s', u, o) {
      var c := s'.stacks[o][0];
      assert c in s'.stacks[o] && c in s.boxes;
      assert c in s.stacks[o];
      var i :| 0 <= i < |s.stacks[o]| && s.stacks[o][i] == c;
    }
  }

  lemma LayoutKeeps(s: State, s': State, t: Tid)
    requires Layout(s) && Frame(s, s', t)
    ensures Layout(s')
  {
  }

  lemma LockKeeps(s: State, s': State, o: Obj)
    requires o in s.mark && o in s.stacks && o in s.header && LockInv(s, o)
    requires o in s'.mark && o in s'.stacks && o in s'.header
    requires s'.mark[o] == s.mark[o] && s'.stacks[o] == s.stacks[o] && s'.header[o] == s.header[o]
    requires forall c :: c in s.stacks[o] ==> c in s'.boxes && c in s.boxes && s'.boxes[c] == s.boxes[c]
    ensures LockInv(s', o)
  {
    assert forall i :: 0 <= i < |s.stacks[o]| ==> s.stacks[o][i] in s.stacks[o];
  }

  /** A box holding an object that has not acquired it is on no stack. */
  lemma NotAcquired(s: State, t: Tid, b: Addr, o: Obj, other: Obj)
    requires Inv(s) && Entering(s, t, b, o) && other in s.stacks
    ensures b !in s.stacks[other]
  {
    assert LockInv(s, other);
  }

  /** A step of thread t keeps the invariant if it stays in its frame and leaves its own
      position and the marks right. */
  lemma StepInv(s: State, s': State, t: Tid)
    requires Inv(s) && t in s.threads && Frame(s, s', t)
    requires forall o :: o in s'.mark ==> LockInv(s', o)
    requires PcInv(s', t)
    ensures Inv(s')
  {
    LayoutKeeps(s, s', t);
    forall u | u in s'.threads
      ensures PcInv(s', u)
    {
      if u != t { OthersKeep(s, s', t, u); }
    }
  }

  lemma GotoInv(s: State, t: Tid, pc: Pc)
    requires Inv(s) && t in s.threads
    requires PcInv(Goto(s, t, pc), t)
    ensures Inv(Goto(s, t, pc))
  {
    var s' := Goto(s, t, pc);
    forall o | o in s'.mark
      ensures LockInv(s', o)
    {
      LockKeeps(s, s', o);
    }
    StepInv(s, s', t);
  }

  /** Writing one of its own boxes is in a thread's frame. */
  lemma HeaderFrame(s: State, t: Tid, b: Addr, dh: int, pc: Pc)
    requires t in s.threads && b in s.boxes && s.boxes[b].tid == t
    ensures Frame(s, Goto(SetHeader(s, b, dh), t, pc), t)
  {
  }

  /** So is putting a box of its own on the stack of an object that is free or its own. */
  lemma AcquireFrame(s: State, t: Tid, b: Addr, o: Obj, dh: int, mark: map<Obj, int>, pc: Pc)
    requires t in s.threads && b in s.boxes && s.boxes[b].tid == t && o in s.stacks
    requires (s.stacks[o] == [] || OwnedBy(s, t, o)) && mark.Keys == s.mark.Keys
    ensures Frame(s, Goto(Acquire(SetHeader(s.(mark := mark), b, dh), b, o), t, pc), t)
  {
    var s' := Goto(Acquire(SetHeader(s.(mark := mark), b, dh), b, o), t, pc);
    forall x | x in s.stacks
      ensures StackFrame(s, s', t, x)
    {
    }
  }

  lemma StoreInv(s: State, t: Tid, b: Addr, o: Obj, dh: int, fast: bool)
    requires Inv(s) && Defined(s, t) && s.threads[t].pc == Store(b, o, dh, fast)
    ensures Inv(Access(s, t))
  {
    assert PcInv(s, t);
    var s' := Goto(SetHeader(s, b, dh), t, Cas(b, o, dh, fast));
    forall x | x in s'.mark
      ensures LockInv(s', x)
    {
      NotAcquired(s, t, b, o, x);
      LockKeeps(s, s', x);
    }
    HeaderFrame(s, t, b, dh, Cas(b, o, dh, fast));
    StepInv(s, s', t);
  }

  /** The CAS can succeed only on a free object, and then the box has its header. */
  lemma CasInv(s: State, t: Tid, b: Addr, o: Obj, dh: int, fast: bool)
    requires Inv(s) && Defined(s, t) && s.threads[t].pc == Cas(b, o, dh, fast)
    ensures Inv(Access(s, t))
  {
    assert PcInv(s, t) && LockInv(s, o);
    if s.mark[o] == dh {
      assert s.stacks[o] == [];
      var s' := Goto(Acquire(s.(mark := s.mark[o := b]), b, o), t, Idle);
      forall x | x in s'.mark
        ensures LockInv(s', x)
      {
        if x != o { LockKeeps(s, s', x); }
      }
      AcquireFrame(s, t, b, o, dh, s.mark[o := b], Idle);
      assert SetHeader(s.(mark := s.mark[o := b]), b, dh) == s.(mark := s.mark[o := b]);
      StepInv(s, s', t);
    } else {
      if s.stacks[o] != [] {
        assert s.mark[o] == s.stacks[o][0];
      }
      GotoInv(s, t, if fast then Test(b, o, s.mark[o]) else Blocked(b, o));
    }
  }

  lemma ClearInv(s: State, t: Tid, b: Addr, o: Obj)
    requires Inv(s) && Defined(s, t) && s.threads[t].pc == Clear(b, o)
    ensures Inv(Access(s, t))
  {
    assert PcInv(s, t) && LockInv(s, o);
    var s' := Goto(Acquire(SetHeader(s, b, 0), b, o), t, Idle);
    forall x | x in s'.mark
      ensures LockInv(s', x)
    {
      NotAcquired(s, t, b, o, x);
      if x != o { LockKeeps(s, s', x); }
    }
    AcquireFrame(s, t, b, o, 0, s.mark, Idle);
    StepInv(s, s', t);
  }

  lemma OnOwnStack(s: State, t: Tid, b: Addr)
    requires Layout(s) && t in s.threads && b in s.boxes
    requires s.threads[t].lo <= b < s.threads[t].hi + Pow2(s.pageBits)
    ensures s.boxes[b].tid == t
  {
  }

  /** Where the load of the mark leads. */
  function AfterLoad(th: Thread, b: Addr, o: Obj, fast: bool, m: int): Pc {
    if fast then Store(b, o, SetUnlocked(m), true)
    else if IsNeutral(m) then Store(b, o, m, false)
    else if m % 4 == 0 && OnStack(th, m) then Clear(b, o)
    else Blocked(b, o)
  }

  lemma SetUnlockedOdd(m: int)
    ensures SetUnlocked(m) % 2 == 1 && (IsNeutral(m) ==> m % 2 == 1)
  {
  }

  /** A mark that is an address on my stack is my own box. */
  lemma MineIfOnStack(s: State, t: Tid, o: Obj)
    requires Layout(s) && t in s.threads && o in s.mark && o in s.stacks && o in s.header && LockInv(s, o)
    requires !IsNeutral(s.mark[o]) && OnStack(s.threads[t], s.mark[o])
    ensures OwnedBy(s, t, o)
  {
    assert s.stacks[o] != [] && s.stacks[o][0] in s.boxes;
    OnOwnStack(s, t, s.mark[o]);
  }

  /** The owner finds one of its own boxes in the mark. */
  lemma OwnerSeesBox(s: State, t: Tid, o: Obj)
    requires Layout(s) && t in s.threads && o in s.mark && o in s.stacks && o in s.header && LockInv(s, o)
    requires OwnedBy(s, t, o)
    ensures !IsNeutral(s.mark[o]) && s.mark[o] % 4 == 0 && OnStack(s.threads[t], s.mark[o])
  {
    var b := s.stacks[o][0];
    assert s.mark[o] == b && b in s.boxes;
    BoxAddress(b);
  }

  lemma BoxAddress(b: Addr)
    requires b % 16 == 0
    ensures b % 4 == 0 && !IsNeutral(b)
  {
    var q := b / 16;
    assert b == 8 * (2 * q) == 4 * (4 * q);
  }

  lemma LoadInv(s: State, t: Tid, b: Addr, o: Obj, fast: bool)
    requires Inv(s) && Defined(s, t) && s.threads[t].pc == Load(b, o, fast)
    ensures Inv(Access(s, t))
  {
    assert PcInv(s, t) && LockInv(s, o);
    var m := s.mark[o];
    var next := AfterLoad(s.threads[t], b, o, fast, m);
    assert PcInv(Goto(s, t, next), t) by {
      SetUnlockedOdd(m);
      if next.Clear? {
        MineIfOnStack(s, t, o);
      } else if OwnedBy(s, t, o) {
        OwnerSeesBox(s, t, o);
      }
    }
    GotoInv(s, t, next);
  }

  lemma PageTest(current: int, sp: int, pageBits: nat)
    requires 12 <= pageBits < 64
    ensures InMyPage(current, sp, pageBits)
       <==> Wrap(current - sp) < Pow2(pageBits) && Wrap(current - sp) % 4 == 0
  {
    Pow2Values();
    MaskTest(Wrap(current - sp), pageBits, 64);
  }

  /** The recursion test: a header that passes it is the address of one of my own boxes,
      never an unlocked mark and never a box of another thread. */
  lemma RecursionTestSound(s: State, t: Tid, cur: int)
    requires Layout(s) && t in s.threads
    requires IsNeutral(cur) || cur in s.boxes
    requires InMyPage(cur, s.threads[t].sp, s.pageBits)
    ensures cur in s.boxes && s.boxes[cur].tid == t
  {
    var th := s.threads[t];
    PageTest(cur, th.sp, s.pageBits);
    if cur in s.boxes {
      var u := s.threads[s.boxes[cur].tid];
      assert 0 <= u.lo <= cur < u.hi;
      NearAbove(cur, th.sp, Pow2(s.pageBits));
      OnOwnStack(s, t, cur);
    } else {
      NeutralFails(cur, th.sp);
    }
  }

  /** Below the page size the wrapped difference is the difference. */
  lemma NearAbove(cur: int, sp: int, page: int)
    requires 0 <= cur < 0x1_0000_0000_0000_0000 && 0 <= sp && sp + page <= 0x1_0000_0000_0000_0000
    requires Wrap(cur - sp) < page
    ensures sp <= cur < sp + page
  {
    assert cur < sp ==> Wrap(cur - sp) == cur - sp + 0x1_0000_0000_0000_0000;
  }

  lemma NeutralFails(cur: int, sp: int)
    requires IsNeutral(cur) && sp % 16 == 0
    ensures Wrap(cur - sp) % 4 == 1
  {
    var q := (cur - sp) / 0x1_0000_0000_0000_0000;
    assert Wrap(cur - sp) == cur - sp - q * 0x4000_0000_0000_0000 * 4;
  }

  lemma TestInv(s: State, t: Tid, b: Addr, o: Obj, cur: int)
    requires Inv(s) && Defined(s, t) && s.threads[t].pc == Test(b, o, cur)
    ensures Inv(Access(s, t))
  {
    assert PcInv(s, t);
    var mine := InMyPage(cur, s.threads[t].sp, s.pageBits);
    AfterTestInv(s, t, b, o, cur, mine);
    GotoInv(s, t, if mine then Clear(b, o) else Load(b, o, false));
  }

  lemma AfterTestInv(s: State, t: Tid, b: Addr, o: Obj, cur: int, mine: bool)
    requires Layout(s) && t in s.threads && s.threads[t].pc == Test(b, o, cur) && PcInv(s, t)
    requires mine == InMyPage(cur, s.threads[t].sp, s.pageBits)
    ensures PcInv(Goto(s, t, if mine then Clear(b, o) else Load(b, o, false)), t)
  {
    if mine {
      RecursionTestSound(s, t, cur);
    }
  }

  /** The innermost box carries the header exactly when it is the only one. */
  lemma Innermost(s: State, t: Tid, b: Addr)
    requires Inv(s) && Leaving(s, t, b)
    ensures var o := s.boxes[b].obj.value;
            && o in s.mark && OwnedBy(s, t, o)
            && (s.boxes[b].header != 0 ==> s.stacks[o] == [b] && s.mark[o] == b && s.boxes[b].header == s.header[o])
            && (s.boxes[b].header == 0 ==> |s.stacks[o]| > 1)
  {
    var o := s.boxes[b].obj.value;
    assert LockInv(s, o);
    assert IsNeutral(s.header[o]);
  }

  lemma ExitLoadInv(s: State, t: Tid, b: Addr)
    requires Inv(s) && Defined(s, t) && s.threads[t].pc == ExitLoad(b)
    ensures Inv(Access(s, t))
  {
    assert PcInv(s, t);
    Innermost(s, t, b);
    var o := s.boxes[b].obj.value;
    if s.boxes[b].header == 0 {
      assert LockInv(s, o);
      ReleaseInv(s, t, b, o, s.mark);
    } else {
      GotoInv(s, t, ExitCas(b, s.boxes[b].header));
    }
  }

  /** Popping the innermost box, with the mark put back if it was the last. */
  lemma ReleaseInv(s: State, t: Tid, b: Addr, o: Obj, mark: map<Obj, int>)
    requires Inv(s) && t in s.threads && Leaving(s, t, b) && s.boxes[b].obj == Some(o)
    requires o in s.mark && OwnedBy(s, t, o)
    requires mark == if s.stacks[o] == [b] then s.mark[o := s.header[o]] else s.mark
    ensures Inv(Goto(Release(s.(mark := mark), o), t, ExitFree(b)))
  {
    var s' := Goto(Release(s.(mark := mark), o), t, ExitFree(b));
    assert LockInv(s, o);
    forall x | x in s'.mark
      ensures LockInv(s', x) && b !in s'.stacks[x]
    {
      assert LockInv(s, x);
      if x != o { LockKeeps(s, s', x); }
    }
    StepInv(s, s', t);
  }

  /** The exit CAS does not fail. */
  lemma ExitCasInv(s: State, t: Tid, b: Addr, dh: int)
    requires Inv(s) && Defined(s, t) && s.threads[t].pc == ExitCas(b, dh)
    ensures Inv(Access(s, t))
  {
    assert PcInv(s, t);
    Innermost(s, t, b);
    var o := s.boxes[b].obj.value;
    ReleaseInv(s, t, b, o, s.mark[o := dh]);
  }

  lemma ExitFreeInv(s: State, t: Tid, b: Addr)
    requires Inv(s) && Defined(s, t) && s.threads[t].pc == ExitFree(b)
    ensures Inv(Access(s, t))
  {
    assert PcInv(s, t);
    var s' := Goto(s.(boxes := s.boxes[b := s.boxes[b].(obj := None)]), t, Idle);
    forall x | x in s'.mark
      ensures LockInv(s', x)
    {
      LockKeeps(s, s', x);
    }
    StepInv(s, s', t);
  }

  lemma EnterInv(s: State, t: Tid, b: Addr, o: Obj)
    requires Inv(s) && Enabled(s, Enter(t, b, o))
    ensures Inv(Apply(s, Enter(t, b, o)))
  {
    var s' := Apply(s, Enter(t, b, o));
    if b in s.boxes { OnOwnStack(s, t, b); }
    forall x | x in s'.mark
      ensures LockInv(s', x) && b !in s'.stacks[x]
    {
      assert LockInv(s, x);
      LockKeeps(s, s', x);
    }
    StepInv(s, s', t);
  }

  lemma ExitInv(s: State, t: Tid, o: Obj)
    requires Inv(s) && Enabled(s, Exit(t, o))
    ensures Inv(Apply(s, Exit(t, o)))
  {
    assert LockInv(s, o);
    GotoInv(s, t, ExitLoad(s.stacks[o][|s.stacks[o]| - 1]));
  }

  lemma MoveSpInv(s: State, t: Tid, sp: Addr)
    requires Inv(s) && Enabled(s, MoveSp(t, sp))
    ensures Inv(Apply(s, MoveSp(t, sp)))
  {
    var s' := Apply(s, MoveSp(t, sp));
    forall x | x in s'.mark
      ensures LockInv(s', x)
    {
      LockKeeps(s, s', x);
    }
    forall u | u in s'.threads
      ensures PcInv(s', u)
    {
      PcKeeps(s, s', u);
    }
  }

  /** Neither an SP nor a mark matters to where a thread is. */
  lemma PcKeeps(s: State, s': State, u: Tid)
    requires u in s.threads && u in s'.threads && s'.threads[u].pc == s.threads[u].pc
    requires s'.boxes == s.boxes && s'.stacks == s.stacks && PcInv(s, u)
    ensures PcInv(s', u)
  {
  }

  lemma InstallInv(s: State, o: Obj, m: int)
    requires Inv(s) && Enabled(s, Install(o, m))
    ensures Inv(Apply(s, Install(o, m))) && s.stacks[o] == []
  {
    var s' := Apply(s, Install(o, m));
    assert LockInv(s, o);
    forall x | x in s'.mark
      ensures LockInv(s', x)
    {
      if x != o { LockKeeps(s, s', x); }
    }
    forall u | u in s'.threads
      ensures PcInv(s', u)
    {
      PcKeeps(s, s', u);
    }
  }

  /** In a state with the invariant every thread has a next access. */
  lemma NeverStuck(s: State, t: Tid)
    requires Inv(s) && t in s.threads
    ensures Defined(s, t)
  {
    assert PcInv(s, t);
    match s.threads[t].pc
    case ExitLoad(b) => Innermost(s, t, b);
    case ExitCas(b, _) => Innermost(s, t, b);
    case _ =>
  }

  lemma AccessInv(s: State, t: Tid)
    requires Inv(s) && Defined(s, t)
    ensures Inv(Access(s, t))
  {
    assert PcInv(s, t);
    match s.threads[t].pc
    case Idle =>
    case Load(b, o, fast) => LoadInv(s, t, b, o, fast);
    case Store(b, o, dh, fast) => StoreInv(s, t, b, o, dh, fast);
    case Cas(b, o, dh, fast) => CasInv(s, t, b, o, dh, fast);
    case Test(b, o, cur) => TestInv(s, t, b, o, cur);
    case Clear(b, o) => ClearInv(s, t, b, o);
    case Blocked(_, _) =>
    case ExitLoad(b) => ExitLoadInv(s, t, b);
    case ExitCas(b, dh) => ExitCasInv(s, t, b, dh);
    case ExitFree(b) => ExitFreeInv(s, t, b);
  }

  lemma ApplyInv(s: State, a: Action)
    requires Inv(s) && Enabled(s, a)
    ensures Inv(Apply(s, a))
  {
    match a
    case Enter(t, b, o) => EnterInv(s, t, b, o);
    case Exit(t, o) => ExitInv(s, t, o);
    case Advance(t) => AccessInv(s, t);
    case MoveSp(t, sp) => MoveSpInv(s, t, sp);
    case Install(o, m) => InstallInv(s, o, m);
  }

  // ------------------------------------------------------------ whole runs

  /** acts is an interleaving that can happen from s. */
  ghost predicate Runs(s: State, acts: seq<Action>)
    decreases |acts|
  {
    acts == [] || (Enabled(s, acts[0]) && Runs(Apply(s, acts[0]), acts[1..]))
  }

  ghost function Final(s: State, acts: seq<Action>): State
    requires Runs(s, acts)
    decreases |acts|
  {
    if acts == [] then s else Final(Apply(s, acts[0]), acts[1..])
  }

  lemma {:induction false} RunInv(s: State, acts: seq<Action>)
    requires Inv(s) && Runs(s, acts)
    ensures Inv(Final(s, acts))
    decreases |acts|
  {
    if acts != [] {
      ApplyInv(s, acts[0]);
      RunInv(Apply(s, acts[0]), acts[1..]);
    }
  }

  /** Every state of every interleaving from a start has the invariant, and no thread is stuck. */
  lemma Reachable(s: State, acts: seq<Action>)
    requires Init(s) && Runs(s, acts)
    ensures var f := Final(s, acts); Inv(f) && forall t :: t in f.threads ==> Defined(f, t)
  {
    InitInv(s);
    RunInv(s, acts);
    forall t | t in Final(s, acts).threads
      ensures Defined(Final(s, acts), t)
    {
      NeverStuck(Final(s, acts), t);
    }
  }

  /** Thread t has acquired o: one of the boxes on its stack has, and has not released it. */
  ghost predicate Holds(s: State, t: Tid, o: Obj) {
    t in s.threads && o in s.stacks && exists b :: b in s.stacks[o] && OnStack(s.threads[t], b)
  }

  ghost predicate Held(s: State, o: Obj) {
    o in s.stacks && s.stacks[o] != []
  }

  lemma OneHolder(f: State, o: Obj)
    requires Inv(f)
    ensures forall t, u :: Holds(f, t, o) && Holds(f, u, o) ==> t == u
    ensures o in f.mark ==> (IsNeutral(f.mark[o]) <==> !exists t :: Holds(f, t, o))
  {
    if o in f.mark {
      assert LockInv(f, o);
      forall t | Holds(f, t, o)
        ensures f.stacks[o] != [] && t == f.boxes[f.stacks[o][0]].tid
      {
        var b :| b in f.stacks[o] && OnStack(f.threads[t], b);
        OnOwnStack(f, t, b);
      }
      if f.stacks[o] != [] {
        var b := f.stacks[o][0];
        assert b in f.boxes && b in f.stacks[o];
        assert Holds(f, f.boxes[b].tid, o);
      }
    }
  }

  /** Mutual exclusion, in every interleaving of any number of threads: an object has at most
      one holder, and its mark is unlocked exactly when it has none. */
  lemma MutualExclusion(s: State, acts: seq<Action>, o: Obj)
    requires Init(s) && Runs(s, acts)
    ensures var f := Final(s, acts);
            && (forall t, u :: Holds(f, t, o) && Holds(f, u, o) ==> t == u)
            && (o in f.mark ==> (IsNeutral(f.mark[o]) <==> !exists t :: Holds(f, t, o)))
  {
    Reachable(s, acts);
    OneHolder(Final(s, acts), o);
  }

  /** Exactly one of the boxes that hold o has a displaced header: the one the mark points to. */
  ghost predicate HeaderAtMark(f: State, o: Obj) {
    && o in f.mark && o in f.header && o in f.stacks && f.mark[o] in f.stacks[o]
    && forall b :: b in f.stacks[o] ==>
         && b in f.boxes
         && (f.boxes[b].header != 0 <==> b == f.mark[o])
         && (b == f.mark[o] ==> f.boxes[b].header == f.header[o])
  }

  lemma HeldHeader(f: State, o: Obj)
    requires Inv(f) && Held(f, o)
    ensures HeaderAtMark(f, o)
  {
    assert LockInv(f, o);
  }

  /** In every interleaving: and that header is the object's last unlocked mark. */
  lemma OneDisplacedHeader(s: State, acts: seq<Action>, o: Obj)
    requires Init(s) && Runs(s, acts) && Held(Final(s, acts), o)
    ensures HeaderAtMark(Final(s, acts), o)
  {
    Reachable(s, acts);
    HeldHeader(Final(s, acts), o);
  }

  /** The exit CAS never fails: no thread ever takes the slow exit, and one that is about to
      execute the CAS finds its own box in the mark. */
  lemma ExitNeverFails(s: State, acts: seq<Action>, t: Tid)
    requires Init(s) && Runs(s, acts) && t in Final(s, acts).threads
    ensures var f := Final(s, acts);
            && !f.threads[t].pc.ExitSlow?
            && (f.threads[t].pc.ExitCas? ==>
                  var b := f.threads[t].pc.box;
                  && b in f.boxes && f.boxes[b].obj.Some?
                  && f.boxes[b].obj.value in f.mark && f.mark[f.boxes[b].obj.value] == b)
  {
    Reachable(s, acts);
    var f := Final(s, acts);
    assert PcInv(f, t);
    if f.threads[t].pc.ExitCas? {
      Innermost(f, t, f.threads[t].pc.box);
    }
  }

  /** No thread ever waits in the runtime for an object it holds. */
  lemma NeverBlocksOnOwn(s: State, acts: seq<Action>, t: Tid)
    requires Init(s) && Runs(s, acts) && t in Final(s, acts).threads && Final(s, acts).threads[t].pc.Blocked?
    ensures var f := Final(s, acts); !Holds(f, t, f.threads[t].pc.obj)
  {
    Reachable(s, acts);
    var f := Final(s, acts);
    var o := f.threads[t].pc.obj;
    assert PcInv(f, t) && LockInv(f, o);
  }

  /** o is held in every state of the run but the last. */
  ghost predicate HeldUntilEnd(s: State, acts: seq<Action>, o: Obj)
    requires Runs(s, acts)
    decreases |acts|
  {
    acts == [] || (Held(s, o) && HeldUntilEnd(Apply(s, acts[0]), acts[1..], o))
  }

  /** Only installing a new mark changes the header of an object. */
  lemma HeaderChanges(s: State, a: Action, o: Obj)
    requires Inv(s) && Enabled(s, a) && o in s.header
    ensures o in Apply(s, a).header
    ensures Apply(s, a).header[o] != s.header[o] ==> a.Install? && a.obj == o && !Held(s, o) && !Held(Apply(s, a), o)
  {
    if a.Install? {
      InstallInv(s, a.obj, a.mark);
    }
  }

  lemma {:induction false} HeldKeepsHeader(s: State, acts: seq<Action>, o: Obj)
    requires Inv(s) && Runs(s, acts) && HeldUntilEnd(s, acts, o) && o in s.header
    ensures o in Final(s, acts).header && Final(s, acts).header[o] == s.header[o]
    decreases |acts|
  {
    if acts != [] {
      ApplyInv(s, acts[0]);
      HeaderChanges(s, acts[0], o);
      HeldKeepsHeader(Apply(s, acts[0]), acts[1..], o);
    }
  }

  /** Conservation: in any interleaving, from the step that locks a free object to the step that
      frees it again, however deep the recursion and whatever other threads do in between, the
      mark that comes back is the mark that was displaced. */
  lemma RestoresHeader(start: State, before: seq<Action>, s: State, acts: seq<Action>, o: Obj)
    requires Init(start) && Runs(start, before) && s == Final(start, before)
    requires Runs(s, acts) && |acts| > 1 && o in s.mark && !Held(s, o)
    requires HeldUntilEnd(Apply(s, acts[0]), acts[1..], o) && !Held(Final(s, acts), o)
    ensures o in Final(s, acts).mark && Final(s, acts).mark[o] == s.mark[o]
  {
    Reachable(start, before);
    RunInv(s, acts);
    assert LockInv(s, o);
    HeaderChanges(s, acts[0], o);
    ApplyInv(s, acts[0]);
    HeldKeepsHeader(Apply(s, acts[0]), acts[1..], o);
    assert LockInv(Final(s, acts), o);
  }

  // ------------------------------------------------------------ progress

  /** n accesses of thread t with nobody in between. */
  function Alone(t: Tid, n: nat): seq<Action> {
    if n == 0 then [] else [Advance(t)] + Alone(t, n - 1)
  }

  /** From s, after `a` and n accesses of thread t, the state is f. */
  ghost predicate Leads(s: State, a: Action, t: Tid, n: nat, f: State) {
    var acts := [a] + Alone(t, n); Runs(s, acts) && Final(s, acts) == f
  }

  lemma Cons(s: State, a: Action, rest: seq<Action>)
    requires Enabled(s, a) && Runs(Apply(s, a), rest)
    ensures Runs(s, [a] + rest) && Final(s, [a] + rest) == Final(Apply(s, a), rest)
  {
    assert ([a] + rest)[1..] == rest;
  }

  lemma LeadsNow(s: State, a: Action, t: Tid)
    requires Enabled(s, a)
    ensures Leads(s, a, t, 0, Apply(s, a))
  {
    Cons(s, a, []);
  }

  lemma {:induction false} RunsConcat(s: State, a: seq<Action>, b: seq<Action>)
    requires Runs(s, a) && Runs(Final(s, a), b)
    ensures Runs(s, a + b) && Final(s, a + b) == Final(Final(s, a), b)
    decreases |a|
  {
    if a == [] {
      assert a + b == b;
    } else {
      assert (a + b)[1..] == a[1..] + b;
      RunsConcat(Apply(s, a[0]), a[1..], b);
    }
  }

  lemma {:induction false} AloneLast(t: Tid, n: nat)
    ensures Alone(t, n + 1) == Alone(t, n) + [Advance(t)]
  {
    if n > 0 { AloneLast(t, n - 1); }
  }

  lemma LeadsOn(s: State, a: Action, t: Tid, n: nat, f: State)
    requires Leads(s, a, t, n, f) && Defined(f, t)
    ensures Leads(s, a, t, n + 1, Access(f, t))
  {
    var acts := [a] + Alone(t, n);
    Cons(f, Advance(t), []);
    RunsConcat(s, acts, [Advance(t)]);
    AloneLast(t, n);
    assert acts + [Advance(t)] == [a] + Alone(t, n + 1);
  }

  /** Entering a box: what lock_object starts from. */
  lemma Entered(s: State, t: Tid, b: Addr, o: Obj)
    requires Inv(s) && Enabled(s, Enter(t, b, o))
    ensures var s1 := Apply(s, Enter(t, b, o));
            && Inv(s1) && Defined(s1, t) && s1.threads[t] == s.threads[t].(pc := Load(b, o, true))
            && s1.mark == s.mark && s1.stacks == s.stacks && s1.header == s.header && s1.pageBits == s.pageBits
  {
    EnterInv(s, t, b, o);
    NeverStuck(Apply(s, Enter(t, b, o)), t);
  }

  /** The load and the store before the exchange, with nobody in between. */
  lemma UpToCas(s: State, t: Tid, b: Addr, o: Obj)
    requires Inv(s) && Defined(s, t) && s.threads[t].pc == Load(b, o, true)
    ensures var s1 := Access(s, t);
            && Defined(s1, t)
            && var s2 := Access(s1, t);
               && Inv(s2) && Defined(s2, t)
               && s2.threads[t] == s.threads[t].(pc := Cas(b, o, SetUnlocked(s.mark[o]), true))
               && s2.mark == s.mark && s2.stacks == s.stacks && s2.header == s.header && s2.pageBits == s.pageBits
  {
    AccessInv(s, t);
    var s1 := Access(s, t);
    NeverStuck(s1, t);
    AccessInv(s1, t);
    NeverStuck(Access(s1, t), t);
  }

  /** The exchange takes the object exactly when the mark is the expected one. */
  lemma CasTakes(s: State, t: Tid, b: Addr, o: Obj, dh: int, fast: bool)
    requires Inv(s) && Defined(s, t) && s.threads[t].pc == Cas(b, o, dh, fast)
    ensures var s' := Access(s, t);
            if s.mark[o] == dh then !Held(s, o) && Taken(s', t, b, o, dh)
            else s' == Goto(s, t, if fast then Test(b, o, s.mark[o]) else Blocked(b, o))
  {
    assert PcInv(s, t) && LockInv(s, o);
    if s.mark[o] == dh {
      assert s.stacks[o] == [];
      assert Access(s, t).stacks[o] == [b];
    }
  }

  /** Thread t has locked o with box b, which keeps the mark that o had. */
  ghost predicate Taken(s: State, t: Tid, b: Addr, o: Obj, mark: int) {
    && t in s.threads && s.threads[t].pc == Idle
    && o in s.mark && s.mark[o] == b && o in s.stacks && s.stacks[o] == [b]
    && b in s.boxes && s.boxes[b].header == mark && s.boxes[b].tid == t
  }

  lemma NeutralIsUnlocked(m: int)
    requires IsNeutral(m)
    ensures SetUnlocked(m) == m
  {
    assert m == 2 * (4 * (m / 8)) + 1;
  }

  /** A thread that is not disturbed locks an object that nobody holds: after the load, the store
      and the exchange it is the holder, with the header in its box. */
  lemma AcquiresFree(s: State, t: Tid, b: Addr, o: Obj)
    requires Inv(s) && Enabled(s, Enter(t, b, o)) && !Held(s, o)
    ensures var acts := [Enter(t, b, o)] + Alone(t, 3);
            && Runs(s, acts)
            && var f := Final(s, acts); Taken(f, t, b, o, s.mark[o]) && Holds(f, t, o)
  {
    assert LockInv(s, o);
    NeutralIsUnlocked(s.mark[o]);
    var s1 := Apply(s, Enter(t, b, o));
    Entered(s, t, b, o);
    UpToCas(s1, t, b, o);
    var s2 := Access(s1, t);
    var s3 := Access(s2, t);
    CasTakes(s3, t, b, o, s.mark[o], true);
    LeadsNow(s, Enter(t, b, o), t);
    LeadsOn(s, Enter(t, b, o), t, 0, s1);
    LeadsOn(s, Enter(t, b, o), t, 1, s2);
    LeadsOn(s, Enter(t, b, o), t, 2, s3);
    TakenHolds(s, Access(s3, t), t, b, o);
  }

  lemma TakenHolds(s: State, f: State, t: Tid, b: Addr, o: Obj)
    requires Enabled(s, Enter(t, b, o)) && t in f.threads && f.threads[t].lo == s.threads[t].lo && f.threads[t].hi == s.threads[t].hi
    requires o in f.stacks && b in f.stacks[o]
    ensures Holds(f, t, o)
  {
    assert b in f.stacks[o] && OnStack(f.threads[t], b);
  }

  /** Is the owner's box within a page above SP? */
  predicate Near(s: State, t: Tid, o: Obj)
    requires t in s.threads && o in s.mark
  {
    s.threads[t].sp <= s.mark[o] < s.threads[t].sp + Pow2(s.pageBits)
  }

  /** For an aligned address in the address space the test is whether it is near. */
  lemma NearTest(cur: int, sp: int, pageBits: nat)
    requires 12 <= pageBits < 64 && 0 <= cur < 0x1_0000_0000_0000_0000 && cur % 4 == 0 && sp % 16 == 0
    requires 0 <= sp && sp + Pow2(pageBits) <= 0x1_0000_0000_0000_0000
    ensures InMyPage(cur, sp, pageBits) <==> sp <= cur < sp + Pow2(pageBits)
  {
    PageTest(cur, sp, pageBits);
    WrapNear(cur, sp, Pow2(pageBits));
  }

  lemma WrapNear(cur: int, sp: int, page: int)
    requires 0 <= cur < 0x1_0000_0000_0000_0000 && cur % 4 == 0 && sp % 16 == 0
    requires 0 <= sp && 0 < page && sp + page <= 0x1_0000_0000_0000_0000
    ensures Wrap(cur - sp) < page && Wrap(cur - sp) % 4 == 0 <==> sp <= cur < sp + page
  {
    if sp <= cur {
      assert Wrap(cur - sp) == cur - sp;
      Difference4(cur, sp);
    } else {
      assert Wrap(cur - sp) == cur - sp + 0x1_0000_0000_0000_0000;
    }
  }

  lemma Difference4(x: int, y: int)
    requires x % 4 == 0 && y % 16 == 0
    ensures (x - y) % 4 == 0
  {
  }

  /** The recursion test of the owner passes exactly when its box is near. */
  lemma OwnerTest(s: State, t: Tid, o: Obj)
    requires Layout(s) && t in s.threads && o in s.mark && o in s.stacks && o in s.header && LockInv(s, o) && OwnedBy(s, t, o)
    ensures InMyPage(s.mark[o], s.threads[t].sp, s.pageBits) <==> Near(s, t, o)
  {
    OwnerSeesBox(s, t, o);
    NearTest(s.mark[o], s.threads[t].sp, s.pageBits);
  }

  /** The object has one more box on its stack, and is otherwise as it was. */
  ghost predicate Deeper(s: State, f: State, t: Tid, b: Addr, o: Obj) {
    && t in f.threads && f.threads[t].pc == Idle
    && o in s.stacks && o in f.stacks && f.stacks[o] == s.stacks[o] + [b]
    && b in f.boxes && f.boxes[b].header == 0 && f.mark == s.mark
  }

  /** An owner that is not disturbed locks the object once more: by the recursion test if its
      first box is near, and in the runtime otherwise. */
  lemma Reenters(s: State, t: Tid, b: Addr, o: Obj)
    requires Inv(s) && Enabled(s, Enter(t, b, o)) && OwnedBy(s, t, o)
    ensures var acts := [Enter(t, b, o)] + Alone(t, if Near(s, t, o) then 5 else 6);
            Runs(s, acts) && Deeper(s, Final(s, acts), t, b, o)
  {
    var enter := Enter(t, b, o);
    var s1 := Apply(s, enter);
    Entered(s, t, b, o);
    UpToCas(s1, t, b, o);
    var s2 := Access(s1, t);
    var s3 := Access(s2, t);
    LeadsNow(s, enter, t);
    LeadsOn(s, enter, t, 0, s1);
    LeadsOn(s, enter, t, 1, s2);
    FailsOnOwn(s, s3, t, b, o);
    var s4 := Access(s3, t);
    LeadsOn(s, enter, t, 2, s3);
    TestOnOwn(s, s4, t, b, o);
    var s5 := Access(s4, t);
    LeadsOn(s, enter, t, 3, s4);
    if Near(s, t, o) {
      ClearTakes(s, s5, t, b, o);
      LeadsOn(s, enter, t, 4, s5);
    } else {
      SlowOnOwn(s, s5, t, b, o);
      var s6 := Access(s5, t);
      LeadsOn(s, enter, t, 4, s5);
      ClearTakes(s, s6, t, b, o);
      LeadsOn(s, enter, t, 5, s6);
    }
  }

  /** Thread t, undisturbed since s, has come to pc; only boxes have changed. */
  ghost predicate Stands(s: State, s': State, t: Tid, pc: Pc) {
    && t in s.threads && t in s'.threads && s'.threads[t] == s.threads[t].(pc := pc)
    && s'.mark == s.mark && s'.stacks == s.stacks && s'.header == s.header && s'.pageBits == s.pageBits
    && Inv(s') && Defined(s', t)
  }

  lemma FailsOnOwn(s: State, s3: State, t: Tid, b: Addr, o: Obj)
    requires Inv(s) && o in s.mark && OwnedBy(s, t, o) && Stands(s, s3, t, Cas(b, o, SetUnlocked(s.mark[o]), true))
    ensures Stands(s, Access(s3, t), t, Test(b, o, s.mark[o]))
  {
    assert LockInv(s, o);
    OwnerSeesBox(s, t, o);
    assert s.mark[o] % 2 == 0;
    CasTakes(s3, t, b, o, SetUnlocked(s.mark[o]), true);
    AccessInv(s3, t);
    NeverStuck(Access(s3, t), t);
  }

  lemma TestOnOwn(s: State, s4: State, t: Tid, b: Addr, o: Obj)
    requires Inv(s) && o in s.mark && OwnedBy(s, t, o) && Stands(s, s4, t, Test(b, o, s.mark[o]))
    ensures Stands(s, Access(s4, t), t, if Near(s, t, o) then Clear(b, o) else Load(b, o, false))
  {
    assert LockInv(s, o);
    OwnerTest(s, t, o);
    AccessInv(s4, t);
    NeverStuck(Access(s4, t), t);
  }

  lemma SlowOnOwn(s: State, s5: State, t: Tid, b: Addr, o: Obj)
    requires Inv(s) && o in s.mark && OwnedBy(s, t, o) && Stands(s, s5, t, Load(b, o, false))
    ensures Stands(s, Access(s5, t), t, Clear(b, o))
  {
    assert LockInv(s, o);
    OwnerSeesBox(s, t, o);
    AccessInv(s5, t);
    NeverStuck(Access(s5, t), t);
  }

  lemma ClearTakes(s: State, s5: State, t: Tid, b: Addr, o: Obj)
    requires Stands(s, s5, t, Clear(b, o)) && o in s.mark && o in s.stacks
    ensures Deeper(s, Access(s5, t), t, b, o)
  {
  }

  ghost predicate OthersHold(s: State, t: Tid, o: Obj) {
    t in s.threads && o in s.mark && Held(s, o) && !OwnedBy(s, t, o)
  }

  /** The mark of an object that another thread holds is that thread's box. */
  lemma OtherSeesBox(s: State, t: Tid, o: Obj)
    requires Inv(s) && OthersHold(s, t, o)
    ensures s.mark[o] in s.boxes && s.boxes[s.mark[o]].tid != t && s.mark[o] % 16 == 0
  {
    assert LockInv(s, o);
    assert s.mark[o] == s.stacks[o][0];
  }

  /** No test takes it for my own. */
  lemma OthersBox(s: State, t: Tid, b: Addr)
    requires Layout(s) && t in s.threads && b in s.boxes && s.boxes[b].tid != t
    ensures !OnStack(s.threads[t], b) && !InMyPage(b, s.threads[t].sp, s.pageBits)
  {
    if OnStack(s.threads[t], b) { OnOwnStack(s, t, b); }
    if InMyPage(b, s.threads[t].sp, s.pageBits) { RecursionTestSound(s, t, b); }
  }

  lemma EvenMark(m: int)
    requires m % 16 == 0
    ensures SetUnlocked(m) != m
  {
    assert m == 2 * (8 * (m / 16));
  }

  lemma FailsOnOther(s: State, s3: State, t: Tid, b: Addr, o: Obj)
    requires Inv(s) && OthersHold(s, t, o) && Stands(s, s3, t, Cas(b, o, SetUnlocked(s.mark[o]), true))
    ensures Stands(s, Access(s3, t), t, Test(b, o, s.mark[o]))
  {
    OtherSeesBox(s, t, o);
    EvenMark(s.mark[o]);
    CasTakes(s3, t, b, o, SetUnlocked(s.mark[o]), true);
    AccessInv(s3, t);
    NeverStuck(Access(s3, t), t);
  }

  lemma TestOnOther(s: State, s4: State, t: Tid, b: Addr, o: Obj)
    requires Inv(s) && OthersHold(s, t, o) && Stands(s, s4, t, Test(b, o, s.mark[o]))
    ensures Stands(s, Access(s4, t), t, Load(b, o, false))
  {
    OtherSeesBox(s, t, o);
    OthersBox(s, t, s.mark[o]);
    AccessInv(s4, t);
    NeverStuck(Access(s4, t), t);
  }

  lemma SlowOnOther(s: State, s5: State, t: Tid, b: Addr, o: Obj)
    requires Inv(s) && OthersHold(s, t, o) && Stands(s, s5, t, Load(b, o, false))
    ensures Stands(s, Access(s5, t), t, Blocked(b, o))
  {
    OtherSeesBox(s, t, o);
    OthersBox(s, t, s.mark[o]);
    BoxAddress(s.mark[o]);
    AccessInv(s5, t);
    NeverStuck(Access(s5, t), t);
  }

  /** A thread that is not disturbed while another holds the object ends up waiting for it, and
      neither the mark nor any lock has changed. */
  lemma WaitsForHolder(s: State, t: Tid, b: Addr, o: Obj)
    requires Inv(s) && Enabled(s, Enter(t, b, o)) && OthersHold(s, t, o)
    ensures var acts := [Enter(t, b, o)] + Alone(t, 5);
            Runs(s, acts) && Stands(s, Final(s, acts), t, Blocked(b, o))
  {
    var enter := Enter(t, b, o);
    var s1 := Apply(s, enter);
    Entered(s, t, b, o);
    UpToCas(s1, t, b, o);
    var s2 := Access(s1, t);
    var s3 := Access(s2, t);
    LeadsNow(s, enter, t);
    LeadsOn(s, enter, t, 0, s1);
    LeadsOn(s, enter, t, 1, s2);
    FailsOnOther(s, s3, t, b, o);
    var s4 := Access(s3, t);
    LeadsOn(s, enter, t, 2, s3);
    TestOnOther(s, s4, t, b, o);
    var s5 := Access(s4, t);
    LeadsOn(s, enter, t, 3, s4);
    SlowOnOther(s, s5, t, b, o);
    LeadsOn(s, enter, t, 4, s5);
  }

  ghost predicate Released(s: State, f: State, t: Tid, b: Addr, o: Obj)
    requires o in s.stacks && s.stacks[o] != []
  {
    && t in f.threads && f.threads[t].pc == Idle && b in f.boxes && f.boxes[b].obj == None
    && f.stacks == s.stacks[o := s.stacks[o][..|s.stacks[o]| - 1]]
    && o in s.mark && o in s.header && f.mark == s.mark[o := if |s.stacks[o]| == 1 then s.header[o] else s.mark[o]]
  }

  /** The state before the object field of the box is cleared. */
  ghost predicate Popped(s: State, f: State, t: Tid, b: Addr, o: Obj)
    requires o in s.stacks && s.stacks[o] != []
  {
    && t in f.threads && f.threads[t].pc == ExitFree(b) && Defined(f, t)
    && f.stacks == s.stacks[o := s.stacks[o][..|s.stacks[o]| - 1]]
    && o in s.mark && o in s.header && f.mark == s.mark[o := if |s.stacks[o]| == 1 then s.header[o] else s.mark[o]]
  }

  lemma FreeLast(s: State, f: State, t: Tid, b: Addr, o: Obj)
    requires o in s.stacks && s.stacks[o] != [] && Popped(s, f, t, b, o)
    ensures Released(s, Access(f, t), t, b, o)
  {
  }

  /** The only box of an object goes with an exchange that puts the header back. */
  lemma PopsLast(s: State, t: Tid, b: Addr, o: Obj)
    requires Inv(s) && Defined(s, t) && s.threads[t].pc == ExitLoad(b) && o in s.stacks && s.stacks[o] == [b]
    ensures var s2 := Access(s, t);
            Defined(s2, t) && Popped(s, Access(s2, t), t, b, o)
  {
    assert PcInv(s, t) && LockInv(s, o);
    Innermost(s, t, b);
    AccessInv(s, t);
    NeverStuck(Access(s, t), t);
  }

  /** Any other box only leaves the stack. */
  lemma PopsInner(s: State, t: Tid, b: Addr, o: Obj)
    requires Inv(s) && Defined(s, t) && s.threads[t].pc == ExitLoad(b)
    requires o in s.stacks && |s.stacks[o]| > 1 && s.stacks[o][|s.stacks[o]| - 1] == b
    ensures Popped(s, Access(s, t), t, b, o)
  {
    assert PcInv(s, t) && LockInv(s, o);
  }

  /** An owner that is not disturbed unlocks its innermost box: the box is free again, and if it
      was the last the mark is the displaced header. */
  lemma Releases(s: State, t: Tid, o: Obj)
    requires Inv(s) && Enabled(s, Exit(t, o))
    ensures var st := s.stacks[o];
            var b := st[|st| - 1];
            var acts := [Exit(t, o)] + Alone(t, if |st| == 1 then 3 else 2);
            Runs(s, acts) && Released(s, Final(s, acts), t, b, o)
  {
    var exit := Exit(t, o);
    var b := s.stacks[o][|s.stacks[o]| - 1];
    ExitInv(s, t, o);
    var s1 := Apply(s, exit);
    NeverStuck(s1, t);
    LeadsNow(s, exit, t);
    LeadsOn(s, exit, t, 0, s1);
    var s2 := Access(s1, t);
    if |s.stacks[o]| == 1 {
      PopsLast(s1, t, b, o);
      LeadsOn(s, exit, t, 1, s2);
      var s3 := Access(s2, t);
      FreeLast(s1, s3, t, b, o);
      LeadsOn(s, exit, t, 2, s3);
    } else {
      PopsInner(s1, t, b, o);
      FreeLast(s1, s2, t, b, o);
      LeadsOn(s, exit, t, 1, s2);
    }
  }

  /** Is a an action of thread t? */
  predicate By(a: Action, t: Tid) { !a.Install? && a.tid == t }

  lemma AccessLeaves(s: State, u: Tid, t: Tid)
    requires Defined(s, u) && t in s.threads && t != u
    ensures t in Access(s, u).threads && Access(s, u).threads[t] == s.threads[t]
  {
    match s.threads[u].pc
    case Cas(b, o, dh, fast) =>
    case ExitLoad(b) =>
    case ExitCas(b, dh) =>
    case _ =>
  }

  lemma OtherLeaves(s: State, a: Action, t: Tid)
    requires Enabled(s, a) && t in s.threads && !By(a, t)
    ensures t in Apply(s, a).threads && Apply(s, a).threads[t] == s.threads[t]
  {
    if a.Advance? { AccessLeaves(s, a.tid, t); }
  }

  lemma {:induction false} OthersLeave(s: State, acts: seq<Action>, t: Tid)
    requires Inv(s) && Runs(s, acts) && t in s.threads && forall a :: a in acts ==> !By(a, t)
    ensures var f := Final(s, acts); Inv(f) && t in f.threads && f.threads[t] == s.threads[t]
    decreases |acts|
  {
    if acts != [] {
      assert acts[0] in acts;
      ApplyInv(s, acts[0]);
      OtherLeaves(s, acts[0], t);
      OthersLeave(Apply(s, acts[0]), acts[1..], t);
    }
  }

  /** The exchange in any interleaving: whatever the other threads do between the load and the
      store, and between the store and the exchange, the object is taken if and only if its mark
      then is the one that was loaded, unlocked. Otherwise the thread goes on to the recursion
      test, or waits if it is already in the runtime. */
  lemma Exchange(s: State, t: Tid, b: Addr, o: Obj, fast: bool, first: seq<Action>, second: seq<Action>)
    requires Inv(s) && Defined(s, t) && s.threads[t].pc == Load(b, o, fast) && (fast || IsNeutral(s.mark[o]))
    requires Runs(Access(s, t), first) && (forall a :: a in first ==> !By(a, t))
    requires Defined(Final(Access(s, t), first), t) && Runs(Access(Final(Access(s, t), first), t), second)
    requires forall a :: a in second ==> !By(a, t)
    ensures var f := Final(Access(Final(Access(s, t), first), t), second);
            && Defined(f, t) && o in f.mark
            && var g := Access(f, t);
               if f.mark[o] == SetUnlocked(s.mark[o]) then !Held(f, o) && Taken(g, t, b, o, f.mark[o])
               else g == Goto(f, t, if fast then Test(b, o, f.mark[o]) else Blocked(b, o))
  {
    var dh := SetUnlocked(s.mark[o]);
    if !fast { NeutralIsUnlocked(s.mark[o]); }
    AccessInv(s, t);
    var s1 := Access(s, t);
    OthersLeave(s1, first, t);
    var s2 := Final(s1, first);
    AccessInv(s2, t);
    var s3 := Access(s2, t);
    OthersLeave(s3, second, t);
    var f := Final(s3, second);
    NeverStuck(f, t);
    CasTakes(f, t, b, o, dh, fast);
  }

  /** A step makes a thread wait only if another thread holds the object, or if the exchange in
      the runtime found another mark than the one it expected. */
  lemma BlocksOnlyIf(s: State, t: Tid)
    requires Inv(s) && Defined(s, t) && !s.threads[t].pc.Blocked? && Access(s, t).threads[t].pc.Blocked?
    ensures var pc := s.threads[t].pc;
            || (pc.Load? && exists u :: u != t && Holds(s, u, pc.obj))
            || (pc.Cas? && !pc.fast && pc.obj in s.mark && s.mark[pc.obj] != pc.dh)
  {
    assert PcInv(s, t);
    var pc := s.threads[t].pc;
    if pc.Load? {
      HeldByOther(s, t, pc.obj);
    }
  }

  lemma HeldByOther(s: State, t: Tid, o: Obj)
    requires Inv(s) && t in s.threads && o in s.mark && !IsNeutral(s.mark[o]) && !(s.mark[o] % 4 == 0 && OnStack(s.threads[t], s.mark[o]))
    ensures exists u :: u != t && Holds(s, u, o)
  {
    assert LockInv(s, o) && s.stacks[o] != [];
    var b := s.stacks[o][0];
    var u := s.boxes[b].tid;
    if u == t { OwnerSeesBox(s, t, o); }
    assert b in s.stacks[o] && b in s.boxes && OnStack(s.threads[u], b);
    assert Holds(s, u, o);
  }
}
