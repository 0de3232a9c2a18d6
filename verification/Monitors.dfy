/** The monitor boxes of a template interpreter frame (interp_masm_ppc_64.cpp): inserting one
    under a live operand stack, and the sweep that releases them when a method is left. */
module Monitors {
  import opened StackMemory
  import opened Sequences

  const IJAVA_STATE_SIZE := 96
  const TOP_FRAME_SP_NEG := -40
  const OBJ_OFFSET := 8

  /** n consecutive words. */
  function Words(mem: Memory, from: int, n: nat): (w: seq<int>)
    ensures |w| == n && forall i :: 0 <= i < n ==> w[i] == At(mem, from + 8 * i)
  {
    seq(n, i => At(mem, from + 8 * i))
  }

  /** The address of box k, the oldest first, below the monitor base. */
  function BoxAt(base: int, k: int): int { base - MONITOR_SIZE * (k + 1) }

  predicate InUse(mem: Memory, base: int, k: int) { At(mem, BoxAt(base, k) + OBJ_OFFSET) != 0 }

  /** The boxes in use among k, ..., n - 1, oldest first. */
  function Used(mem: Memory, base: int, k: nat, n: nat): (boxes: seq<int>)
    requires k <= n
    decreases n - k
  {
    if k == n then []
    else (if InUse(mem, base, k) then [BoxAt(base, k)] else []) + Used(mem, base, k + 1, n)
  }

  lemma {:induction false} UsedBelow(mem: Memory, base: int, k: nat, n: nat)
    requires k <= n
    ensures forall i :: 0 <= i < |Used(mem, base, k, n)| ==> Used(mem, base, k, n)[i] <= BoxAt(base, k)
    decreases n - k
  {
    if k < n {
      UsedBelow(mem, base, k + 1, n);
    }
  }

  lemma {:induction false} UsedAt(mem: Memory, base: int, k: nat, n: nat, j: nat)
    requires k <= j < n
    ensures BoxAt(base, j) in Used(mem, base, k, n) <==> InUse(mem, base, j)
    decreases n - k
  {
    if k < j {
      UsedAt(mem, base, k + 1, n, j);
      assert BoxAt(base, j) != BoxAt(base, k);
    } else {
      UsedBelow(mem, base, k + 1, n);
      assert BoxAt(base, k + 1) < BoxAt(base, k);
    }
  }

  lemma {:induction false} UsedFalls(mem: Memory, base: int, k: nat, n: nat)
    requires k <= n
    ensures Falling(Used(mem, base, k, n))
    decreases n - k
  {
    if k < n {
      UsedFalls(mem, base, k + 1, n);
      UsedBelow(mem, base, k + 1, n);
    }
  }

  /** Used lists exactly the boxes whose object field is set, each once, by falling address. */
  lemma UsedExactly(mem: Memory, base: int, n: nat)
    ensures forall j :: 0 <= j < n ==> (BoxAt(base, j) in Used(mem, base, 0, n) <==> InUse(mem, base, j))
    ensures Falling(Used(mem, base, 0, n))
  {
    forall j | 0 <= j < n
      ensures BoxAt(base, j) in Used(mem, base, 0, n) <==> InUse(mem, base, j)
    {
      UsedAt(mem, base, 0, n, j);
    }
    UsedFalls(mem, base, 0, n);
  }

  ghost predicate Falling(s: seq<int>) {
    forall i, j :: 0 <= i < j < |s| ==> s[i] > s[j]
  }

  lemma {:induction false} UsedSkips(mem: Memory, base: int, k: nat, m: nat, n: nat)
    requires k <= m <= n && forall j :: k <= j < m ==> !InUse(mem, base, j)
    ensures Used(mem, base, k, n) == Used(mem, base, m, n)
    decreases m - k
  {
    if k < m {
      assert !InUse(mem, base, k);
      UsedSkips(mem, base, k + 1, m, n);
    }
  }

  /** Clearing box m does not matter to later boxes. */
  lemma {:induction false} UsedKeeps(mem: Memory, mem': Memory, base: int, k: nat, n: nat)
    requires k <= n && forall j :: k <= j < n ==> (InUse(mem', base, j) <==> InUse(mem, base, j))
    ensures Used(mem', base, k, n) == Used(mem, base, k, n)
    decreases n - k
  {
    if k < n {
      assert InUse(mem', base, k) <==> InUse(mem, base, k);
      UsedKeeps(mem, mem', base, k + 1, n);
    }
  }

  /** Nothing but object fields of the boxes differs. */
  ghost predicate OnlyBoxes(mem: Memory, mem': Memory, base: int, n: nat) {
    forall x :: At(mem', x) == At(mem, x) || exists k :: 0 <= k < n && x == BoxAt(base, k) + OBJ_OFFSET
  }

  lemma OnlyBoxesStep(mem: Memory, mem': Memory, base: int, n: nat, k: nat)
    requires OnlyBoxes(mem, mem', base, n) && k < n
    ensures OnlyBoxes(mem, mem'[BoxAt(base, k) + OBJ_OFFSET := 0], base, n)
  {
  }

  /** The step of the sweep: freeing the first box in use takes it off the list. */
  lemma FreeFirst(mem: Memory, base: int, k: nat, n: nat)
    requires k < n && InUse(mem, base, k) && forall j :: 0 <= j < k ==> !InUse(mem, base, j)
    ensures var mem' := mem[BoxAt(base, k) + OBJ_OFFSET := 0];
            Used(mem, base, 0, n) == [BoxAt(base, k)] + Used(mem', base, 0, n)
  {
    var mem' := mem[BoxAt(base, k) + OBJ_OFFSET := 0];
    forall j | 0 <= j < n && j != k
      ensures InUse(mem', base, j) <==> InUse(mem, base, j)
    {
    }
    UsedSkips(mem, base, 0, k, n);
    UsedSkips(mem', base, 0, k + 1, n);
    UsedKeeps(mem, mem', base, k + 1, n);
  }

  /** As sequences, the operands and the older boxes do not change; neither do the back chain
      and the interpreter state, but for the word that records the stack pointer. */
  ghost predicate BoxAdded(mem: Memory, mem': Memory, sp: int, esp: int, monitor: int)
    requires esp + 8 <= monitor
  {
    var n := (monitor - esp - 8) / 8;
    var fp := At(mem, sp);
    && Words(mem', esp - MONITOR_SIZE + 8, n) == Words(mem, esp + 8, n)
    && At(mem', sp - MONITOR_SIZE) == fp && At(mem', fp + TOP_FRAME_SP_NEG) == sp - MONITOR_SIZE
    && forall x :: x >= monitor && x != fp + TOP_FRAME_SP_NEG ==> At(mem', x) == At(mem, x)
  }

  lemma ShiftAddsBox(mem: Memory, mem': Memory, sp: int, esp: int, monitor: int)
    requires esp % 8 == 0 && monitor % 8 == 0 && sp <= esp && esp + 8 <= monitor <= At(mem, sp) - IJAVA_STATE_SIZE
    requires ShiftedDown(mem[sp - MONITOR_SIZE := At(mem, sp)][At(mem, sp) + TOP_FRAME_SP_NEG := sp - MONITOR_SIZE], mem', esp, monitor - 8)
    ensures BoxAdded(mem, mem', sp, esp, monitor)
  {
    var fp := At(mem, sp);
    var start := mem[sp - MONITOR_SIZE := fp][fp + TOP_FRAME_SP_NEG := sp - MONITOR_SIZE];
    var n := (monitor - esp - 8) / 8;
    forall i | 0 <= i < n
      ensures At(mem', esp - MONITOR_SIZE + 8 + 8 * i) == At(mem, esp + 8 + 8 * i)
    {
      assert At(start, esp + 8 + 8 * i) == At(mem, esp + 8 + 8 * i);
    }
    assert At(start, sp - MONITOR_SIZE) == fp;
    assert forall x :: x >= monitor && x != fp + TOP_FRAME_SP_NEG ==> At(start, x) == At(mem, x);
  }

  lemma OneMoreBox(base: int, monitor: int)
    requires monitor <= base && (base - monitor) % 16 == 0
    ensures (base - (monitor - 16)) % 16 == 0 && (base - (monitor - 16)) / 16 == (base - monitor) / 16 + 1
  {
  }

  datatype Outcome = Done | Raised

  class Frame {
    var mem: Memory
    var sp: int
    var esp: int        // R15_esp, one slot below the topmost operand
    var monitor: int    // R26_monitor, the youngest box
    var released: seq<int>
    var installed: nat  // pending exceptions installed

    ghost predicate Valid()
      reads this
    {
      monitor <= Base() && (Base() - monitor) % 16 == 0
    }

    /** Where the boxes begin: below the interpreter state at the end of the frame. */
    function Base(): int
      reads this
    {
      At(mem, sp) - IJAVA_STATE_SIZE
    }

    function Boxes(): nat
      reads this
    {
      if monitor < Base() then (Base() - monitor) / 16 else 0
    }

    /** unlock_object, as the sweep sees it: the box is freed. */
    method UnlockObject(box: int)
      modifies this`mem, this`released
      ensures mem == old(mem)[box + OBJ_OFFSET := 0] && released == old(released) + [box]
    {
      mem := mem[box + OBJ_OFFSET := 0];
      released := released + [box];
    }

    /** The search loop. It loads one object field ahead of the one it tests. */
    method FindUsed() returns (found: bool, box: int, ghost k: nat)
      requires Valid() && Boxes() > 0
      ensures found ==> k < Boxes() && InUse(mem, Base(), k) && box == BoxAt(Base(), k)
      ensures k <= Boxes() && (!found ==> k == Boxes()) && forall j :: 0 <= j < k ==> !InUse(mem, Base(), j)
    {
      var ctr := (At(mem, sp) - IJAVA_STATE_SIZE - monitor) / 16;
      var addr := Base() + OBJ_OFFSET - MONITOR_SIZE;
      var obj := At(mem, addr);
      addr := addr - MONITOR_SIZE;
      k := 0;
      while true
        invariant 0 < ctr && k + ctr == Boxes() && addr == BoxAt(Base(), k) + OBJ_OFFSET - MONITOR_SIZE
        invariant obj == At(mem, BoxAt(Base(), k) + OBJ_OFFSET)
        invariant forall j :: 0 <= j < k ==> !InUse(mem, Base(), j)
        decreases ctr
      {
        if obj != 0 {
          return true, addr - OBJ_OFFSET + MONITOR_SIZE, k;
        }
        obj := At(mem, addr);
        addr := addr - MONITOR_SIZE;
        ctr, k := ctr - 1, k + 1;
        if ctr == 0 {
          return false, 0, k;
        }
      }
    }

    /** The sweep of unlock_if_synchronized_method, from Lunlocked on. When it may not throw, it
        starts over after every release; `restarts` counts that. */
    method Sweep(throwing: bool, installing: bool) returns (outcome: Outcome, ghost restarts: nat)
      requires Valid() && forall k :: 0 <= k < Boxes() ==> BoxAt(Base(), k) + OBJ_OFFSET != sp
      modifies this`mem, this`released, this`installed
      ensures Valid() && Base() == old(Base()) && OnlyBoxes(old(mem), mem, Base(), Boxes())
      ensures throwing ==> mem == old(mem) && released == old(released) && installed == old(installed)
      ensures throwing ==> (outcome == Raised <==> Used(mem, Base(), 0, Boxes()) != [])
      ensures !throwing ==>
                && outcome == Done && Used(mem, Base(), 0, Boxes()) == []
                && released == old(released) + old(Used(mem, Base(), 0, Boxes()))
                && restarts == old(|Used(mem, Base(), 0, Boxes())|)
                && installed == old(installed) + (if installing then restarts else 0)
    {
      restarts := 0;
      ghost var base, n := Base(), Boxes();
      while true
        invariant Valid() && Base() == base && Boxes() == n && OnlyBoxes(old(mem), mem, base, n)
        invariant throwing ==> mem == old(mem) && released == old(released) && restarts == 0
        invariant released + Used(mem, base, 0, n) == old(released) + old(Used(mem, Base(), 0, Boxes()))
        invariant restarts == |released| - |old(released)|
        invariant installed == old(installed) + (if installing then restarts else 0)
        decreases |Used(mem, base, 0, n)|
      {
        if Base() <= monitor {
          return Done, restarts;
        }
        var found, box, k := FindUsed();
        if !found {
          UsedSkips(mem, base, 0, n, n);
          return Done, restarts;
        }
        FreeFirst(mem, base, k, n);
        assert |Used(mem, base, 0, n)| > 0;
        OnlyBoxesStep(old(mem), mem, base, n, k);
        Regroup(released, box, Used(mem[box + OBJ_OFFSET := 0], base, 0, n));
        if throwing {
          return Raised, restarts;
        }
        UnlockObject(box);
        if installing {
          installed := installed + 1;
        }
        restarts := restarts + 1;
      }
    }

    /** unlock_if_synchronized_method. A synchronized method's own monitor is the oldest box. If
        it is already free one of the two modes must say what to do about it. */
    method UnlockIfSynchronized(synced: bool, doNotUnlock: bool, throwing: bool, installing: bool) returns (outcome: Outcome)
      requires Valid() && forall k :: 0 <= k < Boxes() ==> BoxAt(Base(), k) + OBJ_OFFSET != sp
      requires synced && !doNotUnlock ==> Boxes() > 0 && (throwing || installing || InUse(mem, Base(), 0))
      modifies this`mem, this`released, this`installed
      ensures Valid() && Base() == old(Base()) && OnlyBoxes(old(mem), mem, Base(), Boxes())
      ensures synced && doNotUnlock ==> outcome == Done && mem == old(mem) && released == old(released)
      ensures throwing || (synced && doNotUnlock) ==> installed == old(installed)
      ensures !(synced && doNotUnlock) && !throwing ==>
                && outcome == Done && Used(mem, Base(), 0, Boxes()) == []
                && released == old(released) + old(Used(mem, Base(), 0, Boxes()))
                && var swept := old(|Used(mem, Base(), 0, Boxes())|) - (if synced && old(InUse(mem, Base(), 0)) then 1 else 0);
                   installed == old(installed) + (if synced && !old(InUse(mem, Base(), 0)) then 1 else 0) + if installing then swept else 0
      ensures !(synced && doNotUnlock) && throwing ==>
                var mine := synced && old(InUse(mem, Base(), 0));
                && released == old(released) + (if mine then [BoxAt(Base(), 0)] else [])
                && (outcome == Raised <==>
                      || Used(mem, Base(), 0, Boxes()) != []
                      || (synced && !mine))
                && (old(|Used(mem, Base(), 0, Boxes())|) == |Used(mem, Base(), 0, Boxes())| + if mine then 1 else 0)
    {
      if synced {
        if doNotUnlock {
          return Done;
        }
        var box := At(mem, sp) - (IJAVA_STATE_SIZE + MONITOR_SIZE);
        if At(mem, box + OBJ_OFFSET) == 0 {
          if throwing {
            return Raised;
          }
          installed := installed + 1;
        } else {
          FreeFirst(mem, Base(), 0, Boxes());
          UnlockObject(box);
        }
      }
      ghost var restarts;
      outcome, restarts := Sweep(throwing, installing);
    }

    /** add_monitor_to_stack: the operands move down past a new box, whose contents are left for
        the caller to fill in. */
    method AddMonitor(stackIsEmpty: bool)
      requires Valid() && esp % 8 == 0 && monitor % 8 == 0 && sp <= esp && esp + 8 <= monitor
      requires stackIsEmpty ==> esp + 8 == monitor
      modifies this
      ensures Valid() && Boxes() == old(Boxes()) + 1
      ensures monitor == old(monitor) - MONITOR_SIZE && sp == old(sp) - MONITOR_SIZE && esp == old(esp) - MONITOR_SIZE
      ensures BoxAdded(old(mem), mem, old(sp), old(esp), old(monitor))
    {
      MakeRoom(stackIsEmpty);
      ShiftAddsBox(old(mem), mem, old(sp), esp, monitor);
      OneMoreBox(Base(), monitor);
      esp := esp - MONITOR_SIZE;
      monitor := monitor - MONITOR_SIZE;
    }

    method MakeRoom(stackIsEmpty: bool)
      requires esp % 8 == 0 && monitor % 8 == 0 && esp + 8 <= monitor && (stackIsEmpty ==> esp + 8 == monitor)
      modifies this`mem, this`sp
      ensures sp == old(sp) - MONITOR_SIZE
      ensures var fp := old(At(mem, sp));
              ShiftedDown(old(mem)[sp := fp][fp + TOP_FRAME_SP_NEG := sp], mem, esp, monitor - 8)
    {
      var fp := At(mem, sp);
      sp := sp - MONITOR_SIZE;
      mem := mem[sp := fp][fp + TOP_FRAME_SP_NEG := sp];
      if !stackIsEmpty {
        ShiftOperands();
      }
    }

    /** The copy_slot loop. */
    method ShiftOperands()
      requires esp % 8 == 0 && monitor % 8 == 0 && esp + 8 <= monitor
      modifies this`mem
      ensures ShiftedDown(old(mem), mem, esp, monitor - 8)
    {
      var addr, ctr := esp + 8, (monitor - esp - 8) / 8;
      while ctr > 0
        invariant 0 <= ctr && esp + 8 <= addr == monitor - 8 * ctr
        invariant ShiftedDown(old(mem), mem, esp, addr - 8)
      {
        mem := mem[addr - MONITOR_SIZE := At(mem, addr)];
        addr, ctr := addr + 8, ctr - 1;
      }
    }
  }
}
