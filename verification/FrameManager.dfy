/** The C++ interpreter's frame manager (cppInterpreter_ppc.cpp) and the frame helpers it
    emits (interp_masm_ppc_64.cpp, macroAssembler_ppc.cpp): stack words, the stack pointer
    and the two interpreter state registers. */
module FrameManager {
  import opened StackMemory

  // Fields of a BytecodeInterpreter object, as byte offsets.
  const LOCALS := 16
  const STACK := 48
  const PREV_LINK := 88
  const STACK_BASE := 104
  const STACK_LIMIT := 112
  const LAST_FP := 144
  const LAST_SP := 152
  const STATE_SIZE := 184

  // The return address in a frame header.
  const LR := 16

  /** The frame header of the ABI in use: six words before ELFv2, four with it. */
  datatype Abi = Abi(minFrame: int) {
    const TOP_FRAME_SP := minFrame
    const INITIAL_CALLER_SP := minFrame + 8
    const FRAME_MANAGER_LR := minFrame + 56
    const PARENT_SIZE := minFrame + 16
    const TOP_SIZE := minFrame + 64

    predicate Valid() { minFrame == 48 || minFrame == 32 }
  }

  function RoundTo16(v: int): (r: int)
    ensures r % 16 == 0 && v <= r < v + 16
  {
    (v + 15) / 16 * 16
  }

  /** What the frame manager reads from a Method: sizes in slots. */
  datatype Method = Method(parameters: nat, locals: nat, maxStack: nat, synced: bool)

  /** One live activation: the SP of its caller's parent frame, its own SP, and the current
      bounds of its operand stack. The interpreter object lies just below fp. */
  datatype Act = Act(fp: int, sp: int, base: int, limit: int, locals: int) {
    const state := fp - STATE_SIZE
  }

  /** What the caller of the frame manager handed over. */
  datatype Entry = Entry(sender: int, chain: int, lr: int)

  // ------------------------------------------------------- the invariant

  /** The shape of a frame: [ABI][operand stack][monitors][interpreter object], aligned. */
  ghost predicate Shape(abi: Abi, a: Act) {
    && a.fp % 16 == 0 && a.sp % 16 == 0 && a.sp > 0
    && a.sp + abi.TOP_SIZE <= a.limit + 8 && a.limit + 8 <= a.base && a.base <= a.state
    && a.base % 8 == 0 && a.limit % 8 == 0 && a.locals % 8 == 0
  }

  /** The control words of an activation in its interpreter object. */
  ghost predicate Object(mem: Memory, a: Act, prev: int) {
    && At(mem, a.state + LAST_FP) == a.fp
    && At(mem, a.state + LAST_SP) == a.sp
    && At(mem, a.state + PREV_LINK) == prev
    && At(mem, a.state + STACK_BASE) == a.base
    && At(mem, a.state + STACK_LIMIT) == a.limit
    && At(mem, a.state + LOCALS) == a.locals
    && a.limit <= At(mem, a.state + STACK) < a.base && At(mem, a.state + STACK) % 8 == 0
  }

  /** Activation i, its words, and its place below activation i - 1. */
  ghost predicate ActInv(abi: Abi, mem: Memory, acts: seq<Act>, e: Entry, i: int)
    requires 0 <= i < |acts|
  {
    && Shape(abi, acts[i])
    && Object(mem, acts[i], if i == 0 then 0 else acts[i - 1].state)
    && At(mem, acts[i].fp) == (if i == 0 then e.chain else acts[i - 1].fp)
    && acts[i].fp + abi.PARENT_SIZE + 16 <= acts[i].locals + 8 <= (if i == 0 then e.chain else acts[i - 1].base)
    && (i > 0 ==> acts[i].fp + abi.PARENT_SIZE + 16 <= At(mem, acts[i - 1].state + STACK) <= acts[i].locals)
    && (i == 0 ==> At(mem, acts[i].fp + abi.INITIAL_CALLER_SP) == e.sender && At(mem, acts[i].fp + LR) == e.lr)
  }

  ghost predicate ActsInv(abi: Abi, mem: Memory, acts: seq<Act>, e: Entry) {
    forall i :: 0 <= i < |acts| ==> ActInv(abi, mem, acts, e, i)
  }

  /** An activation's arguments lie below its caller's object. */
  lemma BelowCaller(abi: Abi, mem: Memory, acts: seq<Act>, e: Entry, i: int)
    requires abi.Valid() && 0 < i < |acts| && ActInv(abi, mem, acts, e, i) && ActInv(abi, mem, acts, e, i - 1)
    ensures acts[i].state < acts[i].fp < acts[i].locals && acts[i].locals + 8 <= acts[i - 1].state
  {
  }

  /** Activations depend only on words at and above the youngest interpreter object. */
  lemma OlderKeep(abi: Abi, mem: Memory, mem': Memory, acts: seq<Act>, e: Entry)
    requires abi.Valid() && ActsInv(abi, mem, acts, e)
    requires |acts| > 0 && SameFrom(mem, mem', acts[|acts| - 1].state)
    ensures ActsInv(abi, mem', acts, e)
  {
    forall i | 0 <= i < |acts|
      ensures ActInv(abi, mem', acts, e, i)
    {
      Descending(abi, mem, acts, e, i, |acts| - 1);
      if i > 0 { BelowCaller(abi, mem, acts, e, i); }
      assert ActInv(abi, mem, acts, e, i);
    }
  }

  lemma {:induction false} Descending(abi: Abi, mem: Memory, acts: seq<Act>, e: Entry, i: nat, j: nat)
    requires abi.Valid() && ActsInv(abi, mem, acts, e) && i <= j < |acts|
    ensures acts[j].state <= acts[i].state && (i < j ==> acts[j].fp + abi.PARENT_SIZE <= acts[i].state)
    decreases j - i
  {
    if i < j {
      Descending(abi, mem, acts, e, i, j - 1);
      assert ActInv(abi, mem, acts, e, j) && ActInv(abi, mem, acts, e, j - 1);
    }
  }

  // ----------------------------------------------------- sizes of a new frame

  /** The activation generate_compute_interpreter_state lays out below the caller's tos. */
  function NewAct(abi: Abi, sp: int, tos: int, m: Method): Act {
    var parentResize := RoundTo16(sp - tos + abi.PARENT_SIZE + 16 + 8 * (m.locals - m.parameters));
    var monitor := if m.synced then MONITOR_SIZE else 0;
    var topSize := RoundTo16(abi.TOP_SIZE + STATE_SIZE + 8 * m.maxStack + monitor);
    var fp := sp - parentResize;
    var base := fp - STATE_SIZE - monitor;
    Act(fp, fp - topSize, base, base - 8 - 8 * m.maxStack, tos + 8 * m.parameters)
  }

  /** How much room a new activation gets: max_stack operands, a monitor if the method is
      synchronized, and the two frames as large as what they hold, up to alignment: the top frame
      its header, operands, monitor and object, the parent frame its header, two result slots and
      the locals that are not parameters. */
  ghost predicate Sized(abi: Abi, sp: int, tos: int, m: Method, a: Act) {
    var monitor := if m.synced then 16 else 0;
    && a.base - 8 - a.limit == 8 * m.maxStack && a.state - a.base == monitor && a.locals == tos + 8 * m.parameters
    && 0 <= a.fp - a.sp - (abi.TOP_SIZE + 8 * m.maxStack + monitor + STATE_SIZE) < 16
    && 0 <= tos - a.fp - (abi.PARENT_SIZE + 16 + 8 * (m.locals - m.parameters)) < 16
  }

  lemma NewActShape(abi: Abi, sp: int, tos: int, m: Method)
    requires abi.Valid() && sp % 16 == 0 && tos % 8 == 0 && m.parameters <= m.locals
    ensures var a := NewAct(abi, sp, tos, m);
            && Sized(abi, sp, tos, m, a) && a.fp % 16 == 0 && a.sp % 16 == 0
            && (a.sp > 0 ==> Shape(abi, a))
  {
    var monitor := if m.synced then MONITOR_SIZE else 0;
    ShapeOf(abi, sp, tos, m, monitor,
            RoundTo16(sp - tos + abi.PARENT_SIZE + 16 + 8 * (m.locals - m.parameters)),
            RoundTo16(abi.TOP_SIZE + STATE_SIZE + 8 * m.maxStack + monitor));
  }

  /** Any multiples of 16 that are large enough will do. */
  lemma ShapeOf(abi: Abi, sp: int, tos: int, m: Method, monitor: int, parentResize: int, topSize: int)
    requires abi.Valid() && sp % 16 == 0 && tos % 8 == 0 && m.parameters <= m.locals && (monitor == 0 || monitor == 16)
    requires parentResize % 16 == 0 && parentResize >= sp - tos + abi.PARENT_SIZE + 16 + 8 * (m.locals - m.parameters)
    requires topSize % 16 == 0 && topSize >= abi.TOP_SIZE + STATE_SIZE + 8 * m.maxStack + monitor
    ensures var fp := sp - parentResize;
            var base := fp - STATE_SIZE - monitor;
            var a := Act(fp, fp - topSize, base, base - 8 - 8 * m.maxStack, tos + 8 * m.parameters);
            && a.fp % 16 == 0 && a.sp % 16 == 0 && (a.sp > 0 ==> Shape(abi, a))
            && a.fp + abi.PARENT_SIZE + 16 + 8 * (m.locals - m.parameters) <= tos <= a.locals
  {
    var fp := sp - parentResize;
    Minus16(sp, parentResize);
    Minus16(fp, topSize);
    var base := fp - STATE_SIZE - monitor;
    Aligned8(fp, STATE_SIZE + monitor);
    Aligned8(base, 8 + 8 * m.maxStack);
    Aligned8(tos, -8 * m.parameters);
  }

  lemma Minus16(x: int, y: int)
    requires x % 16 == 0 && y % 16 == 0
    ensures (x - y) % 16 == 0 && x % 8 == 0 && (x - y) % 8 == 0
  {
    var i, j := x / 16, y / 16;
    assert x == 16 * i && y == 16 * j;
    assert x - y == 16 * (i - j) == 8 * (2 * (i - j)) && x == 8 * (2 * i);
  }

  lemma Aligned8(x: int, y: int)
    requires x % 8 == 0 && y % 8 == 0
    ensures (x - y) % 8 == 0
  {
  }

  /** What a top frame keeps in its header: the frame manager's return address, and its own SP. */
  ghost predicate TopWords(abi: Abi, mem: Memory, sp: int, here: int) {
    At(mem, sp + abi.FRAME_MANAGER_LR) == here && At(mem, sp + abi.INITIAL_CALLER_SP) == sp
  }

  /** The monitor of a synchronized method has no object. */
  ghost predicate MonitorFree(mem: Memory, a: Act) { a.base < a.state ==> At(mem, a.base + 8) == 0 }

  /** The stack words of a new activation, from what was there. */
  ghost predicate LaidOut(abi: Abi, mem: Memory, mem': Memory, sp: int, tos: int, a: Act, prev: int, zeroed: int, here: int) {
    && At(mem', a.sp) == a.fp && Object(mem', a, prev) && At(mem', a.state + STACK) == a.base - 8
    && TopWords(abi, mem', a.sp, here) && MonitorFree(mem', a)
    && At(mem', a.fp) == At(mem, sp)
    && At(mem', a.fp + LR) == At(mem, sp + abi.FRAME_MANAGER_LR)
    && At(mem', a.fp + abi.INITIAL_CALLER_SP) == At(mem, sp + abi.INITIAL_CALLER_SP)
    && SameFrom(mem, mem', tos + 8)
    && forall k :: 0 <= k < zeroed ==> At(mem', tos - 8 * k) == 0
  }

  /** The fields of a new interpreter object, and its monitor, if it has one, marked free. */
  function Initialized(mem: Memory, a: Act, prev: int): Memory {
    var m := mem[a.state + PREV_LINK := prev][a.state + LOCALS := a.locals]
                [a.state + LAST_FP := a.fp][a.state + LAST_SP := a.sp]
                [a.state + STACK_BASE := a.base][a.state + STACK := a.base - 8][a.state + STACK_LIMIT := a.limit];
    if a.base < a.state then m[a.base + 8 := 0] else m
  }

  lemma InitialWords(abi: Abi, mem: Memory, a: Act, prev: int)
    requires abi.Valid() && Shape(abi, a) && At(mem, a.sp) == a.fp
    ensures var m := Initialized(mem, a, prev);
            && Object(m, a, prev) && At(m, a.state + STACK) == a.base - 8 && At(m, a.sp) == a.fp && SameFrom(mem, m, a.fp)
            && MonitorFree(m, a) && forall x :: x < a.sp + abi.TOP_SIZE ==> At(m, x) == At(mem, x)
  {
    assert (a.base - 8) % 8 == 0 by { Aligned8(a.base, 8); }
  }

  /** A new activation where it was laid out: the first one, or one below the youngest. */
  lemma LaidOutInv(abi: Abi, mem: Memory, mem': Memory, acts: seq<Act>, e: Entry, sp: int, tos: int, m: Method, a: Act, prev: int, here: int)
    requires abi.Valid() && Shape(abi, a) && Sized(abi, sp, tos, m, a) && m.parameters <= m.locals && tos % 8 == 0
    requires LaidOut(abi, mem, mem', sp, tos, a, prev, m.locals - m.parameters, here)
    requires if acts == [] then prev == 0 && At(mem, sp) == e.chain && tos + 8 * m.parameters + 8 <= e.chain
                                && At(mem, sp + abi.FRAME_MANAGER_LR) == e.lr && At(mem, sp + abi.INITIAL_CALLER_SP) == e.sender
             else var top := acts[|acts| - 1];
                  && prev == top.state && At(mem, sp) == top.fp && tos + 8 * m.parameters + 8 <= top.base <= top.state
                  && At(mem, top.state + STACK) == tos
    ensures ActInv(abi, mem', acts + [a], e, |acts|)
  {
    Aligned8(tos, -8 * m.parameters);
  }

  /** A new activation below the youngest one. */
  lemma PushedInv(abi: Abi, mem: Memory, mem': Memory, acts: seq<Act>, e: Entry, a: Act)
    requires abi.Valid() && ActsInv(abi, mem, acts, e)
    requires |acts| > 0 ==> SameFrom(mem, mem', acts[|acts| - 1].state)
    requires ActInv(abi, mem', acts + [a], e, |acts|)
    ensures ActsInv(abi, mem', acts + [a], e)
  {
    if |acts| > 0 { OlderKeep(abi, mem, mem', acts, e); }
    forall i | 0 <= i < |acts|
      ensures ActInv(abi, mem', acts + [a], e, i)
    {
      assert ActInv(abi, mem', acts, e, i);
    }
  }

  /** The caller's frame once its SP and the return address are saved in it. */
  function Saved(abi: Abi, mem: Memory, sp: int, sender: int, returnPc: int): Memory {
    mem[sp + abi.INITIAL_CALLER_SP := sender][sp + abi.FRAME_MANAGER_LR := returnPc]
  }

  lemma SavedWords(abi: Abi, mem: Memory, sp: int, sender: int, returnPc: int, tos: int)
    requires abi.Valid() && sp + abi.TOP_SIZE <= tos + 8
    ensures var mem' := Saved(abi, mem, sp, sender, returnPc);
            && At(mem', sp) == At(mem, sp) && SameFrom(mem, mem', tos + 8)
            && At(mem', sp + abi.INITIAL_CALLER_SP) == sender && At(mem', sp + abi.FRAME_MANAGER_LR) == returnPc
  {
  }

  lemma FirstInv(abi: Abi, mem: Memory, mem': Memory, e: Entry, sp: int, tos: int, m: Method, a: Act, here: int)
    requires abi.Valid() && Shape(abi, a) && Sized(abi, sp, tos, m, a) && m.parameters <= m.locals && tos % 8 == 0
    requires LaidOut(abi, Saved(abi, mem, sp, e.sender, e.lr), mem', sp, tos, a, 0, m.locals - m.parameters, here)
    requires At(mem, sp) == e.chain && sp + abi.TOP_SIZE <= tos + 8 && tos + 8 * m.parameters + 8 <= e.chain
    ensures ActsInv(abi, mem', [a], e) && SameFrom(mem, mem', tos + 8)
  {
    LaidOutInv(abi, Saved(abi, mem, sp, e.sender, e.lr), mem', [], e, sp, tos, m, a, 0, here);
    assert [] + [a] == [a];
  }

  lemma CalleeInv(abi: Abi, mem: Memory, mem': Memory, acts: seq<Act>, e: Entry, sp: int, tos: int, m: Method, a: Act, here: int)
    requires abi.Valid() && |acts| > 0 && ActsInv(abi, mem, acts, e) && At(mem, sp) == acts[|acts| - 1].fp
    requires Shape(abi, a) && Sized(abi, sp, tos, m, a) && m.parameters <= m.locals && tos % 8 == 0
    requires LaidOut(abi, mem, mem', sp, tos, a, acts[|acts| - 1].state, m.locals - m.parameters, here)
    requires At(mem, acts[|acts| - 1].state + STACK) == tos && tos + 8 * m.parameters + 8 <= acts[|acts| - 1].base
    ensures ActsInv(abi, mem', acts + [a], e)
  {
    assert ActInv(abi, mem, acts, e, |acts| - 1);
    LaidOutInv(abi, mem, mem', acts, e, sp, tos, m, a, acts[|acts| - 1].state, here);
    PushedInv(abi, mem, mem', acts, e, a);
  }

  /** The callers of the youngest activation, after words below the caller's object changed. */
  lemma PoppedInv(abi: Abi, mem: Memory, mem': Memory, acts: seq<Act>, e: Entry)
    requires abi.Valid() && ActsInv(abi, mem, acts, e)
    requires |acts| > 1 && SameFrom(mem, mem', acts[|acts| - 2].state)
    ensures ActsInv(abi, mem', acts[..|acts| - 1], e)
  {
    var older := acts[..|acts| - 1];
    forall i | 0 <= i < |older|
      ensures ActInv(abi, mem, older, e, i)
    {
      assert ActInv(abi, mem, acts, e, i);
    }
    OlderKeep(abi, mem, mem', older, e);
  }

  /** Words of the youngest activation other than its control words changed: its ABI area, its
      operands and monitors, the rest of its object, its locals in the caller's frame. */
  predicate OwnData(abi: Abi, a: Act, x: int) {
    || x < a.sp || a.sp + 8 <= x < a.state || a.fp + abi.PARENT_SIZE <= x < a.locals + 8
    || (a.state <= x < a.fp
        && x - a.state !in {LOCALS, STACK, PREV_LINK, STACK_BASE, STACK_LIMIT, LAST_FP, LAST_SP})
  }

  ghost predicate OnlyOwnData(abi: Abi, mem: Memory, mem': Memory, a: Act) {
    forall x {:trigger At(mem', x)} :: !OwnData(abi, a, x) && x != a.state + STACK ==> At(mem', x) == At(mem, x)
  }

  /** The youngest activation and its words changed, and nothing of its callers. */
  lemma TopChanged(abi: Abi, mem: Memory, mem': Memory, acts: seq<Act>, e: Entry, a: Act)
    requires abi.Valid() && |acts| > 0 && ActsInv(abi, mem, acts, e)
    requires |acts| > 1 ==> SameFrom(mem, mem', acts[|acts| - 2].state)
    requires ActInv(abi, mem', acts[|acts| - 1 := a], e, |acts| - 1)
    ensures ActsInv(abi, mem', acts[|acts| - 1 := a], e)
  {
    var n := |acts|;
    assert acts[n - 1 := a] == acts[..n - 1] + [a];
    if n > 1 {
      PoppedInv(abi, mem, mem', acts, e);
      PushedInv(abi, mem', mem', acts[..n - 1], e, a);
    }
  }

  lemma OwnDataTop(abi: Abi, mem: Memory, mem': Memory, acts: seq<Act>, e: Entry)
    requires abi.Valid() && |acts| > 0 && ActInv(abi, mem, acts, e, |acts| - 1)
    requires |acts| > 1 ==> acts[|acts| - 1].locals + 8 <= acts[|acts| - 2].state
    requires OnlyOwnData(abi, mem, mem', acts[|acts| - 1])
    requires var top := acts[|acts| - 1]; top.limit <= At(mem', top.state + STACK) < top.base && At(mem', top.state + STACK) % 8 == 0
    ensures ActInv(abi, mem', acts, e, |acts| - 1)
    ensures |acts| > 1 ==> SameFrom(mem, mem', acts[|acts| - 2].state)
  {
  }

  lemma OwnDataInv(abi: Abi, mem: Memory, mem': Memory, acts: seq<Act>, e: Entry)
    requires abi.Valid() && |acts| > 0 && ActsInv(abi, mem, acts, e)
    requires OnlyOwnData(abi, mem, mem', acts[|acts| - 1])
    requires var top := acts[|acts| - 1]; top.limit <= At(mem', top.state + STACK) < top.base && At(mem', top.state + STACK) % 8 == 0
    ensures ActsInv(abi, mem', acts, e)
  {
    var n := |acts|;
    assert ActInv(abi, mem, acts, e, n - 1);
    if n > 1 { BelowCaller(abi, mem, acts, e, n - 1); }
    OwnDataTop(abi, mem, mem', acts, e);
    assert acts[n - 1 := acts[n - 1]] == acts;
    TopChanged(abi, mem, mem', acts, e, acts[n - 1]);
  }

  /** How an activation ends: with a result of so many slots, with an exception, or popped, its
      arguments staying on the caller's stack. */
  datatype Ending = Result(slots: nat) | Exception | PopFrame

  /** Memory after a result of so many slots moved from above `from` to the slots up to tos. */
  function Moved(mem: Memory, from: int, tos: int, slots: nat): Memory
    requires slots <= 2
  {
    if slots == 0 then mem
    else if slots == 1 then mem[tos := At(mem, from + 8)]
    else mem[tos := At(mem, from + 16)][tos - 8 := At(mem, from + 8)]
  }

  lemma MovedWords(mem: Memory, from: int, tos: int, slots: nat)
    requires slots <= 2
    ensures forall k :: 1 <= k <= slots ==> At(Moved(mem, from, tos, slots), tos - 8 * slots + 8 * k) == At(mem, from + 8 * k)
    ensures forall x :: !(tos - 8 * slots < x <= tos) ==> At(Moved(mem, from, tos, slots), x) == At(mem, x)
  {
  }

  /** The slots of a result are among the callee's own data. */
  lemma MovedInv(abi: Abi, mem: Memory, acts: seq<Act>, e: Entry, from: int, slots: nat)
    requires abi.Valid() && |acts| > 0 && ActsInv(abi, mem, acts, e) && slots <= 2
    ensures var top := acts[|acts| - 1];
            var mem' := Moved(mem, from, top.locals, slots);
            ActsInv(abi, mem', acts, e) && At(mem', top.sp) == At(mem, top.sp)
  {
    var top := acts[|acts| - 1];
    var mem' := Moved(mem, from, top.locals, slots);
    assert ActInv(abi, mem, acts, e, |acts| - 1);
    assert OwnData(abi, top, top.locals) && OwnData(abi, top, top.locals - 8);
    assert OnlyOwnData(abi, mem, mem', top);
    OwnDataInv(abi, mem, mem', acts, e);
  }

  /** Memory after pop_interpreter_frame_to_state and the store of the new top of stack. */
  function Unwound(abi: Abi, mem: Memory, sp: int, caller: Act, newTos: int, here: int): Memory {
    mem[sp := caller.fp][caller.sp := caller.fp][caller.sp + abi.FRAME_MANAGER_LR := here]
       [caller.sp + abi.INITIAL_CALLER_SP := caller.sp][caller.state + STACK := newTos]
  }

  /** Memory after pop_interpreter_frame_to_state for the frame that is on top already. */
  lemma HeaderWords(abi: Abi, mem: Memory, a: Act, here: int)
    requires abi.Valid() && Shape(abi, a)
    ensures var mem' := mem[a.sp := a.fp][a.sp := a.fp][a.sp + abi.FRAME_MANAGER_LR := here][a.sp + abi.INITIAL_CALLER_SP := a.sp];
            SameFrom(mem, mem', a.limit + 8) && At(mem', a.sp) == a.fp && TopWords(abi, mem', a.sp, here)
  {
  }

  /** Where the youngest activation and its caller lie. */
  lemma Bounds(abi: Abi, mem: Memory, acts: seq<Act>, e: Entry)
    requires abi.Valid() && ActsInv(abi, mem, acts, e) && |acts| > 1
    ensures var callee, caller := acts[|acts| - 1], acts[|acts| - 2];
            && callee.sp < callee.fp < callee.locals - 8 && callee.locals % 8 == 0
            && callee.locals + 8 <= caller.base <= caller.state && caller.limit <= callee.locals
            && caller.sp + abi.TOP_SIZE <= caller.limit + 8 <= caller.base
            && At(mem, caller.state + LAST_FP) == caller.fp && At(mem, caller.state + LAST_SP) == caller.sp
            && At(mem, caller.state + PREV_LINK) == (if |acts| == 2 then 0 else acts[|acts| - 3].state)
            && caller.limit <= At(mem, caller.state + STACK) < caller.base && At(mem, caller.state + STACK) % 8 == 0
            && callee.sp < At(mem, caller.state + STACK) <= callee.locals
  {
    assert ActInv(abi, mem, acts, e, |acts| - 1) && ActInv(abi, mem, acts, e, |acts| - 2);
  }

  /** Only the callee's frame, the caller's frame header and the caller's tos change. */
  lemma UnwoundWords(abi: Abi, mem: Memory, callee: Act, caller: Act, newTos: int, here: int)
    requires abi.Valid() && callee.sp < callee.locals - 8 && callee.locals + 8 <= caller.base <= caller.state
    requires caller.sp + abi.TOP_SIZE <= caller.limit + 8 <= caller.base
    ensures var mem' := Unwound(abi, mem, callee.sp, caller, newTos, here);
            && At(mem', caller.sp) == caller.fp && At(mem', caller.state + STACK) == newTos && TopWords(abi, mem', caller.sp, here)
            && (forall x :: x > callee.sp && x > caller.limit && x != caller.state + STACK ==> At(mem', x) == At(mem, x))
            && (forall x :: x >= caller.state && x != caller.state + STACK ==> At(mem', x) == At(mem, x))
  {
  }

  lemma UnwoundInv(abi: Abi, mem: Memory, acts: seq<Act>, e: Entry, mem': Memory)
    requires abi.Valid() && ActsInv(abi, mem, acts, e) && |acts| > 1
    requires var caller := acts[|acts| - 2];
             && (forall x :: x >= caller.state && x != caller.state + STACK ==> At(mem', x) == At(mem, x))
             && caller.limit <= At(mem', caller.state + STACK) < caller.base && At(mem', caller.state + STACK) % 8 == 0
    ensures ActsInv(abi, mem', acts[..|acts| - 1], e)
  {
    var older := acts[..|acts| - 1];
    PoppedInv(abi, mem, mem, acts, e);
    forall i | 0 <= i < |older|
      ensures ActInv(abi, mem', older, e, i)
    {
      Descending(abi, mem, older, e, i, |older| - 1);
      if i > 0 { BelowCaller(abi, mem, older, e, i); }
      assert ActInv(abi, mem, older, e, i);
    }
  }

  /** An exception is passed to the frame manager's caller, even after a normal return when one is
      pending; a popped frame does not pass one. */
  predicate Raises(ending: Ending, pending: int) {
    ending.Exception? || (ending.Result? && pending != 0)
  }

  /** What a C function may store: nothing at or above its caller's frame, nor the back chain. */
  function CalleeStores(stores: Memory, chainAt: int, limit: int): Memory {
    map x | x in stores && x < limit && x != chainAt :: stores[x]
  }

  function NewTos(mem: Memory, callee: Act, caller: Act, ending: Ending): int {
    match ending
    case Result(slots) => callee.locals - 8 * slots
    case Exception => callee.locals
    case PopFrame => At(mem, caller.state + STACK)
  }

  /** Memory after an activation returned to its caller. */
  function Returned(abi: Abi, mem: Memory, callee: Act, caller: Act, ending: Ending, here: int): Memory
    requires ending.Result? ==> ending.slots <= 2
  {
    var moved := if ending.Result? then Moved(mem, At(mem, callee.state + STACK), callee.locals, ending.slots) else mem;
    Unwound(abi, moved, callee.sp, caller, NewTos(mem, callee, caller, ending), here)
  }

  /** The caller resumes with everything above the callee's arguments on its operand stack as it
      was. After a result its slots are in place of the arguments; after an exception the
      arguments are gone; after a popped frame they are still there, and the top of the caller's
      stack is where it was at the call. */
  ghost predicate Resumed(mem: Memory, mem': Memory, callee: Act, caller: Act, ending: Ending) {
    && (forall x :: x >= callee.locals + 8 && x != caller.state + STACK ==> At(mem', x) == At(mem, x))
    && match ending
       case Result(slots) => HasResult(mem, mem', callee, caller, slots)
       case Exception => At(mem', caller.state + STACK) == callee.locals
       case PopFrame =>
         && At(mem', caller.state + STACK) == At(mem, caller.state + STACK)
         && forall x :: x > At(mem, caller.state + STACK) ==> At(mem', x) == At(mem, x)
  }

  ghost predicate HasResult(mem: Memory, mem': Memory, callee: Act, caller: Act, slots: nat) {
    && At(mem', caller.state + STACK) == callee.locals - 8 * slots
    && forall k :: 1 <= k <= slots ==>
         At(mem', callee.locals - 8 * slots + 8 * k) == At(mem, At(mem, callee.state + STACK) + 8 * k)
  }

  lemma ReturnedWords(abi: Abi, mem: Memory, acts: seq<Act>, e: Entry, ending: Ending, here: int)
    requires abi.Valid() && ActsInv(abi, mem, acts, e) && |acts| > 1
    requires ending.Result? ==> ending.slots <= 2 && acts[|acts| - 2].limit <= acts[|acts| - 1].locals - 8 * ending.slots
    ensures var callee, caller := acts[|acts| - 1], acts[|acts| - 2];
            Resumed(mem, Returned(abi, mem, callee, caller, ending, here), callee, caller, ending)
  {
    Bounds(abi, mem, acts, e);
    var callee, caller := acts[|acts| - 1], acts[|acts| - 2];
    if ending.Result? {
      ResultWords(abi, mem, callee, caller, ending.slots, here);
    } else {
      UnwoundWords(abi, mem, callee, caller, NewTos(mem, callee, caller, ending), here);
    }
  }

  /** The slots of a result, and nothing else, were copied. */
  ghost predicate SlotsMoved(mem: Memory, moved: Memory, callee: Act, slots: int) {
    var tos, from := callee.locals - 8 * slots, At(mem, callee.state + STACK);
    && (forall k :: 1 <= k <= slots ==> At(moved, tos + 8 * k) == At(mem, from + 8 * k))
    && (forall x :: !(tos < x <= callee.locals) ==> At(moved, x) == At(mem, x))
  }

  lemma ResultWords(abi: Abi, mem: Memory, callee: Act, caller: Act, slots: nat, here: int)
    requires abi.Valid() && callee.sp < callee.locals - 8 && callee.locals + 8 <= caller.base <= caller.state
    requires caller.sp + abi.TOP_SIZE <= caller.limit + 8 <= caller.base
    requires slots <= 2 && caller.limit <= callee.locals - 8 * slots
    ensures Resumed(mem, Returned(abi, mem, callee, caller, Result(slots), here), callee, caller, Result(slots))
  {
    var from := At(mem, callee.state + STACK);
    assert SlotsMoved(mem, Moved(mem, from, callee.locals, slots), callee, slots) by {
      MovedWords(mem, from, callee.locals, slots);
    }
    UnwindResult(abi, mem, Moved(mem, from, callee.locals, slots), callee, caller, slots, here);
  }

  lemma UnwindResult(abi: Abi, mem: Memory, moved: Memory, callee: Act, caller: Act, slots: nat, here: int)
    requires abi.Valid() && callee.sp < callee.locals - 8 && callee.locals + 8 <= caller.base <= caller.state
    requires caller.sp + abi.TOP_SIZE <= caller.limit + 8 <= caller.base
    requires slots <= 2 && caller.limit <= callee.locals - 8 * slots && SlotsMoved(mem, moved, callee, slots)
    ensures Resumed(mem, Unwound(abi, moved, callee.sp, caller, callee.locals - 8 * slots, here), callee, caller, Result(slots))
  {
    var tos := callee.locals - 8 * slots;
    UnwoundWords(abi, moved, callee, caller, tos, here);
    MovedThenUnwound(mem, moved, Unwound(abi, moved, callee.sp, caller, tos, here), callee, caller, slots);
  }

  lemma MovedThenUnwound(mem: Memory, moved: Memory, mem': Memory, callee: Act, caller: Act, slots: nat)
    requires callee.locals + 8 <= caller.base <= caller.state && slots <= 2 && caller.limit <= callee.locals - 8 * slots
    requires SlotsMoved(mem, moved, callee, slots) && At(mem', caller.state + STACK) == callee.locals - 8 * slots
    requires forall x :: x >= callee.locals - 8 && x > caller.limit && x != caller.state + STACK ==> At(mem', x) == At(moved, x)
    ensures Resumed(mem, mem', callee, caller, Result(slots))
  {
    var tos, from := callee.locals - 8 * slots, At(mem, callee.state + STACK);
    forall k | 1 <= k <= slots
      ensures At(mem', tos + 8 * k) == At(mem, from + 8 * k)
    {
      assert At(mem', tos + 8 * k) == At(moved, tos + 8 * k);
    }
  }

  /** The youngest activation with one more monitor slot. */
  function Grown(a: Act): Act {
    a.(sp := a.sp - MONITOR_SIZE, base := a.base - MONITOR_SIZE, limit := a.limit - MONITOR_SIZE)
  }

  /** The fields of the interpreter object that describe the frame's lower end. */
  ghost predicate FrameField(a: Act, x: int) {
    x == a.state + STACK || x == a.state + STACK_BASE || x == a.state + STACK_LIMIT || x == a.state + LAST_SP
  }

  ghost predicate FieldsGrown(mem: Memory, mem': Memory, a: Act) {
    var g := Grown(a);
    && At(mem', a.state + LAST_SP) == g.sp && At(mem', a.state + STACK_BASE) == g.base
    && At(mem', a.state + STACK_LIMIT) == g.limit
    && At(mem', a.state + STACK) == At(mem, a.state + STACK) - MONITOR_SIZE
    && forall x :: x >= a.base && !FrameField(a, x) ==> At(mem', x) == At(mem, x)
  }

  /** What adding a monitor does to memory: the operands, as a sequence, are where they were
      relative to the new top; the new monitor is marked free; nothing from the old base up,
      so no other monitor, changes but the fields that describe the frame. */
  ghost predicate GrowsMonitor(mem: Memory, mem': Memory, a: Act) {
    && FieldsGrown(mem, mem', a)
    && At(mem', Grown(a).sp) == At(mem, a.sp)
    && At(mem', Grown(a).base + 8) == 0
    && forall x {:trigger At(mem, x)} :: At(mem, a.state + STACK) < x < a.base && x % 8 == 0
         ==> At(mem', x - MONITOR_SIZE) == At(mem, x)
  }

  /** Memory once the frame is resized and its object updated, before the operands move. */
  function Resized(abi: Abi, mem: Memory, a: Act): Memory {
    var g := Grown(a);
    mem[g.sp := At(mem, a.sp)][g.sp + abi.FRAME_MANAGER_LR := At(mem, a.sp + abi.FRAME_MANAGER_LR)]
       [g.sp + abi.INITIAL_CALLER_SP := g.sp]
       [a.state + LAST_SP := g.sp][a.state + STACK_BASE := g.base]
       [a.state + STACK := At(mem, a.state + STACK) - MONITOR_SIZE][a.state + STACK_LIMIT := g.limit]
  }

  lemma ResizedWords(abi: Abi, mem: Memory, a: Act)
    requires abi.Valid() && Shape(abi, a)
    ensures FieldsGrown(mem, Resized(abi, mem, a), a)
    ensures At(Resized(abi, mem, a), Grown(a).sp) == At(mem, a.sp)
    ensures forall x :: a.limit < x < a.state ==> At(Resized(abi, mem, a), x) == At(mem, x)
  {
  }

  lemma ShiftGrows(abi: Abi, mem: Memory, mem': Memory, a: Act)
    requires abi.Valid() && Shape(abi, a) && a.limit <= At(mem, a.state + STACK) < a.base
    requires ShiftedDown(Resized(abi, mem, a), mem', At(mem, a.state + STACK), a.base)
    ensures GrowsMonitor(mem, mem'[Grown(a).base + 8 := 0], a)
  {
    var ready := Resized(abi, mem, a);
    var last := mem'[Grown(a).base + 8 := 0];
    ResizedWords(abi, mem, a);
    assert forall x :: x >= a.base ==> At(last, x) == At(ready, x);
    assert At(last, Grown(a).sp) == At(mem', Grown(a).sp);
    forall x {:trigger At(mem, x)} | At(mem, a.state + STACK) < x < a.base && x % 8 == 0
      ensures At(last, x - MONITOR_SIZE) == At(mem, x)
    {
      assert At(ready, x) == At(mem, x);
      assert At(last, x - MONITOR_SIZE) == At(mem', x - MONITOR_SIZE);
    }
  }

  /** One more word of the shift. */
  lemma ShiftStep(mem: Memory, mem': Memory, tos: int, at: int)
    requires ShiftedDown(mem, mem', tos, at) && tos <= at && at % 8 == 0
    ensures ShiftedDown(mem, mem'[at + 8 - MONITOR_SIZE := At(mem', at + 8)], tos, at + 8)
  {
    var next := mem'[at + 8 - MONITOR_SIZE := At(mem', at + 8)];
    assert At(mem', at + 8) == At(mem, at + 8);
    forall x {:trigger At(mem, x)} | tos < x <= at + 8 && x % 8 == 0
      ensures At(next, x - MONITOR_SIZE) == At(mem, x)
    {
      if x > at { assert x == at + 8; }
    }
  }

  lemma ShiftTop(abi: Abi, mem: Memory, mem': Memory, a: Act)
    requires abi.Valid() && Shape(abi, a) && a.limit <= At(mem, a.state + STACK) < a.base
    requires ShiftedDown(Resized(abi, mem, a), mem', At(mem, a.state + STACK), a.base)
    ensures TopWords(abi, mem', Grown(a).sp, At(mem, a.sp + abi.FRAME_MANAGER_LR))
  {
    var ready, g := Resized(abi, mem, a), Grown(a);
    assert At(ready, g.sp + abi.FRAME_MANAGER_LR) == At(mem, a.sp + abi.FRAME_MANAGER_LR);
    assert At(ready, g.sp + abi.INITIAL_CALLER_SP) == g.sp;
  }

  lemma GrownTop(abi: Abi, mem: Memory, mem': Memory, acts: seq<Act>, e: Entry)
    requires abi.Valid() && |acts| > 0 && ActInv(abi, mem, acts, e, |acts| - 1)
    requires |acts| > 1 ==> acts[|acts| - 1].fp < acts[|acts| - 2].state
    requires acts[|acts| - 1].sp > MONITOR_SIZE && FieldsGrown(mem, mem', acts[|acts| - 1])
    ensures ActInv(abi, mem', acts[|acts| - 1 := Grown(acts[|acts| - 1])], e, |acts| - 1)
    ensures |acts| > 1 ==> SameFrom(mem, mem', acts[|acts| - 2].state)
  {
    var a := acts[|acts| - 1];
    assert Shape(abi, Grown(a)) by {
      Minus16(a.sp, MONITOR_SIZE);
      Aligned8(a.base, MONITOR_SIZE);
      Aligned8(a.limit, MONITOR_SIZE);
    }
    Aligned8(At(mem, a.state + STACK), MONITOR_SIZE);
    assert At(mem', a.state + LAST_FP) == a.fp && At(mem', a.fp) == At(mem, a.fp);
    assert Object(mem', Grown(a), At(mem, a.state + PREV_LINK));
  }

  lemma GrownInv(abi: Abi, mem: Memory, mem': Memory, acts: seq<Act>, e: Entry)
    requires abi.Valid() && ActsInv(abi, mem, acts, e) && |acts| > 0
    requires acts[|acts| - 1].sp > MONITOR_SIZE && FieldsGrown(mem, mem', acts[|acts| - 1])
    ensures ActsInv(abi, mem', acts[|acts| - 1 := Grown(acts[|acts| - 1])], e)
  {
    var n := |acts|;
    assert ActInv(abi, mem, acts, e, n - 1);
    if n > 1 { BelowCaller(abi, mem, acts, e, n - 1); }
    GrownTop(abi, mem, mem', acts, e);
    TopChanged(abi, mem, mem', acts, e, Grown(acts[n - 1]));
  }

  /** What the interpreter asks for, or does, between two entries to the frame manager. */
  datatype Op =
    | DoInterpret(writes: Memory, tos: int, exception: int)
    | DoCall(m: Method)
    | DoReturn(ending: Ending, stores: Memory)  // stores: those of a C function called on the way
    | DoGrow

  // --------------------------------------------------------- the back chain

  /** The addresses met by following the back chain. */
  function Walk(mem: Memory, sp: int, steps: nat): (targets: seq<int>)
    ensures |targets| == steps
    decreases steps
  {
    if steps == 0 then [] else [At(mem, sp)] + Walk(mem, At(mem, sp), steps - 1)
  }

  /** From sp the back chain visits exactly the live activations, youngest first, then the frame
      of the frame manager's caller; it strictly increases, and every frame is aligned. */
  ghost predicate LeadsThrough(mem: Memory, sp: int, acts: seq<Act>, e: Entry) {
    var w := Walk(mem, sp, |acts| + 1);
    && (forall k :: 0 <= k < |acts| ==> w[k] == acts[|acts| - 1 - k].fp && w[k] % 16 == 0 && w[k] < w[k + 1])
    && w[|acts|] == e.chain
  }

  lemma {:induction false} BackChain(abi: Abi, mem: Memory, acts: seq<Act>, e: Entry, sp: int)
    requires abi.Valid() && ActsInv(abi, mem, acts, e)
    requires At(mem, sp) == (if acts == [] then e.chain else acts[|acts| - 1].fp)
    ensures LeadsThrough(mem, sp, acts, e)
    decreases |acts|
  {
    var n := |acts|;
    if n > 0 {
      var older, fp := acts[..n - 1], acts[n - 1].fp;
      assert ActInv(abi, mem, acts, e, n - 1);
      if n > 1 {
        PoppedInv(abi, mem, mem, acts, e);
        Descending(abi, mem, acts, e, n - 2, n - 1);
      }
      BackChain(abi, mem, older, e, fp);
      var w, v := Walk(mem, sp, n + 1), Walk(mem, fp, n);
      assert w == [fp] + v;
      forall k | 0 <= k < n
        ensures w[k] == acts[n - 1 - k].fp && w[k] % 16 == 0 && w[k] < w[k + 1]
      {
        if k > 0 {
          assert w[k] == v[k - 1] && w[k + 1] == v[k];
        } else {
          assert w[1] == v[0] == At(mem, fp);
        }
      }
    }
  }

  // ------------------------------------------------------------ whole runs

  /** The state between two requests, with the pending exception. */
  datatype Snapshot = Snapshot(mem: Memory, acts: seq<Act>, pending: int)

  /** Every activation's locals lie below the interpreter objects of its callers, and above its
      own. */
  ghost predicate Stacked(acts: seq<Act>) {
    && (forall i :: 0 <= i < |acts| ==> acts[i].fp < acts[i].locals && acts[i].base <= acts[i].state)
    && forall i, j :: 0 <= i < j < |acts| ==> acts[j].locals + 8 <= acts[i].state
  }

  lemma ActsStacked(abi: Abi, mem: Memory, acts: seq<Act>, e: Entry)
    requires abi.Valid() && ActsInv(abi, mem, acts, e)
    ensures Stacked(acts)
  {
    forall i | 0 <= i < |acts|
      ensures acts[i].fp < acts[i].locals && acts[i].base <= acts[i].state
    {
      assert ActInv(abi, mem, acts, e, i);
    }
    forall i, j | 0 <= i < j < |acts|
      ensures acts[j].locals + 8 <= acts[i].state
    {
      Descending(abi, mem, acts, e, i, j - 1);
      assert ActInv(abi, mem, acts, e, j) && ActInv(abi, mem, acts, e, j - 1);
    }
  }

  /** What a request does to the activations and to memory. A call adds one activation, whose
      locals begin with the arguments, or none when its frame does not fit; a return removes the
      youngest; only words of the activation concerned and below change, and from its parent frame
      up only those that the interpreter stored to. */
  ghost predicate Served(op: Op, s: Snapshot, s': Snapshot)
    requires s.acts != []
  {
    var n := |s.acts|;
    var top := s.acts[n - 1];
    match op
    case DoInterpret(writes, _, _) =>
      && s'.acts == s.acts && SameFrom(s.mem, s'.mem, top.locals + 8)
      && At(s'.mem, top.fp + LR) == At(s.mem, top.fp + LR)
      && forall x :: x >= top.fp && x !in writes ==> At(s'.mem, x) == At(s.mem, x)
    case DoGrow => s'.acts == s.acts[n - 1 := Grown(top)] && SameFrom(s.mem, s'.mem, top.fp)
    case DoCall(m) =>
      || (s'.acts == s.acts && SameFrom(s.mem, s'.mem, top.base))
      || (&& |s'.acts| == n + 1 && s'.acts[..n] == s.acts
          && s'.acts[n].locals == At(s.mem, top.state + STACK) + 8 * m.parameters
          && s'.acts[n].fp < At(s.mem, top.state + STACK) <= top.base - 8
          && SameFrom(s.mem, s'.mem, At(s.mem, top.state + STACK) + 8))
    case DoReturn(ending, _) =>
      s'.acts == s.acts[..n - 1] && (n > 1 ==> Resumed(s.mem, s'.mem, top, s.acts[n - 2], ending))
  }

  /** The frame manager's return addresses: a call passes the one in the caller's top frame on to
      the parent frame, and every top frame that is made or resumed gets its own. */
  ghost predicate Relinked(abi: Abi, here: int, op: Op, s: Snapshot, s': Snapshot)
    requires s.acts != [] && s'.acts != []
  {
    var top, top' := s.acts[|s.acts| - 1], s'.acts[|s'.acts| - 1];
    var word := At(s.mem, top.sp + abi.FRAME_MANAGER_LR);
    && At(s'.mem, top'.sp + abi.FRAME_MANAGER_LR) ==
         (if op.DoCall? || op.DoReturn? then here
          else if op.DoInterpret? && top.sp + abi.FRAME_MANAGER_LR in op.writes then op.writes[top.sp + abi.FRAME_MANAGER_LR]
          else word)
    && (|s'.acts| > |s.acts| ==> At(s'.mem, top'.fp + LR) == word)
  }

  lemma InterpretServes(abi: Abi, here: int, s: Snapshot, writes: Memory, tos: int, exception: int)
    requires abi.Valid() && s.acts != [] && Shape(abi, s.acts[|s.acts| - 1])
    requires forall x :: x in writes ==> OwnData(abi, s.acts[|s.acts| - 1], x)
    requires s.acts[|s.acts| - 1].fp + abi.PARENT_SIZE <= s.acts[|s.acts| - 1].locals
    ensures var s' := Snapshot((s.mem + writes)[s.acts[|s.acts| - 1].state + STACK := tos], s.acts, exception);
            var op := DoInterpret(writes, tos, exception);
            Served(op, s, s') && Relinked(abi, here, op, s, s')
  {
  }

  /** Every activation but the first returns to the frame manager. */
  ghost predicate Linked(abi: Abi, here: int, s: Snapshot) {
    && s.acts != [] && At(s.mem, s.acts[|s.acts| - 1].sp + abi.FRAME_MANAGER_LR) == here
    && forall i :: 0 < i < |s.acts| ==> At(s.mem, s.acts[i].fp + LR) == here
  }

  /** The interpreter does not store to the frame manager's return address in the top frame. */
  ghost predicate SparesLink(abi: Abi, op: Op, s: Snapshot) {
    op.DoInterpret? && s.acts != [] ==> s.acts[|s.acts| - 1].sp + abi.FRAME_MANAGER_LR !in op.writes
  }

  /** While activation l is live, so are its callers, nothing above its locals changes, nor does
      the return address in its parent frame. */
  ghost predicate Kept(s: Snapshot, s': Snapshot, l: nat) {
    && l < |s.acts| && l < |s'.acts| && s'.acts[..l] == s.acts[..l]
    && s'.acts[l].locals == s.acts[l].locals && s'.acts[l].fp == s.acts[l].fp
    && SameFrom(s.mem, s'.mem, s.acts[l].locals + 8) && At(s'.mem, s.acts[l].fp + LR) == At(s.mem, s.acts[l].fp + LR)
  }

  lemma ServedKeeps(op: Op, s: Snapshot, s': Snapshot, l: nat)
    requires Stacked(s.acts) && Stacked(s'.acts) && l < |s.acts| && l < |s'.acts| && Served(op, s, s')
    ensures Kept(s, s', l)
  {
    match op
    case DoInterpret(_, _, _) => BelowKept(s, s', l);
    case DoGrow => BelowKept(s, s', l);
    case DoCall(m) => CallKeeps(m, s, s', l);
    case DoReturn(ending, stores) => ReturnKeeps(ending, stores, s, s', l);
  }

  /** Nothing changed above the youngest activation's locals, nor the link in its parent frame. */
  lemma BelowKept(s: Snapshot, s': Snapshot, l: nat)
    requires Stacked(s.acts) && l < |s.acts| == |s'.acts| && s'.acts[..|s.acts| - 1] == s.acts[..|s.acts| - 1]
    requires var top, top' := s.acts[|s.acts| - 1], s'.acts[|s.acts| - 1];
             && top'.locals == top.locals && top'.fp == top.fp
             && SameFrom(s.mem, s'.mem, top.locals + 8) && At(s'.mem, top.fp + LR) == At(s.mem, top.fp + LR)
    ensures Kept(s, s', l)
  {
    var n := |s.acts|;
    if l < n - 1 {
      assert s'.acts[l] == s'.acts[..n - 1][l] == s.acts[l];
      assert s'.acts[..l] == s'.acts[..n - 1][..l] == s.acts[..l];
      assert s.acts[n - 1].locals + 8 <= s.acts[l].state;
    }
  }

  lemma CallKeeps(m: Method, s: Snapshot, s': Snapshot, l: nat)
    requires Stacked(s.acts) && l < |s.acts| && Served(DoCall(m), s, s')
    ensures Kept(s, s', l)
  {
    var n := |s.acts|;
    var top := s.acts[n - 1];
    assert SameFrom(s.mem, s'.mem, top.base);
    assert l < n - 1 ==> top.locals + 8 <= s.acts[l].state;
    assert s'.acts[..n] == s.acts;
    assert s'.acts[l] == s'.acts[..n][l] == s.acts[l];
    assert s'.acts[..l] == s'.acts[..n][..l];
  }

  lemma ReturnKeeps(ending: Ending, stores: Memory, s: Snapshot, s': Snapshot, l: nat)
    requires Stacked(s.acts) && l < |s.acts| - 1 && Served(DoReturn(ending, stores), s, s')
    ensures Kept(s, s', l)
  {
    var n := |s.acts|;
    assert s.acts[n - 1].locals + 8 <= s.acts[n - 2].state;
    assert l < n - 2 ==> s.acts[n - 2].locals + 8 <= s.acts[l].state;
    assert s'.acts[l] == s.acts[..n - 1][l] == s.acts[l];
    assert s'.acts[..l] == s.acts[..n - 1][..l] == s.acts[..l];
  }

  lemma KeptOn(s: Snapshot, t: Snapshot, u: Snapshot, l: nat)
    requires Kept(s, t, l) && Kept(t, u, l)
    ensures Kept(s, u, l)
  {
  }

  /** The requests served so far: none is served once no activation is left. */
  ghost predicate Trace(requests: seq<Op>, snaps: seq<Snapshot>) {
    && 0 < |snaps| <= |requests| + 1
    && (forall i {:trigger Stacked(snaps[i].acts)} :: 0 <= i < |snaps| ==> Stacked(snaps[i].acts))
    && forall i :: 0 <= i < |snaps| - 1 ==> TraceAt(requests, snaps, i)
  }

  ghost predicate TraceAt(requests: seq<Op>, snaps: seq<Snapshot>, i: nat)
    requires i < |snaps| - 1 && i < |requests|
  {
    snaps[i].acts != [] && Served(requests[i], snaps[i], snaps[i + 1])
  }

  lemma TraceExtends(requests: seq<Op>, snaps: seq<Snapshot>, next: Snapshot)
    requires Trace(requests, snaps) && |snaps| <= |requests| && Stacked(next.acts)
    requires snaps[|snaps| - 1].acts != [] && Served(requests[|snaps| - 1], snaps[|snaps| - 1], next)
    ensures Trace(requests, snaps + [next])
  {
    var all, n := snaps + [next], |snaps|;
    forall i | 0 <= i < n
      ensures TraceAt(requests, all, i)
    {
      assert i < n - 1 ==> TraceAt(requests, snaps, i);
    }
  }

  lemma LinkKept(here: int, op: Op, s: Snapshot, s': Snapshot, i: nat)
    requires Stacked(s.acts) && Stacked(s'.acts) && i < |s.acts| && i < |s'.acts| && Served(op, s, s')
    requires At(s.mem, s.acts[i].fp + LR) == here
    ensures At(s'.mem, s'.acts[i].fp + LR) == here
  {
    ServedKeeps(op, s, s', i);
  }

  lemma StaysLinked(abi: Abi, here: int, op: Op, s: Snapshot, s': Snapshot)
    requires Linked(abi, here, s) && SparesLink(abi, op, s) && s'.acts != [] && |s'.acts| <= |s.acts| + 1
    requires Stacked(s.acts) && Stacked(s'.acts) && Served(op, s, s') && Relinked(abi, here, op, s, s')
    ensures Linked(abi, here, s')
  {
    forall i | 0 < i < |s'.acts|
      ensures At(s'.mem, s'.acts[i].fp + LR) == here
    {
      if i < |s.acts| {
        LinkKept(here, op, s, s', i);
      }
    }
  }

  /** No request so far stored to the link. */
  ghost predicate AllSpare(abi: Abi, requests: seq<Op>, snaps: seq<Snapshot>)
    requires 0 < |snaps| <= |requests| + 1
  {
    forall k :: 0 <= k < |snaps| - 1 ==> SparesLink(abi, requests[k], snaps[k])
  }

  lemma LinkExtends(abi: Abi, here: int, requests: seq<Op>, snaps: seq<Snapshot>, next: Snapshot)
    requires 0 < |snaps| <= |requests| && next.acts != [] && Stacked(next.acts)
    requires AllSpare(abi, requests, snaps) ==> Linked(abi, here, snaps[|snaps| - 1])
    requires var op, last := requests[|snaps| - 1], snaps[|snaps| - 1];
             && last.acts != [] && Stacked(last.acts) && |next.acts| <= |last.acts| + 1
             && Served(op, last, next) && Relinked(abi, here, op, last, next)
    ensures AllSpare(abi, requests, snaps + [next]) ==> Linked(abi, here, next)
  {
    if AllSpare(abi, requests, snaps + [next]) {
      AllSpareBefore(abi, requests, snaps, next);
      StaysLinked(abi, here, requests[|snaps| - 1], snaps[|snaps| - 1], next);
    }
  }

  /** What a run keeps from one request to the next. */
  lemma RunExtends(abi: Abi, here: int, requests: seq<Op>, snaps: seq<Snapshot>, next: Snapshot, before: Memory, limit: int)
    requires Trace(requests, snaps) && |snaps| <= |requests| && next.acts != [] && Stacked(next.acts)
    requires AllSpare(abi, requests, snaps) ==> Linked(abi, here, snaps[|snaps| - 1])
    requires var op, last := requests[|snaps| - 1], snaps[|snaps| - 1];
             && last.acts != [] && Stacked(last.acts) && |next.acts| <= |last.acts| + 1
             && Served(op, last, next) && Relinked(abi, here, op, last, next)
             && last.acts[0].locals + 8 == limit && SameFrom(before, last.mem, limit)
    ensures Trace(requests, snaps + [next])
    ensures next.acts[0].locals + 8 == limit && SameFrom(before, next.mem, limit)
    ensures AllSpare(abi, requests, snaps + [next]) ==> Linked(abi, here, next)
  {
    ServedKeeps(requests[|snaps| - 1], snaps[|snaps| - 1], next, 0);
    TraceExtends(requests, snaps, next);
    LinkExtends(abi, here, requests, snaps, next);
  }

  lemma AllSpareBefore(abi: Abi, requests: seq<Op>, snaps: seq<Snapshot>, next: Snapshot)
    requires 0 < |snaps| <= |requests| && AllSpare(abi, requests, snaps + [next])
    ensures AllSpare(abi, requests, snaps) && SparesLink(abi, requests[|snaps| - 1], snaps[|snaps| - 1])
  {
    var all := snaps + [next];
    forall k | 0 <= k < |snaps|
      ensures SparesLink(abi, requests[k], snaps[k])
    {
      assert all[k] == snaps[k];
    }
  }

  /** From snapshot i to snapshot j activation l is live throughout. */
  ghost predicate Live(snaps: seq<Snapshot>, i: nat, j: nat, l: nat)
    requires i <= j < |snaps|
  {
    forall k :: i <= k <= j ==> |snaps[k].acts| > l
  }

  lemma TraceStep(requests: seq<Op>, snaps: seq<Snapshot>, i: nat)
    requires Trace(requests, snaps) && i < |snaps| - 1
    ensures snaps[i].acts != [] && Served(requests[i], snaps[i], snaps[i + 1])
    ensures Stacked(snaps[i].acts) && Stacked(snaps[i + 1].acts)
  {
    assert TraceAt(requests, snaps, i);
    assert Stacked(snaps[i].acts) && Stacked(snaps[i + 1].acts);
  }

  lemma {:induction false} LiveKeeps(requests: seq<Op>, snaps: seq<Snapshot>, i: nat, j: nat, l: nat)
    requires Trace(requests, snaps) && i <= j < |snaps| && Live(snaps, i, j, l)
    ensures Kept(snaps[i], snaps[j], l)
    decreases j - i
  {
    assert |snaps[i].acts| > l;
    if i < j {
      LiveKeeps(requests, snaps, i, j - 1, l);
      assert |snaps[j].acts| > l;
      TraceStep(requests, snaps, j - 1);
      ServedKeeps(requests[j - 1], snaps[j - 1], snaps[j], l);
      KeptOn(snaps[i], snaps[j - 1], snaps[j], l);
    }
  }

  /** Between snapshots i and j the interpreter does not store to x while activation l runs. */
  ghost predicate NotStored(requests: seq<Op>, snaps: seq<Snapshot>, i: nat, j: nat, l: nat, x: int)
    requires i <= j < |snaps| <= |requests| + 1
  {
    forall k :: i <= k < j && |snaps[k].acts| == l + 1 && requests[k].DoInterpret? ==> x !in requests[k].writes
  }

  lemma ServedKeepsWord(op: Op, s: Snapshot, s': Snapshot, l: nat, x: int)
    requires Stacked(s.acts) && Stacked(s'.acts) && l < |s.acts| && l < |s'.acts| && Served(op, s, s')
    requires x >= s.acts[l].fp && (|s.acts| == l + 1 && op.DoInterpret? ==> x !in op.writes)
    ensures At(s'.mem, x) == At(s.mem, x)
  {
  }

  /** While activation l is live, a word from its parent frame on keeps its value unless the
      interpreter itself stores to it for that activation; no nested activation touches it. */
  lemma {:induction false} LiveKeepsWord(requests: seq<Op>, snaps: seq<Snapshot>, i: nat, j: nat, l: nat, x: int)
    requires Trace(requests, snaps) && i <= j < |snaps| && Live(snaps, i, j, l)
    requires |snaps[i].acts| > l && x >= snaps[i].acts[l].fp && NotStored(requests, snaps, i, j, l, x)
    ensures At(snaps[j].mem, x) == At(snaps[i].mem, x)
    decreases j - i
  {
    if i < j {
      LiveKeepsWord(requests, snaps, i, j - 1, l, x);
      LiveKeeps(requests, snaps, i, j - 1, l);
      assert |snaps[j].acts| > l;
      TraceStep(requests, snaps, j - 1);
      ServedKeepsWord(requests[j - 1], snaps[j - 1], snaps[j], l, x);
    }
  }

  /** A call of m from snapshot s and its return, from u to v, as the caller sees it: from just
      above the arguments on every word is the same, but for its own top of stack. After an
      exception the arguments are popped, after a normal return the result is in their place, and
      after a popped frame the top of stack is where it was and the return left the arguments
      alone. */
  ghost predicate Restored(m: Method, ending: Ending, s: Snapshot, u: Snapshot, v: Snapshot)
    requires 0 < |s.acts| < |u.acts|
  {
    var caller, callee := s.acts[|s.acts| - 1], u.acts[|s.acts|];
    var tos := At(s.mem, caller.state + STACK);
    var arguments := tos + 8 * m.parameters;
    && (forall x :: x >= arguments + 8 && x != caller.state + STACK ==> At(v.mem, x) == At(s.mem, x))
    && match ending
       case Exception => At(v.mem, caller.state + STACK) == arguments
       case Result(slots) =>
         && At(v.mem, caller.state + STACK) == arguments - 8 * slots
         && forall k :: 1 <= k <= slots ==>
              At(v.mem, arguments - 8 * slots + 8 * k) == At(u.mem, At(u.mem, callee.state + STACK) + 8 * k)
       case PopFrame =>
         At(v.mem, caller.state + STACK) == tos && forall x :: tos < x < arguments + 8 ==> At(v.mem, x) == At(u.mem, x)
  }

  /** A balanced run from a call to the matching return, however many calls, returns, stores and
      new monitors there are in between: the caller and its callers are the same activations as
      before, and the caller finds every remaining operand and every monitor as it left them. */
  lemma BalancedCall(requests: seq<Op>, snaps: seq<Snapshot>, i: nat, j: nat)
    requires Trace(requests, snaps) && i + 1 < j < |snaps| && |snaps[j].acts| == |snaps[i].acts|
    requires Live(snaps, i + 1, j - 1, |snaps[i].acts|)
    ensures snaps[i].acts != [] && snaps[j].acts == snaps[i].acts && requests[i].DoCall? && requests[j - 1].DoReturn?
    ensures |snaps[j - 1].acts| > |snaps[i].acts|
    ensures Restored(requests[i].m, requests[j - 1].ending, snaps[i], snaps[j - 1], snaps[j])
  {
    TraceStep(requests, snaps, i);
    TraceStep(requests, snaps, j - 1);
    assert |snaps[i + 1].acts| > |snaps[i].acts| && |snaps[j - 1].acts| > |snaps[i].acts|;
    LiveKeeps(requests, snaps, i + 1, j - 1, |snaps[i].acts|);
    CallToReturn(requests[i], requests[j - 1], snaps[i], snaps[i + 1], snaps[j - 1], snaps[j]);
  }

  /** The call, what happens while the callee is live, and the return. */
  lemma CallToReturn(call: Op, last: Op, s: Snapshot, t: Snapshot, u: Snapshot, v: Snapshot)
    requires s.acts != [] && |v.acts| == |s.acts| && |t.acts| > |s.acts| && |u.acts| > |s.acts|
    requires Served(call, s, t) && Kept(t, u, |s.acts|) && Served(last, u, v) && Stacked(t.acts)
    ensures call.DoCall? && last.DoReturn? && v.acts == s.acts
    ensures Restored(call.m, last.ending, s, u, v)
  {
    var n := |s.acts|;
    assert last.DoReturn? && |u.acts| == n + 1;
    assert u.acts[..n] == t.acts[..n] == s.acts;
    assert u.acts[n - 1] == u.acts[..n][n - 1] == s.acts[n - 1];
    assert t.acts[n - 1] == t.acts[..n][n - 1] == s.acts[n - 1];
    ReturnRestores(call.m, last.ending, s, t, u, v, s.acts[n - 1], u.acts[n]);
  }

  lemma ReturnRestores(m: Method, ending: Ending, s: Snapshot, t: Snapshot, u: Snapshot, v: Snapshot, caller: Act, callee: Act)
    requires 0 < |s.acts| < |u.acts| && s.acts[|s.acts| - 1] == caller && u.acts[|s.acts|] == callee
    requires callee.locals == At(s.mem, caller.state + STACK) + 8 * m.parameters && callee.locals + 8 <= caller.state
    requires SameFrom(s.mem, t.mem, At(s.mem, caller.state + STACK) + 8) && SameFrom(t.mem, u.mem, callee.locals + 8)
    requires Resumed(u.mem, v.mem, callee, caller, ending)
    ensures Restored(m, ending, s, u, v)
  {
    assert At(u.mem, caller.state + STACK) == At(s.mem, caller.state + STACK);
  }

  /** When the callee is popped and did not store to one of its arguments, the caller, which will
      make the call again, finds that argument as it was. */
  lemma PoppedArgument(requests: seq<Op>, snaps: seq<Snapshot>, i: nat, j: nat, x: int)
    requires Trace(requests, snaps) && i + 1 < j < |snaps| && |snaps[j].acts| == |snaps[i].acts|
    requires Live(snaps, i + 1, j - 1, |snaps[i].acts|) && NotStored(requests, snaps, i + 1, j - 1, |snaps[i].acts|, x)
    requires snaps[i].acts != [] && requests[i].DoCall? && requests[j - 1].DoReturn? && requests[j - 1].ending.PopFrame?
    requires var caller := snaps[i].acts[|snaps[i].acts| - 1];
             var tos := At(snaps[i].mem, caller.state + STACK);
             tos + 8 <= x <= tos + 8 * requests[i].m.parameters
    ensures At(snaps[j].mem, x) == At(snaps[i].mem, x)
  {
    var n := |snaps[i].acts|;
    BalancedCall(requests, snaps, i, j);
    TraceStep(requests, snaps, i);
    assert |snaps[i + 1].acts| > n;
    LiveKeepsWord(requests, snaps, i + 1, j - 1, n, x);
  }

  class Manager {
    const abi: Abi
    const overflowLimit: int
    var mem: Memory
    var sp: int
    var r14: int   // R14_state
    var r15: int   // R15_prev_state
    var lr: int
    var r3: int        // R3_ARG1, the exception, when a handler is branched to
    var r4: int        // R4_ARG2, the issuing pc then
    var pending: int   // the thread's pending exception, or 0
    const handlerFor: int -> int  // exception_handler_for_return_address
    ghost var acts: seq<Act>
    ghost var entry: Entry

    constructor (abi: Abi, overflowLimit: int, handlerFor: int -> int, mem: Memory, sp: int)
      ensures this.abi == abi && this.overflowLimit == overflowLimit && this.handlerFor == handlerFor
      ensures this.mem == mem && this.sp == sp && pending == 0
      ensures acts == []
    {
      this.abi, this.overflowLimit, this.handlerFor, this.mem, this.sp := abi, overflowLimit, handlerFor, mem, sp;
      r14, r15, lr, r3, r4, pending, acts, entry := 0, 0, 0, 0, 0, 0, [], Entry(0, 0, 0);
    }

    /** Some activation is running: the registers describe the youngest one. */
    ghost predicate Valid()
      reads this
    {
      && abi.Valid() && overflowLimit > 0 && entry.sender % 16 == 0
      && |acts| > 0 && ActsInv(abi, mem, acts, entry)
      && var top := acts[|acts| - 1];
         && sp == top.sp && r14 == top.state && At(mem, sp) == top.fp
         && r15 == (if |acts| == 1 then 0 else acts[|acts| - 2].state)
    }

    method Store(a: int, v: int)
      modifies this`mem
      ensures mem == old(mem)[a := v]
    {
      mem := mem[a := v];
    }

    /** resize_frame: move SP, taking the back-chain word along. */
    method ResizeFrame(offset: int)
      modifies this`mem, this`sp
      ensures sp == old(sp) + offset && mem == old(mem)[sp := old(At(mem, sp))]
    {
      var chain := At(mem, sp);
      sp := sp + offset;
      Store(sp, chain);
    }

    method PushFrame(bytes: int)
      modifies this`mem, this`sp
      ensures sp == old(sp) - bytes && mem == old(mem)[sp := old(sp)]
    {
      Store(sp - bytes, sp);
      sp := sp - bytes;
    }

    /** push_interpreter_frame */
    method PushInterpreterFrame(topSize: int, parentResize: int, here: int)
      requires abi.Valid() && topSize >= abi.TOP_SIZE
      modifies this`mem, this`sp
      ensures var fp := old(sp) - parentResize;
              && sp == fp - topSize && At(mem, sp) == fp
              && At(mem, fp) == old(At(mem, sp))
              && At(mem, fp + LR) == old(At(mem, sp + abi.FRAME_MANAGER_LR))
              && At(mem, fp + abi.INITIAL_CALLER_SP) == old(At(mem, sp + abi.INITIAL_CALLER_SP))
              && At(mem, fp + abi.TOP_FRAME_SP) == old(sp) && TopWords(abi, mem, sp, here)
              && SameFrom(old(mem), mem, fp + abi.PARENT_SIZE)
    {
      var managerLr := At(mem, sp + abi.FRAME_MANAGER_LR);
      var topFrameSp := sp;
      var initialCaller := At(mem, sp + abi.INITIAL_CALLER_SP);
      ResizeFrame(-parentResize);
      mem := mem[sp + LR := managerLr][sp + abi.TOP_FRAME_SP := topFrameSp]
                [sp + abi.INITIAL_CALLER_SP := initialCaller];
      PushFrame(topSize);
      mem := mem[sp + abi.FRAME_MANAGER_LR := here][sp + abi.INITIAL_CALLER_SP := sp];
    }

    /** generate_compute_interpreter_state, for a method that is not native. On stack overflow
        nothing has changed. */
    method ComputeInterpreterState(tos: int, m: Method, here: int) returns (ok: bool)
      requires abi.Valid() && overflowLimit > 0 && sp % 16 == 0 && tos % 8 == 0 && m.parameters <= m.locals
      modifies this`mem, this`sp, this`r14
      ensures ok == (NewAct(abi, old(sp), tos, m).sp >= overflowLimit)
      ensures !ok ==> mem == old(mem) && sp == old(sp)
      ensures ok ==>
                var a := NewAct(abi, old(sp), tos, m);
                && Shape(abi, a) && Sized(abi, old(sp), tos, m, a) && sp == a.sp && r14 == a.state
                && LaidOut(abi, old(mem), mem, old(sp), tos, a, r15, m.locals - m.parameters, here)
    {
      var a := NewAct(abi, sp, tos, m);
      if a.sp < overflowLimit {
        return false;
      }
      NewActShape(abi, sp, tos, m);
      LayOut(a, tos, m.locals - m.parameters, here);
      return true;
    }

    method LayOut(a: Act, tos: int, zeroed: nat, here: int)
      requires abi.Valid() && Shape(abi, a) && a.fp + abi.PARENT_SIZE + 16 + 8 * zeroed <= tos
      modifies this`mem, this`sp, this`r14
      ensures sp == a.sp && r14 == a.state && LaidOut(abi, old(mem), mem, old(sp), tos, a, r15, zeroed, here)
    {
      PushInterpreterFrame(a.fp - a.sp, sp - a.fp, here);
      r14 := a.state;
      InitState(a);
      ZeroLocals(tos, zeroed);
    }

    /** The zero_slot loop: the locals that are not parameters, downwards from tos. */
    method ZeroLocals(tos: int, count: nat)
      modifies this`mem
      ensures forall k :: 0 <= k < count ==> At(mem, tos - 8 * k) == 0
      ensures forall x :: x > tos || x <= tos - 8 * count ==> At(mem, x) == old(At(mem, x))
    {
      var localAddr, ctr := tos, count;
      while ctr > 0
        invariant 0 <= ctr <= count && localAddr == tos - 8 * (count - ctr)
        invariant forall k :: 0 <= k < count - ctr ==> At(mem, tos - 8 * k) == 0
        invariant forall x :: x > tos || x <= localAddr ==> At(mem, x) == old(At(mem, x))
      {
        Store(localAddr, 0);
        localAddr, ctr := localAddr - 8, ctr - 1;
      }
    }

    method InitState(a: Act)
      requires abi.Valid() && Shape(abi, a) && sp == a.sp && At(mem, sp) == a.fp && r14 == a.state
      modifies this`mem
      ensures Object(mem, a, r15) && At(mem, a.state + STACK) == a.base - 8 && At(mem, a.sp) == a.fp
      ensures SameFrom(old(mem), mem, a.fp) && MonitorFree(mem, a)
      ensures forall x :: x < a.sp + abi.TOP_SIZE ==> At(mem, x) == old(At(mem, x))
    {
      InitialWords(abi, mem, a, r15);
      StoreFields(a);
    }

    method StoreFields(a: Act)
      requires sp == a.sp && At(mem, sp) == a.fp && r14 == a.state
      modifies this`mem
      ensures mem == Initialized(old(mem), a, r15)
    {
      mem := mem[r14 + PREV_LINK := r15][r14 + LOCALS := a.locals]
                [r14 + LAST_FP := At(mem, sp)][r14 + LAST_SP := sp]
                [r14 + STACK_BASE := a.base][r14 + STACK := a.base - 8][r14 + STACK_LIMIT := a.limit];
      if a.base < a.state {
        Store(a.base + 8, 0);
      }
    }

    /** Initial entry of generate_normal_entry: from the call stub or a c2i adapter. On stack
        overflow the caller's frame is unextended again. */
    method Enter(sender: int, returnPc: int, tos: int, m: Method, here: int) returns (ok: bool)
      requires abi.Valid() && overflowLimit > 0 && acts == []
      requires sp % 16 == 0 && sender % 16 == 0 && tos % 8 == 0 && m.parameters <= m.locals
      requires sp + abi.TOP_SIZE <= tos + 8 && tos + 8 * m.parameters + 8 <= At(mem, sp)
      modifies this
      ensures ok == (NewAct(abi, old(sp), tos, m).sp >= overflowLimit)
      ensures ok ==> Valid() && |acts| == 1 && entry == Entry(sender, old(At(mem, sp)), returnPc)
                     && acts[0] == NewAct(abi, old(sp), tos, m) && TopWords(abi, mem, sp, here)
      ensures !ok ==> acts == [] && sp == sender && At(mem, sp) == old(At(mem, sp)) && lr == returnPc
      ensures if ok then SameFrom(old(mem), mem, tos + 8)
              else forall x :: x >= tos + 8 && x != sp ==> At(mem, x) == old(At(mem, x))
    {
      SaveCaller(sender, returnPc);
      SavedWords(abi, old(mem), sp, sender, returnPc, tos);
      ghost var chain := At(mem, sp);
      ok := ComputeInterpreterState(tos, m, here);
      if ok {
        entry := Entry(sender, chain, returnPc);
        ghost var a := NewAct(abi, old(sp), tos, m);
        FirstInv(abi, old(mem), mem, entry, old(sp), tos, m, a, here);
        acts := [a];
      } else {
        StackOverflowReturn();
      }
    }

    method SaveCaller(sender: int, returnPc: int)
      modifies this`mem, this`r15
      ensures r15 == 0 && mem == Saved(abi, old(mem), sp, sender, returnPc)
    {
      mem := mem[sp + abi.INITIAL_CALLER_SP := sender][sp + abi.FRAME_MANAGER_LR := returnPc];
      r15 := 0;
    }

    /** stack_overflow_return to a caller that is not interpreted. */
    method StackOverflowReturn()
      requires abi.Valid()
      modifies this`mem, this`sp, this`lr
      ensures lr == old(At(mem, sp + abi.FRAME_MANAGER_LR))
      ensures sp == old(At(mem, sp + abi.INITIAL_CALLER_SP)) && mem == old(mem)[sp := old(At(mem, sp))]
    {
      lr := At(mem, sp + abi.FRAME_MANAGER_LR);
      ResizeToInitialCaller();
    }

    /** resize_frame_to_initial_caller */
    method ResizeToInitialCaller()
      requires abi.Valid()
      modifies this`mem, this`sp
      ensures sp == old(At(mem, sp + abi.INITIAL_CALLER_SP)) && mem == old(mem)[sp := old(At(mem, sp))]
    {
      var initial := At(mem, sp + abi.INITIAL_CALLER_SP);
      var chain := At(mem, sp);
      Store(initial, chain);
      sp := initial;
    }

    /** pop_interpreter_frame_to_state for R14_state. */
    method PopFrameToState(here: int)
      requires abi.Valid()
      modifies this`mem, this`sp
      ensures sp == old(At(mem, r14 + LAST_SP))
      ensures mem == old(mem)[old(sp) := old(At(mem, r14 + LAST_FP))][sp := old(At(mem, r14 + LAST_FP))]
                             [sp + abi.FRAME_MANAGER_LR := here][sp + abi.INITIAL_CALLER_SP := sp]
    {
      var fp, newSp := At(mem, r14 + LAST_FP), At(mem, r14 + LAST_SP);
      Store(sp, fp);
      ResizeFrame(newSp - sp);
      mem := mem[sp + abi.FRAME_MANAGER_LR := here][sp + abi.INITIAL_CALLER_SP := sp];
    }

    /** stack_overflow_return and the rethrow entry: the caller, whose frame is still in
        place, is found through the back chain and resumed. */
    method ResumeAfterOverflow(here: int)
      requires abi.Valid() && overflowLimit > 0 && entry.sender % 16 == 0
      requires |acts| > 0 && ActsInv(abi, mem, acts, entry)
      requires sp == acts[|acts| - 1].sp && At(mem, sp) == acts[|acts| - 1].fp
      modifies this`mem, this`sp, this`r14, this`r15
      ensures Valid() && SameFrom(old(mem), mem, acts[|acts| - 1].limit + 8) && TopWords(abi, mem, sp, here)
    {
      ghost var top := acts[|acts| - 1];
      assert ActInv(abi, mem, acts, entry, |acts| - 1);
      FindState(top, here);
      OlderKeep(abi, old(mem), mem, acts, entry);
    }

    /** The state of the frame on top, from the back chain, and its header made anew. */
    method FindState(ghost top: Act, here: int)
      requires abi.Valid() && Shape(abi, top) && sp == top.sp && At(mem, sp) == top.fp
      requires At(mem, top.state + LAST_FP) == top.fp && At(mem, top.state + LAST_SP) == top.sp
      modifies this`mem, this`sp, this`r14, this`r15
      ensures sp == top.sp && r14 == top.state && r15 == old(At(mem, top.state + PREV_LINK))
      ensures SameFrom(old(mem), mem, top.limit + 8) && At(mem, sp) == top.fp && TopWords(abi, mem, sp, here)
    {
      r14 := At(mem, sp) - STATE_SIZE;
      r15 := At(mem, r14 + PREV_LINK);
      PopFrameToState(here);
      HeaderWords(abi, old(mem), top, here);
    }

    /** call_method for an interpreted callee: its arguments are the topmost operands. When
        the stack would overflow, the caller resumes as it was. */
    method Call(m: Method, here: int) returns (ok: bool)
      requires Valid() && m.parameters <= m.locals
      requires At(mem, r14 + STACK) + 8 * m.parameters + 8 <= acts[|acts| - 1].base
      modifies this
      ensures Valid() && entry == old(entry)
      ensures var tos := old(At(mem, r14 + STACK));
              && ok == (NewAct(abi, old(sp), tos, m).sp >= overflowLimit)
              && acts == (if ok then old(acts) + [NewAct(abi, old(sp), tos, m)] else old(acts))
              && SameFrom(old(mem), mem, tos + 8) && TopWords(abi, mem, sp, here)
              && (ok ==> At(mem, acts[|acts| - 1].fp + LR) == old(At(mem, sp + abi.FRAME_MANAGER_LR)))
    {
      assert ActInv(abi, mem, acts, entry, |acts| - 1);
      var tos := At(mem, r14 + STACK);
      r15 := r14;
      ok := ComputeInterpreterState(tos, m, here);
      if ok {
        ghost var a := NewAct(abi, old(sp), tos, m);
        CalleeInv(abi, old(mem), mem, acts, entry, old(sp), tos, m, a, here);
        acts := acts + [a];
      } else {
        ResumeAfterOverflow(here);
      }
    }

    /** BytecodeInterpreter::run between two requests: any stores to the activation's own data,
        any new top of its operand stack, and perhaps an exception left pending. */
    method Interpret(writes: Memory, tos: int, exception: int)
      requires Valid()
      requires forall x :: x in writes ==> OwnData(abi, acts[|acts| - 1], x)
      requires acts[|acts| - 1].limit <= tos < acts[|acts| - 1].base && tos % 8 == 0
      modifies this`mem, this`pending
      ensures Valid() && mem == old(mem + writes)[r14 + STACK := tos] && pending == exception
      ensures SameFrom(old(mem), mem, acts[|acts| - 1].locals + 8)
    {
      assert ActInv(abi, mem, acts, entry, |acts| - 1);
      mem := mem + writes;
      Store(r14 + STACK, tos);
      OwnDataInv(abi, old(mem), mem, acts, entry);
      pending := exception;
    }

    /** The inline stack-to-stack converters: the result moves to where the arguments were.
        Returns the new top of the caller's operand stack. */
    method MoveResult(ending: Ending) returns (newTos: int)
      requires Valid() && |acts| > 1 && (ending.Result? ==> ending.slots <= 2)
      modifies this`mem
      ensures Valid()
      ensures newTos == old(NewTos(mem, acts[|acts| - 1], acts[|acts| - 2], ending))
      ensures mem == if ending.Result? then Moved(old(mem), old(At(mem, r14 + STACK)), acts[|acts| - 1].locals, ending.slots)
                     else old(mem)
    {
      assert ActInv(abi, mem, acts, entry, |acts| - 1);
      if ending.PopFrame? {
        return At(mem, r15 + STACK);
      } else if ending.Exception? {
        return At(mem, r14 + LOCALS);
      }
      var from, tos := At(mem, r14 + STACK) + 8, At(mem, r14 + LOCALS);
      MovedInv(abi, mem, acts, entry, from - 8, ending.slots);
      MoveSlots(from, tos, ending.slots);
      newTos := tos - 8 * ending.slots;
    }

    method MoveSlots(from: int, tos: int, slots: nat)
      requires slots <= 2
      modifies this`mem
      ensures mem == Moved(old(mem), from - 8, tos, slots)
    {
      if slots == 1 {
        mem := mem[tos := At(mem, from)];
      } else if slots == 2 {
        mem := mem[tos := At(mem, from + 8)][tos - 8 := At(mem, from)];
      }
    }

    /** unwind_recursive_activation and resume_interpreter. */
    method Unwind(newTos: int, here: int)
      requires Valid() && |acts| > 1
      requires acts[|acts| - 2].limit <= newTos < acts[|acts| - 2].base && newTos % 8 == 0
      modifies this
      ensures Valid() && entry == old(entry) && acts == old(acts)[..|old(acts)| - 1]
      ensures mem == Unwound(abi, old(mem), old(sp), acts[|acts| - 1], newTos, here) && TopWords(abi, mem, sp, here)
    {
      ghost var n := |acts|;
      ghost var callee, caller := acts[n - 1], acts[n - 2];
      Bounds(abi, mem, acts, entry);
      UnwoundWords(abi, mem, callee, caller, newTos, here);
      UnwoundInv(abi, mem, acts, entry, Unwound(abi, mem, sp, caller, newTos, here));
      ResumeCaller(caller, newTos, here);
      acts := acts[..n - 1];
    }

    method ResumeCaller(ghost caller: Act, newTos: int, here: int)
      requires abi.Valid() && r15 == caller.state
      requires At(mem, r15 + LAST_FP) == caller.fp && At(mem, r15 + LAST_SP) == caller.sp
      modifies this`mem, this`sp, this`r14, this`r15
      ensures r14 == caller.state && r15 == old(At(mem, r15 + PREV_LINK)) && sp == caller.sp
      ensures mem == Unwound(abi, old(mem), old(sp), caller, newTos, here)
    {
      r14 := r15;
      r15 := At(mem, r14 + PREV_LINK);
      PopFrameToState(here);
      Store(r14 + STACK, newTos);
    }

    /** return_from_interpreted_method, throwing_exception and popping_frame for an activation
        that another one called. */
    method Return(ending: Ending, here: int)
      requires Valid() && |acts| > 1
      requires ending.Result? ==> ending.slots <= 2 && acts[|acts| - 2].limit <= acts[|acts| - 1].locals - 8 * ending.slots
      modifies this
      ensures Valid() && entry == old(entry) && acts == old(acts)[..|old(acts)| - 1]
      ensures var callee, caller := old(acts)[|acts|], acts[|acts| - 1];
              Resumed(old(mem), mem, callee, caller, ending) && TopWords(abi, mem, sp, here)
    {
      ReturnedWords(abi, mem, acts, entry, ending, here);
      MoveAndUnwind(ending, here);
    }

    method MoveAndUnwind(ending: Ending, here: int)
      requires Valid() && |acts| > 1
      requires ending.Result? ==> ending.slots <= 2 && acts[|acts| - 2].limit <= acts[|acts| - 1].locals - 8 * ending.slots
      modifies this
      ensures Valid() && entry == old(entry) && acts == old(acts)[..|old(acts)| - 1]
      ensures mem == Returned(abi, old(mem), old(acts)[|acts|], acts[|acts| - 1], ending, here) && TopWords(abi, mem, sp, here)
    {
      Bounds(abi, mem, acts, entry);
      var newTos := MoveResult(ending);
      Unwind(newTos, here);
    }

    /** return_to_initial_caller, throwing_exception and popping_frame for the first activation:
        back to the caller of the frame manager, whose frame is unextended on the way. With an
        exception LR is the handler for the return address. */
    method Leave(ending: Ending, stores: Memory) returns (raised: bool)
      requires Valid() && |acts| == 1
      modifies this
      ensures raised <==> ending.Exception? || (ending.Result? && old(pending) != 0)
      ensures raised == Raises(ending, old(pending)) && acts == [] && entry == old(entry) && Left(raised, old(Snapshot(mem, acts, pending)))
      ensures !raised ==> pending == old(pending)
    {
      raised := ending.Exception? || (ending.Result? && pending != 0);
      var returnPc := PopToInitialCaller();
      if raised {
        PassException(returnPc, stores);
      } else {
        lr := returnPc;
      }
      acts := [];
    }

    method PopToInitialCaller() returns (returnPc: int)
      requires Valid() && |acts| == 1
      modifies this`mem, this`sp
      ensures returnPc == entry.lr && sp == entry.sender && At(mem, sp) == entry.chain
      ensures forall x :: x != sp ==> At(mem, x) == old(At(mem, x))
    {
      assert ActInv(abi, mem, acts, entry, 0);
      sp := At(mem, sp);
      returnPc := At(mem, sp + LR);
      ResizeToInitialCaller();
    }

    /** The end of unwind_initial_activation_pending_exception. */
    method PassException(returnPc: int, stores: Memory)
      requires abi.Valid()
      modifies this`mem, this`sp, this`lr, this`r14, this`r3, this`r4, this`pending
      ensures sp == old(sp) && SameFrom(old(mem), mem, sp)
      ensures lr == handlerFor(returnPc) && r4 == returnPc && r3 == old(pending) && pending == 0
    {
      r14, r4 := returnPc, returnPc;
      FindHandler(stores);
      r3, pending := pending, 0;
      r4 := r14;
    }

    /** The call of exception_handler_for_return_address, from a frame of its own. The callee may
        store anything below our SP but the back chain. */
    method FindHandler(stores: Memory)
      requires abi.Valid()
      modifies this`mem, this`sp, this`lr
      ensures sp == old(sp) && lr == handlerFor(r4) && SameFrom(old(mem), mem, sp)
    {
      var limit := sp;
      PushFrame(abi.TOP_SIZE);
      mem := mem + CalleeStores(stores, sp, limit);
      lr := handlerFor(r4);
      sp := At(mem, sp);
    }

    /** The copy_slot loop of generate_more_monitors: ldu and stdu, from the top of the stack to
        its bottom, and one word further. */
    method ShiftDown(tos: int, base: int)
      requires tos % 8 == 0 && base % 8 == 0 && tos < base
      modifies this`mem
      ensures ShiftedDown(old(mem), mem, tos, base)
    {
      var oldTos, newTos, ctr := tos, tos - MONITOR_SIZE, (base - tos) / 8;
      while ctr > 0
        invariant 0 <= ctr && oldTos == base - 8 * ctr && newTos == oldTos - MONITOR_SIZE && tos <= oldTos && oldTos % 8 == 0
        invariant ShiftedDown(old(mem), mem, tos, oldTos)
      {
        ShiftStep(old(mem), mem, tos, oldTos);
        oldTos := oldTos + 8;
        var slot := At(mem, oldTos);
        newTos := newTos + 8;
        Store(newTos, slot);
        ctr := ctr - 1;
      }
    }

    /** generate_more_monitors: a monitor is inserted between the others and the operands. */
    method MoreMonitors()
      requires Valid() && sp > MONITOR_SIZE
      modifies this`mem, this`sp, this`acts
      ensures Valid() && acts == old(acts[|acts| - 1 := Grown(acts[|acts| - 1])])
      ensures GrowsMonitor(old(mem), mem, old(acts[|acts| - 1]))
      ensures TopWords(abi, mem, sp, old(At(mem, sp + abi.FRAME_MANAGER_LR)))
    {
      ghost var top := acts[|acts| - 1];
      assert ActInv(abi, mem, acts, entry, |acts| - 1);
      InsertMonitor();
      acts := acts[|acts| - 1 := Grown(top)];
    }

    method InsertMonitor()
      requires Valid() && sp > MONITOR_SIZE
      modifies this`mem, this`sp
      ensures var top := acts[|acts| - 1];
              && sp == top.sp - MONITOR_SIZE && GrowsMonitor(old(mem), mem, top)
              && ActsInv(abi, mem, acts[|acts| - 1 := Grown(top)], entry)
      ensures TopWords(abi, mem, sp, old(At(mem, sp + abi.FRAME_MANAGER_LR)))
    {
      assert ActInv(abi, mem, acts, entry, |acts| - 1);
      var stackBase := At(mem, r14 + STACK_BASE);
      MakeRoom();
      Store(stackBase - MONITOR_SIZE + 8, 0);
    }

    /** All but marking the new monitor free. */
    method MakeRoom()
      requires Valid() && sp > MONITOR_SIZE
      modifies this`mem, this`sp
      ensures var top := acts[|acts| - 1];
              var mem' := mem[Grown(top).base + 8 := 0];
              && sp == top.sp - MONITOR_SIZE && GrowsMonitor(old(mem), mem', top)
              && ActsInv(abi, mem', acts[|acts| - 1 := Grown(top)], entry)
      ensures TopWords(abi, mem, sp, old(At(mem, sp + abi.FRAME_MANAGER_LR)))
    {
      assert ActInv(abi, mem, acts, entry, |acts| - 1);
      MoveOperands(acts[|acts| - 1]);
      GrownInv(abi, old(mem), mem[Grown(acts[|acts| - 1]).base + 8 := 0], acts, entry);
    }

    method MoveOperands(ghost top: Act)
      requires abi.Valid() && Shape(abi, top) && sp == top.sp && r14 == top.state
      requires At(mem, r14 + STACK_BASE) == top.base && At(mem, r14 + STACK_LIMIT) == top.limit
      requires At(mem, r14 + STACK) % 8 == 0 && top.limit <= At(mem, r14 + STACK) < top.base
      modifies this`mem, this`sp
      ensures sp == top.sp - MONITOR_SIZE
      ensures GrowsMonitor(old(mem), mem[Grown(top).base + 8 := 0], top)
      ensures TopWords(abi, mem, sp, old(At(mem, sp + abi.FRAME_MANAGER_LR)))
    {
      var stackBase, tos := At(mem, r14 + STACK_BASE), At(mem, r14 + STACK);
      MoveBounds(top, stackBase, tos, At(mem, r14 + STACK_LIMIT));
      ShiftDown(tos, stackBase);
      ShiftGrows(abi, old(mem), mem, top);
      ShiftTop(abi, old(mem), mem, top);
    }

    /** The frame grows, and its bounds in the interpreter object move with it. */
    method MoveBounds(ghost top: Act, stackBase: int, tos: int, stackLimit: int)
      requires sp == top.sp && r14 == top.state && stackBase == top.base && stackLimit == top.limit && tos == At(mem, r14 + STACK)
      modifies this`mem, this`sp
      ensures sp == top.sp - MONITOR_SIZE && mem == Resized(abi, old(mem), top)
    {
      var managerLr := At(mem, sp + abi.FRAME_MANAGER_LR);
      ResizeFrame(-MONITOR_SIZE);
      mem := mem[sp + abi.FRAME_MANAGER_LR := managerLr][sp + abi.INITIAL_CALLER_SP := sp]
                [r14 + LAST_SP := sp][r14 + STACK_BASE := stackBase - MONITOR_SIZE]
                [r14 + STACK := tos - MONITOR_SIZE][r14 + STACK_LIMIT := stackLimit - MONITOR_SIZE];
    }

    /** The running activation, as its interpreter object describes it. */
    function Current(): Act
      reads this
    {
      Act(r14 + STATE_SIZE, sp, At(mem, r14 + STACK_BASE), At(mem, r14 + STACK_LIMIT), At(mem, r14 + LOCALS))
    }

    lemma CurrentIs()
      requires Valid()
      ensures var top := acts[|acts| - 1]; Current() == top && Shape(abi, top) && top.fp + abi.PARENT_SIZE <= top.locals
    {
      assert ActInv(abi, mem, acts, entry, |acts| - 1);
    }

    /** What the bytecode verifier and the interpreter keep to: stores go to the activation's own
        data, arguments are on the operand stack, a result fits the caller's. */
    predicate Legal(op: Op)
      reads this
    {
      var top := Current();
      match op
      case DoInterpret(writes, tos, _) =>
        (forall x :: x in writes ==> OwnData(abi, top, x)) && top.limit <= tos < top.base && tos % 8 == 0
      case DoCall(m) => m.parameters <= m.locals && At(mem, r14 + STACK) + 8 * m.parameters + 8 <= top.base
      case DoReturn(ending, _) =>
        ending.Result? && r15 != 0 ==> ending.slots <= 2 && At(mem, r15 + STACK_LIMIT) <= top.locals - 8 * ending.slots
      case DoGrow => sp > MONITOR_SIZE
    }

    /** One request of the interpreter to the frame manager. */
    method Step(op: Op, here: int) returns (raised: bool)
      requires Valid() && Legal(op)
      modifies this
      ensures entry == old(entry) && |acts| == old(DepthAfter(op))
      ensures Served(op, old(Snapshot(mem, acts, pending)), Snapshot(mem, acts, pending))
      ensures acts == [] <==> op.DoReturn? && old(r15) == 0
      ensures acts != [] ==> Valid() && !raised && Relinked(abi, here, op, old(Snapshot(mem, acts, pending)), Snapshot(mem, acts, pending))
      ensures acts == [] ==> Left(raised, old(Snapshot(mem, acts, pending))) && raised == Raises(op.ending, old(pending))
    {
      raised := false;
      match op
      case DoInterpret(writes, tos, exception) => ServeInterpret(writes, tos, exception, here);
      case DoCall(m) => ServeCall(m, here);
      case DoReturn(ending, stores) => raised := ServeReturn(ending, stores, here);
      case DoGrow => ServeGrow(here);
    }

    method ServeInterpret(writes: Memory, tos: int, exception: int, ghost here: int)
      requires Valid() && Legal(DoInterpret(writes, tos, exception))
      modifies this`mem, this`pending
      ensures Valid()
      ensures var op, s, s' := DoInterpret(writes, tos, exception), old(Snapshot(mem, acts, pending)), Snapshot(mem, acts, pending);
              Served(op, s, s') && Relinked(abi, here, op, s, s')
    {
      CurrentIs();
      InterpretServes(abi, here, Snapshot(mem, acts, pending), writes, tos, exception);
      Interpret(writes, tos, exception);
    }

    method ServeCall(m: Method, here: int)
      requires Valid() && Legal(DoCall(m))
      modifies this
      ensures Valid() && entry == old(entry) && |acts| == old(DepthAfter(DoCall(m)))
      ensures var s, s' := old(Snapshot(mem, acts, pending)), Snapshot(mem, acts, pending);
              Served(DoCall(m), s, s') && Relinked(abi, here, DoCall(m), s, s')
    {
      assert ActInv(abi, mem, acts, entry, |acts| - 1);
      var ok := Call(m, here);
    }

    method ServeGrow(ghost here: int)
      requires Valid() && Legal(DoGrow)
      modifies this
      ensures Valid() && entry == old(entry) && |acts| == old(|acts|)
      ensures var s, s' := old(Snapshot(mem, acts, pending)), Snapshot(mem, acts, pending);
              Served(DoGrow, s, s') && Relinked(abi, here, DoGrow, s, s')
    {
      assert ActInv(abi, mem, acts, entry, |acts| - 1);
      MoreMonitors();
    }

    method ServeReturn(ending: Ending, stores: Memory, here: int) returns (raised: bool)
      requires Valid() && Legal(DoReturn(ending, stores))
      modifies this
      ensures entry == old(entry) && |acts| == old(|acts|) - 1
      ensures Served(DoReturn(ending, stores), old(Snapshot(mem, acts, pending)), Snapshot(mem, acts, pending))
      ensures acts == [] <==> old(r15) == 0
      ensures acts != [] ==> Relinked(abi, here, DoReturn(ending, stores), old(Snapshot(mem, acts, pending)), Snapshot(mem, acts, pending))
      ensures if acts != [] then Valid() && !raised else Left(raised, old(Snapshot(mem, acts, pending))) && raised == Raises(ending, old(pending))
    {
      FirstHasNoCaller();
      if r15 == 0 {
        raised := Leave(ending, stores);
      } else {
        raised := false;
        ServeInnerReturn(ending, stores, here);
      }
    }

    lemma FirstHasNoCaller()
      requires Valid()
      ensures r15 == 0 <==> |acts| == 1
    {
      if |acts| > 1 {
        assert ActInv(abi, mem, acts, entry, |acts| - 2);
      }
    }

    method ServeInnerReturn(ending: Ending, ghost stores: Memory, here: int)
      requires Valid() && Legal(DoReturn(ending, stores)) && |acts| > 1 && r15 != 0
      modifies this
      ensures Valid() && entry == old(entry) && acts == old(acts[..|acts| - 1])
      ensures var s, s' := old(Snapshot(mem, acts, pending)), Snapshot(mem, acts, pending);
              Served(DoReturn(ending, stores), s, s') && Relinked(abi, here, DoReturn(ending, stores), s, s')
    {
      assert ActInv(abi, mem, acts, entry, |acts| - 1) && ActInv(abi, mem, acts, entry, |acts| - 2);
      Return(ending, here);
    }

    /** The frame manager has been left, normally or with an exception. */
    ghost predicate Left(raised: bool, before: Snapshot)
      reads this
    {
      && sp == entry.sender && At(mem, sp) == entry.chain
      && lr == (if raised then handlerFor(entry.lr) else entry.lr)
      && (raised ==> r4 == entry.lr && r3 == before.pending && pending == 0)
      && forall x :: (if raised then x > sp else x != sp) ==> At(mem, x) == At(before.mem, x)
    }

    /** How many activations are live after a request: a call adds one if its frame fits. */
    ghost function DepthAfter(op: Op): int
      reads this
    {
      match op
      case DoCall(m) => |acts| + if NewAct(abi, sp, At(mem, r14 + STACK), m).sp >= overflowLimit then 1 else 0
      case DoReturn(_, _) => |acts| - 1
      case _ => |acts|
    }

    lemma Aligned()
      requires Valid()
      ensures sp % 16 == 0 && sp < At(mem, sp) && LeadsThrough(mem, sp, acts, entry)
    {
      assert ActInv(abi, mem, acts, entry, |acts| - 1);
      BackChain(abi, mem, acts, entry, sp);
    }

    /** Any run of the frame manager: it is entered once and then serves requests, in any order
        that is legal, for as long as activations are left. Wherever the requests end, SP is
        aligned and the back chain leads through exactly the live activations. When the last one
        is left, SP is the sender's SP given at entry, the back-chain word of the entry is stored
        there, and LR is the return address given at entry or, with an exception, its handler.
        Every activation but the first returns to the frame manager, as long as the interpreter
        leaves the word alone that says so.
        From the end of the arguments on the run changes no word of the caller but that one; only
        the C function that looks for a handler may store there, and only below the sender's SP.
        The snapshots are those after the entry and after every request. */
    method Run(sender: int, returnPc: int, tos: int, m: Method, requests: seq<Op>, here: int)
      returns (left: bool, raised: bool, ghost snaps: seq<Snapshot>)
      requires abi.Valid() && overflowLimit > 0 && acts == []
      requires sp % 16 == 0 && sender % 16 == 0 && tos % 8 == 0 && m.parameters <= m.locals
      requires sp + abi.TOP_SIZE <= tos + 8 && tos + 8 * m.parameters + 8 <= At(mem, sp)
      modifies this
      ensures Trace(requests, snaps) && snaps[|snaps| - 1] == Snapshot(mem, acts, pending)
      ensures |snaps[0].acts| == if NewAct(abi, old(sp), tos, m).sp >= overflowLimit then 1 else 0
      ensures left <==> acts == []
      ensures left ==> sp == sender && At(mem, sp) == old(At(mem, sp)) && lr == if raised then handlerFor(returnPc) else returnPc
      ensures raised ==> left && |snaps| > 1
      ensures left && |snaps| > 1 ==>
                var op, before := requests[|snaps| - 2], snaps[|snaps| - 2];
                && op.DoReturn? && raised == Raises(op.ending, before.pending)
                && (raised ==> r3 == before.pending && r4 == returnPc && pending == 0)
      ensures !left ==> Valid() && entry == Entry(sender, old(At(mem, sp)), returnPc)
                        && sp % 16 == 0 && sp < At(mem, sp) && LeadsThrough(mem, sp, acts, entry)
      ensures !left && AllSpare(abi, requests, snaps) ==> Linked(abi, here, Snapshot(mem, acts, pending))
      ensures !left && |snaps| <= |requests| ==> !Legal(requests[|snaps| - 1])
      ensures forall x :: x >= tos + 8 * m.parameters + 8 && (left ==> x != sender) && (raised ==> x > sender)
                ==> At(mem, x) == old(At(mem, x))
    {
      var ok := Enter(sender, returnPc, tos, m, here);
      if !ok {
        return true, false, [Snapshot(mem, acts, pending)];
      }
      left, raised, snaps := ServeAll(requests, here, old(mem), tos + 8 * m.parameters + 8);
      if !left { Aligned(); }
    }

    /** The loop of the frame manager. */
    method ServeAll(requests: seq<Op>, here: int, ghost before: Memory, ghost limit: int)
      returns (left: bool, raised: bool, ghost snaps: seq<Snapshot>)
      requires Valid() && |acts| == 1 && acts[0].locals + 8 == limit && SameFrom(before, mem, limit)
      requires Linked(abi, here, Snapshot(mem, acts, pending))
      modifies this
      ensures entry == old(entry) && (left <==> acts == [])
      ensures Trace(requests, snaps) && snaps[|snaps| - 1] == Snapshot(mem, acts, pending) && |snaps[0].acts| == 1
      ensures left ==> |snaps| > 1 && RunLeft(requests[|snaps| - 2], raised, snaps[|snaps| - 2], before, limit)
      ensures !left ==> !raised && Running(requests, snaps, before, limit, here)
      ensures !left && |snaps| <= |requests| ==> !Legal(requests[|snaps| - 1])
    {
      raised := false;
      snaps := [Snapshot(mem, acts, pending)];
      ActsStacked(abi, mem, acts, entry);
      for i := 0 to |requests|
        invariant |snaps| == i + 1 && !raised && entry == old(entry)
        invariant Running(requests, snaps, before, limit, here)
      {
        if !Legal(requests[i]) {
          return false, false, snaps;
        }
        var last := requests[i].DoReturn? && r15 == 0;
        raised := RunStep(requests, i, here, snaps, before, limit);
        snaps := snaps + [Snapshot(mem, acts, pending)];
        if last {
          return true, raised, snaps;
        }
      }
      return false, false, snaps;
    }

    /** A run that is over, by request op. */
    ghost predicate RunLeft(op: Op, raised: bool, last: Snapshot, before: Memory, limit: int)
      reads this
    {
      op.DoReturn? && Left(raised, last) && Untouched(raised, before, limit) && raised == Raises(op.ending, last.pending)
    }

    /** A run that goes on: what is known after every request. */
    ghost predicate Running(requests: seq<Op>, snaps: seq<Snapshot>, before: Memory, limit: int, here: int)
      reads this
    {
      && Valid() && Trace(requests, snaps) && snaps[|snaps| - 1] == Snapshot(mem, acts, pending) && |snaps[0].acts| == 1
      && acts[0].locals + 8 == limit && SameFrom(before, mem, limit)
      && (AllSpare(abi, requests, snaps) ==> Linked(abi, here, Snapshot(mem, acts, pending)))
    }

    /** What a run that is over has not changed, from limit on. */
    ghost predicate Untouched(raised: bool, before: Memory, limit: int)
      reads this
    {
      forall x :: x >= limit && x != sp && (raised ==> x > sp) ==> At(mem, x) == At(before, x)
    }

    method RunStep(requests: seq<Op>, i: nat, here: int, ghost snaps: seq<Snapshot>, ghost before: Memory, ghost limit: int)
      returns (raised: bool)
      requires Running(requests, snaps, before, limit, here) && |snaps| == i + 1 <= |requests| && Legal(requests[i])
      modifies this
      ensures entry == old(entry) && Trace(requests, snaps + [Snapshot(mem, acts, pending)])
      ensures acts == [] <==> requests[i].DoReturn? && old(r15) == 0
      ensures acts != [] ==> Running(requests, snaps + [Snapshot(mem, acts, pending)], before, limit, here) && !raised
      ensures acts == [] ==> Left(raised, snaps[i]) && Untouched(raised, before, limit) && raised == Raises(requests[i].ending, snaps[i].pending)
    {
      ActsStacked(abi, mem, acts, entry);
      raised := Step(requests[i], here);
      ghost var next := Snapshot(mem, acts, pending);
      if |acts| > 0 {
        ActsStacked(abi, mem, acts, entry);
        RunExtends(abi, here, requests, snaps, next, before, limit);
      } else {
        TraceExtends(requests, snaps, next);
      }
    }
  }
}
