/** Stack memory as a map from byte address to doubleword, for both interpreters. */
module StackMemory {
  type Memory = map<int, int>

  /** Size of a BasicObjectLock. */
  const MONITOR_SIZE := 16

  function At(mem: Memory, a: int): int { if a in mem then mem[a] else 0 }

  /** Everything at or above an address is as it was. */
  ghost predicate SameFrom(mem: Memory, mem': Memory, a: int) {
    forall x :: x >= a ==> At(mem', x) == At(mem, x)
  }

  /** The words above tos, up to and including base, moved down past a new monitor. */
  ghost predicate ShiftedDown(mem: Memory, mem': Memory, tos: int, base: int) {
    && (forall x {:trigger At(mem, x)} :: tos < x <= base && x % 8 == 0 ==> At(mem', x - MONITOR_SIZE) == At(mem, x))
    && (forall x :: x <= tos - MONITOR_SIZE || x > base - MONITOR_SIZE ==> At(mem', x) == At(mem, x))
  }
}
