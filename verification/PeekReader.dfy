/** Reading the memory of a live process word by word (process_read_data in
    agent/src/os/linux/ps_proc.c). */
module PeekReader {
  function Align(ptr: nat): nat { ptr - ptr % 8 }

  /** The addresses a, a + 8, ... below end. */
  function WordsUpTo(a: nat, end: nat): seq<nat>
    decreases end - a
  {
    if a >= end then [] else [a] + WordsUpTo(a + 8, end)
  }

  /** The words that are read. For an empty range at an unaligned address there is one too. */
  function Needed(addr: nat, size: nat): seq<nat> {
    if size == 0 && addr % 8 != 0 then [Align(addr)] else WordsUpTo(Align(addr), addr + size)
  }

  /** These are exactly the aligned words that meet the range, in ascending order. */
  lemma NeededExactly(addr: nat, size: nat)
    requires size > 0
    ensures forall w :: w in Needed(addr, size) <==> w % 8 == 0 && w < addr + size && addr < w + 8
    ensures forall i, j :: 0 <= i < j < |Needed(addr, size)| ==> Needed(addr, size)[i] < Needed(addr, size)[j]
  {
    WordsExactly(Align(addr), addr + size);
  }

  lemma {:induction false} WordsExactly(a: nat, end: nat)
    requires a % 8 == 0
    ensures forall w :: w in WordsUpTo(a, end) <==> w % 8 == 0 && a <= w < end
    ensures forall i, j :: 0 <= i < j < |WordsUpTo(a, end)| ==> WordsUpTo(a, end)[i] < WordsUpTo(a, end)[j]
    decreases end - a
  {
    if a < end {
      WordsExactly(a + 8, end);
      var rest := WordsUpTo(a + 8, end);
      forall i | 0 <= i < |rest|
        ensures a < rest[i]
      {
        assert rest[i] in rest;
      }
    }
  }

  lemma {:induction false} WordAt(a: nat, end: nat, i: nat)
    ensures a + 8 * i < end ==> i < |WordsUpTo(a, end)| && WordsUpTo(a, end)[i] == a + 8 * i
    ensures a + 8 * i >= end ==> |WordsUpTo(a, end)| <= i
    decreases i
  {
    if i > 0 && a < end {
      WordAt(a + 8, end, i - 1);
    }
  }

  /** After k whole words there is at most one more. */
  lemma LastWord(a: nat, end: nat, k: nat)
    requires a + 8 * k <= end < a + 8 * k + 8
    ensures var words := WordsUpTo(a, end);
            if end == a + 8 * k then |words| == k
            else |words| == k + 1 && words[k] == a + 8 * k && words[..k + 1] == words[..k] + [words[k]]
  {
    WordAt(a, end, k);
    WordAt(a, end, k + 1);
    if k > 0 {
      WordAt(a, end, k - 1);
    }
  }

  class Target {
    const mem: nat -> bv8
    const readable: nat -> bool   // by word address
    var peeks: seq<nat>           // the words asked for so far

    constructor (mem: nat -> bv8, readable: nat -> bool)
      ensures this.mem == mem && this.readable == readable && peeks == []
    {
      this.mem, this.readable, peeks := mem, readable, [];
    }

    /** ptrace(PTRACE_PEEKDATA, ...): a long, as the bytes it is stored in. */
    method Peek(a: nat) returns (ok: bool, rslt: seq<bv8>)
      modifies this`peeks
      ensures peeks == old(peeks) + [a] && ok == readable(a)
      ensures |rslt| == 8 && forall k :: 0 <= k < 8 ==> rslt[k] == mem(a + k)
    {
      peeks := peeks + [a];
      return readable(a), seq(8, k requires 0 <= k => mem(a + k));
    }

    /** The bytes are those at addr. */
    ghost predicate Copied(addr: nat, bytes: seq<bv8>) {
      forall i :: 0 <= i < |bytes| ==> bytes[i] == mem(addr + i)
    }

    /** k words of the list were asked for, the last of them in vain unless all went well. */
    ghost predicate Stopped(ok: bool, words: seq<nat>, k: nat) {
      && k <= |words|
      && (forall j :: 0 <= j < k - 1 ==> readable(words[j]))
      && if ok then k == |words| && (k > 0 ==> readable(words[k - 1])) else k > 0 && !readable(words[k - 1])
    }

    /** The bytes of an unaligned start. */
    method ReadHead(addr: nat, buf: array<bv8>, size: nat) returns (ok: bool, b: nat)
      requires addr % 8 != 0 && size <= buf.Length
      modifies this`peeks, buf
      ensures peeks == old(peeks) + [Align(addr)] && ok == readable(Align(addr))
      ensures ok ==> b <= size && Copied(addr, buf[..b])
      ensures forall i :: size <= i < buf.Length ==> buf[i] == old(buf[i])
      ensures ok ==> (addr + b == addr + size || (addr + b) % 8 == 0) && addr + b <= Align(addr) + 8
    {
      var a := Align(addr);
      var rslt;
      ok, rslt := Peek(a);
      b := 0;
      if !ok {
        return;
      }
      var ptr := 0;
      while a != addr
        invariant Align(addr) <= a <= addr && ptr == a - Align(addr)
        decreases addr - a
      {
        a, ptr := a + 1, ptr + 1;
      }
      while a % 8 != 0 && a < addr + size
        invariant a == addr + b && b <= size && ptr == a - Align(addr) && a <= Align(addr) + 8
        invariant forall i :: size <= i < buf.Length ==> buf[i] == old(buf[i])
        invariant Copied(addr, buf[..b]) && peeks == old(peeks) + [Align(addr)]
        decreases addr + size - a
      {
        buf[b] := rslt[ptr];
        a, b, ptr := a + 1, b + 1, ptr + 1;
      }
    }

    /** The loop over whole words. */
    method ReadWords(addr: nat, buf: array<bv8>, from: nat, size: nat) returns (ok: bool, b: nat, ghost k: nat)
      requires from <= size <= buf.Length
      requires (addr + from) % 8 == 0 || from == size
      requires Copied(addr, buf[..from])
      modifies this`peeks, buf
      ensures var words := WordsUpTo(addr + from, addr + size);
              && k <= |words| && peeks == old(peeks) + words[..k] && (forall j :: 0 <= j < k - 1 ==> readable(words[j]))
              && if ok then k == (size - from) / 8 && (k > 0 ==> readable(words[k - 1])) else k > 0 && !readable(words[k - 1])
      ensures ok ==> b == from + 8 * k <= size && Copied(addr, buf[..b])
      ensures forall i :: size <= i < buf.Length ==> buf[i] == old(buf[i])
    {
      b, k, ok := from, 0, true;
      var words := (size - from) / 8;
      ghost var list := WordsUpTo(addr + from, addr + size);
      var i := 0;
      while i < words
        invariant 0 <= i <= words && k == i <= |list| && b == from + 8 * i && ok
        invariant peeks == old(peeks) + list[..i] && forall j :: 0 <= j < i ==> readable(list[j])
        invariant Copied(addr, buf[..b])
        invariant forall i :: size <= i < buf.Length ==> buf[i] == old(buf[i])
      {
        WordAt(addr + from, addr + size, i);
        var rslt;
        ok, rslt := Peek(addr + b);
        assert list[..i + 1] == list[..i] + [list[i]];
        k := k + 1;
        if !ok {
          return;
        }
        StoreLong(addr, buf, b, rslt);
        b, i := b + 8, i + 1;
      }
    }

    method StoreLong(addr: nat, buf: array<bv8>, b: nat, rslt: seq<bv8>)
      requires b + 8 <= buf.Length && |rslt| == 8 && Copied(addr, buf[..b]) && Copied(addr + b, rslt)
      modifies buf
      ensures Copied(addr, buf[..b + 8])
      ensures forall i :: b + 8 <= i < buf.Length ==> buf[i] == old(buf[i])
    {
      forall j | 0 <= j < 8 {
        buf[b + j] := rslt[j];
      }
      forall i | 0 <= i < b + 8
        ensures buf[i] == mem(addr + i)
      {
        if i < b {
          assert buf[i] == old(buf[..b][i]);
        } else {
          assert rslt[i - b] == mem(addr + b + (i - b));
        }
      }
    }

    /** The bytes of a partial last word. */
    method ReadTail(addr: nat, buf: array<bv8>, from: nat, size: nat) returns (ok: bool)
      requires from < size <= buf.Length && size < from + 8 && Copied(addr, buf[..from])
      modifies this`peeks, buf
      ensures peeks == old(peeks) + [addr + from] && ok == readable(addr + from)
      ensures ok ==> Copied(addr, buf[..size])
      ensures forall i :: size <= i < buf.Length ==> buf[i] == old(buf[i])
    {
      var rslt;
      ok, rslt := Peek(addr + from);
      if !ok {
        return;
      }
      var b, ptr := from, 0;
      while addr + b != addr + size
        invariant from <= b <= size && ptr == b - from && Copied(addr, buf[..b])
        invariant peeks == old(peeks) + [addr + from]
        invariant forall i :: size <= i < buf.Length ==> buf[i] == old(buf[i])
        decreases size - b
      {
        assert rslt[ptr] == mem(addr + from + ptr);
        buf[b] := rslt[ptr];
        b, ptr := b + 1, ptr + 1;
      }
    }

    /** Everything after an unaligned start. */
    method ReadRest(addr: nat, buf: array<bv8>, from: nat, size: nat) returns (ok: bool, ghost k: nat)
      requires from <= size <= buf.Length && ((addr + from) % 8 == 0 || from == size)
      requires Copied(addr, buf[..from])
      modifies this`peeks, buf
      ensures var words := WordsUpTo(addr + from, addr + size);
              Stopped(ok, words, k) && peeks == old(peeks) + words[..k]
      ensures ok ==> Copied(addr, buf[..size])
      ensures forall i :: size <= i < buf.Length ==> buf[i] == old(buf[i])
    {
      var b;
      ok, b, k := ReadWords(addr, buf, from, size);
      if ok {
        LastWord(addr + from, addr + size, k);
        if addr + b != addr + size {
          ok := ReadTail(addr, buf, b, size);
          k := k + 1;
        }
      }
    }

    method ReadUnaligned(addr: nat, buf: array<bv8>, size: nat) returns (ok: bool, ghost k: nat)
      requires size <= buf.Length && addr % 8 != 0
      modifies this`peeks, buf
      ensures Stopped(ok, Needed(addr, size), k) && peeks == old(peeks) + Needed(addr, size)[..k]
      ensures ok ==> Copied(addr, buf[..size])
      ensures forall i :: size <= i < buf.Length ==> buf[i] == old(buf[i])
    {
      var b;
      ok, b := ReadHead(addr, buf, size);
      if !ok {
        NeededFirst(addr, size);
        return false, 1;
      }
      ghost var rest := WordsUpTo(addr + b, addr + size);
      ok, k := ReadRest(addr, buf, b, size);
      StoppedAfter(ok, Align(addr), rest, k, old(peeks));
      NeededSplit(addr, size, b);
      k := k + 1;
    }

    /** process_read_data. It asks for the needed words in order, up to the first one that cannot
        be read; if there is none, the buffer holds the bytes. */
    method ReadData(addr: nat, buf: array<bv8>, size: nat) returns (ok: bool, ghost k: nat)
      requires size <= buf.Length
      modifies this`peeks, buf
      ensures Stopped(ok, Needed(addr, size), k) && peeks == old(peeks) + Needed(addr, size)[..k]
      ensures ok ==> Copied(addr, buf[..size])
      ensures forall i :: size <= i < buf.Length ==> buf[i] == old(buf[i])
    {
      if Align(addr) == addr {
        ok, k := ReadRest(addr, buf, 0, size);
      } else {
        ok, k := ReadUnaligned(addr, buf, size);
      }
    }

    lemma StoppedAfter(ok: bool, first: nat, words: seq<nat>, k: nat, log: seq<nat>)
      requires Stopped(ok, words, k) && readable(first)
      ensures Stopped(ok, [first] + words, k + 1) && log + [first] + words[..k] == log + ([first] + words)[..k + 1]
    {
      assert ([first] + words)[..k + 1] == [first] + words[..k];
    }
  }

  lemma NeededFirst(addr: nat, size: nat)
    requires addr % 8 != 0
    ensures |Needed(addr, size)| > 0 && Needed(addr, size)[..1] == [Align(addr)]
  {
  }

  /** The words after the first, when that one is read for an unaligned start. */
  lemma NeededSplit(addr: nat, size: nat, b: nat)
    requires addr % 8 != 0 && b <= size && addr + b <= Align(addr) + 8 && (b == size || (addr + b) % 8 == 0)
    ensures Needed(addr, size) == [Align(addr)] + WordsUpTo(addr + b, addr + size)
  {
    if b < size || (addr + b) % 8 == 0 {
      assert addr + b == Align(addr) + 8;
    } else {
      assert WordsUpTo(Align(addr) + 8, addr + size) == [] == WordsUpTo(addr + b, addr + size);
    }
  }
}
