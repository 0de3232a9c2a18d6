/** The thread list of an attached process: adding and deleting nodes
    (agent/src/os/linux/libproc_impl.c), and the loop of Pgrab that attaches to the threads while
    it deletes those that have died (agent/src/os/linux/ps_proc.c). */
module ThreadList {
  import opened Sequences

  datatype AttachState = Success | Fail | ThreadDead

  class ThreadInfo {
    const pthreadId: int
    const lwpId: int
    var next: ThreadInfo?

    constructor (pthreadId: int, lwpId: int, next: ThreadInfo?)
      ensures this.pthreadId == pthreadId && this.lwpId == lwpId && this.next == next
    {
      this.pthreadId, this.lwpId, this.next := pthreadId, lwpId, next;
    }
  }

  function At(nodes: seq<ThreadInfo>, i: nat): ThreadInfo? { if i < |nodes| then nodes[i] else null }

  /** From `head`, following next, one meets exactly the nodes, in order, and then null. */
  ghost predicate Linked(head: ThreadInfo?, nodes: seq<ThreadInfo>, repr: set<ThreadInfo>)
    requires forall i :: 0 <= i < |nodes| ==> nodes[i] in repr
    reads repr
  {
    && head == At(nodes, 0)
    && (forall i {:trigger nodes[i].next} :: 0 <= i < |nodes| ==> nodes[i].next == At(nodes, i + 1))
    && forall i, j :: 0 <= i < j < |nodes| ==> nodes[i] != nodes[j]
  }

  class ProcHandle {
    var pid: int
    var threads: ThreadInfo?
    var numThreads: int
    ghost var nodes: seq<ThreadInfo>
    ghost var repr: set<ThreadInfo>   // every node ever added

    constructor (pid: int)
      ensures Valid() && nodes == [] && repr == {} && this.pid == pid
    {
      this.pid, threads, numThreads, nodes, repr := pid, null, 0, [], {};
    }

    ghost predicate Valid()
      reads this, repr
    {
      (forall i :: 0 <= i < |nodes| ==> nodes[i] in repr) && Linked(threads, nodes, repr) && numThreads == |nodes|
    }

    method AddThreadInfo(pthreadId: int, lwpId: int) returns (newthr: ThreadInfo)
      requires Valid()
      modifies this
      ensures Valid() && fresh(newthr) && nodes == [newthr] + old(nodes) && repr == old(repr) + {newthr} && pid == old(pid)
      ensures newthr.pthreadId == pthreadId && newthr.lwpId == lwpId
    {
      newthr := new ThreadInfo(pthreadId, lwpId, threads);
      threads := newthr;
      numThreads := numThreads + 1;
      nodes, repr := [newthr] + nodes, repr + {newthr};
      forall i | 0 <= i < |nodes|
        ensures nodes[i].next == At(nodes, i + 1)
      {
        assert i > 0 ==> nodes[i] == old(nodes)[i - 1];
        assert At(nodes, i + 1) == At(old(nodes), i);
      }
    }

    /** The walk of delete_thread_info: the first node that is `thr`, and the one before it. */
    method Find(thr: ThreadInfo) returns (previous: ThreadInfo?, current: ThreadInfo?, ghost k: nat)
      requires Valid()
      ensures k <= |nodes| && current == At(nodes, k) && (k > 0 ==> previous == nodes[k - 1])
      ensures (current == null || current == thr) && (current == null <==> thr !in nodes)
    {
      previous, current, k := null, threads, 0;
      while current != null && current != thr
        invariant k <= |nodes| && current == At(nodes, k) && (k > 0 ==> previous == nodes[k - 1])
        invariant forall j :: 0 <= j < k ==> nodes[j] != thr
        decreases |nodes| - k
      {
        previous, current, k := current, current.next, k + 1;
      }
    }

    /** Node k, which nothing points to any more, is forgotten. */
    method Forget(ghost k: nat)
      requires k < |nodes| && numThreads == |nodes| && Skipped(threads, nodes, k, repr)
      modifies this`numThreads, this`nodes
      ensures Valid() && nodes == Without(old(nodes), k)
    {
      Unlinked(threads, nodes, k, repr);
      numThreads := numThreads - 1;
      nodes := Without(nodes, k);
    }

    method Skip(previous: ThreadInfo, current: ThreadInfo, ghost k: nat)
      requires Valid() && 0 < k < |nodes| && previous == nodes[k - 1] && current == nodes[k]
      modifies previous
      ensures Skipped(threads, nodes, k, repr)
    {
      previous.next := current.next;
    }

    /** delete_thread_info. A node that is not in the list is reported and nothing changes. */
    method DeleteThreadInfo(thr: ThreadInfo) returns (ghost k: nat)
      requires Valid()
      modifies this, repr
      ensures Valid() && repr == old(repr) && pid == old(pid)
      ensures if thr in old(nodes) then k < |old(nodes)| && old(nodes)[k] == thr && nodes == Without(old(nodes), k)
              else nodes == old(nodes)
    {
      if thr == threads {
        k := 0;
        threads := threads.next;
      } else {
        var previous, current;
        previous, current, k := Find(thr);
        if current == null {
          return;
        }
        Skip(previous, current, k);
      }
      Forget(k);
    }
  }

  function Without<T>(s: seq<T>, k: nat): seq<T>
    requires k < |s|
  {
    s[..k] + s[k + 1..]
  }

  lemma WithoutAt<T>(s: seq<T>, k: nat, i: nat)
    requires k < |s|
    ensures |Without(s, k)| == |s| - 1
    ensures i < |s| - 1 ==> Without(s, k)[i] == s[if i < k then i else i + 1]
  {
  }

  /** A linked list in which node k is skipped. */
  ghost predicate Skipped(head: ThreadInfo?, was: seq<ThreadInfo>, k: nat, repr: set<ThreadInfo>)
    requires k < |was|
    reads repr
  {
    && (forall i :: 0 <= i < |was| ==> was[i] in repr)
    && (forall i, j :: 0 <= i < j < |was| ==> was[i] != was[j])
    && head == (if k == 0 then At(was, 1) else was[0])
    && forall i {:trigger was[i].next} :: 0 <= i < |was| ==> was[i].next == At(was, if i == k - 1 then k + 1 else i + 1)
  }

  lemma SkippedAt(head: ThreadInfo?, was: seq<ThreadInfo>, k: nat, repr: set<ThreadInfo>, i: nat)
    requires k < |was| && Skipped(head, was, k, repr) && i < |was| - 1 == |Without(was, k)|
    ensures Without(was, k)[i] in repr && Without(was, k)[i].next == At(Without(was, k), i + 1)
  {
    WithoutAt(was, k, i);
    WithoutAt(was, k, i + 1);
  }

  lemma WithoutDistinct(was: seq<ThreadInfo>, k: nat)
    requires k < |was| && forall i, j :: 0 <= i < j < |was| ==> was[i] != was[j]
    ensures forall i, j :: 0 <= i < j < |Without(was, k)| ==> Without(was, k)[i] != Without(was, k)[j]
  {
    forall i, j | 0 <= i < j < |Without(was, k)|
      ensures Without(was, k)[i] != Without(was, k)[j]
    {
      WithoutAt(was, k, i);
      WithoutAt(was, k, j);
    }
  }

  lemma Unlinked(head: ThreadInfo?, was: seq<ThreadInfo>, k: nat, repr: set<ThreadInfo>)
    requires k < |was| && Skipped(head, was, k, repr)
    ensures var nodes := Without(was, k);
            |nodes| == |was| - 1 && (forall i :: 0 <= i < |nodes| ==> nodes[i] in repr) && Linked(head, nodes, repr)
  {
    WithoutAt(was, k, 0);
    WithoutDistinct(was, k);
    forall i | 0 <= i < |was| - 1
      ensures Without(was, k)[i] in repr && Without(was, k)[i].next == At(Without(was, k), i + 1)
    {
      SkippedAt(head, was, k, repr, i);
    }
  }

  // ---- Attaching --------------------------------------------------------------------------

  datatype Logs = Logs(calls: seq<int>, attached: seq<int>, detached: seq<int>)

  /** The logs after an attach call. */
  function Attach(logs: Logs, pid: int, r: AttachState): Logs {
    Logs(logs.calls + [pid], logs.attached + if r == Success then [pid] else [], logs.detached)
  }

  /** The kernel side: the outcome of the n-th attach call, and what was asked of it. */
  class Os {
    const outcome: (nat, int) -> AttachState
    var logs: Logs

    constructor (outcome: (nat, int) -> AttachState)
      ensures this.outcome == outcome && logs == Logs([], [], [])
    {
      this.outcome, logs := outcome, Logs([], [], []);
    }

    method PtraceAttach(pid: int) returns (r: AttachState)
      modifies this
      ensures r == outcome(|old(logs).calls|, pid) && logs == Attach(old(logs), pid, r)
    {
      r := outcome(|logs.calls|, pid);
      logs := Attach(logs, pid, r);
    }

    method PtraceDetach(pid: int)
      modifies this
      ensures logs == old(logs).(detached := old(logs).detached + [pid])
    {
      logs := logs.(detached := logs.detached + [pid]);
    }
  }

  /** The list, the logs, and whether every thread so far was attached to or found dead. */
  datatype Attempt = Attempt(list: seq<ThreadInfo>, logs: Logs, ok: bool)

  /** One turn of the loop of Pgrab; after a failure the rest of the list stays as it is. */
  function Visit(outcome: (nat, int) -> AttachState, pid: int, a: Attempt, thr: ThreadInfo): Attempt {
    if !a.ok || thr.lwpId == pid then a.(list := a.list + [thr])
    else
      var r := outcome(|a.logs.calls|, thr.lwpId);
      Attempt(if r == ThreadDead then a.list else a.list + [thr], Attach(a.logs, thr.lwpId, r), r != Fail)
  }

  function Visits(outcome: (nat, int) -> AttachState, pid: int, logs: Logs, nodes: seq<ThreadInfo>): Attempt {
    if nodes == [] then Attempt([], logs, true)
    else Visit(outcome, pid, Visits(outcome, pid, logs, nodes[..|nodes| - 1]), nodes[|nodes| - 1])
  }

  lemma VisitsSnoc(outcome: (nat, int) -> AttachState, pid: int, logs: Logs, done: seq<ThreadInfo>, thr: ThreadInfo)
    ensures Visits(outcome, pid, logs, done + [thr]) == Visit(outcome, pid, Visits(outcome, pid, logs, done), thr)
  {
    assert (done + [thr])[..|done|] == done;
  }

  lemma {:induction false} VisitsFailed(outcome: (nat, int) -> AttachState, pid: int, logs: Logs, done: seq<ThreadInfo>, rest: seq<ThreadInfo>)
    requires !Visits(outcome, pid, logs, done).ok
    ensures var a := Visits(outcome, pid, logs, done);
            Visits(outcome, pid, logs, done + rest) == a.(list := a.list + rest)
    decreases rest
  {
    if rest == [] {
      assert done + rest == done;
    } else {
      VisitsSnoc(outcome, pid, logs, done, rest[0]);
      VisitsFailed(outcome, pid, logs, done + [rest[0]], rest[1..]);
      Regroup(done, rest[0], rest[1..]);
      Regroup(Visits(outcome, pid, logs, done).list, rest[0], rest[1..]);
      assert [rest[0]] + rest[1..] == rest;
    }
  }

  /** The list while a prefix of it is done. */
  ghost predicate Pruned(ph: ProcHandle, done: seq<ThreadInfo>, rest: seq<ThreadInfo>)
    reads ph, ph.repr
  {
    ph.Valid() && ph.nodes == done + rest
  }

  /** The node after one whose predecessors may have been taken away. */
  lemma NextOf(ph: ProcHandle, done: seq<ThreadInfo>, rest: seq<ThreadInfo>)
    requires Pruned(ph, done, rest) && rest != []
    ensures rest[0] in ph.nodes && rest[0].next == At(rest, 1)
  {
    assert ph.nodes[|done|] == rest[0];
    assert At(ph.nodes, |done| + 1) == At(rest, 1);
  }

  method RemoveDead(ph: ProcHandle, current: ThreadInfo, ghost done: seq<ThreadInfo>, ghost rest: seq<ThreadInfo>)
    requires Pruned(ph, done, [current] + rest)
    modifies ph, ph.repr
    ensures Pruned(ph, done, rest) && ph.pid == old(ph.pid) && ph.repr == old(ph.repr)
  {
    ghost var was := ph.nodes;
    assert was[|done|] == current;
    ghost var k := ph.DeleteThreadInfo(current);
    assert k == |done|;
    assert Without(was, k) == done + rest;
  }

  /** The body of the loop, after the next thread is noted. */
  method AttachOne(ph: ProcHandle, os: Os, current: ThreadInfo, ghost a: Attempt, ghost rest: seq<ThreadInfo>)
    returns (ok: bool)
    requires Pruned(ph, a.list, [current] + rest) && os.logs == a.logs && a.ok
    modifies ph, ph.repr, os
    ensures var a' := Visit(os.outcome, ph.pid, a, current);
            Pruned(ph, a'.list, rest) && os.logs == a'.logs && ok == a'.ok
    ensures ph.pid == old(ph.pid) && ph.repr == old(ph.repr)
  {
    Regroup(a.list, current, rest);
    ok := true;
    if ph.pid != current.lwpId {
      var r := os.PtraceAttach(current.lwpId);
      if r != Success {
        if r == ThreadDead {
          RemoveDead(ph, current, a.list, rest);
        } else {
          ok := false;
        }
      }
    }
  }

  /** The loop of Pgrab over the threads. */
  method AttachThreads(ph: ProcHandle, os: Os) returns (ok: bool)
    requires ph.Valid()
    modifies ph, ph.repr, os
    ensures ph.Valid() && ph.pid == old(ph.pid) && ph.repr == old(ph.repr)
    ensures Visits(os.outcome, ph.pid, old(os.logs), old(ph.nodes)) == Attempt(ph.nodes, os.logs, ok)
  {
    ghost var logs, nodes := os.logs, ph.nodes;
    ghost var a, done, rest := Attempt([], logs, true), [], nodes;
    var thr := ph.threads;
    while thr != null
      invariant thr == At(rest, 0) && nodes == done + rest && ph.pid == old(ph.pid) && ph.repr == old(ph.repr)
      invariant a == Visits(os.outcome, ph.pid, logs, done) && a.ok
      invariant Pruned(ph, a.list, rest) && os.logs == a.logs
      decreases |rest|
    {
      NextOf(ph, a.list, rest);
      FirstOf(done, rest);
      VisitsSnoc(os.outcome, ph.pid, logs, done, thr);
      var current: ThreadInfo := thr;
      thr := thr.next;
      rest, done := rest[1..], done + [current];
      ok := AttachOne(ph, os, current, a, rest);
      a := Visits(os.outcome, ph.pid, logs, done);
      if !ok {
        VisitsFailed(os.outcome, ph.pid, logs, done, rest);
        return;
      }
    }
    assert done + rest == done && a.list + rest == a.list;
    ok := true;
  }

  lemma FirstOf(done: seq<ThreadInfo>, rest: seq<ThreadInfo>)
    requires rest != []
    ensures [rest[0]] + rest[1..] == rest && done + [rest[0]] + rest[1..] == done + rest && At(rest[1..], 0) == At(rest, 1)
  {
  }

  // ---- What the loop comes to -------------------------------------------------------------

  function Lwps(nodes: seq<ThreadInfo>): seq<int> {
    if nodes == [] then [] else Lwps(nodes[..|nodes| - 1]) + [nodes[|nodes| - 1].lwpId]
  }

  /** All but the main thread. */
  function Others(pid: int, nodes: seq<ThreadInfo>): seq<int> {
    if nodes == [] then []
    else
      var last := |nodes| - 1;
      Others(pid, nodes[..last]) + if nodes[last].lwpId == pid then [] else [nodes[last].lwpId]
  }

  /** The answer about thread i: `first` calls came before the loop, and one for every thread
      before i but the main one, which is attached already. */
  function Answer(outcome: (nat, int) -> AttachState, pid: int, first: nat, nodes: seq<ThreadInfo>, i: nat): AttachState
    requires i < |nodes|
  {
    if nodes[i].lwpId == pid then Success else outcome(first + |Others(pid, nodes[..i])|, nodes[i].lwpId)
  }

  /** The threads not reported dead, in order. */
  function Survivors(outcome: (nat, int) -> AttachState, pid: int, first: nat, nodes: seq<ThreadInfo>): seq<ThreadInfo> {
    if nodes == [] then []
    else
      var last := |nodes| - 1;
      Survivors(outcome, pid, first, nodes[..last])
      + if Answer(outcome, pid, first, nodes, last) == ThreadDead then [] else [nodes[last]]
  }

  ghost predicate NoneFails(outcome: (nat, int) -> AttachState, pid: int, first: nat, nodes: seq<ThreadInfo>) {
    forall i :: 0 <= i < |nodes| ==> Answer(outcome, pid, first, nodes, i) != Fail
  }

  /** Later threads do not matter to the answer about thread i. */
  lemma AnswerStays(outcome: (nat, int) -> AttachState, pid: int, first: nat, nodes: seq<ThreadInfo>, n: nat, i: nat)
    requires i < n <= |nodes|
    ensures Answer(outcome, pid, first, nodes[..n], i) == Answer(outcome, pid, first, nodes, i)
  {
    assert nodes[..n][..i] == nodes[..i];
  }

  lemma {:induction false} SurvivorsListed(outcome: (nat, int) -> AttachState, pid: int, first: nat, nodes: seq<ThreadInfo>)
    ensures forall x :: x in Survivors(outcome, pid, first, nodes) ==> x in nodes
  {
    if nodes != [] {
      SurvivorsListed(outcome, pid, first, nodes[..|nodes| - 1]);
    }
  }

  /** A thread is in the list afterwards exactly when it was not reported dead. */
  lemma {:induction false} SurvivorsExactly(outcome: (nat, int) -> AttachState, pid: int, first: nat, nodes: seq<ThreadInfo>, i: nat)
    requires i < |nodes| && forall i, j :: 0 <= i < j < |nodes| ==> nodes[i] != nodes[j]
    ensures nodes[i] in Survivors(outcome, pid, first, nodes) <==> Answer(outcome, pid, first, nodes, i) != ThreadDead
    decreases |nodes|
  {
    var last := |nodes| - 1;
    var before := nodes[..last];
    if i < last {
      SurvivorsExactly(outcome, pid, first, before, i);
      AnswerStays(outcome, pid, first, nodes, last, i);
      assert before[i] == nodes[i] != nodes[last];
    } else {
      SurvivorsListed(outcome, pid, first, before);
      assert nodes[last] !in before;
    }
  }

  lemma OthersSnoc(pid: int, nodes: seq<ThreadInfo>, x: ThreadInfo)
    ensures Others(pid, nodes + [x]) == Others(pid, nodes) + if x.lwpId == pid then [] else [x.lwpId]
  {
    assert (nodes + [x])[..|nodes|] == nodes;
  }

  lemma NoneFailsStep(outcome: (nat, int) -> AttachState, pid: int, first: nat, nodes: seq<ThreadInfo>)
    requires nodes != []
    ensures var last := |nodes| - 1;
            NoneFails(outcome, pid, first, nodes)
            <==> NoneFails(outcome, pid, first, nodes[..last]) && Answer(outcome, pid, first, nodes, last) != Fail
  {
    var last := |nodes| - 1;
    forall i | 0 <= i < last
      ensures Answer(outcome, pid, first, nodes, i) == Answer(outcome, pid, first, nodes[..last], i)
    {
      AnswerStays(outcome, pid, first, nodes, last, i);
    }
  }

  /** The list and the logs of a loop that went through. */
  ghost predicate Complete(a: Attempt, outcome: (nat, int) -> AttachState, pid: int, logs: Logs, nodes: seq<ThreadInfo>) {
    && a.list == Survivors(outcome, pid, |logs.calls|, nodes)
    && a.logs.calls == logs.calls + Others(pid, nodes)
    && a.logs.attached == logs.attached + Others(pid, a.list)
    && a.logs.detached == logs.detached
  }

  lemma SurvivorsSnoc(outcome: (nat, int) -> AttachState, pid: int, first: nat, before: seq<ThreadInfo>, thr: ThreadInfo, r: AttachState)
    requires r == if thr.lwpId == pid then Success else outcome(first + |Others(pid, before)|, thr.lwpId)
    ensures Answer(outcome, pid, first, before + [thr], |before|) == r
    ensures Survivors(outcome, pid, first, before + [thr])
         == Survivors(outcome, pid, first, before) + if r == ThreadDead then [] else [thr]
  {
    assert (before + [thr])[..|before|] == before;
  }

  lemma CompleteStep(a: Attempt, outcome: (nat, int) -> AttachState, pid: int, logs: Logs, before: seq<ThreadInfo>, thr: ThreadInfo)
    requires a.ok && Complete(a, outcome, pid, logs, before)
    ensures var a' := Visit(outcome, pid, a, thr);
            && (a'.ok <==> Answer(outcome, pid, |logs.calls|, before + [thr], |before|) != Fail)
            && (a'.ok ==> Complete(a', outcome, pid, logs, before + [thr]))
  {
    var r := if thr.lwpId == pid then Success else outcome(|a.logs.calls|, thr.lwpId);
    assert |a.logs.calls| == |logs.calls| + |Others(pid, before)|;
    SurvivorsSnoc(outcome, pid, |logs.calls|, before, thr, r);
    OthersSnoc(pid, before, thr);
    if r != ThreadDead {
      OthersSnoc(pid, a.list, thr);
    }
    if thr.lwpId != pid {
      LogLonger(logs, a, Attach(a.logs, thr.lwpId, r), Others(pid, before), Others(pid, a.list), thr.lwpId, r);
    } else {
      assert Others(pid, before) + [] == Others(pid, before) && Others(pid, a.list) + [] == Others(pid, a.list);
    }
  }

  lemma LogLonger(logs: Logs, a: Attempt, after: Logs, asked: seq<int>, held: seq<int>, lwp: int, r: AttachState)
    requires a.logs.calls == logs.calls + asked && a.logs.attached == logs.attached + held && after == Attach(a.logs, lwp, r)
    ensures after.calls == logs.calls + (asked + [lwp])
    ensures after.attached == logs.attached + if r == Success then held + [lwp] else held
  {
    Longer(logs.calls, asked, [lwp]);
    Longer(logs.attached, held, [lwp]);
  }

  lemma Longer(log: seq<int>, some: seq<int>, more: seq<int>)
    ensures log + some + more == log + (some + more) && log + some + [] == log + some == log + (some + [])
    ensures |log + some| == |log| + |some|
  {
    assert some + [] == some;
  }

  /** The loop goes through exactly when no answer is a failure; then it has asked about every
      thread but the main one once, in order, and the list is the survivors, all attached to. */
  lemma {:induction false} VisitsMean(outcome: (nat, int) -> AttachState, pid: int, logs: Logs, nodes: seq<ThreadInfo>)
    ensures var a := Visits(outcome, pid, logs, nodes);
            && (a.ok <==> NoneFails(outcome, pid, |logs.calls|, nodes))
            && (a.ok ==> Complete(a, outcome, pid, logs, nodes))
  {
    if nodes != [] {
      var before, thr := nodes[..|nodes| - 1], nodes[|nodes| - 1];
      VisitsMean(outcome, pid, logs, before);
      NoneFailsStep(outcome, pid, |logs.calls|, nodes);
      var a := Visits(outcome, pid, logs, before);
      assert nodes == before + [thr];
      if a.ok {
        CompleteStep(a, outcome, pid, logs, before, thr);
      }
    }
  }

  // ---- Pgrab ------------------------------------------------------------------------------

  /** Whatever happens, a thread the loop attached to is still in the list. */
  lemma {:induction false} AttachedAreListed(outcome: (nat, int) -> AttachState, pid: int, logs: Logs, nodes: seq<ThreadInfo>)
    ensures var a := Visits(outcome, pid, logs, nodes);
            && logs.attached <= a.logs.attached && a.logs.detached == logs.detached
            && forall x :: x in a.logs.attached[|logs.attached|..] ==> x in Lwps(a.list)
  {
    if nodes != [] {
      var before, thr := nodes[..|nodes| - 1], nodes[|nodes| - 1];
      AttachedAreListed(outcome, pid, logs, before);
      LwpsSnoc(Visits(outcome, pid, logs, before).list, thr);
    }
  }

  lemma LwpsSnoc(nodes: seq<ThreadInfo>, x: ThreadInfo)
    ensures Lwps(nodes + [x]) == Lwps(nodes) + [x.lwpId]
  {
    assert (nodes + [x])[..|nodes|] == nodes;
  }

  lemma LwpsStep(nodes: seq<ThreadInfo>, i: nat)
    requires i < |nodes|
    ensures Lwps(nodes[..i + 1]) == Lwps(nodes[..i]) + [nodes[i].lwpId]
  {
    assert nodes[..i + 1][..i] == nodes[..i];
  }

  /** detach_all_pids. */
  method DetachAll(ph: ProcHandle, os: Os)
    requires ph.Valid()
    modifies os
    ensures os.logs == old(os.logs).(detached := old(os.logs).detached + Lwps(ph.nodes))
  {
    var thr := ph.threads;
    ghost var i := 0;
    while thr != null
      invariant 0 <= i <= |ph.nodes| && thr == At(ph.nodes, i)
      invariant os.logs == old(os.logs).(detached := old(os.logs).detached + Lwps(ph.nodes[..i]))
      decreases |ph.nodes| - i
    {
      LwpsStep(ph.nodes, i);
      os.PtraceDetach(thr.lwpId);
      thr := thr.next;
      i := i + 1;
    }
    assert ph.nodes[..i] == ph.nodes;
  }

  /** The nodes hold the enumerated threads, the latest first. */
  ghost predicate Enumerated(nodes: seq<ThreadInfo>, found: seq<(int, int)>) {
    if found == [] then nodes == []
    else
      && nodes != [] && (nodes[0].pthreadId, nodes[0].lwpId) == found[|found| - 1]
      && Enumerated(nodes[1..], found[..|found| - 1])
  }

  /** The enumeration contains a thread with this id. */
  ghost predicate Finds(found: seq<(int, int)>, lwp: int) {
    exists i :: 0 <= i < |found| && found[i].1 == lwp
  }

  lemma {:induction false} FoundAreListed(nodes: seq<ThreadInfo>, found: seq<(int, int)>, lwp: int)
    requires Enumerated(nodes, found)
    ensures lwp in Lwps(nodes) <==> Finds(found, lwp)
    decreases found
  {
    if found != [] {
      var last := |found| - 1;
      var before := found[..last];
      FoundAreListed(nodes[1..], before, lwp);
      LwpsCons(nodes);
      assert Finds(before, lwp) ==> Finds(found, lwp) by {
        if Finds(before, lwp) {
          var i :| 0 <= i < |before| && before[i].1 == lwp;
          assert found[i].1 == lwp;
        }
      }
      assert Finds(found, lwp) && found[last].1 != lwp ==> Finds(before, lwp) by {
        if Finds(found, lwp) && found[last].1 != lwp {
          var i :| 0 <= i < |found| && found[i].1 == lwp;
          assert before[i].1 == lwp;
        }
      }
    }
  }

  lemma {:induction false} LwpsCons(nodes: seq<ThreadInfo>)
    requires nodes != []
    ensures Lwps(nodes) == [nodes[0].lwpId] + Lwps(nodes[1..])
  {
    if |nodes| > 1 {
      var last := |nodes| - 1;
      LwpsCons(nodes[..last]);
      assert nodes[..last][1..] == nodes[1..][..last - 1];
    }
  }

  /** read_thread_info, for an enumeration that libthread_db gives. */
  method ReadThreadInfo(ph: ProcHandle, found: seq<(int, int)>)
    requires ph.Valid() && ph.nodes == []
    modifies ph
    ensures ph.Valid() && Enumerated(ph.nodes, found) && ph.pid == old(ph.pid) && fresh(ph.repr - old(ph.repr))
  {
    for i := 0 to |found|
      invariant ph.Valid() && Enumerated(ph.nodes, found[..i]) && ph.pid == old(ph.pid) && fresh(ph.repr - old(ph.repr))
    {
      ghost var before := ph.nodes;
      var thr := ph.AddThreadInfo(found[i].0, found[i].1);
      assert ph.nodes[1..] == before && found[..i + 1][..i] == found[..i];
    }
    assert found[..|found|] == found;
  }

  /** Prelease, after a thread could not be attached to. */
  method GiveUp(ph: ProcHandle, os: Os, ghost logs: Logs, ghost nodes: seq<ThreadInfo>, ghost found: seq<(int, int)>)
    requires ph.Valid() && Enumerated(nodes, found)
    requires Visits(os.outcome, ph.pid, logs, nodes) == Attempt(ph.nodes, os.logs, false)
    modifies os
    ensures logs.attached <= os.logs.attached && logs.detached <= os.logs.detached
    ensures forall x :: x in os.logs.attached[|logs.attached|..] ==> x in os.logs.detached[|logs.detached|..]
    ensures ph.pid in os.logs.detached[|logs.detached|..] <==> Finds(found, ph.pid)
  {
    AttachedAreListed(os.outcome, ph.pid, logs, nodes);
    MainIsListed(os.outcome, ph.pid, logs, nodes);
    FoundAreListed(nodes, found, ph.pid);
    DetachAll(ph, os);
    assert os.logs.detached[|logs.detached|..] == Lwps(ph.nodes);
  }

  /** Pgrab. `nodes` is the list before the loop. If a thread cannot be attached to, everything
      in the list is detached from and there is no handle. */
  method Pgrab(pid: int, found: seq<(int, int)>, os: Os) returns (ph: ProcHandle?, ghost nodes: seq<ThreadInfo>)
    modifies os
    ensures var first := |old(os.logs).calls|;
            var logs := Attach(old(os.logs), pid, os.outcome(first, pid));
            if os.outcome(first, pid) != Success then ph == null && os.logs == logs
            else
              && Enumerated(nodes, found) && (ph != null <==> NoneFails(os.outcome, pid, first + 1, nodes))
              && (ph != null ==>
                    && ph.Valid() && ph.nodes == Survivors(os.outcome, pid, first + 1, nodes)
                    && os.logs.calls == logs.calls + Others(pid, nodes)
                    && os.logs.attached == logs.attached + Others(pid, ph.nodes)
                    && os.logs.detached == logs.detached)
              && (ph == null ==>
                    && logs.attached <= os.logs.attached && logs.detached <= os.logs.detached
                    && (forall x :: x in os.logs.attached[|logs.attached|..] ==> x in os.logs.detached[|logs.detached|..])
                    && (pid in os.logs.detached[|logs.detached|..] <==> Finds(found, pid)))
  {
    nodes := [];
    var r := os.PtraceAttach(pid);
    if r != Success {
      return null, [];
    }
    ghost var logs := os.logs;
    ph := new ProcHandle(pid);
    ReadThreadInfo(ph, found);
    nodes := ph.nodes;
    var ok := AttachThreads(ph, os);
    VisitsMean(os.outcome, pid, logs, nodes);
    if !ok {
      GiveUp(ph, os, logs, nodes, found);
      ph := null;
    }
  }

  /** On failure the process itself, which is attached to first, is only let go of if it is one
      of the enumerated threads. */
  lemma {:induction false} MainIsListed(outcome: (nat, int) -> AttachState, pid: int, logs: Logs, nodes: seq<ThreadInfo>)
    ensures pid in Lwps(Visits(outcome, pid, logs, nodes).list) <==> pid in Lwps(nodes)
  {
    if nodes != [] {
      var before, thr := nodes[..|nodes| - 1], nodes[|nodes| - 1];
      MainIsListed(outcome, pid, logs, before);
      LwpsSnoc(Visits(outcome, pid, logs, before).list, thr);
    }
  }

  /** The main thread has exited, so it is not enumerated, and the other thread cannot be attached
      to: the process stays attached. */
  method ProcessStaysAttached() returns (ph: ProcHandle?, os: Os)
    ensures ph == null && 1 in os.logs.attached && 1 !in os.logs.detached
  {
    os := new Os((n: nat, pid: int) => if n == 0 then Success else Fail);
    ghost var nodes;
    ph, nodes := Pgrab(1, [(7, 2)], os);
    assert nodes[0].lwpId == 2;
    assert Answer(os.outcome, 1, 1, nodes, 0) == Fail;
    assert os.logs.attached[0] == 1;
    assert os.logs.detached[0..] == os.logs.detached;
  }
}
