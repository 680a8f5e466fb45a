/**
 Every step of the kernel keeps the invariant of module Kernel: no wakeup is lost, a blocked
 sender is in exactly one queue, and at most one process has the CPU.
 */
module KernelInv {
  import opened LinkedLists
  import opened Kernel

  // The part of the invariant that does not mention who has the CPU
  ghost predicate Core(s: State) {
    QueuesMatch(s) && forall p {:trigger WaitsRightly(s, p)} :: p in s.procs ==> WaitsRightly(s, p)
  }

  // The list just before the scheduler picks: the caller may have blocked
  ghost predicate Listed(s: State) {
    && Distinct(s.head)
    && (forall p :: p in s.head <==> p in s.procs)
    && (s.current.Some? ==> s.current.value in s.procs)
    && (forall p :: p in s.procs && s.procs[p].state == Running ==> s.current == Some(p))
  }

  // ----- the scheduler -----

  lemma {:induction false} FirstRunnableFinds(procs: map<Pid, Proc>, head: seq<Pid>)
    ensures match FirstRunnable(procs, head)
            case Some(p) => p in head && IsRunnable(procs, p)
            case None => forall p :: p in head ==> !IsRunnable(procs, p)
  {
    if head != [] {
      FirstRunnableFinds(procs, head[1..]);
      assert head == [head[0]] + head[1..];
    }
  }

  predicate SameUpToCpu(a: Proc, b: Proc) {
    a.(state := b.state) == b && (a.state == b.state || ({a.state, b.state} == {Runnable, Running}))
  }

  // Handing over the CPU does not disturb message passing
  lemma CpuIrrelevant(s: State, t: State)
    requires Core(s) && s.procs.Keys == t.procs.Keys
    requires forall p :: p in s.procs ==> SameUpToCpu(s.procs[p], t.procs[p])
    ensures Core(t)
  {
    assert forall p, q :: SendingTo(t, p, q) <==> SendingTo(s, p, q);
    forall p | p in t.procs ensures WaitsRightly(t, p) {
      assert WaitsRightly(s, p);
    }
  }

  lemma YieldedCore(s: State)
    requires Core(s) && Listed(s)
    ensures Core(Yielded(s)) && Listed(Yielded(s))
    ensures forall p :: p in Yielded(s).procs ==> Yielded(s).procs[p].state != Running
  {
    var t := Yielded(s);
    CpuIrrelevant(s, t);
    if s.current.Some? {
      RemoveDistinct(s.head, s.current.value);
    }
  }

  lemma ScheduleInv(s: State)
    requires Core(s) && Listed(s)
    ensures Inv(Schedule(s))
  {
    YieldedCore(s);
    var y := Yielded(s);
    FirstRunnableFinds(y.procs, y.head);
    CpuIrrelevant(y, Picked(y));
  }

  // ----- message passing -----

  lemma EnqueuedQueues(s: State, p: Pid, to: Pid, m: Message, andRecv: bool)
    requires Inv(s) && s.current == Some(p) && to in s.procs
    ensures var t := Enqueued(s, p, to, m, andRecv);
            && QueuesMatch(t)
            && forall x: Pid, q: Pid :: SendingTo(t, x, q) <==> SendingTo(s, x, q) || (x, q) == (p, to)
  {
    EnqueuedSends(s, p, to, m, andRecv);
    QueuesGrow(s, Enqueued(s, p, to, m, andRecv), p, to);
  }

  // One more sender, at the end of one queue
  lemma QueuesGrow(s: State, t: State, p: Pid, to: Pid)
    requires QueuesMatch(s) && to in s.procs && t.procs.Keys == s.procs.Keys && forall q: Pid :: !SendingTo(s, p, q)
    requires forall x: Pid, q: Pid :: SendingTo(t, x, q) <==> SendingTo(s, x, q) || (x, q) == (p, to)
    requires forall q :: q in s.procs ==> t.procs[q].queue == s.procs[q].queue + (if q == to then [p] else [])
    requires forall x :: x in t.procs && t.procs[x].state == Sending ==>
               t.procs[x].wait.On? && t.procs[x].wait.pid in s.procs
    ensures QueuesMatch(t)
  {
    forall q | q in s.procs ensures p !in s.procs[q].queue {
      assert !SendingTo(s, p, q);
    }
  }

  lemma EnqueuedSends(s: State, p: Pid, to: Pid, m: Message, andRecv: bool)
    requires Inv(s) && s.current == Some(p) && to in s.procs
    ensures var t := Enqueued(s, p, to, m, andRecv);
            forall x: Pid, q: Pid :: SendingTo(t, x, q) <==> SendingTo(s, x, q) || (x, q) == (p, to)
    ensures forall q: Pid :: !SendingTo(s, p, q)
  {
    assert s.procs[p].state == Running;
  }

  lemma EnqueuedCore(s: State, p: Pid, to: Pid, m: Message, andRecv: bool)
    requires Inv(s) && s.current == Some(p) && to in s.procs && m.src == p
    ensures Core(Enqueued(s, p, to, m, andRecv)) && Listed(Enqueued(s, p, to, m, andRecv))
  {
    var t := Enqueued(s, p, to, m, andRecv);
    assert s.procs[p].state == Running;
    EnqueuedQueues(s, p, to, m, andRecv);
    forall q | q in t.procs ensures WaitsRightly(t, q) {
      assert WaitsRightly(s, q);
    }
  }

  lemma BlockedCore(s: State, p: Pid, from: Peer)
    requires Inv(s) && s.current == Some(p) && NothingToReceive(s, p, from)
    ensures Core(Blocked(s, p, from)) && Listed(Blocked(s, p, from))
  {
    var t := Blocked(s, p, from);
    assert s.procs[p].state == Running;
    assert forall x: Pid, q: Pid :: SendingTo(t, x, q) <==> SendingTo(s, x, q);
    forall q | q in t.procs ensures WaitsRightly(t, q) {
      assert WaitsRightly(s, q);
    }
  }

  lemma ReceivedQueues(s: State, p: Pid, src: Pid)
    requires Inv(s) && s.current == Some(p) && SendingTo(s, src, p)
    ensures QueuesMatch(Received(s, p, src))
    ensures forall x: Pid, q: Pid :: SendingTo(Received(s, p, src), x, q) <==> SendingTo(s, x, q) && x != src
  {
    var t := Received(s, p, src);
    assert s.procs[p].state == Running && src != p;
    RemoveDistinct(s.procs[p].queue, src);
    forall q | q in s.procs && q != p ensures t.procs[q].queue == s.procs[q].queue && src !in s.procs[q].queue {
      assert !SendingTo(s, src, q);
    }
    assert forall x: Pid, q: Pid :: SendingTo(t, x, q) <==> SendingTo(s, x, q) && x != src;
  }

  lemma ReceivedInv(s: State, p: Pid, src: Pid)
    requires Inv(s) && s.current == Some(p) && SendingTo(s, src, p)
    ensures Inv(Received(s, p, src))
  {
    var t := Received(s, p, src);
    assert s.procs[p].state == Running && src != p;
    ReceivedQueues(s, p, src);
    forall q | q in t.procs ensures WaitsRightly(t, q) {
      assert WaitsRightly(s, q);
    }
  }

  lemma TookIntrInv(s: State, p: Pid)
    requires Inv(s) && s.current == Some(p)
    ensures Inv(TookIntr(s, p))
  {
    var t := TookIntr(s, p);
    assert forall x: Pid, q: Pid :: SendingTo(t, x, q) <==> SendingTo(s, x, q);
    forall q | q in t.procs ensures WaitsRightly(t, q) {
      assert WaitsRightly(s, q);
    }
  }

  // The state after a segment: complete unless schedule() is still to come
  ghost predicate SegmentOk(g: Segment) {
    Core(g.after) && Listed(g.after) && (g.Stay? ==> Inv(g.after))
  }

  lemma ReceiveOk(s: State, p: Pid, from: Peer)
    requires Inv(s) && s.current == Some(p) && from != NoWait && (from.On? ==> from.pid in s.procs)
    ensures SegmentOk(Receive(s, p, from))
  {
    if SomethingToReceive(s, p, from) {
      if from.On? {
        ReceivedInv(s, p, from.pid);
      } else if s.procs[p].hasIntr {
        TookIntrInv(s, p);
      } else {
        assert s.procs[p].queue[0] in s.procs[p].queue;
        ReceivedInv(s, p, s.procs[p].queue[0]);
      }
    } else {
      BlockedCore(s, p, from);
    }
  }

  lemma ContinuedOk(s: State, p: Pid)
    requires Inv(s) && s.current == Some(p)
    ensures SegmentOk(Continued(s, p))
  {
    assert WaitsRightly(s, p);
    match s.procs[p].resume
    case User =>
    case AfterSend(andRecv) =>
      if andRecv {
        ReceiveOk(s, p, s.procs[p].wait);
      } else {
        CallerOnly(s, Returned(s, p), p);
      }
    case InRecv(from) =>
      match from
      case All => ReceiveOk(s, p, All);
      case Intr => TookIntrInv(s, p);
      case On(x) => ReceivedInv(s, p, x);
      case NoWait =>
  }

  // A change of the caller's own buffers or resume point
  lemma CallerOnly(s: State, t: State, p: Pid)
    requires Inv(s) && s.current == Some(p) && t.(procs := s.procs, log := s.log) == s
    requires exists pr :: && t.procs == s.procs[p := pr] && pr.resume == User
                          && pr.(msg := s.procs[p].msg, buf := s.procs[p].buf) == s.procs[p].(resume := User)
    ensures Inv(t)
  {
    assert forall x: Pid, q: Pid :: SendingTo(t, x, q) <==> SendingTo(s, x, q);
    forall q | q in t.procs ensures WaitsRightly(t, q) {
      assert WaitsRightly(s, q);
    }
  }

  lemma InterruptedInv(s: State, d: Pid)
    requires Inv(s) && d in s.procs
    ensures Inv(Interrupted(s, d))
  {
    var t := Interrupted(s, d);
    assert forall x: Pid, q: Pid :: SendingTo(t, x, q) <==> SendingTo(s, x, q);
    forall q | q in t.procs ensures WaitsRightly(t, q) {
      assert WaitsRightly(s, q);
    }
  }

  lemma ForkedInv(s: State, child: Pid)
    requires Inv(s) && child !in s.procs
    ensures var t := Forked(s, child);
            && Inv(t) && t.procs.Keys == s.procs.Keys + {child} && t.procs[child].state == Runnable
            && t.current == s.current && |t.head| == |s.head| + 1 && s.head <= t.head
            && forall p :: p in s.procs ==> t.procs[p] == s.procs[p]
  {
    var t := Forked(s, child);
    assert forall x: Pid, q: Pid :: SendingTo(t, x, q) <==> SendingTo(s, x, q);
    forall q | q in t.procs ensures WaitsRightly(t, q) {
      if q != child {
        assert WaitsRightly(s, q);
      }
    }
  }

  lemma ExitedCore(s: State, p: Pid)
    requires Inv(s) && s.current == Some(p) && s.procs[p].resume == User
    ensures Core(Exited(s, p)) && Listed(Exited(s, p))
  {
    var t := Exited(s, p);
    assert s.procs[p].state == Running;
    assert forall x: Pid, q: Pid :: SendingTo(t, x, q) <==> SendingTo(s, x, q);
    forall q | q in t.procs ensures WaitsRightly(t, q) {
      assert WaitsRightly(s, q);
    }
  }

  lemma CodeOk(s: State, a: Action)
    requires Inv(s) && Enabled(s, a)
    ensures SegmentOk(Code(s, a))
  {
    match a
    case Send(to, m) => EnqueuedCore(s, s.current.value, to, Stamped(m, s.current.value), false);
    case SendRecv(to, m) => EnqueuedCore(s, s.current.value, to, Stamped(m, s.current.value), true);
    case Recv(from, m) =>
      CallerOnly(s, Buffered(s, s.current.value, m), s.current.value);
      ReceiveOk(Buffered(s, s.current.value, m), s.current.value, from);
    case Fork(child) => ForkedInv(s, child);
    case Exit => ExitedCore(s, s.current.value);
    case Timer =>
    case Continue => ContinuedOk(s, s.current.value);
    case Interrupt(d) => InterruptedInv(s, d);
  }

  lemma StepInv(s: State, a: Action)
    requires Inv(s) && Enabled(s, a)
    ensures Inv(Step(s, a))
  {
    CodeOk(s, a);
    ScheduleInv(Code(s, a).after);
  }
}
