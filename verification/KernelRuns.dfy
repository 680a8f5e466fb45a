/**
 Runs of the kernel: the invariant holds in every state reachable from boot, a woken receiver
 completes, and the log of a run shows every message delivered at most once.
 */
module KernelRuns {
  import opened LinkedLists
  import opened Kernel
  import opened KernelInv

  // proc_init: the server processes, in list order, runnable in user mode; the CPU idles
  function Boot(pids: seq<Pid>): State {
    State(map p | p in pids :: Proc(Runnable, NoWait, false, [], NoMessage, NoMessage, User), pids, None, [])
  }

  ghost predicate ValidRun(s: State, acts: seq<Action>)
    requires Inv(s)
    decreases |acts|
  {
    acts == [] || (Enabled(s, acts[0]) && (StepInv(s, acts[0]); ValidRun(Step(s, acts[0]), acts[1..])))
  }

  ghost function Run(s: State, acts: seq<Action>): State
    requires Inv(s) && ValidRun(s, acts)
    decreases |acts|
  {
    if acts == [] then s else
    StepInv(s, acts[0]);
    Run(Step(s, acts[0]), acts[1..])
  }

  lemma {:induction false} RunInv(s: State, acts: seq<Action>)
    requires Inv(s) && ValidRun(s, acts)
    ensures Inv(Run(s, acts))
    decreases |acts|
  {
    if acts != [] {
      StepInv(s, acts[0]);
      RunInv(Step(s, acts[0]), acts[1..]);
    }
  }

  lemma BootInv(pids: seq<Pid>)
    requires Distinct(pids)
    ensures Inv(Boot(pids))
  {
    assert forall p: Pid, q: Pid :: !SendingTo(Boot(pids), p, q);
  }

  // ----- a woken receiver succeeds -----

  // When a process that blocked in do_recv runs again, its call completes in that same segment
  lemma WokenReceiverCompletes(s: State, p: Pid)
    requires Inv(s) && s.current == Some(p) && s.procs[p].resume.InRecv?
    ensures var t := Continued(s, p).after;
            && Continued(s, p).Stay? && t.current == Some(p) && t.procs[p].resume == User
            && |t.log| == |s.log| + 1
            && (t.log[|s.log|] == IntrTaken(p) || (t.log[|s.log|].Delivered? && t.log[|s.log|].dst == p))
  {
    assert WaitsRightly(s, p);
    if s.procs[p].queue != [] {
      assert s.procs[p].queue[0] in s.procs[p].queue;
    }
  }

  // ----- exactly-once, in-order delivery -----

  // The messages p has sent, and those of them that were delivered, with their destinations
  function SentBy(log: seq<Event>, p: Pid): seq<(Pid, Message)> {
    if log == [] then [] else
    var e := log[|log| - 1];
    SentBy(log[..|log| - 1], p) + (if e.Sent? && e.src == p then [(e.dst, e.msg)] else [])
  }

  function DeliveredFrom(log: seq<Event>, p: Pid): seq<(Pid, Message)> {
    if log == [] then [] else
    var e := log[|log| - 1];
    DeliveredFrom(log[..|log| - 1], p) + (if e.Delivered? && e.src == p then [(e.dst, e.msg)] else [])
  }

  // The message a process is blocked on
  function InTransit(s: State, p: Pid): seq<(Pid, Message)> {
    if p in s.procs && s.procs[p].state == Sending && s.procs[p].wait.On?
    then [(s.procs[p].wait.pid, s.procs[p].msg)] else []
  }

  // Everything sent has been delivered, unchanged and once, in order, but for the message in transit
  ghost predicate ExactlyOnce(s: State) {
    forall p: Pid :: SentBy(s.log, p) == DeliveredFrom(s.log, p) + InTransit(s, p)
  }

  lemma LogGrows(log: seq<Event>, e: Event, p: Pid)
    ensures SentBy(log + [e], p) == SentBy(log, p) + (if e.Sent? && e.src == p then [(e.dst, e.msg)] else [])
    ensures DeliveredFrom(log + [e], p) ==
            DeliveredFrom(log, p) + (if e.Delivered? && e.src == p then [(e.dst, e.msg)] else [])
  {
    assert (log + [e])[..|log|] == log;
  }

  // Steps that neither block nor release a sender
  lemma QuietExactlyOnce(s: State, t: State)
    requires ExactlyOnce(s)
    requires forall p: Pid :: InTransit(t, p) == InTransit(s, p)
    requires t.log == s.log || exists d :: t.log == s.log + [IntrTaken(d)]
    ensures ExactlyOnce(t)
  {
    forall p: Pid ensures SentBy(t.log, p) == DeliveredFrom(t.log, p) + InTransit(t, p) {
      if t.log != s.log {
        var d :| t.log == s.log + [IntrTaken(d)];
        LogGrows(s.log, IntrTaken(d), p);
      }
    }
  }

  lemma EnqueuedExactlyOnce(s: State, p: Pid, to: Pid, m: Message, andRecv: bool)
    requires Inv(s) && ExactlyOnce(s) && s.current == Some(p) && to in s.procs
    ensures ExactlyOnce(Enqueued(s, p, to, m, andRecv))
  {
    var t := Enqueued(s, p, to, m, andRecv);
    forall q: Pid ensures SentBy(t.log, q) == DeliveredFrom(t.log, q) + InTransit(t, q) {
      LogGrows(s.log, Sent(p, to, m), q);
    }
  }

  lemma ReceivedExactlyOnce(s: State, p: Pid, src: Pid)
    requires Inv(s) && ExactlyOnce(s) && s.current == Some(p) && SendingTo(s, src, p)
    ensures ExactlyOnce(Received(s, p, src))
  {
    var t := Received(s, p, src);
    forall q: Pid ensures SentBy(t.log, q) == DeliveredFrom(t.log, q) + InTransit(t, q) {
      LogGrows(s.log, Delivered(src, p, s.procs[src].msg), q);
    }
  }

  lemma ScheduleQuiet(s: State)
    ensures Schedule(s).log == s.log
    ensures forall p: Pid :: InTransit(Schedule(s), p) == InTransit(s, p)
    ensures Schedule(s).procs.Keys == s.procs.Keys
    ensures forall p :: p in s.procs ==> SameUpToCpu(s.procs[p], Schedule(s).procs[p])
  {
    var y := Yielded(s);
    FirstRunnableFinds(y.procs, y.head);
  }

  lemma ReceiveExactlyOnce(s: State, p: Pid, from: Peer)
    requires Inv(s) && ExactlyOnce(s) && s.current == Some(p)
    ensures ExactlyOnce(Receive(s, p, from).after)
  {
    QuietExactlyOnce(s, Blocked(s, p, from));
    QuietExactlyOnce(s, TookIntr(s, p));
    if from.On? && SendingTo(s, from.pid, p) {
      ReceivedExactlyOnce(s, p, from.pid);
    } else if from == All && s.procs[p].queue != [] {
      assert s.procs[p].queue[0] in s.procs[p].queue;
      ReceivedExactlyOnce(s, p, s.procs[p].queue[0]);
    }
  }

  lemma ContinuedExactlyOnce(s: State, p: Pid)
    requires Inv(s) && ExactlyOnce(s) && s.current == Some(p)
    ensures ExactlyOnce(Continued(s, p).after)
  {
    assert WaitsRightly(s, p);
    match s.procs[p].resume {
      case InRecv(from) =>
        if from.On? {
          ReceivedExactlyOnce(s, p, from.pid);
        } else if from == All {
          ReceiveExactlyOnce(s, p, All);
        } else {
          QuietExactlyOnce(s, TookIntr(s, p));
        }
      case AfterSend(andRecv) =>
        if andRecv {
          ReceiveExactlyOnce(s, p, s.procs[p].wait);
        } else {
          QuietExactlyOnce(s, Returned(s, p));
        }
      case User =>
    }
  }

  lemma BufferedExactlyOnce(s: State, p: Pid, m: Message)
    requires ExactlyOnce(s) && p in s.procs
    ensures ExactlyOnce(Buffered(s, p, m))
  {
    QuietExactlyOnce(s, Buffered(s, p, m));
  }

  lemma CodeExactlyOnce(s: State, a: Action)
    requires Inv(s) && Enabled(s, a) && ExactlyOnce(s)
    ensures ExactlyOnce(Code(s, a).after)
  {
    match a
    case Send(to, m) => EnqueuedExactlyOnce(s, s.current.value, to, Stamped(m, s.current.value), false);
    case SendRecv(to, m) => EnqueuedExactlyOnce(s, s.current.value, to, Stamped(m, s.current.value), true);
    case Recv(from, m) =>
      BufferedExactlyOnce(s, s.current.value, m);
      CallerOnly(s, Buffered(s, s.current.value, m), s.current.value);
      ReceiveExactlyOnce(Buffered(s, s.current.value, m), s.current.value, from);
    case Exit => QuietExactlyOnce(s, Exited(s, s.current.value));
    case Timer =>
    case Continue => ContinuedExactlyOnce(s, s.current.value);
    case Fork(child) => QuietExactlyOnce(s, Forked(s, child));
    case Interrupt(d) => QuietExactlyOnce(s, Interrupted(s, d));
  }

  lemma StepExactlyOnce(s: State, a: Action)
    requires Inv(s) && Enabled(s, a) && ExactlyOnce(s)
    ensures ExactlyOnce(Step(s, a))
  {
    CodeExactlyOnce(s, a);
    ScheduleQuiet(Code(s, a).after);
    QuietExactlyOnce(Code(s, a).after, Schedule(Code(s, a).after));
  }

  lemma {:induction false} RunExactlyOnce(s: State, acts: seq<Action>)
    requires Inv(s) && ExactlyOnce(s) && ValidRun(s, acts)
    ensures ExactlyOnce(Run(s, acts))
    decreases |acts|
  {
    if acts != [] {
      StepInv(s, acts[0]);
      StepExactlyOnce(s, acts[0]);
      RunExactlyOnce(Step(s, acts[0]), acts[1..]);
    }
  }

  // ----- from boot -----

  ghost predicate BootRun(pids: seq<Pid>, acts: seq<Action>)
    requires Distinct(pids)
  {
    BootInv(pids);
    ValidRun(Boot(pids), acts)
  }

  // The state a run from boot reaches
  ghost function BootState(pids: seq<Pid>, acts: seq<Action>): State
    requires Distinct(pids) && BootRun(pids, acts)
  {
    BootInv(pids);
    Run(Boot(pids), acts)
  }

  lemma BootExactlyOnce(pids: seq<Pid>)
    ensures ExactlyOnce(Boot(pids))
  {
  }

  // In every state reached from boot, what p has sent is what was delivered from it, unchanged and in
  // order, followed by the one message it is blocked on, if it is blocked in a send
  lemma DeliveredExactlyOnce(pids: seq<Pid>, acts: seq<Action>, p: Pid)
    requires Distinct(pids) && BootRun(pids, acts)
    ensures var s := BootState(pids, acts);
            && Inv(s)
            && SentBy(s.log, p) == DeliveredFrom(s.log, p) + InTransit(s, p)
            && |InTransit(s, p)| == if p in s.procs && s.procs[p].state == Sending then 1 else 0
  {
    BootInv(pids);
    BootExactlyOnce(pids);
    RunInv(Boot(pids), acts);
    RunExactlyOnce(Boot(pids), acts);
    var s := BootState(pids, acts);
    assert p in s.procs ==> WaitsRightly(s, p);
  }
}
