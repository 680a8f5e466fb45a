/**
 Two orders in the kernel: blocked senders are served in order of arrival, and runnable processes
 get the CPU in order of the process list.
 */
module KernelOrder {
  import opened LinkedLists
  import opened Kernel
  import opened KernelInv
  import opened KernelRuns

  // ----- arrival order -----

  // The position in the log of the last message p sent, -1 if there is none
  function LastSent(log: seq<Event>, p: Pid): int {
    if log == [] then -1
    else if log[|log| - 1].Sent? && log[|log| - 1].src == p then |log| - 1
    else LastSent(log[..|log| - 1], p)
  }

  ghost predicate Ordered(log: seq<Event>, queue: seq<Pid>) {
    forall i, j :: 0 <= i < j < |queue| ==> LastSent(log, queue[i]) < LastSent(log, queue[j])
  }

  // Every wait queue is in order of arrival
  ghost predicate ArrivalOrder(s: State) {
    forall q :: q in s.procs ==> Ordered(s.log, s.procs[q].queue)
  }

  lemma {:induction false} LastSentBound(log: seq<Event>, p: Pid)
    ensures -1 <= LastSent(log, p) < |log|
  {
    if log != [] {
      LastSentBound(log[..|log| - 1], p);
    }
  }

  lemma LastSentGrows(log: seq<Event>, e: Event, p: Pid)
    ensures LastSent(log + [e], p) == if e.Sent? && e.src == p then |log| else LastSent(log, p)
  {
    assert (log + [e])[..|log|] == log;
  }

  lemma {:induction false} RemoveOrdered(log: seq<Event>, queue: seq<Pid>, p: Pid)
    requires Ordered(log, queue)
    ensures Ordered(log, Remove(queue, p))
    ensures forall q :: q in Remove(queue, p) ==> q in queue
  {
    if queue != [] && queue[0] != p {
      RemoveOrdered(log, queue[1..], p);
      var r := Remove(queue[1..], p);
      forall i | 0 <= i < |r| ensures LastSent(log, queue[0]) < LastSent(log, r[i]) {
        assert r[i] in queue[1..];
      }
    }
  }

  lemma QuietOrder(s: State, t: State)
    requires ArrivalOrder(s) && (t.log == s.log || exists d :: t.log == s.log + [IntrTaken(d)])
    requires forall q :: q in t.procs ==>
               t.procs[q].queue == [] || (q in s.procs && t.procs[q].queue == s.procs[q].queue)
    ensures ArrivalOrder(t)
  {
    if t.log != s.log {
      var d :| t.log == s.log + [IntrTaken(d)];
      forall p: Pid ensures LastSent(t.log, p) == LastSent(s.log, p) { LastSentGrows(s.log, IntrTaken(d), p); }
    }
  }

  lemma EnqueuedOrder(s: State, p: Pid, to: Pid, m: Message, andRecv: bool)
    requires Inv(s) && ArrivalOrder(s) && s.current == Some(p) && to in s.procs
    ensures ArrivalOrder(Enqueued(s, p, to, m, andRecv))
  {
    var t := Enqueued(s, p, to, m, andRecv);
    forall x: Pid ensures LastSent(t.log, x) == if x == p then |s.log| else LastSent(s.log, x) {
      LastSentGrows(s.log, Sent(p, to, m), x);
    }
    forall q | q in t.procs ensures Ordered(t.log, t.procs[q].queue) {
      var queue := s.procs[q].queue;
      assert Ordered(s.log, queue) && !SendingTo(s, p, q) && p !in queue;
      forall i | 0 <= i < |queue| ensures LastSent(s.log, queue[i]) < |s.log| && queue[i] != p {
        LastSentBound(s.log, queue[i]);
        assert queue[i] in queue;
      }
    }
  }

  lemma ReceivedOrder(s: State, p: Pid, src: Pid)
    requires Inv(s) && ArrivalOrder(s) && s.current == Some(p) && SendingTo(s, src, p)
    ensures ArrivalOrder(Received(s, p, src))
  {
    var t := Received(s, p, src);
    forall x: Pid ensures LastSent(t.log, x) == LastSent(s.log, x) {
      LastSentGrows(s.log, Delivered(src, p, s.procs[src].msg), x);
    }
    forall q | q in t.procs ensures Ordered(t.log, t.procs[q].queue) {
      RemoveOrdered(s.log, s.procs[q].queue, src);
      assert Ordered(s.log, s.procs[q].queue);
    }
  }

  // Blocking, and taking an interrupt, change no queue
  lemma ReceiveQuietly(s: State, p: Pid, from: Peer)
    requires Inv(s) && ArrivalOrder(s) && p in s.procs
    ensures ArrivalOrder(Blocked(s, p, from)) && ArrivalOrder(TookIntr(s, p))
  {
    QuietOrder(s, Blocked(s, p, from));
    QuietOrder(s, TookIntr(s, p));
  }

  lemma ReceiveOrder(s: State, p: Pid, from: Peer)
    requires Inv(s) && ArrivalOrder(s) && s.current == Some(p)
    ensures ArrivalOrder(Receive(s, p, from).after)
  {
    ReceiveQuietly(s, p, from);
    if from.On? && SendingTo(s, from.pid, p) {
      ReceivedOrder(s, p, from.pid);
    } else if from == All && s.procs[p].queue != [] {
      assert s.procs[p].queue[0] in s.procs[p].queue;
      ReceivedOrder(s, p, s.procs[p].queue[0]);
    }
  }

  lemma ContinuedOrder(s: State, p: Pid)
    requires Inv(s) && ArrivalOrder(s) && s.current == Some(p)
    ensures ArrivalOrder(Continued(s, p).after)
  {
    assert WaitsRightly(s, p);
    match s.procs[p].resume {
      case InRecv(from) =>
        if from.On? {
          ReceivedOrder(s, p, from.pid);
        } else if from == All {
          ReceiveOrder(s, p, All);
        } else {
          QuietOrder(s, TookIntr(s, p));
        }
      case AfterSend(andRecv) =>
        if andRecv {
          ReceiveOrder(s, p, s.procs[p].wait);
        } else {
          QuietOrder(s, Returned(s, p));
        }
      case User =>
    }
  }

  lemma StepOrder(s: State, a: Action)
    requires Inv(s) && Enabled(s, a) && ArrivalOrder(s)
    ensures ArrivalOrder(Step(s, a))
  {
    CodeOrder(s, a);
    ScheduleQuiet(Code(s, a).after);
    QuietOrder(Code(s, a).after, Schedule(Code(s, a).after));
  }

  lemma CodeOrder(s: State, a: Action)
    requires Inv(s) && Enabled(s, a) && ArrivalOrder(s)
    ensures ArrivalOrder(Code(s, a).after)
  {
    match a
    case Send(to, m) => EnqueuedOrder(s, s.current.value, to, Stamped(m, s.current.value), false);
    case SendRecv(to, m) => EnqueuedOrder(s, s.current.value, to, Stamped(m, s.current.value), true);
    case Recv(from, m) =>
      QuietOrder(s, Buffered(s, s.current.value, m));
      CallerOnly(s, Buffered(s, s.current.value, m), s.current.value);
      ReceiveOrder(Buffered(s, s.current.value, m), s.current.value, from);
    case Exit => QuietOrder(s, Exited(s, s.current.value));
    case Timer =>
    case Continue => ContinuedOrder(s, s.current.value);
    case Fork(child) => QuietOrder(s, Forked(s, child));
    case Interrupt(d) => QuietOrder(s, Interrupted(s, d));
  }

  lemma {:induction false} RunOrder(s: State, acts: seq<Action>)
    requires Inv(s) && ArrivalOrder(s) && ValidRun(s, acts)
    ensures ArrivalOrder(Run(s, acts))
    decreases |acts|
  {
    if acts != [] {
      StepInv(s, acts[0]);
      StepOrder(s, acts[0]);
      RunOrder(Step(s, acts[0]), acts[1..]);
    }
  }

  // Receiving from anyone takes the message that has waited longest
  lemma OldestFirst(s: State, p: Pid)
    requires Inv(s) && ArrivalOrder(s) && p in s.procs && !s.procs[p].hasIntr && s.procs[p].queue != []
    ensures var src := s.procs[p].queue[0];
            && SendingTo(s, src, p)
            && Receive(s, p, All) == Stay(Received(s, p, src))
            && forall q: Pid :: SendingTo(s, q, p) && q != src ==> LastSent(s.log, src) < LastSent(s.log, q)
  {
    var queue := s.procs[p].queue;
    assert queue[0] in queue;
    assert Ordered(s.log, queue);
    forall q: Pid | SendingTo(s, q, p) && q != queue[0] ensures LastSent(s.log, queue[0]) < LastSent(s.log, q) {
      assert q in queue;
      var j :| 0 <= j < |queue| && queue[j] == q;
    }
  }

  lemma BootOrder(pids: seq<Pid>)
    ensures ArrivalOrder(Boot(pids))
  {
  }

  // In every state reached from boot, receiving from anyone takes the message that was sent first
  lemma OldestFirstFromBoot(pids: seq<Pid>, acts: seq<Action>, p: Pid)
    requires Distinct(pids) && BootRun(pids, acts)
    requires var s := BootState(pids, acts); p in s.procs && !s.procs[p].hasIntr && s.procs[p].queue != []
    ensures var s := BootState(pids, acts);
            var src := s.procs[p].queue[0];
            && Inv(s) && ArrivalOrder(s) && SendingTo(s, src, p)
            && Receive(s, p, All) == Stay(Received(s, p, src))
            && forall q: Pid :: SendingTo(s, q, p) && q != src ==> LastSent(s.log, src) < LastSent(s.log, q)
  {
    BootInv(pids);
    BootOrder(pids);
    RunInv(Boot(pids), acts);
    RunOrder(Boot(pids), acts);
    OldestFirst(BootState(pids, acts), p);
  }

  // ----- bounded waiting -----

  // The number of processes ahead of p in the list
  function Ahead(head: seq<Pid>, p: Pid): nat
    requires p in head
  {
    if head[0] == p then 0 else 1 + Ahead(head[1..], p)
  }

  // How many calls of schedule() p can still see before it runs
  function Turns(s: State, p: Pid): nat
    requires p in s.head
  {
    if s.current.Some? && s.current.value in s.head && Ahead(s.head, s.current.value) < Ahead(s.head, p)
    then Ahead(s.head, p) else Ahead(s.head, p) + 1
  }

  // The number of calls of schedule() in a run
  ghost function Calls(s: State, acts: seq<Action>): nat
    requires Inv(s) && ValidRun(s, acts)
    decreases |acts|
  {
    if acts == [] then 0 else
    StepInv(s, acts[0]);
    (if Code(s, acts[0]).Yield? then 1 else 0) + Calls(Step(s, acts[0]), acts[1..])
  }

  lemma {:induction false} AheadAppend(head: seq<Pid>, tail: seq<Pid>, p: Pid)
    requires p in head
    ensures Ahead(head + tail, p) == Ahead(head, p)
  {
    assert (head + tail)[0] == head[0];
    if head[0] != p {
      assert (head + tail)[1..] == head[1..] + tail;
      AheadAppend(head[1..], tail, p);
    }
  }

  // Moving another process to the tail brings p forward if that process was ahead
  lemma {:induction false} AheadRemove(head: seq<Pid>, c: Pid, p: Pid)
    requires Distinct(head) && p in head && c in head && c != p
    ensures p in Remove(head, c)
    ensures Ahead(Remove(head, c), p) == Ahead(head, p) - (if Ahead(head, c) < Ahead(head, p) then 1 else 0)
  {
    assert head == [head[0]] + head[1..];
    if head[0] != c && head[0] != p {
      AheadRemove(head[1..], c, p);
      var r := Remove(head[1..], c);
      assert ([head[0]] + r)[1..] == r;
    } else if head[0] == p {
      var r := Remove(head[1..], c);
      assert ([head[0]] + r)[0] == p;
    }
  }

  lemma {:induction false} FirstRunnableAhead(procs: map<Pid, Proc>, head: seq<Pid>, p: Pid)
    requires p in head && IsRunnable(procs, p)
    ensures var n := FirstRunnable(procs, head);
            && n.Some? && n.value in head && Ahead(head, n.value) <= Ahead(head, p)
            && (n.value != p ==> Ahead(head, n.value) < Ahead(head, p))
  {
    if head[0] != p && !IsRunnable(procs, head[0]) {
      FirstRunnableAhead(procs, head[1..], p);
    }
  }

  // schedule() either runs p or uses up one of its turns
  lemma ScheduleTurn(s: State, p: Pid)
    requires Core(s) && Listed(s) && p in s.head && IsRunnable(s.procs, p) && s.current != Some(p)
    ensures Schedule(s).current == Some(p) ||
            (p in Schedule(s).head && IsRunnable(Schedule(s).procs, p) && Turns(Schedule(s), p) + 1 <= Turns(s, p))
  {
    YieldedCore(s);
    var y := Yielded(s);
    if s.current.Some? {
      var c := s.current.value;
      AheadRemove(s.head, c, p);
      AheadAppend(Remove(s.head, c), [c], p);
    }
    FirstRunnableAhead(y.procs, y.head, p);
  }

  // A receiving process leaves the list and the other runnable processes alone
  lemma ReceiveLeaves(s: State, c: Pid, from: Peer, p: Pid)
    requires Inv(s) && s.current == Some(c) && p != c && IsRunnable(s.procs, p)
    ensures var t := Receive(s, c, from).after;
            t.current == s.current && t.head == s.head && IsRunnable(t.procs, p)
  {
  }

  lemma ContinuedLeaves(s: State, c: Pid, p: Pid)
    requires Inv(s) && s.current == Some(c) && p != c && IsRunnable(s.procs, p)
    ensures var t := Continued(s, c).after;
            t.current == s.current && t.head == s.head && IsRunnable(t.procs, p)
  {
    ReceiveLeaves(s, c, All, p);
    ReceiveLeaves(s, c, s.procs[c].wait, p);
  }

  lemma CodeLeaves(s: State, a: Action, p: Pid)
    requires Inv(s) && Enabled(s, a) && IsRunnable(s.procs, p)
    ensures var t := Code(s, a).after;
            t.current == s.current && IsRunnable(t.procs, p) && t.head == s.head + (if a.Fork? then [a.child] else [])
  {
    assert s.current != Some(p);
    assert s.head + [] == s.head;
    match a
    case Recv(from, m) =>
      CallerOnly(s, Buffered(s, s.current.value, m), s.current.value);
      ReceiveLeaves(Buffered(s, s.current.value, m), s.current.value, from, p);
    case Continue => ContinuedLeaves(s, s.current.value, p);
    case _ =>
  }

  // Between two calls of schedule() nothing moves ahead of p
  lemma CodeTurns(s: State, a: Action, p: Pid)
    requires Inv(s) && Enabled(s, a) && p in s.head && IsRunnable(s.procs, p)
    ensures var t := Code(s, a).after;
            t.current == s.current && p in t.head && IsRunnable(t.procs, p) && Turns(t, p) == Turns(s, p)
  {
    CodeLeaves(s, a, p);
    var more := if a.Fork? then [a.child] else [];
    AheadAppend(s.head, more, p);
    if s.current.Some? {
      AheadAppend(s.head, more, s.current.value);
    }
  }

  // A step either runs p or keeps it runnable; a call of schedule() uses up one of its turns
  lemma StepTurns(s: State, a: Action, p: Pid)
    requires Inv(s) && Enabled(s, a) && p in s.head && IsRunnable(s.procs, p)
    ensures Inv(Step(s, a))
    ensures var t := Step(s, a);
            Turns(s, p) >= 1 &&
            (t.current == Some(p) ||
             (p in t.head && IsRunnable(t.procs, p)
              && Turns(t, p) + (if Code(s, a).Yield? then 1 else 0) <= Turns(s, p)))
  {
    CodeOk(s, a);
    CodeTurns(s, a, p);
    StepInv(s, a);
    assert s.current != Some(p);
    if Code(s, a).Yield? {
      ScheduleTurn(Code(s, a).after, p);
    }
  }

  // A run starts with its first step
  lemma RunUnfold(s: State, a: Action, rest: seq<Action>)
    requires Inv(s) && Enabled(s, a) && Inv(Step(s, a)) && ValidRun(Step(s, a), rest)
    ensures ValidRun(s, [a] + rest) && Run(s, [a] + rest) == Run(Step(s, a), rest)
    ensures Calls(s, [a] + rest) == (if Code(s, a).Yield? then 1 else 0) + Calls(Step(s, a), rest)
  {
    assert ([a] + rest)[1..] == rest;
  }

  lemma {:induction false} RunsWithinTurns(s: State, acts: seq<Action>, p: Pid) returns (i: nat)
    requires Inv(s) && ValidRun(s, acts) && p in s.head && IsRunnable(s.procs, p)
    requires Calls(s, acts) >= Turns(s, p)
    ensures i <= |acts| && ValidRun(s, acts[..i]) && Run(s, acts[..i]).current == Some(p)
    ensures Calls(s, acts[..i]) <= Turns(s, p)
    decreases |acts|
  {
    assert Turns(s, p) >= 1;
    var a := acts[0];
    StepTurns(s, a, p);
    var t := Step(s, a);
    var j := 0;
    if t.current != Some(p) {
      j := RunsWithinTurns(t, acts[1..], p);
    }
    i := j + 1;
    assert acts[..i] == [a] + acts[1..][..j];
    RunUnfold(s, a, acts[1..][..j]);
  }

  // A runnable process with k entries ahead of it runs within k + 1 calls of schedule()
  lemma BoundedWaiting(s: State, acts: seq<Action>, p: Pid)
    requires Inv(s) && ValidRun(s, acts) && p in s.head && IsRunnable(s.procs, p)
    requires Calls(s, acts) >= Ahead(s.head, p) + 1
    ensures exists i: nat :: i <= |acts| && ValidRun(s, acts[..i]) && Run(s, acts[..i]).current == Some(p)
                          && Calls(s, acts[..i]) <= Ahead(s.head, p) + 1
  {
    var i := RunsWithinTurns(s, acts, p);
  }
}
