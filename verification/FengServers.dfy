/**
 The servers of the system: clients ask the VFS; the VFS asks the file system, the keyboard and the
 screen; the file system asks the disk. From boot, whatever the processes do within their roles,
 there is no deadlock. The one assumption about the hardware is exact: a disk interrupt that the
 disk server finds latched when it listens makes it answer itself, for ever.
 */
module FengServers {
  import opened LinkedLists
  import opened Kernel
  import opened KernelInv
  import opened KernelRuns
  import opened Topology
  import opened Progress

  const IPC_VFS: Pid := 2
  const IPC_DISK: Pid := 3
  const IPC_KB: Pid := 4
  const IPC_VIDEO: Pid := 5
  const IPC_EXT2: Pid := 7

  function Feng(): Topo {
    Topo(
      map[IPC_VFS := 1, IPC_KB := 2, IPC_VIDEO := 2, IPC_EXT2 := 2, IPC_DISK := 3],
      map[IPC_VFS := All, IPC_KB := All, IPC_VIDEO := On(IPC_VFS), IPC_EXT2 := On(IPC_VFS), IPC_DISK := All],
      {IPC_KB},
      3)
  }

  // Right after proc_init every process runs its own start-up code
  function FengBoot(pids: seq<Pid>): Sys {
    Sys(Boot(pids), map p | p in pids :: Own)
  }

  predicate HasServers(pids: seq<Pid>) {
    IPC_VFS in pids && IPC_DISK in pids && IPC_KB in pids && IPC_VIDEO in pids && IPC_EXT2 in pids
  }

  lemma FengBootInv(pids: seq<Pid>)
    requires Distinct(pids) && HasServers(pids)
    ensures SysInv(Feng(), FengBoot(pids))
  {
    BootInv(pids);
    assert Wellformed(Feng());
    forall p | p in FengBoot(pids).s.procs ensures Fits(Feng(), FengBoot(pids), p) {
    }
  }

  ghost predicate FengRun(pids: seq<Pid>, acts: seq<Action>)
    requires Distinct(pids) && HasServers(pids)
  {
    FengBootInv(pids);
    ValidSysRun(Feng(), FengBoot(pids), acts)
  }

  // The state a run from boot reaches
  ghost function FengState(pids: seq<Pid>, acts: seq<Action>): Sys
    requires Distinct(pids) && HasServers(pids) && FengRun(pids, acts)
  {
    FengBootInv(pids);
    SysRun(Feng(), FengBoot(pids), acts)
  }

  // From boot, no run leads to processes that wait for each other in a circle
  lemma FengNoDeadlock(pids: seq<Pid>, acts: seq<Action>, path: seq<Pid>)
    requires Distinct(pids) && HasServers(pids) && FengRun(pids, acts)
    requires |path| >= 2 && WaitPath(FengState(pids, acts).s, path)
    ensures path[0] != path[|path| - 1]
  {
    FengBootInv(pids);
    NoDeadlock(Feng(), FengBoot(pids), acts, path);
  }

  // From boot, the processes that an outstanding request waits for end in one that can run, or in a
  // driver that waits for its device
  lemma FengProgress(pids: seq<Pid>, acts: seq<Action>, p: Pid)
    requires Distinct(pids) && HasServers(pids) && FengRun(pids, acts)
    requires Outstanding(FengState(pids, acts), p)
    ensures exists path: seq<Pid> :: LeadsToMove(FengState(pids, acts), p, path)
  {
    FengBootInv(pids);
    RequestsProgress(Feng(), FengBoot(pids), acts, p);
  }

  // ----- stray disk interrupts -----

  // A server that listens to everybody finds its own pid as the sender exactly when the message is an interrupt
  lemma AnswersItselfIffInterrupt(s: State, d: Pid)
    requires Inv(s) && s.current == Some(d) && s.procs[d].buf.src == d
    requires Receive(s, d, All).Stay?
    ensures Receive(s, d, All).after.procs[d].buf.src == d <==> s.procs[d].hasIntr
  {
    if !s.procs[d].hasIntr {
      var src := s.procs[d].queue[0];
      assert src in s.procs[d].queue;
      assert SendingTo(s, src, d) && WaitsRightly(s, src);
    }
  }

  // ... and then its answer blocks it on itself
  lemma StrayInterruptDeadlocks(s: State, d: Pid, m: Message, reply: Message)
    requires Inv(s) && s.current == Some(d) && InUser(s) && s.procs[d].hasIntr
    ensures var s1 := Step(s, Recv(All, m));
            && Inv(s1) && Enabled(s1, Send(s1.procs[d].buf.src, reply))
            && WaitsFor(Step(s1, Send(s1.procs[d].buf.src, reply)), d, d)
  {
    StrayInterruptReturns(s, d, m);
    SelfSendBlocks(Step(s, Recv(All, m)), d, reply);
  }

  // The interrupt is received at once, as a message from the server itself
  lemma StrayInterruptReturns(s: State, d: Pid, m: Message)
    requires Inv(s) && s.current == Some(d) && InUser(s) && s.procs[d].hasIntr
    ensures var s1 := Step(s, Recv(All, m)); Inv(s1) && s1.current == Some(d) && InUser(s1) && s1.procs[d].buf.src == d
  {
    StepInv(s, Recv(All, m));
  }

  lemma SelfSendBlocks(s: State, d: Pid, reply: Message)
    requires Inv(s) && s.current == Some(d) && InUser(s)
    ensures Enabled(s, Send(d, reply)) && WaitsFor(Step(s, Send(d, reply)), d, d)
  {
    var e := Enqueued(s, d, d, Stamped(reply, d), false);
    ScheduleQuiet(e);
    assert SameUpToCpu(e.procs[d], Schedule(e).procs[d]);
  }

  // A process blocked on itself stays so in every continuation
  lemma SelfSendIsForever(s: State, a: Action, d: Pid)
    requires Inv(s) && Enabled(s, a) && SendingTo(s, d, d)
    ensures SendingTo(Step(s, a), d, d)
  {
    CodeLeavesSender(s, a, d);
    var t := Code(s, a).after;
    ScheduleQuiet(t);
    assert SameUpToCpu(t.procs[d], Schedule(t).procs[d]);
  }

  lemma CodeLeavesSender(s: State, a: Action, d: Pid)
    requires Inv(s) && Enabled(s, a) && SendingTo(s, d, d)
    ensures SendingTo(Code(s, a).after, d, d)
  {
    assert s.current != Some(d);
    match a
    case Recv(from, m) =>
      CallerOnly(s, Buffered(s, s.current.value, m), s.current.value);
      ReceiveLeavesSender(Buffered(s, s.current.value, m), s.current.value, from, d);
    case Continue => ContinueLeavesSender(s, s.current.value, d);
    case _ =>
  }

  lemma ReceiveLeavesSender(s: State, p: Pid, from: Peer, d: Pid)
    requires Inv(s) && s.current == Some(p) && SendingTo(s, d, d) && p != d
    ensures SendingTo(Receive(s, p, from).after, d, d)
  {
    if s.procs[p].queue != [] {
      assert s.procs[p].queue[0] in s.procs[p].queue;
    }
  }

  lemma ContinueLeavesSender(s: State, p: Pid, d: Pid)
    requires Inv(s) && s.current == Some(p) && SendingTo(s, d, d) && p != d
    ensures SendingTo(Continued(s, p).after, d, d)
  {
    assert WaitsRightly(s, p);
    ReceiveLeavesSender(s, p, All, d);
    ReceiveLeavesSender(s, p, s.procs[p].wait, d);
  }

  lemma {:induction false} StrayInterruptIsFatal(s: State, acts: seq<Action>, d: Pid)
    requires Inv(s) && ValidRun(s, acts) && SendingTo(s, d, d)
    ensures SendingTo(Run(s, acts), d, d)
    decreases |acts|
  {
    if acts != [] {
      StepInv(s, acts[0]);
      SelfSendIsForever(s, acts[0], d);
      StrayInterruptIsFatal(Step(s, acts[0]), acts[1..], d);
    }
  }
}
