/**
 Consequences of the layered discipline: no deadlock, and the processes that an outstanding request
 waits for end in one that can move.
 */
module Progress {
  import opened Kernel
  import opened Topology
  import opened TopologyInv

  // ----- runs -----

  ghost predicate ValidSysRun(t: Topo, y: Sys, acts: seq<Action>)
    requires SysInv(t, y)
    decreases |acts|
  {
    acts == [] ||
    (Enabled(y.s, acts[0]) && Allowed(t, y, acts[0]) &&
     (SysStepInv(t, y, acts[0]); ValidSysRun(t, SysStep(t, y, acts[0]), acts[1..])))
  }

  ghost function SysRun(t: Topo, y: Sys, acts: seq<Action>): Sys
    requires SysInv(t, y) && ValidSysRun(t, y, acts)
    decreases |acts|
  {
    if acts == [] then y else
    SysStepInv(t, y, acts[0]);
    SysRun(t, SysStep(t, y, acts[0]), acts[1..])
  }

  lemma {:induction false} SysRunInv(t: Topo, y: Sys, acts: seq<Action>)
    requires SysInv(t, y) && ValidSysRun(t, y, acts)
    ensures SysInv(t, SysRun(t, y, acts))
    decreases |acts|
  {
    if acts != [] {
      SysStepInv(t, y, acts[0]);
      SysRunInv(t, SysStep(t, y, acts[0]), acts[1..]);
    }
  }

  // ----- the waits-for graph -----

  // p cannot go on before q does something
  predicate WaitsFor(s: State, p: Pid, q: Pid) {
    SendingTo(s, p, q) || (p in s.procs && s.procs[p].state == Receiving && s.procs[p].wait == On(q))
  }

  predicate HasWait(s: State, p: Pid) {
    p in s.procs && (s.procs[p].state == Sending || (s.procs[p].state == Receiving && s.procs[p].wait.On?))
  }

  // Grows along every edge of the waits-for graph
  function Height(t: Topo, y: Sys, p: Pid): int {
    if !HasWait(y.s, p) || p !in y.role then 2 * t.top + 3
    else match y.role[p]
      case Idle => t.top - Rank(t, p)
      case Replying(_) => 2 * t.top + 2
      case _ => t.top + 1 + Rank(t, p)
  }

  lemma EdgeClimbs(t: Topo, y: Sys, p: Pid, q: Pid)
    requires SysInv(t, y) && WaitsFor(y.s, p, q)
    ensures q in y.s.procs && Height(t, y, p) < Height(t, y, q)
  {
    assert Fits(t, y, p) && WaitsRightly(y.s, p);
    if y.role[p].Replying? {
      AnswerWaitsForNobody(t, y, p, q);
    } else if y.role[p].Idle? {
      NobodyWaitsUpForIdle(t, y, p, q);
    } else {
      AskedIsNotIdle(t, y, p, q);
    }
    assert q in y.s.procs;
    assert Fits(t, y, q);
  }

  // The process an answer is being sent to is about to take it
  lemma AnswerWaitsForNobody(t: Topo, y: Sys, p: Pid, q: Pid)
    requires SysInv(t, y) && WaitsFor(y.s, p, q) && y.role[p].Replying?
    ensures q in y.s.procs && !HasWait(y.s, q)
  {
    assert Fits(t, y, p) && WaitsRightly(y.s, p);
    assert y.s.procs[p].state == Sending && Asking(y.s, q, p);
    assert WaitsRightly(y.s, q);
  }

  lemma NobodyWaitsUpForIdle(t: Topo, y: Sys, p: Pid, q: Pid)
    requires SysInv(t, y) && WaitsFor(y.s, p, q) && y.role[p].Idle?
    ensures q in y.s.procs && Rank(t, q) < Rank(t, p) && Rank(t, p) <= t.top
  {
    assert Fits(t, y, p) && WaitsRightly(y.s, p);
  }

  // The process a request goes to, or an answer is awaited from, is not listening
  lemma AskedIsNotIdle(t: Topo, y: Sys, p: Pid, q: Pid)
    requires SysInv(t, y) && WaitsFor(y.s, p, q) && Active(y, p)
    ensures q in y.s.procs && Rank(t, p) < Rank(t, q) <= t.top
    ensures y.role[q].Idle? ==> !HasWait(y.s, q) && y.s.procs[q].state != Receiving
  {
    assert Fits(t, y, p) && WaitsRightly(y.s, p);
    assert Fits(t, y, q) && WaitsRightly(y.s, q);
    if SendingTo(y.s, p, q) {
      assert p in y.s.procs[q].queue;
    }
  }

  // Every process of the path waits for the next one
  predicate WaitPath(s: State, path: seq<Pid>) {
    |path| < 2 || (WaitsFor(s, path[0], path[1]) && WaitPath(s, path[1..]))
  }

  lemma {:induction false} PathClimbs(t: Topo, y: Sys, path: seq<Pid>)
    requires SysInv(t, y) && |path| >= 2 && WaitPath(y.s, path)
    ensures Height(t, y, path[0]) < Height(t, y, path[|path| - 1])
    decreases |path|
  {
    EdgeClimbs(t, y, path[0], path[1]);
    if |path| > 2 {
      PathClimbs(t, y, path[1..]);
    }
  }

  // No deadlock: in every reachable state the waits-for graph has no cycle
  lemma NoDeadlock(t: Topo, y: Sys, acts: seq<Action>, path: seq<Pid>)
    requires SysInv(t, y) && ValidSysRun(t, y, acts) && |path| >= 2
    requires WaitPath(SysRun(t, y, acts).s, path)
    ensures path[0] != path[|path| - 1]
  {
    SysRunInv(t, y, acts);
    PathClimbs(t, SysRun(t, y, acts), path);
  }

  // ----- progress -----

  // p has sent a request and has not got the answer
  predicate Outstanding(y: Sys, p: Pid) {
    && p in y.s.procs
    && var resume := y.s.procs[p].resume;
       resume == AfterSend(true) || (Active(y, p) && resume.InRecv? && resume.from.On?)
  }

  // r can run, or is a driver that waits for its device
  predicate CanMove(y: Sys, r: Pid) {
    && r in y.s.procs
    && var pr := y.s.procs[r];
       pr.state in {Runnable, Running} || (pr.state == Receiving && pr.wait == Intr)
  }

  // The waits from p lead to a process that can move
  predicate LeadsToMove(y: Sys, p: Pid, path: seq<Pid>) {
    path != [] && path[0] == p && WaitPath(y.s, path) && CanMove(y, path[|path| - 1])
  }

  lemma {:induction false} FollowWaits(t: Topo, y: Sys, p: Pid) returns (path: seq<Pid>)
    requires SysInv(t, y) && p in y.s.procs && y.s.procs[p].state != Stopped
    requires !(y.s.procs[p].state == Receiving && y.s.procs[p].wait == All)
    requires y.role[p].Idle? ==> !HasWait(y.s, p)
    ensures LeadsToMove(y, p, path)
    decreases 2 * t.top + 3 - Height(t, y, p)
  {
    assert Fits(t, y, p) && WaitsRightly(y.s, p);
    if CanMove(y, p) {
      path := [p];
    } else {
      var q := y.s.procs[p].wait.pid;
      assert WaitsFor(y.s, p, q);
      EdgeClimbs(t, y, p, q);
      if y.role[p].Replying? {
        AnswerWaitsForNobody(t, y, p, q);
        AnswerRuns(t, y, p, q);
        path := [p, q];
      } else {
        AskedIsNotIdle(t, y, p, q);
        AskedCanFollow(t, y, p, q);
        var rest := FollowWaits(t, y, q);
        path := [p] + rest;
        assert path[1..] == rest;
      }
    }
  }

  lemma AnswerRuns(t: Topo, y: Sys, p: Pid, q: Pid)
    requires SysInv(t, y) && WaitsFor(y.s, p, q) && y.role[p].Replying?
    ensures CanMove(y, q)
  {
    assert Fits(t, y, p) && WaitsRightly(y.s, p);
    assert Asking(y.s, q, p) && WaitsRightly(y.s, q);
  }

  lemma AskedCanFollow(t: Topo, y: Sys, p: Pid, q: Pid)
    requires SysInv(t, y) && WaitsFor(y.s, p, q) && Active(y, p)
    ensures q in y.s.procs && y.s.procs[q].state != Stopped
    ensures !(y.s.procs[q].state == Receiving && y.s.procs[q].wait == All)
  {
    assert Fits(t, y, p) && WaitsRightly(y.s, p);
    assert Fits(t, y, q) && WaitsRightly(y.s, q);
    AskedIsNotIdle(t, y, p, q);
  }

  // While a request is outstanding, the chain of processes it waits for ends in one that can run, or
  // in a driver that waits for its device
  lemma RequestsProgress(t: Topo, y: Sys, acts: seq<Action>, p: Pid)
    requires SysInv(t, y) && ValidSysRun(t, y, acts) && Outstanding(SysRun(t, y, acts), p)
    ensures exists path: seq<Pid> :: LeadsToMove(SysRun(t, y, acts), p, path)
  {
    SysRunInv(t, y, acts);
    var z := SysRun(t, y, acts);
    assert Fits(t, z, p) && WaitsRightly(z.s, p);
    var path := FollowWaits(t, z, p);
  }
}
