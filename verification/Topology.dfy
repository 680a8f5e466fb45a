/**
 The layered servers on top of message passing: a process asks only servers of higher rank, and a
 server answers the process it serves. Under this discipline the waits-for graph is acyclic in
 every reachable state and a request never waits for a system in which nothing can happen.
 */
module Topology {
  import opened Kernel

  // rank and listen are defined on the servers. A tolerant server ignores interrupts that arrive
  // while it listens (the keyboard driver does); the others must not get any (the disk driver).
  datatype Topo = Topo(rank: map<Pid, nat>, listen: map<Pid, Peer>, tolerant: set<Pid>, top: nat)

  function Rank(t: Topo, p: Pid): nat {
    if p in t.rank then t.rank[p] else 0
  }

  predicate Wellformed(t: Topo) {
    && t.rank.Keys == t.listen.Keys
    && (forall q :: q in t.rank ==> 1 <= t.rank[q] <= t.top)
    && (forall q :: q in t.listen ==> t.listen[q] == All || (t.listen[q].On? && Rank(t, t.listen[q].pid) < Rank(t, q)))
  }

  // p may send requests to q
  predicate MayAsk(t: Topo, p: Pid, q: Pid) {
    q in t.rank && q in t.listen && Rank(t, p) < Rank(t, q) && (t.listen[q] == All || t.listen[q] == On(p))
  }

  // What a user program is doing: work of its own, listening for a request, serving a client, or
  // sending the answer
  datatype Role = Own | Idle | Serving(client: Pid) | Replying(client: Pid)

  datatype Sys = Sys(s: State, role: map<Pid, Role>)

  // ----- the discipline -----

  // No interrupt is latched, or it would do no harm in recv(ALL)
  predicate Calm(t: Topo, y: Sys, p: Pid) {
    p in t.tolerant || (p in y.s.procs && !y.s.procs[p].hasIntr)
  }

  ghost predicate Allowed(t: Topo, y: Sys, a: Action)
    requires Inv(y.s) && Enabled(y.s, a) && y.role.Keys == y.s.procs.Keys
  {
    match a
    case Timer => true
    case Continue => true
    case Interrupt(d) => d in t.rank && (d in t.tolerant || y.role[d].Own? || y.role[d].Serving?)
    case Fork(child) => y.s.current.value !in t.rank && child !in t.rank
    case Exit => y.s.current.value !in t.rank
    case SendRecv(q, _) =>
      var p := y.s.current.value;
      (y.role[p].Own? || y.role[p].Serving?) && MayAsk(t, p, q)
    case Send(q, _) =>
      var p := y.s.current.value;
      y.role[p] == Serving(q) && Calm(t, y, p)
    case Recv(from, _) =>
      var p := y.s.current.value;
      p in t.listen &&
      ((from == Intr && (y.role[p].Own? || y.role[p].Serving?)) ||
       (y.role[p].Own? && from == t.listen[p] && Calm(t, y, p)))
  }

  // The role of a process once its call has completed
  function RoleAfter(r: Role, log: seq<Event>): Role {
    match r
    case Replying(_) => Own
    case Idle => if log != [] && log[|log| - 1].Delivered? then Serving(log[|log| - 1].src) else Own
    case _ => r
  }

  // The role of p after a segment in which it started or continued a call
  function RoleIn(g: Segment, p: Pid, r: Role): Role {
    if g.Stay? && p in g.after.procs && g.after.procs[p].resume == User then RoleAfter(r, g.after.log) else r
  }

  ghost function SysStep(t: Topo, y: Sys, a: Action): Sys
    requires Inv(y.s) && Enabled(y.s, a) && y.role.Keys == y.s.procs.Keys
  {
    var g := Code(y.s, a);
    var role := match a
      case Send(q, _) => y.role[y.s.current.value := Replying(q)]
      case Fork(child) => y.role[child := Own]
      case Recv(from, _) =>
        var p := y.s.current.value;
        y.role[p := RoleIn(g, p, if from == Intr then y.role[p] else Idle)]
      case Continue => y.role[y.s.current.value := RoleIn(g, y.s.current.value, y.role[y.s.current.value])]
      case _ => y.role;
    Sys(Step(y.s, a), role)
  }

  // ----- the invariant -----

  // c has a request with q: taken by q, answer not yet received
  predicate Asking(s: State, c: Pid, q: Pid) {
    && c in s.procs
    && ((s.procs[c].resume == AfterSend(true) && s.procs[c].wait == On(q) && s.procs[c].state != Sending)
        || s.procs[c].resume == InRecv(On(q)))
  }

  predicate Owes(y: Sys, q: Pid, c: Pid) {
    q in y.role && (y.role[q] == Serving(c) || (y.role[q] == Replying(c) && SendingTo(y.s, q, c)))
  }

  predicate Active(y: Sys, p: Pid) {
    p in y.role && (y.role[p].Own? || y.role[p].Serving?)
  }

  ghost predicate Fits(t: Topo, y: Sys, p: Pid)
    requires p in y.s.procs && p in y.role
  {
    var pr := y.s.procs[p];
    var r := y.role[p];
    && (p !in t.rank ==> r.Own?)
    && (p in t.rank ==> pr.state != Stopped)
    && (p in t.rank && p !in t.tolerant && pr.hasIntr ==> Active(y, p))
    && (r.Idle? ==> p in t.listen && pr.resume == InRecv(t.listen[p]))
    && (r.Replying? ==> pr.resume == AfterSend(false) && (pr.state == Sending ==> pr.wait == On(r.client)))
    && (Active(y, p) ==> ActiveFits(t, y, p))
    && ((r.Serving? || (r.Replying? && pr.state == Sending)) ==> Active(y, r.client) && Asking(y.s, r.client, p))
  }

  ghost predicate ActiveFits(t: Topo, y: Sys, p: Pid)
    requires p in y.s.procs
  {
    var pr := y.s.procs[p];
    match pr.resume
    case User => true
    case AfterSend(andRecv) =>
      andRecv && pr.wait.On? && MayAsk(t, p, pr.wait.pid) && (pr.state != Sending ==> Owes(y, pr.wait.pid, p))
    case InRecv(from) =>
      (from == Intr && p in t.rank) || (from.On? && MayAsk(t, p, from.pid) && Owes(y, from.pid, p))
  }

  ghost predicate SysInv(t: Topo, y: Sys) {
    && Wellformed(t)
    && Inv(y.s)
    && y.role.Keys == y.s.procs.Keys
    && (forall q :: q in t.rank ==> q in y.s.procs)
    && (forall p {:trigger Fits(t, y, p)} :: p in y.s.procs ==> Fits(t, y, p))
  }
}
