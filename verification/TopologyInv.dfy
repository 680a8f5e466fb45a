/**
 Every allowed step keeps the invariant of module Topology.
 */
module TopologyInv {
  import opened LinkedLists
  import opened Kernel
  import opened KernelInv
  import opened KernelRuns
  import opened Topology

  ghost predicate AllFit(t: Topo, y: Sys) {
    && y.role.Keys == y.s.procs.Keys
    && (forall q :: q in t.rank ==> q in y.s.procs)
    && (forall p {:trigger Fits(t, y, p)} :: p in y.s.procs ==> Fits(t, y, p))
  }

  // The fields the discipline reads are the same
  predicate Like(a: Proc, b: Proc) {
    && a.resume == b.resume && a.wait == b.wait && a.hasIntr == b.hasIntr
    && (a.state == Sending <==> b.state == Sending) && (b.state == Stopped ==> a.state == Stopped)
  }

  // What holds of x still holds if x is unchanged and x's partners still play their part
  lemma FitsFrame(t: Topo, y: Sys, y': Sys, x: Pid)
    requires x in y.s.procs && x in y'.s.procs && x in y.role && x in y'.role && Fits(t, y, x)
    requires Like(y.s.procs[x], y'.s.procs[x]) && y'.role[x] == y.role[x]
    requires var r := y.role[x];
             (r.Serving? || r.Replying?) && Active(y, r.client) && Asking(y.s, r.client, x) ==>
               Active(y', r.client) && Asking(y'.s, r.client, x)
    requires var pr := y.s.procs[x]; pr.wait.On? && Owes(y, pr.wait.pid, x) ==> Owes(y', pr.wait.pid, x)
    requires var pr := y.s.procs[x];
             pr.resume.InRecv? && pr.resume.from.On? && Owes(y, pr.resume.from.pid, x) ==>
               Owes(y', pr.resume.from.pid, x)
    ensures Fits(t, y', x)
  {
  }

  // Handing over the CPU does not matter to the discipline
  lemma CpuFits(t: Topo, y: Sys, s': State)
    requires AllFit(t, y) && s'.procs.Keys == y.s.procs.Keys
    requires forall p :: p in y.s.procs ==> SameUpToCpu(y.s.procs[p], s'.procs[p])
    ensures AllFit(t, Sys(s', y.role))
  {
    forall p | p in s'.procs ensures Fits(t, Sys(s', y.role), p) {
      FitsFrame(t, y, Sys(s', y.role), p);
    }
  }

  // A request leaves p
  lemma AskFits(t: Topo, y: Sys, p: Pid, q: Pid, m: Message)
    requires AllFit(t, y) && p in y.s.procs && y.s.procs[p].state == Running && y.s.procs[p].resume == User
    requires Active(y, p) && MayAsk(t, p, q)
    ensures AllFit(t, Sys(Enqueued(y.s, p, q, m, true), y.role))
  {
    var y' := Sys(Enqueued(y.s, p, q, m, true), y.role);
    forall x | x in y'.s.procs ensures Fits(t, y', x) {
      assert Fits(t, y, x);
      if x != p {
        FitsFrame(t, y, y', x);
      }
    }
  }

  // The answer leaves p for the process it serves
  lemma AnswerFits(t: Topo, y: Sys, p: Pid, c: Pid, m: Message)
    requires AllFit(t, y) && p in y.s.procs && y.s.procs[p].state == Running && y.s.procs[p].resume == User
    requires y.role[p] == Serving(c) && Calm(t, y, p) && c in y.s.procs
    ensures AllFit(t, Sys(Enqueued(y.s, p, c, m, false), y.role[p := Replying(c)]))
  {
    var y' := Sys(Enqueued(y.s, p, c, m, false), y.role[p := Replying(c)]);
    forall x | x in y'.s.procs ensures Fits(t, y', x) {
      assert Fits(t, y, x);
      if x != p {
        FitsFrame(t, y, y', x);
      } else {
        assert Fits(t, y, c);
      }
    }
  }

  // p, which listens, takes a message: it can only be a request
  lemma RequestFits(t: Topo, y: Sys, p: Pid, src: Pid)
    requires AllFit(t, y) && p in y.s.procs && y.s.procs[p].state == Running && src != p
    requires SendingTo(y.s, src, p) && y.s.procs[src].resume.AfterSend?
    requires p in t.rank && (y.role[p].Idle? || (y.role[p].Own? && y.s.procs[p].resume == User))
    ensures AllFit(t, Sys(Received(y.s, p, src), y.role[p := Serving(src)]))
  {
    var y' := Sys(Received(y.s, p, src), y.role[p := Serving(src)]);
    assert Fits(t, y, src) && Fits(t, y, p);
    forall x | x in y'.s.procs ensures Fits(t, y', x) {
      assert Fits(t, y, x);
      if x != p && x != src {
        FitsFrame(t, y, y', x);
      }
    }
  }

  // p takes the answer it waits for
  lemma AnsweredFits(t: Topo, y: Sys, p: Pid, q: Pid)
    requires AllFit(t, y) && p in y.s.procs && y.s.procs[p].state == Running && q != p
    requires SendingTo(y.s, q, p) && y.s.procs[q].resume.AfterSend?
    requires Active(y, p) && MayAsk(t, p, q) && Asking(y.s, p, q) && Owes(y, q, p)
    ensures AllFit(t, Sys(Received(y.s, p, q), y.role))
  {
    var y' := Sys(Received(y.s, p, q), y.role);
    assert Fits(t, y, q) && Fits(t, y, p) && y.role[q] == Replying(p);
    assert Fits(t, y', p) && Fits(t, y', q);
    forall x | x in y'.s.procs ensures Fits(t, y', x) {
      if x != p && x != q {
        FitsFrame(t, y, y', x);
      }
    }
  }

  // A change of p alone that keeps p's promises
  lemma LocalFits(t: Topo, y: Sys, y': Sys, p: Pid)
    requires AllFit(t, y) && p in y.s.procs && p in y'.s.procs && p in y'.role
    requires y'.s.procs == y.s.procs[p := y'.s.procs[p]] && y'.role == y.role[p := y'.role[p]]
    requires y.s.procs[p].state != Sending
    requires forall q: Pid :: Active(y, p) && Asking(y.s, p, q) ==> Active(y', p) && Asking(y'.s, p, q)
    requires forall c: Pid :: y.role[p] == Serving(c) ==> y'.role[p] == Serving(c)
    requires Fits(t, y', p)
    ensures AllFit(t, y')
  {
    forall x | x in y'.s.procs ensures Fits(t, y', x) {
      if x != p {
        FitsFrame(t, y, y', x);
      }
    }
  }

  lemma ForkFits(t: Topo, y: Sys, child: Pid)
    requires AllFit(t, y) && child !in y.s.procs && child !in t.rank
    ensures AllFit(t, Sys(Forked(y.s, child), y.role[child := Own]))
  {
    var y' := Sys(Forked(y.s, child), y.role[child := Own]);
    forall x | x in y'.s.procs ensures Fits(t, y', x) {
      if x != child {
        FitsFrame(t, y, y', x);
      }
    }
  }

  lemma InterruptFits(t: Topo, y: Sys, d: Pid)
    requires AllFit(t, y) && d in y.s.procs && d in t.rank && (d in t.tolerant || Active(y, d))
    ensures AllFit(t, Sys(Interrupted(y.s, d), y.role))
  {
    var y' := Sys(Interrupted(y.s, d), y.role);
    forall x | x in y'.s.procs ensures Fits(t, y', x) {
      assert Fits(t, y, x);
      if x != d {
        FitsFrame(t, y, y', x);
      }
    }
  }

  // A call of recv that takes a latched interrupt
  lemma TookIntrFits(t: Topo, y: Sys, p: Pid)
    requires AllFit(t, y) && p in y.s.procs && y.s.procs[p].state == Running
    requires y.s.procs[p].resume in {User, InRecv(Intr), InRecv(All)}
    requires Active(y, p) || (y.role[p].Idle? && p in t.rank)
    ensures AllFit(t, Sys(TookIntr(y.s, p), if y.role[p].Idle? then y.role[p := Own] else y.role))
  {
    var y' := Sys(TookIntr(y.s, p), if y.role[p].Idle? then y.role[p := Own] else y.role);
    assert Fits(t, y, p);
    if Active(y, p) && y.role[p].Serving? {
      assert Asking(y'.s, y.role[p].client, p) by { assert Fits(t, y, y.role[p].client); }
    }
    LocalFits(t, y, y', p);
  }

  // p blocks: for an interrupt, for a request, or for the answer it is owed
  lemma BlockedFits(t: Topo, y: Sys, p: Pid, from: Peer)
    requires AllFit(t, y) && p in y.s.procs && y.s.procs[p].state == Running
    requires Active(y, p) || y.role[p].Idle?
    requires from == Intr ==> p in t.rank && y.s.procs[p].resume == User && Active(y, p)
    requires from.On? ==> Active(y, p) && MayAsk(t, p, from.pid) && Owes(y, from.pid, p) && Asking(y.s, p, from.pid)
    requires from.On? || from == Intr
    ensures AllFit(t, Sys(Blocked(y.s, p, from), y.role))
  {
    var y' := Sys(Blocked(y.s, p, from), y.role);
    assert Fits(t, y, p);
    LocalFits(t, y, y', p);
  }

  lemma ListensFits(t: Topo, y: Sys, p: Pid)
    requires AllFit(t, y) && p in y.s.procs && y.s.procs[p].state == Running
    requires p in t.listen && p in t.rank && y.role[p].Own? && y.s.procs[p].resume == User && Calm(t, y, p)
    ensures AllFit(t, Sys(Blocked(y.s, p, t.listen[p]), y.role[p := Idle]))
  {
    var y' := Sys(Blocked(y.s, p, t.listen[p]), y.role[p := Idle]);
    assert Fits(t, y, p);
    LocalFits(t, y, y', p);
  }

  lemma ReturnedFits(t: Topo, y: Sys, p: Pid)
    requires AllFit(t, y) && p in y.s.procs && y.s.procs[p].state == Running && y.role[p].Replying?
    ensures AllFit(t, Sys(Returned(y.s, p), y.role[p := Own]))
  {
    var y' := Sys(Returned(y.s, p), y.role[p := Own]);
    assert Fits(t, y, p);
    LocalFits(t, y, y', p);
  }

  lemma ExitFits(t: Topo, y: Sys, p: Pid)
    requires AllFit(t, y) && p in y.s.procs
    requires y.s.procs[p].state == Running && y.s.procs[p].resume == User && p !in t.rank
    ensures AllFit(t, Sys(Exited(y.s, p), y.role))
  {
    var y' := Sys(Exited(y.s, p), y.role);
    assert Fits(t, y, p);
    LocalFits(t, y, y', p);
  }

  lemma BufferedFits(t: Topo, y: Sys, p: Pid, m: Message)
    requires AllFit(t, y) && p in y.s.procs && y.s.procs[p].state == Running
    ensures AllFit(t, Sys(Buffered(y.s, p, m), y.role))
  {
    var y' := Sys(Buffered(y.s, p, m), y.role);
    assert Fits(t, y, p);
    if Active(y, p) && y.role[p].Serving? {
      assert Fits(t, y, y.role[p].client);
    }
    forall q: Pid | Asking(y.s, p, q) ensures Asking(y'.s, p, q) {}
    forall x | x in y'.s.procs ensures Fits(t, y', x) {
      FitsFrame(t, y, y', x);
    }
  }

  // ----- steps -----

  // The state of the servers after a segment, before schedule()
  ghost function SysCode(t: Topo, y: Sys, a: Action): Sys
    requires Inv(y.s) && Enabled(y.s, a) && y.role.Keys == y.s.procs.Keys
  {
    Sys(Code(y.s, a).after, SysStep(t, y, a).role)
  }

  // What the kernel invariant says about the process that has the CPU
  ghost predicate AtWork(s: State, p: Pid) {
    && p in s.procs && s.procs[p].state == Running
    && (forall q :: q in s.procs[p].queue ==> SendingTo(s, q, p))
    && (forall q: Pid :: SendingTo(s, q, p) ==> s.procs[q].resume.AfterSend?)
    && (s.procs[p].resume.InRecv? ==> SomethingToReceive(s, p, s.procs[p].resume.from))
  }

  lemma CurrentAtWork(s: State, p: Pid)
    requires Inv(s) && s.current == Some(p)
    ensures AtWork(s, p)
  {
    assert WaitsRightly(s, p);
    forall q: Pid | SendingTo(s, q, p) ensures s.procs[q].resume.AfterSend? {
      assert WaitsRightly(s, q);
    }
  }

  // What a listening server makes of recv, from a state in which its buffer is ready
  ghost function Listened(t: Topo, y: Sys, p: Pid): Sys
    requires AtWork(y.s, p) && p in t.listen
  {
    var g := Receive(y.s, p, t.listen[p]);
    Sys(g.after, y.role[p := RoleIn(g, p, Idle)])
  }

  // The message or interrupt a listening server gets, if any
  ghost function Source(t: Topo, s: State, p: Pid): Option<Pid>
    requires AtWork(s, p) && p in t.listen
  {
    var from := t.listen[p];
    if from == All && s.procs[p].queue != [] then Some(s.procs[p].queue[0])
    else if from.On? && SendingTo(s, from.pid, p) then Some(from.pid)
    else None
  }

  lemma ListenedIs(t: Topo, y: Sys, p: Pid)
    requires Wellformed(t) && AtWork(y.s, p) && p in t.listen && p in y.role
    ensures var src := Source(t, y.s, p);
            && (src.Some? ==> SendingTo(y.s, src.value, p))
            && Listened(t, y, p) ==
               if t.listen[p] == All && y.s.procs[p].hasIntr then Sys(TookIntr(y.s, p), y.role[p := Own])
               else if src.Some? then Sys(Received(y.s, p, src.value), y.role[p := Serving(src.value)])
               else Sys(Blocked(y.s, p, t.listen[p]), y.role[p := Idle])
  {
    if y.s.procs[p].queue != [] {
      assert y.s.procs[p].queue[0] in y.s.procs[p].queue;
    }
  }

  lemma ListenedFits(t: Topo, y: Sys, p: Pid)
    requires Wellformed(t) && AllFit(t, y) && AtWork(y.s, p) && p in t.listen
    requires (y.role[p].Own? && y.s.procs[p].resume == User && Calm(t, y, p)) ||
             (y.role[p].Idle? && y.s.procs[p].resume == InRecv(t.listen[p]))
    ensures AllFit(t, Listened(t, y, p))
  {
    ListenedIs(t, y, p);
    if t.listen[p] == All && y.s.procs[p].hasIntr {
      TookIntrFits(t, y, p);
      assert y.role[p].Own? ==> y.role[p := Own] == y.role;
    } else if Source(t, y.s, p).Some? {
      RequestFits(t, y, p, Source(t, y.s, p).value);
    } else {
      ListensFits(t, y, p);
    }
  }

  lemma AwaitsIntrFits(t: Topo, y: Sys, p: Pid)
    requires AllFit(t, y) && AtWork(y.s, p) && p in t.rank && Active(y, p) && y.s.procs[p].resume == User
    ensures AllFit(t, Sys(Receive(y.s, p, Intr).after, y.role))
  {
    if y.s.procs[p].hasIntr {
      TookIntrFits(t, y, p);
    } else {
      BlockedFits(t, y, p, Intr);
    }
  }

  // p goes on from its request to the answer
  lemma AfterAskFits(t: Topo, y: Sys, p: Pid, q: Pid)
    requires AllFit(t, y) && AtWork(y.s, p) && Active(y, p)
    requires y.s.procs[p].resume == AfterSend(true) && y.s.procs[p].wait == On(q)
    ensures AllFit(t, Sys(Receive(y.s, p, On(q)).after, y.role))
  {
    assert Fits(t, y, p);
    if SendingTo(y.s, q, p) {
      AnsweredFits(t, y, p, q);
    } else {
      BlockedFits(t, y, p, On(q));
    }
  }

  lemma RecvCodeFits(t: Topo, y: Sys, from: Peer, m: Message)
    requires SysInv(t, y) && Enabled(y.s, Recv(from, m)) && Allowed(t, y, Recv(from, m))
    ensures AllFit(t, SysCode(t, y, Recv(from, m)))
  {
    var p := y.s.current.value;
    var yb := Sys(Buffered(y.s, p, m), y.role);
    BufferedAtWork(y.s, p, m);
    BufferedFits(t, y, p, m);
    RecvCodeIs(t, y, from, m);
    if from == Intr {
      AwaitsIntrFits(t, yb, p);
    } else {
      ListenedFits(t, yb, p);
    }
  }

  lemma BufferedAtWork(s: State, p: Pid, m: Message)
    requires Inv(s) && s.current == Some(p) && s.procs[p].resume == User
    ensures AtWork(Buffered(s, p, m), p)
  {
    CallerOnly(s, Buffered(s, p, m), p);
    CurrentAtWork(Buffered(s, p, m), p);
  }

  lemma RecvCodeIs(t: Topo, y: Sys, from: Peer, m: Message)
    requires Inv(y.s) && Enabled(y.s, Recv(from, m)) && y.role.Keys == y.s.procs.Keys
    requires AtWork(Buffered(y.s, y.s.current.value, m), y.s.current.value)
    requires from == Intr ==> Active(y, y.s.current.value)
    requires from != Intr ==> y.s.current.value in t.listen && t.listen[y.s.current.value] == from
    ensures var p := y.s.current.value;
            var yb := Sys(Buffered(y.s, p, m), y.role);
            SysCode(t, y, Recv(from, m)) ==
            if from == Intr then Sys(Receive(yb.s, p, Intr).after, y.role) else Listened(t, yb, p)
  {
    var p := y.s.current.value;
    assert y.role[p := y.role[p]] == y.role;
  }

  lemma ContinueCodeFits(t: Topo, y: Sys)
    requires SysInv(t, y) && Enabled(y.s, Continue)
    ensures AllFit(t, SysCode(t, y, Continue))
  {
    var p := y.s.current.value;
    CurrentAtWork(y.s, p);
    assert Fits(t, y, p);
    ContinueCodeIs(t, y, p);
    if y.role[p].Replying? {
      ReturnedFits(t, y, p);
    } else if y.role[p].Idle? {
      ListenedFits(t, y, p);
    } else {
      AskingCodeFits(t, y, p);
    }
  }

  // A process resumed in the middle of a request, or of waiting for its device
  lemma AskingCodeFits(t: Topo, y: Sys, p: Pid)
    requires SysInv(t, y) && Enabled(y.s, Continue) && y.s.current == Some(p) && AtWork(y.s, p)
    requires Fits(t, y, p) && Active(y, p)
    ensures AllFit(t, if y.s.procs[p].resume.AfterSend? then Sys(Receive(y.s, p, y.s.procs[p].wait).after, y.role)
                      else if y.s.procs[p].resume == InRecv(Intr) then Sys(TookIntr(y.s, p), y.role)
                      else Sys(Received(y.s, p, y.s.procs[p].resume.from.pid), y.role))
  {
    if y.s.procs[p].resume.AfterSend? {
      AfterAskFits(t, y, p, y.s.procs[p].wait.pid);
    } else if y.s.procs[p].resume == InRecv(Intr) {
      TookIntrFits(t, y, p);
    } else {
      AnsweredFits(t, y, p, y.s.procs[p].resume.from.pid);
    }
  }

  // Which piece of code a resumed process runs, by what it was doing
  lemma ContinueCodeIs(t: Topo, y: Sys, p: Pid)
    requires Wellformed(t) && Inv(y.s) && Enabled(y.s, Continue) && y.role.Keys == y.s.procs.Keys
    requires y.s.current == Some(p) && AtWork(y.s, p) && Fits(t, y, p)
    ensures SysCode(t, y, Continue) ==
            if y.role[p].Replying? then Sys(Returned(y.s, p), y.role[p := Own])
            else if y.role[p].Idle? then Listened(t, y, p)
            else if y.s.procs[p].resume.AfterSend? then Sys(Receive(y.s, p, y.s.procs[p].wait).after, y.role)
            else if y.s.procs[p].resume == InRecv(Intr) then Sys(TookIntr(y.s, p), y.role)
            else Sys(Received(y.s, p, y.s.procs[p].resume.from.pid), y.role)
  {
    assert y.role[p := y.role[p]] == y.role;
  }

  lemma CodeFits(t: Topo, y: Sys, a: Action)
    requires SysInv(t, y) && Enabled(y.s, a) && Allowed(t, y, a)
    ensures AllFit(t, SysCode(t, y, a))
  {
    match a
    case Send(c, m) => AnswerFits(t, y, y.s.current.value, c, Stamped(m, y.s.current.value));
    case SendRecv(q, m) => AskFits(t, y, y.s.current.value, q, Stamped(m, y.s.current.value));
    case Recv(from, m) => RecvCodeFits(t, y, from, m);
    case Fork(child) => ForkFits(t, y, child);
    case Exit => ExitFits(t, y, y.s.current.value);
    case Timer =>
    case Continue => ContinueCodeFits(t, y);
    case Interrupt(d) => InterruptFits(t, y, d);
  }

  lemma SysStepInv(t: Topo, y: Sys, a: Action)
    requires SysInv(t, y) && Enabled(y.s, a) && Allowed(t, y, a)
    ensures SysInv(t, SysStep(t, y, a))
  {
    StepInv(y.s, a);
    CodeFits(t, y, a);
    ScheduleQuiet(Code(y.s, a).after);
    CpuFits(t, SysCode(t, y, a), Schedule(Code(y.s, a).after));
  }
}
