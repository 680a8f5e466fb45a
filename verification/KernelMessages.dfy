/**
 What the kernel does to the programs' message buffers and to latched interrupts, step by step and
 over runs: a receiver finds in its buffer what its sender passed to send, nobody else's buffer
 changes, and an interrupt is told once.
 */
module KernelMessages {
  import opened LinkedLists
  import opened Kernel
  import opened KernelInv
  import opened KernelRuns

  // ----- one step -----

  // The buffer of x once a call has started: the caller's is the one it passes, with its own pid in it
  function CallBuffer(s: State, a: Action, x: Pid): Message
    requires x in s.procs
  {
    match a
    case Send(_, m) => if s.current == Some(x) then Message(x, m.kind, m.data) else s.procs[x].buf
    case SendRecv(_, m) => if s.current == Some(x) then Message(x, m.kind, m.data) else s.procs[x].buf
    case Recv(_, m) => if s.current == Some(x) then Message(x, m.kind, m.data) else s.procs[x].buf
    case _ => s.procs[x].buf
  }

  // What a step adds to the log: nothing, or one event
  datatype News = Nothing | Event(event: Event)

  ghost predicate Adds(s: State, t: State, news: News) {
    t.log == match news case Nothing => s.log case Event(e) => s.log + [e]
  }

  // Where an event comes from. A message sent is the one passed to the call; a message delivered is
  // the one that its sender is blocked on
  predicate Genuine(s: State, a: Action, e: Event) {
    match e
    case Sent(p, to, m) =>
      && s.current == Some(p) && p in s.procs && m == CallBuffer(s, a, p)
      && (a.Send? || a.SendRecv?) && a.to == to
    case Delivered(q, p, m) =>
      s.current == Some(p) && p in s.procs && q != p && SendingTo(s, q, p) && m == s.procs[q].msg
    case IntrTaken(p) => s.current == Some(p) && p in s.procs && s.procs[p].hasIntr
  }

  // What the event leaves in the buffer of x, in its outgoing message and in its interrupt flag
  predicate Kept(s: State, a: Action, news: News, x: Pid, pr: Proc)
    requires x in s.procs
  {
    var got := news.Event? && news.event.Delivered? && news.event.dst == x;
    var told := news == Event(IntrTaken(x));
    var sent := news.Event? && news.event.Sent? && news.event.src == x;
    && (got ==> pr.buf == news.event.msg)
    && (told ==> pr.buf.src == CallBuffer(s, a, x).src && pr.buf.kind == 259)
    && (told ==> pr.buf.data != [] && pr.buf.data[0] == 1)
    && (told ==> pr.buf.data[1..] == if CallBuffer(s, a, x).data == [] then [] else CallBuffer(s, a, x).data[1..])
    && (!got && !told ==> pr.buf == CallBuffer(s, a, x))
    && pr.msg == (if sent then news.event.msg else s.procs[x].msg)
    && (pr.hasIntr <==> a == Interrupt(x) || (s.procs[x].hasIntr && !told))
  }

  ghost predicate MessagesRight(s: State, a: Action, t: State, news: News) {
    && Adds(s, t, news) && (news.Event? ==> Genuine(s, a, news.event))
    && s.procs.Keys <= t.procs.Keys
    && forall x {:trigger Kept(s, a, news, x, t.procs[x])} :: x in s.procs ==> Kept(s, a, news, x, t.procs[x])
  }

  // Every step adds at most one event, a genuine one, and leaves every buffer as that event says
  lemma StepMessages(s: State, a: Action) returns (news: News)
    requires Inv(s) && Enabled(s, a)
    ensures MessagesRight(s, a, Step(s, a), news)
  {
    news := CodeMessages(s, a);
    ScheduleQuiet(Code(s, a).after);
    CpuMessages(s, a, Code(s, a).after, Schedule(Code(s, a).after), news);
  }

  // Handing over the CPU touches no buffer
  lemma CpuMessages(s: State, a: Action, t: State, u: State, news: News)
    requires MessagesRight(s, a, t, news) && u.log == t.log && u.procs.Keys == t.procs.Keys
    requires forall p :: p in t.procs ==> SameUpToCpu(t.procs[p], u.procs[p])
    ensures MessagesRight(s, a, u, news)
  {
    forall x | x in s.procs ensures x in u.procs && Kept(s, a, news, x, u.procs[x]) {
      assert x in t.procs && Kept(s, a, news, x, t.procs[x]);
    }
  }

  lemma CodeMessages(s: State, a: Action) returns (news: News)
    requires Inv(s) && Enabled(s, a)
    ensures MessagesRight(s, a, Code(s, a).after, news)
  {
    match a
    case Send(to, m) => news := SendMessages(s, a, false);
    case SendRecv(to, m) => news := SendMessages(s, a, true);
    case Recv(from, m) =>
      CallerOnly(s, Buffered(s, s.current.value, m), s.current.value);
      news := ReceiveMessages(Buffered(s, s.current.value, m), s.current.value, from);
      CallMessages(s, from, m, Code(s, a).after, news);
    case Continue => news := ContinuedMessages(s, s.current.value);
    case _ => news := QuietMessages(s, a);
  }

  lemma SendMessages(s: State, a: Action, andRecv: bool) returns (news: News)
    requires Inv(s) && Enabled(s, a) && (if andRecv then a.SendRecv? else a.Send?)
    ensures MessagesRight(s, a, Enqueued(s, s.current.value, a.to, Stamped(a.m, s.current.value), andRecv), news)
  {
    var p := s.current.value;
    news := Event(Sent(p, a.to, Stamped(a.m, p)));
    var t := Enqueued(s, p, a.to, Stamped(a.m, p), andRecv);
    forall x | x in s.procs ensures x in t.procs && Kept(s, a, news, x, t.procs[x]) {}
  }

  // The actions that pass no message
  lemma QuietMessages(s: State, a: Action) returns (news: News)
    requires Inv(s) && Enabled(s, a) && (a.Fork? || a.Exit? || a.Timer? || a.Interrupt?)
    ensures MessagesRight(s, a, Code(s, a).after, news)
  {
    news := Nothing;
    forall x | x in s.procs ensures x in Code(s, a).after.procs && Kept(s, a, news, x, Code(s, a).after.procs[x]) {}
  }

  // Receiving code that starts with the buffer that the caller passed
  lemma CallMessages(s: State, from: Peer, m: Message, t: State, news: News)
    requires Inv(s) && Enabled(s, Recv(from, m)) && CodeRight(Buffered(s, s.current.value, m), t, news)
    ensures MessagesRight(s, Recv(from, m), t, news)
  {
    var u := Buffered(s, s.current.value, m);
    forall x | x in s.procs ensures x in t.procs && Kept(s, Recv(from, m), news, x, t.procs[x]) {
      assert x in u.procs && x in t.procs && Kept(u, Continue, news, x, t.procs[x]);
    }
  }

  // The news of a piece of receiving code that starts in s and ends in t
  ghost predicate CodeRight(s: State, t: State, news: News) {
    MessagesRight(s, Continue, t, news)
  }

  lemma ReceiveMessages(s: State, p: Pid, from: Peer) returns (news: News)
    requires Inv(s) && s.current == Some(p)
    ensures CodeRight(s, Receive(s, p, from).after, news)
  {
    news := Nothing;
    match from
    case All =>
      if s.procs[p].hasIntr {
        news := Event(IntrTaken(p));
      } else if s.procs[p].queue != [] {
        assert s.procs[p].queue[0] in s.procs[p].queue;
        news := ReceivedMessages(s, p, s.procs[p].queue[0]);
      }
    case Intr =>
      if s.procs[p].hasIntr {
        news := Event(IntrTaken(p));
      }
    case On(x) =>
      if SendingTo(s, x, p) {
        news := ReceivedMessages(s, p, x);
      }
    case NoWait =>
  }

  lemma ReceivedMessages(s: State, p: Pid, q: Pid) returns (news: News)
    requires Inv(s) && s.current == Some(p) && SendingTo(s, q, p)
    ensures CodeRight(s, Received(s, p, q), news)
  {
    news := Event(Delivered(q, p, s.procs[q].msg));
  }

  lemma ContinuedMessages(s: State, p: Pid) returns (news: News)
    requires Inv(s) && s.current == Some(p)
    ensures CodeRight(s, Continued(s, p).after, news)
  {
    assert WaitsRightly(s, p);
    news := Nothing;
    match s.procs[p].resume
    case User =>
    case AfterSend(andRecv) =>
      if andRecv {
        news := ReceiveMessages(s, p, s.procs[p].wait);
      }
    case InRecv(from) =>
      match from
      case All => news := ReceiveMessages(s, p, All);
      case Intr => news := Event(IntrTaken(p));
      case On(x) => news := ReceivedMessages(s, p, x);
      case NoWait =>
  }

  // ----- which event -----

  // Whom the running process receives from in this step: with a new call, or going on with one
  function Wants(s: State, a: Action): Option<Peer>
    requires Enabled(s, a)
  {
    match a
    case Recv(from, _) => Some(from)
    case Continue =>
      (match s.procs[s.current.value].resume
       case InRecv(from) => Some(from)
       case AfterSend(andRecv) => if andRecv then Some(s.procs[s.current.value].wait) else None
       case User => None)
    case _ => None
  }

  // An interrupt comes before any message when listening to everybody, and is seen neither by a
  // receive from one process nor by any other call; the first sender in the queue comes next
  function Expected(s: State, a: Action): News
    requires Enabled(s, a)
  {
    if a.Send? || a.SendRecv? then
      Event(Sent(s.current.value, a.to, CallBuffer(s, a, s.current.value)))
    else if Wants(s, a).Some? then
      var p := s.current.value;
      match Wants(s, a).value
      case All =>
        if s.procs[p].hasIntr then Event(IntrTaken(p))
        else if s.procs[p].queue != [] && s.procs[p].queue[0] in s.procs
        then Event(Delivered(s.procs[p].queue[0], p, s.procs[s.procs[p].queue[0]].msg))
        else Nothing
      case Intr => if s.procs[p].hasIntr then Event(IntrTaken(p)) else Nothing
      case On(x) => if SendingTo(s, x, p) then Event(Delivered(x, p, s.procs[x].msg)) else Nothing
      case NoWait => Nothing
    else Nothing
  }

  // A receive that takes something returns at once; one that finds nothing blocks on what it wants
  ghost predicate Returns(s: State, a: Action, t: State)
    requires Enabled(s, a) && Wants(s, a).Some?
  {
    var p := s.current.value;
    && p in t.procs
    && if Expected(s, a).Event? then t.current == Some(p) && t.procs[p].resume == User
       else t.procs[p].state == Receiving && t.procs[p].wait == Wants(s, a).value
  }

  lemma CodeExpected(s: State, a: Action)
    requires Inv(s) && Enabled(s, a)
    ensures Adds(s, Code(s, a).after, Expected(s, a))
    ensures Wants(s, a).Some? ==> Returns(s, a, Code(s, a).after) && (Expected(s, a).Event? <==> Code(s, a).Stay?)
  {
    if s.current.Some? {
      var p := s.current.value;
      assert WaitsRightly(s, p);
      assert s.procs[p].queue != [] ==> s.procs[p].queue[0] in s.procs[p].queue;
    }
  }

  // Every step adds the expected event and leaves the buffers as that event says
  lemma StepExpected(s: State, a: Action)
    requires Inv(s) && Enabled(s, a)
    ensures MessagesRight(s, a, Step(s, a), Expected(s, a))
    ensures Wants(s, a).Some? ==> Returns(s, a, Step(s, a))
  {
    var news := StepMessages(s, a);
    StepReturns(s, a);
    SameNews(s, Step(s, a), news, Expected(s, a));
  }

  lemma StepReturns(s: State, a: Action)
    requires Inv(s) && Enabled(s, a)
    ensures Adds(s, Step(s, a), Expected(s, a))
    ensures Wants(s, a).Some? ==> Returns(s, a, Step(s, a))
  {
    CodeExpected(s, a);
    var t := Code(s, a).after;
    ScheduleQuiet(t);
    if Wants(s, a).Some? && Code(s, a).Yield? {
      StillBlocked(t, Schedule(t), s.current.value);
    }
  }

  lemma StillBlocked(t: State, u: State, p: Pid)
    requires p in t.procs && p in u.procs && SameUpToCpu(t.procs[p], u.procs[p])
    requires t.procs[p].state == Receiving
    ensures u.procs[p] == t.procs[p]
  {
  }

  lemma SameNews(s: State, t: State, a: News, b: News)
    requires Adds(s, t, a) && Adds(s, t, b)
    ensures a == b
  {
    if a.Event? {
      assert t.log[|s.log|] == a.event;
    }
  }

  // ----- over runs: the receiver has what was sent -----

  // Action i of the run is a send of that message, from q to to
  ghost predicate PassedAt(s: State, acts: seq<Action>, i: nat, q: Pid, to: Pid, m: Message)
    requires Inv(s) && ValidRun(s, acts)
    decreases |acts|
  {
    && i < |acts|
    && if i == 0 then
         && s.current == Some(q) && (acts[0].Send? || acts[0].SendRecv?) && acts[0].to == to
         && m.src == q && m.kind == acts[0].m.kind && m.data == acts[0].m.data
       else
         StepInv(s, acts[0]);
         PassedAt(Step(s, acts[0]), acts[1..], i - 1, q, to, m)
  }

  lemma {:induction false} SentWasPassed(s: State, acts: seq<Action>, q: Pid, to: Pid, m: Message) returns (i: nat)
    requires Inv(s) && ValidRun(s, acts) && Sent(q, to, m) in Run(s, acts).log && Sent(q, to, m) !in s.log
    ensures PassedAt(s, acts, i, q, to, m)
    decreases |acts|
  {
    StepInv(s, acts[0]);
    var t := Step(s, acts[0]);
    StepExpected(s, acts[0]);
    if Sent(q, to, m) in t.log {
      i := 0;
    } else {
      i := SentWasPassed(t, acts[1..], q, to, m);
      i := i + 1;
    }
  }

  lemma {:induction false} SentByLogged(log: seq<Event>, p: Pid, to: Pid, m: Message)
    requires (to, m) in SentBy(log, p)
    ensures Sent(p, to, m) in log
  {
    if log != [] && log[|log| - 1] != Sent(p, to, m) {
      SentByLogged(log[..|log| - 1], p, to, m);
    }
  }

  // When a receive returns with a message, in any run from boot, the caller's buffer holds the
  // message that its sender passed to a send to this process
  lemma BufferWasPassed(pids: seq<Pid>, acts: seq<Action>, a: Action, q: Pid, p: Pid, m: Message)
    requires Distinct(pids) && BootRun(pids, acts)
    requires var s := BootState(pids, acts); Inv(s) && Enabled(s, a) && Step(s, a).log == s.log + [Delivered(q, p, m)]
    ensures var t := Step(BootState(pids, acts), a);
            t.current == Some(p) && p in t.procs && t.procs[p].resume == User && t.procs[p].buf == m
    ensures Inv(Boot(pids)) && ValidRun(Boot(pids), acts) && exists i :: PassedAt(Boot(pids), acts, i, q, p, m)
  {
    BootInv(pids);
    var s := BootState(pids, acts);
    StepExpected(s, a);
    SameNews(s, Step(s, a), Expected(s, a), Event(Delivered(q, p, m)));
    assert p in s.procs && Kept(s, a, Expected(s, a), p, Step(s, a).procs[p]);
    DeliveredExactlyOnce(pids, acts, q);
    assert InTransit(s, q) == [(p, m)] && (p, m) in SentBy(s.log, q);
    SentByLogged(s.log, q, p, m);
    var i := SentWasPassed(Boot(pids), acts, q, p, m);
  }

  // ----- over runs: interrupts -----

  function Raised(acts: seq<Action>, p: Pid): nat {
    if acts == [] then 0 else (if acts[0] == Interrupt(p) then 1 else 0) + Raised(acts[1..], p)
  }

  // The interrupts that p was told of, and the one that is latched
  function Told(s: State, p: Pid): nat
    requires p in s.procs
  {
    Count(s.log, IntrTaken(p)) + if s.procs[p].hasIntr then 1 else 0
  }

  function Count(log: seq<Event>, e: Event): nat {
    if log == [] then 0 else Count(log[..|log| - 1], e) + if log[|log| - 1] == e then 1 else 0
  }

  lemma StepTold(s: State, a: Action, p: Pid)
    requires Inv(s) && Enabled(s, a) && p in s.procs
    ensures var t := Step(s, a);
            && p in t.procs
            && Told(t, p) == Told(s, p) + if a == Interrupt(p) && !s.procs[p].hasIntr then 1 else 0
  {
    StepExpected(s, a);
    var t := Step(s, a);
    assert p in t.procs && Kept(s, a, Expected(s, a), p, t.procs[p]);
    if Expected(s, a).Event? {
      assert t.log[..|t.log| - 1] == s.log;
    }
  }

  // No interrupt is told that was not raised, and none is lost: after a run in which one was raised,
  // one more has been told or is latched
  lemma {:induction false} InterruptsTold(s: State, acts: seq<Action>, p: Pid)
    requires Inv(s) && ValidRun(s, acts) && p in s.procs
    ensures var t := Run(s, acts);
            && p in t.procs && Told(s, p) <= Told(t, p) <= Told(s, p) + Raised(acts, p)
            && (Raised(acts, p) > 0 ==> Told(t, p) > Count(s.log, IntrTaken(p)))
    decreases |acts|
  {
    if acts != [] {
      StepInv(s, acts[0]);
      StepTold(s, acts[0], p);
      StepExpected(s, acts[0]);
      var t := Step(s, acts[0]);
      assert Kept(s, acts[0], Expected(s, acts[0]), p, t.procs[p]);
      CountGrows(s.log, t.log, IntrTaken(p));
      InterruptsTold(t, acts[1..], p);
    }
  }

  lemma CountGrows(log: seq<Event>, more: seq<Event>, e: Event)
    requires log == more || exists x :: more == log + [x]
    ensures Count(log, e) <= Count(more, e)
  {
    if log != more {
      assert more[..|more| - 1] == log;
    }
  }

  // ----- over runs: exit -----

  lemma StoppedStays(s: State, a: Action, p: Pid)
    requires Inv(s) && Enabled(s, a) && p in s.procs && s.procs[p].state == Stopped
    ensures p in Step(s, a).procs && Step(s, a).procs[p].state == Stopped
  {
    CodeStopped(s, a, p);
    ScheduleQuiet(Code(s, a).after);
    assert SameUpToCpu(Code(s, a).after.procs[p], Schedule(Code(s, a).after).procs[p]);
  }

  lemma CodeStopped(s: State, a: Action, p: Pid)
    requires Inv(s) && Enabled(s, a) && p in s.procs && s.procs[p].state == Stopped
    ensures p in Code(s, a).after.procs && Code(s, a).after.procs[p].state == Stopped
  {
    if s.current.Some? {
      var c := s.current.value;
      assert WaitsRightly(s, c) && c != p;
      assert s.procs[c].queue != [] ==> s.procs[c].queue[0] in s.procs[c].queue;
    }
  }

  lemma ExitStops(s: State, p: Pid)
    requires Inv(s) && Enabled(s, Exit) && s.current == Some(p)
    ensures p in Step(s, Exit).procs && Step(s, Exit).procs[p].state == Stopped
  {
    ScheduleQuiet(Exited(s, p));
    assert SameUpToCpu(Exited(s, p).procs[p], Schedule(Exited(s, p)).procs[p]);
  }

  // The CPU is not with a stopped process
  lemma StoppedIsIdle(s: State, p: Pid)
    requires Inv(s) && p in s.procs && s.procs[p].state == Stopped
    ensures s.current != Some(p)
  {
  }

  // A process that exits is stopped, and never has the CPU again
  lemma {:induction false} ExitIsFinal(s: State, acts: seq<Action>, p: Pid)
    requires Inv(s) && ValidRun(s, acts) && p in s.procs
    requires s.procs[p].state == Stopped || (s.current == Some(p) && acts != [] && acts[0] == Exit)
    ensures var t := Run(s, acts); p in t.procs && t.procs[p].state == Stopped && t.current != Some(p)
    decreases |acts|
  {
    if acts == [] {
      StoppedIsIdle(s, p);
    } else {
      StepInv(s, acts[0]);
      if s.procs[p].state == Stopped {
        StoppedStays(s, acts[0], p);
      } else {
        ExitStops(s, p);
      }
      ExitIsFinal(Step(s, acts[0]), acts[1..], p);
    }
  }
}
