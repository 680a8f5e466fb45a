/**
 Processes, the round-robin scheduler and synchronous message passing as a transition system. One
 step is the kernel code between two calls of schedule(); on one CPU with interrupt gates such a
 segment is atomic. A process that waits inside the kernel keeps, in resume, where it continues.
 */
module Kernel {
  import opened LinkedLists

  type Pid = nat

  datatype Message = Message(src: Pid, kind: int, data: seq<int>)

  const MSG_INTR := 259
  const INTR_OK := 1

  // What the kernel makes of a buffer to tell of an interrupt: the type and the first word are set
  function IntrMessage(m: Message): Message {
    m.(kind := MSG_INTR, data := [INTR_OK] + if m.data == [] then [] else m.data[1..])
  }

  // What a process waits for: IPC_NOWAIT, IPC_ALL, IPC_INTR or one process
  datatype Peer = NoWait | All | Intr | On(pid: Pid)

  datatype ProcState = Runnable | Running | Sending | Receiving | Stopped

  // Where a process continues when schedule() returns: in user mode, at the end of do_send (and
  // then in do_recv from the same process, for do_sendrecv), or inside do_recv
  datatype Resume = User | AfterSend(andRecv: bool) | InRecv(from: Peer)

  datatype Proc = Proc(
    state: ProcState,
    wait: Peer,
    hasIntr: bool,
    queue: seq<Pid>,     // wait_proc: senders blocked on this process, oldest first
    msg: Message,        // the message being sent
    buf: Message,        // the message buffer of the user program
    resume: Resume)

  datatype Event =
    | Sent(src: Pid, dst: Pid, msg: Message)
    | Delivered(src: Pid, dst: Pid, msg: Message)
    | IntrTaken(dst: Pid)

  datatype State = State(
    procs: map<Pid, Proc>,
    head: seq<Pid>,          // proc_head
    current: Option<Pid>,    // None: the idle process
    log: seq<Event>)         // history, never read by the kernel

  datatype Action =
    | Send(to: Pid, m: Message)
    | Recv(from: Peer, m: Message)
    | SendRecv(to: Pid, m: Message)
    | Fork(child: Pid)
    | Exit
    | Timer
    | Continue                // the current process continues after schedule()
    | Interrupt(dst: Pid)     // a hardware interrupt for a registered driver

  // ----- schedule() -----

  predicate IsRunnable(procs: map<Pid, Proc>, p: Pid) {
    p in procs && procs[p].state == Runnable
  }

  // The first runnable process of the list
  function FirstRunnable(procs: map<Pid, Proc>, head: seq<Pid>): Option<Pid> {
    if head == [] then None
    else if IsRunnable(procs, head[0]) then Some(head[0])
    else FirstRunnable(procs, head[1..])
  }

  // The caller goes to the tail of the list, losing the CPU if it had it
  function Yielded(s: State): State {
    if s.current.Some? && s.current.value in s.procs then
      var p := s.current.value;
      var pr := s.procs[p];
      s.(procs := s.procs[p := pr.(state := if pr.state == Running then Runnable else pr.state)],
         head := Remove(s.head, p) + [p])
    else s
  }

  // The first runnable process of the list gets the CPU
  function Picked(s: State): State {
    var next := FirstRunnable(s.procs, s.head);
    if next.Some? && next.value in s.procs then
      s.(procs := s.procs[next.value := s.procs[next.value].(state := Running)], current := next)
    else s.(current := None)
  }

  function Schedule(s: State): State {
    Picked(Yielded(s))
  }

  // ----- message passing -----

  predicate SendingTo(s: State, p: Pid, q: Pid) {
    p in s.procs && s.procs[p].state == Sending && s.procs[p].wait == On(q)
  }

  predicate Accepts(pr: Proc, p: Pid) {
    pr.state == Receiving && (pr.wait == On(p) || pr.wait == All)
  }

  // do_send up to schedule(): block p on the queue of to, waking to if it waits for p
  function Enqueued(s: State, p: Pid, to: Pid, m: Message, andRecv: bool): State
    requires p in s.procs && to in s.procs
  {
    var procs := s.procs[p := s.procs[p].(msg := m, buf := m, wait := On(to), state := Sending,
                                          resume := AfterSend(andRecv))];
    var dest := procs[to];
    s.(procs := procs[to := dest.(queue := dest.queue + [p],
                                 state := if Accepts(dest, p) then Runnable else dest.state)],
       log := s.log + [Sent(p, to, m)])
  }

  // The end of a successful do_recv: copy the message of src, release src
  function Received(s: State, p: Pid, src: Pid): State
    requires p in s.procs && src in s.procs
  {
    var m := s.procs[src].msg;
    var procs := s.procs[p := s.procs[p].(queue := Remove(s.procs[p].queue, src),
                                          wait := NoWait, buf := m, resume := User)];
    s.(procs := procs[src := procs[src].(state := Runnable)],
       log := s.log + [Delivered(src, p, m)])
  }

  // The end of do_recv with a latched interrupt; the sender field keeps what the system call entry put there
  function TookIntr(s: State, p: Pid): State
    requires p in s.procs
  {
    var pr := s.procs[p];
    s.(procs := s.procs[p := pr.(hasIntr := false, buf := IntrMessage(pr.buf), resume := User)],
       log := s.log + [IntrTaken(p)])
  }

  function Blocked(s: State, p: Pid, from: Peer): State
    requires p in s.procs
  {
    s.(procs := s.procs[p := s.procs[p].(wait := from, state := Receiving, resume := InRecv(from))])
  }

  // A piece of kernel code without a call of schedule() in it, and whether one follows
  datatype Segment = Stay(after: State) | Yield(after: State)

  // do_recv from its start, or from the label recv_all
  function Receive(s: State, p: Pid, from: Peer): Segment
    requires p in s.procs && (forall q :: q in s.procs[p].queue ==> q in s.procs)
  {
    var pr := s.procs[p];
    match from
    case All =>
      if pr.hasIntr then Stay(TookIntr(s, p))
      else if pr.queue != [] then Stay(Received(s, p, pr.queue[0]))
      else Yield(Blocked(s, p, All))
    case Intr =>
      if pr.hasIntr then Stay(TookIntr(s, p)) else Yield(Blocked(s, p, Intr))
    case On(x) =>
      if SendingTo(s, x, p) then Stay(Received(s, p, x)) else Yield(Blocked(s, p, from))
    case NoWait => Stay(s)
  }

  // The rest of a kernel call after schedule() has returned in process p
  function Continued(s: State, p: Pid): Segment
    requires p in s.procs && (forall q :: q in s.procs[p].queue ==> q in s.procs)
  {
    var pr := s.procs[p];
    match pr.resume
    case User => Stay(s)
    case AfterSend(andRecv) =>
      if andRecv && pr.wait.On? then Receive(s, p, pr.wait) else Stay(Returned(s, p))
    case InRecv(from) =>
      (match from
       case All => Receive(s, p, All)
       case Intr => Stay(TookIntr(s, p))
       case On(x) => if x in s.procs then Stay(Received(s, p, x)) else Stay(s)
       case NoWait => Stay(s))
  }

  function Returned(s: State, p: Pid): State
    requires p in s.procs
  {
    s.(procs := s.procs[p := s.procs[p].(resume := User)])
  }

  // do_send with the interrupt source: latch, and wake a driver that waits for interrupts
  function Interrupted(s: State, d: Pid): State
    requires d in s.procs
  {
    var pr := s.procs[d];
    var wake := pr.state == Receiving && (pr.wait == Intr || pr.wait == All);
    s.(procs := s.procs[d := pr.(hasIntr := true, state := if wake then Runnable else pr.state)])
  }

  const NoMessage := Message(0, 0, [])

  // The end of do_fork: a new process at the tail of the list
  function Forked(s: State, child: Pid): State {
    s.(procs := s.procs[child := Proc(Runnable, NoWait, false, [], NoMessage, NoMessage, User)],
       head := s.head + [child])
  }

  // The system call entry writes the caller's pid into the message
  function Stamped(m: Message, p: Pid): Message {
    m.(src := p)
  }

  // ----- the transition system -----

  predicate InUser(s: State) {
    s.current.Some? && s.current.value in s.procs && s.procs[s.current.value].resume == User
  }

  // Messages go to processes that exist; a process is named by a pid that is not in use when created
  predicate Enabled(s: State, a: Action) {
    match a
    case Send(to, _) => InUser(s) && to in s.procs
    case SendRecv(to, _) => InUser(s) && to in s.procs
    case Recv(from, _) => InUser(s) && from != NoWait && (from.On? ==> from.pid in s.procs)
    case Fork(child) => InUser(s) && child !in s.procs
    case Exit => InUser(s)
    case Timer => s.current.None? || InUser(s)
    case Continue => s.current.Some? && s.current.value in s.procs && !InUser(s)
    case Interrupt(d) => d in s.procs
  }

  ghost function Code(s: State, a: Action): Segment
    requires Inv(s) && Enabled(s, a)
  {
    match a
    case Send(to, m) => Yield(Enqueued(s, s.current.value, to, Stamped(m, s.current.value), false))
    case SendRecv(to, m) => Yield(Enqueued(s, s.current.value, to, Stamped(m, s.current.value), true))
    case Recv(from, m) => Receive(Buffered(s, s.current.value, m), s.current.value, from)
    case Fork(child) => Stay(Forked(s, child))
    case Exit => Yield(Exited(s, s.current.value))
    case Timer => Yield(s)
    case Continue => Continued(s, s.current.value)
    case Interrupt(d) => Stay(Interrupted(s, d))
  }

  ghost function Step(s: State, a: Action): State
    requires Inv(s) && Enabled(s, a)
  {
    match Code(s, a)
    case Stay(t) => t
    case Yield(t) => Schedule(t)
  }

  // The end of do_exit, up to schedule()
  function Exited(s: State, p: Pid): State
    requires p in s.procs
  {
    s.(procs := s.procs[p := s.procs[p].(state := Stopped)])
  }

  function Buffered(s: State, p: Pid, m: Message): State
    requires p in s.procs
  {
    s.(procs := s.procs[p := s.procs[p].(buf := Stamped(m, p))])
  }

  // ----- the invariant -----

  // A blocked sender is in exactly one queue, its destination's
  ghost predicate QueuesMatch(s: State) {
    && (forall q :: q in s.procs ==> Distinct(s.procs[q].queue))
    && (forall p, q :: q in s.procs ==> (p in s.procs[q].queue <==> SendingTo(s, p, q)))
    && (forall p :: p in s.procs && s.procs[p].state == Sending ==>
          s.procs[p].wait.On? && s.procs[p].wait.pid in s.procs)
  }

  // What a process waits for cannot be there already
  ghost predicate NothingToReceive(s: State, p: Pid, from: Peer)
    requires p in s.procs
  {
    match from
    case NoWait => false
    case All => s.procs[p].queue == [] && !s.procs[p].hasIntr
    case Intr => !s.procs[p].hasIntr
    case On(x) => x in s.procs && !SendingTo(s, x, p)
  }

  // What a process was woken for is still there
  ghost predicate SomethingToReceive(s: State, p: Pid, from: Peer)
    requires p in s.procs
  {
    match from
    case NoWait => false
    case All => s.procs[p].queue != [] || s.procs[p].hasIntr
    case Intr => s.procs[p].hasIntr
    case On(x) => SendingTo(s, x, p)
  }

  ghost predicate WaitsRightly(s: State, p: Pid)
    requires p in s.procs
  {
    var pr := s.procs[p];
    match pr.state
    case Sending => pr.resume.AfterSend? && pr.msg.src == p
    case Receiving => pr.resume == InRecv(pr.wait) && NothingToReceive(s, p, pr.wait)
    case Stopped => pr.resume == User
    case _ =>
      && (pr.resume.InRecv? ==> SomethingToReceive(s, p, pr.resume.from))
      && (pr.resume.AfterSend? ==> pr.wait.On? && pr.wait.pid in s.procs)
  }

  // The list holds every process once; the CPU belongs to at most one of them
  ghost predicate Scheduled(s: State) {
    && Distinct(s.head)
    && (forall p :: p in s.head <==> p in s.procs)
    && (s.current.Some? ==> s.current.value in s.procs)
    && (forall p :: p in s.procs ==> (s.procs[p].state == Running <==> s.current == Some(p)))
  }

  ghost predicate Inv(s: State) {
    QueuesMatch(s) && Scheduled(s) && forall p {:trigger WaitsRightly(s, p)} :: p in s.procs ==> WaitsRightly(s, p)
  }
}
