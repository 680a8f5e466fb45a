/**
 The kernel object: the process table and the process list, changed in place by schedule, do_send
 and do_recv. Each method is the code of one segment and is proved to be a step of module Kernel.
 */
module KernelMachine {
  import opened LinkedLists
  import opened Kernel
  import opened KernelInv

  class Machine {
    var procs: map<Pid, Proc>
    var head: seq<Pid>
    var current: Option<Pid>
    ghost var log: seq<Event>

    ghost function View(): State
      reads this
    {
      State(procs, head, current, log)
    }

    ghost predicate Valid()
      reads this
    {
      Inv(View())
    }

    // proc_init, once the server processes have been loaded
    constructor (pids: seq<Pid>)
      requires Distinct(pids)
      ensures Valid()
      ensures head == pids && current == None && log == []
      ensures forall p :: p in procs <==> p in pids
    {
      procs := map p | p in pids :: Proc(Runnable, NoWait, false, [], NoMessage, NoMessage, User);
      head, current, log := pids, None, [];
      new;
      assert forall p: Pid, q: Pid :: !SendingTo(View(), p, q);
    }

    // The first half of schedule: the caller goes to the tail of the list
    method YieldCpu()
      requires current.Some? ==> current.value in procs
      modifies this`procs, this`head
      ensures View() == Yielded(old(View()))
    {
      if current.Some? {
        var prev := current.value;
        if procs[prev].state == Running {
          procs := procs[prev := procs[prev].(state := Runnable)];
        }
        Unlink(prev);
        head := head + [prev];
      }
    }

    // The second half of schedule: the first runnable process of the list gets the CPU
    method PickNext()
      requires forall p :: p in head ==> p in procs
      modifies this`procs, this`current
      ensures View() == Picked(old(View()))
    {
      var j := 0;
      while j < |head| && procs[head[j]].state != Runnable
        invariant 0 <= j <= |head|
        invariant FirstRunnable(procs, head) == FirstRunnable(procs, head[j..])
      {
        j := j + 1;
      }
      if j < |head| {
        var next := head[j];
        procs := procs[next := procs[next].(state := Running)];
        current := Some(next);
      } else {
        current := None;
      }
    }

    method ScheduleNext()
      requires Core(View()) && Listed(View())
      modifies this`procs, this`head, this`current
      ensures View() == Schedule(old(View())) && Valid()
    {
      ScheduleInv(View());
      YieldedCore(View());
      YieldCpu();
      PickNext();
    }

    // list_del on the process list
    method Unlink(p: Pid)
      modifies this`head
      ensures head == Remove(old(head), p)
    {
      var j := 0;
      while j < |head| && head[j] != p
        invariant 0 <= j <= |head|
        invariant Remove(head, p) == head[..j] + Remove(head[j..], p)
      {
        assert head[..j + 1] == head[..j] + [head[j]];
        j := j + 1;
      }
      if j < |head| {
        assert Remove(head[j..], p) == head[j + 1..];
        head := head[..j] + head[j + 1..];
      }
    }

    // do_send for an ordinary message, up to schedule()
    method EnqueueSender(p: Pid, to: Pid, m: Message, andRecv: bool)
      requires p in procs && to in procs
      modifies this`procs, this`log
      ensures View() == Enqueued(old(View()), p, to, m, andRecv)
    {
      procs := procs[p := procs[p].(msg := m, buf := m, wait := On(to), state := Sending,
                                    resume := AfterSend(andRecv))];
      var dest := procs[to];
      dest := dest.(queue := dest.queue + [p]);
      if dest.state == Receiving && (dest.wait == On(p) || dest.wait == All) {
        dest := dest.(state := Runnable);
      }
      procs := procs[to := dest];
      log := log + [Sent(p, to, m)];
    }

    // do_send called from user mode; with andRecv, the first half of do_sendrecv
    method DoSend(to: Pid, m: Message, andRecv: bool)
      requires Valid() && InUser(View()) && to in procs
      modifies this
      ensures Valid()
      ensures View() == Step(old(View()), if andRecv then SendRecv(to, m) else Send(to, m))
    {
      var p := current.value;
      EnqueuedCore(View(), p, to, m.(src := p), andRecv);
      EnqueueSender(p, to, m.(src := p), andRecv);
      ScheduleNext();
    }

    method LatchInterrupt(d: Pid)
      requires d in procs
      modifies this`procs
      ensures View() == Interrupted(old(View()), d)
    {
      procs := procs[d := procs[d].(hasIntr := true)];
      if procs[d].state == Receiving && (procs[d].wait == Intr || procs[d].wait == All) {
        procs := procs[d := procs[d].(state := Runnable)];
      }
    }

    // do_send with the interrupt source, called from the interrupt handler
    method DoSendIntr(d: Pid)
      requires Valid() && d in procs
      modifies this`procs
      ensures Valid() && View() == Step(old(View()), Interrupt(d))
    {
      InterruptedInv(View(), d);
      LatchInterrupt(d);
    }

    // The end of do_recv with a message
    method CopyMessage(p: Pid, src: Pid)
      requires p in procs && src in procs && p != src && procs[src].state == Sending
      modifies this`procs, this`log
      ensures View() == Received(old(View()), p, src)
    {
      var m := procs[src].msg;
      log := log + [Delivered(src, p, m)];
      procs := procs[p := procs[p].(queue := Remove(procs[p].queue, src), buf := m, wait := NoWait, resume := User)];
      procs := procs[src := procs[src].(state := Runnable)];
    }

    // The end of do_recv with an interrupt
    method TakeInterrupt(p: Pid)
      requires p in procs
      modifies this`procs, this`log
      ensures View() == TookIntr(old(View()), p)
    {
      procs := procs[p := procs[p].(hasIntr := false, resume := User)];
      procs := procs[p := procs[p].(buf := IntrMessage(procs[p].buf))];
      log := log + [IntrTaken(p)];
    }

    // do_recv up to its return or its first schedule(), also entered at the label recv_all
    method RecvSegment(from: Peer) returns (blocked: bool)
      requires Valid() && current.Some? && from != NoWait && (from.On? ==> from.pid in procs)
      modifies this`procs, this`log
      ensures var g := Receive(old(View()), old(current.value), from); View() == g.after && blocked == g.Yield?
    {
      var p := current.value;
      assert procs[p].state == Running;
      if from == All {
        if procs[p].hasIntr {
          TakeInterrupt(p);
          return false;
        }
        if procs[p].queue != [] {
          assert procs[p].queue[0] in procs[p].queue;
          assert SendingTo(View(), procs[p].queue[0], p);
          CopyMessage(p, procs[p].queue[0]);
          return false;
        }
      } else if from == Intr {
        if procs[p].hasIntr {
          TakeInterrupt(p);
          return false;
        }
      } else if procs[from.pid].state == Sending && procs[from.pid].wait == On(p) {
        CopyMessage(p, from.pid);
        return false;
      }
      procs := procs[p := procs[p].(wait := from, resume := InRecv(from))];
      procs := procs[p := procs[p].(state := Receiving)];
      return true;
    }

    // do_recv called from user mode
    method DoRecv(from: Peer, m: Message)
      requires Valid() && Enabled(View(), Recv(from, m))
      modifies this
      ensures Valid() && View() == Step(old(View()), Recv(from, m))
    {
      CodeOk(View(), Recv(from, m));
      var p := current.value;
      CallerOnly(View(), Buffered(View(), p, m), p);
      procs := procs[p := procs[p].(buf := m.(src := p))];
      var blocked := RecvSegment(from);
      if blocked {
        ScheduleNext();
      }
    }

    // What follows schedule() in do_send, do_sendrecv and do_recv
    method ContinueCall()
      requires Valid() && Enabled(View(), Continue)
      modifies this
      ensures Valid() && View() == Step(old(View()), Continue)
    {
      CodeOk(View(), Continue);
      var p := current.value;
      assert WaitsRightly(View(), p);
      var blocked := false;
      match procs[p].resume {
        case AfterSend(andRecv) =>
          if andRecv {
            blocked := RecvSegment(procs[p].wait);
          } else {
            procs := procs[p := procs[p].(resume := User)];
          }
        case InRecv(from) =>
          if from == All {
            blocked := RecvSegment(All);
          } else if from == Intr {
            TakeInterrupt(p);
          } else {
            CopyMessage(p, from.pid);
          }
      }
      if blocked {
        ScheduleNext();
      }
    }
  }
}
