/**
 The decrement-byte spinlock under arbitrary interleaving of its atomic instructions. A CPU that
 finds the decremented byte negative spins until it reads a positive byte and tries again. The byte
 has eight bits, so the number of CPUs for which the lock is safe is finite, and exactly 129.
 */
module Spinlock {

  datatype Pc = Out | AtDec | Spinning | Holding

  // The lock byte as a signed value, and where each CPU is
  datatype State = State(lock: int, pc: seq<Pc>)

  datatype Action =
    | Begin(cpu: nat)      // enter __spin_lock
    | Decrement(cpu: nat)  // lock decb; jns
    | Poll(cpu: nat)       // cmpb $0; jle
    | TryLock(cpu: nat)    // xchgb with zero
    | Unlock(cpu: nat)     // movb $1

  function Wrap8(x: int): (r: int)
    ensures -128 <= r < 128
  {
    (x + 128) % 256 - 128
  }

  function Init(n: nat): State {
    State(1, seq(n, _ => Out))
  }

  predicate Enabled(s: State, a: Action) {
    && a.cpu < |s.pc|
    && match a
       case Begin(c) => s.pc[c] == Out
       case Decrement(c) => s.pc[c] == AtDec
       case Poll(c) => s.pc[c] == Spinning
       case TryLock(c) => s.pc[c] == Out
       case Unlock(c) => s.pc[c] == Holding
  }

  function Step(s: State, a: Action): (t: State)
    requires Enabled(s, a)
    ensures |t.pc| == |s.pc|
  {
    match a
    case Begin(c) => s.(pc := s.pc[c := AtDec])
    case Decrement(c) =>
      var v := Wrap8(s.lock - 1);
      State(v, s.pc[c := if v >= 0 then Holding else Spinning])
    case Poll(c) => if s.lock > 0 then s.(pc := s.pc[c := AtDec]) else s
    case TryLock(c) => State(0, s.pc[c := if s.lock > 0 then Holding else Out])
    case Unlock(c) => State(1, s.pc[c := Out])
  }

  predicate ValidRun(s: State, acts: seq<Action>)
    decreases |acts|
  {
    acts == [] || (Enabled(s, acts[0]) && ValidRun(Step(s, acts[0]), acts[1..]))
  }

  function Run(s: State, acts: seq<Action>): State
    requires ValidRun(s, acts)
    decreases |acts|
  {
    if acts == [] then s else Run(Step(s, acts[0]), acts[1..])
  }

  // ----- counting CPUs -----

  function Count(pc: seq<Pc>, v: Pc): nat {
    if pc == [] then 0 else (if pc[0] == v then 1 else 0) + Count(pc[1..], v)
  }

  lemma {:induction false} CountUpdate(pc: seq<Pc>, c: nat, v: Pc, w: Pc)
    requires c < |pc|
    ensures Count(pc[c := v], w) == Count(pc, w) - (if pc[c] == w then 1 else 0) + (if v == w then 1 else 0)
  {
    if c == 0 {
      assert pc[0 := v][1..] == pc[1..];
    } else {
      assert pc[c := v][1..] == pc[1..][c - 1 := v];
      CountUpdate(pc[1..], c - 1, v, w);
    }
  }

  // Different places are taken by different CPUs
  lemma {:induction false} CountsFit(pc: seq<Pc>)
    ensures Count(pc, Spinning) + Count(pc, Holding) + Count(pc, AtDec) <= |pc|
  {
    if pc != [] {
      CountsFit(pc[1..]);
    }
  }

  lemma {:induction false} CountPositive(pc: seq<Pc>, c: nat)
    requires c < |pc|
    ensures Count(pc, pc[c]) >= 1
  {
    if c > 0 {
      CountPositive(pc[1..], c - 1);
    }
  }

  // ----- safety -----

  // The byte is one exactly when the lock is free; while it is held, every unit below zero is a spinning CPU
  predicate Inv(s: State) {
    && Count(s.pc, Holding) <= 1
    && (Count(s.pc, Holding) == 0 ==> s.lock == 1)
    && (Count(s.pc, Holding) == 1 ==> 0 - Count(s.pc, Spinning) <= s.lock <= 0)
  }

  const MAX_CPUS := 129

  lemma StepInv(s: State, a: Action)
    requires Inv(s) && Enabled(s, a) && |s.pc| <= MAX_CPUS
    ensures Inv(Step(s, a))
  {
    var c := a.cpu;
    CountsFit(s.pc);
    CountPositive(s.pc, c);
    var t := Step(s, a);
    CountUpdate(s.pc, c, t.pc[c], Holding);
    CountUpdate(s.pc, c, t.pc[c], Spinning);
    if a.Poll? && s.lock <= 0 {
      assert s.pc[c := Spinning] == s.pc;
    }
  }

  lemma {:induction false} RunInv(s: State, acts: seq<Action>)
    requires Inv(s) && ValidRun(s, acts) && |s.pc| <= MAX_CPUS
    ensures Inv(Run(s, acts)) && |Run(s, acts).pc| == |s.pc|
    decreases |acts|
  {
    if acts != [] {
      StepInv(s, acts[0]);
      RunInv(Step(s, acts[0]), acts[1..]);
    }
  }

  lemma {:induction false} InitCounts(n: nat)
    ensures Count(Init(n).pc, Holding) == 0
  {
    if n > 0 {
      assert Init(n).pc[1..] == Init(n - 1).pc;
      InitCounts(n - 1);
    }
  }

  // In every state of every run of at most 129 CPUs: one holder at most, the byte is one exactly
  // when there is none, and it never falls below one less than the number of CPUs, negated
  lemma MutualExclusion(n: nat, acts: seq<Action>)
    requires n <= MAX_CPUS && ValidRun(Init(n), acts)
    ensures var s := Run(Init(n), acts);
            && Count(s.pc, Holding) <= 1
            && (s.lock == 1 <==> Count(s.pc, Holding) == 0)
            && (n > 0 ==> s.lock >= -(n - 1))
  {
    InitCounts(n);
    RunInv(Init(n), acts);
    CountsFit(Run(Init(n), acts).pc);
  }

  // An attempt gets the lock exactly when nobody holds it, and takes it from nobody
  lemma AcquiresExactly(n: nat, acts: seq<Action>, a: Action)
    requires n <= MAX_CPUS && ValidRun(Init(n), acts) && Enabled(Run(Init(n), acts), a) && (a.Decrement? || a.TryLock?)
    ensures var s := Run(Init(n), acts);
            var t := Step(s, a);
            && (t.pc[a.cpu] == Holding <==> Count(s.pc, Holding) == 0)
            && forall c :: 0 <= c < |s.pc| && c != a.cpu ==> t.pc[c] == s.pc[c]
  {
    InitCounts(n);
    RunInv(Init(n), acts);
    var s := Run(Init(n), acts);
    CountsFit(s.pc);
    CountPositive(s.pc, a.cpu);
  }

  // A CPU that spins tries again exactly when the lock is free, and a release frees it
  lemma SpinsExactly(n: nat, acts: seq<Action>, a: Action)
    requires n <= MAX_CPUS && ValidRun(Init(n), acts) && Enabled(Run(Init(n), acts), a) && (a.Poll? || a.Unlock?)
    ensures var s := Run(Init(n), acts);
            var t := Step(s, a);
            && (a.Poll? ==> (t.pc[a.cpu] == AtDec <==> Count(s.pc, Holding) == 0) && t.lock == s.lock)
            && (a.Unlock? ==> Count(t.pc, Holding) == 0 && t.pc[a.cpu] == Out)
  {
    InitCounts(n);
    RunInv(Init(n), acts);
    var s := Run(Init(n), acts);
    CountPositive(s.pc, a.cpu);
    CountUpdate(s.pc, a.cpu, Out, Holding);
  }

  // ----- and why 129 is the limit -----

  // CPU 0 holds the lock, CPUs 1 to k spin, the others are out
  predicate Crowded(s: State, n: nat, k: nat) {
    && |s.pc| == n && k < n && s.lock == 0 - k && s.pc[0] == Holding
    && forall i :: 1 <= i < n ==> s.pc[i] == if i <= k then Spinning else Out
  }

  lemma {:induction false} CrowdedReachable(n: nat, k: nat) returns (acts: seq<Action>)
    requires k < n && k <= 128
    ensures ValidRun(Init(n), acts) && Crowded(Run(Init(n), acts), n, k)
  {
    if k == 0 {
      acts := [Begin(0), Decrement(0)];
      RunTwo(Init(n), 0);
    } else {
      var before := CrowdedReachable(n, k - 1);
      acts := before + [Begin(k), Decrement(k)];
      var s := Run(Init(n), before);
      RunTwo(s, k);
      RunAppend(Init(n), before, [Begin(k), Decrement(k)]);
    }
  }

  // One CPU enters and decrements
  lemma RunTwo(s: State, c: nat)
    requires c < |s.pc| && s.pc[c] == Out
    ensures var acts := [Begin(c), Decrement(c)];
            && ValidRun(s, acts)
            && Run(s, acts) == State(Wrap8(s.lock - 1), s.pc[c := if Wrap8(s.lock - 1) >= 0 then Holding else Spinning])
  {
    var acts := [Begin(c), Decrement(c)];
    var mid := Step(s, Begin(c));
    assert s.pc[c := AtDec][c := Holding] == s.pc[c := Holding];
    assert s.pc[c := AtDec][c := Spinning] == s.pc[c := Spinning];
    assert acts[1..] == [Decrement(c)] && acts[1..][1..] == [];
    assert Run(mid, acts[1..]) == Run(Step(mid, Decrement(c)), acts[1..][1..]);
  }

  lemma {:induction false} RunAppend(s: State, a: seq<Action>, b: seq<Action>)
    requires ValidRun(s, a) && ValidRun(Run(s, a), b)
    ensures ValidRun(s, a + b) && Run(s, a + b) == Run(Run(s, a), b)
    decreases |a|
  {
    if a == [] {
      assert a + b == b;
    } else {
      assert (a + b)[1..] == a[1..] + b;
      RunAppend(Step(s, a[0]), a[1..], b);
    }
  }

  // With 130 CPUs the 129th waiter wraps the byte to a positive value and gets in
  lemma TwoHolders(n: nat) returns (acts: seq<Action>)
    requires n > MAX_CPUS
    ensures ValidRun(Init(n), acts) && Count(Run(Init(n), acts).pc, Holding) >= 2
  {
    var before := CrowdedReachable(n, 128);
    var s := Run(Init(n), before);
    RunTwo(s, 129);
    RunAppend(Init(n), before, [Begin(129), Decrement(129)]);
    acts := before + [Begin(129), Decrement(129)];
    CountPositive(s.pc, 0);
    CountUpdate(s.pc, 129, Holding, Holding);
  }

  ghost predicate Safe(n: nat) {
    forall acts: seq<Action> :: ValidRun(Init(n), acts) ==> Count(Run(Init(n), acts).pc, Holding) <= 1
  }

  // The lock excludes in all interleavings exactly when there are at most 129 CPUs
  lemma SafeExactly(n: nat)
    ensures Safe(n) <==> n <= MAX_CPUS
  {
    if n <= MAX_CPUS {
      forall acts: seq<Action> | ValidRun(Init(n), acts) ensures Count(Run(Init(n), acts).pc, Holding) <= 1 {
        MutualExclusion(n, acts);
      }
    } else {
      var acts := TwoHolders(n);
    }
  }
}
