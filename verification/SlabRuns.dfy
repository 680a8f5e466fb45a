/**
 Whole histories of one slab cache. As long as no free sets off the release loop, the cache agrees
 with a client that only remembers what it was given and what it gave back. For every layout there
 is a history that does set it off.
 */
module SlabRuns {
  import opened LinkedLists
  import opened SlabLayout
  import opened Slab
  import opened SlabInv

  // page is what the page allocator would answer
  datatype Op = Alloc(page: Option<nat>) | Free(addr: nat)

  // The cache just before kmem_cache_create grows it for the first time
  function Bare(): State {
    State(map[], [], [], [], 0, 0, {})
  }

  ghost predicate Allowed(l: Layout, s: State, op: Op) {
    && Inv(l, s)
    && match op
       case Alloc(page) => page.Some? && s.partial == [] && s.empty == [] ==> Fresh(l, s, page.value)
       case Free(addr) => addr in Live(l, s)
  }

  ghost predicate Calm(l: Layout, s: State, op: Op) {
    Allowed(l, s, op) && (op.Free? ==> !Overflows(l, s, op.addr))
  }

  ghost function Step(l: Layout, s: State, op: Op): State
    requires Allowed(l, s, op)
  {
    match op
    case Alloc(page) => Alloced(l, s, page).1
    case Free(addr) => Freed(l, s, addr)
  }

  ghost predicate CalmRun(l: Layout, s: State, ops: seq<Op>)
    decreases |ops|
  {
    ops == [] || (Calm(l, s, ops[0]) && CalmRun(l, Step(l, s, ops[0]), ops[1..]))
  }

  ghost function Run(l: Layout, s: State, ops: seq<Op>): State
    requires CalmRun(l, s, ops)
    decreases |ops|
  {
    if ops == [] then s else Run(l, Step(l, s, ops[0]), ops[1..])
  }

  // What a client that starts with held believes it holds afterwards
  ghost function Held(l: Layout, s: State, held: set<nat>, ops: seq<Op>): set<nat>
    requires CalmRun(l, s, ops)
    decreases |ops|
  {
    if ops == [] then held
    else
      var next := match ops[0]
        case Alloc(page) => (match Alloced(l, s, page).0
                             case Some(a) => held + {a}
                             case None => held)
        case Free(addr) => held - {addr};
      Held(l, Step(l, s, ops[0]), next, ops[1..])
  }

  lemma BareInv(l: Layout)
    requires Fits(l)
    ensures Inv(l, Bare()) && Live(l, Bare()) == {}
  {
  }

  lemma StepInv(l: Layout, s: State, op: Op)
    requires Calm(l, s, op)
    ensures Inv(l, Step(l, s, op))
  {
    match op
    case Alloc(page) => AllocedInv(l, s, page);
    case Free(addr) => FreedInvExactly(l, s, addr);
  }

  // The cache and the client agree after every run
  lemma {:induction false} RunAgrees(l: Layout, s: State, ops: seq<Op>)
    requires Inv(l, s) && CalmRun(l, s, ops)
    ensures Inv(l, Run(l, s, ops))
    ensures Live(l, Run(l, s, ops)) == Held(l, s, Live(l, s), ops)
    decreases |ops|
  {
    if ops != [] {
      StepInv(l, s, ops[0]);
      match ops[0] {
        case Alloc(page) => AllocedInv(l, s, page);
        case Free(addr) => FreedLive(l, s, addr);
      }
      RunAgrees(l, Step(l, s, ops[0]), ops[1..]);
    }
  }

  // An object, from its first to its last byte, is inside the pages of a slab that the cache owns,
  // behind that slab's header and array
  ghost predicate Inside(l: Layout, s: State, a: nat) {
    exists b :: b in s.owned && b + SLAB_HEADER + 2 * (l.num + 1) <= a && a + l.size <= b + Bytes(l.order)
  }

  lemma LiveInside(l: Layout, s: State, a: nat)
    requires Inv(l, s) && a in Live(l, s)
    ensures Inside(l, s, a)
  {
    var (b, i) := Locate(l, s, a);
    ObjectInside(l, b, i);
  }

  lemma LiveApart(l: Layout, s: State, a: nat, c: nat)
    requires Inv(l, s) && a in Live(l, s) && c in Live(l, s) && a != c
    ensures a + l.size <= c || c + l.size <= a
  {
    var (b, i) := Locate(l, s, a);
    var (d, j) := Locate(l, s, c);
    assert b != d ==> Apart(l, b, d);
    ObjectsApart(l, b, i, d, j);
  }

  // After any run, an allocation never returns memory that the client holds
  lemma AllocNeverOverlaps(l: Layout, ops: seq<Op>, page: Option<nat>)
    requires Fits(l) && CalmRun(l, Bare(), ops)
    requires Calm(l, Run(l, Bare(), ops), Alloc(page))
    ensures var s := Run(l, Bare(), ops);
            var held := Held(l, Bare(), {}, ops);
            var (r, t) := Alloced(l, s, page);
            && (r.None? ==> page.None? && t == s)
            && (r.Some? ==> Inside(l, t, r.value))
            && (r.Some? ==> forall c :: c in held ==> r.value + l.size <= c || c + l.size <= r.value)
  {
    BareInv(l);
    RunAgrees(l, Bare(), ops);
    var s := Run(l, Bare(), ops);
    AllocedInv(l, s, page);
    var (r, t) := Alloced(l, s, page);
    if r.Some? {
      LiveInside(l, t, r.value);
      forall c | c in Live(l, s) ensures r.value + l.size <= c || c + l.size <= r.value {
        LiveApart(l, t, r.value, c);
      }
    }
  }

  // ----- freeing what was just allocated -----

  // Free undoes alloc exactly when the allocation neither filled its slab nor grew the cache: a slab
  // that was full stays on the full list until its last object comes back, and a new slab stays
  lemma AllocThenFree(l: Layout, s: State, page: Option<nat>)
    requires Allowed(l, s, Alloc(page))
    ensures var (r, t) := Alloced(l, s, page);
            && Inv(l, t)
            && (r.Some? ==>
                  && r.value in Live(l, t)
                  && (Freed(l, t, r.value) == s <==> Undoable(l, s))
                  && (s.partial == [] && s.empty == [] ==> Freed(l, t, r.value) == Grown(l, s, page.value)))
  {
    AllocedInv(l, s, page);
    if s.partial != [] || s.empty != [] {
      TakeThenFree(l, s);
    } else if page.Some? {
      GrownInv(l, s, page.value);
      TakeThenFree(l, Grown(l, s, page.value));
    }
  }

  // The allocation leaves room in a slab that was there before
  predicate Undoable(l: Layout, s: State) {
    if s.partial != [] then s.partial[0] in s.slabs && s.slabs[s.partial[0]].inuse + 1 < l.num else s.empty != []
  }

  lemma TakeThenFree(l: Layout, s: State)
    requires Inv(l, s) && (s.partial != [] || s.empty != [])
    ensures Taken(l, s).Some?
    ensures var (a, t) := Taken(l, s).value;
            Inv(l, t) && a in Live(l, t) && (Freed(l, t, a) == s <==> Undoable(l, s))
  {
    TakenInv(l, s);
    var (a, t) := Taken(l, s).value;
    var b := if s.partial != [] then s.partial[0] else s.empty[0];
    var i := TakenSlot(l, s);
    LocateUnique(l, t, b, i);
    UndoAt(l, s, t, b, i);
  }

  // An allocation that fills its slab is met in every cache
  lemma FillReachable(l: Layout) returns (ops: seq<Op>)
    requires Fits(l)
    ensures CalmRun(l, Bare(), ops)
    ensures var s := Run(l, Bare(), ops);
            && Allowed(l, s, Alloc(None)) && s.partial != []
            && var (r, t) := Alloced(l, s, None);
               Inv(l, t) && r.Some? && r.value in Live(l, t) && Freed(l, t, r.value) != s
  {
    BareInv(l);
    var first := Alloc(Some(0));
    StepInv(l, Bare(), first);
    var s := Step(l, Bare(), first);
    NewHeaderOk(l);
    var rest := FillUp(l, s);
    ops := [first] + rest;
    assert ops[1..] == rest;
    AllocedInv(l, Run(l, Bare(), ops), None);
    AllocThenFree(l, Run(l, Bare(), ops), None);
  }

  lemma {:induction false} FillUp(l: Layout, s: State) returns (ops: seq<Op>)
    requires Inv(l, s) && s.partial != []
    ensures CalmRun(l, s, ops)
    ensures var t := Run(l, s, ops); Inv(l, t) && t.partial != [] && !Undoable(l, t)
    decreases Room(l, s)
  {
    ops := [];
    if Undoable(l, s) {
      var op := Alloc(None);
      StepInv(l, s, op);
      assert s.partial[0] in s.partial;
      assert SlabOk(l, s, s.partial[0]);
      var rest := FillUp(l, Step(l, s, op));
      ops := [op] + rest;
      assert ops[1..] == rest;
    }
  }

  // An allocation that grows the cache: the first one of all
  lemma GrowthStays(l: Layout)
    requires Fits(l)
    ensures var (r, t) := Alloced(l, Bare(), Some(0));
            Inv(l, t) && r.Some? && r.value in Live(l, t) && Freed(l, t, r.value) != Bare()
  {
    BareInv(l);
    AllocedInv(l, Bare(), Some(0));
    AllocThenFree(l, Bare(), Some(0));
  }

  // ----- a slab that was once full -----

  // The objects of a slab that are handed out
  ghost function InUse(l: Layout, s: State, b: nat): set<nat>
    requires b in s.slabs
  {
    set i | 0 <= i < l.num && i !in Stack(s.slabs[b])
  }

  // The slab gets empty at no point of the run
  ghost predicate NeverEmpty(l: Layout, s: State, ops: seq<Op>, b: nat)
    requires CalmRun(l, s, ops)
    decreases |ops|
  {
    b !in s.empty && (ops == [] || NeverEmpty(l, Step(l, s, ops[0]), ops[1..], b))
  }

  // A slab on the full list stays there, and gives out no object, until it is empty
  lemma {:induction false} OnceFull(l: Layout, s: State, ops: seq<Op>, b: nat)
    requires Inv(l, s) && CalmRun(l, s, ops) && b in s.full && NeverEmpty(l, s, ops, b)
    ensures var t := Run(l, s, ops); b in t.full && b in s.slabs && b in t.slabs && InUse(l, t, b) <= InUse(l, s, b)
    decreases |ops|
  {
    assert SlabOk(l, s, b);
    if ops != [] {
      StepInv(l, s, ops[0]);
      StepFull(l, s, ops[0], b);
      OnceFull(l, Step(l, s, ops[0]), ops[1..], b);
    }
  }

  // One step moves a full slab only onto the empty list, and allocates nothing from it
  lemma StepFull(l: Layout, s: State, op: Op, b: nat)
    requires Calm(l, s, op) && b in s.full
    ensures var t := Step(l, s, op);
            && b in s.slabs && b in t.slabs && (b in t.full <==> b !in t.empty)
            && (b in t.full ==> InUse(l, t, b) <= InUse(l, s, b))
  {
    StepInv(l, s, op);
    match op
    case Alloc(page) => AllocPasses(l, s, page, b);
    case Free(addr) => FreePasses(l, s, addr, b);
  }

  lemma AllocPasses(l: Layout, s: State, page: Option<nat>, b: nat)
    requires Allowed(l, s, Alloc(page)) && b in s.full
    ensures var t := Alloced(l, s, page).1;
            b in s.slabs && b in t.slabs && b in t.full && b !in t.empty && t.slabs[b] == s.slabs[b]
  {
    TakenInv(l, s);
    if s.partial == [] && s.empty == [] && page.Some? {
      assert b in s.slabs && Apart(l, b, page.value);
      GrownInv(l, s, page.value);
      TakenInv(l, Grown(l, s, page.value));
    } else if s.partial != [] {
      assert s.partial[0] in s.partial;
    } else if s.empty != [] {
      assert s.empty[0] in s.empty;
    }
  }

  lemma FreePasses(l: Layout, s: State, addr: nat, b: nat)
    requires Calm(l, s, Free(addr)) && b in s.full
    ensures var t := Freed(l, s, addr);
            && b in s.slabs && b in t.slabs && (b in t.full <==> b !in t.empty)
            && InUse(l, t, b) <= InUse(l, s, b)
  {
    var (c, i) := Locate(l, s, addr);
    ReturnedInv(l, s, c, i);
    ReleasedOne(Returned(s, c, i));
    assert SlabOk(l, s, b) && SlabOk(l, s, c);
    PoppedOk(l, s.slabs[c], i);
    RemoveDistinct(s.full, c);
  }

  // The slot that an allocation takes
  lemma TakenSlot(l: Layout, s: State) returns (i: nat)
    requires Inv(l, s) && (s.partial != [] || s.empty != [])
    ensures Taken(l, s).Some?
    ensures var (a, t) := Taken(l, s).value;
            var b := if s.partial != [] then s.partial[0] else s.empty[0];
            && a == Object(l, b, i) && LiveSlot(l, t, b, i) && b in s.slabs
            && i == s.slabs[b].bufctl[s.slabs[b].free]
            && t.slabs == s.slabs[b := Pushed(s.slabs[b])]
  {
    var b := if s.partial != [] then s.partial[0] else s.empty[0];
    assert b in s.partial || b in s.empty;
    assert SlabOk(l, s, b);
    PushedOk(l, s.slabs[b]);
    i := s.slabs[b].bufctl[s.slabs[b].free];
  }

  lemma LocateUnique(l: Layout, s: State, b: nat, i: nat)
    requires Inv(l, s) && LiveSlot(l, s, b, i)
    ensures Object(l, b, i) in Live(l, s) && Locate(l, s, Object(l, b, i)) == (b, i)
  {
    assert Object(l, b, i) in Live(l, s);
    var (c, j) := Locate(l, s, Object(l, b, i));
    assert c != b ==> Apart(l, b, c);
    SameObject(l, b, i, c, j);
  }

  lemma UndoAt(l: Layout, s: State, t: State, b: nat, i: nat)
    requires Inv(l, s) && (s.partial != [] || s.empty != [])
    requires b == if s.partial != [] then s.partial[0] else s.empty[0]
    requires Taken(l, s).Some? && t == Taken(l, s).value.1
    requires Inv(l, t) && LiveSlot(l, t, b, i) && b in s.slabs
    requires s.slabs[b].free < |s.slabs[b].bufctl| && i == s.slabs[b].bufctl[s.slabs[b].free]
    requires t.slabs == s.slabs[b := Pushed(s.slabs[b])]
    ensures FreedAt(l, t, b, i) == s <==> Undoable(l, s)
  {
    LiveSlab(l, t, b, i);
    PopsBack(s.slabs, b);
    UndoLists(l, s, t, b, i);
    assert Released(Returned(t, b, i)) == Returned(t, b, i);
  }

  lemma PopsBack(slabs: map<nat, Header>, b: nat)
    requires b in slabs && slabs[b].free < |slabs[b].bufctl|
    ensures var h := slabs[b];
            slabs[b := Pushed(h)][b := Popped(Pushed(h), h.bufctl[h.free])] == slabs
  {
    assert Popped(Pushed(slabs[b]), slabs[b].bufctl[slabs[b].free]) == slabs[b];
  }

  lemma UndoLists(l: Layout, s: State, t: State, b: nat, i: nat)
    requires Inv(l, s) && (s.partial != [] || s.empty != [])
    requires b == if s.partial != [] then s.partial[0] else s.empty[0]
    requires Taken(l, s).Some? && t == Taken(l, s).value.1
    requires CanReturn(t, b) && Returned(t, b, i).slabs == s.slabs
    ensures Returned(t, b, i) == s <==> Undoable(l, s)
    ensures Returned(t, b, i).freeSlab <= s.freeSlab
  {
    assert b in s.partial || b in s.empty;
    assert SlabOk(l, s, b);
    if s.partial == [] {
      assert b !in s.full;
      RemoveAbsent(s.full, b);
      assert [b] + s.empty[1..] == s.empty;
    } else if s.slabs[b].inuse + 1 == l.num {
      assert |Returned(t, b, i).partial| < |s.partial|;
    }
  }

  // ----- the release loop is reachable in every cache -----

  lemma {:induction false} ElementsAtMost(s: seq<nat>, elements: set<nat>)
    requires forall x :: x in elements ==> x in s
    ensures |elements| <= |s|
    decreases |s|
  {
    if s == [] {
      assert elements == {};
    } else {
      assert s == [s[0]] + s[1..];
      ElementsAtMost(s[1..], elements - {s[0]});
    }
  }

  ghost function Numbers(n: nat): (r: set<nat>)
    ensures |r| == n && forall k :: k in r <==> 0 <= k < n
  {
    if n == 0 then {} else Numbers(n - 1) + {n - 1}
  }

  lemma MissingIndex(s: seq<nat>, n: nat) returns (i: nat)
    requires |s| < n
    ensures i < n && i !in s
  {
    if forall k :: k in Numbers(n) ==> k in s {
      ElementsAtMost(s, Numbers(n));
    }
    i :| i in Numbers(n) && i !in s;
  }

  lemma {:induction false} FreshPage(l: Layout, owned: set<nat>) returns (page: nat)
    ensures forall b :: b in owned ==> b + Bytes(l.order) <= page
    decreases |owned|
  {
    page := 0;
    if owned != {} {
      var b :| b in owned;
      page := FreshPage(l, owned - {b});
      assert forall c :: c in owned ==> c == b || c in owned - {b};
      if page < b + Bytes(l.order) {
        page := b + Bytes(l.order);
      }
    }
  }

  // The room that is left before the cache must grow, first things first
  ghost function Room(l: Layout, s: State): nat
    requires Inv(l, s)
  {
    if s.partial == [] then 0
    else
      assert s.partial[0] in s.partial;
      assert SlabOk(l, s, s.partial[0]);
      l.num - s.slabs[s.partial[0]].inuse
  }

  lemma {:induction false} GrowTo(l: Layout, s: State, goal: nat) returns (ops: seq<Op>)
    requires Inv(l, s)
    ensures CalmRun(l, s, ops) && Inv(l, Run(l, s, ops)) && Run(l, s, ops).totalSlab >= goal
    decreases if s.totalSlab < goal then goal - s.totalSlab else 0, |s.empty|, |s.partial|, Room(l, s)
  {
    ops := [];
    if s.totalSlab < goal {
      var page := FreshPage(l, s.owned);
      var op := Alloc(Some(page));
      assert Fresh(l, s, page);
      StepInv(l, s, op);
      var t := Step(l, s, op);
      AllocMeasure(l, s, page);
      var rest := GrowTo(l, t, goal);
      ops := [op] + rest;
      assert ops[1..] == rest;
    }
  }

  lemma AllocMeasure(l: Layout, s: State, page: nat)
    requires Inv(l, s) && Fresh(l, s, page) && Inv(l, Alloced(l, s, Some(page)).1)
    ensures var t := Alloced(l, s, Some(page)).1;
            || t.totalSlab == s.totalSlab + 1
            || (t.totalSlab == s.totalSlab && |t.empty| < |s.empty|)
            || (t.totalSlab == s.totalSlab && t.empty == s.empty && |t.partial| < |s.partial|)
            || (t.totalSlab == s.totalSlab && t.empty == s.empty && t.partial == s.partial && Room(l, t) < Room(l, s))
  {
    TakenInv(l, s);
    if s.partial == [] && s.empty == [] {
      GrownInv(l, s, page);
      TakenInv(l, Grown(l, s, page));
    } else if s.partial != [] {
      assert s.partial[0] in s.partial;
      assert SlabOk(l, s, s.partial[0]);
    }
  }

  // A cache with more slabs than may be empty has a live object
  lemma SomeLive(l: Layout, s: State) returns (addr: nat)
    requires Inv(l, s) && s.totalSlab > SLAB_MAX_FREE
    ensures addr in Live(l, s)
  {
    if forall b :: b in s.slabs.Keys ==> b in s.empty {
      ElementsAtMost(s.empty, s.slabs.Keys);
    }
    var b :| b in s.slabs && b !in s.empty;
    assert SlabOk(l, s, b);
    var i := MissingIndex(Stack(s.slabs[b]), l.num);
    addr := Object(l, b, i);
  }

  lemma {:induction false} DrainToOverflow(l: Layout, s: State) returns (ops: seq<Op>, addr: nat)
    requires Inv(l, s) && s.totalSlab > SLAB_MAX_FREE
    ensures CalmRun(l, s, ops)
    ensures var t := Run(l, s, ops); Inv(l, t) && addr in Live(l, t) && Overflows(l, t, addr)
    decreases |Live(l, s)|
  {
    ops := [];
    addr := SomeLive(l, s);
    if !Overflows(l, s, addr) {
      var op := Free(addr);
      StepInv(l, s, op);
      FreedLive(l, s, addr);
      var (b, i) := Locate(l, s, addr);
      LiveSlab(l, s, b, i);
      ReleasedSlabs(Returned(s, b, i));
      var rest, a := DrainToOverflow(l, Step(l, s, op));
      ops, addr := [op] + rest, a;
      assert ops[1..] == rest;
    }
  }

  lemma {:induction false} RunAppend(l: Layout, s: State, a: seq<Op>, b: seq<Op>)
    requires CalmRun(l, s, a) && CalmRun(l, Run(l, s, a), b)
    ensures CalmRun(l, s, a + b) && Run(l, s, a + b) == Run(l, Run(l, s, a), b)
    decreases |a|
  {
    if a == [] {
      assert a + b == b;
    } else {
      var t := RunTail(l, s, a);
      RunAppend(l, t, a[1..], b);
      RunCons(l, s, a[0], t, a[1..] + b);
      ConsAppend(a, b);
    }
  }

  lemma ConsAppend(a: seq<Op>, b: seq<Op>)
    requires a != []
    ensures [a[0]] + (a[1..] + b) == a + b
  {
  }

  ghost predicate Goes(l: Layout, s: State, op: Op, t: State) {
    Calm(l, s, op) && t == Step(l, s, op)
  }

  lemma RunTail(l: Layout, s: State, ops: seq<Op>) returns (t: State)
    requires ops != [] && CalmRun(l, s, ops)
    ensures Goes(l, s, ops[0], t) && CalmRun(l, t, ops[1..]) && Run(l, s, ops) == Run(l, t, ops[1..])
  {
    t := Step(l, s, ops[0]);
  }

  lemma RunCons(l: Layout, s: State, op: Op, t: State, ops: seq<Op>)
    requires Goes(l, s, op, t) && CalmRun(l, t, ops)
    ensures CalmRun(l, s, [op] + ops) && Run(l, s, [op] + ops) == Run(l, t, ops)
  {
    assert ([op] + ops)[1..] == ops;
  }

  // For every layout there is a history of proper allocations and frees after which freeing one
  // more live object leaves a slab on the empty list whose pages were given back
  lemma OverflowReachable(l: Layout) returns (ops: seq<Op>, addr: nat)
    requires Fits(l)
    ensures CalmRun(l, Bare(), ops)
    ensures var s := Run(l, Bare(), ops);
            && Inv(l, s) && addr in Live(l, s)
            && var t := Freed(l, s, addr);
               t.empty != [] && t.empty[0] !in t.owned && !Inv(l, t)
  {
    BareInv(l);
    var grow := GrowTo(l, Bare(), SLAB_MAX_FREE + 1);
    var drain;
    drain, addr := DrainToOverflow(l, Run(l, Bare(), grow));
    RunAppend(l, Bare(), grow, drain);
    ops := grow + drain;
    FreedInvExactly(l, Run(l, Bare(), ops), addr);
  }
}
