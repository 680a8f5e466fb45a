/**
 The buddy page allocator as a state machine whose steps are the lock sections of the kernel's code.
 Pages are named by their index in the page array; the effect of a section on the free lists is a
 function of FreeLists. What is proved here holds after every run of lock sections.
 */
module Buddy {
  import opened Arch
  import opened LinkedLists
  import opened Dyadic
  import opened FreeLists

  // The kernel virtual address of a page
  function Virtual(page: nat): nat {
    KERNEL_OFFSET + page * PAGE_SIZE
  }

  // ----- the state machine -----

  // held gives the order at which each active or detached block was handed out
  datatype State = State(block: Lists, activate: seq<nat>, held: map<nat, nat>, flight: set<nat>)

  // One lock section: __alloc_pages, the search in free_pages, and __free_pages
  datatype Op = Get(order: nat) | Detach(page: nat) | Return(page: nat)

  ghost predicate Enabled(s: State, op: Op) {
    op.Return? ==> op.page in s.flight && op.page in s.held && s.held[op.page] < MAX_ORDER
  }

  ghost function Step(s: State, op: Op): State
    requires Enabled(s, op)
  {
    match op
    case Get(k) =>
      (match Taken(s.block, k)
       case None => s
       case Some((page, rest)) => State(rest, [page] + s.activate, s.held[page := k], s.flight))
    case Detach(page) =>
      if page in s.activate then s.(activate := Remove(s.activate, page), flight := s.flight + {page}) else s
    case Return(page) =>
      s.(block := Inserted(s.block, s.held[page], page), held := s.held - {page}, flight := s.flight - {page})
  }

  // The pages of the blocks that are handed out
  ghost function HeldPages(held: map<nat, nat>): set<nat> {
    set a, y | a in held && y in Run(held[a], a) :: y
  }

  ghost predicate HeldApart(held: map<nat, nat>) {
    forall a, b :: a in held && b in held && a != b ==> Run(held[a], a) !! Run(held[b], b)
  }

  ghost predicate Inv(usable: set<nat>, s: State) {
    && (forall a :: a in s.held ==> s.held[a] < MAX_ORDER && Aligned(s.held[a], a) && Run(s.held[a], a) <= usable)
    && HeldApart(s.held)
    && Canonical(s.block, usable - HeldPages(s.held))
    && Distinct(s.activate)
    && (forall a :: a in s.held <==> a in s.activate || a in s.flight)
    && (forall a :: a in s.activate ==> a !in s.flight)
  }

  // ----- every run keeps the invariant -----

  ghost predicate ValidRun(s: State, ops: seq<Op>)
    decreases |ops|
  {
    ops == [] || (Enabled(s, ops[0]) && ValidRun(Step(s, ops[0]), ops[1..]))
  }

  ghost function RunOps(s: State, ops: seq<Op>): State
    requires ValidRun(s, ops)
    decreases |ops|
  {
    if ops == [] then s else RunOps(Step(s, ops[0]), ops[1..])
  }

  lemma {:induction false} RunKeepsInv(usable: set<nat>, s: State, ops: seq<Op>)
    requires Inv(usable, s) && ValidRun(s, ops)
    ensures Inv(usable, RunOps(s, ops))
    decreases |ops|
  {
    if ops != [] {
      StepKeepsInv(usable, s, ops[0]);
      RunKeepsInv(usable, Step(s, ops[0]), ops[1..]);
    }
  }

  lemma StepKeepsInv(usable: set<nat>, s: State, op: Op)
    requires Inv(usable, s) && Enabled(s, op)
    ensures Inv(usable, Step(s, op))
  {
    match op
    case Get(k) =>
      if Taken(s.block, k).Some? {
        GetKeepsInv(usable, s, k);
      }
    case Detach(page) =>
      if page in s.activate {
        RemoveDistinct(s.activate, page);
      }
    case Return(page) =>
      ReturnKeepsInv(usable, s, page);
  }

  lemma GetKeepsInv(usable: set<nat>, s: State, k: nat)
    requires Inv(usable, s) && Taken(s.block, k).Some?
    ensures Inv(usable, Step(s, Get(k)))
  {
    var free := usable - HeldPages(s.held);
    var (page, rest) := Taken(s.block, k).value;
    TakenSound(s.block, free, k);
    FreshBlock(usable, s.held, page, k);
    HeldAdd(s.held, page, k);
    assert usable - HeldPages(s.held[page := k]) == free - Run(k, page);
  }

  // A block inside the free pages starts no block that is handed out, and overlaps none
  lemma FreshBlock(usable: set<nat>, held: map<nat, nat>, page: nat, k: nat)
    requires Run(k, page) <= usable - HeldPages(held)
    ensures page !in held
    ensures forall a :: a in held ==> Run(held[a], a) !! Run(k, page)
  {
    assert InBlock(k, page, page);
    assert page in Run(k, page);
    assert page in held ==> InBlock(held[page], page, page);
    forall a | a in held ensures Run(held[a], a) !! Run(k, page) {
      assert Run(held[a], a) <= HeldPages(held);
    }
  }

  lemma HeldAdd(held: map<nat, nat>, page: nat, k: nat)
    requires page !in held
    ensures HeldPages(held[page := k]) == HeldPages(held) + Run(k, page)
  {
    var held' := held[page := k];
    forall y | y in HeldPages(held) + Run(k, page) ensures y in HeldPages(held') {
      if y in HeldPages(held) {
        var a :| a in held && y in Run(held[a], a);
        assert a in held' && held'[a] == held[a];
      } else {
        assert page in held' && y in Run(held'[page], page);
      }
    }
  }

  lemma ReturnKeepsInv(usable: set<nat>, s: State, page: nat)
    requires Inv(usable, s) && Enabled(s, Return(page))
    ensures Inv(usable, Step(s, Return(page)))
  {
    var k := s.held[page];
    var rest := s.held - {page};
    assert rest[page := k] == s.held;
    HeldAdd(rest, page, k);
    forall y | y in HeldPages(rest) ensures y !in Run(k, page) {
      var a :| a in rest && y in Run(rest[a], a);
      assert a in s.held && a != page;
    }
    var free := usable - HeldPages(s.held);
    InsertedCanonical(s.block, free, k, page);
    assert free + Run(k, page) == usable - HeldPages(rest);
  }

  // ----- what the invariant says about pages -----

  // A free, active or detached block
  ghost predicate Owns(s: State, k: nat, a: nat) {
    (k < MAX_ORDER && a in s.block[k]) || (a in s.held && s.held[a] == k)
  }

  // Free, active and detached blocks are aligned, disjoint, and tile exactly the usable pages
  lemma BlocksTile(usable: set<nat>, s: State)
    requires Inv(usable, s)
    ensures forall k, a :: Owns(s, k, a) ==> Aligned(k, a) && Run(k, a) <= usable
    ensures forall k, a, l, b :: Owns(s, k, a) && Owns(s, l, b) && (k, a) != (l, b) ==> Run(k, a) !! Run(l, b)
    ensures forall x :: x in usable ==> exists k, a :: Owns(s, k, a) && x in Run(k, a)
  {
    var free := usable - HeldPages(s.held);
    forall k: nat, a: nat | Owns(s, k, a) ensures Aligned(k, a) && Run(k, a) <= usable {
      if k < MAX_ORDER && a in s.block[k] {
        RunFreeIsSubset(free, k, a);
      }
    }
    forall k: nat, a: nat, l: nat, b: nat | Owns(s, k, a) && Owns(s, l, b) && (k, a) != (l, b)
      ensures Run(k, a) !! Run(l, b) {
      BlocksApart(usable, s, k, a, l, b);
    }
    forall x | x in usable ensures exists k, a :: Owns(s, k, a) && x in Run(k, a) {
      if x in HeldPages(s.held) {
        var a :| a in s.held && x in Run(s.held[a], a);
        assert Owns(s, s.held[a], a);
      } else {
        SingletonRun(free, x);
        var k, a := FreeRunIsListed(s.block, free, 0, x);
        assert Maximal(free, k, a);
        InRun(k, a, x);
        assert Owns(s, k, a);
      }
    }
  }

  lemma SingletonRun(free: set<nat>, x: nat)
    requires x in free
    ensures RunFree(free, 0, x)
  {
    assert Pow2(0) == 1;
    assert forall y: nat :: Same(0, x, y) ==> x == y;
  }

  lemma BlocksApart(usable: set<nat>, s: State, k: nat, a: nat, l: nat, b: nat)
    requires Inv(usable, s) && Owns(s, k, a) && Owns(s, l, b) && (k, a) != (l, b)
    ensures Run(k, a) !! Run(l, b)
  {
    var free := usable - HeldPages(s.held);
    if k < MAX_ORDER && a in s.block[k] {
      RunFreeIsSubset(free, k, a);
      if l < MAX_ORDER && b in s.block[l] {
        ListedApart(s.block, free, k, a, l, b);
      } else {
        assert Run(l, b) <= HeldPages(s.held);
      }
    } else if l < MAX_ORDER && b in s.block[l] {
      RunFreeIsSubset(free, l, b);
      assert Run(k, a) <= HeldPages(s.held);
    }
  }

  lemma ListedApart(block: Lists, free: set<nat>, k: nat, a: nat, l: nat, b: nat)
    requires Canonical(block, free) && k < MAX_ORDER && l < MAX_ORDER && a in block[k] && b in block[l]
    requires (k, a) != (l, b)
    ensures Run(k, a) !! Run(l, b)
  {
    if k > l {
      ListedApart(block, free, l, b, k, a);
    } else if !(Run(k, a) !! Run(l, b)) {
      var x :| x in Run(k, a) && x in Run(l, b);
      assert Maximal(free, k, a) && Maximal(free, l, b);
      InRun(k, a, x);
      InRun(l, b, x);
      Laminar(k, a, l, b, x);
      if k == l {
        AlignedUnique(k, b, a);
      } else {
        RunFreeDown(free, k + 1, l, b, a);
      }
      assert false;
    }
  }

  // No two buddies below the top order are both listed
  lemma NoListedBuddies(usable: set<nat>, s: State, k: nat, a: nat)
    requires Inv(usable, s) && k < MAX_ORDER - 1 && a in s.block[k]
    ensures BuddyOf(k, a) >= 0 && BuddyOf(k, a) !in s.block[k]
  {
    var free := usable - HeldPages(s.held);
    assert Maximal(free, k, a);
    BuddyHalves(k, a);
    var b: nat := BuddyOf(k, a);
    if b in s.block[k] {
      assert Maximal(free, k, b);
      forall y: nat | Same(k + 1, a, y) ensures y in free {
        RunSplit(k, a, y);
      }
      assert false;
    }
  }

  // ----- canonical form over runs -----

  // Any two reachable states that hand out the same blocks have the same free lists
  lemma FreeListsDetermined(usable: set<nat>, s: State, t: State)
    requires Inv(usable, s) && Inv(usable, t) && HeldPages(s.held) == HeldPages(t.held)
    ensures s.block == t.block
  {
    CanonicalUnique(s.block, t.block, usable - HeldPages(s.held));
  }

  ghost function Returns(pages: seq<nat>): (ops: seq<Op>)
    ensures |ops| == |pages|
  {
    if pages == [] then [] else [Return(pages[0])] + Returns(pages[1..])
  }

  ghost predicate Returnable(s: State, pages: seq<nat>) {
    && Distinct(pages)
    && forall p :: p in pages ==> p in s.flight && p in s.held && s.held[p] < MAX_ORDER
  }

  lemma {:induction false} ReturnsRun(s: State, pages: seq<nat>)
    requires Returnable(s, pages)
    ensures ValidRun(s, Returns(pages))
    ensures SameExcept(s.held, RunOps(s, Returns(pages)).held, pages)
    decreases |pages|
  {
    if pages != [] {
      var s' := Step(s, Return(pages[0]));
      assert Returns(pages)[1..] == Returns(pages[1..]);
      assert pages == [pages[0]] + pages[1..];
      ReturnsRun(s', pages[1..]);
    }
  }

  ghost predicate SameExcept(held: map<nat, nat>, held': map<nat, nat>, pages: seq<nat>) {
    && (forall p :: p in held' <==> p in held && p !in pages)
    && (forall p :: p in held' ==> held'[p] == held[p])
  }

  // Giving back the same blocks in two orders gives the same free lists
  lemma ReturnOrderIrrelevant(usable: set<nat>, s: State, p1: seq<nat>, p2: seq<nat>)
    requires Inv(usable, s) && Returnable(s, p1) && Distinct(p2)
    requires forall p :: p in p1 <==> p in p2
    ensures ValidRun(s, Returns(p1)) && ValidRun(s, Returns(p2))
    ensures RunOps(s, Returns(p1)).block == RunOps(s, Returns(p2)).block
  {
    ReturnsRun(s, p1);
    ReturnsRun(s, p2);
    assert RunOps(s, Returns(p1)).held == RunOps(s, Returns(p2)).held;
    RunKeepsInv(usable, s, Returns(p1));
    RunKeepsInv(usable, s, Returns(p2));
    FreeListsDetermined(usable, RunOps(s, Returns(p1)), RunOps(s, Returns(p2)));
  }

  // Allocating a block and freeing it again restores the whole state, every list included
  lemma AllocThenFree(usable: set<nat>, s: State, k: nat)
    requires Inv(usable, s) && Taken(s.block, k).Some?
    ensures var page := Taken(s.block, k).value.0;
            var s1 := Step(s, Get(k));
            var s2 := Step(s1, Detach(page));
            Enabled(s2, Return(page)) && Step(s2, Return(page)) == s
  {
    var free := usable - HeldPages(s.held);
    var (page, rest) := Taken(s.block, k).value;
    TakenSound(s.block, free, k);
    FreshBlock(usable, s.held, page, k);
    TakeThenInsertRestores(s.block, free, k);
    assert page !in s.activate && page !in s.flight;
    assert Remove([page] + s.activate, page) == s.activate;
    assert s.held[page := k] - {page} == s.held;
    assert s.flight + {page} - {page} == s.flight;
  }

  // In every state reached from boot, allocation fails exactly when no aligned free run exists
  lemma EveryRunComplete(usable: set<nat>, block: Lists, ops: seq<Op>, k: nat)
    requires Canonical(block, usable) && ValidRun(State(block, [], map[], {}), ops)
    ensures var s := RunOps(State(block, [], map[], {}), ops);
            && Inv(usable, s)
            && (Taken(s.block, k).None?
                <==> k >= MAX_ORDER || forall x: nat :: !RunFree(usable - HeldPages(s.held), k, x))
  {
    var boot := State(block, [], map[], {});
    assert usable - HeldPages(map[]) == usable;
    RunKeepsInv(usable, boot, ops);
    if k < MAX_ORDER {
      TakenComplete(RunOps(boot, ops).block, usable - HeldPages(RunOps(boot, ops).held), k);
    }
  }
}
