/**
 The allocator object: the global buddy structure and the functions that change it in place.
 Every method is one lock section of the kernel's code, or a sequence of them, and is proved to
 perform a step of the state machine in module Buddy.
 */
module BuddyAllocator {
  import opened Arch
  import opened LinkedLists
  import opened Dyadic
  import opened SortedLists
  import opened FreeLists
  import opened Buddy

  // The largest order below MAX_ORDER to which a page index is aligned
  method CheckOrder(offset: nat) returns (order: nat)
    ensures order < MAX_ORDER
    ensures forall k :: 0 <= k < MAX_ORDER ==> (Aligned(k, offset) <==> k <= order)
  {
    order := MAX_ORDER - 1;
    while order > 0 && !Aligned(order, offset)
      invariant order < MAX_ORDER
      invariant forall k :: order < k < MAX_ORDER ==> !Aligned(k, offset)
    {
      order := order - 1;
    }
    forall k | 0 <= k <= order ensures Aligned(k, offset) {
      AlignedDown(k, order, offset);
    }
  }

  class Allocator {
    var block: Lists
    var activate: seq<nat>
    ghost var held: map<nat, nat>
    ghost var flight: set<nat>

    ghost function View(): State
      reads this
    {
      State(block, activate, held, flight)
    }

    ghost predicate Valid(usable: set<nat>)
      reads this
    {
      Inv(usable, View())
    }

    // The allocator right after boot: these free lists, nothing handed out
    constructor (lists: Lists)
      ensures View() == State(lists, [], map[], {})
    {
      block, activate, held, flight := lists, [], map[], {};
    }

    // The walk inside block_insert: stop at the buddy of page, or where page belongs in list i
    method FindPlace(i: nat, page: nat, ghost free: set<nat>) returns (j: nat, merge: bool)
      requires i < MAX_ORDER && Aligned(i, page) && Canonical(block, free) && Run(i, page) !! free
      ensures j <= |block[i]|
      ensures merge ==> i < MAX_ORDER - 1 && j < |block[i]| && BuddyOf(i, page) == block[i][j]
      ensures !merge ==> Inserted(block, i, page) == block[i := block[i][..j] + [page] + block[i][j..]]
    {
      j := 0;
      while j < |block[i]|
        invariant j <= |block[i]|
        invariant forall m :: 0 <= m < j ==> block[i][m] < page
        invariant i < MAX_ORDER - 1 ==> forall m :: 0 <= m < j ==> block[i][m] != BuddyOf(i, page)
      {
        var p := block[i][j];
        if i < MAX_ORDER - 1 {
          var pOrder := CheckOrder(p);
          var pageOrder := CheckOrder(page);
          IsBuddy(i, page, p);
          if p + Pow2(i) == page && pOrder >= i + 1 {
            return j, true;
          } else if page + Pow2(i) == p && pageOrder >= i + 1 {
            return j, true;
          }
        }
        if p >= page {
          break;
        }
        j := j + 1;
      }
      SettleStep(block, free, i, page, j);
      return j, false;
    }

    // block_insert. Canonical lists and a block disjoint from them are what every caller provides.
    method BlockInsert(start: nat, startOrder: nat, ghost free: set<nat>)
      requires startOrder < MAX_ORDER && Aligned(startOrder, start)
      requires Canonical(block, free) && Run(startOrder, start) !! free
      modifies this`block
      ensures block == Inserted(old(block), startOrder, start)
    {
      var page: nat, order: nat := start, startOrder;
      ghost var rest := free;
      var j, merge := FindPlace(order, page, rest);
      while merge
        invariant order < MAX_ORDER && 0 <= j <= |block[order]|
        invariant Aligned(order, page) && Canonical(block, rest) && Run(order, page) !! rest
        invariant Inserted(block, order, page) == Inserted(old(block), startOrder, start)
        invariant merge ==> order < MAX_ORDER - 1 && j < |block[order]| && BuddyOf(order, page) == block[order][j]
        invariant !merge ==>
            Inserted(block, order, page) == block[order := block[order][..j] + [page] + block[order][j..]]
        decreases MAX_ORDER - order, merge
      {
        var p := block[order][j];
        rest := MergeStep(block, rest, order, page, j);
        block := block[order := block[order][..j] + block[order][j + 1..]];
        page := if p < page then p else page;
        order := order + 1;
        j, merge := FindPlace(order, page, rest);
      }
      block := block[order := block[order][..j] + [page] + block[order][j..]];
    }

    // The split loop of __alloc_pages
    method SplitBlock(page: nat, start: nat, order: nat, ghost free: set<nat>)
      requires order <= start < MAX_ORDER && Aligned(start, page)
      requires Canonical(block, free) && Run(start, page) !! free
      modifies this`block
      ensures block == Split(old(block), start, page, order)
    {
      var next: nat := start;
      ghost var rest := free;
      while next > order
        invariant order <= next < MAX_ORDER && Aligned(next, page)
        invariant Canonical(block, rest) && Run(next, page) !! rest
        invariant Split(block, next, page, order) == Split(old(block), start, page, order)
      {
        HalfStep(block, rest, next, page);
        next := next - 1;
        var up: nat := page + Pow2(next);
        BlockInsert(up, next, rest);
        rest := rest + Run(next, up);
      }
    }

    // The search of __alloc_pages: the smallest order that has a block
    method TakeBlock(order: nat, ghost free: set<nat>) returns (r: Option<nat>)
      requires order < MAX_ORDER && Canonical(block, free)
      modifies this`block
      ensures r.None? ==> Taken(old(block), order).None? && block == old(block)
      ensures r.Some? ==> Taken(old(block), order) == Some((r.value, block))
      ensures r.Some? ==> exists n :: BestRun(free, order, n, r.value)
    {
      var next: nat := order;
      while next < MAX_ORDER && block[next] == []
        invariant order <= next <= MAX_ORDER
        invariant FirstOrder(block, order) == FirstOrder(block, next)
      {
        next := next + 1;
      }
      if next >= MAX_ORDER {
        return None;
      }
      var page: nat := block[next][0];
      TakenBest(block, free, order);
      DropFirst(block, free, next);
      block := block[next := block[next][1..]];
      SplitBlock(page, next, order, free - Run(next, page));
      return Some(page);
    }

    // __alloc_pages: r is the first page of the block, None when no block can be had
    method AllocPages(order: nat, ghost usable: set<nat>) returns (r: Option<nat>)
      requires Valid(usable)
      modifies this
      ensures View() == Step(old(View()), Get(order)) && Valid(usable)
      ensures r.None? <==> order >= MAX_ORDER || forall x: nat :: !RunFree(usable - HeldPages(old(held)), order, x)
      ensures r.Some? ==> exists n :: BestRun(usable - HeldPages(old(held)), order, n, r.value)
      ensures r.Some? ==> r.value !in old(held) && activate == [r.value] + old(activate)
      ensures r.Some? ==> held == old(held)[r.value := order]
    {
      ghost var free := usable - HeldPages(held);
      StepKeepsInv(usable, View(), Get(order));
      if order >= MAX_ORDER {
        return None;
      }
      TakenComplete(block, free, order);
      if Taken(block, order).Some? {
        TakenSound(block, free, order);
        FreshBlock(usable, held, Taken(block, order).value.0, order);
      }
      r := TakeBlock(order, free);
      if r.Some? {
        activate := [r.value] + activate;
        held := held[r.value := order];
      }
    }

    // The first lock section of free_pages: take the block that starts at addr off the active list
    method DetachPages(addr: nat, ghost usable: set<nat>) returns (page: Option<nat>)
      requires Valid(usable)
      modifies this`activate, this`flight
      ensures page.Some? <==> exists p :: p in old(activate) && Virtual(p) == PageLowerAlign(addr)
      ensures page.Some? ==> Virtual(page.value) == PageLowerAlign(addr) && page.value in old(activate)
      ensures View() == (if page.Some? then Step(old(View()), Detach(page.value)) else old(View())) && Valid(usable)
    {
      var j := 0;
      while j < |activate|
        invariant j <= |activate|
        invariant forall m :: 0 <= m < j ==> Virtual(activate[m]) != PageLowerAlign(addr)
      {
        if Virtual(activate[j]) == PageLowerAlign(addr) {
          page := Some(activate[j]);
          assert activate[j] in activate;
          StepKeepsInv(usable, View(), Detach(page.value));
          RemoveAt(activate, j);
          activate := activate[..j] + activate[j + 1..];
          flight := flight + {page.value};
          return;
        }
        j := j + 1;
      }
      return None;
    }

    // __free_pages, the second lock section. The caller passes the order of the allocation.
    method InsertPages(page: nat, order: nat, ghost usable: set<nat>)
      requires Valid(usable) && page in flight && held[page] == order
      modifies this`block, this`held, this`flight
      ensures View() == Step(old(View()), Return(page)) && Valid(usable)
    {
      StepKeepsInv(usable, View(), Return(page));
      assert Run(order, page) <= HeldPages(held);
      BlockInsert(page, order, usable - HeldPages(held));
      held := held - {page};
      flight := flight - {page};
    }

    // free_pages. An address that starts no active block is ignored.
    method FreePages(addr: nat, order: nat, ghost usable: set<nat>)
      requires Valid(usable)
      requires forall p :: p in activate && Virtual(p) == PageLowerAlign(addr) ==> held[p] == order
      modifies this
      ensures Valid(usable)
      ensures (forall p :: p in old(activate) ==> Virtual(p) != PageLowerAlign(addr)) ==> View() == old(View())
      ensures forall p :: p in old(activate) && Virtual(p) == PageLowerAlign(addr) ==>
          View() == Step(Step(old(View()), Detach(p)), Return(p))
    {
      if addr == 0 {
        return;
      }
      var page := DetachPages(addr, usable);
      if page.Some? {
        InsertPages(page.value, order, usable);
      }
    }
  }

  // Removing the listed buddy leaves the larger block to insert
  lemma MergeStep(block: Lists, free: set<nat>, k: nat, page: nat, j: nat) returns (rest: set<nat>)
    requires k < MAX_ORDER - 1 && j < |block[k]| && Aligned(k, page)
    requires Canonical(block, free) && Run(k, page) !! free
    requires BuddyOf(k, page) == block[k][j]
    ensures var b := block[k][j];
            var low := if b < page then b else page;
            var block' := block[k := block[k][..j] + block[k][j + 1..]];
            && Aligned(k + 1, low) && Canonical(block', rest) && Run(k + 1, low) !! rest
            && Inserted(block, k, page) == Inserted(block', k + 1, low)
  {
    var b := block[k][j];
    assert b in block[k];
    rest := free - Run(k, b);
    DropListed(block, free, k, b, rest);
    RemoveAt(block[k], j);
    BuddyRun(k, page);
  }

  // The two tests of block_insert recognise the buddy
  lemma IsBuddy(k: nat, page: nat, p: nat)
    requires Aligned(k, page)
    ensures p == BuddyOf(k, page) <==>
            (p + Pow2(k) == page && Aligned(k + 1, p)) || (page + Pow2(k) == p && Aligned(k + 1, page))
  {
    BuddyHalves(k, page);
    if p + Pow2(k) == page && Aligned(k + 1, p) {
      AlignedDown(k, k + 1, p);
      BuddyHalves(k, p);
    }
  }

  // The upper half of a block is a block to insert
  lemma HalfStep(block: Lists, free: set<nat>, n: nat, page: nat)
    requires 0 < n < MAX_ORDER && Aligned(n, page) && Canonical(block, free) && Run(n, page) !! free
    ensures var up := page + Pow2(n - 1);
            && Aligned(n - 1, page) && Aligned(n - 1, up) && Run(n - 1, up) !! free
            && Run(n - 1, page) !! free + Run(n - 1, up)
            && Canonical(Inserted(block, n - 1, up), free + Run(n - 1, up))
  {
    AlignedDown(n - 1, n, page);
    BuddyRun(n - 1, page);
    BuddyHalves(n - 1, page);
    InsertedCanonical(block, free, n - 1, page + Pow2(n - 1));
  }

  // Without a listed buddy, the walk has stopped where the block belongs
  lemma SettleStep(block: Lists, free: set<nat>, k: nat, page: nat, j: nat)
    requires k < MAX_ORDER && j <= |block[k]| && Aligned(k, page)
    requires Canonical(block, free) && Run(k, page) !! free
    requires forall m :: 0 <= m < j ==> block[k][m] < page
    requires j < |block[k]| ==> page <= block[k][j]
    requires k < MAX_ORDER - 1 ==> forall m :: 0 <= m < j ==> block[k][m] != BuddyOf(k, page)
    requires k < MAX_ORDER - 1 && j < |block[k]| ==> block[k][j] != BuddyOf(k, page)
    ensures Inserted(block, k, page) == block[k := block[k][..j] + [page] + block[k][j..]]
  {
    var s := block[k];
    forall m | 0 <= m < |s| ensures s[m] != page && (page < s[m] ==> page + Pow2(k) <= s[m]) {
      assert s[m] in s;
      assert Maximal(free, k, s[m]);
      RunOf(k, page, s[m]);
      RunFreeIsSubset(free, k, s[m]);
      assert InBlock(k, page, s[m]) ==> s[m] in Run(k, page);
      InRun(k, s[m], s[m]);
    }
    InsertAt(s, j, page);
  }

  lemma DropFirst(block: Lists, free: set<nat>, n: nat)
    requires n < MAX_ORDER && Canonical(block, free) && block[n] != []
    ensures var page := block[n][0];
            && Aligned(n, page) && Run(n, page) <= free
            && Canonical(block[n := block[n][1..]], free - Run(n, page))
  {
    var page := block[n][0];
    assert page in block[n];
    DropListed(block, free, n, page, free - Run(n, page));
    RemoveAt(block[n], 0);
    assert Remove(block[n], page) == block[n][1..];
  }
}
