/**
 The buddy system's free lists as values: one address-sorted list of block starts per order.

 A family of lists is canonical for a set of pages when list k holds exactly the maximal aligned
 runs of 2^k pages inside the set. Insertion with cascading merges and allocation with splits
 keep that form, so the lists are a function of the free pages and of nothing else.
 */
module FreeLists {
  import opened Arch
  import opened LinkedLists
  import opened Dyadic
  import opened SortedLists

  type Lists = b: seq<seq<nat>> | |b| == MAX_ORDER witness seq(MAX_ORDER, _ => [])

  // ----- meaning -----

  // The pages of the block of order k that starts at page
  function Run(k: nat, page: nat): set<nat> {
    set y: nat | page <= y < page + Pow2(k) && InBlock(k, page, y)
  }

  predicate InBlock(k: nat, page: nat, y: nat) {
    page <= y < page + Pow2(k)
  }

  // Every page of the aligned run of 2^k pages around x is in free
  ghost predicate RunFree(free: set<nat>, k: nat, x: nat) {
    forall y: nat :: Same(k, x, y) ==> y in free
  }

  // a starts a maximal aligned run of free pages
  ghost predicate Maximal(free: set<nat>, k: nat, a: nat) {
    && Aligned(k, a)
    && RunFree(free, k, a)
    && (k < MAX_ORDER - 1 ==> !RunFree(free, k + 1, a))
  }

  ghost predicate Canonical(block: Lists, free: set<nat>) {
    && (forall k :: 0 <= k < MAX_ORDER ==> Sorted(block[k]))
    && (forall k, a :: 0 <= k < MAX_ORDER ==> (a in block[k] <==> Maximal(free, k, a)))
  }

  // ----- operations -----

  // block_insert: merge with the buddy while it is listed, then insert by address
  function Inserted(block: Lists, k: nat, page: nat): Lists
    requires k < MAX_ORDER
    decreases MAX_ORDER - k
  {
    var b := BuddyOf(k, page);
    if k < MAX_ORDER - 1 && b >= 0 && b in block[k] then
      Inserted(block[k := Remove(block[k], b)], k + 1, if b < page then b else page)
    else
      block[k := Insert(block[k], page)]
  }

  // The first order from k on that has a listed block
  function FirstOrder(block: Lists, k: nat): (n: nat)
    requires k <= MAX_ORDER
    ensures k <= n <= MAX_ORDER
    ensures n < MAX_ORDER ==> block[n] != []
    ensures forall j :: k <= j < n ==> block[j] == []
    decreases MAX_ORDER - k
  {
    if k == MAX_ORDER || block[k] != [] then k else FirstOrder(block, k + 1)
  }

  // Give back the upper halves of the block of order n at page until it has order k
  function Split(block: Lists, n: nat, page: nat, k: nat): Lists
    requires k <= n < MAX_ORDER
    decreases n
  {
    if n == k then block
    else Split(Inserted(block, n - 1, page + Pow2(n - 1)), n - 1, page, k)
  }

  // __alloc_pages: the page handed out and the lists that remain
  function Taken(block: Lists, k: nat): Option<(nat, Lists)> {
    if k >= MAX_ORDER then None else
    var n := FirstOrder(block, k);
    if n == MAX_ORDER then None else
    var page := block[n][0];
    Some((page, Split(block[n := block[n][1..]], n, page, k)))
  }

  // ----- runs and sets of pages -----

  lemma InRun(k: nat, a: nat, y: nat)
    requires Aligned(k, a)
    ensures y in Run(k, a) <==> Same(k, a, y)
  {
    RunOf(k, a, y);
  }

  lemma RunFreeIsSubset(free: set<nat>, k: nat, a: nat)
    requires Aligned(k, a)
    ensures RunFree(free, k, a) <==> Run(k, a) <= free
  {
    forall y: nat ensures y in Run(k, a) <==> Same(k, a, y) { InRun(k, a, y); }
  }

  // Being inside free passes to smaller runs
  lemma RunFreeDown(free: set<nat>, j: nat, k: nat, x: nat, y: nat)
    requires j <= k && RunFree(free, k, x) && Same(k, x, y)
    ensures RunFree(free, j, y)
  {
    forall z: nat | Same(j, y, z) ensures z in free {
      SameNested(j, k, y, z);
      assert Same(k, x, z);
    }
  }

  // Two runs that meet are nested
  lemma Laminar(j: nat, a: nat, k: nat, b: nat, x: nat)
    requires j <= k && Same(j, a, x) && Same(k, b, x)
    ensures Same(k, b, a)
    ensures forall y: nat :: Same(j, a, y) ==> Same(k, b, y)
  {
    SameNested(j, k, a, x);
    forall y: nat | Same(j, a, y) ensures Same(k, b, y) {
      SameNested(j, k, a, y);
    }
  }

  // ----- canonical lists -----

  // The lists are a function of the free pages
  lemma CanonicalUnique(b1: Lists, b2: Lists, free: set<nat>)
    requires Canonical(b1, free) && Canonical(b2, free)
    ensures b1 == b2
  {
    forall k | 0 <= k < MAX_ORDER ensures b1[k] == b2[k] {
      assert forall a :: a in b1[k] <==> Maximal(free, k, a);
      assert forall a :: a in b2[k] <==> Maximal(free, k, a);
      Unique(b1[k], b2[k]);
    }
  }

  // Adding a block whose buddy run is not wholly free
  lemma AddMaximal(block: Lists, free: set<nat>, k: nat, page: nat, free': set<nat>)
    requires k < MAX_ORDER && Canonical(block, free) && Aligned(k, page)
    requires Run(k, page) !! free && free' == free + Run(k, page)
    requires k < MAX_ORDER - 1 ==> !RunFree(free', k + 1, page)
    ensures page !in block[k]
    ensures Canonical(block[k := Insert(block[k], page)], free')
  {
    InRun(k, page, page);
    assert !RunFree(free, k, page) by { assert Same(k, page, page); }
    var block' := block[k := Insert(block[k], page)];
    InsertSorted(block[k], page);
    forall j, a | 0 <= j < MAX_ORDER
      ensures a in block'[j] <==> Maximal(free', j, a)
    {
      RunFreeIsSubset(free', k, page);
      if j == k && a == page {
      } else {
        MaximalFrame(free, free', k, page, j, a);
      }
    }
  }

  // Adding a maximal block leaves the other maximal blocks as they are
  lemma MaximalFrame(free: set<nat>, free': set<nat>, k: nat, page: nat, j: nat, a: nat)
    requires j < MAX_ORDER && k < MAX_ORDER && Aligned(k, page)
    requires Run(k, page) !! free && free' == free + Run(k, page)
    requires k < MAX_ORDER - 1 ==> !RunFree(free', k + 1, page)
    requires (j, a) != (k, page)
    ensures Maximal(free, j, a) <==> Maximal(free', j, a)
  {
    assert Same(j, a, a) && Same(k, page, page);
    assert RunFree(free, j, a) ==> RunFree(free', j, a);
    assert RunFree(free, j + 1, a) ==> RunFree(free', j + 1, a);
    if Maximal(free, j, a) && j < MAX_ORDER - 1 && RunFree(free', j + 1, a) {
      GrowsOnlyAround(free, free', k, page, j + 1, a);
      if j + 1 <= k {
        assert Same(j + 1, a, a);
        InRun(k, page, a);
        assert false;
      }
      RunFreeDown(free', k + 1, j + 1, a, page);
      assert false;
    }
    if Maximal(free', j, a) && !Maximal(free, j, a) {
      GrowsOnlyAround(free, free', k, page, j, a);
      if j == k {
        AlignedUnique(k, page, a);
      } else if j < k {
        RunFreeIsSubset(free', k, page);
        SameNested(j + 1, k, a, a);
        RunFreeDown(free', j + 1, k, page, a);
        assert false;
      } else {
        RunFreeDown(free', k + 1, j, a, page);
        assert false;
      }
    }
  }

  // A run that becomes free when Run(k, page) does meets it, so the smaller lies in the larger
  lemma GrowsOnlyAround(free: set<nat>, free': set<nat>, k: nat, page: nat, j: nat, a: nat)
    requires Aligned(k, page) && free' == free + Run(k, page)
    requires RunFree(free', j, a) && !RunFree(free, j, a)
    ensures j <= k ==> Same(k, page, a)
    ensures k <= j ==> Same(j, a, page)
  {
    var y: nat :| Same(j, a, y) && y !in free;
    InRun(k, page, y);
    if j <= k {
      Laminar(j, a, k, page, y);
    }
    if k <= j {
      Laminar(k, page, j, a, y);
    }
  }

  // Dropping a listed block
  lemma DropListed(block: Lists, free: set<nat>, k: nat, page: nat, free': set<nat>)
    requires k < MAX_ORDER && Canonical(block, free) && page in block[k]
    requires free' == free - Run(k, page)
    ensures Canonical(block[k := Remove(block[k], page)], free')
    ensures Run(k, page) <= free
  {
    assert Maximal(free, k, page);
    RunFreeIsSubset(free, k, page);
    assert free == free' + Run(k, page);
    var block' := block[k := Remove(block[k], page)];
    RemoveSorted(block[k], page);
    InRun(k, page, page);
    assert Same(k, page, page);
    forall j, a | 0 <= j < MAX_ORDER
      ensures a in block'[j] <==> Maximal(free', j, a)
    {
      if j == k && a == page {
        assert !RunFree(free', k, page);
      } else {
        MaximalFrame(free', free, k, page, j, a);
      }
    }
  }

  // ----- insertion -----

  lemma {:induction false} InsertedCanonical(block: Lists, free: set<nat>, k: nat, page: nat)
    requires k < MAX_ORDER && Canonical(block, free) && Aligned(k, page)
    requires Run(k, page) !! free
    ensures Canonical(Inserted(block, k, page), free + Run(k, page))
    decreases MAX_ORDER - k
  {
    var free' := free + Run(k, page);
    var b := BuddyOf(k, page);
    BuddyHalves(k, page);
    if k < MAX_ORDER - 1 && b in block[k] {
      var low := if b < page then b else page;
      DropListed(block, free, k, b, free - Run(k, b));
      BuddyRun(k, page);
      assert free - Run(k, b) + Run(k + 1, low) == free';
      InsertedCanonical(block[k := Remove(block[k], b)], free - Run(k, b), k + 1, low);
    } else {
      if k < MAX_ORDER - 1 && RunFree(free', k + 1, page) {
        BuddyIsMaximal(free, k, page);
        assert false;
      }
      AddMaximal(block, free, k, page, free');
    }
  }

  // A block and its buddy make up the block of the next order
  lemma BuddyRun(k: nat, page: nat)
    requires Aligned(k, page)
    ensures var b := BuddyOf(k, page);
            b >= 0 && var low := if b < page then b else page;
            Aligned(k + 1, low) && Run(k + 1, low) == Run(k, page) + Run(k, b) && Run(k, page) !! Run(k, b)
  {
    BuddyHalves(k, page);
  }

  // If freeing a block completes the run of the next order, its buddy was listed
  lemma BuddyIsMaximal(free: set<nat>, k: nat, page: nat)
    requires k < MAX_ORDER - 1 && Aligned(k, page) && Run(k, page) !! free
    requires RunFree(free + Run(k, page), k + 1, page)
    ensures BuddyOf(k, page) >= 0 && Maximal(free, k, BuddyOf(k, page))
  {
    BuddyHalves(k, page);
    BuddyRun(k, page);
    var b: nat := BuddyOf(k, page);
    RunFreeDown(free + Run(k, page), k, k + 1, page, b);
    RunFreeIsSubset(free + Run(k, page), k, b);
    RunFreeIsSubset(free, k, b);
    InRun(k, page, page);
    assert Same(k + 1, b, page) && page !in free;
  }

  // ----- allocation -----

  // Splitting hands out the low block of order k and keeps the rest, in canonical form
  lemma {:induction false} SplitCanonical(block: Lists, free: set<nat>, n: nat, page: nat, k: nat)
    requires k <= n < MAX_ORDER && Canonical(block, free) && Aligned(n, page)
    requires Run(n, page) !! free
    ensures Canonical(Split(block, n, page, k), free + Run(n, page) - Run(k, page))
    ensures Aligned(k, page) && Run(k, page) <= Run(n, page)
    decreases n
  {
    if n > k {
      AlignedDown(n - 1, n, page);
      BuddyRun(n - 1, page);
      BuddyHalves(n - 1, page);
      var up: nat := page + Pow2(n - 1);
      InsertedCanonical(block, free, n - 1, up);
      SplitCanonical(Inserted(block, n - 1, up), free + Run(n - 1, up), n - 1, page, k);
      assert free + Run(n - 1, up) + Run(n - 1, page) - Run(k, page) == free + Run(n, page) - Run(k, page);
    } else {
      assert free + Run(n, page) - Run(k, page) == free;
    }
  }

  // Any aligned free run lies inside one listed block of at least its order
  lemma {:induction false} FreeRunIsListed(block: Lists, free: set<nat>, k: nat, x: nat)
    returns (n: nat, a: nat)
    requires k < MAX_ORDER && Canonical(block, free) && RunFree(free, k, x)
    ensures k <= n < MAX_ORDER && a in block[n] && Same(n, a, x)
    decreases MAX_ORDER - k
  {
    if k < MAX_ORDER - 1 && RunFree(free, k + 1, x) {
      n, a := FreeRunIsListed(block, free, k + 1, x);
    } else {
      n, a := k, Base(k, x);
      BaseRun(k, x);
      RunFreeDown(free, k, k, x, a);
      if k < MAX_ORDER - 1 && RunFree(free, k + 1, a) {
        SameNested(k, k + 1, a, x);
        assert false;
      }
      assert Maximal(free, k, a);
    }
  }

  // Allocation fails exactly when no aligned run of 2^k free pages exists
  lemma TakenComplete(block: Lists, free: set<nat>, k: nat)
    requires k < MAX_ORDER && Canonical(block, free)
    ensures Taken(block, k).None? <==> forall x: nat :: !RunFree(free, k, x)
  {
    var n := FirstOrder(block, k);
    if n < MAX_ORDER {
      var a := block[n][0];
      assert a in block[n];
      assert Same(n, a, a);
      RunFreeDown(free, k, n, a, a);
    } else {
      forall x: nat ensures !RunFree(free, k, x) {
        if RunFree(free, k, x) {
          var m, a := FreeRunIsListed(block, free, k, x);
          assert false;
        }
      }
    }
  }

  // What a successful allocation hands out, and that the rest stays canonical
  lemma TakenSound(block: Lists, free: set<nat>, k: nat)
    requires k < MAX_ORDER && Canonical(block, free) && Taken(block, k).Some?
    ensures var (page, rest) := Taken(block, k).value;
            Aligned(k, page) && Run(k, page) <= free && Canonical(rest, free - Run(k, page))
  {
    var n := FirstOrder(block, k);
    var page := block[n][0];
    assert page in block[n];
    DropListed(block, free, n, page, free - Run(n, page));
    RemoveAt(block[n], 0);
    var rest := block[n := block[n][1..]];
    assert Remove(block[n], page) == block[n][1..];
    SplitCanonical(rest, free - Run(n, page), n, page, k);
    assert free - Run(n, page) + Run(n, page) - Run(k, page) == free - Run(k, page);
  }

  // The block that a request of order k should get: a maximal run of the smallest order that is at
  // least k, and of those the one at the lowest address
  ghost predicate BestRun(free: set<nat>, k: nat, n: nat, page: nat) {
    && k <= n < MAX_ORDER && Maximal(free, n, page)
    && (forall j, a :: k <= j < n ==> !Maximal(free, j, a))
    && (forall a :: Maximal(free, n, a) ==> page <= a)
  }

  // There is at most one such block
  lemma BestRunUnique(free: set<nat>, k: nat, n: nat, page: nat, m: nat, other: nat)
    requires BestRun(free, k, n, page) && BestRun(free, k, m, other)
    ensures n == m && page == other
  {
  }

  // Allocation takes the start of that block
  lemma TakenBest(block: Lists, free: set<nat>, k: nat)
    requires k < MAX_ORDER && Canonical(block, free) && Taken(block, k).Some?
    ensures exists n :: BestRun(free, k, n, Taken(block, k).value.0)
  {
    var n := FirstOrder(block, k);
    var page := block[n][0];
    assert page in block[n];
    forall a | Maximal(free, n, a) ensures page <= a {
      assert a in block[n];
    }
    forall j, a | k <= j < n ensures !Maximal(free, j, a) {
      assert a !in block[j];
    }
    assert BestRun(free, k, n, page);
  }

  // ----- consequences -----

  // Taking a block and giving it back restores every list
  lemma TakeThenInsertRestores(block: Lists, free: set<nat>, k: nat)
    requires k < MAX_ORDER && Canonical(block, free) && Taken(block, k).Some?
    ensures var (page, rest) := Taken(block, k).value; Inserted(rest, k, page) == block
  {
    var (page, rest) := Taken(block, k).value;
    TakenSound(block, free, k);
    InsertedCanonical(rest, free - Run(k, page), k, page);
    assert free - Run(k, page) + Run(k, page) == free;
    CanonicalUnique(block, Inserted(rest, k, page), free);
  }
}
