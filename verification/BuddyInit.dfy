/**
 Boot-time carving of the free lists: buddy_system_init walks the page array once and appends the
 largest aligned blocks it can. The result is canonical for the pages that are not reserved.
 */
module BuddyInit {
  import opened Arch
  import opened Dyadic
  import opened SortedLists
  import opened FreeLists
  import opened Buddy
  import opened BuddyAllocator

  // The pages below n that are not reserved
  function Usable(reserve: seq<bool>, n: nat): set<nat> {
    set x: nat | x < n && x < |reserve| && !reserve[x]
  }

  // 2^k is the largest power of two that divides n
  predicate ExactOrder(k: nat, n: nat) {
    Aligned(k, n) && !Aligned(k + 1, n)
  }

  // Wherever a new block may start, the run before it that would be its buddy has a reserved page
  ghost predicate Frontier(reserve: seq<bool>, n: nat) {
    forall k :: 0 <= k < MAX_ORDER - 1 && ExactOrder(k, n) ==>
      exists x: nat :: n - Pow2(k) <= x < n && x < |reserve| && reserve[x]
  }

  // Appending a block beyond every listed one
  lemma AppendMaximal(block: Lists, reserve: seq<bool>, n: nat, k: nat)
    requires k < MAX_ORDER && Canonical(block, Usable(reserve, n)) && Aligned(k, n) && n + Pow2(k) <= |reserve|
    requires forall x :: n <= x < n + Pow2(k) ==> !reserve[x]
    requires k < MAX_ORDER - 1 ==> !RunFree(Usable(reserve, n + Pow2(k)), k + 1, n)
    ensures Canonical(block[k := block[k] + [n]], Usable(reserve, n + Pow2(k)))
  {
    var free := Usable(reserve, n);
    assert Usable(reserve, n + Pow2(k)) == free + Run(k, n);
    AddMaximal(block, free, k, n, free + Run(k, n));
    var s := block[k];
    forall m | 0 <= m < |s| ensures s[m] < n {
      assert s[m] in s;
      assert Same(k, s[m], s[m]);
    }
    InsertAt(s, |s|, n);
    assert s[..|s|] + [n] + s[|s|..] == s + [n];
  }

  // A block of the largest order its start allows, at the frontier
  lemma FullChunk(block: Lists, reserve: seq<bool>, n: nat, k: nat)
    requires k < MAX_ORDER && Canonical(block, Usable(reserve, n)) && n + Pow2(k) <= |reserve|
    requires forall j :: 0 <= j < MAX_ORDER ==> (Aligned(j, n) <==> j <= k)
    requires forall x :: n <= x < n + Pow2(k) ==> !reserve[x]
    requires Frontier(reserve, n)
    ensures Canonical(block[k := block[k] + [n]], Usable(reserve, n + Pow2(k)))
    ensures Frontier(reserve, n + Pow2(k))
  {
    if k < MAX_ORDER - 1 {
      var x := ReservedBelow(reserve, n, k);
      FrontierAdvances(reserve, n, k, x);
    } else {
      FrontierAtTop(reserve, n);
    }
    AppendMaximal(block, reserve, n, k);
  }

  lemma ReservedBelow(reserve: seq<bool>, n: nat, k: nat) returns (x: nat)
    requires Frontier(reserve, n) && k < MAX_ORDER - 1 && Aligned(k, n) && !Aligned(k + 1, n)
    ensures n - Pow2(k) <= x < n && x < |reserve| && reserve[x]
    ensures !RunFree(Usable(reserve, n + Pow2(k)), k + 1, n)
  {
    assert ExactOrder(k, n);
    x :| n - Pow2(k) <= x < n && x < |reserve| && reserve[x];
    BuddyHalves(k, n);
    RunOf(k, n - Pow2(k), x);
    RunSplit(k, n, x);
  }

  lemma FrontierAdvances(reserve: seq<bool>, n: nat, k: nat, x: nat)
    requires Aligned(k, n) && !Aligned(k + 1, n) && n - Pow2(k) <= x < n && x < |reserve| && reserve[x]
    ensures Frontier(reserve, n + Pow2(k))
  {
    var m := n + Pow2(k);
    UpperHalf(n, Pow2(k));
    NextAligned(n - Pow2(k), Pow2(k + 1));
    forall j | 0 <= j < MAX_ORDER - 1 && ExactOrder(j, m)
      ensures exists y: nat :: m - Pow2(j) <= y < m && y < |reserve| && reserve[y]
    {
      assert Aligned(k + 1, m);
      if j <= k {
        AlignedDown(j + 1, k + 1, m);
      } else {
        Pow2Grows(k + 1, j);
      }
      assert m - Pow2(j) <= x < m;
    }
  }

  lemma FrontierAtTop(reserve: seq<bool>, n: nat)
    requires Aligned(MAX_ORDER - 1, n)
    ensures Frontier(reserve, n + Pow2(MAX_ORDER - 1))
  {
    var m := n + Pow2(MAX_ORDER - 1);
    NextAligned(n, Pow2(MAX_ORDER - 1));
    forall j | 0 <= j < MAX_ORDER ensures Aligned(j, m) {
      AlignedDown(j, MAX_ORDER - 1, m);
    }
  }

  lemma NextAligned(n: nat, p: nat)
    requires p > 0 && n % p == 0
    ensures (n + p) % p == 0
  {
    assert n == n / p * p;
    assert n + p == (n / p + 1) * p;
    DivMod(n + p, p, n / p + 1, 0);
  }

  lemma {:induction false} Pow2Grows(j: nat, k: nat)
    requires j <= k
    ensures Pow2(j) <= Pow2(k)
    decreases k
  {
    if j < k {
      Pow2Grows(j, k - 1);
    }
  }

  lemma FrontierAfterReserved(reserve: seq<bool>, n: nat)
    requires n < |reserve| && reserve[n]
    ensures Frontier(reserve, n + 1) && Usable(reserve, n + 1) == Usable(reserve, n)
  {
    forall k | 0 <= k < MAX_ORDER - 1 && ExactOrder(k, n + 1)
      ensures exists x: nat :: n + 1 - Pow2(k) <= x < n + 1 && x < |reserve| && reserve[x]
    {
      assert n + 1 - Pow2(k) <= n < n + 1 && reserve[n];
    }
  }

  // One binary digit of the length of an incomplete chunk
  lemma Digit(count: nat, p: nat, rem: nat)
    requires p > 0 && rem == Rem(count, 2 * p)
    ensures Quot(count, p) % 2 == 1 <==> rem >= p
    ensures Rem(count, p) == if rem >= p then rem - p else rem
  {
    var q := Quot(count, 2 * p);
    QuotBounds(count, 2 * p);
    TwiceMul(q, p);
    if rem >= p {
      DigitIs(count, p, 2 * q + 1, rem - p);
    } else {
      DigitIs(count, p, 2 * q, rem);
    }
  }

  lemma DigitIs(count: nat, p: nat, q: nat, r: nat)
    requires p > 0 && r < p && count == q * p + r
    ensures Quot(count, p) == q && Rem(count, p) == r
  {
    DivMod(count, p, q, r);
  }

  lemma TwiceMul(q: nat, p: nat)
    ensures (2 * q) * p == q * (2 * p) && (2 * q + 1) * p == q * (2 * p) + p
  {
  }

  // A block of the decomposition: its run at the next order reaches beyond the chunk
  lemma PartChunk(block: Lists, reserve: seq<bool>, n: nat, k: nat, right: nat)
    requires k < MAX_ORDER - 1 && Canonical(block, Usable(reserve, n)) && Aligned(k + 1, n)
    requires n + Pow2(k) <= right <= |reserve| && right < n + Pow2(k + 1)
    requires forall x :: n <= x < right ==> !reserve[x]
    ensures Canonical(block[k := block[k] + [n]], Usable(reserve, n + Pow2(k)))
    ensures Aligned(k, n) && Aligned(k, n + Pow2(k))
  {
    AlignedDown(k, k + 1, n);
    BuddyHalves(k, n);
    RunOf(k + 1, n, right);
    assert right !in Usable(reserve, n + Pow2(k));
    AppendMaximal(block, reserve, n, k);
  }

  // The decomposition loop of buddy_system_init: count pages from left, in blocks of falling order
  method Decompose(block: Lists, reserve: seq<bool>, left: nat, count: nat, start: nat) returns (block': Lists)
    requires start < MAX_ORDER && Aligned(start, left) && 0 < count < Pow2(start) && left + count <= |reserve|
    requires Canonical(block, Usable(reserve, left))
    requires forall x :: left <= x < left + count ==> !reserve[x]
    ensures Canonical(block', Usable(reserve, left + count))
  {
    block' := block;
    var l: nat, order: int := left, start;
    DivMod(count, Pow2(start + 1), 0, count);
    while order >= 0
      invariant -1 <= order <= start
      invariant left <= l <= left + count
      invariant left + count - l == Rem(count, Pow2(order + 1))
      invariant order == start ==> l == left
      invariant order < start ==> Aligned(order + 1, l)
      invariant Canonical(block', Usable(reserve, l))
    {
      var rem := left + count - l;
      Digit(count, Pow2(order), rem);
      if Quot(count, Pow2(order)) % 2 == 1 {
        PartChunk(block', reserve, l, order, left + count);
        block' := block'[order := block'[order] + [l]];
        l := l + Pow2(order);
      } else if order < start {
        AlignedDown(order, order + 1, l);
      }
      order := order - 1;
    }
    assert Pow2(0) == 1;
  }

  // The loop that counts usable pages, up to the limit
  method CountUsable(reserve: seq<bool>, left: nat, limit: nat) returns (count: nat)
    requires left <= |reserve|
    ensures count <= limit && left + count <= |reserve|
    ensures forall x :: left <= x < left + count ==> !reserve[x]
    ensures count < limit && left + count < |reserve| ==> reserve[left + count]
  {
    count := 0;
    var right: nat := left;
    while right != |reserve| && !reserve[right] && count < limit
      invariant count <= limit && right == left + count <= |reserve|
      invariant forall x :: left <= x < right ==> !reserve[x]
    {
      count := count + 1;
      right := right + 1;
    }
  }

  // One turn of buddy_system_init at a page that is not reserved: scan a chunk and list it
  method ListChunk(block: Lists, reserve: seq<bool>, left: nat) returns (block': Lists, right: nat)
    requires left < |reserve| && !reserve[left] && Frontier(reserve, left)
    requires Canonical(block, Usable(reserve, left))
    ensures left < right <= |reserve| && Canonical(block', Usable(reserve, right))
    ensures right < |reserve| && !reserve[right] ==> Frontier(reserve, right)
  {
    var order := CheckOrder(left);
    var count := CountUsable(reserve, left, Pow2(order));
    right := left + count;
    if count == Pow2(order) {
      FullChunk(block, reserve, left, order);
      block' := block[order := block[order] + [left]];
    } else {
      block' := Decompose(block, reserve, left, count, order);
    }
  }

  lemma EmptyLists(reserve: seq<bool>)
    ensures Canonical(seq(MAX_ORDER, _ => []), Usable(reserve, 0))
  {
    forall k: nat, a: nat ensures !Maximal({}, k, a) {
      assert Same(k, a, a);
    }
    assert Usable(reserve, 0) == {};
  }

  // buddy_system_init over the page array's reservation flags
  method BuddySystemInit(reserve: seq<bool>) returns (a: Allocator)
    ensures a.Valid(Usable(reserve, |reserve|))
    ensures Canonical(a.block, Usable(reserve, |reserve|))
    ensures a.activate == [] && a.held == map[] && a.flight == {}
  {
    var block: Lists := seq(MAX_ORDER, _ => []);
    var right: nat := 0;
    EmptyLists(reserve);
    while right != |reserve|
      invariant right <= |reserve|
      invariant Canonical(block, Usable(reserve, right))
      invariant right < |reserve| && !reserve[right] ==> Frontier(reserve, right)
    {
      if reserve[right] {
        FrontierAfterReserved(reserve, right);
        right := right + 1;
      } else {
        block, right := ListChunk(block, reserve, right);
      }
    }
    a := new Allocator(block);
    assert HeldPages(map[]) == {};
  }
}
