/**
 Histories of the heap: a block is busy from the request that returned it until its address is
 freed, and every byte that was asked of sbrk is accounted for.
 */
module HeapRuns {
  import opened HeapBlocks
  import opened Heap

  // No request of the run rounds to zero
  predicate Served(ops: seq<Op>) {
    forall i :: 0 <= i < |ops| && ops[i].Malloc? ==> Servable(ops[i].size)
  }

  // ----- busy blocks -----

  // One step takes a block off the busy list exactly when it frees the block's address
  lemma StepBusy(s: State, op: Op, b: Block)
    requires Inv(s) && b in s.busy && (op.Malloc? ==> Servable(op.size))
    ensures b in Step(s, op).busy <==> op != Free(b.ptr)
  {
    var k :| 0 <= k < |s.busy| && s.busy[k] == b;
    match op
    case Malloc(size) => MallocFresh(s, size);
    case Free(ptr) =>
      FreedExactly(s, ptr);
      if i :| 0 <= i < |s.busy| && s.busy[i].ptr == ptr {
        assert Returned(s, i, Freed(s, ptr));
        WithoutIndex(s.busy, i, k);
      }
  }

  lemma WithoutIndex(busy: seq<Block>, i: nat, k: nat)
    requires Packed(busy) && i < |busy| && k < |busy|
    ensures busy[k] in busy[..i] + busy[i + 1..] <==> busy[k].ptr != busy[i].ptr
  {
    var t := busy[..i] + busy[i + 1..];
    assert k < i ==> t[k] == busy[k];
    assert k > i ==> t[k - 1] == busy[k];
    if k != i {
      assert Separate(busy[if i < k then i else k], busy[if i < k then k else i]);
    }
  }

  // A block stays busy, whatever else is allocated and freed, exactly until its address is freed
  lemma {:induction false} BusyUntilFreed(s: State, ops: seq<Op>, b: Block)
    requires Inv(s) && Served(ops) && b in s.busy && Free(b.ptr) !in ops
    ensures b in Run(s, ops).busy && b !in Run(s, ops + [Free(b.ptr)]).busy
    decreases |ops|
  {
    if ops == [] {
      StepBusy(s, Free(b.ptr), b);
      assert ops + [Free(b.ptr)] == [Free(b.ptr)];
      assert Run(s, [Free(b.ptr)]) == Step(s, Free(b.ptr));
    } else {
      StepBusy(s, ops[0], b);
      StepInv(s, ops[0]);
      assert (ops + [Free(b.ptr)])[1..] == ops[1..] + [Free(b.ptr)];
      BusyUntilFreed(Step(s, ops[0]), ops[1..], b);
    }
  }

  // Between a malloc and the free of its result the block is the caller's: it is busy, and every
  // block that is handed out meanwhile shares no byte with it
  lemma MallocUntilFree(s: State, size: Size, ops: seq<Op>)
    requires Inv(s) && Servable(size) && Served(ops) && Free(Malloced(s, size).1) !in ops
    ensures var (t, p) := Malloced(s, size);
            var u := Run(t, ops);
            && Inv(u) && Block(p, RoundUp(size)) in u.busy
            && Block(p, RoundUp(size)) !in Run(t, ops + [Free(p)]).busy
            && forall c :: c in u.busy && c != Block(p, RoundUp(size)) ==> Separate(Block(p, RoundUp(size)), c)
  {
    MallocFresh(s, size);
    MallocedInv(s, size);
    var (t, p) := Malloced(s, size);
    var b := Block(p, RoundUp(size));
    BusyUntilFreed(t, ops, b);
    RunInv(t, ops);
    OthersSeparate(Run(t, ops).busy, b);
  }

  lemma OthersSeparate(busy: seq<Block>, b: Block)
    requires Packed(busy) && b in busy
    ensures forall c :: c in busy && c != b ==> Separate(b, c)
  {
    var k :| 0 <= k < |busy| && busy[k] == b;
    forall c | c in busy && c != b ensures Separate(b, c) {
      var j :| 0 <= j < |busy| && busy[j] == c;
      assert Separate(busy[if j < k then j else k], busy[if j < k then k else j]);
    }
  }

  // ----- growth -----

  // When no free block is large enough, one new region is taken: the request, or 8192 bytes if that
  // is more. It lies beyond the old break, and what the request leaves of it is free
  lemma MallocGrows(s: State, size: Size)
    requires Inv(s) && Servable(size) && forall i :: 0 <= i < |s.free| ==> s.free[i].size < RoundUp(size)
    ensures var (t, p) := Malloced(s, size);
            var region := if RoundUp(size) > 0x2000 then RoundUp(size) else 0x2000;
            && p >= s.brk && t.data == s.data + [Block(p, region)]
            && forall x: nat :: Covers(t.free, x) <==> Covers(s.free, x) || p + RoundUp(size) <= x < p + region
  {
    var (t, p) := Malloced(s, size);
    RoundUpFacts(size);
    MallocedInv(s, size);
    MallocFresh(s, size);
    var n := RoundUp(size);
    var region := Block(p, if n > 0x2000 then n else 0x2000);
    assert FirstFit(s.free, n) == |s.free|;
    assert t.data == s.data + [region];
    forall x: nat ensures Covers(t.free, x) <==> Covers(s.free, x) || p + n <= x < region.End() {
      CoversAppend(s.data, region, x);
      CoversAppend(s.busy, Block(p, n), x);
      if Covers(s.data, x) {
        var i :| 0 <= i < |s.data| && Within(s.data[i], x);
        assert x < s.brk;
      }
    }
  }

  // ----- what sbrk gave -----

  function Total(data: seq<Block>): nat {
    if data == [] then 0 else Total(data[..|data| - 1]) + data[|data| - 1].size
  }

  function Descriptors(s: State): nat {
    |s.free| + |s.busy| + s.nodes
  }

  // The break has moved by the regions for blocks and by 32 bytes for each descriptor
  predicate Accounted(s: State, start: nat) {
    s.brk == start + Total(s.data) + 32 * Descriptors(s)
  }

  lemma ReleaseCount(s: State, b: Block)
    ensures Descriptors(Release(s, b)) == Descriptors(s) + 1
  {
    MergedShort(s.free, b);
  }

  lemma FoundAccounted(s: State, n: nat, start: nat)
    requires Accounted(s, start)
    ensures var (t, b) := Found(s, n); t.brk == start + Total(t.data) + 32 * (Descriptors(t) + 1)
  {
    var (t, b) := Found(s, n);
    if FirstFit(s.free, n) == |s.free| {
      assert t.data[..|t.data| - 1] == s.data;
    }
  }

  lemma CarvedAccounted(s: State, b: Block, n: nat, start: nat)
    requires n <= b.size && s.brk == start + Total(s.data) + 32 * (Descriptors(s) + 1)
    ensures Accounted(Carved(s, b, n), start)
  {
    if b.size > n {
      ReleaseCount(WithNode(s), Block(b.ptr + n, b.size - n));
    }
  }

  lemma StepAccounted(s: State, op: Op, start: nat)
    requires Accounted(s, start)
    ensures Accounted(Step(s, op), start)
  {
    match op
    case Malloc(size) =>
      FoundAccounted(s, RoundUp(size), start);
      var (t, b) := Found(s, RoundUp(size));
      CarvedAccounted(t, b, RoundUp(size), start);
    case Free(ptr) =>
      var i := IndexOf(s.busy, ptr);
      if ptr != 0 && i < |s.busy| {
        ReleaseCount(s.(busy := Without(s.busy, i)), s.busy[i]);
      }
  }

  // After every history, requests of any size included
  lemma {:induction false} RunAccounted(s: State, ops: seq<Op>, start: nat)
    requires Accounted(s, start)
    ensures Accounted(Run(s, ops), start)
    decreases |ops|
  {
    if ops != [] {
      StepAccounted(s, ops[0], start);
      RunAccounted(Step(s, ops[0]), ops[1..], start);
    }
  }

  lemma InitAccounted(start: nat)
    ensures Accounted(Init(start), start)
  {
    assert Total([]) == 0;
    assert Init(start).data[..0] == [];
  }
}
