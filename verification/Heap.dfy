/**
 The user-space heap: first-fit malloc over a coalesced free list, growing with sbrk. Blocks are
 the descriptor nodes of the code; nodes counts the spare descriptors. data records the regions
 taken from sbrk for blocks, which the code itself does not remember.
 */
module Heap {
  import opened HeapBlocks

  const EACH_BRK := 0x2000
  const NODE_INC_SIZE := 1024
  const NODE_SIZE := 32

  // The values of size_t
  const SIZE_T := 0x1_0000_0000_0000_0000
  type Size = x: nat | x < SIZE_T

  datatype State = State(free: seq<Block>, busy: seq<Block>, nodes: nat, brk: nat, data: seq<Block>)

  datatype Op = Malloc(size: Size) | Free(ptr: nat)

  // The request in multiples of eight, computed in size_t
  function RoundUp(size: Size): nat {
    (size + 7) % SIZE_T / 8 * 8
  }

  // A request that does not round to zero: zero itself does, and so do the seven largest values
  predicate Servable(size: Size) {
    0 < size <= SIZE_T - 8
  }

  // ----- the operations -----

  // alloc_node: take a spare descriptor, first buying a batch if there is none
  function WithNode(s: State): State {
    if s.nodes == 0 then s.(nodes := NODE_INC_SIZE - 1, brk := s.brk + NODE_INC_SIZE * NODE_SIZE)
    else s.(nodes := s.nodes - 1)
  }

  // The first block of the list that is large enough
  function FirstFit(free: seq<Block>, n: nat): (i: nat)
    ensures i <= |free|
    ensures i < |free| ==> free[i].size >= n
    ensures forall j :: 0 <= j < i ==> free[j].size < n
  {
    if free == [] then 0 else if free[0].size >= n then 0 else 1 + FirstFit(free[1..], n)
  }

  function Without(s: seq<Block>, i: nat): seq<Block>
    requires i < |s|
  {
    s[..i] + s[i + 1..]
  }

  // A block of at least n bytes, off the free list or fresh from sbrk
  function Found(s: State, n: nat): (r: (State, Block))
    ensures r.1.size >= n
  {
    var i := FirstFit(s.free, n);
    if i < |s.free| then (s.(free := Without(s.free, i)), s.free[i])
    else
      var t := WithNode(s);
      var b := Block(t.brk, if n > EACH_BRK then n else EACH_BRK);
      (t.(brk := b.End(), data := t.data + [b]), b)
  }

  // merge_free, which returns the descriptors of joined blocks
  function Release(s: State, b: Block): State {
    var free := Merged(s.free, b);
    s.(free := free, nodes := s.nodes + if |s.free| + 1 >= |free| then |s.free| + 1 - |free| else 0)
  }

  // Hand out the first n bytes of b and put back the rest
  function Carved(s: State, b: Block, n: nat): State
    requires n <= b.size
  {
    var t := if b.size > n then Release(WithNode(s), Block(b.ptr + n, b.size - n)) else s;
    t.(busy := t.busy + [Block(b.ptr, n)])
  }

  function Malloced(s: State, size: Size): (State, nat) {
    var (t, b) := Found(s, RoundUp(size));
    (Carved(t, b, RoundUp(size)), b.ptr)
  }

  // The first busy block that starts at ptr
  function IndexOf(busy: seq<Block>, ptr: nat): (i: nat)
    ensures i <= |busy|
    ensures i < |busy| ==> busy[i].ptr == ptr
    ensures forall j :: 0 <= j < i ==> busy[j].ptr != ptr
  {
    if busy == [] then 0 else if busy[0].ptr == ptr then 0 else 1 + IndexOf(busy[1..], ptr)
  }

  function Freed(s: State, ptr: nat): State {
    var i := IndexOf(s.busy, ptr);
    if ptr == 0 || i == |s.busy| then s
    else Release(s.(busy := Without(s.busy, i)), s.busy[i])
  }

  function Step(s: State, op: Op): State {
    match op
    case Malloc(size) => Malloced(s, size).0
    case Free(ptr) => Freed(s, ptr)
  }

  // ----- the invariant -----

  // Addresses and sizes are multiples of eight, and no block is at the null address
  predicate Placed(s: seq<Block>) {
    forall i :: 0 <= i < |s| ==> s[i].ptr > 0 && s[i].ptr % 8 == 0 && s[i].size % 8 == 0
  }

  // No block empty, no two overlap
  predicate Packed(s: seq<Block>) {
    && (forall i :: 0 <= i < |s| ==> s[i].size > 0)
    && (forall i, j :: 0 <= i < j < |s| ==> Separate(s[i], s[j]))
  }

  ghost predicate Disjoint(s: seq<Block>, t: seq<Block>) {
    forall x: nat :: !(Covers(s, x) && Covers(t, x))
  }

  // s and t together cover the same bytes as r
  ghost predicate Tiles(r: seq<Block>, s: seq<Block>, t: seq<Block>) {
    forall x: nat :: Covers(r, x) <==> Covers(s, x) || Covers(t, x)
  }

  predicate Below(s: seq<Block>, brk: nat) {
    forall i :: 0 <= i < |s| ==> s[i].End() <= brk
  }

  ghost predicate Inv(s: State) {
    && Coalesced(s.free) && Packed(s.busy) && Disjoint(s.free, s.busy) && Tiles(s.data, s.free, s.busy)
    && Placed(s.free) && Placed(s.busy) && Placed(s.data) && s.brk % 8 == 0 && s.brk > 0
    && Below(s.data, s.brk)
    && (|s.free| + |s.busy| + s.nodes) % NODE_INC_SIZE == 0
  }

  // ----- lists and bytes -----

  lemma CoversAppend(s: seq<Block>, b: Block, x: nat)
    ensures Covers(s + [b], x) <==> Covers(s, x) || Within(b, x)
  {
    var t := s + [b];
    if Covers(s, x) {
      var i :| 0 <= i < |s| && Within(s[i], x);
      assert Within(t[i], x);
    }
    if Within(b, x) {
      assert Within(t[|s|], x);
    }
    if Covers(t, x) {
      var i :| 0 <= i < |t| && Within(t[i], x);
      assert i < |s| ==> Within(s[i], x);
    }
  }

  lemma CoversWithout(s: seq<Block>, i: nat, x: nat)
    requires i < |s|
    ensures Covers(s, x) <==> Covers(Without(s, i), x) || Within(s[i], x)
  {
    var t := Without(s, i);
    if Covers(s, x) {
      var j :| 0 <= j < |s| && Within(s[j], x);
      assert j < i ==> Within(t[j], x);
      assert j > i ==> Within(t[j - 1], x);
    }
    if Covers(t, x) {
      var j :| 0 <= j < |t| && Within(t[j], x);
      assert j < i ==> Within(s[j], x);
      assert j >= i ==> Within(s[j + 1], x);
    }
  }

  // Blocks without a common byte are separate
  lemma NoCommonByte(s: seq<Block>, b: Block)
    requires b.size > 0 && (forall i :: 0 <= i < |s| ==> s[i].size > 0)
    requires forall x: nat :: Within(b, x) ==> !Covers(s, x)
    ensures Clear(s, b)
  {
    forall i | 0 <= i < |s| ensures Separate(s[i], b) {
      if !Separate(s[i], b) {
        var x := if s[i].ptr < b.ptr then b.ptr else s[i].ptr;
        assert Within(b, x) && Within(s[i], x);
        assert Covers(s, x);
        assert false;
      }
    }
  }

  // A member of a packed list shares no byte with the others
  lemma PackedApart(s: seq<Block>, i: nat, x: nat)
    requires Packed(s) && i < |s| && Within(s[i], x)
    ensures !Covers(Without(s, i), x)
  {
  }

  lemma CoalescedPacked(s: seq<Block>)
    requires Coalesced(s)
    ensures Packed(s)
  {
  }

  lemma BelowCovers(s: seq<Block>, brk: nat, x: nat)
    requires Below(s, brk) && Covers(s, x)
    ensures x < brk
  {
  }

  lemma {:induction false} MergedShort(s: seq<Block>, b: Block)
    ensures |Merged(s, b)| <= |s| + 1
    decreases |s|
  {
    if s != [] {
      MergedShort(s[1..], Block(s[0].ptr, b.size + s[0].size));
      MergedShort(s[1..], Block(b.ptr, b.size + s[0].size));
      MergedShort(s[1..], b);
    }
  }

  lemma {:induction false} MergedPlaced(s: seq<Block>, b: Block)
    requires Placed(s) && b.ptr > 0 && b.ptr % 8 == 0 && b.size % 8 == 0
    ensures Placed(Merged(s, b))
    decreases |s|
  {
    if s != [] {
      MergedPlaced(s[1..], Block(s[0].ptr, b.size + s[0].size));
      MergedPlaced(s[1..], Block(b.ptr, b.size + s[0].size));
      MergedPlaced(s[1..], b);
    }
  }

  // ----- one block in hand -----

  // The invariant while b is neither on the free list nor on the busy list
  ghost predicate Loose(s: State, b: Block) {
    && Coalesced(s.free) && Packed(s.busy) && Disjoint(s.free, s.busy)
    && b.size > 0 && b.ptr > 0 && b.ptr % 8 == 0 && b.size % 8 == 0
    && (forall x: nat :: Within(b, x) ==> !Covers(s.free, x) && !Covers(s.busy, x))
    && (forall x: nat :: Covers(s.data, x) <==> Covers(s.free, x) || Covers(s.busy, x) || Within(b, x))
    && Placed(s.free) && Placed(s.busy) && Placed(s.data) && s.brk % 8 == 0 && s.brk > 0
    && Below(s.data, s.brk)
    && (|s.free| + |s.busy| + 1 + s.nodes) % NODE_INC_SIZE == 0
  }

  lemma ReleaseInv(s: State, b: Block)
    requires Loose(s, b)
    ensures Inv(Release(s, b))
  {
    NoCommonByte(s.free, b);
    MergedCoalesced(s.free, b);
    MergedShort(s.free, b);
    MergedPlaced(s.free, b);
    forall x: nat ensures Covers(Merged(s.free, b), x) <==> Covers(s.free, x) || Within(b, x) {
      MergedCovers(s.free, b, x);
    }
  }

  // Handing out the block
  lemma BusyInv(s: State, b: Block)
    requires Loose(s, b)
    ensures Inv(s.(busy := s.busy + [b]))
  {
    NoCommonByte(s.busy, b);
    forall x: nat ensures Covers(s.busy + [b], x) <==> Covers(s.busy, x) || Within(b, x) {
      CoversAppend(s.busy, b, x);
    }
  }

  // Handing out its first n bytes, with a new descriptor for the rest
  lemma SplitLoose(s: State, b: Block, n: nat)
    requires Loose(s, b) && 0 < n < b.size && n % 8 == 0
    ensures Loose(WithNode(s).(busy := s.busy + [Block(b.ptr, n)]), Block(b.ptr + n, b.size - n))
  {
    var front, rest := Block(b.ptr, n), Block(b.ptr + n, b.size - n);
    SplitBlock(b, n);
    NoCommonByte(s.busy, front);
    CountNode(|s.free| + |s.busy| + 1, s);
    forall x: nat ensures Covers(s.busy + [front], x) <==> Covers(s.busy, x) || Within(front, x) {
      CoversAppend(s.busy, front, x);
    }
  }

  lemma SplitBlock(b: Block, n: nat)
    requires b.ptr % 8 == 0 && b.size % 8 == 0 && n % 8 == 0 && 0 < n < b.size
    ensures var front, rest := Block(b.ptr, n), Block(b.ptr + n, b.size - n);
            && rest.ptr % 8 == 0 && rest.size % 8 == 0
            && forall x: nat ::
                 (Within(b, x) <==> Within(front, x) || Within(rest, x)) && !(Within(front, x) && Within(rest, x))
  {
  }

  // One descriptor more in use
  lemma CountNode(k: nat, s: State)
    requires (k + s.nodes) % NODE_INC_SIZE == 0
    ensures (k + 1 + WithNode(s).nodes) % NODE_INC_SIZE == 0 && WithNode(s).brk >= s.brk
    ensures s.brk % 8 == 0 ==> WithNode(s).brk % 8 == 0
  {
  }

  lemma FoundLoose(s: State, n: nat)
    requires Inv(s) && n % 8 == 0
    ensures var (t, b) := Found(s, n); Loose(t, b) && b.size >= n && t.busy == s.busy
  {
    var i := FirstFit(s.free, n);
    if i < |s.free| {
      UnlistedLoose(s, i);
    } else {
      FreshLoose(WithNode(s), s, n);
    }
  }

  // A block taken off the free list
  lemma UnlistedLoose(s: State, i: nat)
    requires Inv(s) && i < |s.free|
    ensures Loose(s.(free := Without(s.free, i)), s.free[i])
  {
    CoalescedPacked(s.free);
    forall x: nat ensures Covers(s.free, x) <==> Covers(Without(s.free, i), x) || Within(s.free[i], x) {
      CoversWithout(s.free, i, x);
    }
    forall x: nat | Within(s.free[i], x) ensures !Covers(Without(s.free, i), x) {
      PackedApart(s.free, i, x);
    }
  }

  // A region from sbrk is beyond everything
  lemma FreshLoose(t: State, s: State, n: nat)
    requires Inv(s) && t == WithNode(s) && n % 8 == 0
    ensures var b := Block(t.brk, if n > EACH_BRK then n else EACH_BRK);
            Loose(t.(brk := b.End(), data := t.data + [b]), b)
  {
    var b := Block(t.brk, if n > EACH_BRK then n else EACH_BRK);
    CountNode(|s.free| + |s.busy|, s);
    forall x: nat ensures Covers(t.data + [b], x) <==> Covers(t.data, x) || Within(b, x) {
      CoversAppend(t.data, b, x);
    }
    forall x: nat | Within(b, x) ensures !Covers(s.data, x) {
      if Covers(s.data, x) {
        BelowCovers(s.data, s.brk, x);
        assert false;
      }
    }
  }

  // malloc keeps the invariant exactly for the requests that do not round to zero
  lemma MallocedInv(s: State, size: Size)
    requires Inv(s)
    ensures Inv(Malloced(s, size).0) <==> Servable(size)
  {
    RoundUpFacts(size);
    FoundLoose(s, RoundUp(size));
    var (t, b) := Found(s, RoundUp(size));
    if Servable(size) {
      CarvedInv(t, b, RoundUp(size));
    } else {
      var u := Malloced(s, size).0;
      assert u.busy[|s.busy|].size == 0;
    }
  }

  lemma RoundUpFacts(size: Size)
    ensures RoundUp(size) % 8 == 0
    ensures if Servable(size) then size <= RoundUp(size) < size + 8 else RoundUp(size) == 0
  {
  }

  lemma CarvedInv(s: State, b: Block, n: nat)
    requires Loose(s, b) && 0 < n <= b.size && n % 8 == 0
    ensures Inv(Carved(s, b, n))
  {
    if b.size > n {
      SplitLoose(s, b, n);
      var t := WithNode(s).(busy := s.busy + [Block(b.ptr, n)]);
      ReleaseInv(t, Block(b.ptr + n, b.size - n));
      assert Carved(s, b, n) == Release(t, Block(b.ptr + n, b.size - n));
    } else {
      BusyInv(s, b);
    }
  }

  lemma FreedInv(s: State, ptr: nat)
    requires Inv(s)
    ensures Inv(Freed(s, ptr))
  {
    var i := IndexOf(s.busy, ptr);
    if ptr != 0 && i < |s.busy| {
      BusyLoose(s, i);
      ReleaseInv(s.(busy := Without(s.busy, i)), s.busy[i]);
    }
  }

  lemma BusyLoose(s: State, i: nat)
    requires Inv(s) && i < |s.busy|
    ensures Loose(s.(busy := Without(s.busy, i)), s.busy[i])
  {
    forall x: nat ensures Covers(s.busy, x) <==> Covers(Without(s.busy, i), x) || Within(s.busy[i], x) {
      CoversWithout(s.busy, i, x);
    }
    forall x: nat | Within(s.busy[i], x) ensures !Covers(Without(s.busy, i), x) {
      PackedApart(s.busy, i, x);
    }
  }

  // Free takes exactly the block that starts at the address off the busy list and adds its bytes to
  // the free ones; no other address has any effect
  lemma FreedExactly(s: State, ptr: nat)
    requires Inv(s)
    ensures forall i :: 0 <= i < |s.busy| && s.busy[i].ptr == ptr ==> Returned(s, i, Freed(s, ptr))
    ensures (forall i :: 0 <= i < |s.busy| ==> s.busy[i].ptr != ptr) ==> Freed(s, ptr) == s
  {
    forall i | 0 <= i < |s.busy| && s.busy[i].ptr == ptr ensures Returned(s, i, Freed(s, ptr)) {
      var j := IndexOf(s.busy, ptr);
      assert j <= i;
      assert j < i ==> Separate(s.busy[j], s.busy[i]);
      FreedAddsBytes(s, i);
    }
  }

  // t is s with the i-th busy block free
  ghost predicate Returned(s: State, i: nat, t: State)
    requires i < |s.busy|
  {
    && t.busy == s.busy[..i] + s.busy[i + 1..] && t.data == s.data && t.brk == s.brk
    && forall x: nat :: Covers(t.free, x) <==> Covers(s.free, x) || Within(s.busy[i], x)
  }

  lemma FreedAddsBytes(s: State, i: nat)
    requires Inv(s) && i < |s.busy|
    ensures forall x: nat :: Covers(Merged(s.free, s.busy[i]), x) <==> Covers(s.free, x) || Within(s.busy[i], x)
  {
    BusyLoose(s, i);
    NoCommonByte(s.free, s.busy[i]);
    forall x: nat ensures Covers(Merged(s.free, s.busy[i]), x) <==> Covers(s.free, x) || Within(s.busy[i], x) {
      MergedCovers(s.free, s.busy[i], x);
    }
  }

  // ----- runs -----

  // __malloc_init on a heap that starts at brk
  function Init(brk: nat): State {
    var first := Block(brk + NODE_INC_SIZE * NODE_SIZE, EACH_BRK);
    State([first], [], NODE_INC_SIZE - 1, first.End(), [first])
  }

  lemma InitInv(brk: nat)
    requires brk % 8 == 0
    ensures Inv(Init(brk))
  {
    assert forall x: nat :: !Covers([], x);
  }

  function Run(s: State, ops: seq<Op>): State
    decreases |ops|
  {
    if ops == [] then s else Run(Step(s, ops[0]), ops[1..])
  }

  lemma StepInv(s: State, op: Op)
    requires Inv(s) && (op.Malloc? ==> Servable(op.size))
    ensures Inv(Step(s, op))
  {
    match op
    case Malloc(size) => MallocedInv(s, size);
    case Free(ptr) => FreedInv(s, ptr);
  }

  // Over any run of requests that do not round to zero the heap stays tiled and coalesced
  lemma {:induction false} RunInv(s: State, ops: seq<Op>)
    requires Inv(s) && forall i :: 0 <= i < |ops| && ops[i].Malloc? ==> Servable(ops[i].size)
    ensures Inv(Run(s, ops))
    decreases |ops|
  {
    if ops != [] {
      StepInv(s, ops[0]);
      RunInv(Step(s, ops[0]), ops[1..]);
    }
  }

  // ----- what malloc and free promise -----

  // malloc hands out a block of its own, with room for size bytes, and leaves the other blocks alone
  lemma MallocFresh(s: State, size: Size)
    requires Inv(s) && Servable(size)
    ensures var (t, p) := Malloced(s, size);
            var b := Block(p, RoundUp(size));
            && p > 0 && b.size % 8 == 0 && size <= b.size < size + 8 && t.busy == s.busy + [b]
            && forall x: nat :: Within(b, x) ==> !Covers(s.busy, x)
  {
    RoundUpFacts(size);
    FoundLoose(s, RoundUp(size));
  }

  // First fit: without sbrk, the block comes from the lowest free block that is large enough
  lemma MallocFirstFit(s: State, size: Size)
    requires Inv(s) && exists i :: 0 <= i < |s.free| && s.free[i].size >= RoundUp(size)
    ensures exists i :: 0 <= i < |s.free| && s.free[i].size >= RoundUp(size) && Malloced(s, size).1 == s.free[i].ptr
                     && (forall j :: 0 <= j < i ==> s.free[j].size < RoundUp(size))
    ensures Malloced(s, size).0.data == s.data
    ensures Malloced(s, size).0.busy == s.busy + [Block(Malloced(s, size).1, RoundUp(size))]
  {
    var i := FirstFit(s.free, RoundUp(size));
    assert i < |s.free|;
  }

  lemma LastIndex(busy: seq<Block>, b: Block)
    requires Packed(busy + [b])
    ensures IndexOf(busy + [b], b.ptr) == |busy|
  {
    var t := busy + [b];
    forall j | 0 <= j < |busy| ensures t[j].ptr != b.ptr {
      assert Separate(t[j], t[|busy|]);
    }
    assert t[|busy|].ptr == b.ptr;
  }

  // Freeing what malloc just returned gives back the same busy list; the free bytes are those of
  // before and the new region, and without a new region the free list itself is restored
  lemma MallocThenFree(s: State, size: Size)
    requires Inv(s) && Servable(size)
    ensures var (t, p) := Malloced(s, size);
            var u := Freed(t, p);
            && Inv(u) && u.busy == s.busy && u.data == t.data
            && (forall x: nat :: Covers(u.free, x) <==> Covers(s.free, x) || (Covers(t.data, x) && !Covers(s.data, x)))
            && (t.data == s.data ==> u.free == s.free)
  {
    var (t, p) := Malloced(s, size);
    MallocFresh(s, size);
    MallocedInv(s, size);
    var b := Block(p, RoundUp(size));
    LastIndex(s.busy, b);
    assert Without(t.busy, |s.busy|) == s.busy;
    var u := Freed(t, p);
    FreedInv(t, p);
    DataGrows(s, size);
    forall x: nat ensures Covers(u.free, x) <==> Covers(s.free, x) || (Covers(t.data, x) && !Covers(s.data, x)) {
    }
    if t.data == s.data {
      CoalescedUnique(u.free, s.free);
    }
  }

  lemma DataGrows(s: State, size: Size)
    ensures forall x: nat :: Covers(s.data, x) ==> Covers(Malloced(s, size).0.data, x)
  {
    var (t, b) := Found(s, RoundUp(size));
    forall x: nat | Covers(s.data, x) ensures Covers(t.data, x) {
      CoversAppend(s.data, b, x);
    }
  }

  // Taking no byte from the first free block and putting it back leaves the free list as it was
  lemma FirstPutBack(free: seq<Block>)
    requires Coalesced(free) && free != []
    ensures Without(free, 0) == free[1..] && Merged(free[1..], free[0]) == free
  {
    var b, rest := free[0], free[1..];
    assert rest != [] ==> b.End() < rest[0].ptr;
    assert Merged(rest, b) == [b] + rest;
  }

  // A request that rounds to zero takes no byte: it leaves the free list as it was, or puts a whole
  // new region on it
  lemma MallocTakesNothing(s: State, size: Size)
    requires Inv(s) && !Servable(size)
    ensures var (t, p) := Malloced(s, size);
            && t.free == (if s.free != [] then s.free else [Block(p, EACH_BRK)])
            && t.free[0].ptr == p < t.brk && t.busy == s.busy + [Block(p, 0)]
  {
    RoundUpFacts(size);
    if s.free != [] {
      FirstPutBack(s.free);
      var b := s.free[0];
      assert Block(b.ptr + 0, b.size - 0) == b;
      assert Within(b, b.ptr) && Covers(s.free, b.ptr) && Covers(s.data, b.ptr);
    }
  }

  // Its address is the start of the first free block, and the next request gets it too exactly when
  // that block is large enough
  lemma MallocZeroAliases(s: State, size: Size, n: Size)
    requires Inv(s) && !Servable(size)
    ensures var (t, p) := Malloced(s, size);
            && t.busy == s.busy + [Block(p, 0)] && t.free != [] && t.free[0].ptr == p
            && (Malloced(t, n).1 == p <==> RoundUp(n) <= t.free[0].size)
  {
    MallocTakesNothing(s, size);
    var t := Malloced(s, size).0;
    assert Coalesced(t.free);
    var i := FirstFit(t.free, RoundUp(n));
    assert 0 < i < |t.free| ==> t.free[0].End() < t.free[i].ptr;
  }

  // The returned address is the caller's own exactly when the request does not round to zero;
  // otherwise it stays free memory
  lemma MallocOwnsExactly(s: State, size: Size)
    requires Inv(s)
    ensures var (t, p) := Malloced(s, size);
            Covers(t.free, p) <==> size == 0 || size > SIZE_T - 8
  {
    RoundUpFacts(size);
    FoundLoose(s, RoundUp(size));
    var (t, b) := Found(s, RoundUp(size));
    if Servable(size) {
      MallocedInv(s, size);
      var u := Malloced(s, size).0;
      assert u.busy == s.busy + [Block(b.ptr, RoundUp(size))];
      CoversAppend(s.busy, Block(b.ptr, RoundUp(size)), b.ptr);
    } else {
      NoCommonByte(t.free, b);
      MergedCovers(t.free, b, b.ptr);
    }
  }

  // The largest size_t value, say, is answered with memory that stays free
  lemma MallocHugeIsNotOwned(s: State)
    requires Inv(s)
    ensures var (t, p) := Malloced(s, SIZE_T - 1); Covers(t.free, p)
  {
    MallocOwnsExactly(s, SIZE_T - 1);
  }
}
