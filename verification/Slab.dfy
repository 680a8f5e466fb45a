/**
 The slab cache as a transition system over object addresses. A slab keeps a stack of free indices
 in its array; the objects that are handed out are the indices missing from that stack. The release
 loop of kmem_cache_free gives pages back without unlinking the slab, so the cache stays sound
 exactly as long as a free leaves at most SLAB_MAX_FREE empty slabs.
 */
module Slab {
  import opened LinkedLists
  import opened SlabLayout

  const SLAB_MAX_FREE := 4

  datatype Header = Header(bufctl: seq<nat>, inuse: nat, free: nat)

  // The headers by slab address, the three lists, the two counters, and the slabs whose pages the
  // cache holds
  datatype State = State(
    slabs: map<nat, Header>,
    partial: seq<nat>, full: seq<nat>, empty: seq<nat>,
    freeSlab: int, totalSlab: nat,
    owned: set<nat>)

  // ----- meaning -----

  // The stack of free indices, next one first
  function Stack(h: Header): seq<nat> {
    if h.free < |h.bufctl| then h.bufctl[h.free..|h.bufctl| - 1] else []
  }

  // The addresses of the objects that are handed out
  ghost function LiveIn(l: Layout, slabs: map<nat, Header>): set<nat> {
    set b, i | b in slabs && 0 <= i < l.num && i !in Stack(slabs[b]) :: Object(l, b, i)
  }

  ghost function Live(l: Layout, s: State): set<nat> {
    LiveIn(l, s.slabs)
  }

  predicate HeaderOk(l: Layout, h: Header) {
    && |h.bufctl| == l.num + 1 && h.bufctl[l.num] == BUFCTL_END
    && h.inuse == h.free <= l.num
    && Distinct(Stack(h))
    && forall i :: i in Stack(h) ==> i < l.num
  }

  predicate Apart(l: Layout, b: nat, c: nat) {
    b + Bytes(l.order) <= c || c + Bytes(l.order) <= b
  }

  ghost predicate AllApart(l: Layout, slabs: set<nat>) {
    forall b, c {:trigger Apart(l, b, c)} :: b in slabs && c in slabs && b != c ==> Apart(l, b, c)
  }

  ghost predicate Inv(l: Layout, s: State) {
    && Fits(l)
    && AllApart(l, s.slabs.Keys)
    && (forall b {:trigger SlabOk(l, s, b)} :: b in s.slabs ==> SlabOk(l, s, b))
    && Listed(s.slabs.Keys, s.partial, s.full, s.empty)
    && s.freeSlab == |s.empty| <= SLAB_MAX_FREE
    && s.totalSlab == |s.slabs|
    && s.owned == s.slabs.Keys
  }

  // The list a slab is on bounds the number of its objects in use
  predicate SlabOk(l: Layout, s: State, b: nat)
    requires b in s.slabs
  {
    var h := s.slabs[b];
    && HeaderOk(l, h)
    && (b in s.partial ==> 0 < h.inuse < l.num)
    && (b in s.full ==> 0 < h.inuse)
    && (b in s.empty ==> h.inuse == 0)
  }

  // Every slab is on exactly one list
  ghost predicate Listed(slabs: set<nat>, partial: seq<nat>, full: seq<nat>, empty: seq<nat>) {
    && Distinct(partial) && Distinct(full) && Distinct(empty)
    && (forall b :: b in slabs <==> b in partial || b in full || b in empty)
    && (forall b :: b in partial ==> b !in full && b !in empty)
    && (forall b :: b in full ==> b !in empty)
  }

  // ----- steps -----

  function NewHeader(l: Layout): Header {
    Header(seq(l.num, i => i) + [BUFCTL_END], 0, 0)
  }

  // cache_grow with the pages at address page
  function Grown(l: Layout, s: State, page: nat): State {
    s.(slabs := s.slabs[page := NewHeader(l)], empty := [page] + s.empty,
       freeSlab := s.freeSlab + 1, totalSlab := s.totalSlab + 1, owned := s.owned + {page})
  }

  function Pushed(h: Header): Header {
    h.(free := h.free + 1, inuse := h.inuse + 1)
  }

  // __cache_alloc: the first partial slab, or else the first empty one
  function Taken(l: Layout, s: State): Option<(nat, State)> {
    if s.partial != [] && s.partial[0] in s.slabs then
      var b := s.partial[0];
      var h := s.slabs[b];
      if h.free < |h.bufctl| then
        var t := s.(slabs := s.slabs[b := Pushed(h)]);
        Some((Object(l, b, h.bufctl[h.free]),
              if h.free + 1 == l.num then t.(partial := s.partial[1..], full := [b] + s.full) else t))
      else None
    else if s.empty != [] && s.empty[0] in s.slabs then
      var b := s.empty[0];
      var h := s.slabs[b];
      if h.free < |h.bufctl| then
        Some((Object(l, b, h.bufctl[h.free]),
              s.(slabs := s.slabs[b := Pushed(h)], empty := s.empty[1..], partial := [b] + s.partial,
                 freeSlab := s.freeSlab - 1)))
      else None
    else None
  }

  // kmem_cache_alloc when the page allocator would answer with page
  function Alloced(l: Layout, s: State, page: Option<nat>): (Option<nat>, State) {
    match Taken(l, s)
    case Some(r) => (Some(r.0), r.1)
    case None =>
      if page.None? then (None, s)
      else
        var g := Grown(l, s, page.value);
        match Taken(l, g)
        case Some(r) => (Some(r.0), r.1)
        case None => (None, g)
  }

  // The first slab of a list that the address indexes
  function Owner(l: Layout, list: seq<nat>, addr: nat): Option<nat>
    requires l.size > 0 && l.num > 0
  {
    if list == [] then None
    else if SlabIndex(l, list[0], addr).Some? then Some(list[0])
    else Owner(l, list[1..], addr)
  }

  function Popped(h: Header, i: nat): Header
    requires 0 < h.free <= |h.bufctl| && h.inuse > 0
  {
    Header(h.bufctl[h.free - 1 := i], h.inuse - 1, h.free - 1)
  }

  predicate CanReturn(s: State, b: nat) {
    b in s.slabs && 0 < s.slabs[b].free <= |s.slabs[b].bufctl| && s.slabs[b].inuse > 0
  }

  // __cache_free of index i of slab b
  function Returned(s: State, b: nat, i: nat): State
    requires CanReturn(s, b)
  {
    var t := s.(slabs := s.slabs[b := Popped(s.slabs[b], i)]);
    if s.slabs[b].inuse > 1 then t
    else t.(full := Remove(s.full, b), partial := Remove(s.partial, b), empty := [b] + s.empty,
            freeSlab := s.freeSlab + 1)
  }

  // The release loop of kmem_cache_free: pages go back, the list keeps the slab
  function Released(s: State): State
    decreases s.freeSlab
  {
    if s.freeSlab > SLAB_MAX_FREE && s.empty != [] then
      Released(s.(owned := s.owned - {s.empty[0]}, freeSlab := s.freeSlab - 1))
    else s
  }

  ghost function Freed(l: Layout, s: State, addr: nat): State
    requires Inv(l, s) && addr in Live(l, s)
  {
    var (b, i) := Locate(l, s, addr);
    FreedAt(l, s, b, i)
  }

  ghost function FreedAt(l: Layout, s: State, b: nat, i: nat): State
    requires Inv(l, s) && LiveSlot(l, s, b, i)
  {
    LiveSlab(l, s, b, i);
    Released(Returned(s, b, i))
  }

  // ----- lookup -----

  ghost predicate LiveSlot(l: Layout, s: State, b: nat, i: nat) {
    b in s.slabs && i < l.num && i !in Stack(s.slabs[b])
  }

  // The slab and index of a live object
  ghost function Locate(l: Layout, s: State, addr: nat): (r: (nat, nat))
    requires Inv(l, s) && addr in Live(l, s)
    ensures LiveSlot(l, s, r.0, r.1) && addr == Object(l, r.0, r.1)
  {
    var b, i :| b in s.slabs && 0 <= i < l.num && i !in Stack(s.slabs[b]) && addr == Object(l, b, i);
    (b, i)
  }

  // A slab with a live object has handed something out
  lemma LiveSlab(l: Layout, s: State, b: nat, i: nat)
    requires Inv(l, s) && LiveSlot(l, s, b, i)
    ensures CanReturn(s, b) && (b in s.partial || b in s.full)
  {
    assert SlabOk(l, s, b);
    var h := s.slabs[b];
    if h.free == 0 {
      FullStack(Stack(h), l.num);
    }
  }

  // A duplicate-free list of n numbers below n holds all of them
  lemma {:induction false} FullStack(s: seq<nat>, n: nat)
    requires |s| == n && Distinct(s) && forall x :: x in s ==> x < n
    ensures forall i :: 0 <= i < n ==> i in s
    decreases n
  {
    if n > 0 {
      if n - 1 in s {
        RemoveDistinct(s, n - 1);
        RemoveLength(s, n - 1);
        FullStack(Remove(s, n - 1), n - 1);
      } else {
        DistinctTail(s);
        FullStack(s[1..], n - 1);
        assert false;
      }
    }
  }

  lemma {:induction false} RemoveLength(s: seq<nat>, x: nat)
    requires x in s
    ensures |Remove(s, x)| == |s| - 1
  {
    if s[0] != x {
      RemoveLength(s[1..], x);
    }
  }

  // Searching a list for a live object's address ends at its slab, wherever that is in the list
  lemma {:induction false} OwnerFinds(l: Layout, s: State, list: seq<nat>, b: nat, i: nat)
    requires Inv(l, s) && b in s.slabs && i < l.num
    requires forall c :: c in list ==> c in s.slabs
    ensures Owner(l, list, Object(l, b, i)) == if b in list then Some(b) else None
  {
    if list != [] {
      assert list[0] in s.slabs && (list[0] != b ==> Apart(l, b, list[0]));
      SlabIndexFinds(l, b, i, list[0]);
      OwnerFinds(l, s, list[1..], b, i);
    }
  }
}
