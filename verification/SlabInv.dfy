/**
 What each step of the slab cache does to the live objects, and that it keeps the invariant; for
 the release loop, exactly when.
 */
module SlabInv {
  import opened LinkedLists
  import opened SlabLayout
  import opened Slab

  // Different slots have different addresses
  lemma SameObject(l: Layout, b: nat, i: nat, c: nat, j: nat)
    requires Fits(l) && i < l.num && j < l.num && (b == c || Apart(l, b, c))
    requires Object(l, b, i) == Object(l, c, j)
    ensures b == c && i == j
  {
    if (b, i) != (c, j) {
      ObjectsApart(l, b, i, c, j);
    }
  }

  // Taking index i off slab b's stack makes its object live and changes nothing else
  lemma LiveTake(l: Layout, slabs: map<nat, Header>, b: nat, i: nat, h: Header)
    requires Fits(l) && AllApart(l, slabs.Keys)
    requires b in slabs && i < l.num && i in Stack(slabs[b])
    requires forall j :: j in Stack(h) <==> j in Stack(slabs[b]) && j != i
    ensures Object(l, b, i) !in LiveIn(l, slabs)
    ensures LiveIn(l, slabs[b := h]) == LiveIn(l, slabs) + {Object(l, b, i)}
  {
    var o := Object(l, b, i);
    forall c, j | c in slabs && 0 <= j < l.num && Object(l, c, j) == o ensures c == b && j == i {
      assert c == b || Apart(l, b, c);
      SameObject(l, b, i, c, j);
    }
    var t := slabs[b := h];
    forall x | x in LiveIn(l, t) ensures x in LiveIn(l, slabs) + {o} {
      var c, j :| c in t && 0 <= j < l.num && j !in Stack(t[c]) && x == Object(l, c, j);
      assert c in slabs;
    }
    forall x | x in LiveIn(l, slabs) ensures x in LiveIn(l, t) {
      var c, j :| c in slabs && 0 <= j < l.num && j !in Stack(slabs[c]) && x == Object(l, c, j);
      assert c in t && j !in Stack(t[c]);
    }
    assert b in t && i !in Stack(t[b]);
  }

  // ----- growing -----

  ghost predicate Fresh(l: Layout, s: State, page: nat) {
    forall b {:trigger Apart(l, b, page)} :: b in s.owned ==> Apart(l, b, page)
  }

  lemma NewHeaderOk(l: Layout)
    requires Fits(l)
    ensures HeaderOk(l, NewHeader(l)) && |Stack(NewHeader(l))| == l.num
    ensures forall i :: 0 <= i < l.num ==> i in Stack(NewHeader(l))
  {
    var st := Stack(NewHeader(l));
    forall i | 0 <= i < l.num ensures i in st {
      assert st[i] == i;
    }
  }

  lemma GrownApart(l: Layout, slabs: set<nat>, page: nat)
    requires Fits(l) && AllApart(l, slabs) && forall b {:trigger Apart(l, b, page)} :: b in slabs ==> Apart(l, b, page)
    ensures page !in slabs && AllApart(l, slabs + {page})
  {
    assert page in slabs ==> Apart(l, page, page);
    forall b, c | b in slabs + {page} && c in slabs + {page} && b != c ensures Apart(l, b, c) {
      assert c == page ==> Apart(l, b, page);
      assert b == page ==> Apart(l, c, page);
    }
  }

  lemma GrownInv(l: Layout, s: State, page: nat)
    requires Inv(l, s) && s.empty == [] && Fresh(l, s, page)
    ensures Inv(l, Grown(l, s, page)) && Live(l, Grown(l, s, page)) == Live(l, s)
  {
    GrownApart(l, s.slabs.Keys, page);
    assert Grown(l, s, page).slabs.Keys == s.slabs.Keys + {page};
    GrownSlabs(l, s, page);
    GrownListed(s.slabs.Keys, s.partial, s.full, page);
    GrownLive(l, s, page);
  }

  lemma GrownSlabs(l: Layout, s: State, page: nat)
    requires Inv(l, s) && s.empty == [] && page !in s.slabs
    ensures forall b {:trigger SlabOk(l, Grown(l, s, page), b)} ::
              b in Grown(l, s, page).slabs ==> SlabOk(l, Grown(l, s, page), b)
  {
    NewHeaderOk(l);
    var t := Grown(l, s, page);
    forall b | b in t.slabs ensures SlabOk(l, t, b) {
      assert b != page ==> SlabOk(l, s, b);
    }
  }

  lemma GrownListed(slabs: set<nat>, partial: seq<nat>, full: seq<nat>, page: nat)
    requires Listed(slabs, partial, full, []) && page !in slabs
    ensures Listed(slabs + {page}, partial, full, [page] + [])
  {
  }

  lemma GrownLive(l: Layout, s: State, page: nat)
    requires Fits(l) && page !in s.slabs
    ensures Live(l, Grown(l, s, page)) == Live(l, s)
  {
    NewHeaderOk(l);
    var t := Grown(l, s, page);
    forall x | x in Live(l, t) ensures x in Live(l, s) {
      var c, j :| c in t.slabs && 0 <= j < l.num && j !in Stack(t.slabs[c]) && x == Object(l, c, j);
      assert c in s.slabs;
    }
    forall x | x in Live(l, s) ensures x in Live(l, t) {
      var c, j :| c in s.slabs && 0 <= j < l.num && j !in Stack(s.slabs[c]) && x == Object(l, c, j);
      assert c in t.slabs && t.slabs[c] == s.slabs[c];
    }
  }

  // ----- taking -----

  lemma PushedOk(l: Layout, h: Header)
    requires HeaderOk(l, h) && h.free < l.num
    ensures HeaderOk(l, Pushed(h)) && h.bufctl[h.free] in Stack(h)
    ensures forall j :: j in Stack(Pushed(h)) <==> j in Stack(h) && j != h.bufctl[h.free]
  {
    assert Stack(h)[1..] == Stack(Pushed(h));
    DistinctTail(Stack(h));
  }

  // Allocation without growing fails exactly when no slab is partial or empty
  lemma TakenInv(l: Layout, s: State)
    requires Inv(l, s)
    ensures Taken(l, s).None? <==> s.partial == [] && s.empty == []
    ensures Taken(l, s).Some? ==>
              var (a, t) := Taken(l, s).value;
              Inv(l, t) && a !in Live(l, s) && Live(l, t) == Live(l, s) + {a}
  {
    if s.partial != [] || s.empty != [] {
      var b := if s.partial != [] then s.partial[0] else s.empty[0];
      assert b in s.partial || b in s.empty;
      assert SlabOk(l, s, b);
      var h := s.slabs[b];
      PushedOk(l, h);
      LiveTake(l, s.slabs, b, h.bufctl[h.free], Pushed(h));
      TakenKeepsInv(l, s);
    }
  }

  lemma TakenKeepsInv(l: Layout, s: State)
    requires Inv(l, s) && (s.partial != [] || s.empty != [])
    ensures Taken(l, s).Some? && Inv(l, Taken(l, s).value.1)
  {
    if s.partial != [] {
      TakenFromPartial(l, s);
    } else {
      TakenFromEmpty(l, s);
    }
  }

  lemma TakenFromPartial(l: Layout, s: State)
    requires Inv(l, s) && s.partial != []
    ensures Taken(l, s).Some? && Inv(l, Taken(l, s).value.1)
  {
    var b := s.partial[0];
    assert b in s.partial && SlabOk(l, s, b);
    PushedOk(l, s.slabs[b]);
    SameKeys(s.slabs, b, Pushed(s.slabs[b]));
    MoveFirst(s.slabs.Keys, s.partial, s.full, s.empty);
    var t := Taken(l, s).value.1;
    forall c | c in t.slabs ensures SlabOk(l, t, c) {
      assert SlabOk(l, s, c);
    }
  }

  lemma TakenFromEmpty(l: Layout, s: State)
    requires Inv(l, s) && s.partial == [] && s.empty != []
    ensures Taken(l, s).Some? && Inv(l, Taken(l, s).value.1)
  {
    var b := s.empty[0];
    assert b in s.empty && SlabOk(l, s, b);
    PushedOk(l, s.slabs[b]);
    SameKeys(s.slabs, b, Pushed(s.slabs[b]));
    MoveEmpty(s.slabs.Keys, s.partial, s.full, s.empty);
    var t := Taken(l, s).value.1;
    forall c | c in t.slabs ensures SlabOk(l, t, c) {
      assert SlabOk(l, s, c);
    }
  }

  lemma SameKeys(slabs: map<nat, Header>, b: nat, h: Header)
    requires b in slabs
    ensures slabs[b := h].Keys == slabs.Keys && |slabs[b := h]| == |slabs|
  {
    assert slabs[b := h].Keys == slabs.Keys;
    assert |slabs[b := h]| == |slabs[b := h].Keys| && |slabs| == |slabs.Keys|;
  }

  // The first partial slab becomes full
  lemma MoveFirst(slabs: set<nat>, partial: seq<nat>, full: seq<nat>, empty: seq<nat>)
    requires Listed(slabs, partial, full, empty) && partial != []
    ensures Listed(slabs, partial[1..], [partial[0]] + full, empty)
  {
    DistinctTail(partial);
    ConsDistinct(partial[0], full);
  }

  // The first empty slab becomes partial
  lemma MoveEmpty(slabs: set<nat>, partial: seq<nat>, full: seq<nat>, empty: seq<nat>)
    requires Listed(slabs, partial, full, empty) && empty != []
    ensures Listed(slabs, [empty[0]] + partial, full, empty[1..])
  {
    DistinctTail(empty);
    ConsDistinct(empty[0], partial);
  }

  // A partial or full slab becomes empty
  lemma MoveBack(slabs: set<nat>, partial: seq<nat>, full: seq<nat>, empty: seq<nat>, b: nat)
    requires Listed(slabs, partial, full, empty) && (b in partial || b in full)
    ensures Listed(slabs, Remove(partial, b), Remove(full, b), [b] + empty)
  {
    RemoveDistinct(partial, b);
    RemoveDistinct(full, b);
    ConsDistinct(b, empty);
  }

  // kmem_cache_alloc: a new object that was not live, or no change at all and no memory left
  lemma AllocedInv(l: Layout, s: State, page: Option<nat>)
    requires Inv(l, s)
    requires page.Some? && s.partial == [] && s.empty == [] ==> Fresh(l, s, page.value)
    ensures var (r, t) := Alloced(l, s, page);
            && Inv(l, t)
            && (r.None? <==> s.partial == [] && s.empty == [] && page.None?)
            && (r.None? ==> t == s)
            && (r.Some? ==> r.value !in Live(l, s) && Live(l, t) == Live(l, s) + {r.value})
  {
    TakenInv(l, s);
    if s.partial == [] && s.empty == [] && page.Some? {
      GrownInv(l, s, page.value);
      TakenInv(l, Grown(l, s, page.value));
    }
  }

  // ----- returning -----

  lemma PoppedOk(l: Layout, h: Header, i: nat)
    requires HeaderOk(l, h) && h.free > 0 && i < l.num && i !in Stack(h)
    ensures HeaderOk(l, Popped(h, i))
    ensures forall j :: j in Stack(Popped(h, i)) <==> j in Stack(h) || j == i
  {
    assert Stack(Popped(h, i)) == [i] + Stack(h);
    ConsDistinct(i, Stack(h));
  }

  lemma ReturnedLive(l: Layout, s: State, b: nat, i: nat)
    requires Inv(l, s) && LiveSlot(l, s, b, i)
    ensures CanReturn(s, b)
    ensures Live(l, Returned(s, b, i)) == Live(l, s) - {Object(l, b, i)}
  {
    LiveSlab(l, s, b, i);
    assert SlabOk(l, s, b);
    var h := s.slabs[b];
    PoppedOk(l, h, i);
    var t := s.slabs[b := Popped(h, i)];
    assert t.Keys == s.slabs.Keys && t[b := h] == s.slabs;
    LiveTake(l, t, b, i, h);
  }

  // The state after __cache_free meets the invariant but for the bound on empty slabs
  lemma ReturnedInv(l: Layout, s: State, b: nat, i: nat)
    requires Inv(l, s) && LiveSlot(l, s, b, i)
    ensures CanReturn(s, b)
    ensures var t := Returned(s, b, i);
            && t.freeSlab == |t.empty| == |s.empty| + (if s.slabs[b].inuse == 1 then 1 else 0)
            && (t.freeSlab <= SLAB_MAX_FREE ==> Inv(l, t))
  {
    LiveSlab(l, s, b, i);
    assert SlabOk(l, s, b);
    PoppedOk(l, s.slabs[b], i);
    var t := Returned(s, b, i);
    SameKeys(s.slabs, b, Popped(s.slabs[b], i));
    MoveBack(s.slabs.Keys, s.partial, s.full, s.empty, b);
    forall c | c in t.slabs ensures SlabOk(l, t, c) {
      assert SlabOk(l, s, c);
      RemoveDistinct(s.partial, b);
      RemoveDistinct(s.full, b);
    }
  }

  lemma {:induction false} ReleasedSlabs(s: State)
    ensures Released(s).slabs == s.slabs && Released(s).totalSlab == s.totalSlab
    decreases s.freeSlab
  {
    if s.freeSlab > SLAB_MAX_FREE && s.empty != [] {
      ReleasedSlabs(s.(owned := s.owned - {s.empty[0]}, freeSlab := s.freeSlab - 1));
    }
  }

  // One slab too many: its pages go back, the list and the headers keep it
  lemma ReleasedOne(s: State)
    requires s.freeSlab == |s.empty| <= SLAB_MAX_FREE + 1
    ensures Released(s) == if s.freeSlab > SLAB_MAX_FREE
                           then s.(owned := s.owned - {s.empty[0]}, freeSlab := s.freeSlab - 1)
                           else s
  {
    if s.freeSlab > SLAB_MAX_FREE {
      var u := s.(owned := s.owned - {s.empty[0]}, freeSlab := s.freeSlab - 1);
      assert Released(s) == Released(u) && Released(u) == u;
    }
  }

  lemma FreedAtInvExactly(l: Layout, s: State, b: nat, i: nat)
    requires Inv(l, s) && LiveSlot(l, s, b, i)
    ensures var t := FreedAt(l, s, b, i);
            var overflows := s.slabs[b].inuse == 1 && s.freeSlab == SLAB_MAX_FREE;
            && (Inv(l, t) <==> !overflows)
            && (overflows ==> t.empty != [] && t.empty[0] !in t.owned && t.freeSlab != |t.empty|)
  {
    LiveSlab(l, s, b, i);
    ReturnedInv(l, s, b, i);
    ReleasedOne(Returned(s, b, i));
  }

  lemma FreedAtLive(l: Layout, s: State, b: nat, i: nat)
    requires Inv(l, s) && LiveSlot(l, s, b, i)
    ensures Live(l, FreedAt(l, s, b, i)) == Live(l, s) - {Object(l, b, i)}
  {
    ReturnedLive(l, s, b, i);
    ReleasedSlabs(Returned(s, b, i));
  }

  // kmem_cache_free takes exactly that object out of the live ones
  lemma FreedLive(l: Layout, s: State, addr: nat)
    requires Inv(l, s) && addr in Live(l, s)
    ensures Live(l, Freed(l, s, addr)) == Live(l, s) - {addr}
  {
    var (b, i) := Locate(l, s, addr);
    FreedAtLive(l, s, b, i);
  }

  // The last object of its slab, with SLAB_MAX_FREE empty slabs already there
  ghost predicate Overflows(l: Layout, s: State, addr: nat)
    requires Inv(l, s) && addr in Live(l, s)
  {
    s.slabs[Locate(l, s, addr).0].inuse == 1 && s.freeSlab == SLAB_MAX_FREE
  }

  // Freeing keeps the invariant exactly when it does not set off the release loop; when it does,
  // the first slab of the empty list is one whose pages are gone
  lemma FreedInvExactly(l: Layout, s: State, addr: nat)
    requires Inv(l, s) && addr in Live(l, s)
    ensures var t := Freed(l, s, addr);
            && (Inv(l, t) <==> !Overflows(l, s, addr))
            && (Overflows(l, s, addr) ==> t.empty != [] && t.empty[0] !in t.owned && t.freeSlab != |t.empty|)
  {
    var (b, i) := Locate(l, s, addr);
    FreedAtInvExactly(l, s, b, i);
  }
}
