/**
 Which object an allocation hands out: a new slab gives its objects in the order of their addresses,
 and after that the object that came back last goes out first.
 */
module SlabOrder {
  import opened LinkedLists
  import opened SlabLayout
  import opened Slab
  import opened SlabInv
  import opened SlabRuns

  // The slab that the next allocation uses: the first partial one, or else the first empty one
  predicate IsNext(s: State, b: nat) {
    (s.partial != [] && s.partial[0] == b) || (s.partial == [] && s.empty != [] && s.empty[0] == b)
  }

  lemma NextTaken(l: Layout, s: State, b: nat, page: Option<nat>)
    requires Inv(l, s) && IsNext(s, b)
    ensures b in s.slabs && s.slabs[b].free < l.num < |s.slabs[b].bufctl|
    ensures Alloced(l, s, page).0 == Some(Object(l, b, s.slabs[b].bufctl[s.slabs[b].free]))
    ensures Alloced(l, s, page).1.slabs == s.slabs[b := Pushed(s.slabs[b])]
  {
    assert b in s.partial || b in s.empty;
    assert SlabOk(l, s, b);
  }

  // What was freed last is handed out first, as long as its slab is next
  lemma FreeThenAlloc(l: Layout, s: State, addr: nat, page: Option<nat>)
    requires Inv(l, s) && addr in Live(l, s) && !Overflows(l, s, addr)
    requires IsNext(Freed(l, s, addr), Locate(l, s, addr).0)
    ensures Alloced(l, Freed(l, s, addr), page).0 == Some(addr)
  {
    var (b, i) := Locate(l, s, addr);
    FreedInvExactly(l, s, addr);
    LiveSlab(l, s, b, i);
    ReturnedInv(l, s, b, i);
    ReleasedOne(Returned(s, b, i));
    assert SlabOk(l, s, b);
    NextTaken(l, Freed(l, s, addr), b, page);
  }

  // The slab has handed out its first objects, in order, and none has come back yet
  ghost predicate Untouched(l: Layout, s: State, b: nat) {
    b in s.slabs && l.num <= |s.slabs[b].bufctl| && forall i :: 0 <= i < l.num ==> s.slabs[b].bufctl[i] == i
  }

  // A new slab gives its objects from the lowest address up
  lemma InAddressOrder(l: Layout, s: State, b: nat, page: Option<nat>)
    requires Inv(l, s) && IsNext(s, b) && Untouched(l, s, b)
    ensures b in s.slabs && Alloced(l, s, page).0 == Some(Object(l, b, s.slabs[b].inuse))
    ensures Untouched(l, Alloced(l, s, page).1, b) && Alloced(l, s, page).1.slabs[b].inuse == s.slabs[b].inuse + 1
  {
    assert b in s.partial || b in s.empty;
    assert SlabOk(l, s, b);
    NextTaken(l, s, b, page);
  }

  // ... beginning with the allocation that brings it
  lemma FirstOfNewSlab(l: Layout, s: State, page: nat)
    requires Inv(l, s) && s.partial == [] && s.empty == [] && Fresh(l, s, page)
    ensures var (r, t) := Alloced(l, s, Some(page));
            && r == Some(Object(l, page, 0)) && t.partial == [page] && t.full == s.full
            && Untouched(l, t, page) && t.slabs[page].inuse == 1
  {
    GrownInv(l, s, page);
    TakenInv(l, s);
    TakenInv(l, Grown(l, s, page));
  }
}
