/**
 The slab allocator as it runs: headers updated in place, slabs moved between three lists, and
 searches over those lists. Each operation is proved equal to its step in module Slab.
 */
module SlabMachine {
  import opened LinkedLists
  import opened SlabLayout
  import opened Slab
  import opened SlabInv
  import opened SlabRuns

  // A list search that has skipped k slabs
  lemma {:induction false} OwnerSkips(l: Layout, list: seq<nat>, k: nat, addr: nat)
    requires l.size > 0 && l.num > 0 && k <= |list|
    requires forall j :: 0 <= j < k ==> SlabIndex(l, list[j], addr).None?
    ensures Owner(l, list, addr) == Owner(l, list[k..], addr)
  {
    if k > 0 {
      OwnerSkips(l, list[1..], k - 1, addr);
      assert list[1..][k - 1..] == list[k..];
    }
  }

  // The end marker is met exactly behind the last index
  lemma EndMarker(l: Layout, h: Header)
    requires Fits(l) && HeaderOk(l, h)
    ensures h.bufctl[h.free] == BUFCTL_END <==> h.free == l.num
  {
    if h.free < l.num {
      assert Stack(h)[0] == h.bufctl[h.free] && Stack(h)[0] in Stack(h);
    }
  }

  class Cache {
    const l: Layout
    var slabs: map<nat, Header>
    var partial: seq<nat>
    var full: seq<nat>
    var empty: seq<nat>
    var freeSlab: int
    var totalSlab: nat
    ghost var owned: set<nat>

    ghost function View(): State
      reads this
    {
      State(slabs, partial, full, empty, freeSlab, totalSlab, owned)
    }

    constructor (layout: Layout)
      requires Fits(layout)
      ensures l == layout && View() == Bare() && Inv(l, View()) && Live(l, View()) == {}
    {
      l := layout;
      slabs := map[];
      partial := [];
      full := [];
      empty := [];
      freeSlab := 0;
      totalSlab := 0;
      owned := {};
      new;
      BareInv(layout);
    }

    // cache_grow; None is a page allocator that has nothing
    method Grow(page: Option<nat>) returns (ok: bool)
      requires Fits(l)
      modifies this
      ensures ok == page.Some?
      ensures View() == if ok then Grown(l, old(View()), page.value) else old(View())
    {
      if page.None? {
        return false;
      }
      var bufctl: seq<nat> := [];
      var i: nat := 0;
      while i < l.num
        invariant i <= l.num && bufctl == seq(i, k => k)
      {
        bufctl := bufctl + [i];
        i := i + 1;
      }
      slabs := slabs[page.value := Header(bufctl + [BUFCTL_END], 0, 0)];
      totalSlab := totalSlab + 1;
      freeSlab := freeSlab + 1;
      empty := [page.value] + empty;
      owned := owned + {page.value};
      return true;
    }

    // list_del, whichever list the slab is on
    method Unlink(b: nat)
      modifies this`partial, this`full, this`empty
      ensures partial == Remove(old(partial), b) && full == Remove(old(full), b) && empty == Remove(old(empty), b)
    {
      partial, full, empty := Remove(partial, b), Remove(full, b), Remove(empty, b);
    }

    // ____cache_alloc
    method AllocFrom(b: nat) returns (r: Option<nat>)
      requires Inv(l, View()) && (b in partial || b in empty)
      modifies this`slabs, this`partial, this`full, this`empty
      ensures b in old(slabs) && old(slabs[b].free) < |old(slabs[b].bufctl)|
      ensures r == Some(Object(l, b, old(slabs[b].bufctl[slabs[b].free])))
      ensures slabs == old(slabs)[b := Pushed(old(slabs[b]))]
      ensures if old(slabs[b].free) + 1 == l.num
              then partial == Remove(old(partial), b) && full == [b] + Remove(old(full), b)
                   && empty == Remove(old(empty), b)
              else partial == old(partial) && full == old(full) && empty == old(empty)
    {
      assert SlabOk(l, View(), b);
      PushedOk(l, slabs[b]);
      EndMarker(l, slabs[b]);
      EndMarker(l, Pushed(slabs[b]));
      r := None;
      if slabs[b].bufctl[slabs[b].free] != BUFCTL_END {
        r := Some(Object(l, b, slabs[b].bufctl[slabs[b].free]));
        slabs := slabs[b := slabs[b].(free := slabs[b].free + 1, inuse := slabs[b].inuse + 1)];
      }
      if slabs[b].bufctl[slabs[b].free] == BUFCTL_END {
        Unlink(b);
        full := [b] + full;
      }
    }

    // The loop of __cache_alloc over the partial slabs
    method TryPartial() returns (r: Option<nat>)
      requires Inv(l, View())
      modifies this`slabs, this`partial, this`full, this`empty
      ensures if old(partial) == [] then r == None && View() == old(View())
              else Taken(l, old(View())).Some? && r.Some? && Taken(l, old(View())).value == (r.value, View())
    {
      var nodes := partial;
      var pos: nat := 0;
      r := None;
      while pos < |nodes| && r.None?
        invariant pos <= |nodes| && nodes == old(partial)
        invariant r.None? ==> pos == 0 && View() == old(View())
        invariant r.Some? ==> nodes != [] && Taken(l, old(View())) == Some((r.value, View()))
      {
        FirstAlone(l, View());
        r := AllocFrom(nodes[pos]);
        pos := pos + 1;
      }
    }

    // The loop of __cache_alloc over the empty slabs
    method TryEmpty() returns (r: Option<nat>)
      requires Inv(l, View())
      modifies this`slabs, this`partial, this`full, this`empty
      ensures if empty == [] then r == None && View() == old(View())
              else r.Some? && EmptyTaken(old(View()), r.value, View())
    {
      var nodes := empty;
      var pos: nat := 0;
      r := None;
      while pos < |nodes| && r.None?
        invariant pos <= |nodes| && nodes == old(empty)
        invariant r.None? ==> pos == 0 && View() == old(View())
        invariant r.Some? ==> EmptyTaken(old(View()), r.value, View())
      {
        FirstAlone(l, View());
        r := AllocFrom(nodes[pos]);
        pos := pos + 1;
      }
    }

    // __cache_alloc
    method TryAlloc() returns (r: Option<nat>)
      requires Inv(l, View())
      modifies this
      ensures match Taken(l, old(View()))
              case Some(p) => r == Some(p.0) && View() == p.1
              case None => r == None && View() == old(View())
    {
      r := TryPartial();
      if r.Some? {
        return;
      }
      FirstAlone(l, View());
      r := TryEmpty();
      if r.Some? {
        var b := empty[0];
        Unlink(b);
        partial := [b] + partial;
        freeSlab := freeSlab - 1;
      }
    }

    // An empty slab has given an object and is still on its list
    ghost predicate EmptyTaken(s: State, a: nat, t: State) {
      && s.empty != [] && s.empty[0] in s.slabs
      && var b := s.empty[0];
         var h := s.slabs[b];
         && h.free < |h.bufctl| && a == Object(l, b, h.bufctl[h.free])
         && t == s.(slabs := s.slabs[b := Pushed(h)])
         && b !in s.full && b !in s.partial
    }

    // kmem_cache_alloc
    method Alloc(page: Option<nat>) returns (r: Option<nat>)
      requires Inv(l, View())
      requires page.Some? && partial == [] && empty == [] ==> Fresh(l, View(), page.value)
      modifies this
      ensures (r, View()) == Alloced(l, old(View()), page)
      ensures Inv(l, View())
    {
      AllocedInv(l, View(), page);
      TakenInv(l, View());
      r := TryAlloc();
      if r.None? {
        var ok := Grow(page);
        if ok {
          GrownInv(l, old(View()), page.value);
          r := TryAlloc();
        }
      }
    }

    // One of the list searches of __cache_free
    method SearchList(list: seq<nat>, addr: nat) returns (k: nat)
      requires Fits(l)
      ensures k <= |list|
      ensures Owner(l, list, addr) == if k < |list| then Some(list[k]) else None
      ensures k < |list| ==> SlabIndex(l, list[k], addr).Some?
    {
      k := 0;
      while k < |list|
        invariant k <= |list|
        invariant forall m :: 0 <= m < k ==> SlabIndex(l, list[m], addr).None?
      {
        if SlabIndex(l, list[k], addr).Some? {
          break;
        }
        k := k + 1;
      }
      OwnerSkips(l, list, k, addr);
    }

    // The search of __cache_free: the full list first, then the partial one
    method FindSlab(addr: nat) returns (b: nat, i: nat)
      requires Inv(l, View()) && addr in Live(l, View())
      ensures LiveSlot(l, View(), b, i) && (b, i) == Locate(l, View(), addr)
    {
      ghost var (c, j) := Locate(l, View(), addr);
      LiveSlab(l, View(), c, j);
      OwnerFinds(l, View(), full, c, j);
      OwnerFinds(l, View(), partial, c, j);
      SlabIndexFinds(l, c, j, c);
      var k := SearchList(full, addr);
      if k < |full| {
        return full[k], SlabIndex(l, full[k], addr).value;
      }
      k := SearchList(partial, addr);
      return partial[k], SlabIndex(l, partial[k], addr).value;
    }

    // The part of __cache_free behind the search
    method PutBack(b: nat, i: nat)
      requires CanReturn(View(), b) && Remove(empty, b) == empty
      modifies this
      ensures View() == Returned(old(View()), b, i)
    {
      var h := slabs[b];
      if h.free > 0 {
        slabs := slabs[b := Header(h.bufctl[h.free - 1 := i], h.inuse - 1, h.free - 1)];
      }
      if slabs[b].inuse == 0 {
        Unlink(b);
        empty := [b] + empty;
        freeSlab := freeSlab + 1;
      }
    }

    // __cache_free
    method FreeObject(addr: nat)
      requires Inv(l, View()) && addr in Live(l, View())
      modifies this
      ensures var (b, i) := Locate(l, old(View()), addr);
              CanReturn(old(View()), b) && View() == Returned(old(View()), b, i)
    {
      var b, i := FindSlab(addr);
      FoundSlab(l, View(), b, i);
      PutBack(b, i);
    }

    // kmem_cache_free with its release loop
    method Free(addr: nat)
      requires Inv(l, View()) && addr in Live(l, View())
      modifies this
      ensures View() == Freed(l, old(View()), addr)
      ensures Live(l, View()) == Live(l, old(View())) - {addr}
    {
      FreedLive(l, View(), addr);
      ghost var (b, i) := Locate(l, View(), addr);
      ReturnedInv(l, View(), b, i);
      FreeObject(addr);
      ghost var s := View();
      while freeSlab > SLAB_MAX_FREE
        invariant Released(View()) == Released(s) && freeSlab <= |empty|
      {
        owned := owned - {empty[0]};
        freeSlab := freeSlab - 1;
      }
    }
  }

  // The slab of a live object has something to take back and is not on the empty list
  lemma FoundSlab(l: Layout, s: State, b: nat, i: nat)
    requires Inv(l, s) && LiveSlot(l, s, b, i)
    ensures CanReturn(s, b) && Remove(s.empty, b) == s.empty
  {
    LiveSlab(l, s, b, i);
    RemoveAbsent(s.empty, b);
  }

  // The first slab of the partial or empty list is on no other list
  lemma FirstAlone(l: Layout, s: State)
    requires Inv(l, s)
    ensures s.partial != [] ==>
              && s.partial[0] in s.partial && Remove(s.partial, s.partial[0]) == s.partial[1..]
              && Remove(s.full, s.partial[0]) == s.full && Remove(s.empty, s.partial[0]) == s.empty
    ensures s.empty != [] ==>
              && s.empty[0] in s.empty && Remove(s.empty, s.empty[0]) == s.empty[1..]
              && Remove(s.full, s.empty[0]) == s.full && Remove(s.partial, s.empty[0]) == s.partial
              && SlabOk(l, s, s.empty[0])
  {
    if s.partial != [] {
      assert s.partial[0] in s.partial;
      RemoveAbsent(s.full, s.partial[0]);
      RemoveAbsent(s.empty, s.partial[0]);
    }
    if s.empty != [] {
      assert s.empty[0] in s.empty;
      assert SlabOk(l, s, s.empty[0]);
      RemoveAbsent(s.full, s.empty[0]);
      RemoveAbsent(s.partial, s.empty[0]);
    }
  }
}
