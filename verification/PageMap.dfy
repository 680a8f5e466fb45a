/**
 map_page, which changes page tables in place, and kmap, which reads them. The frame allocator is the
 set of frames it can hand out; get_zeroed_page picks any of them.
 */
module PageMap {
  import opened Arch
  import opened LinkedLists
  import opened PageTable
  import opened Dyadic

  function Zeros(): seq<nat> {
    seq(ENTRIES, _ => 0)
  }

  // The frames of a tree
  ghost function Used(at: map<Path, nat>): set<nat> {
    set p | p in at :: at[p]
  }

  // A new child f of the table at path p, under index i
  function Linked(mem: Frames, at: map<Path, nat>, p: Path, i: nat, f: nat): Frames
    requires p in at && at[p] in mem && i < |mem[at[p]]|
  {
    mem[f := Zeros()][at[p] := mem[at[p]][i := Entry(f)]]
  }

  lemma LinkedTree(mem: Frames, at: map<Path, nat>, pgd: nat, p: Path, i: nat, f: nat)
    requires Tree(mem, at, pgd) && p in at && |p| < 4 && i < Width(p) && p + [i] !in at
    requires f !in Used(at)
    ensures Tree(Linked(mem, at, p, i, f), at[p + [i] := f], pgd)
  {
    var q: Path := p + [i];
    var mem', at' := Linked(mem, at, p, i, f), at[q := f];
    assert IsPath(q) && Parent(q) == p;
    assert f != at[p];
    forall r | r in at' && r != [] ensures Parent(r) in at' {
      assert r != q ==> r in at && Parent(r) in at;
    }
    forall r | r in at' && |r| < 4 ensures TableAt(mem', at', r) {
      if r == q {
        forall k | 0 <= k < ENTRIES ensures q + [k] !in at' {
          assert Parent(q + [k]) == q;
        }
      } else {
        assert TableAt(mem, at, r);
        forall k | 0 <= k < Width(r) && r + [k] == q ensures r == p && k == i {
          assert Parent(r + [k]) == r;
          assert (r + [k])[|r|] == k;
        }
      }
    }
  }

  // Overwriting a data frame does not disturb the tree
  lemma DataWriteTree(mem: Frames, at: map<Path, nat>, pgd: nat, q: Path, words: seq<nat>)
    requires Tree(mem, at, pgd) && q in at && |q| == 4 && |words| == ENTRIES
    ensures Tree(mem[at[q] := words], at, pgd)
  {
    forall r | r in at && |r| < 4 ensures TableAt(mem[at[q] := words], at, r) {
      assert TableAt(mem, at, r);
      assert at[r] != at[q];
    }
  }

  // A tree does not depend on frames it does not use
  lemma OtherFramesTree(mem: Frames, mem': Frames, at: map<Path, nat>, pgd: nat)
    requires Tree(mem, at, pgd) && forall f :: f in Used(at) ==> f in mem && f in mem' && mem'[f] == mem[f]
    ensures Tree(mem', at, pgd)
  {
    forall p | p in at ensures at[p] in Used(at) {}
    forall r | r in at && |r| < 4 ensures TableAt(mem', at, r) {
      assert TableAt(mem, at, r);
    }
  }

  lemma UsedGrows(at: map<Path, nat>, q: Path, f: nat)
    requires q !in at
    ensures Used(at[q := f]) == Used(at) + {f}
  {
    var at' := at[q := f];
    assert q in at' && at'[q] == f;
    forall x | x in Used(at) ensures x in Used(at') {
      var p :| p in at && at[p] == x;
      assert p in at' && at'[p] == x;
    }
  }

  // ----- growth of a tree along one path -----

  // Physical memory, the frames the allocator can hand out, and the tree of an address space
  datatype Space = Space(mem: Frames, free: set<nat>, at: map<Path, nat>)

  // The tree is in memory, on frames that are not free; free frames are frames
  ghost predicate Valid(v: Space, pgd: nat) {
    && Tree(v.mem, v.at, pgd)
    && Used(v.at) !! v.free
    && forall f :: f in v.free ==> f in v.mem
  }

  // A frame that is handed out and is not a table of the tree
  ghost predicate Untouched(v: Space, f: nat) {
    f in v.mem && f !in v.free && forall q :: q in v.at && |q| < 4 ==> v.at[q] != f
  }

  // What one map_page may do: add nodes on the way to path, on frames taken from the allocator
  ghost predicate Extends(v: Space, w: Space, pgd: nat, path: Path) {
    && (forall q :: q in v.at ==> q in w.at && w.at[q] == v.at[q])
    && (forall q :: q in w.at ==> q in v.at || q <= path)
    && Used(w.at) + w.free == Used(v.at) + v.free
    && (forall f :: f in v.mem <==> f in w.mem)
    && (forall f {:trigger Untouched(v, f)} :: Untouched(v, f) ==> f in w.mem && w.mem[f] == v.mem[f])
    && IsFrame(v.mem, pgd) && IsFrame(w.mem, pgd) && w.mem[pgd][ENTRIES / 2..] == v.mem[pgd][ENTRIES / 2..]
  }

  lemma ExtendsTrans(v1: Space, v2: Space, v3: Space, pgd: nat, p: Path, path: Path)
    requires Extends(v1, v2, pgd, p) && Extends(v2, v3, pgd, path) && p <= path
    requires Valid(v1, pgd) && Valid(v2, pgd)
    ensures Extends(v1, v3, pgd, path)
  {
    forall f | Untouched(v1, f) ensures f in v3.mem && v3.mem[f] == v1.mem[f] {
      StaysUntouched(v1, v2, pgd, p, f);
    }
  }

  // The new nodes come from free frames, so no frame that was in use becomes a table
  lemma StaysUntouched(v: Space, w: Space, pgd: nat, p: Path, f: nat)
    requires Extends(v, w, pgd, p) && Valid(v, pgd) && Valid(w, pgd) && Untouched(v, f)
    ensures Untouched(w, f)
  {
    if f in Used(v.at) {
      var q' :| q' in v.at && v.at[q'] == f;
      assert q' in w.at && f in Used(w.at);
    }
    assert f in w.free ==> f in Used(v.at) + v.free;
    assert forall q :: q in w.at && w.at[q] == f ==> f in Used(w.at);
  }

  lemma LinkedExtends(v: Space, pgd: nat, p: Path, i: nat, f: nat)
    requires Valid(v, pgd) && p in v.at && |p| < 4 && i < Width(p) && p + [i] !in v.at && f in v.free
    ensures var w := Space(Linked(v.mem, v.at, p, i, f), v.free - {f}, v.at[p + [i] := f]);
            Valid(w, pgd) && Extends(v, w, pgd, p + [i])
  {
    var w := Space(Linked(v.mem, v.at, p, i, f), v.free - {f}, v.at[p + [i] := f]);
    LinkedTree(v.mem, v.at, pgd, p, i, f);
    UsedGrows(v.at, p + [i], f);
  }

  class Memory {
    var mem: Frames
    var free: set<nat>

    ghost function View(at: map<Path, nat>): Space
      reads this
    {
      Space(mem, free, at)
    }

    // One level of map_page: follow the word at index i of the table at path p, creating the child
    // if the word is zero. None stands for the assertion failure when no frame is left.
    method Descend(table: nat, i: nat, ghost at: map<Path, nat>, ghost pgd: nat, ghost p: Path)
      returns (next: Option<nat>, ghost at': map<Path, nat>)
      requires Valid(View(at), pgd) && p in at && at[p] == table && |p| < 4 && i < Width(p)
      modifies this
      ensures Valid(View(at'), pgd) && Extends(old(View(at)), View(at'), pgd, p + [i])
      ensures next.Some? ==> p + [i] in at' && at'[p + [i]] == next.value
      ensures next.None? ==> free == {} && p + [i] !in at
      ensures p + [i] in at || next.None? ==> View(at') == old(View(at))
      ensures p + [i] !in at && next.Some? ==> mem[next.value] == Zeros()
    {
      assert TableAt(mem, at, p);
      at' := at;
      if mem[table][i] == 0 {
        if free == {} {
          return None, at;
        }
        var f :| f in free;
        LinkedExtends(View(at), pgd, p, i, f);
        free := free - {f};
        mem := mem[f := Zeros()];
        var words: seq<nat> := mem[table][i := Entry(f)];
        mem := mem[table := words];
        at' := at[p + [i] := f];
        next := Some(f);
      } else {
        next := Some(mem[table][i] / PAGE_SIZE);
      }
    }

    // The first three levels of map_page: the page table that covers ustart
    method MapTable(pgd: nat, ustart: nat, ghost at: map<Path, nat>)
      returns (pt: Option<nat>, ghost at': map<Path, nat>)
      requires Valid(View(at), pgd) && IsUser(ustart)
      modifies this
      ensures Valid(View(at'), pgd) && Extends(old(View(at)), View(at'), pgd, PathOf(ustart)[..3])
      ensures pt.Some? ==> PathOf(ustart)[..3] in at' && at'[PathOf(ustart)[..3]] == pt.value
      ensures pt.None? ==> free == {} && PathOf(ustart)[..3] !in at'
      ensures PathOf(ustart)[..3] in at ==> pt.Some? && View(at') == old(View(at))
    {
      PathOfUser(ustart);
      ghost var path := PathOf(ustart);
      ghost var v0 := View(at);
      ghost var p1, p2, p3 := path[..1], path[..2], path[..3];
      assert [] + [path[0]] == p1 && p1 + [path[1]] == p2 && p2 + [path[2]] == p3;
      assert Parent(p3) == p2 && Parent(p2) == p1;

      var u := ustart % 0x1_0000_0000_0000;
      var pdpt, pd;
      pdpt, at' := Descend(pgd, u / 0x80_0000_0000, at, pgd, []);
      if pdpt.None? {
        return None, at';
      }
      u := u % 0x80_0000_0000;
      ghost var v1 := View(at');
      pd, at' := Descend(pdpt.value, u / 0x4000_0000, at', pgd, p1);
      ExtendsTrans(v0, v1, View(at'), pgd, p1, p2);
      if pd.None? {
        return None, at';
      }
      u := u % 0x4000_0000;
      ghost var v2 := View(at');
      pt, at' := Descend(pd.value, u / 0x20_0000, at', pgd, p2);
      ExtendsTrans(v0, v2, View(at'), pgd, p2, p3);
    }

    // map_page: the frame behind the page of ustart, created if it is not mapped yet
    method MapPage(pgd: nat, ustart: nat, ghost at: map<Path, nat>)
      returns (page: Option<nat>, ghost at': map<Path, nat>)
      requires Valid(View(at), pgd) && IsUser(ustart)
      modifies this
      ensures Valid(View(at'), pgd) && Extends(old(View(at)), View(at'), pgd, PathOf(ustart))
      ensures page.Some? ==> Lookup(at', ustart) == page
      ensures page.None? ==> free == {} && PathOf(ustart) !in at'
      ensures PathOf(ustart) in at ==> page == Some(at[PathOf(ustart)]) && View(at') == old(View(at))
      ensures PathOf(ustart) !in at && page.Some? ==> mem[page.value] == Zeros()
    {
      PathOfUser(ustart);
      ghost var path := PathOf(ustart);
      ghost var v0, p3 := View(at), path[..3];
      assert p3 + [path[3]] == path && Parent(path) == p3;
      var pt;
      pt, at' := MapTable(pgd, ustart, at);
      if pt.None? {
        return None, at';
      }
      ghost var v3 := View(at');
      assert path !in at ==> path !in at';
      var u := ustart % 0x1_0000_0000_0000 % 0x80_0000_0000 % 0x4000_0000 % 0x20_0000;
      page, at' := Descend(pt.value, u / PAGE_SIZE, at', pgd, p3);
      ExtendsTrans(v0, v3, View(at'), pgd, p3, path);
    }

    // kmap: the kernel address of a user address; kernel addresses are returned as they are. The code
    // checks no word that it loads, and needs only that there is memory where they lead
    method Kmap(pgd: nat, addr: nat, ghost at: map<Path, nat>) returns (kaddr: nat)
      requires addr < 0x1_0000_0000_0000 ==> Mapped(View(at), pgd, addr) || Load(mem, pgd, PathOf(addr)).Some?
      ensures addr >= 0x1_0000_0000_0000 ==> kaddr == addr
      ensures addr < 0x1_0000_0000_0000 ==>
                && Load(mem, pgd, PathOf(addr)).Some?
                && kaddr == ToVir(Load(mem, pgd, PathOf(addr)).value * PAGE_SIZE + addr % PAGE_SIZE)
      ensures addr < 0x1_0000_0000_0000 && Mapped(View(at), pgd, addr) ==>
                kaddr == ToVir(at[PathOf(addr)] * PAGE_SIZE + addr % PAGE_SIZE)
    {
      if addr >= 0x1_0000_0000_0000 {
        return addr;
      }
      if Mapped(View(at), pgd, addr) {
        LoadMapped(View(at), pgd, addr);
      }
      var paddr := Translate(pgd, addr);
      kaddr := ToVir(paddr);
    }

    // The indices of the address, and its offset in the page
    method Translate(pgd: nat, addr: nat) returns (paddr: nat)
      requires addr < 0x1_0000_0000_0000 && Load(mem, pgd, PathOf(addr)).Some?
      ensures paddr == Load(mem, pgd, PathOf(addr)).value * PAGE_SIZE + addr % PAGE_SIZE
    {
      var u3 := addr % 0x80_0000_0000;
      var u2 := u3 % 0x4000_0000;
      var u1 := u2 % 0x20_0000;
      assert u1 % PAGE_SIZE == addr % PAGE_SIZE by {
        OffsetOf(addr);
      }
      var frame := LoadFrame(pgd, addr / 0x80_0000_0000, u3 / 0x4000_0000, u2 / 0x20_0000, u1 / PAGE_SIZE);
      paddr := frame * PAGE_SIZE + u1 % PAGE_SIZE;
    }

    // The four loads
    method LoadFrame(pgd: nat, i4: nat, i3: nat, i2: nat, i1: nat) returns (frame: nat)
      requires Load(mem, pgd, [i4, i3, i2, i1]).Some?
      ensures Load(mem, pgd, [i4, i3, i2, i1]) == Some(frame)
    {
      ghost var path := [i4, i3, i2, i1];
      assert path[0..] == path && path[4..] == [];
      LoadStep(mem, pgd, path, 0);
      var pdpt := Target(mem[pgd][i4]);
      LoadStep(mem, pdpt, path, 1);
      var pd := Target(mem[pdpt][i3]);
      LoadStep(mem, pd, path, 2);
      var pt := Target(mem[pd][i2]);
      LoadStep(mem, pt, path, 3);
      frame := Target(mem[pt][i1]);
    }
  }

  // What unchecked loads along the indices reach: a zero word leads on to page zero
  function Load(mem: Frames, table: nat, indices: Path): Option<nat>
    decreases |indices|
  {
    if indices == [] then Some(table)
    else if IsFrame(mem, table) && indices[0] < ENTRIES
    then Load(mem, Target(mem[table][indices[0]]), indices[1..])
    else None
  }

  ghost predicate Mapped(v: Space, pgd: nat, addr: nat) {
    Valid(v, pgd) && IsUser(addr) && PathOf(addr) in v.at
  }

  lemma LoadStep(mem: Frames, table: nat, path: Path, j: nat)
    requires j < |path| && Load(mem, table, path[j..]).Some?
    ensures IsFrame(mem, table) && path[j] < ENTRIES
    ensures Load(mem, table, path[j..]) == Load(mem, Target(mem[table][path[j]]), path[j + 1..])
  {
    assert path[j..][1..] == path[j + 1..];
  }

  lemma {:induction false} WalkIsLoad(mem: Frames, table: nat, indices: Path)
    requires Walk(mem, table, indices).Some?
    ensures Load(mem, table, indices) == Walk(mem, table, indices)
    decreases |indices|
  {
    if indices != [] {
      WalkIsLoad(mem, Target(mem[table][indices[0]]), indices[1..]);
    }
  }

  // For a mapped address the loads reach its frame
  lemma LoadMapped(v: Space, pgd: nat, addr: nat)
    requires Mapped(v, pgd, addr)
    ensures Load(v.mem, pgd, PathOf(addr)) == Some(v.at[PathOf(addr)])
  {
    PathOfUser(addr);
    assert [] + PathOf(addr) == PathOf(addr);
    WalkIsLookup(v.mem, v.at, pgd, [], PathOf(addr));
    WalkIsLoad(v.mem, pgd, PathOf(addr));
  }

  // For any other user address they go on in page zero from the first table that is missing, and end
  // there if only the page is missing; no result tells this from a mapped address
  lemma LoadUnmapped(v: Space, pgd: nat, addr: nat) returns (k: nat)
    requires Valid(v, pgd) && IsUser(addr) && PathOf(addr) !in v.at
    ensures k < 4 && PathOf(addr)[..k] in v.at && PathOf(addr)[..k + 1] !in v.at
    ensures Load(v.mem, pgd, PathOf(addr)) == Load(v.mem, 0, PathOf(addr)[k + 1..])
    ensures k == 3 ==> Load(v.mem, pgd, PathOf(addr)) == Some(0)
  {
    PathOfUser(addr);
    k := LoadLeaves(v, pgd, PathOf(addr), 0);
  }

  lemma {:induction false} LoadLeaves(v: Space, pgd: nat, path: Path, j: nat) returns (k: nat)
    requires Valid(v, pgd) && IsPath(path) && j < |path| && path[..j] in v.at && path !in v.at
    ensures j <= k < |path| && path[..k] in v.at && path[..k + 1] !in v.at
    ensures Load(v.mem, v.at[path[..j]], path[j..]) == Load(v.mem, 0, path[k + 1..])
    decreases |path| - j
  {
    var table := path[..j];
    assert path[..|path|] == path;
    assert TableAt(v.mem, v.at, table) && table + [path[j]] == path[..j + 1] && path[j..][1..] == path[j + 1..];
    if path[..j + 1] in v.at {
      k := LoadLeaves(v, pgd, path, j + 1);
    } else {
      k := j;
    }
  }

  function ToVir(paddr: nat): nat {
    (paddr + KERNEL_OFFSET) % WORD
  }

  lemma OffsetOf(addr: nat)
    ensures addr % 0x80_0000_0000 % 0x4000_0000 % 0x20_0000 % PAGE_SIZE == addr % PAGE_SIZE
  {
    ModOfMod(addr, 0x800_0000, PAGE_SIZE);
    var u3 := addr % 0x80_0000_0000;
    ModOfMod(u3, 0x4_0000, PAGE_SIZE);
    var u2 := u3 % 0x4000_0000;
    ModOfMod(u2, 0x200, PAGE_SIZE);
  }

  // map_page changes the translation of no other page, and the contents of no mapped page
  lemma ExtendsLookup(v: Space, w: Space, pgd: nat, u: nat, a: nat)
    requires Valid(v, pgd) && Extends(v, w, pgd, PathOf(u)) && IsUser(u) && IsUser(a) && Page(a) != Page(u)
    ensures Lookup(w.at, a) == Lookup(v.at, a)
    ensures Lookup(v.at, a).Some? ==> w.mem[Lookup(v.at, a).value] == v.mem[Lookup(v.at, a).value]
  {
    PathOfPage(a, u);
    PathOfUser(a);
    PathOfUser(u);
    var q := PathOf(a);
    assert q <= PathOf(u) ==> q == PathOf(u);
    if q in v.at {
      DataUntouched(v, pgd, q);
    }
  }

  lemma DataUntouched(v: Space, pgd: nat, q: Path)
    requires Valid(v, pgd) && q in v.at && |q| == 4
    ensures Untouched(v, v.at[q])
  {
    assert v.at[q] in Used(v.at);
  }
}
