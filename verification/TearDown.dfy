/**
 free_proc_mm: four nested loops over the tables of the user half. Every frame of the tree but the
 top table goes back to the allocator, each exactly once.
 */
module TearDown {
  import opened Arch
  import opened PageTable
  import opened PageMap

  // The frames strictly below path p, and those of them under the first i words of its table
  ghost function Below(at: map<Path, nat>, p: Path): set<nat> {
    set q | q in at && p < q :: at[q]
  }

  ghost function BelowUpTo(at: map<Path, nat>, p: Path, i: nat): set<nat> {
    set q | q in at && p < q && q[|p|] < i :: at[q]
  }

  // One more word of the table: the child's frame and everything below it
  lemma BelowStep(mem: Frames, at: map<Path, nat>, pgd: nat, p: Path, i: nat)
    requires Tree(mem, at, pgd) && p in at
    ensures BelowUpTo(at, p, i + 1) ==
            BelowUpTo(at, p, i) + (if p + [i] in at then Below(at, p + [i]) + {at[p + [i]]} else {})
  {
    var c: Path := p + [i];
    forall q | q in at && p < q && q[|p|] == i ensures c in at && (q == c || c < q) {
      assert c <= q;
      if c !in at {
        NoDescendants(mem, at, pgd, c, q);
      }
    }
    if c in at {
      assert p < c && c[|p|] == i;
      forall q | q in at && c < q ensures p < q && q[|p|] == i {}
    }
  }

  // Different parts of a tree are on different frames
  lemma PartsApart(at: map<Path, nat>, p: Path, i: nat)
    requires Injective(at) && p + [i] in at
    ensures Below(at, p + [i]) !! BelowUpTo(at, p, i)
    ensures at[p + [i]] !in BelowUpTo(at, p, i) && at[p + [i]] !in Below(at, p + [i])
    ensures Below(at, p + [i]) <= Below(at, p) && at[p + [i]] in Below(at, p)
  {
    var c: Path := p + [i];
    assert c[|p|] == i && p < c;
    forall q, r | q in at && r in at && c < q && p < r && r[|p|] < i ensures at[q] != at[r] {
      assert q[|p|] == i;
    }
  }

  lemma BelowAll(mem: Frames, at: map<Path, nat>, pgd: nat, p: Path)
    requires Tree(mem, at, pgd) && p in at
    ensures BelowUpTo(at, p, Width(p)) == Below(at, p) && BelowUpTo(at, p, 0) == {}
  {
    forall q | q in at && p < q ensures q[|p|] < Width(p) {
      assert IsPath(q);
    }
  }

  // free_page: the frame must be in use
  method FreePage(m: Memory, f: nat)
    requires f !in m.free
    modifies m`free
    ensures m.free == old(m.free) + {f}
  {
    m.free := m.free + {f};
  }

  // The loop over one table, with the loops for the tables below it
  method FreeLevel(m: Memory, table: nat, level: nat, ghost at: map<Path, nat>, ghost pgd: nat, ghost p: Path)
    requires Tree(m.mem, at, pgd) && p in at && at[p] == table && 1 <= level && |p| + level == 4
    requires Below(at, p) !! m.free
    modifies m`free
    ensures m.free == old(m.free) + Below(at, p)
    decreases level
  {
    var n := if level == 4 then ENTRIES / 2 else ENTRIES;
    BelowAll(m.mem, at, pgd, p);
    assert TableAt(m.mem, at, p);
    var i: nat := 0;
    while i < n
      invariant i <= n == Width(p)
      invariant m.free == old(m.free) + BelowUpTo(at, p, i)
    {
      BelowStep(m.mem, at, pgd, p, i);
      if m.mem[table][i] != 0 {
        PartsApart(at, p, i);
        var child := Target(m.mem[table][i]);
        if level > 1 {
          FreeLevel(m, child, level - 1, at, pgd, p + [i]);
        } else {
          LeafHasNothingBelow(m.mem, at, pgd, p + [i]);
        }
        FreePage(m, child);
      }
      i := i + 1;
    }
  }

  lemma LeafHasNothingBelow(mem: Frames, at: map<Path, nat>, pgd: nat, p: Path)
    requires Tree(mem, at, pgd) && |p| == 4
    ensures Below(at, p) == {}
  {
    forall q | q in at ensures !(p < q) {
      assert IsPath(q);
    }
  }

  // free_proc_mm: the user half becomes empty, the kernel half of the top table stays
  method FreeProcMm(m: Memory, pgd: nat, ghost at: map<Path, nat>) returns (ghost at': map<Path, nat>)
    requires Valid(m.View(at), pgd)
    modifies m
    ensures at' == map[[] := pgd] && Valid(m.View(at'), pgd)
    ensures m.free == old(m.free) + (Used(at) - {pgd})
    ensures m.mem.Keys == old(m.mem.Keys) && (forall f :: f in m.mem && f != pgd ==> m.mem[f] == old(m.mem[f]))
    ensures m.mem[pgd][ENTRIES / 2..] == old(m.mem[pgd][ENTRIES / 2..])
    ensures forall i :: 0 <= i < ENTRIES / 2 ==> m.mem[pgd][i] == 0
  {
    BelowRoot(at, pgd);
    FreeLevel(m, pgd, 4, at, pgd, []);
    var words: seq<nat> := Zeros()[..ENTRIES / 2] + m.mem[pgd][ENTRIES / 2..];
    m.mem := m.mem[pgd := words];
    at' := map[[] := pgd];
    RootOnly(pgd);
    EmptyTree(m.mem, pgd);
  }

  lemma BelowRoot(at: map<Path, nat>, pgd: nat)
    requires Injective(at) && [] in at && at[[]] == pgd
    ensures Below(at, []) == Used(at) - {pgd}
  {
    forall q | q in at && q != [] ensures at[q] in Below(at, []) {
      assert [] < q;
    }
  }

  // A top table whose user half is zero is the empty address space
  lemma EmptyTree(mem: Frames, pgd: nat)
    requires IsFrame(mem, pgd) && forall i :: 0 <= i < ENTRIES / 2 ==> mem[pgd][i] == 0
    ensures Tree(mem, map[[] := pgd], pgd)
  {
    var at: map<Path, nat> := map[[] := pgd];
    assert TableAt(mem, at, []);
  }

  lemma RootOnly(pgd: nat)
    ensures Used(map[[] := pgd]) == {pgd}
  {
    var at: map<Path, nat> := map[[] := pgd];
    assert [] in at && at[[]] == pgd;
  }

  // Any sequence of map_page calls followed by free_proc_mm gives every frame back
  method MapThenTearDown(m: Memory, pgd: nat, addrs: seq<nat>) returns (ghost at': map<Path, nat>)
    requires Valid(m.View(map[[] := pgd]), pgd) && forall a :: a in addrs ==> IsUser(a)
    modifies m
    ensures at' == map[[] := pgd] && Valid(m.View(at'), pgd)
    ensures m.free == old(m.free)
    ensures m.mem[pgd][ENTRIES / 2..] == old(m.mem[pgd][ENTRIES / 2..])
  {
    var i: nat := 0;
    ghost var at: map<Path, nat> := map[[] := pgd];
    ghost var all := Used(at) + m.free;
    RootOnly(pgd);
    while i < |addrs|
      invariant i <= |addrs|
      invariant Valid(m.View(at), pgd) && Used(at) + m.free == all
      invariant m.mem[pgd][ENTRIES / 2..] == old(m.mem[pgd][ENTRIES / 2..])
    {
      var page;
      page, at := m.MapPage(pgd, addrs[i], at);
      i := i + 1;
    }
    assert pgd in Used(at);
    at' := FreeProcMm(m, pgd, at);
  }
}
