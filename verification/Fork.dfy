/**
 copy_mm: the child of a fork gets its own page tables and its own copy of every page of the
 parent's segments, stack and heap.
 */
module Fork {
  import opened Arch
  import opened LinkedLists
  import opened PageTable
  import opened PageMap
  import opened TearDown

  // The user memory of a process: program segments as byte ranges, stack and heap as page ranges
  datatype Mm = Mm(segs: seq<(nat, nat)>, startStack: nat, endStack: nat, startBrk: nat, brk: nat)

  function PageUpperAlign(a: nat): nat { (a / PAGE_SIZE + if a % PAGE_SIZE > 0 then 1 else 0) * PAGE_SIZE }

  predicate IsPageStart(a: nat) {
    a % PAGE_SIZE == 0
  }

  predicate Range(start: nat, end: nat) {
    IsPageStart(start) && IsPageStart(end) && start <= end <= 0x8000_0000_0000
  }

  // The kernel keeps stack and heap bounds page-aligned, and everything below the kernel half
  predicate WellFormed(mm: Mm) {
    && (forall i :: 0 <= i < |mm.segs| ==> mm.segs[i].0 <= mm.segs[i].1 <= 0x8000_0000_0000)
    && Range(mm.startStack, mm.endStack) && Range(mm.startBrk, mm.brk)
  }

  // The pages of an address range and of the whole user memory, by table path
  ghost function RangePages(start: nat, end: nat): set<Path> {
    PageRun(start / PAGE_SIZE, end / PAGE_SIZE)
  }

  ghost function PageRun(lo: nat, hi: nat): set<Path> {
    set k | lo <= k < hi :: PagePath(k)
  }

  function PagePath(k: nat): Path {
    PathOf(k * PAGE_SIZE)
  }

  ghost function SegPages(segs: seq<(nat, nat)>): set<Path> {
    if segs == [] then {} else
    var s := segs[|segs| - 1];
    SegPages(segs[..|segs| - 1]) + OneSegPages(s)
  }

  ghost function OneSegPages(seg: (nat, nat)): set<Path> {
    RangePages(PageLowerAlign(seg.0), PageUpperAlign(seg.1))
  }

  ghost function Pages(mm: Mm): set<Path> {
    SegPages(mm.segs) + RangePages(mm.startStack, mm.endStack) + RangePages(mm.startBrk, mm.brk)
  }

  // The mapped pages of an address space
  ghost function Leaves(at: map<Path, nat>): set<Path> {
    set q | q in at && |q| == 4
  }

  // Two address spaces in one memory, on different frames; every page of the child is a copy of the parent's
  ghost predicate Copying(mem: Frames, free: set<nat>, parent: map<Path, nat>, pgdP: nat,
                          child: map<Path, nat>, pgdC: nat) {
    && Valid(Space(mem, free, parent), pgdP) && Valid(Space(mem, free, child), pgdC)
    && Used(parent) !! Used(child)
    && CopiedPages(mem, parent, child)
  }

  ghost predicate CopiedPages(mem: Frames, parent: map<Path, nat>, child: map<Path, nat>) {
    forall q :: q in child && |q| == 4 ==>
      q in parent && child[q] in mem && parent[q] in mem && mem[child[q]] == mem[parent[q]]
  }

  // The contents of these frames are unchanged
  ghost predicate Kept(mem: Frames, mem': Frames, frames: set<nat>) {
    forall f :: f in frames ==> f in mem && f in mem' && mem'[f] == mem[f]
  }

  // The words of a top table that map the kernel
  function KernelHalf(mem: Frames, pgd: nat): seq<nat> {
    if IsFrame(mem, pgd) then mem[pgd][ENTRIES / 2..] else []
  }

  // ----- the frames that a fork takes -----

  // The tables and pages of a tree with these pages: every prefix of their paths
  ghost function Needed(pages: set<Path>): set<Path> {
    {[]} + (set q, k: nat | q in pages && k <= |q| :: q[..k])
  }

  // The child's tree so far: within what is needed, on exactly the frames taken since there were all
  ghost predicate Spent(all: set<nat>, need: set<Path>, free: set<nat>, child: map<Path, nat>) {
    child.Keys <= need && Used(child) + free == all && Used(child) !! free
  }

  lemma NeededOnPath(pages: set<Path>, path: Path, q: Path)
    requires path in pages && q <= path
    ensures q in Needed(pages)
  {
    assert q == path[..|q|];
  }

  lemma {:induction false} PrefixIn(mem: Frames, at: map<Path, nat>, pgd: nat, q: Path, k: nat)
    requires Tree(mem, at, pgd) && q in at && k <= |q|
    ensures q[..k] in at
    decreases |q| - k
  {
    if k < |q| {
      PrefixIn(mem, at, pgd, q, k + 1);
      assert Parent(q[..k + 1]) == q[..k];
    } else {
      assert q[..k] == q;
    }
  }

  // A tree with all the pages has all the tables
  lemma AllNeeded(mem: Frames, at: map<Path, nat>, pgd: nat, pages: set<Path>)
    requires Tree(mem, at, pgd) && pages <= at.Keys
    ensures Needed(pages) <= at.Keys
  {
    forall p | p in Needed(pages) ensures p in at {
      if p != [] {
        var q, k: nat :| q in pages && k <= |q| && p == q[..k];
        PrefixIn(mem, at, pgd, q, k);
      }
    }
  }

  lemma {:induction false} UsedCount(at: map<Path, nat>)
    requires Injective(at)
    ensures |Used(at)| == |at.Keys|
    decreases |at|
  {
    if at.Keys == {} {
      assert Used(at) == {};
    } else {
      var p :| p in at;
      var rest := at - {p};
      assert rest.Keys == at.Keys - {p};
      assert at == rest[p := at[p]];
      UsedGrows(rest, p, at[p]);
      UsedCount(rest);
      assert at[p] !in Used(rest);
    }
  }

  // One map_page for the child
  lemma SpentGrows(all: set<nat>, pages: set<Path>, v: Space, w: Space, pgdC: nat, path: Path)
    requires Spent(all, Needed(pages), v.free, v.at) && Extends(v, w, pgdC, path) && Valid(w, pgdC) && path in pages
    ensures Spent(all, Needed(pages), w.free, w.at)
  {
    forall q | q in w.at ensures q in Needed(pages) {
      if q !in v.at {
        NeededOnPath(pages, path, q);
      }
    }
  }

  // No frame is left, and a page is missing
  ghost predicate Stuck(free: set<nat>, child: map<Path, nat>, pages: set<Path>) {
    free == {} && !(pages <= child.Keys)
  }

  // A finished child has taken as many frames as are needed
  lemma FinishedCount(mem: Frames, all: set<nat>, free: set<nat>, child: map<Path, nat>, pgdC: nat, pages: set<Path>)
    requires Tree(mem, child, pgdC) && Spent(all, Needed(pages), free, child) && Leaves(child) == pages
    ensures child.Keys == Needed(pages) && |Needed(pages)| <= |all|
  {
    assert pages <= child.Keys;
    AllNeeded(mem, child, pgdC, pages);
    assert child.Keys == Needed(pages);
    UsedCount(child);
    SubsetCount(Used(child), all);
  }

  // A child that is stuck without frames has taken them all, and they are not enough
  lemma StuckCount(all: set<nat>, free: set<nat>, child: map<Path, nat>, pages: set<Path>)
    requires Injective(child) && Spent(all, Needed(pages), free, child) && Stuck(free, child, pages)
    ensures |all| < |Needed(pages)|
  {
    var missing :| missing in pages && missing !in child;
    NeededOnPath(pages, missing, missing);
    UsedCount(child);
    assert Used(child) == all;
    SubsetCount(child.Keys + {missing}, Needed(pages));
  }

  // A subset is not larger
  lemma {:induction false} SubsetCount<T>(a: set<T>, b: set<T>)
    requires a <= b
    ensures |a| <= |b|
    decreases |a|
  {
    if a != {} {
      var x :| x in a;
      SubsetCount(a - {x}, b - {x});
    }
  }

  // The effect of one map_page for the child, seen from both sides
  lemma ChildGrows(v: Space, w: Space, parent: map<Path, nat>, pgdP: nat, pgdC: nat, path: Path)
    requires Valid(v, pgdC) && Valid(w, pgdC) && Extends(v, w, pgdC, path) && |path| == 4
    requires Valid(Space(v.mem, v.free, parent), pgdP) && Used(parent) !! Used(v.at)
    ensures Valid(Space(w.mem, w.free, parent), pgdP) && Used(parent) !! Used(w.at)
    ensures Kept(v.mem, w.mem, Used(parent))
    ensures forall q :: q in v.at && |q| == 4 ==> w.mem[v.at[q]] == v.mem[v.at[q]]
    ensures path in w.at ==> Leaves(w.at) == Leaves(v.at) + {path}
  {
    forall f | f in Used(parent) ensures f in v.mem && f in w.mem && w.mem[f] == v.mem[f] {
      forall q | q in v.at && |q| < 4 ensures v.at[q] != f {
        assert v.at[q] in Used(v.at);
      }
      assert Untouched(v, f);
    }
    OtherFramesTree(v.mem, w.mem, parent, pgdP);
    forall q | q in v.at && |q| == 4 ensures w.mem[v.at[q]] == v.mem[v.at[q]] {
      DataUntouched(v, pgdC, q);
    }
    forall q | q in w.at && |q| == 4 ensures q in v.at || q == path {
      assert q <= path ==> q == path;
    }
    assert Used(w.at) <= Used(v.at) + v.free;
  }

  // Writing one page of the child
  lemma ChildWrites(v: Space, parent: map<Path, nat>, pgdP: nat, pgdC: nat, q: Path, words: seq<nat>)
    requires Valid(v, pgdC) && q in v.at && |q| == 4 && |words| == ENTRIES
    requires Valid(Space(v.mem, v.free, parent), pgdP) && Used(parent) !! Used(v.at)
    ensures var mem := v.mem[v.at[q] := words];
            && Valid(Space(mem, v.free, v.at), pgdC) && Valid(Space(mem, v.free, parent), pgdP)
            && Kept(v.mem, mem, Used(parent))
            && (forall r :: r in v.at && r != q ==> mem[v.at[r]] == v.mem[v.at[r]])
  {
    DataWriteTree(v.mem, v.at, pgdC, q, words);
    assert v.at[q] in Used(v.at);
    forall p | p in parent ensures parent[p] in Used(parent) {}
    OtherFramesTree(v.mem, v.mem[v.at[q] := words], parent, pgdP);
  }

  // One of the three copy loops of copy_mm; false stands for the assertion failure without memory
  method CopyRange(m: Memory, pgdP: nat, pgdC: nat, from: nat, end: nat,
                   ghost parent: map<Path, nat>, ghost child: map<Path, nat>, ghost all: set<nat>)
    returns (ok: bool, ghost child': map<Path, nat>)
    requires Range(from, end) && Copying(m.mem, m.free, parent, pgdP, child, pgdC)
    requires RangePages(from, end) <= Leaves(parent) && Spent(all, Needed(Leaves(parent)), m.free, child)
    modifies m
    ensures Copying(m.mem, m.free, parent, pgdP, child', pgdC)
    ensures Spent(all, Needed(Leaves(parent)), m.free, child')
    ensures if ok then Leaves(child') == Leaves(child) + RangePages(from, end)
            else Stuck(m.free, child', Leaves(parent))
    ensures Kept(old(m.mem), m.mem, Used(parent))
    ensures KernelHalf(m.mem, pgdC) == old(KernelHalf(m.mem, pgdC))
  {
    ghost var lo: nat, hi: nat := PageNumbers(from, end);
    ghost var k: nat, base, need := lo, Leaves(child), Needed(Leaves(parent));
    ok, child' := true, child;
    var start: nat := from;
    assert PageRun(lo, lo) == {};
    while ok && start != end
      invariant lo <= k <= hi && start == k * PAGE_SIZE
      invariant Copying(m.mem, m.free, parent, pgdP, child', pgdC)
      invariant Spent(all, need, m.free, child')
      invariant if ok then Leaves(child') == base + PageRun(lo, k) else Stuck(m.free, child', Leaves(parent))
      invariant Kept(old(m.mem), m.mem, Used(parent))
      invariant KernelHalf(m.mem, pgdC) == old(KernelHalf(m.mem, pgdC))
      decreases hi - k
    {
      NextPage(lo, k, hi, start, base);
      ok, child' := CopyPage(m, pgdP, pgdC, start, parent, child', all);
      start := start + PAGE_SIZE;
      k := k + 1;
    }
  }

  lemma PageNumbers(from: nat, end: nat) returns (lo: nat, hi: nat)
    requires Range(from, end)
    ensures lo <= hi && from == lo * PAGE_SIZE && end == hi * PAGE_SIZE && RangePages(from, end) == PageRun(lo, hi)
  {
    lo, hi := from / PAGE_SIZE, end / PAGE_SIZE;
  }

  lemma SegRange(vstart: nat, vend: nat)
    requires vstart <= vend <= 0x8000_0000_0000
    ensures Range(PageLowerAlign(vstart), PageUpperAlign(vend))
  {
  }

  lemma NextPage(lo: nat, k: nat, hi: nat, start: nat, base: set<Path>)
    requires lo <= k < hi && hi * PAGE_SIZE <= 0x8000_0000_0000 && start == k * PAGE_SIZE
    ensures base + PageRun(lo, k + 1) == base + PageRun(lo, k) + {PathOf(start)}
    ensures PathOf(start) in PageRun(lo, hi) && IsUser(start) && start + PAGE_SIZE == (k + 1) * PAGE_SIZE
  {
    PageBelow(k, hi, start);
    RunGrows(lo, k, hi);
  }

  lemma PageBelow(k: nat, hi: nat, start: nat)
    requires k < hi && hi * PAGE_SIZE <= 0x8000_0000_0000 && start == k * PAGE_SIZE
    ensures IsUser(start) && PathOf(start) == PagePath(k)
  {
  }

  lemma RunGrows(lo: nat, k: nat, hi: nat)
    requires lo <= k < hi
    ensures PageRun(lo, k + 1) == PageRun(lo, k) + {PagePath(k)} && PagePath(k) in PageRun(lo, hi)
  {
  }

  // The body of the copy loops: map the page for the child, copy it from the parent's address space
  method CopyPage(m: Memory, pgdP: nat, pgdC: nat, start: nat,
                  ghost parent: map<Path, nat>, ghost child: map<Path, nat>, ghost all: set<nat>)
    returns (ok: bool, ghost child': map<Path, nat>)
    requires Copying(m.mem, m.free, parent, pgdP, child, pgdC) && IsUser(start) && PathOf(start) in Leaves(parent)
    requires Spent(all, Needed(Leaves(parent)), m.free, child)
    modifies m
    ensures Copying(m.mem, m.free, parent, pgdP, child', pgdC)
    ensures Spent(all, Needed(Leaves(parent)), m.free, child')
    ensures if ok then Leaves(child') == Leaves(child) + {PathOf(start)} else Stuck(m.free, child', Leaves(parent))
    ensures Kept(old(m.mem), m.mem, Used(parent))
    ensures KernelHalf(m.mem, pgdC) == old(KernelHalf(m.mem, pgdC))
  {
    PathOfUser(start);
    ghost var path := PathOf(start);
    ghost var v := m.View(child);
    var kstart;
    kstart, child' := m.MapPage(pgdC, start, child);
    ghost var w := m.View(child');
    ChildGrows(v, w, parent, pgdP, pgdC, path);
    SpentGrows(all, Leaves(parent), v, w, pgdC, path);
    if kstart.None? {
      CopiedStays(v, w, parent, pgdC, path);
      return false, child';
    }
    assert [] + path == path;
    WalkIsLookup(m.mem, parent, pgdP, [], path);
    var src := Walk(m.mem, pgdP, PathOf(start));
    ChildWrites(w, parent, pgdP, pgdC, path, m.mem[src.value]);
    CopiedGrows(v, w, parent, pgdP, pgdC, path);
    var words: seq<nat> := m.mem[src.value];
    m.mem := m.mem[kstart.value := words];
    return true, child';
  }

  // A failed map_page adds no page
  lemma CopiedStays(v: Space, w: Space, parent: map<Path, nat>, pgdC: nat, path: Path)
    requires Valid(v, pgdC) && Extends(v, w, pgdC, path) && |path| == 4 && path !in w.at
    requires CopiedPages(v.mem, parent, v.at)
    requires Kept(v.mem, w.mem, Used(parent))
    requires forall q :: q in v.at && |q| == 4 ==> w.mem[v.at[q]] == v.mem[v.at[q]]
    ensures CopiedPages(w.mem, parent, w.at)
  {
    forall q | q in w.at && |q| == 4 ensures q in v.at {
      assert q <= path ==> q == path;
    }
    forall q | q in parent ensures parent[q] in Used(parent) {}
  }

  // Copying the parent's page into the new or existing page of the child
  lemma CopiedGrows(v: Space, w: Space, parent: map<Path, nat>, pgdP: nat, pgdC: nat, path: Path)
    requires Valid(v, pgdC) && Valid(w, pgdC) && Extends(v, w, pgdC, path)
    requires |path| == 4 && path in w.at && path in parent
    requires CopiedPages(v.mem, parent, v.at) && Used(parent) !! Used(w.at)
    requires Kept(v.mem, w.mem, Used(parent))
    requires forall q :: q in v.at && |q| == 4 ==> w.mem[v.at[q]] == v.mem[v.at[q]]
    requires parent[path] in w.mem
    ensures CopiedPages(w.mem[w.at[path] := w.mem[parent[path]]], parent, w.at)
    ensures w.at[path] != pgdC
  {
    forall q | q in parent ensures parent[q] in Used(parent) && parent[q] != w.at[path] {
      assert w.at[path] in Used(w.at);
    }
    forall q | q in w.at && |q| == 4 && q != path ensures q in v.at && w.at[q] != w.at[path] {}
  }

  // ----- the whole address space -----

  // get_zeroed_page
  method GetZeroedPage(m: Memory) returns (f: Option<nat>)
    requires forall x :: x in m.free ==> x in m.mem
    modifies m
    ensures f.None? ==> m.free == {} && m.mem == old(m.mem) && m.free == old(m.free)
    ensures f.Some? ==>
              f.value in old(m.free) && m.free == old(m.free) - {f.value} && m.mem == old(m.mem)[f.value := Zeros()]
  {
    if m.free == {} {
      return None;
    }
    var x :| x in m.free;
    m.free := m.free - {x};
    m.mem := m.mem[x := Zeros()];
    return Some(x);
  }

  // The new top table: the kernel half of the parent's, an empty user half
  method NewTop(m: Memory, pgdP: nat, ghost parent: map<Path, nat>) returns (pgdC: Option<nat>)
    requires Valid(m.View(parent), pgdP)
    modifies m
    ensures pgdC.Some? ==> Copying(m.mem, m.free, parent, pgdP, map[[] := pgdC.value], pgdC.value)
    ensures pgdC.Some? ==> KernelHalf(m.mem, pgdC.value) == KernelHalf(m.mem, pgdP)
    ensures pgdC.Some? ==> old(m.free) == {pgdC.value} + m.free
    ensures pgdC.None? ==> m.free == {} && m.View(parent) == old(m.View(parent))
    ensures Kept(old(m.mem), m.mem, Used(parent))
  {
    forall p | p in parent ensures parent[p] in Used(parent) {}
    forall f | f in Used(parent) ensures f in m.mem {}
    pgdC := GetZeroedPage(m);
    if pgdC.Some? {
      var words: seq<nat> := Zeros()[..ENTRIES / 2] + m.mem[pgdP][ENTRIES / 2..];
      m.mem := m.mem[pgdC.value := words];
      OtherFramesTree(old(m.mem), m.mem, parent, pgdP);
      RootOnly(pgdC.value);
      EmptyTree(m.mem, pgdC.value);
    }
  }

  // copy_mm: when the parent's mapped pages are its segments, stack and heap, the child has the same
  // pages with the same contents, on frames of its own, and the parent is as it was. It fails exactly
  // when there are fewer free frames than those pages and their tables need.
  method CopyMm(m: Memory, mm: Mm, pgdP: nat, ghost parent: map<Path, nat>)
    returns (pgdC: Option<nat>, ghost child: map<Path, nat>)
    requires Valid(m.View(parent), pgdP) && WellFormed(mm) && Leaves(parent) == Pages(mm)
    modifies m
    ensures pgdC.Some? <==> |Needed(Pages(mm))| <= |old(m.free)|
    ensures pgdC.Some? ==> Copying(m.mem, m.free, parent, pgdP, child, pgdC.value) && Leaves(child) == Leaves(parent)
    ensures pgdC.Some? ==> KernelHalf(m.mem, pgdC.value) == KernelHalf(m.mem, pgdP)
    ensures pgdC.Some? ==> child.Keys == Needed(Pages(mm))
    ensures Kept(old(m.mem), m.mem, Used(parent))
    ensures Used(child) + m.free == old(m.free)
  {
    child := map[];
    ghost var all := m.free;
    pgdC := NewTop(m, pgdP, parent);
    if pgdC.None? {
      assert Used(child) == {} && [] in Needed(Pages(mm));
      return None, child;
    }
    child := map[[] := pgdC.value];
    RootOnly(pgdC.value);
    var ok;
    ok, child := CopyUser(m, mm, pgdP, pgdC.value, parent, child, all);
    if ok {
      FinishedCount(m.mem, all, m.free, child, pgdC.value, Pages(mm));
    } else {
      StuckCount(all, m.free, child, Pages(mm));
      pgdC := None;
    }
  }

  // The copy loops of copy_mm one after the other
  method CopyUser(m: Memory, mm: Mm, pgdP: nat, pgdC: nat,
                  ghost parent: map<Path, nat>, ghost child: map<Path, nat>, ghost all: set<nat>)
    returns (ok: bool, ghost child': map<Path, nat>)
    requires WellFormed(mm) && Leaves(parent) == Pages(mm) && Leaves(child) == {}
    requires Copying(m.mem, m.free, parent, pgdP, child, pgdC) && Spent(all, Needed(Leaves(parent)), m.free, child)
    modifies m
    ensures Copying(m.mem, m.free, parent, pgdP, child', pgdC)
    ensures Spent(all, Needed(Leaves(parent)), m.free, child')
    ensures if ok then Leaves(child') == Leaves(parent) else Stuck(m.free, child', Leaves(parent))
    ensures Kept(old(m.mem), m.mem, Used(parent))
    ensures KernelHalf(m.mem, pgdC) == old(KernelHalf(m.mem, pgdC))
  {
    PagesParts(mm, Leaves(child), Leaves(parent));
    ok, child' := CopySegs(m, pgdP, pgdC, mm.segs, parent, child, all);
    if ok {
      ok, child' := CopyRange(m, pgdP, pgdC, mm.startStack, mm.endStack, parent, child', all);
    }
    if ok {
      ok, child' := CopyRange(m, pgdP, pgdC, mm.startBrk, mm.brk, parent, child', all);
    }
  }

  lemma PagesParts(mm: Mm, none: set<Path>, pages: set<Path>)
    requires none == {} && pages == Pages(mm)
    ensures SegPages(mm.segs) <= pages
    ensures RangePages(mm.startStack, mm.endStack) <= pages && RangePages(mm.startBrk, mm.brk) <= pages
    ensures none + SegPages(mm.segs) + RangePages(mm.startStack, mm.endStack) + RangePages(mm.startBrk, mm.brk) == pages
  {
  }

  // One program segment, rounded outwards to whole pages
  method CopySeg(m: Memory, pgdP: nat, pgdC: nat, seg: (nat, nat),
                 ghost parent: map<Path, nat>, ghost child: map<Path, nat>, ghost all: set<nat>)
    returns (ok: bool, ghost child': map<Path, nat>)
    requires seg.0 <= seg.1 <= 0x8000_0000_0000
    requires Copying(m.mem, m.free, parent, pgdP, child, pgdC) && OneSegPages(seg) <= Leaves(parent)
    requires Spent(all, Needed(Leaves(parent)), m.free, child)
    modifies m
    ensures Copying(m.mem, m.free, parent, pgdP, child', pgdC)
    ensures Spent(all, Needed(Leaves(parent)), m.free, child')
    ensures if ok then Leaves(child') == Leaves(child) + OneSegPages(seg) else Stuck(m.free, child', Leaves(parent))
    ensures Kept(old(m.mem), m.mem, Used(parent))
    ensures KernelHalf(m.mem, pgdC) == old(KernelHalf(m.mem, pgdC))
  {
    SegRange(seg.0, seg.1);
    ok, child' := CopyRange(m, pgdP, pgdC, PageLowerAlign(seg.0), PageUpperAlign(seg.1), parent, child, all);
  }

  // The copy loop over the program segments
  method CopySegs(m: Memory, pgdP: nat, pgdC: nat, segs: seq<(nat, nat)>,
                  ghost parent: map<Path, nat>, ghost child: map<Path, nat>, ghost all: set<nat>)
    returns (ok: bool, ghost child': map<Path, nat>)
    requires forall i :: 0 <= i < |segs| ==> segs[i].0 <= segs[i].1 <= 0x8000_0000_0000
    requires Copying(m.mem, m.free, parent, pgdP, child, pgdC) && SegPages(segs) <= Leaves(parent)
    requires Spent(all, Needed(Leaves(parent)), m.free, child)
    modifies m
    ensures Copying(m.mem, m.free, parent, pgdP, child', pgdC)
    ensures Spent(all, Needed(Leaves(parent)), m.free, child')
    ensures if ok then Leaves(child') == Leaves(child) + SegPages(segs) else Stuck(m.free, child', Leaves(parent))
    ensures Kept(old(m.mem), m.mem, Used(parent))
    ensures KernelHalf(m.mem, pgdC) == old(KernelHalf(m.mem, pgdC))
  {
    ghost var base, need := Leaves(child), Needed(Leaves(parent));
    ok, child' := true, child;
    var i: nat := 0;
    while ok && i < |segs|
      invariant i <= |segs| && Copying(m.mem, m.free, parent, pgdP, child', pgdC)
      invariant Spent(all, need, m.free, child')
      invariant if ok then Leaves(child') == base + SegPages(segs[..i]) else Stuck(m.free, child', Leaves(parent))
      invariant Kept(old(m.mem), m.mem, Used(parent))
      invariant KernelHalf(m.mem, pgdC) == old(KernelHalf(m.mem, pgdC))
    {
      SegStep(segs, i);
      NextSeg(segs, i, base);
      ok, child' := CopySeg(m, pgdP, pgdC, segs[i], parent, child', all);
      i := i + 1;
    }
    assert segs[..|segs|] == segs;
  }

  lemma NextSeg(segs: seq<(nat, nat)>, i: nat, base: set<Path>)
    requires i < |segs|
    ensures base + SegPages(segs[..i + 1]) == base + SegPages(segs[..i]) + OneSegPages(segs[i])
  {
    SegStep(segs, i);
  }

  lemma {:induction false} SegStep(segs: seq<(nat, nat)>, i: nat)
    requires i < |segs|
    ensures SegPages(segs[..i + 1]) == SegPages(segs[..i]) + OneSegPages(segs[i])
    ensures OneSegPages(segs[i]) <= SegPages(segs)
    decreases |segs|
  {
    assert segs[..i + 1][..i] == segs[..i];
    if i + 1 < |segs| {
      SegStep(segs[..|segs| - 1], i);
    }
  }

  // What the child sees at any user address is what the parent sees, in a frame of its own
  lemma ChildSeesParent(v: Space, parent: map<Path, nat>, child: map<Path, nat>, a: nat)
    requires CopiedPages(v.mem, parent, child) && Leaves(child) == Leaves(parent)
    requires Used(parent) !! Used(child) && IsUser(a)
    ensures Lookup(child, a).Some? <==> Lookup(parent, a).Some?
    ensures Lookup(child, a).Some? ==>
        var c, p := Lookup(child, a).value, Lookup(parent, a).value;
        c != p && c in v.mem && p in v.mem && v.mem[c] == v.mem[p]
  {
    PathOfUser(a);
    var q := PathOf(a);
    assert q in child <==> q in Leaves(child);
    assert q in parent <==> q in Leaves(parent);
    if q in child {
      assert child[q] in Used(child) && parent[q] in Used(parent);
    }
  }
}
