/**
 setup_page_table: the kernel's identity map, built at boot as four flat arrays of table words. All
 positions are word indices in physical memory; a page is 512 words. The C types are modelled where
 they matter: entry counts are passed as 32-bit values, the clearing length is computed in 32 bits,
 the loop counter is a 32-bit signed integer, and clearing zero bytes never stops.
 */
module IdentityMap {
  import opened Arch
  import opened LinkedLists
  import opened Dyadic

  const UINT32 := 0x1_0000_0000
  const INT32 := 0x8000_0000

  // The number of tables that n entries fill, rounded up
  function Tables(n: nat): nat {
    n / ENTRIES + if n % ENTRIES > 0 then 1 else 0
  }

  // ----- the walk -----

  // The page a table word points to
  function Follow(mem: seq<nat>, table: nat, i: nat): Option<nat> {
    if table + i < |mem| && mem[table + i] != 0 then Some(mem[table + i] / PAGE_SIZE) else None
  }

  // The physical address behind a virtual address, through the tables whose top one starts at word top
  function Walk(mem: seq<nat>, top: nat, vaddr: nat): Option<nat> {
    match Follow(mem, top, vaddr / 0x80_0000_0000 % ENTRIES)
    case None => None
    case Some(t3) =>
      match Follow(mem, t3 * ENTRIES, vaddr / 0x4000_0000 % ENTRIES)
      case None => None
      case Some(t2) =>
        match Follow(mem, t2 * ENTRIES, vaddr / 0x20_0000 % ENTRIES)
        case None => None
        case Some(t1) =>
          match Follow(mem, t1 * ENTRIES, vaddr / PAGE_SIZE % ENTRIES)
          case None => None
          case Some(page) => Some(page * PAGE_SIZE + vaddr % PAGE_SIZE)
  }

  // ----- filling one level -----

  // The number of words that clearing the tables of nr entries clears
  function Cleared(nr: nat): nat {
    Tables(nr) * PAGE_SIZE % UINT32 / 8
  }

  // Clearing stops and the loop counter does not overflow
  predicate Sane(nr: nat) {
    Cleared(nr) > 0 && nr < INT32
  }

  // A level at word base whose entry x points to page first + x, after clearing some words
  function Filled(mem: seq<nat>, base: nat, first: nat, nr: nat, cleared: nat): (r: seq<nat>)
    ensures |r| == |mem|
  {
    seq(|mem|, x requires 0 <= x < |mem| =>
      if base <= x < base + nr then (first + (x - base)) * PAGE_SIZE + ATTR
      else if base <= x < base + cleared then 0
      else mem[x])
  }

  // The top level, where every entry appears in both halves
  function FilledTop(mem: seq<nat>, base: nat, first: nat, nr: nat): (r: seq<nat>)
    ensures |r| == |mem|
  {
    seq(|mem|, x requires 0 <= x < |mem| =>
      if base <= x < base + nr then (first + (x - base)) * PAGE_SIZE + ATTR
      else if base + 256 <= x < base + 256 + nr then (first + (x - base - 256)) * PAGE_SIZE + ATTR
      else if base <= x < base + ENTRIES then 0
      else mem[x])
  }

  // fill_pdpt, fill_pd and fill_pt; false stands for the clearing or the loop running away
  method Fill(w: array<nat>, base: nat, first: nat, n: nat) returns (ok: bool)
    requires base + Tables(n) * ENTRIES <= w.Length
    modifies w
    ensures ok <==> Sane(n % UINT32)
    ensures ok ==> w[..] == Filled(old(w[..]), base, first, n % UINT32, Cleared(n % UINT32))
  {
    var nr := n % UINT32;
    ok := Sane(nr);
    if !ok {
      return;
    }
    CoversEntries(n);
    var i: nat := 0;
    while i < Cleared(nr)
      invariant i <= Cleared(nr)
      invariant forall x :: 0 <= x < w.Length ==> w[x] == if base <= x < base + i then 0 else old(w[x])
    {
      w[base + i] := 0;
      i := i + 1;
    }
    i := 0;
    while i < nr
      invariant i <= nr
      invariant forall x :: 0 <= x < w.Length ==>
          w[x] == if base <= x < base + i then (first + (x - base)) * PAGE_SIZE + ATTR
                  else if base <= x < base + Cleared(nr) then 0 else old(w[x])
    {
      w[base + i] := (first + i) * PAGE_SIZE + ATTR;
      i := i + 1;
    }
  }

  lemma CoversEntries(n: nat)
    ensures n % UINT32 <= Tables(n) * ENTRIES
    ensures Cleared(n % UINT32) <= Tables(n % UINT32) * ENTRIES <= Tables(n) * ENTRIES
  {
    var nr := n % UINT32;
    assert nr <= n;
    assert Tables(nr) <= Tables(n);
    var len := Tables(nr) * PAGE_SIZE;
    assert len % UINT32 <= len;
  }

  method FillTop(w: array<nat>, base: nat, first: nat, nr: nat)
    requires base + ENTRIES <= w.Length && nr <= 256
    modifies w
    ensures w[..] == FilledTop(old(w[..]), base, first, nr)
  {
    var i: nat := 0;
    while i < ENTRIES
      invariant i <= ENTRIES
      invariant forall x :: 0 <= x < w.Length ==> w[x] == if base <= x < base + i then 0 else old(w[x])
    {
      w[base + i] := 0;
      i := i + 1;
    }
    i := 0;
    while i < nr
      invariant i <= nr
      invariant forall x :: 0 <= x < w.Length ==>
          w[x] == if base <= x < base + i then (first + (x - base)) * PAGE_SIZE + ATTR
                  else if base + 256 <= x < base + 256 + i then (first + (x - base - 256)) * PAGE_SIZE + ATTR
                  else if base <= x < base + ENTRIES then 0 else old(w[x])
    {
      w[base + i] := (first + i) * PAGE_SIZE + ATTR;
      w[base + 256 + i] := (first + i) * PAGE_SIZE + ATTR;
      i := i + 1;
    }
  }

  // ----- the four levels -----

  // Entry counts, cleared words and first pages of the levels, from the page table (1) to the top (4)
  datatype Layout = Layout(n4: nat, n3: nat, n2: nat, n1: nat, c3: nat, c2: nat, c1: nat,
                           p4: nat, p3: nat, p2: nat, p1: nat, end: nat)

  // n1 is the count that reaches fill_pt, in 32 bits
  function LayoutOf(start: nat, memsize: nat): Layout {
    var pages := memsize / PAGE_SIZE;
    var n2 := Tables(pages);
    var n3 := Tables(n2);
    var n4 := Tables(n3);
    var p3 := start + Tables(n4);
    var p2 := p3 + Tables(n3);
    var p1 := p2 + Tables(n2);
    var n1 := pages % UINT32;
    Layout(n4, n3, n2, n1, Cleared(n3), Cleared(n2), Cleared(n1), start, p3, p2, p1, p1 + Tables(pages))
  }

  // The levels do not overlap
  predicate Apart(l: Layout) {
    && l.n4 <= 256 && l.p4 < l.p3
    && l.n3 <= (l.p2 - l.p3) * ENTRIES && l.c3 <= (l.p2 - l.p3) * ENTRIES
    && l.n2 <= (l.p1 - l.p2) * ENTRIES && l.c2 <= (l.p1 - l.p2) * ENTRIES
    && l.n1 <= (l.end - l.p1) * ENTRIES && l.c1 <= (l.end - l.p1) * ENTRIES
  }

  const MAX_MEMORY := 0x8000_0000_0000

  // Memory after setup_page_table, when it completes
  function Built(mem: seq<nat>, l: Layout): (r: seq<nat>)
    ensures |r| == |mem|
  {
    var m4 := FilledTop(mem, l.p4 * ENTRIES, l.p3, l.n4);
    var m3 := Filled(m4, l.p3 * ENTRIES, l.p2, l.n3, l.c3);
    var m2 := Filled(m3, l.p2 * ENTRIES, l.p1, l.n2, l.c2);
    Filled(m2, l.p1 * ENTRIES, 0, l.n1, l.c1)
  }

  lemma LayoutBounds(start: nat, memsize: nat)
    requires memsize <= MAX_MEMORY
    ensures var l := LayoutOf(start, memsize);
            && l.n4 <= 256 && l.n3 <= 0x2_0000 && l.n2 <= 0x400_0000
            && (memsize >= PAGE_SIZE <==> l.n2 > 0) && (l.n2 > 0 <==> l.n3 > 0) && (l.n3 > 0 <==> l.n4 > 0)
            && (memsize >= PAGE_SIZE ==> Apart(l) && l.p3 == start + 1)
            && l.end >= l.p1 >= l.p2 >= l.p3 >= start
  {
    var l := LayoutOf(start, memsize);
    CoversEntries(memsize / PAGE_SIZE);
    UpperLevelsSane(l.n2);
    UpperLevelsSane(l.n3);
  }

  // The levels above the page table are small enough for 32-bit arithmetic
  lemma UpperLevelsSane(nr: nat)
    requires nr <= 0x400_0000
    ensures nr % UINT32 == nr && (Sane(nr) <==> nr > 0) && (nr > 0 ==> Cleared(nr) == Tables(nr) * ENTRIES)
  {
  }

  // setup_page_table; the result is the first page after the tables
  method SetupPageTable(w: array<nat>, start: nat, memsize: nat) returns (end: Option<nat>)
    requires memsize <= MAX_MEMORY
    requires (start + 1) * ENTRIES <= w.Length && LayoutOf(start, memsize).end * ENTRIES <= w.Length
    modifies w
    ensures end.Some? <==> Sane(memsize / PAGE_SIZE % UINT32)
    ensures end.Some? ==>
              w[..] == Built(old(w[..]), LayoutOf(start, memsize)) && end.value == LayoutOf(start, memsize).end
  {
    var l := LayoutOf(start, memsize);
    LayoutBounds(start, memsize);
    UpperLevelsSane(l.n3);
    UpperLevelsSane(l.n2);
    FillTop(w, l.p4 * ENTRIES, l.p3, l.n4);
    var ok := Fill(w, l.p3 * ENTRIES, l.p2, l.n3);
    if !ok {
      return None;
    }
    ok := Fill(w, l.p2 * ENTRIES, l.p1, l.n2);
    if !ok {
      return None;
    }
    ok := Fill(w, l.p1 * ENTRIES, 0, memsize / PAGE_SIZE);
    if !ok {
      return None;
    }
    return Some(l.end);
  }

  // ----- what the tables mean -----

  // The words of the finished tables
  lemma BuiltWords(mem: seq<nat>, l: Layout, q: nat)
    requires Apart(l) && l.end * ENTRIES <= |mem|
    ensures var r := Built(mem, l);
            && (q < l.n4 ==> Points(r, l.p4 * ENTRIES + 256 + q, l.p3 + q))
            && (q < l.n3 ==> Points(r, l.p3 * ENTRIES + q, l.p2 + q))
            && (q < l.n2 ==> Points(r, l.p2 * ENTRIES + q, l.p1 + q))
            && (q < l.n1 ==> Points(r, l.p1 * ENTRIES + q, q))
  {
  }

  predicate Points(mem: seq<nat>, x: nat, page: nat) {
    x < |mem| && mem[x] == page * PAGE_SIZE + ATTR
  }

  // Every address whose four indices are within the filled entries is mapped to itself
  lemma FlatIdentity(mem: seq<nat>, l: Layout, a: nat)
    requires Apart(l) && l.end * ENTRIES <= |mem| && a < MAX_MEMORY
    requires a / PAGE_SIZE < l.n1 && a / 0x20_0000 < l.n2 && a / 0x4000_0000 < l.n3 && a / 0x80_0000_0000 < l.n4
    ensures Walk(Built(mem, l), l.p4 * ENTRIES, KERNEL_OFFSET + a) == Some(a)
  {
    FlatWords(mem, l, a / PAGE_SIZE, a / 0x20_0000, a / 0x4000_0000, a / 0x80_0000_0000);
    WalkFlat(Built(mem, l), l.p4, l.p3, l.p2, l.p1, a);
  }

  lemma FlatWords(mem: seq<nat>, l: Layout, q1: nat, q2: nat, q3: nat, q4: nat)
    requires Apart(l) && l.end * ENTRIES <= |mem| && q1 < l.n1 && q2 < l.n2 && q3 < l.n3 && q4 < l.n4
    ensures var r := Built(mem, l);
            && Points(r, l.p4 * ENTRIES + 256 + q4, l.p3 + q4) && Points(r, l.p3 * ENTRIES + q3, l.p2 + q3)
            && Points(r, l.p2 * ENTRIES + q2, l.p1 + q2) && Points(r, l.p1 * ENTRIES + q1, q1)
  {
    BuiltWords(mem, l, q4);
    BuiltWords(mem, l, q3);
    BuiltWords(mem, l, q2);
    BuiltWords(mem, l, q1);
  }

  // Walking four flat arrays of consecutive tables
  lemma WalkFlat(mem: seq<nat>, p4: nat, p3: nat, p2: nat, p1: nat, a: nat)
    requires a < MAX_MEMORY
    requires Points(mem, p4 * ENTRIES + 256 + a / 0x80_0000_0000, p3 + a / 0x80_0000_0000)
    requires Points(mem, p3 * ENTRIES + a / 0x4000_0000, p2 + a / 0x4000_0000)
    requires Points(mem, p2 * ENTRIES + a / 0x20_0000, p1 + a / 0x20_0000)
    requires Points(mem, p1 * ENTRIES + a / PAGE_SIZE, a / PAGE_SIZE)
    ensures Walk(mem, p4 * ENTRIES, KERNEL_OFFSET + a) == Some(a)
  {
    var q1, q2, q3, q4 := a / PAGE_SIZE, a / 0x20_0000, a / 0x4000_0000, a / 0x80_0000_0000;
    Nested(a);
    KernelIndices(a);
    FollowPoints(mem, p4 * ENTRIES, 256 + q4, p3 + q4);
    FollowFlat(mem, p3, q4, q3, p2 + q3);
    FollowFlat(mem, p2, q3, q2, p1 + q2);
    FollowFlat(mem, p1, q2, q1, q1);
  }

  // Entry number lo of a flat array is entry lo % 512 of table number hi
  lemma FollowFlat(mem: seq<nat>, p: nat, hi: nat, lo: nat, page: nat)
    requires Points(mem, p * ENTRIES + lo, page) && lo == hi * ENTRIES + lo % ENTRIES
    ensures Follow(mem, (p + hi) * ENTRIES, lo % ENTRIES) == Some(page)
  {
    FollowPoints(mem, (p + hi) * ENTRIES, lo % ENTRIES, page);
  }

  lemma Nested(a: nat)
    ensures var q1, q2, q3, q4 := a / PAGE_SIZE, a / 0x20_0000, a / 0x4000_0000, a / 0x80_0000_0000;
            q1 == q2 * ENTRIES + q1 % ENTRIES && q2 == q3 * ENTRIES + q2 % ENTRIES && q3 == q4 * ENTRIES + q3 % ENTRIES
  {
  }

  lemma FollowPoints(mem: seq<nat>, table: nat, i: nat, page: nat)
    requires Points(mem, table + i, page)
    ensures Follow(mem, table, i) == Some(page)
  {
  }

  // Every address below the memory size is mapped to itself
  lemma IdentityMapped(mem: seq<nat>, start: nat, memsize: nat, a: nat)
    requires memsize <= MAX_MEMORY && LayoutOf(start, memsize).end * ENTRIES <= |mem|
    requires memsize / PAGE_SIZE < UINT32 && a < memsize / PAGE_SIZE * PAGE_SIZE
    ensures Walk(Built(mem, LayoutOf(start, memsize)), start * ENTRIES, KERNEL_OFFSET + a) == Some(a)
  {
    LayoutBounds(start, memsize);
    Levels(memsize / PAGE_SIZE, a);
    FlatIdentity(mem, LayoutOf(start, memsize), a);
  }

  // The index of an address at each level is within the level
  lemma Levels(pages: nat, a: nat)
    requires a < pages * PAGE_SIZE && pages < UINT32
    ensures a / PAGE_SIZE < pages % UINT32 && a / 0x20_0000 < Tables(pages) && a / 0x4000_0000 < Tables(Tables(pages))
    ensures a / 0x80_0000_0000 < Tables(Tables(Tables(pages)))
  {
    PageOf(a, pages);
    UpperLevels(a, pages);
  }

  lemma UpperLevels(a: nat, pages: nat)
    requires a / PAGE_SIZE < pages
    ensures a / 0x20_0000 < Tables(pages) && a / 0x4000_0000 < Tables(Tables(pages))
    ensures a / 0x80_0000_0000 < Tables(Tables(Tables(pages)))
  {
    Quotients(a);
    Quotient(a / PAGE_SIZE, pages);
    Quotient(a / 0x20_0000, Tables(pages));
    Quotient(a / 0x4000_0000, Tables(Tables(pages)));
  }

  lemma Quotients(a: nat)
    ensures a / 0x20_0000 == a / PAGE_SIZE / ENTRIES && a / 0x4000_0000 == a / 0x20_0000 / ENTRIES
    ensures a / 0x80_0000_0000 == a / 0x4000_0000 / ENTRIES
  {
  }

  lemma PageOf(a: nat, pages: nat)
    requires a < pages * PAGE_SIZE && pages < UINT32
    ensures a / PAGE_SIZE < pages % UINT32 == pages
  {
  }

  lemma Quotient(q: nat, n: nat)
    requires q < n
    ensures q / ENTRIES < Tables(n)
  {
  }

  // The table indices of a kernel address
  lemma KernelIndices(a: nat)
    requires a < MAX_MEMORY
    ensures var v := KERNEL_OFFSET + a;
            && v / 0x80_0000_0000 % ENTRIES == 256 + a / 0x80_0000_0000
            && v / 0x4000_0000 % ENTRIES == a / 0x4000_0000 % ENTRIES
            && v / 0x20_0000 % ENTRIES == a / 0x20_0000 % ENTRIES
            && v / PAGE_SIZE % ENTRIES == a / PAGE_SIZE % ENTRIES
            && v % PAGE_SIZE == a % PAGE_SIZE
  {
    Shift(0x1ff_ff00, 0x80_0000_0000, a);
    Shift(0xffff, ENTRIES, 256 + a / 0x80_0000_0000);
    Shift(0x3_fffe_0000, 0x4000_0000, a);
    Shift(0x1ff_ff00, ENTRIES, a / 0x4000_0000);
    Shift(0x7ff_fc00_0000, 0x20_0000, a);
    Shift(0x3_fffe_0000, ENTRIES, a / 0x20_0000);
    Shift(0xf_fff8_0000_0000, PAGE_SIZE, a);
    Shift(0x7ff_fc00_0000, ENTRIES, a / PAGE_SIZE);
  }

  // Adding k multiples of d
  lemma Shift(k: nat, d: nat, a: nat)
    requires d > 0
    ensures (k * d + a) / d == k + a / d && (k * d + a) % d == a % d
  {
    MulDistributes(k, a / d, d);
    DivMod(k * d + a, d, k + a / d, a % d);
  }

  // ----- exactly when the promise holds -----

  // setup_page_table completes, and whatever memory held before, it maps every address to itself
  ghost predicate Works(start: nat, memsize: nat) {
    Sane(memsize / PAGE_SIZE % UINT32) && forall mem: seq<nat>, a: nat :: MapsToItself(start, memsize, mem, a)
  }

  // Setting up over this memory, if it is large enough, maps this address, if it is in range, to itself
  predicate MapsToItself(start: nat, memsize: nat, mem: seq<nat>, a: nat) {
    LayoutOf(start, memsize).end * ENTRIES <= |mem| && a < memsize / PAGE_SIZE * PAGE_SIZE ==>
      Walk(Built(mem, LayoutOf(start, memsize)), start * ENTRIES, KERNEL_OFFSET + a) == Some(a)
  }

  // It works exactly when the page count itself passes the 32-bit tests
  lemma WorksExactly(start: nat, memsize: nat)
    requires memsize <= MAX_MEMORY
    ensures Works(start, memsize) <==> Sane(memsize / PAGE_SIZE)
  {
    if Sane(memsize / PAGE_SIZE) {
      SaneWorks(start, memsize);
    } else if Sane(memsize / PAGE_SIZE % UINT32) {
      var mem, a := FirstUnmapped(start, memsize);
    }
  }

  lemma SaneWorks(start: nat, memsize: nat)
    requires memsize <= MAX_MEMORY && Sane(memsize / PAGE_SIZE)
    ensures Works(start, memsize)
  {
    SmallCount(memsize / PAGE_SIZE);
    forall mem: seq<nat>, a: nat ensures MapsToItself(start, memsize, mem, a) {
      IdentityOrOut(mem, start, memsize, a);
    }
  }

  lemma IdentityOrOut(mem: seq<nat>, start: nat, memsize: nat, a: nat)
    requires memsize <= MAX_MEMORY && memsize / PAGE_SIZE < UINT32
    ensures MapsToItself(start, memsize, mem, a)
  {
    if LayoutOf(start, memsize).end * ENTRIES <= |mem| && a < memsize / PAGE_SIZE * PAGE_SIZE {
      IdentityMapped(mem, start, memsize, a);
    }
  }

  lemma SmallCount(n: nat)
    requires n < UINT32
    ensures n % UINT32 == n
  {
  }

  // With 2^32 pages or more, the first page after those that fit the 32-bit count is not mapped
  lemma FirstUnmapped(start: nat, memsize: nat) returns (mem: seq<nat>, a: nat)
    requires memsize <= MAX_MEMORY && Sane(memsize / PAGE_SIZE % UINT32) && !Sane(memsize / PAGE_SIZE)
    ensures !MapsToItself(start, memsize, mem, a)
  {
    var l := LayoutOf(start, memsize);
    LayoutBounds(start, memsize);
    mem := seq(l.end * ENTRIES, _ => 0);
    a := Overflowing(start, memsize);
    UnmappedWalk(mem, l, a);
  }

  lemma Overflowing(start: nat, memsize: nat) returns (a: nat)
    requires memsize <= MAX_MEMORY && Sane(memsize / PAGE_SIZE % UINT32) && !Sane(memsize / PAGE_SIZE)
    ensures var l := LayoutOf(start, memsize);
            && a < memsize / PAGE_SIZE * PAGE_SIZE && a < MAX_MEMORY && a / PAGE_SIZE == l.n1
            && a / 0x20_0000 < l.n2 && a / 0x4000_0000 < l.n3 && a / 0x80_0000_0000 < l.n4
            && l.n1 < (l.end - l.p1) * ENTRIES && memsize >= PAGE_SIZE
  {
    var l := LayoutOf(start, memsize);
    var pages := memsize / PAGE_SIZE;
    if pages < UINT32 {
      SmallCount(pages);
      assert false;
    }
    a := l.n1 * PAGE_SIZE;
    UpperLevels(a, pages);
  }

  lemma UnmappedWalk(mem: seq<nat>, l: Layout, a: nat)
    requires Apart(l) && |mem| == l.end * ENTRIES && (forall x :: 0 <= x < |mem| ==> mem[x] == 0) && a < MAX_MEMORY
    requires a / PAGE_SIZE == l.n1 && a / 0x20_0000 < l.n2 && a / 0x4000_0000 < l.n3 && a / 0x80_0000_0000 < l.n4
    requires l.n1 < (l.end - l.p1) * ENTRIES
    ensures Walk(Built(mem, l), l.p4 * ENTRIES, KERNEL_OFFSET + a) == None
  {
    UpperWords(mem, l, a / 0x20_0000, a / 0x4000_0000, a / 0x80_0000_0000);
    EmptyWord(mem, l);
    WalkToEmpty(Built(mem, l), l.p4, l.p3, l.p2, l.p1, a);
  }

  lemma UpperWords(mem: seq<nat>, l: Layout, q2: nat, q3: nat, q4: nat)
    requires Apart(l) && l.end * ENTRIES <= |mem| && q2 < l.n2 && q3 < l.n3 && q4 < l.n4
    ensures var r := Built(mem, l);
            && Points(r, l.p4 * ENTRIES + 256 + q4, l.p3 + q4) && Points(r, l.p3 * ENTRIES + q3, l.p2 + q3)
            && Points(r, l.p2 * ENTRIES + q2, l.p1 + q2)
  {
    BuiltWords(mem, l, q4);
    BuiltWords(mem, l, q3);
    BuiltWords(mem, l, q2);
  }

  lemma WalkToEmpty(mem: seq<nat>, p4: nat, p3: nat, p2: nat, p1: nat, a: nat)
    requires a < MAX_MEMORY
    requires Points(mem, p4 * ENTRIES + 256 + a / 0x80_0000_0000, p3 + a / 0x80_0000_0000)
    requires Points(mem, p3 * ENTRIES + a / 0x4000_0000, p2 + a / 0x4000_0000)
    requires Points(mem, p2 * ENTRIES + a / 0x20_0000, p1 + a / 0x20_0000)
    requires p1 * ENTRIES + a / PAGE_SIZE < |mem| && mem[p1 * ENTRIES + a / PAGE_SIZE] == 0
    ensures Walk(mem, p4 * ENTRIES, KERNEL_OFFSET + a) == None
  {
    var q1, q2, q3, q4 := a / PAGE_SIZE, a / 0x20_0000, a / 0x4000_0000, a / 0x80_0000_0000;
    Nested(a);
    KernelIndices(a);
    FollowPoints(mem, p4 * ENTRIES, 256 + q4, p3 + q4);
    FollowFlat(mem, p3, q4, q3, p2 + q3);
    FollowFlat(mem, p2, q3, q2, p1 + q2);
    FollowEmpty(mem, p1, q2, q1);
  }

  lemma FollowEmpty(mem: seq<nat>, p: nat, hi: nat, lo: nat)
    requires p * ENTRIES + lo < |mem| && mem[p * ENTRIES + lo] == 0 && lo == hi * ENTRIES + lo % ENTRIES
    ensures Follow(mem, (p + hi) * ENTRIES, lo % ENTRIES) == None
  {
    assert (p + hi) * ENTRIES + lo % ENTRIES == p * ENTRIES + lo;
  }

  lemma EmptyWord(mem: seq<nat>, l: Layout)
    requires Apart(l) && |mem| == l.end * ENTRIES && (forall x :: 0 <= x < |mem| ==> mem[x] == 0)
    requires l.n1 < (l.end - l.p1) * ENTRIES
    ensures Built(mem, l)[l.p1 * ENTRIES + l.n1] == 0
  {
  }

  // The condition in terms of the number of pages: at least one, fewer than 2^31, and the number of
  // page tables not a multiple of 2^20, whose size in bytes is zero in 32 bits
  lemma SaneMeans(pages: nat)
    ensures Sane(pages) <==> 0 < pages < INT32 && Tables(pages) % 0x10_0000 != 0
  {
    var t := Tables(pages);
    assert t * PAGE_SIZE % UINT32 == t % 0x10_0000 * PAGE_SIZE by {
      MulDistributes(t / 0x10_0000 * 0x10_0000, t % 0x10_0000, PAGE_SIZE);
      DivMod(t * PAGE_SIZE, UINT32, t / 0x10_0000, t % 0x10_0000 * PAGE_SIZE);
    }
  }
}
