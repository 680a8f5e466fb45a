/**
 Which addresses a fork copies, and which addresses the kernel uses for what it hands out: the page
 sets and kernel addresses of the other modules, said of single addresses.
 */
module UserMemory {
  import opened Arch
  import opened Dyadic
  import opened LinkedLists
  import opened PageTable
  import opened PageMap
  import opened Fork
  import Buddy
  import IdentityMap

  // ----- the addresses that fork copies -----

  // The page of a holds a byte of the segment, or the place between two bytes where an empty one is
  ghost predicate Touches(seg: (nat, nat), a: nat) {
    if seg.0 < seg.1 then exists x: nat :: seg.0 <= x < seg.1 && SamePage(x, a)
    else seg.0 % 4096 != 0 && SamePage(seg.0, a)
  }

  predicate SamePage(x: nat, a: nat) {
    x / 4096 == a / 4096
  }

  lemma PagePathOf(k: nat, a: nat)
    requires a < 0x8000_0000_0000 && k * PAGE_SIZE < 0x8000_0000_0000
    ensures PathOf(a) == PagePath(k) <==> k == a / PAGE_SIZE
  {
    PathOfPage(a, k * PAGE_SIZE);
    PageIs(a);
    PageIs(k * PAGE_SIZE);
  }

  lemma PageIs(a: nat)
    requires a < 0x8000_0000_0000
    ensures Page(a) == a / PAGE_SIZE
  {
  }

  lemma RunHolds(lo: nat, hi: nat, a: nat)
    requires a < 0x8000_0000_0000 && hi * PAGE_SIZE <= 0x8000_0000_0000
    ensures PathOf(a) in PageRun(lo, hi) <==> lo <= a / PAGE_SIZE < hi
  {
    forall k | lo <= k < hi ensures PathOf(a) == PagePath(k) <==> k == a / PAGE_SIZE {
      PagePathOf(k, a);
    }
    if lo <= a / PAGE_SIZE < hi {
      assert PathOf(a) == PagePath(a / PAGE_SIZE);
    }
  }

  // A page-aligned range
  lemma RangeAddresses(start: nat, end: nat, a: nat)
    requires start % 4096 == 0 && end % 4096 == 0 && start <= end <= 0x8000_0000_0000 && a < 0x8000_0000_0000
    ensures PathOf(a) in RangePages(start, end) <==> start <= a < end
  {
    RunHolds(start / PAGE_SIZE, end / PAGE_SIZE, a);
  }

  // A segment with any bounds, rounded outwards to whole pages
  lemma SegAddresses(seg: (nat, nat), a: nat)
    requires seg.0 <= seg.1 <= 0x8000_0000_0000 && a < 0x8000_0000_0000
    ensures PathOf(a) in OneSegPages(seg) <==> Touches(seg, a)
  {
    var lo, hi := seg.0 / PAGE_SIZE, seg.1 / PAGE_SIZE + if seg.1 % PAGE_SIZE > 0 then 1 else 0;
    assert PageLowerAlign(seg.0) / PAGE_SIZE == lo && PageUpperAlign(seg.1) / PAGE_SIZE == hi;
    RunHolds(lo, hi, a);
    if lo <= a / PAGE_SIZE < hi && seg.0 < seg.1 {
      var x := if a / PAGE_SIZE == lo then seg.0 else a / PAGE_SIZE * PAGE_SIZE;
      assert seg.0 <= x < seg.1 && SamePage(x, a);
    }
  }

  lemma {:induction false} SegsAddresses(segs: seq<(nat, nat)>, a: nat)
    requires a < 0x8000_0000_0000
    requires forall i :: 0 <= i < |segs| ==> segs[i].0 <= segs[i].1 <= 0x8000_0000_0000
    ensures PathOf(a) in SegPages(segs) <==> exists i :: 0 <= i < |segs| && Touches(segs[i], a)
  {
    if segs != [] {
      var last := |segs| - 1;
      SegAddresses(segs[last], a);
      SegsAddresses(segs[..last], a);
      if i :| 0 <= i < last && Touches(segs[..last][i], a) {
        assert Touches(segs[i], a);
      }
      if i :| 0 <= i < |segs| && Touches(segs[i], a) {
        assert i < last ==> segs[..last][i] == segs[i];
      }
    }
  }

  // After a fork that succeeds the child maps an address exactly when its page belongs to a segment,
  // to the stack or to the heap
  lemma ForkedAddresses(mm: Mm, a: nat)
    requires WellFormed(mm) && a < 0x8000_0000_0000
    ensures PathOf(a) in Pages(mm) <==>
              || (exists i :: 0 <= i < |mm.segs| && Touches(mm.segs[i], a))
              || mm.startStack <= a < mm.endStack || mm.startBrk <= a < mm.brk
  {
    SegsAddresses(mm.segs, a);
    RangeAddresses(mm.startStack, mm.endStack, a);
    RangeAddresses(mm.startBrk, mm.brk, a);
  }

  // Equal kernel halves are equal words of the top table from the 256th on
  lemma KernelHalfWords(mem: Frames, pgdP: nat, pgdC: nat, i: nat)
    requires IsFrame(mem, pgdP) && IsFrame(mem, pgdC) && KernelHalf(mem, pgdP) == KernelHalf(mem, pgdC)
    requires 256 <= i < 512
    ensures mem[pgdC][i] == mem[pgdP][i]
  {
    assert mem[pgdC][i] == KernelHalf(mem, pgdC)[i - 256] && mem[pgdP][i] == KernelHalf(mem, pgdP)[i - 256];
  }

  // ----- kernel addresses -----

  // What the kernel's own tables, built at page start for memory of that size, make of an address
  ghost function KernelWalk(mem: seq<nat>, start: nat, memsize: nat, vaddr: nat): Option<nat> {
    IdentityMap.Walk(IdentityMap.Built(mem, IdentityMap.LayoutOf(start, memsize)), start * ENTRIES, vaddr)
  }

  ghost predicate Bootable(mem: seq<nat>, start: nat, memsize: nat) {
    && memsize <= IdentityMap.MAX_MEMORY && memsize / PAGE_SIZE < IdentityMap.UINT32
    && IdentityMap.LayoutOf(start, memsize).end * ENTRIES <= |mem|
  }

  // The kernel address that kmap computes is translated, by the kernel's own tables, to the physical
  // address it was computed from
  lemma KernelAddressWorks(mem: seq<nat>, start: nat, memsize: nat, paddr: nat)
    requires Bootable(mem, start, memsize) && paddr < memsize / PAGE_SIZE * PAGE_SIZE
    ensures KernelWalk(mem, start, memsize, ToVir(paddr)) == Some(paddr)
  {
    SmallAddress(paddr);
    OffsetWorks(mem, start, memsize, paddr, ToVir(paddr));
  }

  lemma OffsetWorks(mem: seq<nat>, start: nat, memsize: nat, paddr: nat, vaddr: nat)
    requires Bootable(mem, start, memsize) && paddr < memsize / PAGE_SIZE * PAGE_SIZE
    requires vaddr == KERNEL_OFFSET + paddr
    ensures KernelWalk(mem, start, memsize, vaddr) == Some(paddr)
  {
    IdentityMap.IdentityMapped(mem, start, memsize, paddr);
  }

  lemma SmallAddress(paddr: nat)
    requires paddr < 0x8000_0000_0000
    ensures ToVir(paddr) == KERNEL_OFFSET + paddr
  {
  }

  // The address that the page allocator hands out for page p is translated to that page
  lemma PageAddressWorks(mem: seq<nat>, start: nat, memsize: nat, p: nat)
    requires Bootable(mem, start, memsize) && p < memsize / PAGE_SIZE
    ensures KernelWalk(mem, start, memsize, Buddy.Virtual(p)) == Some(p * 4096)
  {
    OffsetWorks(mem, start, memsize, p * PAGE_SIZE, Buddy.Virtual(p));
  }

  // ... and an address to be freed names the block whose first page it lies in
  lemma AddressNames(p: nat, addr: nat)
    ensures Buddy.Virtual(p) == PageLowerAlign(addr) <==> Buddy.Virtual(p) <= addr < Buddy.Virtual(p) + 4096
  {
    var base := KERNEL_OFFSET / PAGE_SIZE;
    assert Buddy.Virtual(p) == (base + p) * PAGE_SIZE;
  }

  // A table entry is present, writable and open to user mode, and points to its frame
  lemma EntryBits(f: nat)
    ensures Entry(f) % 8 == 7 && Entry(f) % 4096 < 8 && Target(Entry(f)) == f
  {
    DivMod(Entry(f), 8, 512 * f, 7);
    DivMod(Entry(f), 4096, f, 7);
  }

  // The kernel's tables take as many pages as the levels need, rounded up at each level
  lemma TablesTake(start: nat, memsize: nat)
    ensures var pages := memsize / 4096;
            IdentityMap.LayoutOf(start, memsize).end == start + Ceil(pages, 0x200) + Ceil(pages, 0x4_0000)
                                                        + Ceil(pages, 0x800_0000) + Ceil(pages, 0x10_0000_0000)
  {
    var pages := memsize / 4096;
    Levels(pages);
  }

  function Ceil(x: nat, d: nat): nat
    requires d > 0
  {
    (x + d - 1) / d
  }

  lemma Levels(pages: nat)
    ensures IdentityMap.Tables(pages) == Ceil(pages, 0x200)
    ensures IdentityMap.Tables(Ceil(pages, 0x200)) == Ceil(pages, 0x4_0000)
    ensures IdentityMap.Tables(Ceil(pages, 0x4_0000)) == Ceil(pages, 0x800_0000)
    ensures IdentityMap.Tables(Ceil(pages, 0x800_0000)) == Ceil(pages, 0x10_0000_0000)
  {
    Next(pages);
    Next(Ceil(pages, 0x200));
    Next(Ceil(pages, 0x4_0000));
    Next(Ceil(pages, 0x800_0000));
  }

  lemma Next(x: nat)
    ensures IdentityMap.Tables(x) == (x + 511) / 512
  {
  }
}
