/**
 The geometry of a slab: header, free-index array and objects inside one block of pages. Every
 object size that kmem_cache_create accepts gets a layout in which nothing overlaps.
 */
module SlabLayout {
  import opened Arch
  import opened Dyadic
  import opened LinkedLists

  const SLAB_MIN_NUM := 4
  const BUFCTL_END := 0xffff
  const SLAB_HEADER := 32
  const ALIGNMENT := 8

  // Object size with padding, objects per slab, pages per slab as a power of two
  datatype Layout = Layout(size: nat, num: nat, order: nat)

  function Align(n: nat): (r: nat)
    ensures r % ALIGNMENT == 0 && n <= r < n + ALIGNMENT
  {
    n / ALIGNMENT * ALIGNMENT + if n % ALIGNMENT != 0 then ALIGNMENT else 0
  }

  // Bytes of one slab
  function Bytes(order: nat): nat {
    PAGE_SIZE * Pow2(order)
  }

  // Where the first of num objects starts: after the header and num + 1 array entries of two bytes
  function Head(num: nat): (h: nat)
    ensures SLAB_HEADER + 2 * (num + 1) <= h && h % ALIGNMENT == 0
  {
    Align(SLAB_HEADER + (num + 1) * 2)
  }

  ghost predicate Fits(l: Layout) {
    && l.size > 0 && l.size % ALIGNMENT == 0
    && l.order < MAX_ORDER
    && 3 <= l.num < BUFCTL_END
    && Head(l.num) + l.num * l.size <= Bytes(l.order)
  }

  function Object(l: Layout, slab: nat, i: nat): nat {
    slab + Head(l.num) + i * l.size
  }

  // ----- what a layout that fits guarantees -----

  lemma Scaled(size: nat, i: nat, j: nat)
    requires i < j
    ensures i * size + size <= j * size
  {
    AtMost(i + 1, j, size);
    MulDistributes(i, 1, size);
  }

  // An object lies behind the array and inside the slab's pages
  lemma ObjectInside(l: Layout, slab: nat, i: nat)
    requires Fits(l) && i < l.num
    ensures slab + SLAB_HEADER + 2 * (l.num + 1) <= Object(l, slab, i)
    ensures Object(l, slab, i) + l.size <= slab + Bytes(l.order)
  {
    Scaled(l.size, i, l.num);
  }

  // Objects of two slabs, or two objects of one slab, do not overlap
  lemma ObjectsApart(l: Layout, b: nat, i: nat, c: nat, j: nat)
    requires Fits(l) && i < l.num && j < l.num
    requires b == c || b + Bytes(l.order) <= c || c + Bytes(l.order) <= b
    requires (b, i) != (c, j)
    ensures Object(l, b, i) + l.size <= Object(l, c, j) || Object(l, c, j) + l.size <= Object(l, b, i)
  {
    ObjectInside(l, b, i);
    ObjectInside(l, c, j);
    if b == c {
      if i < j {
        Scaled(l.size, i, j);
      } else {
        Scaled(l.size, j, i);
      }
    }
  }

  // slab_index: the index of the object at an address, or nothing when no object starts between the bounds
  function SlabIndex(l: Layout, slab: nat, addr: nat): Option<nat>
    requires l.size > 0 && l.num > 0
  {
    if addr < slab + Head(l.num) || addr > slab + Head(l.num) + (l.num - 1) * l.size then None
    else Some(Quot(addr - (slab + Head(l.num)), l.size))
  }

  // slab_index undoes the address computation on the right slab and finds nothing on any other
  lemma SlabIndexFinds(l: Layout, b: nat, i: nat, c: nat)
    requires Fits(l) && i < l.num
    requires b == c || b + Bytes(l.order) <= c || c + Bytes(l.order) <= b
    ensures SlabIndex(l, c, Object(l, b, i)) == if b == c then Some(i) else None
  {
    ObjectInside(l, b, i);
    ObjectInside(l, c, l.num - 1);
    if b == c {
      AtMost(i, l.num - 1, l.size);
      DivMod(i * l.size, l.size, i, 0);
    }
  }

  // ----- kmem_cache_create -----

  lemma {:induction false} LastOrder(size: nat, i: nat)
    requires i <= 7 && size <= PAGE_SIZE * Pow2(5) && size * SLAB_MIN_NUM > Bytes(i)
    ensures i < 7
  {
    assert Pow2(5) == 8 * Pow2(2) && Pow2(7) == 4 * Pow2(5);
  }

  lemma PaddedAtMost(size: nat)
    requires size < PAGE_SIZE * Pow2(MAX_ORDER - 3)
    ensures Align(size) <= PAGE_SIZE * Pow2(MAX_ORDER - 3)
  {
    assert Pow2(5) == 8 * Pow2(2);
  }

  lemma Doubled(k: nat)
    ensures Bytes(k) >= PAGE_SIZE && (k > 0 ==> Bytes(k) == 2 * Bytes(k - 1))
  {
  }

  // The header sized for tnum objects leaves room for three
  lemma HeadLeavesThree(size: nat, bytes: nat, tnum: nat)
    requires size >= 8
    requires tnum * size <= bytes && SLAB_MIN_NUM * size <= bytes
    requires bytes == PAGE_SIZE || (bytes >= 2 * PAGE_SIZE && 8 * size > bytes)
    ensures Head(tnum) + 3 * size <= bytes && tnum <= 512
  {
    if bytes != PAGE_SIZE {
      CountAtMost(tnum, 8, size, bytes);
    } else if size >= 16 {
      CountAtMost(tnum, 257, size, bytes);
    } else {
      CountAtMost(tnum, 513, size, bytes);
    }
  }

  lemma HeadGrows(m: nat, n: nat)
    requires m <= n
    ensures Head(m) <= Head(n)
  {
    var a, b := SLAB_HEADER + (m + 1) * 2, SLAB_HEADER + (n + 1) * 2;
    assert Align(a) <= Align(b);
  }

  // The quotient is no smaller than any count that fits
  lemma DivAtLeast(x: nat, p: nat, k: nat)
    requires p > 0 && k * p <= x
    ensures k <= Quot(x, p)
  {
    QuotBounds(x, p);
    BelowNext(k, Quot(x, p), p, x);
  }

  lemma BelowNext(k: nat, q: nat, p: nat, x: nat)
    requires k * p <= x < q * p + p
    ensures k <= q
  {
    MulDistributes(q, 1, p);
    CountAtMost(k, q + 1, p, x);
  }

  // The number of objects that kmem_cache_create settles on for a padded size and an order
  function Number(size: nat, order: nat): nat
    requires size > 0
  {
    var head := Head(Quot(Bytes(order), size));
    if head <= Bytes(order) then Quot(Bytes(order) - head, size) else 0
  }

  lemma NumberFits(size: nat, order: nat)
    requires size > 0 && size % ALIGNMENT == 0 && order < MAX_ORDER
    requires SLAB_MIN_NUM * size <= Bytes(order)
    requires order > 0 ==> SLAB_MIN_NUM * size > Bytes(order - 1)
    ensures Number(size, order) >= 3 && Fits(Layout(size, Number(size, order), order))
    ensures Head(Quot(Bytes(order), size)) + (Number(size, order) + 1) * size > Bytes(order)
  {
    var bytes := Bytes(order);
    var tnum := Quot(bytes, size);
    Doubled(order);
    QuotBounds(bytes, size);
    HeadLeavesThree(size, bytes, tnum);
    var room := bytes - Head(tnum);
    var num := Quot(room, size);
    QuotBounds(room, size);
    DivAtLeast(room, size, 3);
    DivAtLeast(bytes, size, num);
    HeadGrows(num, tnum);
    MulDistributes(num, 1, size);
  }

  // Every size below a quarter of the largest block gets a layout; a zero size would divide by zero
  method CreateLayout(size: nat) returns (r: Option<Layout>)
    requires size > 0
    ensures r.None? <==> size >= PAGE_SIZE * Pow2(MAX_ORDER - 3)
    ensures r.Some? ==>
              var l := r.value;
              && Fits(l)
              && size <= l.size < size + ALIGNMENT
              && SLAB_MIN_NUM * l.size <= Bytes(l.order)
              && (forall k :: 0 <= k < l.order ==> SLAB_MIN_NUM * l.size > Bytes(k))
              && Head(Quot(Bytes(l.order), l.size)) + (l.num + 1) * l.size > Bytes(l.order)
  {
    if size >= PAGE_SIZE * Pow2(MAX_ORDER - 3) {
      return None;
    }
    var padded := Align(size);
    PaddedAtMost(size);
    var i: nat := 0;
    while padded * SLAB_MIN_NUM > Bytes(i) && i < MAX_ORDER
      invariant i <= MAX_ORDER - 1
      invariant forall k :: 0 <= k < i ==> SLAB_MIN_NUM * padded > Bytes(k)
      decreases MAX_ORDER - i
    {
      LastOrder(padded, i);
      i := i + 1;
    }
    if i >= MAX_ORDER {
      return None;
    }
    NumberFits(padded, i);
    return Some(Layout(padded, Number(padded, i), i));
  }
}
