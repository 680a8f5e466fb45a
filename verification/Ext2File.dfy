/**
 A file as bytes, given which block of the volume each of its blocks is. Reading it from a position
 gets to the end of the request or to the first hole.
 */
module Ext2File {
  import opened Dyadic
  import opened DiskTransfer
  import opened Ext2Map

  // A hole, or a block on the disk
  predicate Mapped(disk: seq<Byte>, v: Volume, b: Lookup) {
    b == Found(0) || IsData(disk, v, b)
  }

  // A block on the disk; zero stands for a hole
  predicate IsData(disk: seq<Byte>, v: Volume, b: Lookup) {
    b.Found? && b.no != 0 && Inside(disk, v, b.no)
  }

  // The blocks of a file that direct and single indirect pointers reach
  function FileMap(disk: seq<Byte>, v: Volume, inode: Inode): (blocks: seq<Lookup>)
    requires Ok(v, inode)
    ensures |blocks| == DIRECT + v.base
  {
    seq(DIRECT + v.base, n requires 0 <= n => RefBlock(disk, v, inode, n))
  }

  // blocks is the map of that file
  ghost predicate IsMap(disk: seq<Byte>, v: Volume, inode: Inode, blocks: seq<Lookup>)
    requires Ok(v, inode)
  {
    && |blocks| == DIRECT + v.base
    && forall n: nat {:trigger RefBlock(disk, v, inode, n)} :: n < |blocks| ==> blocks[n] == RefBlock(disk, v, inode, n)
  }

  lemma FileMapIs(disk: seq<Byte>, v: Volume, inode: Inode)
    requires Ok(v, inode)
    ensures IsMap(disk, v, inode, FileMap(disk, v, inode))
  {
  }

  // Every block of a file of that size is a hole or lies on the disk
  ghost predicate Sound(disk: seq<Byte>, v: Volume, blocks: seq<Lookup>, size: nat) {
    && size <= |blocks| * BlockSize(v)
    && forall n: nat {:trigger Mapped(disk, v, blocks[n])} ::
         n < |blocks| && n * BlockSize(v) < size ==> Mapped(disk, v, blocks[n])
  }

  // A byte of the file as the ext2 format defines it: zero in a hole
  function FileByte(disk: seq<Byte>, v: Volume, blocks: seq<Lookup>, k: nat): Byte
    requires v.base > 0
  {
    var n := Quot(k, BlockSize(v));
    if n < |blocks| && IsData(disk, v, blocks[n])
    then disk[Start(v, blocks[n].no) + Rem(k, BlockSize(v))] else 0
  }

  function Content(disk: seq<Byte>, v: Volume, blocks: seq<Lookup>, from: nat, end: nat): seq<Byte>
    requires v.base > 0 && from <= end
  {
    seq(end - from, i requires 0 <= i => FileByte(disk, v, blocks, from + i))
  }

  // ----- where a read ends -----

  // The first hole among the blocks from n on, or limit
  function FirstHole(blocks: seq<Lookup>, n: nat, limit: nat): (h: nat)
    requires n <= limit
    ensures n <= h <= limit
    decreases limit - n
  {
    if n == limit || (n < |blocks| && blocks[n] == Found(0)) then n else FirstHole(blocks, n + 1, limit)
  }

  // Where a read that wants to get from pos to want ends: at want, or where the first hole begins, or
  // where it started if that is in a hole
  function End(v: Volume, blocks: seq<Lookup>, pos: nat, want: nat): (e: nat)
    requires v.base > 0 && pos <= want
    ensures pos <= e <= want
  {
    if pos == want then want
    else
      var first, last := Quot(pos, BlockSize(v)), Quot(want - 1, BlockSize(v));
      BlocksOf(pos, want, BlockSize(v));
      var h := FirstHole(blocks, first, last + 1);
      if h == last + 1 then want
      else if h == first then pos
      else
        HoleWithin(pos, want, h, BlockSize(v));
        h * BlockSize(v)
  }

  lemma BlocksOf(pos: nat, want: nat, bs: nat)
    requires bs > 0 && pos < want
    ensures Quot(pos, bs) <= Quot(want - 1, bs)
  {
    QuotBounds(pos, bs);
    QuotBounds(want - 1, bs);
    MulDistributes(Quot(want - 1, bs), 1, bs);
    CountAtMost(Quot(pos, bs), Quot(want - 1, bs) + 1, bs, want - 1);
  }

  lemma HoleWithin(pos: nat, want: nat, h: nat, bs: nat)
    requires bs > 0 && pos < want && Quot(pos, bs) < h <= Quot(want - 1, bs)
    ensures pos <= h * bs <= want
  {
    QuotBounds(pos, bs);
    QuotBounds(want - 1, bs);
    MulDistributes(Quot(pos, bs), 1, bs);
    AtMost(Quot(pos, bs) + 1, h, bs);
    AtMost(h, Quot(want - 1, bs), bs);
  }

  // None of the blocks from first to last is a hole
  predicate NoHole(blocks: seq<Lookup>, first: nat, last: nat) {
    forall n :: first <= n <= last && n < |blocks| ==> blocks[n] != Found(0)
  }

  lemma {:induction false} FirstHoleExactly(blocks: seq<Lookup>, n: nat, last: nat)
    requires n <= last + 1
    ensures FirstHole(blocks, n, last + 1) == last + 1 <==> NoHole(blocks, n, last)
    decreases last + 1 - n
  {
    if n <= last {
      FirstHoleExactly(blocks, n + 1, last);
    }
  }

  // A read gets to its end exactly when none of the blocks that it touches is a hole
  lemma EndsExactly(v: Volume, blocks: seq<Lookup>, pos: nat, want: nat)
    requires v.base > 0 && pos < want
    ensures var bs := BlockSize(v);
            End(v, blocks, pos, want) == want <==> NoHole(blocks, Quot(pos, bs), Quot(want - 1, bs))
  {
    var first, last := Quot(pos, BlockSize(v)), Quot(want - 1, BlockSize(v));
    BlocksOf(pos, want, BlockSize(v));
    FirstHoleExactly(blocks, first, last);
    if first < FirstHole(blocks, first, last + 1) <= last {
      QuotBounds(want - 1, BlockSize(v));
      AtMost(FirstHole(blocks, first, last + 1), last, BlockSize(v));
    }
  }

  // When it does not, it ends where the first hole begins, or where it started if that is in the hole
  lemma EndsAtHole(v: Volume, blocks: seq<Lookup>, pos: nat, want: nat, h: nat)
    requires v.base > 0 && pos < want && h < |blocks| && blocks[h] == Found(0)
    requires Quot(pos, BlockSize(v)) <= h <= Quot(want - 1, BlockSize(v))
    requires forall n :: Quot(pos, BlockSize(v)) <= n < h ==> blocks[n] != Found(0)
    ensures End(v, blocks, pos, want) == if h * BlockSize(v) >= pos then h * BlockSize(v) else pos
  {
    var first, last := Quot(pos, BlockSize(v)), Quot(want - 1, BlockSize(v));
    FirstHoleIs(blocks, first, last + 1, h);
    if first < h {
      HoleWithin(pos, want, h, BlockSize(v));
    } else {
      QuotBounds(pos, BlockSize(v));
    }
  }

  lemma {:induction false} FirstHoleIs(blocks: seq<Lookup>, n: nat, limit: nat, h: nat)
    requires n <= h < limit && h < |blocks| && blocks[h] == Found(0)
    requires forall k :: n <= k < h ==> blocks[k] != Found(0)
    ensures FirstHole(blocks, n, limit) == h
    decreases h - n
  {
    if n < h {
      FirstHoleIs(blocks, n + 1, limit, h);
    }
  }

  // ... and that is exactly when it gives the bytes that the format defines
  lemma ReadsAllExactly(disk: seq<Byte>, v: Volume, blocks: seq<Lookup>, pos: nat, want: nat)
    requires v.base > 0 && pos < want
    ensures var bs := BlockSize(v);
            Content(disk, v, blocks, pos, End(v, blocks, pos, want)) == Content(disk, v, blocks, pos, want)
            <==> NoHole(blocks, Quot(pos, bs), Quot(want - 1, bs))
  {
    EndsExactly(v, blocks, pos, want);
    assert |Content(disk, v, blocks, pos, End(v, blocks, pos, want))| == End(v, blocks, pos, want) - pos;
    assert |Content(disk, v, blocks, pos, want)| == want - pos;
  }

  ghost predicate HoleFree(v: Volume, blocks: seq<Lookup>, size: nat) {
    forall n: nat :: n < |blocks| && n * BlockSize(v) < size ==> blocks[n] != Found(0)
  }

  // All reads within a file end where they should exactly when the file has no hole
  lemma HoleFreeEnds(v: Volume, blocks: seq<Lookup>, size: nat)
    requires v.base > 0
    ensures HoleFree(v, blocks, size)
            <==> forall pos: nat, want: nat :: pos <= want <= size ==> End(v, blocks, pos, want) == want
  {
    if HoleFree(v, blocks, size) {
      forall pos: nat, want: nat | pos <= want <= size ensures End(v, blocks, pos, want) == want {
        if pos < want {
          EndsExactly(v, blocks, pos, want);
          BlocksStart(v, blocks, size, pos, want);
        }
      }
    } else {
      var n: nat :| n < |blocks| && n * BlockSize(v) < size && blocks[n] == Found(0);
      var pos := n * BlockSize(v);
      DivMod(pos, BlockSize(v), n, 0);
      assert Quot(pos, BlockSize(v)) == n;
      EndsExactly(v, blocks, pos, pos + 1);
      assert End(v, blocks, pos, pos + 1) != pos + 1;
    }
  }

  lemma BlocksStart(v: Volume, blocks: seq<Lookup>, size: nat, pos: nat, want: nat)
    requires v.base > 0 && pos < want <= size && HoleFree(v, blocks, size)
    ensures NoHole(blocks, Quot(pos, BlockSize(v)), Quot(want - 1, BlockSize(v)))
  {
    var last := Quot(want - 1, BlockSize(v));
    QuotBounds(want - 1, BlockSize(v));
    forall n | Quot(pos, BlockSize(v)) <= n <= last && n < |blocks| ensures blocks[n] != Found(0) {
      AtMost(n, last, BlockSize(v));
    }
  }

  // A file of two blocks, the second a hole: a read of the whole file ends after the first
  lemma HoleCutsShort(v: Volume, no: nat)
    requires v.base > 0 && no > 0
    ensures End(v, [Found(no), Found(0)], 0, 2 * BlockSize(v)) == BlockSize(v)
  {
    DivMod(0, BlockSize(v), 0, 0);
    DivMod(2 * BlockSize(v) - 1, BlockSize(v), 1, BlockSize(v) - 1);
  }

  // Where a read of the blocks from first up to limit stops when h is the first hole among them
  predicate StopsAt(v: Volume, pos: nat, want: nat, first: nat, limit: nat, h: nat, e: nat) {
    if h == limit then e == want else if h == first then e == pos else At(v, e, h, 0)
  }

  lemma StopIsEnd(v: Volume, blocks: seq<Lookup>, pos: nat, want: nat, first: nat, limit: nat, e: nat)
    requires v.base > 0 && pos < want
    requires first == Quot(pos, BlockSize(v)) && limit == Quot(want - 1, BlockSize(v)) + 1 && first <= limit
    requires StopsAt(v, pos, want, first, limit, FirstHole(blocks, first, limit), e)
    ensures End(v, blocks, pos, want) == e
  {
    AtIs(v, e, FirstHole(blocks, first, limit), 0);
  }

  // ----- positions -----

  // Position p is offset bytes into block n: n whole blocks come before it
  predicate At(v: Volume, p: nat, n: nat, offset: nat)
    decreases n
  {
    if n == 0 then p == offset < BlockSize(v) else p >= BlockSize(v) && At(v, p - BlockSize(v), n - 1, offset)
  }

  lemma {:induction false} AtIs(v: Volume, p: nat, n: nat, offset: nat)
    ensures At(v, p, n, offset) <==> p == n * BlockSize(v) + offset && offset < BlockSize(v)
    decreases n
  {
    if n > 0 {
      MulDistributes(n - 1, 1, BlockSize(v));
      if p >= BlockSize(v) {
        AtIs(v, p - BlockSize(v), n - 1, offset);
      }
    }
  }

  lemma StartAt(v: Volume, pos: nat)
    requires v.base > 0
    ensures At(v, pos, Quot(pos, BlockSize(v)), Rem(pos, BlockSize(v)))
  {
    QuotBounds(pos, BlockSize(v));
    AtIs(v, pos, Quot(pos, BlockSize(v)), Rem(pos, BlockSize(v)));
  }

  // A read at p, offset bytes into block n, finishes with that block exactly when it is the last one
  lemma LastBlock(v: Volume, p: nat, n: nat, offset: nat, want: nat, limit: nat)
    requires v.base > 0 && At(v, p, n, offset) && p < want && limit == Quot(want - 1, BlockSize(v)) + 1
    ensures n < limit
    ensures BlockSize(v) - offset >= want - p <==> n + 1 == limit
  {
    var bs := BlockSize(v);
    var last := Quot(want - 1, bs);
    AtIs(v, p, n, offset);
    DivMod(p, bs, n, offset);
    BlocksOf(p, want, bs);
    QuotBounds(want - 1, bs);
    MulDistributes(n, 1, bs);
    if n < last {
      AtMost(n + 1, last, bs);
    }
  }

  // The blocks of a read within the file are in the map
  lemma BlockInReach(v: Volume, p: nat, n: nat, offset: nat, size: nat, count: nat)
    requires At(v, p, n, offset) && p < size <= count * BlockSize(v)
    ensures n < count && n * BlockSize(v) < size
  {
    AtIs(v, p, n, offset);
    CountAtMost(n, count, BlockSize(v), p);
  }

  // ----- bytes of one block -----

  predicate IsBlock(disk: seq<Byte>, v: Volume, b: Lookup, bytes: seq<Byte>) {
    IsData(disk, v, b) && bytes == disk[Start(v, b.no)..Start(v, b.no) + BlockSize(v)]
  }

  lemma ByteOfBlock(disk: seq<Byte>, v: Volume, blocks: seq<Lookup>, n: nat, j: nat, k: nat)
    requires n < |blocks| && IsData(disk, v, blocks[n])
    requires j < BlockSize(v) && k == n * BlockSize(v) + j
    ensures FileByte(disk, v, blocks, k) == disk[Start(v, blocks[n].no) + j]
  {
    DivMod(k, BlockSize(v), n, j);
    assert Quot(k, BlockSize(v)) == n && Rem(k, BlockSize(v)) == j;
  }

  // The wanted bytes of a block are the file's
  lemma BlockContent(disk: seq<Byte>, v: Volume, blocks: seq<Lookup>, p: nat, n: nat, offset: nat, len: nat,
                     bytes: seq<Byte>)
    requires n < |blocks| && IsBlock(disk, v, blocks[n], bytes)
    requires At(v, p, n, offset) && offset < BlockSize(v) && offset + len <= BlockSize(v)
    ensures bytes[offset..offset + len] == Content(disk, v, blocks, p, p + len)
    ensures offset + len == BlockSize(v) ==> At(v, p + len, n + 1, 0)
  {
    AtIs(v, p, n, offset);
    AtIs(v, p + len, n + 1, 0);
    MulDistributes(n, 1, BlockSize(v));
    var s, c := bytes[offset..offset + len], Content(disk, v, blocks, p, p + len);
    forall i | 0 <= i < len ensures s[i] == c[i] {
      ByteOfBlock(disk, v, blocks, n, offset + i, p + i);
    }
  }

  lemma ContentJoins(disk: seq<Byte>, v: Volume, blocks: seq<Lookup>, a: nat, b: nat, c: nat)
    requires v.base > 0 && a <= b <= c
    ensures Content(disk, v, blocks, a, b) + Content(disk, v, blocks, b, c) == Content(disk, v, blocks, a, c)
  {
  }
}
