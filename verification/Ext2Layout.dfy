/**
 Files as they lie on the disk: block numbers are little-endian words, twelve in the inode and the
 others in indirect blocks. Said in bytes of the disk, this is what the block map of a file means.
 */
module Ext2Layout {
  import opened Dyadic
  import opened DiskTransfer
  import opened Ext2Map
  import opened Ext2File

  // Four bytes spell a 32-bit number, the lowest first
  predicate Spells(bytes: seq<Byte>, at: nat, x: nat) {
    && at + 4 <= |bytes|
    && bytes[at] as nat == x % 256 && bytes[at + 1] as nat == x / 256 % 256
    && bytes[at + 2] as nat == x / 0x1_0000 % 256 && bytes[at + 3] as nat == x / 0x100_0000
  }

  lemma WordIs(bytes: seq<Byte>, at: nat, x: nat)
    requires Spells(bytes, at, x)
    ensures Word(bytes, at) == x
  {
    Octets(x);
  }

  lemma Octets(x: nat)
    ensures x == x % 256 + 0x100 * (x / 256 % 256) + 0x1_0000 * (x / 0x1_0000 % 256) + 0x100_0000 * (x / 0x100_0000)
  {
    var y := x / 256;
    var z := y / 256;
    assert x / 0x1_0000 == z;
    assert x / 0x100_0000 == z / 256;
    assert x == 256 * y + x % 256 && y == 256 * z + y % 256 && z == 256 * (z / 256) + z % 256;
  }

  // Block b of the volume holds these numbers
  ghost predicate Numbers(disk: seq<Byte>, v: Volume, b: nat, nos: seq<nat>) {
    && |nos| == v.base && v.offset + b * (4 * v.base) + 4 * v.base <= |disk|
    && forall i :: 0 <= i < v.base ==> Spells(disk, v.offset + b * (4 * v.base) + 4 * i, nos[i])
  }

  lemma EntryIs(disk: seq<Byte>, v: Volume, b: nat, nos: seq<nat>, i: nat)
    requires Numbers(disk, v, b, nos) && i < v.base
    ensures Inside(disk, v, b) && Entry(disk, v, b, i) == nos[i]
  {
    WordIs(disk, v.offset + b * (4 * v.base) + 4 * i, nos[i]);
  }

  // ----- which block of the volume is block n of the file -----

  lemma DirectBlock(disk: seq<Byte>, v: Volume, inode: Inode, n: nat)
    requires Ok(v, inode) && n < 12
    ensures RefBlock(disk, v, inode, n) == Found(inode.block[n])
  {
    BeforeDirect(v.base, n);
    BeforeDirect(v.base, n + 1);
    TierIs(v.base, n, 0, n);
  }

  // Where the indirect tiers begin
  lemma Tiers(base: nat)
    ensures Before(base, 12) == 12 && Before(base, 13) == 12 + base
    ensures Before(base, 14) == 12 + base + base * base
    ensures Before(base, 15) == 12 + base + base * base + base * (base * base)
  {
    BeforeDirect(base, 12);
    assert Power(base, 0) == 1 && Power(base, 1) == base;
    assert Power(base, 2) == base * base && Power(base, 3) == base * (base * base);
  }

  // A block of tier t is found along the digits of its place in the tier
  lemma RefPath(disk: seq<Byte>, v: Volume, inode: Inode, n: nat, t: nat, before: nat, path: seq<nat>)
    requires Ok(v, inode) && 12 <= t < 15 && before == Before(v.base, t) <= n < Before(v.base, t + 1)
    requires Digits(v.base, n - before, t - 11) == path
    ensures RefBlock(disk, v, inode, n) == Follow(disk, v, inode.block[t], path)
  {
    TierIs(v.base, n, 0, t);
  }

  // The i-th number in the indirect block is the number of block 12 + i
  lemma SingleBlock(disk: seq<Byte>, v: Volume, inode: Inode, nos: seq<nat>, i: nat)
    requires Ok(v, inode) && inode.block[12] != 0 && Numbers(disk, v, inode.block[12], nos) && i < v.base
    ensures RefBlock(disk, v, inode, 12 + i) == Found(nos[i])
    ensures CodeBlock(disk, v, inode, 12 + i) == Found(nos[i])
  {
    Tiers(v.base);
    EntryIs(disk, v, inode.block[12], nos, i);
    DigitOf(v.base, i);
    RefPath(disk, v, inode, 12 + i, 12, 12, [i]);
    FollowOne(disk, v, inode.block[12], i);
    Agrees(disk, v, inode, 12 + i);
  }

  lemma FollowOne(disk: seq<Byte>, v: Volume, b: nat, i: nat)
    requires b != 0 && i < v.base && Inside(disk, v, b)
    ensures Follow(disk, v, b, [i]) == Found(Entry(disk, v, b, i))
  {
    assert [i][1..] == [];
  }

  lemma DigitOf(base: nat, i: nat)
    requires base > 0
    ensures Digits(base, i, 1) == [i]
  {
    DivMod(i, 1, i, 0);
    assert Power(base, 0) == 1 && Digits(base, Rem(i, 1), 0) == [];
  }

  // Without an indirect block these are holes
  lemma SingleHole(disk: seq<Byte>, v: Volume, inode: Inode, i: nat)
    requires Ok(v, inode) && inode.block[12] == 0 && i < v.base
    ensures RefBlock(disk, v, inode, 12 + i) == Found(0)
  {
    Tiers(v.base);
    DigitOf(v.base, i);
    RefPath(disk, v, inode, 12 + i, 12, 12, [i]);
  }

  // The double indirect block numbers indirect blocks: the definition that the walk departs from
  lemma DoubleBlock(disk: seq<Byte>, v: Volume, inode: Inode, tops: seq<nat>, nos: seq<nat>, i: nat, j: nat,
                    n: nat)
    requires Ok(v, inode) && i < v.base && j < v.base && n == 12 + v.base + (i * v.base + j)
    requires inode.block[13] != 0 && Numbers(disk, v, inode.block[13], tops)
    requires tops[i] != 0 && Numbers(disk, v, tops[i], nos)
    ensures RefBlock(disk, v, inode, n) == Found(nos[j])
  {
    EntryIs(disk, v, inode.block[13], tops, i);
    EntryIs(disk, v, tops[i], nos, j);
    DoublePath(disk, v, inode, i, j, n);
    FollowTwo(disk, v, inode.block[13], i, j);
  }

  lemma DoublePath(disk: seq<Byte>, v: Volume, inode: Inode, i: nat, j: nat, n: nat)
    requires Ok(v, inode) && i < v.base && j < v.base && n == 12 + v.base + (i * v.base + j)
    ensures RefBlock(disk, v, inode, n) == Follow(disk, v, inode.block[13], [i, j])
  {
    InSecondTier(v.base, i, j, n);
    TwoDigits(v.base, i, j);
    RefPath(disk, v, inode, n, 13, 12 + v.base, [i, j]);
  }

  lemma InSecondTier(base: nat, i: nat, j: nat, n: nat)
    requires i < base && j < base && n == 12 + base + (i * base + j)
    ensures Before(base, 13) == 12 + base <= n < Before(base, 14)
  {
    Tiers(base);
    MulDistributes(i, 1, base);
    AtMost(i + 1, base, base);
  }

  lemma TwoDigits(base: nat, i: nat, j: nat)
    requires j < base
    ensures Digits(base, i * base + j, 2) == [i, j]
  {
    assert Power(base, 0) == 1 && Power(base, 1) == base;
    DivMod(i * base + j, base, i, j);
    DigitOf(base, j);
  }

  lemma FollowTwo(disk: seq<Byte>, v: Volume, b: nat, i: nat, j: nat)
    requires b != 0 && i < v.base && j < v.base && Inside(disk, v, b)
    requires Entry(disk, v, b, i) != 0 && Inside(disk, v, Entry(disk, v, b, i))
    ensures Follow(disk, v, b, [i, j]) == Found(Entry(disk, v, Entry(disk, v, b, i), j))
  {
    assert [i, j][1..] == [j];
    FollowOne(disk, v, Entry(disk, v, b, i), j);
  }

  // ----- whole files -----

  // The numbers of a file's blocks, as its inode and its indirect block have them on the disk
  ghost predicate Describes(disk: seq<Byte>, v: Volume, inode: Inode, numbers: seq<nat>) {
    && Ok(v, inode) && |numbers| == 12 + v.base && inode.block[..12] == numbers[..12]
    && if inode.block[12] == 0 then forall i :: 12 <= i < |numbers| ==> numbers[i] == 0
       else Numbers(disk, v, inode.block[12], numbers[12..])
  }

  lemma FileNumbers(disk: seq<Byte>, v: Volume, inode: Inode, numbers: seq<nat>, n: nat)
    requires Describes(disk, v, inode, numbers) && n < |numbers|
    ensures FileMap(disk, v, inode)[n] == Found(numbers[n])
  {
    if n < 12 {
      DirectBlock(disk, v, inode, n);
      assert inode.block[..12][n] == numbers[..12][n];
    } else if inode.block[12] == 0 {
      SingleHole(disk, v, inode, n - 12);
    } else {
      SingleBlock(disk, v, inode, numbers[12..], n - 12);
    }
  }

  // Byte j of block n of the file, which ext2_read returns, is byte j of the block of the volume whose
  // number stands at place n, or zero if that number is zero
  lemma FileBytes(disk: seq<Byte>, v: Volume, inode: Inode, numbers: seq<nat>, n: nat, j: nat)
    requires Describes(disk, v, inode, numbers) && n < |numbers| && j < 4 * v.base
    requires v.offset + numbers[n] * (4 * v.base) + 4 * v.base <= |disk|
    ensures FileByte(disk, v, FileMap(disk, v, inode), n * (4 * v.base) + j)
            == if numbers[n] == 0 then 0 else disk[v.offset + numbers[n] * (4 * v.base) + j]
  {
    FileNumbers(disk, v, inode, numbers, n);
    BlockByte(disk, v, FileMap(disk, v, inode), n, j);
  }

  lemma BlockByte(disk: seq<Byte>, v: Volume, blocks: seq<Lookup>, n: nat, j: nat)
    requires v.base > 0 && n < |blocks| && blocks[n].Found? && Inside(disk, v, blocks[n].no) && j < BlockSize(v)
    ensures FileByte(disk, v, blocks, n * BlockSize(v) + j)
            == if blocks[n].no == 0 then 0 else disk[Start(v, blocks[n].no) + j]
  {
    DivMod(n * BlockSize(v) + j, BlockSize(v), n, j);
  }
}
