/**
 From block numbers of a file to block numbers of the volume: the ext2 definition, and the ladder
 walk of the file server. The walk subtracts the direct blocks only, so it agrees with the
 definition exactly up to the end of the single indirect block.
 */
module Ext2Map {
  import opened Dyadic
  import opened DiskTransfer

  const DIRECT := 12
  const NR_INODE_BLOCK := 15

  // A volume starts at a byte of the disk; base block numbers fit in a block
  datatype Volume = Volume(offset: nat, base: nat)

  datatype Inode = Inode(size: nat, block: seq<nat>)

  // A block number, zero for a hole; a number behind the last tier; or a walk that reads outside the
  // block buffer or off the disk
  datatype Lookup = Found(no: nat) | Beyond | Wild

  function BlockSize(v: Volume): nat {
    4 * v.base
  }

  predicate Ok(v: Volume, inode: Inode) {
    0 < v.base <= 1024 && |inode.block| == NR_INODE_BLOCK
  }

  // ----- blocks on the disk -----

  function Start(v: Volume, b: nat): nat {
    v.offset + b * BlockSize(v)
  }

  predicate Inside(disk: seq<Byte>, v: Volume, b: nat) {
    Start(v, b) + BlockSize(v) <= |disk|
  }

  // A little-endian 32-bit word
  function Word(bytes: seq<Byte>, at: nat): nat
    requires at + 4 <= |bytes|
  {
    bytes[at] as nat + 0x100 * bytes[at + 1] as nat
    + 0x1_0000 * bytes[at + 2] as nat + 0x100_0000 * bytes[at + 3] as nat
  }

  // The i-th block number in block b
  function Entry(disk: seq<Byte>, v: Volume, b: nat, i: nat): nat
    requires Inside(disk, v, b) && i < v.base
  {
    Word(disk, Start(v, b) + 4 * i)
  }

  // ----- the definition -----

  function Power(b: nat, k: nat): (r: nat)
    ensures b > 0 ==> r > 0
  {
    if k == 0 then 1 else b * Power(b, k - 1)
  }

  // The d digits of x to a base, the first one first; it holds whatever is too much for the others
  function Digits(base: nat, x: nat, d: nat): (s: seq<nat>)
    requires base > 0
    ensures |s| == d
  {
    if d == 0 then []
    else [Quot(x, Power(base, d - 1))] + Digits(base, Rem(x, Power(base, d - 1)), d - 1)
  }

  // Blocks that tier i of an inode reaches: one, or all that i - 11 levels of indirection address
  function Reach(base: nat, i: nat): nat {
    if i < DIRECT then 1 else Power(base, i - 11)
  }

  // Blocks in the tiers before tier i
  function Before(base: nat, i: nat): nat {
    if i == 0 then 0 else Before(base, i - 1) + Reach(base, i - 1)
  }

  // The first tier from i on that block n does not lie behind, NR_INODE_BLOCK if there is none
  function Tier(base: nat, n: nat, i: nat): (t: nat)
    requires i <= NR_INODE_BLOCK
    ensures i <= t <= NR_INODE_BLOCK
    decreases NR_INODE_BLOCK - i
  {
    if i == NR_INODE_BLOCK || n < Before(base, i + 1) then i else Tier(base, n, i + 1)
  }

  function Follow(disk: seq<Byte>, v: Volume, b: nat, path: seq<nat>): Lookup
    decreases |path|
  {
    if path == [] || b == 0 then Found(b)
    else if !Inside(disk, v, b) || path[0] >= v.base then Wild
    else Follow(disk, v, Entry(disk, v, b, path[0]), path[1..])
  }

  // Block n: its tier's block, or its place in that tier's tree, counted from the start of the tier
  function RefBlock(disk: seq<Byte>, v: Volume, inode: Inode, n: nat): Lookup
    requires Ok(v, inode)
  {
    var i := Tier(v.base, n, 0);
    if i == NR_INODE_BLOCK then Beyond
    else if i < DIRECT then Found(inode.block[i])
    else if n < Before(v.base, i) then Wild
    else Follow(disk, v, inode.block[i], Digits(v.base, n - Before(v.base, i), i - 11))
  }

  // ----- the walk -----

  // The descent of get_block_no through depth levels
  function Descend(disk: seq<Byte>, v: Volume, b: nat, depth: nat, reminder: nat): Lookup
    requires v.base > 0
    decreases depth
  {
    if depth == 0 || b == 0 then Found(b)
    else
      var step := Power(v.base, depth - 1);
      if !Inside(disk, v, b) || Quot(reminder, step) >= v.base then Wild
      else Descend(disk, v, Entry(disk, v, b, Quot(reminder, step)), depth - 1, Rem(reminder, step))
  }

  // get_block_no: in every tier the walk counts from the end of the direct blocks
  function CodeBlock(disk: seq<Byte>, v: Volume, inode: Inode, n: nat): Lookup
    requires Ok(v, inode)
  {
    var i := Tier(v.base, n, 0);
    if i == NR_INODE_BLOCK then Beyond
    else if i < DIRECT then Found(inode.block[i])
    else if n < DIRECT then Wild
    else Follow(disk, v, inode.block[i], Digits(v.base, n - DIRECT, i - 11))
  }

  lemma {:induction false} DescendFollows(disk: seq<Byte>, v: Volume, b: nat, depth: nat, reminder: nat)
    requires v.base > 0
    ensures Descend(disk, v, b, depth, reminder) == Follow(disk, v, b, Digits(v.base, reminder, depth))
    decreases depth
  {
    if depth > 0 && b != 0 {
      var step := Power(v.base, depth - 1);
      var path := Digits(v.base, reminder, depth);
      assert path[0] == Quot(reminder, step) && path[1..] == Digits(v.base, Rem(reminder, step), depth - 1);
      if Inside(disk, v, b) && path[0] < v.base {
        DescendFollows(disk, v, Entry(disk, v, b, path[0]), depth - 1, Rem(reminder, step));
      }
    }
  }

  // ----- tiers -----

  lemma {:induction false} BeforeDirect(base: nat, i: nat)
    requires i <= DIRECT
    ensures Before(base, i) == i
  {
    if i > 0 {
      BeforeDirect(base, i - 1);
    }
  }

  // The tier of n is the one whose blocks n lies among
  lemma {:induction false} TierBounds(base: nat, n: nat, i: nat)
    requires i <= NR_INODE_BLOCK && Before(base, i) <= n
    ensures var t := Tier(base, n, i);
            Before(base, t) <= n && (t < NR_INODE_BLOCK ==> n < Before(base, t + 1))
    decreases NR_INODE_BLOCK - i
  {
    if i < NR_INODE_BLOCK && n >= Before(base, i + 1) {
      TierBounds(base, n, i + 1);
    }
  }

  lemma {:induction false} TierIs(base: nat, n: nat, i: nat, t: nat)
    requires i <= t <= NR_INODE_BLOCK && Before(base, t) <= n && (t < NR_INODE_BLOCK ==> n < Before(base, t + 1))
    ensures Tier(base, n, i) == t
    decreases t - i
  {
    if i < t {
      BeforeGrows(base, i + 1, t);
      TierIs(base, n, i + 1, t);
    }
  }

  lemma {:induction false} BeforeGrows(base: nat, i: nat, j: nat)
    requires i <= j
    ensures Before(base, i) <= Before(base, j)
  {
    if i < j {
      BeforeGrows(base, i, j - 1);
    }
  }

  // ----- agreement -----

  lemma Agrees(disk: seq<Byte>, v: Volume, inode: Inode, n: nat)
    requires Ok(v, inode) && (n < DIRECT + v.base || n >= Before(v.base, NR_INODE_BLOCK))
    ensures CodeBlock(disk, v, inode, n) == RefBlock(disk, v, inode, n)
  {
    var i := Tier(v.base, n, 0);
    TierBounds(v.base, n, 0);
    BeforeDirect(v.base, DIRECT);
    if n >= Before(v.base, NR_INODE_BLOCK) {
      TierIs(v.base, n, 0, NR_INODE_BLOCK);
    } else {
      assert Power(v.base, 1) == v.base;
      assert Before(v.base, 13) == DIRECT + v.base;
      if i >= 13 {
        BeforeGrows(v.base, 13, i);
      }
    }
  }

  // A disk whose blocks 1, 2, 3 each hold one number: that of the next block, at the given index
  function Chain(v: Volume, i1: nat, i2: nat, i3: nat): (disk: seq<Byte>)
    ensures |disk| == v.offset + 4 * BlockSize(v)
  {
    var bs := BlockSize(v);
    seq(v.offset + 4 * bs, p requires 0 <= p =>
      if p == v.offset + bs + 4 * i1 then 2
      else if p == v.offset + 2 * bs + 4 * i2 then 3
      else if p == v.offset + 3 * bs + 4 * i3 then 4
      else 0)
  }

  // The index that block b of a chain uses
  function Link(i1: nat, i2: nat, i3: nat, b: nat): nat {
    if b == 1 then i1 else if b == 2 then i2 else i3
  }

  lemma ChainByte(v: Volume, i1: nat, i2: nat, i3: nat, b: nat, j: nat)
    requires i1 < v.base && i2 < v.base && i3 < v.base && j < BlockSize(v) && 1 <= b <= 3
    ensures Start(v, b) + j < |Chain(v, i1, i2, i3)|
    ensures Chain(v, i1, i2, i3)[Start(v, b) + j] == if j == 4 * Link(i1, i2, i3, b) then (b + 1) as Byte else 0
  {
    var bs := BlockSize(v);
    assert Start(v, b) == (if b == 1 then v.offset + bs else if b == 2 then v.offset + 2 * bs else v.offset + 3 * bs);
  }

  lemma ChainEntry(v: Volume, i1: nat, i2: nat, i3: nat, b: nat, i: nat)
    requires i1 < v.base && i2 < v.base && i3 < v.base && i < v.base && 1 <= b <= 3
    ensures Inside(Chain(v, i1, i2, i3), v, b)
    ensures Entry(Chain(v, i1, i2, i3), v, b, i) == if i == Link(i1, i2, i3, b) then b + 1 else 0
  {
    ChainByte(v, i1, i2, i3, b, BlockSize(v) - 1);
    ChainByte(v, i1, i2, i3, b, 4 * i);
    ChainByte(v, i1, i2, i3, b, 4 * i + 1);
    ChainByte(v, i1, i2, i3, b, 4 * i + 2);
    ChainByte(v, i1, i2, i3, b, 4 * i + 3);
  }

  lemma {:induction false} DigitsSmall(base: nat, x: nat, d: nat)
    requires base > 0 && x < Power(base, d)
    ensures forall j :: 0 <= j < d ==> Digits(base, x, d)[j] < base
  {
    if d > 0 {
      var p := Power(base, d - 1);
      QuotBounds(x, p);
      CountAtMost(Quot(x, p), base, p, x);
      DigitsSmall(base, Rem(x, p), d - 1);
      var s := Digits(base, x, d);
      assert forall j :: 1 <= j < d ==> s[j] == Digits(base, Rem(x, p), d - 1)[j - 1];
    }
  }

  // A number that is larger by a whole step has a larger first digit
  lemma QuotMore(x: nat, y: nat, p: nat)
    requires p > 0 && x >= y + p
    ensures Quot(x, p) > Quot(y, p)
  {
    QuotBounds(x, p);
    QuotBounds(y, p);
    CountAtMost(Quot(y, p), Quot(x, p), p, Quot(x, p) * p - 1);
  }

  function ChainOf(v: Volume, path: seq<nat>): seq<Byte>
    requires 2 <= |path| <= 3
  {
    Chain(v, path[0], path[1], if |path| == 3 then path[2] else 0)
  }

  // The definition reaches the end of the chain
  lemma FollowChain(v: Volume, path: seq<nat>)
    requires v.base > 0 && 2 <= |path| <= 3
    requires forall j :: 0 <= j < |path| ==> path[j] < v.base
    ensures Follow(ChainOf(v, path), v, 1, path) == Found(|path| + 1)
  {
    var i3 := if |path| == 3 then path[2] else 0;
    var disk := ChainOf(v, path);
    ChainEntry(v, path[0], path[1], i3, 1, path[0]);
    ChainEntry(v, path[0], path[1], i3, 2, path[1]);
    ChainEntry(v, path[0], path[1], i3, 3, i3);
    var rest := path[1..];
    assert Follow(disk, v, 1, path) == Follow(disk, v, 2, rest);
    assert Follow(disk, v, 2, rest) == Follow(disk, v, 3, rest[1..]);
    if |path| == 3 {
      assert Follow(disk, v, 3, rest[1..]) == Follow(disk, v, 4, rest[1..][1..]);
    }
  }

  // Any other first index falls off it
  lemma FollowOther(v: Volume, path: seq<nat>, other: seq<nat>)
    requires v.base > 0 && |path| == |other| && 2 <= |path| <= 3
    requires forall j :: 0 <= j < |path| ==> path[j] < v.base
    requires other[0] != path[0]
    ensures var r := Follow(ChainOf(v, path), v, 1, other); r == Found(0) || r == Wild
  {
    var i3 := if |path| == 3 then path[2] else 0;
    if other[0] < v.base {
      ChainEntry(v, path[0], path[1], i3, 1, other[0]);
    }
  }

  // Behind the single indirect block, counting from the direct blocks is a whole step too much
  lemma Overcount(base: nat, n: nat)
    requires base > 0 && DIRECT + base <= n < Before(base, NR_INODE_BLOCK)
    ensures var i := Tier(base, n, 0);
            && 13 <= i <= 14 && Before(base, i) <= n < Before(base, i) + Power(base, i - 11)
            && Before(base, i) >= DIRECT + Power(base, i - 12)
  {
    var i := Tier(base, n, 0);
    TierBounds(base, n, 0);
    BeforeDirect(base, DIRECT);
    assert Power(base, 1) == base && Before(base, 13) == DIRECT + base;
    assert Before(base, 14) == DIRECT + base + Power(base, 2);
    if i < 13 {
      BeforeGrows(base, i + 1, 13);
    }
  }

  // In the second and third tier of indirection there is a disk on which the walk goes wrong
  lemma Differs(v: Volume, n: nat) returns (disk: seq<Byte>, inode: Inode)
    requires 0 < v.base <= 1024 && DIRECT + v.base <= n < Before(v.base, NR_INODE_BLOCK)
    ensures Ok(v, inode) && CodeBlock(disk, v, inode, n) != RefBlock(disk, v, inode, n)
  {
    var i := Tier(v.base, n, 0);
    Overcount(v.base, n);
    var k := n - Before(v.base, i);
    FirstDigits(v.base, k, n - DIRECT, i - 11);
    inode := Inode(0, seq(NR_INODE_BLOCK, j => if j == i then 1 else 0));
    disk := PathsPart(v, Digits(v.base, k, i - 11), Digits(v.base, n - DIRECT, i - 11));
  }

  lemma PathsPart(v: Volume, path: seq<nat>, other: seq<nat>) returns (disk: seq<Byte>)
    requires v.base > 0 && |path| == |other| && 2 <= |path| <= 3
    requires forall j :: 0 <= j < |path| ==> path[j] < v.base
    requires other[0] != path[0]
    ensures Follow(disk, v, 1, path) != Follow(disk, v, 1, other)
  {
    disk := ChainOf(v, path);
    FollowChain(v, path);
    FollowOther(v, path, other);
  }

  lemma FirstDigits(base: nat, k: nat, m: nat, d: nat)
    requires base > 0 && d > 0 && k < Power(base, d) && m >= k + Power(base, d - 1)
    ensures Digits(base, k, d)[0] != Digits(base, m, d)[0]
    ensures forall j :: 0 <= j < d ==> Digits(base, k, d)[j] < base
  {
    DigitsSmall(base, k, d);
    QuotMore(m, k, Power(base, d - 1));
  }

  // get_block_no is right for all files exactly for the direct and the single indirect blocks
  lemma AgreesExactly(v: Volume, n: nat)
    requires 0 < v.base <= 1024
    ensures (forall disk: seq<Byte>, inode: Inode :: Ok(v, inode) ==>
              CodeBlock(disk, v, inode, n) == RefBlock(disk, v, inode, n))
            <==> n < DIRECT + v.base || n >= Before(v.base, NR_INODE_BLOCK)
  {
    if n < DIRECT + v.base || n >= Before(v.base, NR_INODE_BLOCK) {
      forall disk: seq<Byte>, inode: Inode | Ok(v, inode)
        ensures CodeBlock(disk, v, inode, n) == RefBlock(disk, v, inode, n)
      {
        Agrees(disk, v, inode, n);
      }
    } else {
      var disk, inode := Differs(v, n);
    }
  }
}
