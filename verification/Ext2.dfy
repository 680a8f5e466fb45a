/**
 Reading a file: the file server finds each block of the volume and has the disk server fetch it.
 What comes back is the file's bytes from the position on, up to the end of the request, the end of
 the file or the first hole.
 */
module Ext2 {
  import opened Dyadic
  import opened DiskTransfer
  import opened Disk
  import opened Ext2Map
  import opened Ext2File

  // ----- the device -----

  // The volume starts on a sector, its blocks are whole sectors, and a block fits in one command
  predicate Served(v: Volume, drq: nat) {
    v.offset % SECTOR_SIZE == 0 && v.base % 128 == 0 && 0 < v.base <= 1024 && BlockSize(v) / SECTOR_SIZE <= drq
  }

  lemma StartAligned(v: Volume, b: nat)
    requires v.offset % SECTOR_SIZE == 0 && v.base % 128 == 0
    ensures Start(v, b) % SECTOR_SIZE == 0 && BlockSize(v) % SECTOR_SIZE == 0
  {
    var m := v.base / 128;
    assert BlockSize(v) == SECTOR_SIZE * m;
    assert b * BlockSize(v) == SECTOR_SIZE * (b * m);
  }

  // A transfer of whole sectors succeeds exactly when they exist
  lemma WholeSectors(mem: seq<Byte>, disk: seq<Byte>, pos: nat, size: nat, r: Status, used: nat)
    requires pos % SECTOR_SIZE == 0 && size % SECTOR_SIZE == 0 && 0 < size <= |mem|
    requires Outcome(|disk|, LowerDiv(pos), LowerDiv(pos) + Interrupts(pos, size), {}, r, used)
    ensures r == Done <==> pos + size <= |disk|
    ensures r == Done ==> Copied(mem, 0, disk, pos, Reached(pos, size, r, used))[..size] == disk[pos..pos + size]
  {
    InterruptsCover(pos, size);
    var end := LowerDiv(pos) + Interrupts(pos, size);
    if r == Done {
      GoodAt(|disk|, LowerDiv(pos), end, {}, end - 1);
    } else {
      assert LowerDiv(pos) + used <= end;
    }
  }

  // bdev_read of one block into the block buffer
  method ReadBlock(d: Driver, v: Volume, b: nat) returns (ok: bool, bytes: seq<Byte>)
    requires Served(v, d.sectorPerDrq) && BlockSize(v) <= |d.mem|
    modifies d
    ensures d.disk == old(d.disk) && |d.mem| == |old(d.mem)|
    ensures ok == Inside(d.disk, v, b)
    ensures ok ==> bytes == d.disk[Start(v, b)..Start(v, b) + BlockSize(v)]
  {
    StartAligned(v, b);
    ghost var mem := d.mem;
    var r, used := d.Transfer(Start(v, b), 0, BlockSize(v), false, {});
    WholeSectors(mem, d.disk, Start(v, b), BlockSize(v), r, used);
    ok := r == Done;
    bytes := d.mem[..BlockSize(v)];
  }

  // ----- get_block_no -----

  // The ladder holds the number of blocks that each pointer of an inode reaches
  ghost predicate IsLadder(v: Volume, ladder: seq<nat>) {
    |ladder| == NR_INODE_BLOCK && forall k :: 0 <= k < NR_INODE_BLOCK ==> ladder[k] == Reach(v.base, k)
  }

  // The array_ladder loop of ext2_mount
  method MakeLadder(base: nat) returns (ladder: seq<nat>)
    ensures |ladder| == NR_INODE_BLOCK && forall i :: 0 <= i < NR_INODE_BLOCK ==> ladder[i] == Reach(base, i)
  {
    ladder := [];
    var i: nat, len: nat := 0, 1;
    while i < NR_INODE_BLOCK
      invariant i <= NR_INODE_BLOCK && |ladder| == i && forall k :: 0 <= k < i ==> ladder[k] == Reach(base, k)
      invariant len == if i <= DIRECT then 1 else Power(base, i - 12)
    {
      if i >= DIRECT {
        assert Power(base, i - 11) == base * Power(base, i - 12);
        len := len * base;
      }
      ladder := ladder + [len];
      i := i + 1;
    }
  }

  // The search for the tier
  method FindTier(base: nat, n: nat, ladder: seq<nat>) returns (i: nat, depth: nat)
    requires |ladder| == NR_INODE_BLOCK && forall k :: 0 <= k < NR_INODE_BLOCK ==> ladder[k] == Reach(base, k)
    ensures i == Tier(base, n, 0) <= NR_INODE_BLOCK
    ensures i < NR_INODE_BLOCK ==> depth == if i < DIRECT then 0 else i - 11
  {
    var sum: nat := 0;
    i, depth := 0, 0;
    while i < NR_INODE_BLOCK
      invariant i <= NR_INODE_BLOCK && sum == Before(base, i) <= n
      invariant depth == if i <= DIRECT then 0 else i - 12
      invariant Tier(base, n, 0) == Tier(base, n, i)
    {
      if i >= DIRECT {
        depth := depth + 1;
      }
      if n >= sum && n < sum + ladder[i] {
        return;
      }
      sum := sum + ladder[i];
      i := i + 1;
    }
  }

  method GetBlockNo(d: Driver, v: Volume, inode: Inode, n: nat, ladder: seq<nat>) returns (r: Lookup)
    requires Ok(v, inode) && Served(v, d.sectorPerDrq) && BlockSize(v) <= |d.mem|
    requires IsLadder(v, ladder)
    modifies d
    ensures d.disk == old(d.disk) && |d.mem| == |old(d.mem)|
    ensures r == CodeBlock(d.disk, v, inode, n)
  {
    var i, depth := FindTier(v.base, n, ladder);
    if i == NR_INODE_BLOCK {
      return Beyond;
    }
    if depth == 0 {
      return Found(inode.block[i]);
    }
    TierBounds(v.base, n, 0);
    BeforeDirect(v.base, DIRECT);
    BeforeGrows(v.base, DIRECT, i);
    DescendFollows(d.disk, v, inode.block[i], depth, n - DIRECT);
    r := WalkDown(d, v, inode.block[i], depth, n - DIRECT, ladder);
  }

  // The indirection loop
  method WalkDown(d: Driver, v: Volume, top: nat, levels: nat, m: nat, ladder: seq<nat>) returns (r: Lookup)
    requires Served(v, d.sectorPerDrq) && BlockSize(v) <= |d.mem| && levels <= 3
    requires IsLadder(v, ladder)
    modifies d
    ensures d.disk == old(d.disk) && |d.mem| == |old(d.mem)|
    ensures r == Descend(d.disk, v, top, levels, m)
  {
    var block, depth, reminder := top, levels, m;
    while depth > 0 && block != 0
      invariant d.disk == old(d.disk) && |d.mem| == |old(d.mem)| && depth <= 3
      invariant Descend(d.disk, v, top, levels, m) == Descend(d.disk, v, block, depth, reminder)
    {
      depth := depth - 1;
      assert ladder[11 + depth] == Power(v.base, depth);
      var ok, bytes := ReadBlock(d, v, block);
      var index := Quot(reminder, ladder[12 + depth - 1]);
      if !ok || index >= v.base {
        return Wild;
      }
      WordOfBlock(d.disk, v, block, index, bytes);
      reminder := Rem(reminder, ladder[12 + depth - 1]);
      block := Word(bytes, 4 * index);
    }
    return Found(block);
  }

  lemma WordOfBlock(disk: seq<Byte>, v: Volume, b: nat, i: nat, bytes: seq<Byte>)
    requires Inside(disk, v, b) && i < v.base && bytes == disk[Start(v, b)..Start(v, b) + BlockSize(v)]
    ensures Word(bytes, 4 * i) == Entry(disk, v, b, i)
  {
  }

  // ----- ext2_read -----

  // getblock: the bytes of the file's n-th block, or the news that it is a hole
  method GetBlock(d: Driver, v: Volume, inode: Inode, ladder: seq<nat>, n: nat, ghost blocks: seq<Lookup>)
    returns (found: bool, bytes: seq<Byte>)
    requires Ok(v, inode) && Served(v, d.sectorPerDrq) && BlockSize(v) <= |d.mem|
    requires IsLadder(v, ladder) && IsMap(d.disk, v, inode, blocks) && n < |blocks| && Mapped(d.disk, v, blocks[n])
    modifies d
    ensures d.disk == old(d.disk) && |d.mem| == |old(d.mem)|
    ensures found <==> blocks[n] != Found(0)
    ensures found ==> IsBlock(d.disk, v, blocks[n], bytes)
  {
    Agrees(d.disk, v, inode, n);
    var no := GetBlockNo(d, v, inode, n, ladder);
    if no == Found(0) {
      return false, [];
    }
    found, bytes := ReadBlock(d, v, no.no);
  }

  // The body of the loop of ext2_read: what the block at p gives of the next rest bytes
  method ReadPart(d: Driver, v: Volume, inode: Inode, ladder: seq<nat>, block: nat, offset: nat, rest: nat,
                  ghost p: nat, ghost blocks: seq<Lookup>)
    returns (found: bool, part: seq<Byte>)
    requires Ok(v, inode) && Served(v, d.sectorPerDrq) && BlockSize(v) <= |d.mem|
    requires IsLadder(v, ladder) && IsMap(d.disk, v, inode, blocks) && Sound(d.disk, v, blocks, inode.size)
    requires rest > 0 && p + rest <= inode.size && At(v, p, block, offset) && offset < BlockSize(v)
    modifies d
    ensures d.disk == old(d.disk) && |d.mem| == |old(d.mem)| && block < |blocks|
    ensures found <==> blocks[block] != Found(0)
    ensures found ==>
              && |part| == (if BlockSize(v) - offset > rest then rest else BlockSize(v) - offset)
              && part == Content(d.disk, v, blocks, p, p + |part|)
              && (|part| < rest ==> At(v, p + |part|, block + 1, 0))
  {
    BlockInReach(v, p, block, offset, inode.size, |blocks|);
    var bytes;
    found, bytes := GetBlock(d, v, inode, ladder, block, blocks);
    if !found {
      return false, [];
    }
    var copysz: nat := if BlockSize(v) - offset > rest then rest else BlockSize(v) - offset;
    BlockContent(d.disk, v, blocks, p, block, offset, copysz, bytes);
    part := bytes[offset..offset + copysz];
  }

  // The loop of ext2_read, for a request of at least one byte within the file
  method ReadBlocks(d: Driver, v: Volume, inode: Inode, ladder: seq<nat>, pos: nat, size: nat,
                    ghost blocks: seq<Lookup>, ghost first: nat, ghost limit: nat)
    returns (data: seq<Byte>, ghost e: nat)
    requires Ok(v, inode) && Served(v, d.sectorPerDrq) && BlockSize(v) <= |d.mem|
    requires IsLadder(v, ladder) && IsMap(d.disk, v, inode, blocks) && Sound(d.disk, v, blocks, inode.size)
    requires size > 0 && pos + size <= inode.size
    requires first == Quot(pos, BlockSize(v)) && limit == Quot(pos + size - 1, BlockSize(v)) + 1 && first < limit
    modifies d
    ensures d.disk == old(d.disk)
    ensures pos <= e && data == Content(d.disk, v, blocks, pos, e)
    ensures StopsAt(v, pos, pos + size, first, limit, FirstHole(blocks, first, limit), e)
  {
    data := [];
    var rest: nat, block: nat, offset: nat := size, Quot(pos, BlockSize(v)), Rem(pos, BlockSize(v));
    StartAt(v, pos);
    ghost var disk, want: nat := d.disk, pos + size;
    e := pos;
    while rest > 0
      invariant d.disk == disk && BlockSize(v) <= |d.mem|
      invariant pos <= e && e + rest == want && first <= block <= limit
      invariant FirstHole(blocks, block, limit) == FirstHole(blocks, first, limit)
      invariant offset < BlockSize(v) && (rest > 0 ==> At(v, e, block, offset))
      invariant if block == first then e == pos else offset == 0
      invariant rest == 0 ==> block == limit
      invariant data == Content(disk, v, blocks, pos, e)
    {
      LastBlock(v, e, block, offset, want, limit);
      var found, part := ReadPart(d, v, inode, ladder, block, offset, rest, e, blocks);
      if !found {
        return;
      }
      ContentJoins(disk, v, blocks, pos, e, e + |part|);
      data := data + part;
      rest := rest - |part|;
      e := e + |part|;
      block := block + 1;
      offset := 0;
    }
  }

  // The part of ext2_read behind the clamping, for a request within the file
  method ReadLoop(d: Driver, v: Volume, inode: Inode, ladder: seq<nat>, pos: nat, size: nat, ghost blocks: seq<Lookup>)
    returns (data: seq<Byte>)
    requires Ok(v, inode) && Served(v, d.sectorPerDrq) && BlockSize(v) <= |d.mem|
    requires IsLadder(v, ladder) && IsMap(d.disk, v, inode, blocks) && Sound(d.disk, v, blocks, inode.size)
    requires pos + size <= inode.size
    modifies d
    ensures d.disk == old(d.disk)
    ensures data == Content(d.disk, v, blocks, pos, End(v, blocks, pos, pos + size))
  {
    if size == 0 {
      return [];
    }
    BlocksOf(pos, pos + size, BlockSize(v));
    ghost var first: nat, limit: nat := Quot(pos, BlockSize(v)), Quot(pos + size - 1, BlockSize(v)) + 1;
    ghost var e;
    data, e := ReadBlocks(d, v, inode, ladder, pos, size, blocks, first, limit);
    StopIsEnd(v, blocks, pos, pos + size, first, limit, e);
  }

  // ext2_read
  method Read(d: Driver, v: Volume, inode: Inode, ladder: seq<nat>, pos: int, size: nat) returns (data: seq<Byte>)
    requires Ok(v, inode) && Served(v, d.sectorPerDrq) && BlockSize(v) <= |d.mem| && IsLadder(v, ladder)
    requires Sound(d.disk, v, FileMap(d.disk, v, inode), inode.size)
    modifies d
    ensures d.disk == old(d.disk)
    ensures data == if pos < 0 || pos >= inode.size then []
                    else
                      var want := if pos + size >= inode.size then inode.size else pos + size;
                      var blocks := FileMap(d.disk, v, inode);
                      Content(d.disk, v, blocks, pos, End(v, blocks, pos, want))
  {
    if pos < 0 || pos >= inode.size {
      return [];
    }
    var rest: nat := size;
    if pos + size >= inode.size {
      rest := inode.size - pos;
    }
    FileMapIs(d.disk, v, inode);
    data := ReadLoop(d, v, inode, ladder, pos, rest, FileMap(d.disk, v, inode));
  }
}
