/**
 The disk driver as it runs: the request record updated interrupt by interrupt, one sector at a time.
 */
module Disk {
  import opened Patches
  import opened DiskTransfer

  class Driver {
    // The device: its contents, the sector that comes next, the most sectors a command may have
    var disk: seq<Byte>
    var next: nat
    const sectorPerDrq: nat
    // The memory that buffers live in
    var mem: seq<Byte>
    // The request in progress
    var position: nat
    var size: nat
    var buffer: nat

    constructor (contents: seq<Byte>, drq: nat, memory: seq<Byte>)
      ensures disk == contents && sectorPerDrq == drq && mem == memory
    {
      disk, sectorPerDrq, mem := contents, drq, memory;
      next, position, size, buffer := 0, 0, 0, 0;
    }

    function View(): Request
      reads this
    {
      Request(position, size, buffer, next)
    }

    // disk_read: one interrupt of a read
    method ReadSector(bad: set<nat>) returns (r: Status)
      requires Readable(mem, View())
      modifies this
      ensures disk == old(disk)
      ensures Fails(|disk|, old(next), bad) ==> r == Error && mem == old(mem) && View() == old(View())
      ensures !Fails(|disk|, old(next), bad) ==>
                && mem == Fetch(disk, old(mem), old(View()), bad) && View() == Advanced(old(View()))
                && r == if size == 0 then Done else Undone
    {
      if Fails(|disk|, next, bad) {
        return Error;
      }
      WantedExists(disk, View(), bad);
      var sector := disk[next * SECTOR_SIZE..(next + 1) * SECTOR_SIZE];
      next := next + 1;
      var offset := position % SECTOR_SIZE;
      var copysz := if SECTOR_SIZE - offset < size then SECTOR_SIZE - offset else size;
      SliceOfSlice(disk, old(next) * SECTOR_SIZE, next * SECTOR_SIZE, offset, offset + copysz);
      mem := Patch(mem, buffer, sector[offset..offset + copysz]);
      position := position + copysz;
      size := size - copysz;
      buffer := buffer + copysz;
      return if size == 0 then Done else Undone;
    }

    // The interrupt loop of transfer for a read
    method ReadLoop(bad: set<nat>) returns (r: Status, used: nat)
      requires Readable(mem, View())
      modifies this
      ensures disk == old(disk)
      ensures (mem, r, used) == ReadRun(disk, old(mem), old(View()), bad)
    {
      r := Undone;
      used := 0;
      while r == Undone
        invariant disk == old(disk)
        invariant r == Undone ==> Readable(mem, View()) && (used > 0 ==> size > 0)
        invariant ReadRun(disk, old(mem), old(View()), bad)
               == if r == Undone
                  then var (m, s, u) := ReadRun(disk, mem, View(), bad); (m, s, u + used)
                  else (mem, r, used)
        decreases if r == Undone then 1 else 0, size, if used == 0 then 1 else 0
      {
        r := ReadSector(bad);
        used := used + 1;
      }
    }

    // The next sector goes to the data port
    method Output(b: seq<Byte>)
      requires |b| == SECTOR_SIZE
      modifies this`disk, this`next
      ensures disk == Put(old(disk), old(next), b) && next == old(next) + 1
    {
      if (next + 1) * SECTOR_SIZE <= |disk| {
        disk := Patch(disk, next * SECTOR_SIZE, b);
      }
      next := next + 1;
    }

    // disk_write: one interrupt of a write, about the sector before next
    method WriteSector(bad: set<nat>) returns (r: Status)
      requires next > 0 && buffer + size <= |mem|
      modifies this`disk, this`next, this`size, this`buffer
      ensures r == if Fails(|disk|, old(next) - 1, bad) then Error
                   else if old(size) <= SECTOR_SIZE then Done else Undone
      ensures r == Undone ==> View() == Fed(old(View())) && disk == Put(old(disk), old(next), Sector(mem, buffer, size))
      ensures r != Undone ==> View() == old(View()) && disk == old(disk)
    {
      if Fails(|disk|, next - 1, bad) {
        return Error;
      }
      if size > SECTOR_SIZE {
        size := size - SECTOR_SIZE;
        buffer := buffer + SECTOR_SIZE;
      } else {
        return Done;
      }
      var copysz := if size > SECTOR_SIZE then SECTOR_SIZE else size;
      Output(mem[buffer..buffer + copysz] + seq(SECTOR_SIZE - copysz, _ => 0));
      return Undone;
    }

    // The interrupt loop of transfer for a write whose first sector has been sent
    method WriteLoop(bad: set<nat>) returns (r: Status, used: nat)
      requires next > 0 && buffer + size <= |mem|
      modifies this`disk, this`next, this`size, this`buffer
      ensures (disk, r, used) == WriteRun(old(disk), mem, old(View()), bad)
    {
      r := Undone;
      used := 0;
      while r == Undone
        invariant next > 0 && buffer + size <= |mem|
        invariant WriteRun(old(disk), mem, old(View()), bad)
               == if r == Undone
                  then var (d, s, u) := WriteRun(disk, mem, View(), bad); (d, s, u + used)
                  else (disk, r, used)
        decreases if r == Undone then 1 else 0, size
      {
        r := WriteSector(bad);
        used := used + 1;
      }
    }

    // transfer; bad are the sectors for which the device reports an error
    method Transfer(pos: nat, buf: nat, len: nat, write: bool, bad: set<nat>) returns (r: Status, used: nat)
      requires buf + len <= |mem| && (write ==> buf + SECTOR_SIZE <= |mem|)
      modifies this
      ensures (write && pos % SECTOR_SIZE != 0) || Sectors(pos, len) > sectorPerDrq ==>
                r == Error && used == 0 && disk == old(disk) && mem == old(mem)
      ensures !(write && pos % SECTOR_SIZE != 0) && Sectors(pos, len) <= sectorPerDrq ==>
                && Outcome(|disk|, LowerDiv(pos), LowerDiv(pos) + Interrupts(pos, len), bad, r, used)
                && (if write
                    then mem == old(mem) && disk == AfterWrite(old(disk), LowerDiv(pos), mem, buf, len, used)
                    else disk == old(disk) && mem == Copied(old(mem), buf, disk, pos, Reached(pos, len, r, used)))
    {
      if write && pos % SECTOR_SIZE != 0 {
        return Error, 0;
      }
      var base := LowerDiv(pos) * SECTOR_SIZE;
      var high := UpperDiv(pos + len) * SECTOR_SIZE;
      var nsect := (high - base) / SECTOR_SIZE;
      if nsect > sectorPerDrq {
        return Error, 0;
      }
      if write {
        r, used := StartWrite(pos, buf, len, bad);
      } else {
        r, used := StartRead(pos, buf, len, bad);
      }
    }

    // The request, the command and the interrupts of a read
    method StartRead(pos: nat, buf: nat, len: nat, bad: set<nat>) returns (r: Status, used: nat)
      requires buf + len <= |mem|
      modifies this
      ensures disk == old(disk)
      ensures Outcome(|disk|, LowerDiv(pos), LowerDiv(pos) + Interrupts(pos, len), bad, r, used)
      ensures mem == Copied(old(mem), buf, disk, pos, Reached(pos, len, r, used))
    {
      buffer, position, size, next := buf, pos, len, LowerDiv(pos) * SECTOR_SIZE / SECTOR_SIZE;
      ghost var q := Request(pos, len, buf, LowerDiv(pos));
      InterruptsCover(pos, len);
      ReadRunOutcome(disk, mem, q, bad, LowerDiv(pos) + Interrupts(pos, len));
      ReadRunCopies(disk, mem, q, bad);
      r, used := ReadLoop(bad);
    }

    // The request, the command with the first sector, and the interrupts of a write
    method StartWrite(pos: nat, buf: nat, len: nat, bad: set<nat>) returns (r: Status, used: nat)
      requires buf + len <= |mem| && buf + SECTOR_SIZE <= |mem| && pos % SECTOR_SIZE == 0
      modifies this
      ensures mem == old(mem)
      ensures Outcome(|disk|, LowerDiv(pos), LowerDiv(pos) + Interrupts(pos, len), bad, r, used)
      ensures disk == AfterWrite(old(disk), LowerDiv(pos), mem, buf, len, used)
    {
      buffer, position, size, next := buf, pos, len, LowerDiv(pos) * SECTOR_SIZE / SECTOR_SIZE;
      WriteAllOutcome(disk, mem, pos, buf, len, bad);
      WriteAllStores(disk, mem, pos, buf, len, bad);
      Output(mem[buf..buf + SECTOR_SIZE]);
      r, used := WriteLoop(bad);
    }

    // A write of a buffer and a read of the same place into another buffer: they succeed exactly when
    // the write is aligned, the command is small enough and every sector is good, and then the other
    // buffer holds what was written
    method WriteReadBack(pos: nat, buf: nat, back: nat, len: nat, bad: set<nat>) returns (ok: bool)
      requires len > 0 && buf + len <= |mem| && back + len <= |mem| && buf + SECTOR_SIZE <= |mem|
      modifies this
      ensures ok <==> && pos % SECTOR_SIZE == 0 && Sectors(pos, len) <= sectorPerDrq
                      && Good(|old(disk)|, LowerDiv(pos), LowerDiv(pos) + Sectors(pos, len), bad)
      ensures ok ==> mem == Patch(old(mem), back, old(mem)[buf..buf + len])
    {
      ghost var first, n := LowerDiv(pos), Sectors(pos, len);
      var r, used := Transfer(pos, buf, len, true, bad);
      if r != Done {
        if used > 0 {
          DoneIsGood(|disk|, first, first + n, bad, r, used);
        }
        return false;
      }
      DoneIsGood(|disk|, first, first + n, bad, r, used);
      ghost var written := disk;
      r, used := Transfer(pos, back, len, false, bad);
      DoneIsGood(|disk|, first, first + n, bad, r, used);
      RoundTrip(old(disk), written, old(mem), pos, buf, back, len, bad);
      return r == Done;
    }
  }

  // What a done write and a done read of the same sectors amount to
  lemma RoundTrip(disk: seq<Byte>, written: seq<Byte>, mem: seq<Byte>, pos: nat, buf: nat,
                  back: nat, len: nat, bad: set<nat>)
    requires len > 0 && buf + len <= |mem| && back + len <= |mem|
    requires buf + SECTOR_SIZE <= |mem| && pos % SECTOR_SIZE == 0
    requires Good(|disk|, LowerDiv(pos), LowerDiv(pos) + Sectors(pos, len), bad)
    requires written == AfterWrite(disk, LowerDiv(pos), mem, buf, len, Sectors(pos, len))
    ensures Copied(mem, back, written, pos, pos + len) == Patch(mem, back, mem[buf..buf + len])
  {
    var first, n := LowerDiv(pos), Sectors(pos, len);
    GoodAt(|disk|, first, first + n, bad, first + n - 1);
    assert n == UpperDiv(len) && pos == first * SECTOR_SIZE;
    WriteThenRead(disk, first, mem, buf, len);
  }
}
