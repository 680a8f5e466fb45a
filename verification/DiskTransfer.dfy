/**
 What a disk transfer does, sector by sector, and what it amounts to: a read fills the buffer with
 a slice of the disk, a write puts the buffer on the disk, and each takes one interrupt per sector.
 */
module DiskTransfer {
  import opened Patches

  const SECTOR_SIZE := 512

  type Byte = bv8

  datatype Status = Done | Undone | Error

  // The driver's request record and the device's next sector
  datatype Request = Request(position: nat, size: nat, buffer: nat, next: nat)

  // ----- sectors and interrupts -----

  function LowerDiv(x: nat): nat {
    x / SECTOR_SIZE
  }

  function UpperDiv(x: nat): nat {
    x / SECTOR_SIZE + if x % SECTOR_SIZE > 0 then 1 else 0
  }

  // The number of sectors that a request touches, as the driver computes it
  function Sectors(pos: nat, size: nat): (n: nat)
    ensures n == UpperDiv(pos + size) - LowerDiv(pos)
  {
    (UpperDiv(pos + size) * SECTOR_SIZE - LowerDiv(pos) * SECTOR_SIZE) / SECTOR_SIZE
  }

  // The number of interrupts that the driver waits for
  function Interrupts(pos: nat, size: nat): nat {
    if size == 0 then 1 else Sectors(pos, size)
  }

  // Sectors first to end are just enough to reach stop
  predicate Covers(first: nat, end: nat, stop: nat) {
    && first < end && stop <= end * SECTOR_SIZE
    && (end > first + 1 ==> (end - 1) * SECTOR_SIZE < stop)
  }

  lemma InterruptsCover(pos: nat, size: nat)
    ensures Covers(LowerDiv(pos), LowerDiv(pos) + Interrupts(pos, size), pos + size)
  {
  }

  // The status register shows an error for a sector that does not exist, or for any other reason
  predicate Fails(length: nat, sector: nat, bad: set<nat>) {
    sector in bad || (sector + 1) * SECTOR_SIZE > length
  }

  // No sector from first up to end reports an error
  predicate Good(length: nat, first: nat, end: nat, bad: set<nat>)
    decreases end - first
  {
    end <= first || (!Fails(length, first, bad) && Good(length, first + 1, end, bad))
  }

  // How a transfer of the sectors first to end comes out, and after how many interrupts: done after
  // one per sector, or an error at the first sector whose interrupt reports one
  predicate Outcome(length: nat, first: nat, end: nat, bad: set<nat>, r: Status, used: nat) {
    && (r == Done || r == Error)
    && 0 < used <= end - first
    && Good(length, first, if r == Error then first + used - 1 else end, bad)
    && (if r == Error then Fails(length, first + used - 1, bad) else used == end - first)
  }

  lemma {:induction false} GoodAt(length: nat, first: nat, end: nat, bad: set<nat>, k: nat)
    requires Good(length, first, end, bad) && first <= k < end
    ensures !Fails(length, k, bad)
    decreases end - first
  {
    if first < k {
      GoodAt(length, first + 1, end, bad, k);
    }
  }

  // A transfer is done exactly when none of its sectors reports an error
  lemma DoneIsGood(length: nat, first: nat, end: nat, bad: set<nat>, r: Status, used: nat)
    requires Outcome(length, first, end, bad, r, used)
    ensures r == Done <==> Good(length, first, end, bad)
  {
    if r == Error && Good(length, first, end, bad) {
      GoodAt(length, first, end, bad, first + used - 1);
    }
  }

  // The number of sectors that a command with a 16-bit sector count transfers; zero stands for 65536
  function CommandSectors(count: nat): nat {
    if count % 0x1_0000 == 0 then 0x1_0000 else count % 0x1_0000
  }

  // A transfer that is done has waited for one interrupt per sector of its command exactly when the
  // request touches any sector; for an empty aligned request the command is for 65536 sectors
  lemma InterruptsExactly(length: nat, pos: nat, size: nat, bad: set<nat>, used: nat)
    requires Outcome(length, LowerDiv(pos), LowerDiv(pos) + Interrupts(pos, size), bad, Done, used)
    requires Sectors(pos, size) < 0x1_0000
    ensures used == CommandSectors(Sectors(pos, size)) <==> size > 0 || pos % SECTOR_SIZE != 0
  {
    assert size > 0 || pos % SECTOR_SIZE != 0 ==> Sectors(pos, size) > 0;
  }

  // ----- bytes -----

  // Two adjacent patches are one
  lemma PatchPatch(s: seq<Byte>, at: nat, a: seq<Byte>, b: seq<Byte>)
    requires at + |a| + |b| <= |s|
    ensures Patch(Patch(s, at, a), at + |a|, b) == Patch(s, at, a + b)
  {
  }

  lemma SliceOfSlice(s: seq<Byte>, a: nat, b: nat, c: nat, d: nat)
    requires a <= b <= |s| && c <= d <= b - a
    ensures s[a..b][c..d] == s[a + c..a + d]
  {
    forall i | 0 <= i < d - c ensures s[a..b][c..d][i] == s[a + c..a + d][i] {
      assert s[a..b][c + i] == s[a + (c + i)];
    }
  }

  // At most a sector
  function Least(n: nat): nat {
    if n > SECTOR_SIZE then SECTOR_SIZE else n
  }

  // ----- reading -----

  // The part of the sector at the request's position that the request wants
  function Wanted(q: Request): (c: nat)
    ensures c <= q.size && q.position % SECTOR_SIZE + c <= SECTOR_SIZE
    ensures c == q.size || q.position + c == (LowerDiv(q.position) + 1) * SECTOR_SIZE
  {
    var offset := q.position % SECTOR_SIZE;
    if SECTOR_SIZE - offset < q.size then SECTOR_SIZE - offset else q.size
  }

  // The request after a good interrupt
  function Advanced(q: Request): Request {
    var c := Wanted(q);
    Request(q.position + c, q.size - c, q.buffer + c, q.next + 1)
  }

  predicate Readable(mem: seq<Byte>, q: Request) {
    q.buffer + q.size <= |mem| && q.next == LowerDiv(q.position)
  }

  lemma WantedExists(disk: seq<Byte>, q: Request, bad: set<nat>)
    requires q.next == LowerDiv(q.position) && !Fails(|disk|, q.next, bad)
    ensures q.position + Wanted(q) <= |disk|
  {
  }

  function Fetch(disk: seq<Byte>, mem: seq<Byte>, q: Request, bad: set<nat>): (r: seq<Byte>)
    requires Readable(mem, q) && !Fails(|disk|, q.next, bad)
    ensures |r| == |mem|
  {
    WantedExists(disk, q, bad);
    Patch(mem, q.buffer, disk[q.position..q.position + Wanted(q)])
  }

  // The interrupt loop of a read: memory, status and number of interrupts
  function ReadRun(disk: seq<Byte>, mem: seq<Byte>, q: Request, bad: set<nat>): (seq<Byte>, Status, nat)
    requires Readable(mem, q)
    decreases q.size
  {
    if Fails(|disk|, q.next, bad) then (mem, Error, 1)
    else
      var m, q1 := Fetch(disk, mem, q, bad), Advanced(q);
      if q1.size == 0 then (m, Done, 1)
      else
        var rest := ReadRun(disk, m, q1, bad);
        (rest.0, rest.1, rest.2 + 1)
  }

  // The byte that a read has got to
  function Reached(pos: nat, size: nat, r: Status, used: nat): nat {
    if r == Done then pos + size
    else if used <= 1 then pos
    else (LowerDiv(pos) + used - 1) * SECTOR_SIZE
  }

  // Memory after disk bytes p to q were copied to buf; nothing is copied from behind the disk
  function Copied(mem: seq<Byte>, buf: nat, disk: seq<Byte>, p: nat, q: nat): (r: seq<Byte>)
    ensures |r| == |mem|
  {
    if p < q <= |disk| && buf + (q - p) <= |mem| then Patch(mem, buf, disk[p..q]) else mem
  }

  lemma CopiedOn(mem: seq<Byte>, buf: nat, disk: seq<Byte>, p: nat, q: nat, r: nat)
    requires p <= q <= r && buf + (r - p) <= |mem| && (p < r ==> r <= |disk|)
    ensures Copied(Copied(mem, buf, disk, p, q), buf + (q - p), disk, q, r) == Copied(mem, buf, disk, p, r)
  {
    if p < q < r {
      PatchPatch(mem, buf, disk[p..q], disk[q..r]);
      assert disk[p..q] + disk[q..r] == disk[p..r];
    }
  }

  lemma FetchCopies(disk: seq<Byte>, mem: seq<Byte>, q: Request, bad: set<nat>)
    requires Readable(mem, q) && !Fails(|disk|, q.next, bad)
    ensures Fetch(disk, mem, q, bad) == Copied(mem, q.buffer, disk, q.position, Advanced(q).position)
  {
    WantedExists(disk, q, bad);
    if Wanted(q) == 0 {
      assert Patch(mem, q.buffer, []) == mem;
      assert disk[q.position..q.position] == [];
    }
  }

  // One more good interrupt in front
  lemma OutcomeCons(length: nat, first: nat, end: nat, bad: set<nat>, r: Status, used: nat)
    requires !Fails(length, first, bad) && Outcome(length, first + 1, end, bad, r, used)
    ensures Outcome(length, first, end, bad, r, used + 1)
  {
  }

  lemma ReachedCons(q: Request, r: Status, used: nat)
    requires q.next == LowerDiv(q.position) && Advanced(q).size > 0 && used > 0 && r != Undone
    ensures var q1 := Advanced(q);
            && q1.position == q1.next * SECTOR_SIZE && q1.next == LowerDiv(q1.position)
            && Reached(q1.position, q1.size, r, used) == Reached(q.position, q.size, r, used + 1)
            && Reached(q1.position, q1.size, r, used) >= q1.position
  {
  }

  // A read gets one interrupt per sector, up to the first bad one
  lemma {:induction false} ReadRunOutcome(disk: seq<Byte>, mem: seq<Byte>, q: Request, bad: set<nat>, end: nat)
    requires Readable(mem, q) && Covers(q.next, end, q.position + q.size)
    ensures var (_, r, used) := ReadRun(disk, mem, q, bad);
            Outcome(|disk|, q.next, end, bad, r, used)
    decreases q.size
  {
    if !Fails(|disk|, q.next, bad) {
      var m, q1 := Fetch(disk, mem, q, bad), Advanced(q);
      if q1.size == 0 {
        assert Good(|disk|, q.next, end, bad);
      } else {
        ReachedCons(q, Done, 1);
        ReadRunOutcome(disk, m, q1, bad, end);
        var (_, r, used) := ReadRun(disk, m, q1, bad);
        OutcomeCons(|disk|, q.next, end, bad, r, used);
      }
    }
  }

  // What was read lies on the disk and within the request
  predicate ReadTo(length: nat, q: Request, r: Status, used: nat) {
    var e := Reached(q.position, q.size, r, used);
    && (r == Done || r == Error) && used > 0
    && q.position <= e <= q.position + q.size && (e > q.position ==> e <= length)
  }

  lemma {:induction false} ReadRunTo(disk: seq<Byte>, mem: seq<Byte>, q: Request, bad: set<nat>)
    requires Readable(mem, q)
    ensures var (_, r, used) := ReadRun(disk, mem, q, bad); ReadTo(|disk|, q, r, used)
    decreases q.size
  {
    if !Fails(|disk|, q.next, bad) {
      WantedExists(disk, q, bad);
      var m, q1 := Fetch(disk, mem, q, bad), Advanced(q);
      if q1.size > 0 {
        ReachedCons(q, Done, 1);
        ReadRunTo(disk, m, q1, bad);
        var (_, r, used) := ReadRun(disk, m, q1, bad);
        ReachedCons(q, r, used);
      }
    }
  }

  // It copies the slice of the disk
  lemma {:induction false} ReadRunCopies(disk: seq<Byte>, mem: seq<Byte>, q: Request, bad: set<nat>)
    requires Readable(mem, q)
    ensures var (m, r, used) := ReadRun(disk, mem, q, bad);
            m == Copied(mem, q.buffer, disk, q.position, Reached(q.position, q.size, r, used))
    decreases q.size
  {
    if !Fails(|disk|, q.next, bad) {
      FetchCopies(disk, mem, q, bad);
      var m, q1 := Fetch(disk, mem, q, bad), Advanced(q);
      if q1.size > 0 {
        ReachedCons(q, Done, 1);
        ReadRunCopies(disk, m, q1, bad);
        var e := RestReached(disk, mem, q, bad);
        CopiedAfter(disk, mem, q, bad, e);
      }
    }
  }

  // How far the rest of a read gets is how far the whole read gets
  lemma RestReached(disk: seq<Byte>, mem: seq<Byte>, q: Request, bad: set<nat>) returns (e: nat)
    requires Readable(mem, q) && !Fails(|disk|, q.next, bad) && Advanced(q).size > 0
    requires Readable(Fetch(disk, mem, q, bad), Advanced(q))
    ensures var q1 := Advanced(q);
            var (_, r, used) := ReadRun(disk, Fetch(disk, mem, q, bad), q1, bad);
            && e == Reached(q1.position, q1.size, r, used) == Reached(q.position, q.size, r, used + 1)
            && q1.position <= e <= q.position + q.size && (e > q1.position ==> e <= |disk|)
  {
    var m, q1 := Fetch(disk, mem, q, bad), Advanced(q);
    var (_, r, used) := ReadRun(disk, m, q1, bad);
    e := Reached(q1.position, q1.size, r, used);
    ReadRunTo(disk, m, q1, bad);
    ReachedCons(q, r, used);
  }

  lemma CopiedAfter(disk: seq<Byte>, mem: seq<Byte>, q: Request, bad: set<nat>, e: nat)
    requires Readable(mem, q) && !Fails(|disk|, q.next, bad)
    requires Advanced(q).position <= e <= q.position + q.size && (e > Advanced(q).position ==> e <= |disk|)
    ensures Copied(Fetch(disk, mem, q, bad), Advanced(q).buffer, disk, Advanced(q).position, e)
         == Copied(mem, q.buffer, disk, q.position, e)
  {
    FetchCopies(disk, mem, q, bad);
    WantedExists(disk, q, bad);
    CopiedOn(mem, q.buffer, disk, q.position, Advanced(q).position, e);
  }

  // A read of existing good sectors fills the whole buffer with the disk's bytes
  lemma DoneReadsAll(mem: seq<Byte>, buf: nat, disk: seq<Byte>, pos: nat, size: nat, bad: set<nat>,
                     r: Status, used: nat)
    requires Outcome(|disk|, LowerDiv(pos), LowerDiv(pos) + Interrupts(pos, size), bad, r, used)
    requires buf + size <= |mem| && pos + size <= LowerDiv(|disk|) * SECTOR_SIZE
    requires forall j :: LowerDiv(pos) <= j < LowerDiv(pos) + Interrupts(pos, size) ==> j !in bad
    requires size > 0
    ensures r == Done && used == Sectors(pos, size)
    ensures Copied(mem, buf, disk, pos, Reached(pos, size, r, used)) == Patch(mem, buf, disk[pos..pos + size])
  {
    InterruptsCover(pos, size);
    var k := LowerDiv(pos) + used - 1;
    assert (k + 1) * SECTOR_SIZE <= |disk|;
  }

  // ----- writing -----

  // The next sector of a write with rest bytes to go, padded with zeros
  function Sector(mem: seq<Byte>, at: nat, rest: nat): (r: seq<Byte>)
    requires at + rest <= |mem|
    ensures |r| == SECTOR_SIZE && r[..Least(rest)] == mem[at..at + Least(rest)]
  {
    mem[at..at + Least(rest)] + seq(SECTOR_SIZE - Least(rest), _ => 0)
  }

  // The device takes one sector, if it exists
  function Put(disk: seq<Byte>, sector: nat, b: seq<Byte>): (r: seq<Byte>)
    requires |b| == SECTOR_SIZE
    ensures |r| == |disk|
  {
    if (sector + 1) * SECTOR_SIZE <= |disk| then Patch(disk, sector * SECTOR_SIZE, b) else disk
  }

  // The interrupt loop of a write, the sector before next having been sent: disk, status, interrupts
  function WriteRun(disk: seq<Byte>, mem: seq<Byte>, q: Request, bad: set<nat>): (seq<Byte>, Status, nat)
    requires q.buffer + q.size <= |mem| && q.next > 0
    decreases q.size
  {
    if Fails(|disk|, q.next - 1, bad) then (disk, Error, 1)
    else if q.size <= SECTOR_SIZE then (disk, Done, 1)
    else
      var q1 := Fed(q);
      var rest := WriteRun(Put(disk, q.next, Sector(mem, q1.buffer, q1.size)), mem, q1, bad);
      (rest.0, rest.1, rest.2 + 1)
  }

  function Fed(q: Request): Request
    requires q.size > SECTOR_SIZE
  {
    q.(size := q.size - SECTOR_SIZE, buffer := q.buffer + SECTOR_SIZE, next := q.next + 1)
  }

  // The disk after at most n more sectors of a write with rest bytes to go
  function Stored(disk: seq<Byte>, sector: nat, mem: seq<Byte>, at: nat, rest: nat, n: nat): (r: seq<Byte>)
    requires at + rest <= |mem|
    ensures |r| == |disk|
    decreases n
  {
    if n == 0 || rest == 0 then disk
    else Stored(Put(disk, sector, Sector(mem, at, rest)), sector + 1, mem, at + Least(rest), rest - Least(rest), n - 1)
  }

  // A write gets one interrupt per sector, up to the first bad one
  lemma {:induction false} WriteRunOutcome(disk: seq<Byte>, mem: seq<Byte>, q: Request, bad: set<nat>, n: nat)
    requires q.buffer + q.size <= |mem| && q.next > 0 && Covers(0, n, q.size)
    ensures var (_, r, used) := WriteRun(disk, mem, q, bad);
            Outcome(|disk|, q.next - 1, q.next - 1 + n, bad, r, used)
    decreases q.size
  {
    if !Fails(|disk|, q.next - 1, bad) {
      if q.size <= SECTOR_SIZE {
        assert Good(|disk|, q.next - 1, q.next - 1 + n, bad);
      } else {
        var q1 := Fed(q);
        var d := Put(disk, q.next, Sector(mem, q1.buffer, q1.size));
        WriteRunOutcome(d, mem, q1, bad, n - 1);
        var (_, r, used) := WriteRun(d, mem, q1, bad);
        OutcomeCons(|disk|, q.next - 1, q.next - 1 + n, bad, r, used);
      }
    }
  }

  // e is the disk after used interrupts of a write whose first sector is on the disk
  predicate Sends(disk: seq<Byte>, mem: seq<Byte>, q: Request, e: seq<Byte>, used: nat)
    requires q.buffer + q.size <= |mem|
  {
    && used > 0
    && if q.size <= SECTOR_SIZE then e == disk
       else e == Stored(disk, q.next, mem, q.buffer + SECTOR_SIZE, q.size - SECTOR_SIZE, used - 1)
  }

  // It sends the padded sectors in order
  lemma {:induction false} WriteRunStores(disk: seq<Byte>, mem: seq<Byte>, q: Request, bad: set<nat>)
    requires q.buffer + q.size <= |mem| && q.next > 0
    ensures var (e, _, used) := WriteRun(disk, mem, q, bad); Sends(disk, mem, q, e, used)
    decreases q.size
  {
    if !Fails(|disk|, q.next - 1, bad) && q.size > SECTOR_SIZE {
      var q1 := Fed(q);
      var d := Put(disk, q.next, Sector(mem, q1.buffer, q1.size));
      WriteRunStores(d, mem, q1, bad);
      WriteRunStep(disk, mem, q, bad, d);
      var (e, _, used) := WriteRun(d, mem, q1, bad);
      SendsMore(disk, mem, q, d, e, used);
    }
  }

  lemma SendsMore(disk: seq<Byte>, mem: seq<Byte>, q: Request, d: seq<Byte>, e: seq<Byte>, used: nat)
    requires q.buffer + q.size <= |mem| && q.size > SECTOR_SIZE && Sends(d, mem, Fed(q), e, used)
    requires d == Put(disk, q.next, Sector(mem, Fed(q).buffer, Fed(q).size))
    ensures Sends(disk, mem, q, e, used + 1)
  {
    StoredStep(disk, q.next, mem, Fed(q).buffer, Fed(q).size, d, used);
  }

  lemma WriteRunStep(disk: seq<Byte>, mem: seq<Byte>, q: Request, bad: set<nat>, d: seq<Byte>)
    requires q.buffer + q.size <= |mem| && q.next > 0 && !Fails(|disk|, q.next - 1, bad) && q.size > SECTOR_SIZE
    requires d == Put(disk, q.next, Sector(mem, Fed(q).buffer, Fed(q).size))
    ensures var rest := WriteRun(d, mem, Fed(q), bad); WriteRun(disk, mem, q, bad) == (rest.0, rest.1, rest.2 + 1)
  {
  }

  lemma StoredStep(disk: seq<Byte>, sector: nat, mem: seq<Byte>, at: nat, rest: nat, d: seq<Byte>, n: nat)
    requires at + rest <= |mem| && rest > 0 && n > 0 && d == Put(disk, sector, Sector(mem, at, rest))
    ensures Stored(disk, sector, mem, at, rest, n)
            == if rest <= SECTOR_SIZE then d
               else Stored(d, sector + 1, mem, at + SECTOR_SIZE, rest - SECTOR_SIZE, n - 1)
  {
  }

  // The padded bytes of a write
  function Written(mem: seq<Byte>, at: nat, rest: nat): (r: seq<Byte>)
    requires at + rest <= |mem|
    ensures |r| == UpperDiv(rest) * SECTOR_SIZE
    decreases rest
  {
    if rest == 0 then [] else Sector(mem, at, rest) + Written(mem, at + Least(rest), rest - Least(rest))
  }

  lemma WrittenCovers(rest: nat)
    ensures rest <= UpperDiv(rest) * SECTOR_SIZE
  {
  }

  lemma {:induction false} WrittenIsBuffer(mem: seq<Byte>, at: nat, rest: nat)
    requires at + rest <= |mem|
    ensures Written(mem, at, rest)[..rest] == mem[at..at + rest]
    decreases rest
  {
    if rest > 0 {
      var c := Least(rest);
      WrittenIsBuffer(mem, at + c, rest - c);
      WrittenCovers(rest - c);
      Joined(mem, at, Sector(mem, at, rest), Written(mem, at + c, rest - c), c, rest);
    }
  }

  lemma Joined(mem: seq<Byte>, at: nat, head: seq<Byte>, tail: seq<Byte>, c: nat, rest: nat)
    requires at + rest <= |mem| && c <= rest && c <= |head| && rest - c <= |tail|
    requires c == |head| || c == rest
    requires head[..c] == mem[at..at + c] && tail[..rest - c] == mem[at + c..at + rest]
    ensures (head + tail)[..rest] == mem[at..at + rest]
  {
    assert (head + tail)[..rest] == head[..c] + tail[..rest - c];
  }

  // All sectors together are one patch
  lemma {:induction false} StoredIsPatch(disk: seq<Byte>, sector: nat, mem: seq<Byte>, at: nat, rest: nat, n: nat)
    requires at + rest <= |mem| && UpperDiv(rest) <= n
    requires (sector + UpperDiv(rest)) * SECTOR_SIZE <= |disk|
    ensures Stored(disk, sector, mem, at, rest, n) == Patch(disk, sector * SECTOR_SIZE, Written(mem, at, rest))
    decreases n
  {
    if rest == 0 {
      assert Patch(disk, sector * SECTOR_SIZE, []) == disk;
    } else {
      var c, b := Least(rest), Sector(mem, at, rest);
      SectorsLeft(sector, rest, |disk|);
      StoredIsPatch(Put(disk, sector, b), sector + 1, mem, at + c, rest - c, n - 1);
      PutThenPatch(disk, sector, b, Written(mem, at + c, rest - c));
    }
  }

  // One sector less
  lemma SectorsLeft(sector: nat, rest: nat, length: nat)
    requires rest > 0 && (sector + UpperDiv(rest)) * SECTOR_SIZE <= length
    ensures UpperDiv(rest - Least(rest)) == UpperDiv(rest) - 1
    ensures (sector + 1 + UpperDiv(rest - Least(rest))) * SECTOR_SIZE <= length
  {
  }

  lemma PutThenPatch(disk: seq<Byte>, sector: nat, b: seq<Byte>, w: seq<Byte>)
    requires |b| == SECTOR_SIZE && (sector + 1) * SECTOR_SIZE + |w| <= |disk|
    ensures Patch(Put(disk, sector, b), (sector + 1) * SECTOR_SIZE, w) == Patch(disk, sector * SECTOR_SIZE, b + w)
  {
    PatchPatch(disk, sector * SECTOR_SIZE, b, w);
  }

  // Everything that a write of size bytes puts on the disk: the first sector straight from memory,
  // whatever follows the buffer included, the others padded
  function Image(mem: seq<Byte>, buf: nat, size: nat): (r: seq<Byte>)
    requires buf + SECTOR_SIZE <= |mem| && buf + size <= |mem| && size > 0
    ensures |r| == UpperDiv(size) * SECTOR_SIZE
  {
    mem[buf..buf + SECTOR_SIZE] +
    (if size > SECTOR_SIZE then Written(mem, buf + SECTOR_SIZE, size - SECTOR_SIZE) else [])
  }

  // The disk after the first n sectors of a write
  function AfterWrite(disk: seq<Byte>, first: nat, mem: seq<Byte>, buf: nat, size: nat, n: nat): (r: seq<Byte>)
    requires buf + SECTOR_SIZE <= |mem| && buf + size <= |mem|
    ensures |r| == |disk|
  {
    AfterFirst(Put(disk, first, mem[buf..buf + SECTOR_SIZE]), first, mem, buf, size, n)
  }

  // ... when its first sector is on disk d
  function AfterFirst(d: seq<Byte>, first: nat, mem: seq<Byte>, buf: nat, size: nat, n: nat): (r: seq<Byte>)
    requires buf + size <= |mem|
    ensures |r| == |d|
  {
    if size <= SECTOR_SIZE || n == 0 then d
    else Stored(d, first + 1, mem, buf + SECTOR_SIZE, size - SECTOR_SIZE, n - 1)
  }

  // The request of a write once its first sector has been sent, and the disk then
  function Begun(pos: nat, size: nat, buf: nat): Request {
    Request(pos, size, buf, LowerDiv(pos) + 1)
  }

  function BegunDisk(disk: seq<Byte>, mem: seq<Byte>, pos: nat, buf: nat): (r: seq<Byte>)
    requires buf + SECTOR_SIZE <= |mem|
    ensures |r| == |disk|
  {
    Put(disk, LowerDiv(pos), mem[buf..buf + SECTOR_SIZE])
  }

  // The whole write: its outcome
  lemma WriteAllOutcome(disk: seq<Byte>, mem: seq<Byte>, pos: nat, buf: nat, size: nat, bad: set<nat>)
    requires buf + SECTOR_SIZE <= |mem| && buf + size <= |mem| && pos % SECTOR_SIZE == 0
    ensures var (_, r, used) := WriteRun(BegunDisk(disk, mem, pos, buf), mem, Begun(pos, size, buf), bad);
            Outcome(|disk|, LowerDiv(pos), LowerDiv(pos) + Interrupts(pos, size), bad, r, used)
  {
    AlignedInterrupts(pos, size);
    WriteRunOutcome(BegunDisk(disk, mem, pos, buf), mem, Begun(pos, size, buf), bad, Interrupts(pos, size));
  }

  // ... and the disk that it leaves
  lemma WriteAllStores(disk: seq<Byte>, mem: seq<Byte>, pos: nat, buf: nat, size: nat, bad: set<nat>)
    requires buf + SECTOR_SIZE <= |mem| && buf + size <= |mem|
    ensures var (d, _, used) := WriteRun(BegunDisk(disk, mem, pos, buf), mem, Begun(pos, size, buf), bad);
            d == AfterWrite(disk, LowerDiv(pos), mem, buf, size, used)
  {
    RestStored(BegunDisk(disk, mem, pos, buf), mem, LowerDiv(pos), Begun(pos, size, buf), bad);
  }

  lemma RestStored(d: seq<Byte>, mem: seq<Byte>, first: nat, q: Request, bad: set<nat>)
    requires q.buffer + q.size <= |mem| && q.next == first + 1
    ensures var (e, _, used) := WriteRun(d, mem, q, bad); e == AfterFirst(d, first, mem, q.buffer, q.size, used)
  {
    WriteRunStores(d, mem, q, bad);
  }

  // The status and the number of interrupts of an empty read or write at the start of a good sector:
  // done after one, though its command was for 65536 sectors
  lemma EmptyRequest(disk: seq<Byte>, mem: seq<Byte>, pos: nat, buf: nat, bad: set<nat>)
    requires pos % SECTOR_SIZE == 0 && buf + SECTOR_SIZE <= |mem| && !Fails(|disk|, LowerDiv(pos), bad)
    ensures CommandSectors(Sectors(pos, 0)) == 0x1_0000
    ensures ReadRun(disk, mem, Request(pos, 0, buf, LowerDiv(pos)), bad) == (mem, Done, 1)
    ensures var d := BegunDisk(disk, mem, pos, buf); WriteRun(d, mem, Begun(pos, 0, buf), bad) == (d, Done, 1)
  {
    assert mem[..buf] + disk[pos..pos] + mem[buf..] == mem;
  }

  lemma AlignedInterrupts(pos: nat, size: nat)
    requires pos % SECTOR_SIZE == 0
    ensures Covers(0, Interrupts(pos, size), size)
  {
  }

  lemma AfterWriteIsPatch(disk: seq<Byte>, first: nat, mem: seq<Byte>, buf: nat, size: nat)
    requires buf + SECTOR_SIZE <= |mem| && buf + size <= |mem| && size > 0
    requires (first + UpperDiv(size)) * SECTOR_SIZE <= |disk|
    ensures AfterWrite(disk, first, mem, buf, size, UpperDiv(size))
            == Patch(disk, first * SECTOR_SIZE, Image(mem, buf, size))
  {
    var head := mem[buf..buf + SECTOR_SIZE];
    if size > SECTOR_SIZE {
      SectorsLeft(first, size, |disk|);
      StoredIsPatch(Put(disk, first, head), first + 1, mem, buf + SECTOR_SIZE, size - SECTOR_SIZE, UpperDiv(size) - 1);
      PutThenPatch(disk, first, head, Written(mem, buf + SECTOR_SIZE, size - SECTOR_SIZE));
    } else {
      assert head + [] == head;
    }
  }

  lemma {:induction false} WrittenPads(mem: seq<Byte>, at: nat, rest: nat, i: nat)
    requires at + rest <= |mem| && rest <= i < |Written(mem, at, rest)|
    ensures Written(mem, at, rest)[i] == 0
    decreases rest
  {
    var c := Least(rest);
    if i >= SECTOR_SIZE {
      WrittenPads(mem, at + c, rest - c, i - SECTOR_SIZE);
    }
  }

  // Behind the buffer's bytes come zeros, but in a first sector that the buffer does not fill, what
  // follows the buffer in memory
  lemma ImagePads(mem: seq<Byte>, buf: nat, size: nat, i: nat)
    requires buf + SECTOR_SIZE <= |mem| && buf + size <= |mem| && size > 0 && size <= i < |Image(mem, buf, size)|
    ensures Image(mem, buf, size)[i] == if i < SECTOR_SIZE then mem[buf + i] else 0
  {
    if size > SECTOR_SIZE {
      WrittenPads(mem, buf + SECTOR_SIZE, size - SECTOR_SIZE, i - SECTOR_SIZE);
    }
  }

  lemma ImageIsBuffer(mem: seq<Byte>, buf: nat, size: nat)
    requires buf + SECTOR_SIZE <= |mem| && buf + size <= |mem| && size > 0
    ensures Image(mem, buf, size)[..size] == mem[buf..buf + size]
  {
    var head := mem[buf..buf + SECTOR_SIZE];
    if size > SECTOR_SIZE {
      var tail := Written(mem, buf + SECTOR_SIZE, size - SECTOR_SIZE);
      WrittenIsBuffer(mem, buf + SECTOR_SIZE, size - SECTOR_SIZE);
      assert head[..SECTOR_SIZE] == head;
      Joined(mem, buf, head, tail, SECTOR_SIZE, size);
    } else {
      SliceOfSlice(mem, buf, buf + SECTOR_SIZE, 0, size);
      assert (head + [])[..size] == head[..size];
    }
  }

  // Reading back what was written gives the buffer
  lemma WriteThenRead(disk: seq<Byte>, first: nat, mem: seq<Byte>, buf: nat, size: nat)
    requires buf + SECTOR_SIZE <= |mem| && buf + size <= |mem| && size > 0
    requires (first + UpperDiv(size)) * SECTOR_SIZE <= |disk|
    ensures var pos := first * SECTOR_SIZE;
            AfterWrite(disk, first, mem, buf, size, UpperDiv(size))[pos..pos + size] == mem[buf..buf + size]
  {
    AfterWriteIsPatch(disk, first, mem, buf, size);
    ImageIsBuffer(mem, buf, size);
    var w, pos := Image(mem, buf, size), first * SECTOR_SIZE;
    assert Patch(disk, pos, w)[pos..pos + size] == w[..size];
  }

  // An empty write sends a sector all the same
  lemma EmptyWrite(disk: seq<Byte>, first: nat, mem: seq<Byte>, buf: nat)
    requires buf + SECTOR_SIZE <= |mem| && (first + 1) * SECTOR_SIZE <= |disk|
    ensures AfterWrite(disk, first, mem, buf, 0, 1) == Patch(disk, first * SECTOR_SIZE, mem[buf..buf + SECTOR_SIZE])
  {
  }

  // The disk has all the sectors that a write sends
  predicate HasRoom(disk: seq<Byte>, first: nat, size: nat) {
    (first + Interrupts(0, size)) * SECTOR_SIZE <= |disk|
  }

  ghost predicate KeepsRest(disk: seq<Byte>, first: nat, mem: seq<Byte>, buf: nat, size: nat)
    requires buf + SECTOR_SIZE <= |mem| && buf + size <= |mem| && HasRoom(disk, first, size)
  {
    var pos := first * SECTOR_SIZE;
    var d := AfterWrite(disk, first, mem, buf, size, Interrupts(0, size));
    pos + size <= |disk| && d[..pos] == disk[..pos] && d[pos + size..] == disk[pos + size..]
  }

  // A write leaves the rest of every disk alone exactly when it is a positive whole number of sectors
  lemma WriteKeepsRestExactly(first: nat, mem: seq<Byte>, buf: nat, size: nat)
    requires buf + SECTOR_SIZE <= |mem| && buf + size <= |mem|
    ensures (forall disk: seq<Byte> :: HasRoom(disk, first, size) ==> KeepsRest(disk, first, mem, buf, size))
            <==> size > 0 && size % SECTOR_SIZE == 0
  {
    if size > 0 && size % SECTOR_SIZE == 0 {
      forall disk: seq<Byte> | HasRoom(disk, first, size) ensures KeepsRest(disk, first, mem, buf, size) {
        AfterWriteIsPatch(disk, first, mem, buf, size);
      }
    } else {
      var disk := PaddingShows(first, mem, buf, size);
    }
  }

  // A disk on which the end of the last sector is lost
  lemma PaddingShows(first: nat, mem: seq<Byte>, buf: nat, size: nat) returns (disk: seq<Byte>)
    requires buf + SECTOR_SIZE <= |mem| && buf + size <= |mem| && (size == 0 || size % SECTOR_SIZE > 0)
    ensures HasRoom(disk, first, size) && !KeepsRest(disk, first, mem, buf, size)
  {
    var w := if size == 0 then mem[buf..buf + SECTOR_SIZE] else Image(mem, buf, size);
    var other: Byte := if w[size] == 0 then 1 else 0;
    disk := seq((first + Interrupts(0, size)) * SECTOR_SIZE, _ => other);
    PaddedIs(disk, first, mem, buf, size, w);
    PatchShows(disk, first * SECTOR_SIZE, w, size);
  }

  lemma PatchShows(s: seq<Byte>, at: nat, b: seq<Byte>, i: nat)
    requires at + |b| <= |s| && i < |b| && b[i] != s[at + i]
    ensures Patch(s, at, b)[at + i..] != s[at + i..]
  {
    assert Patch(s, at, b)[at + i..][0] == b[i];
  }

  lemma PaddedIs(disk: seq<Byte>, first: nat, mem: seq<Byte>, buf: nat, size: nat, w: seq<Byte>)
    requires buf + SECTOR_SIZE <= |mem| && buf + size <= |mem| && HasRoom(disk, first, size)
    requires w == if size == 0 then mem[buf..buf + SECTOR_SIZE] else Image(mem, buf, size)
    ensures first * SECTOR_SIZE + |w| <= |disk|
    ensures AfterWrite(disk, first, mem, buf, size, Interrupts(0, size)) == Patch(disk, first * SECTOR_SIZE, w)
  {
    if size == 0 {
      EmptyWrite(disk, first, mem, buf);
    } else {
      AfterWriteIsPatch(disk, first, mem, buf, size);
    }
  }
}
