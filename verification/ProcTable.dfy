/**
 The process table: hash buckets over process ids. Whatever the history of insertions and removals,
 a search of one bucket finds exactly what a plain map from process ids would hold.
 */
module ProcTable {
  import opened LinkedLists

  const PROC_HASH_MAP_SIZE := 256

  datatype Entry = Entry(pid: nat, proc: nat)

  type Buckets = b: seq<seq<Entry>> | |b| == PROC_HASH_MAP_SIZE witness seq(PROC_HASH_MAP_SIZE, _ => [])

  function Bucket(pid: nat): (i: nat)
    ensures i < PROC_HASH_MAP_SIZE
  {
    pid % PROC_HASH_MAP_SIZE
  }

  // The first entry of a bucket with a process id
  function Search(bucket: seq<Entry>, pid: nat): Option<nat> {
    if bucket == [] then None
    else if bucket[0].pid == pid then Some(bucket[0].proc)
    else Search(bucket[1..], pid)
  }

  // A bucket without the first entry with a process id
  function Drop(bucket: seq<Entry>, pid: nat): seq<Entry> {
    if bucket == [] then []
    else if bucket[0].pid == pid then bucket[1..]
    else [bucket[0]] + Drop(bucket[1..], pid)
  }

  // The buckets stand for the map
  ghost predicate Holds(buckets: Buckets, table: map<nat, nat>) {
    && (forall pid: nat ::
          Search(buckets[Bucket(pid)], pid) == if pid in table then Some(table[pid]) else None)
    && (forall i :: 0 <= i < PROC_HASH_MAP_SIZE ==> Once(buckets[i]))
  }

  // No process id twice
  predicate Once(bucket: seq<Entry>) {
    forall i, j :: 0 <= i < j < |bucket| ==> bucket[i].pid != bucket[j].pid
  }

  lemma {:induction false} SearchAppend(bucket: seq<Entry>, e: Entry, pid: nat)
    ensures Search(bucket + [e], pid)
         == if Search(bucket, pid).Some? then Search(bucket, pid) else if e.pid == pid then Some(e.proc) else None
  {
    if bucket == [] {
      assert bucket + [e] == [e] && [e][1..] == [];
    } else {
      assert (bucket + [e])[1..] == bucket[1..] + [e];
      SearchAppend(bucket[1..], e, pid);
    }
  }

  lemma {:induction false} SearchNone(bucket: seq<Entry>, pid: nat)
    ensures Search(bucket, pid).None? <==> forall i :: 0 <= i < |bucket| ==> bucket[i].pid != pid
  {
    if bucket != [] {
      SearchNone(bucket[1..], pid);
      assert forall i :: 1 <= i < |bucket| ==> bucket[i] == bucket[1..][i - 1];
    }
  }

  lemma {:induction false} SearchDrop(bucket: seq<Entry>, gone: nat, pid: nat)
    requires Once(bucket)
    ensures Search(Drop(bucket, gone), pid) == if pid == gone then None else Search(bucket, pid)
    ensures Once(Drop(bucket, gone))
    ensures forall e :: e in Drop(bucket, gone) ==> e in bucket
  {
    if bucket != [] {
      if bucket[0].pid == gone {
        SearchNone(bucket[1..], gone);
      } else {
        SearchDrop(bucket[1..], gone, pid);
        var d := Drop(bucket[1..], gone);
        forall i | 0 <= i < |d| ensures d[i].pid != bucket[0].pid {
          assert d[i] in bucket[1..];
        }
        assert ([bucket[0]] + d)[1..] == d;
      }
    }
  }

  class Table {
    var buckets: Buckets

    constructor ()
      ensures Holds(buckets, map[])
    {
      buckets := seq(PROC_HASH_MAP_SIZE, _ => []);
    }

    // map_proc
    method MapProc(pid: nat, ghost table: map<nat, nat>) returns (r: Option<nat>)
      requires Holds(buckets, table)
      ensures r == if pid in table then Some(table[pid]) else None
    {
      var bucket := buckets[Bucket(pid)];
      var i: nat := 0;
      while i < |bucket|
        invariant i <= |bucket| && Search(bucket, pid) == Search(bucket[i..], pid)
      {
        if bucket[i].pid == pid {
          return Some(bucket[i].proc);
        }
        assert bucket[i..][1..] == bucket[i + 1..];
        i := i + 1;
      }
      return None;
    }

    // hash_proc of a process whose id is not in use
    method HashProc(pid: nat, proc: nat, ghost table: map<nat, nat>)
      requires Holds(buckets, table) && pid != 0 && pid !in table
      modifies this
      ensures Holds(buckets, table[pid := proc])
    {
      var h := Bucket(pid);
      ghost var was := buckets;
      SearchNone(buckets[h], pid);
      buckets := buckets[h := buckets[h] + [Entry(pid, proc)]];
      ghost var more := table[pid := proc];
      forall q: nat ensures Search(buckets[Bucket(q)], q) == if q in more then Some(more[q]) else None {
        SearchAppend(was[h], Entry(pid, proc), q);
      }
    }

    // unmap_proc
    method UnmapProc(pid: nat, ghost table: map<nat, nat>)
      requires Holds(buckets, table)
      modifies this
      ensures Holds(buckets, table - {pid})
    {
      var proc := MapProc(pid, table);
      if proc.None? {
        assert table - {pid} == table;
        return;
      }
      var h := Bucket(pid);
      ghost var was := buckets;
      buckets := buckets[h := Drop(buckets[h], pid)];
      SearchDrop(was[h], pid, pid);
      ghost var fewer := table - {pid};
      forall q: nat ensures Search(buckets[Bucket(q)], q) == if q in fewer then Some(fewer[q]) else None {
        SearchDrop(was[h], pid, q);
        assert q != pid && q in table ==> fewer[q] == table[q];
      }
    }
  }
}
