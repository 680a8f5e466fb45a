/**
 Lists of memory blocks: the coalesced form that the user heap keeps its free list in, and the
 insertion that keeps it. A coalesced list is determined by the bytes it covers.
 */
module HeapBlocks {

  datatype Block = Block(ptr: nat, size: nat) {
    function End(): nat { ptr + size }
  }

  predicate Within(b: Block, x: nat) {
    b.ptr <= x < b.End()
  }

  // x is a byte of one of the blocks
  ghost predicate Covers(s: seq<Block>, x: nat) {
    exists i :: 0 <= i < |s| && Within(s[i], x)
  }

  predicate Separate(b: Block, c: Block) {
    b.End() <= c.ptr || c.End() <= b.ptr
  }

  // In address order, no block empty, and a gap between any two
  predicate Coalesced(s: seq<Block>) {
    && (forall i :: 0 <= i < |s| ==> s[i].size > 0)
    && (forall i, j :: 0 <= i < j < |s| ==> s[i].End() < s[j].ptr)
  }

  predicate Clear(s: seq<Block>, b: Block) {
    forall i :: 0 <= i < |s| ==> Separate(s[i], b)
  }

  // merge_free: put a block where it belongs, joining the neighbours it touches
  function Merged(s: seq<Block>, b: Block): seq<Block>
    decreases |s|
  {
    if s == [] then [b]
    else if s[0].End() == b.ptr then Merged(s[1..], Block(s[0].ptr, b.size + s[0].size))
    else if b.End() == s[0].ptr then Merged(s[1..], Block(b.ptr, b.size + s[0].size))
    else if s[0].ptr > b.ptr then [b] + s
    else [s[0]] + Merged(s[1..], b)
  }

  lemma CoversCons(b: Block, s: seq<Block>, x: nat)
    ensures Covers([b] + s, x) <==> Within(b, x) || Covers(s, x)
  {
    var t := [b] + s;
    if Within(b, x) {
      assert Within(t[0], x);
    }
    if Covers(s, x) {
      var i :| 0 <= i < |s| && Within(s[i], x);
      assert Within(t[i + 1], x);
    }
    if Covers(t, x) {
      var i :| 0 <= i < |t| && Within(t[i], x);
      assert i > 0 ==> Within(s[i - 1], x);
    }
  }

  // The first block of a list and the rest
  lemma CoversSplit(s: seq<Block>, x: nat)
    requires s != []
    ensures Covers(s, x) <==> Within(s[0], x) || Covers(s[1..], x)
  {
    assert s == [s[0]] + s[1..];
    CoversCons(s[0], s[1..], x);
  }

  lemma ConsCoalesced(b: Block, s: seq<Block>)
    requires Coalesced(s) && b.size > 0 && (s != [] ==> b.End() < s[0].ptr)
    ensures Coalesced([b] + s)
  {
  }

  // A block joined with the first one of the list stays clear of the rest
  lemma JoinClear(s: seq<Block>, b: Block)
    requires Coalesced(s) && s != [] && b.size > 0 && Clear(s, b)
    ensures Coalesced(s[1..]) && Clear(s[1..], b)
    ensures s[0].End() == b.ptr ==> Clear(s[1..], Block(s[0].ptr, b.size + s[0].size))
    ensures b.End() == s[0].ptr ==> Clear(s[1..], Block(b.ptr, b.size + s[0].size))
  {
    forall i | 0 <= i < |s[1..]| ensures s[0].End() < s[1..][i].ptr && Separate(s[1..][i], b) {
      assert s[1..][i] == s[i + 1];
    }
  }

  // Merging keeps the coalesced form; the first block starts with b or with the list
  lemma {:induction false} MergedCoalesced(s: seq<Block>, b: Block)
    requires Coalesced(s) && b.size > 0 && Clear(s, b)
    ensures Coalesced(Merged(s, b)) && Merged(s, b) != []
    ensures Merged(s, b)[0].ptr == b.ptr || (s != [] && Merged(s, b)[0].ptr == s[0].ptr)
    decreases |s|
  {
    if s != [] {
      JoinClear(s, b);
      assert Separate(s[0], b);
      if s[0].End() == b.ptr {
        MergedCoalesced(s[1..], Block(s[0].ptr, b.size + s[0].size));
      } else if b.End() == s[0].ptr {
        MergedCoalesced(s[1..], Block(b.ptr, b.size + s[0].size));
      } else if s[0].ptr > b.ptr {
        ConsCoalesced(b, s);
      } else {
        MergedCoalesced(s[1..], b);
        ConsCoalesced(s[0], Merged(s[1..], b));
      }
    }
  }

  lemma {:induction false} MergedCovers(s: seq<Block>, b: Block, x: nat)
    requires Coalesced(s) && b.size > 0 && Clear(s, b)
    ensures Covers(Merged(s, b), x) <==> Covers(s, x) || Within(b, x)
    decreases |s|
  {
    if s == [] {
      CoversCons(b, [], x);
    } else {
      CoversSplit(s, x);
      JoinClear(s, b);
      if s[0].End() == b.ptr {
        MergedCovers(s[1..], Block(s[0].ptr, b.size + s[0].size), x);
      } else if b.End() == s[0].ptr {
        MergedCovers(s[1..], Block(b.ptr, b.size + s[0].size), x);
      } else if s[0].ptr > b.ptr {
        CoversCons(b, s, x);
      } else {
        MergedCovers(s[1..], b, x);
        CoversCons(s[0], Merged(s[1..], b), x);
      }
    }
  }

  // The coalesced form is determined by the bytes
  lemma {:induction false} CoalescedUnique(s: seq<Block>, t: seq<Block>)
    requires Coalesced(s) && Coalesced(t) && forall x: nat :: Covers(s, x) <==> Covers(t, x)
    ensures s == t
    decreases |s|
  {
    if s == [] {
      if t != [] {
        assert Within(t[0], t[0].ptr);
        assert Covers(t, t[0].ptr);
        assert false;
      }
    } else {
      assert Within(s[0], s[0].ptr) && Covers(s, s[0].ptr);
      SameFirst(s, t);
      SameFirst(t, s);
      forall x: nat ensures Covers(s[1..], x) <==> Covers(t[1..], x) {
        TailCovers(s, x);
        TailCovers(t, x);
      }
      CoalescedUnique(s[1..], t[1..]);
    }
  }

  // The tail of a coalesced list covers what lies beyond its first block
  lemma TailCovers(s: seq<Block>, x: nat)
    requires Coalesced(s) && s != []
    ensures Covers(s[1..], x) <==> Covers(s, x) && x >= s[0].End()
  {
    CoversSplit(s, x);
    if Covers(s[1..], x) {
      var i :| 0 <= i < |s[1..]| && Within(s[1..][i], x);
      assert s[0].End() < s[i + 1].ptr;
    }
  }

  // Same bytes: the first block of t starts no later than s's, and if at the same place, ends no later
  lemma SameFirst(s: seq<Block>, t: seq<Block>)
    requires Coalesced(s) && Coalesced(t) && s != [] && (forall x: nat :: Covers(s, x) ==> Covers(t, x))
    requires t != []
    ensures t[0].ptr <= s[0].ptr
    ensures t[0].ptr == s[0].ptr ==> s[0].End() <= t[0].End()
  {
    assert Within(s[0], s[0].ptr) && Covers(s, s[0].ptr);
    var i :| 0 <= i < |t| && Within(t[i], s[0].ptr);
    assert i > 0 ==> t[0].End() < t[i].ptr;
    if t[0].ptr == s[0].ptr && t[0].End() < s[0].End() {
      assert Within(s[0], t[0].End()) && Covers(s, t[0].End());
      assert false;
    }
  }
}
