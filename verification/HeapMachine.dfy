/**
 malloc and free as they run: the global lists are fields that the functions change in place.
 */
module HeapMachine {
  import opened HeapBlocks
  import opened Heap

  class Allocator {
    var free: seq<Block>
    var busy: seq<Block>
    var nodes: nat
    var brk: nat
    ghost var data: seq<Block>

    ghost function View(): State
      reads this
    {
      State(free, busy, nodes, brk, data)
    }

    // __malloc_init on a heap that starts at start
    constructor (start: nat)
      requires start % 8 == 0
      ensures View() == Init(start) && Inv(View())
    {
      brk := start + NODE_INC_SIZE * NODE_SIZE;
      nodes := NODE_INC_SIZE;
      new;
      nodes := nodes - 1;
      var first := Block(brk, EACH_BRK);
      brk := brk + EACH_BRK;
      free, busy, data := [first], [], [first];
      InitInv(start);
    }

    method AllocNode()
      modifies this`nodes, this`brk
      ensures View() == WithNode(old(View()))
    {
      if nodes == 0 {
        brk := brk + NODE_INC_SIZE * NODE_SIZE;
        nodes := NODE_INC_SIZE;
      }
      nodes := nodes - 1;
    }

    // merge_free: walk the free list, joining the neighbours the block touches
    method MergeFree(start: Block)
      modifies this`free, this`nodes
      ensures View() == Release(old(View()), start)
    {
      MergedShort(free, start);
      var node, i := JoinNeighbours(start);
      free := free[..i] + ([node] + free[i..]);
    }

    // The loop of merge_free: the joined block and where it belongs
    method JoinNeighbours(start: Block) returns (node: Block, i: nat)
      modifies this`free, this`nodes
      ensures i <= |free| && free[..i] + ([node] + free[i..]) == Merged(old(free), start)
      ensures nodes + |free| == old(nodes) + |old(free)|
    {
      node, i := start, 0;
      ghost var target := Merged(free, start);
      assert free[..0] + Merged(free[0..], node) == target;
      while i < |free|
        invariant i <= |free|
        invariant free[..i] + Merged(free[i..], node) == target
        invariant nodes + |free| == old(nodes) + |old(free)|
        decreases |free| - i
      {
        var entry := free[i];
        MergedStep(free, i, node);
        if entry.ptr + entry.size == node.ptr {
          node := Block(entry.ptr, node.size + entry.size);
          Unlink(i);
        } else if node.ptr + node.size == entry.ptr {
          node := Block(node.ptr, node.size + entry.size);
          Unlink(i);
        } else if entry.ptr > node.ptr {
          return;
        } else {
          PassEntry(free, i, Merged(free[i + 1..], node));
          i := i + 1;
        }
      }
    }

    // list_del of a free block whose descriptor becomes spare
    method Unlink(i: nat)
      requires i < |free|
      modifies this`free, this`nodes
      ensures |free| == |old(free)| - 1 && nodes == old(nodes) + 1
      ensures free[..i] == old(free[..i]) && free[i..] == old(free[i + 1..])
    {
      free := free[..i] + free[i + 1..];
      nodes := nodes + 1;
    }

    // The first half of malloc: the first block that is large enough, or a new region
    method TakeBlock(size: nat) returns (node: Block)
      modifies this
      ensures (View(), node) == Found(old(View()), size)
    {
      var i: nat := 0;
      while i < |free| && free[i].size < size
        invariant i <= |free|
        invariant FirstFit(free, size) == i + FirstFit(free[i..], size)
      {
        i := i + 1;
      }
      if i == |free| {
        AllocNode();
        node := Block(brk, if size > EACH_BRK then size else EACH_BRK);
        brk := brk + node.size;
        data := data + [node];
      } else {
        node := free[i];
        free := free[..i] + free[i + 1..];
      }
    }

    method Malloc(request: Size) returns (ptr: nat)
      modifies this
      ensures (View(), ptr) == Malloced(old(View()), request)
    {
      var size := (request + 7) % SIZE_T / 8 * 8;
      var node := TakeBlock(size);
      if node.size > size {
        AllocNode();
        MergeFree(Block(node.ptr + size, node.size - size));
        node := Block(node.ptr, size);
      }
      busy := busy + [node];
      ptr := node.ptr;
    }

    method Free(ptr: nat)
      modifies this
      ensures View() == Freed(old(View()), ptr)
    {
      if ptr == 0 {
        return;
      }
      var i: nat := 0;
      while i < |busy| && busy[i].ptr != ptr
        invariant i <= |busy|
        invariant IndexOf(busy, ptr) == i + IndexOf(busy[i..], ptr)
      {
        i := i + 1;
      }
      if i < |busy| {
        var node := busy[i];
        busy := busy[..i] + busy[i + 1..];
        MergeFree(node);
      }
    }
  }

  // What one turn of the loop of merge_free does to the result
  lemma MergedStep(free: seq<Block>, i: nat, node: Block)
    requires i < |free|
    ensures var e := free[i];
            Merged(free[i..], node) ==
            if e.End() == node.ptr then Merged(free[i + 1..], Block(e.ptr, node.size + e.size))
            else if node.End() == e.ptr then Merged(free[i + 1..], Block(node.ptr, node.size + e.size))
            else if e.ptr > node.ptr then [node] + free[i..]
            else [e] + Merged(free[i + 1..], node)
  {
    assert free[i..][1..] == free[i + 1..];
  }

  lemma PassEntry(free: seq<Block>, i: nat, rest: seq<Block>)
    requires i < |free|
    ensures free[..i] + ([free[i]] + rest) == free[..i + 1] + rest
  {
  }
}
