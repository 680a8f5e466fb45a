/**
 Printing the path of an entry into a buffer of a given size. The code compares the size with one
 component at a time, so what it answers is right only for some sizes, and this says for which.
 */
module VfsPrint {
  import opened Patches
  import opened Vfs
  import opened VfsRuns

  // What getcwdstr returns: the length, or minus one if the last component does not fit; a failure
  // further up is not noticed
  ghost function Answer(s: State, d: nat, size: int): (n: int)
    requires Inv(s) && d in s.nodes
    ensures -1 <= n <= |Printed(s, d)|
    decreases d
  {
    assert NodeOk(s, d);
    if d == ROOT then if size < 2 then -1 else 1
    else
      var n := Answer(s, s.nodes[d].parent, size);
      if size < |s.nodes[d].name| + 2 then -1 else n + |s.nodes[d].name| + 1
  }

  // The memory before and behind the buffer that the call can touch
  ghost predicate Around(s: State, d: nat, length: nat, buf: nat)
    requires Inv(s) && d in s.nodes
  {
    0 < buf && buf + |Printed(s, d)| + 1 <= length
  }

  // The memory after getcwdstr with the buffer at buf
  ghost function PrintInto(s: State, d: nat, m: seq<char>, buf: nat, size: int): (r: seq<char>)
    requires Inv(s) && d in s.nodes && Around(s, d, |m|, buf)
    ensures |r| == |m|
    decreases d
  {
    assert NodeOk(s, d);
    if d == ROOT then if size < 2 then m else Patch(m, buf, "/" + "\0")
    else
      var r := PrintInto(s, s.nodes[d].parent, m, buf, size);
      var at := buf + Answer(s, s.nodes[d].parent, size);
      if size < |s.nodes[d].name| + 2 then r else Patch(r, at, s.nodes[d].name + "/" + "\0")
  }

  lemma PatchEnd(m: seq<char>, at: nat, a: string, b: string)
    requires at + |a| + 1 <= |m| && at + |a| + |b| <= |m| && b != ""
    ensures Patch(Patch(m, at, a + "\0"), at + |a|, b) == Patch(m, at, a + b)
  {
  }

  // A buffer with room for the whole path gets it, a terminator behind it, and nothing else changes
  lemma {:induction false} RoomPrints(s: State, d: nat, m: seq<char>, buf: nat, size: int)
    requires Inv(s) && d in s.nodes && Around(s, d, |m|, buf) && |Printed(s, d)| < size
    ensures Answer(s, d, size) == |Printed(s, d)|
    ensures PrintInto(s, d, m, buf, size) == Patch(m, buf, Printed(s, d) + "\0")
    decreases d
  {
    assert NodeOk(s, d);
    if d != ROOT {
      var p, name := s.nodes[d].parent, s.nodes[d].name;
      RoomPrints(s, p, m, buf, size);
      PatchEnd(m, buf, Printed(s, p), name + "/" + "\0");
      assert Printed(s, p) + (name + "/" + "\0") == Printed(s, d) + "\0";
    }
  }

  // The size that the last component asks for
  function LastNeeds(s: State, d: nat): nat
    requires d in s.nodes
  {
    if d == ROOT then 2 else |s.nodes[d].name| + 2
  }

  // Success is reported exactly when the last component fits, so the report is right exactly for
  // sizes with room for the whole path and for sizes with no room for the last component
  lemma ReportsExactly(s: State, d: nat, size: int)
    requires Inv(s) && d in s.nodes
    ensures Answer(s, d, size) >= 0 <==> size >= LastNeeds(s, d)
    ensures (Answer(s, d, size) >= 0 <==> |Printed(s, d)| < size)
            <==> |Printed(s, d)| < size || size < LastNeeds(s, d)
  {
    assert NodeOk(s, d);
    PrintedNeeds(s, d);
  }

  lemma PrintedNeeds(s: State, d: nat)
    requires Inv(s) && d in s.nodes
    ensures |Printed(s, d)| + 1 >= LastNeeds(s, d)
    ensures d != ROOT ==> |Printed(s, d)| >= LastNeeds(s, d)
  {
    assert NodeOk(s, d);
    if d != ROOT {
      PrintedNeeds(s, s.nodes[d].parent);
    }
  }

  // For every entry but the root there is a size that is reported as enough and is not
  lemma ReportsWrongly(s: State, d: nat) returns (size: nat)
    requires Inv(s) && d in s.nodes && d != ROOT
    ensures Answer(s, d, size) >= 0 && |Printed(s, d)| >= size
  {
    size := LastNeeds(s, d);
    ReportsExactly(s, d, size);
    PrintedNeeds(s, d);
  }
}
