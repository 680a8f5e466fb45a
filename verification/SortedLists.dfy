/**
 Strictly increasing sequences: the contents of the kernel's address-sorted lists. Such a
 sequence is determined by its set of elements.
 */
module SortedLists {
  import opened LinkedLists

  predicate Sorted(s: seq<nat>) {
    forall i, j :: 0 <= i < j < |s| ==> s[i] < s[j]
  }

  function Insert(s: seq<nat>, x: nat): seq<nat> {
    if s == [] || x < s[0] then [x] + s else [s[0]] + Insert(s[1..], x)
  }

  lemma ConsSorted(x: nat, s: seq<nat>)
    requires Sorted(s) && forall y :: y in s ==> x < y
    ensures Sorted([x] + s)
  {
    forall i | 0 <= i < |s| ensures x < s[i] {
      assert s[i] in s;
    }
  }

  // The first element is below the others
  lemma FirstLeast(s: seq<nat>)
    requires Sorted(s) && s != []
    ensures Sorted(s[1..]) && forall y :: y in s[1..] ==> s[0] < y
    ensures forall y :: y in s <==> y == s[0] || y in s[1..]
  {
    assert s == [s[0]] + s[1..];
  }

  lemma {:induction false} InsertSorted(s: seq<nat>, x: nat)
    requires Sorted(s) && x !in s
    ensures Sorted(Insert(s, x))
    ensures forall y :: y in Insert(s, x) <==> y == x || y in s
  {
    if s != [] && s[0] < x {
      FirstLeast(s);
      InsertSorted(s[1..], x);
      ConsSorted(s[0], Insert(s[1..], x));
    }
  }

  lemma {:induction false} RemoveSorted(s: seq<nat>, x: nat)
    requires Sorted(s)
    ensures Sorted(Remove(s, x))
    ensures forall y :: y in Remove(s, x) <==> y != x && y in s
  {
    if s != [] {
      FirstLeast(s);
      RemoveSorted(s[1..], x);
      ConsSorted(s[0], Remove(s[1..], x));
    }
  }

  lemma {:induction false} Unique(s: seq<nat>, t: seq<nat>)
    requires Sorted(s) && Sorted(t)
    requires forall y :: y in s <==> y in t
    ensures s == t
  {
    assert t != [] ==> t[0] in s;
    if s != [] {
      assert s[0] in t && t[0] in s;
      forall y ensures y in s[1..] <==> y in t[1..] {
        assert y in s[1..] <==> y in s && y != s[0];
        assert y in t[1..] <==> y in t && y != t[0];
      }
      Unique(s[1..], t[1..]);
    }
  }

  // Where a walk that stops at the first element above x inserts
  lemma {:induction false} InsertAt(s: seq<nat>, j: nat, x: nat)
    requires j <= |s|
    requires forall m :: 0 <= m < j ==> s[m] < x
    requires j < |s| ==> x < s[j]
    ensures Insert(s, x) == s[..j] + [x] + s[j..]
  {
    if j > 0 {
      InsertAt(s[1..], j - 1, x);
      assert s[..j] == [s[0]] + s[1..][..j - 1];
    }
  }
}
