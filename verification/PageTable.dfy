/**
 Four-level page tables held in raw physical frames. A frame is 512 words; a table word is zero or
 the address of the next frame with attribute bits. The ghost tree names the frame at each path of
 table indices; Tree says that the words in memory are exactly that tree.
 */
module PageTable {
  import opened Arch
  import opened LinkedLists

  const WORD := 0x1_0000_0000_0000_0000

  type Path = seq<nat>
  type Frames = map<nat, seq<nat>>

  // ----- addresses -----

  // The four table indices of an address: 9 bits each above the 12 bits of the page offset
  function PathOf(addr: nat): Path {
    var u := addr % 0x1_0000_0000_0000;
    var u3 := u % 0x80_0000_0000;
    var u2 := u3 % 0x4000_0000;
    var u1 := u2 % 0x20_0000;
    [u / 0x80_0000_0000, u3 / 0x4000_0000, u2 / 0x20_0000, u1 / PAGE_SIZE]
  }

  predicate IsUser(addr: nat) {
    addr % 0x1_0000_0000_0000 < 0x8000_0000_0000
  }

  function Page(addr: nat): nat {
    addr % 0x1_0000_0000_0000 / PAGE_SIZE
  }

  // Two addresses have the same indices exactly when they are on the same page
  lemma PathOfPage(a: nat, b: nat)
    ensures PathOf(a) == PathOf(b) <==> Page(a) == Page(b)
  {
    PageDigits(a);
    PageDigits(b);
    var p, q := PathOf(a), PathOf(b);
    if Page(a) == Page(b) {
      LastDigit((p[0] * ENTRIES + p[1]) * ENTRIES + p[2], p[3], (q[0] * ENTRIES + q[1]) * ENTRIES + q[2], q[3]);
      LastDigit(p[0] * ENTRIES + p[1], p[2], q[0] * ENTRIES + q[1], q[2]);
      LastDigit(p[0], p[1], q[0], q[1]);
    }
  }

  lemma LastDigit(x: nat, d: nat, y: nat, e: nat)
    requires d < ENTRIES && e < ENTRIES && x * ENTRIES + d == y * ENTRIES + e
    ensures x == y && d == e
  {
  }

  // The indices of a user address are a path of the user half
  lemma PathOfUser(a: nat)
    requires IsUser(a)
    ensures IsPath(PathOf(a)) && |PathOf(a)| == 4
  {
    PageDigits(a);
  }

  // The page number in base 512
  lemma PageDigits(a: nat)
    ensures var p := PathOf(a);
            && Page(a) == ((p[0] * ENTRIES + p[1]) * ENTRIES + p[2]) * ENTRIES + p[3]
            && p[0] < ENTRIES && p[1] < ENTRIES && p[2] < ENTRIES && p[3] < ENTRIES
  {
    var u := a % 0x1_0000_0000_0000;
    var u3 := u % 0x80_0000_0000;
    var u2 := u3 % 0x4000_0000;
    var u1 := u2 % 0x20_0000;
    var p := PathOf(a);
    assert u1 / PAGE_SIZE == p[3];
    assert u2 / PAGE_SIZE == p[2] * ENTRIES + p[3];
    assert u3 / PAGE_SIZE == (p[1] * ENTRIES + p[2]) * ENTRIES + p[3];
  }

  // ----- table words -----

  function Entry(frame: nat): nat {
    frame * PAGE_SIZE + ATTR
  }

  // The frame a word points to: the word with its low 12 bits cleared
  function Target(word: nat): nat {
    word / PAGE_SIZE
  }

  // ----- trees -----

  // A path of table indices inside the user half
  predicate IsPath(p: Path) {
    |p| <= 4 && (forall i :: 0 <= i < |p| ==> p[i] < ENTRIES) && (p != [] ==> p[0] < ENTRIES / 2)
  }

  // The words the user tree of a table at path p may use
  function Width(p: Path): nat {
    if p == [] then ENTRIES / 2 else ENTRIES
  }

  predicate IsFrame(mem: Frames, f: nat) {
    f in mem && |mem[f]| == ENTRIES
  }

  // The table at path p holds in each word the entry of its child, or zero
  ghost predicate TableAt(mem: Frames, at: map<Path, nat>, p: Path)
    requires p in at && IsFrame(mem, at[p])
  {
    forall i :: 0 <= i < Width(p) ==> mem[at[p]][i] == (if p + [i] in at then Entry(at[p + [i]]) else 0)
  }

  function Parent(p: Path): Path {
    if p == [] then [] else p[..|p| - 1]
  }

  ghost predicate Injective(at: map<Path, nat>) {
    forall p, q :: p in at && q in at && at[p] == at[q] ==> p == q
  }

  ghost predicate Tree(mem: Frames, at: map<Path, nat>, pgd: nat) {
    && [] in at && at[[]] == pgd
    && (forall p :: p in at ==> IsPath(p) && IsFrame(mem, at[p]))
    && (forall p {:trigger Parent(p)} :: p in at && p != [] ==> Parent(p) in at)
    && Injective(at)
    && (forall p {:trigger TableAt(mem, at, p)} :: p in at && |p| < 4 ==> TableAt(mem, at, p))
  }

  // ----- the hardware walk -----

  // What following the words from a table along the indices reaches
  function Walk(mem: Frames, table: nat, indices: Path): Option<nat>
    decreases |indices|
  {
    if indices == [] then Some(table)
    else if IsFrame(mem, table) && indices[0] < ENTRIES && mem[table][indices[0]] != 0
    then Walk(mem, Target(mem[table][indices[0]]), indices[1..])
    else None
  }

  // The walk over raw frames is the lookup in the tree
  lemma {:induction false} WalkIsLookup(mem: Frames, at: map<Path, nat>, pgd: nat, p: Path, rest: Path)
    requires Tree(mem, at, pgd) && p in at && IsPath(p + rest)
    ensures Walk(mem, at[p], rest) == if p + rest in at then Some(at[p + rest]) else None
    decreases |rest|
  {
    if rest == [] {
      assert p + rest == p;
    } else {
      var i := rest[0];
      assert (p + rest)[|p|] == i;
      assert TableAt(mem, at, p);
      assert p + rest == p + [i] + rest[1..];
      if p + [i] in at {
        WalkIsLookup(mem, at, pgd, p + [i], rest[1..]);
      } else {
        NoDescendants(mem, at, pgd, p + [i], p + rest);
      }
    }
  }

  lemma {:induction false} NoDescendants(mem: Frames, at: map<Path, nat>, pgd: nat, p: Path, q: Path)
    requires Tree(mem, at, pgd) && p !in at && p <= q
    ensures q !in at
    decreases |q|
  {
    if q in at && q != p {
      NoDescendants(mem, at, pgd, p, Parent(q));
    }
  }

  // The user address space: the frame behind an address
  function Lookup(at: map<Path, nat>, addr: nat): Option<nat> {
    if PathOf(addr) in at then Some(at[PathOf(addr)]) else None
  }
}
