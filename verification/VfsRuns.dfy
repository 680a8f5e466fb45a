/**
 The cache and the file system agree: after every run of lookups and new names, a lookup gives the
 place that the file system alone gives. And the path printed for an entry is resolved to it.
 */
module VfsRuns {
  import opened LinkedLists
  import opened Vfs

  // ----- cache agreement -----

  // t knows everything that s does, with more children perhaps
  ghost predicate Extends(s: State, t: State) {
    && t.fs == s.fs
    && forall d :: d in s.nodes ==>
         && d in t.nodes && t.nodes[d].parent == s.nodes[d].parent
         && t.nodes[d].ino == s.nodes[d].ino && t.nodes[d].name == s.nodes[d].name
  }

  lemma {:induction false} PlaceExtends(s: State, t: State, d: nat)
    requires Inv(s) && Inv(t) && Extends(s, t) && d in s.nodes
    ensures Place(t, d) == Place(s, d)
    decreases d
  {
    assert NodeOk(s, d);
    if d != ROOT {
      PlaceExtends(s, t, s.nodes[d].parent);
    }
  }

  lemma LookupInFsInv(s: State, d: nat, name: string)
    requires Inv(s) && d in s.nodes && IsName(name) && Find(s.nodes, s.nodes[d].children, name).None?
    ensures var (t, r) := LookupInFs(s, d, name);
            && Inv(t) && Extends(s, t)
            && (r.Some? ==> r.value in t.nodes && r.value != ROOT && t.nodes[r.value].parent == d)
            && (r.Some? ==> t.nodes[r.value].ino == s.fs[(s.nodes[d].ino, name)])
  {
    var (t, r) := LookupInFs(s, d, name);
    if r.Some? {
      forall x | x in t.nodes ensures NodeOk(t, x) {
        if x in s.nodes {
          assert NodeOk(s, x);
        }
      }
      forall x, c | x in t.nodes && c in t.nodes[x].children ensures ChildOk(t, x, c) {
        if x == d {
          OwnChildren(s, t, d, name, c);
        } else {
          SameChildren(s, t, d, name, x, c);
        }
      }
    }
  }

  // An old child keeps its name to itself
  lemma NewName(s: State, t: State, d: nat, name: string, c: nat)
    requires Inv(s) && d in s.nodes && Find(s.nodes, s.nodes[d].children, name).None?
    requires (s.nodes[d].ino, name) in s.fs && t == LookupInFs(s, d, name).0
    requires c in s.nodes[d].children
    ensures c in t.nodes && c != s.next
    ensures forall x :: x in t.nodes[d].children && x in t.nodes && t.nodes[x].name == t.nodes[c].name ==> x == c
  {
    assert ChildOk(s, d, c);
    forall x | x in t.nodes[d].children && x in t.nodes && t.nodes[x].name == t.nodes[c].name ensures x == c {
      if x != s.next {
        assert x in s.nodes[d].children;
        assert ChildOk(s, d, x);
      }
    }
  }

  // The new child is the only one with its name
  lemma OldNames(s: State, t: State, d: nat, name: string)
    requires Inv(s) && d in s.nodes && Find(s.nodes, s.nodes[d].children, name).None?
    requires (s.nodes[d].ino, name) in s.fs && t == LookupInFs(s, d, name).0
    ensures forall x :: x in t.nodes[d].children && x in t.nodes && t.nodes[x].name == name ==> x == s.next
  {
    forall x | x in s.nodes[d].children ensures x in t.nodes && t.nodes[x].name != name {
      assert ChildOk(s, d, x);
    }
  }

  lemma OwnChildren(s: State, t: State, d: nat, name: string, c: nat)
    requires Inv(s) && d in s.nodes && Find(s.nodes, s.nodes[d].children, name).None?
    requires (s.nodes[d].ino, name) in s.fs && t == LookupInFs(s, d, name).0
    requires c in t.nodes[d].children
    ensures ChildOk(t, d, c)
  {
    if c in s.nodes[d].children {
      assert ChildOk(s, d, c);
      NewName(s, t, d, name, c);
    } else {
      OldNames(s, t, d, name);
    }
  }

  // The children of other entries are as they were
  lemma SameChildren(s: State, t: State, d: nat, name: string, x: nat, c: nat)
    requires Inv(s) && d in s.nodes && x in s.nodes && x != d && c in s.nodes[x].children
    requires (s.nodes[d].ino, name) in s.fs && t == LookupInFs(s, d, name).0
    ensures x in t.nodes && c in t.nodes[x].children && ChildOk(t, x, c)
  {
    assert ChildOk(s, x, c);
    forall y | y in t.nodes[x].children && y in t.nodes && t.nodes[y].name == t.nodes[c].name ensures y == c {
      assert ChildOk(s, x, y);
    }
  }

  // One step of the cached lookup is one step of the walk
  lemma EnterAgrees(s: State, d: nat, name: string)
    requires Inv(s) && d in s.nodes && '/' !in name
    ensures var (t, r) := Enter(s, d, name);
            && Inv(t) && Extends(s, t)
            && (r.Some? ==> r.value in t.nodes)
            && forall rest: seq<string> ::
                 Walk(s.fs, Place(s, d), [name] + rest)
                 == if r.None? then None else Walk(t.fs, Place(t, r.value), rest)
  {
    var (t, r) := Enter(s, d, name);
    assert NodeOk(s, d);
    if name == ".." || name == "." {
      ParentPlace(s, d);
    } else if Find(s.nodes, s.nodes[d].children, name).Some? {
      var c := r.value;
      assert ChildOk(s, d, c) && NodeOk(s, c);
    } else {
      LookupInFsInv(s, d, name);
      PlaceExtends(s, t, d);
    }
    forall rest: seq<string>
      ensures Walk(s.fs, Place(s, d), [name] + rest) == if r.None? then None else Walk(t.fs, Place(t, r.value), rest)
    {
      assert ([name] + rest)[1..] == rest;
    }
  }

  lemma ParentPlace(s: State, d: nat)
    requires Inv(s) && d in s.nodes
    ensures s.nodes[d].parent in s.nodes
    ensures var p := Place(s, d);
            Place(s, s.nodes[d].parent) == if |p| > 1 then p[..|p| - 1] else p
  {
    assert NodeOk(s, d);
    if d != ROOT {
      var q := Place(s, s.nodes[d].parent);
      assert (q + [s.nodes[d].ino])[..|q|] == q;
    }
  }

  predicate Clean(names: seq<string>) {
    forall i :: 0 <= i < |names| ==> '/' !in names[i]
  }

  lemma {:induction false} ComponentsClean(s: string)
    ensures Clean(Components(s))
    decreases |s|
  {
    if s != "" {
      ComponentsClean(Rest(s));
    }
  }

  // The cached lookup gives the place that the file system alone gives, or fails exactly when it does
  lemma {:induction false} ResolveAgrees(s: State, d: nat, names: seq<string>)
    requires Inv(s) && d in s.nodes && Clean(names)
    ensures var (t, r) := Resolve(s, d, names);
            && Inv(t) && Extends(s, t)
            && (r.Some? ==> r.value in t.nodes)
            && Walk(s.fs, Place(s, d), names) == if r.None? then None else Some(Place(t, r.value))
    decreases |names|
  {
    if names != [] {
      EnterAgrees(s, d, names[0]);
      var (t, r) := Enter(s, d, names[0]);
      assert names == [names[0]] + names[1..];
      if r.Some? {
        ResolveAgrees(t, r.value, names[1..]);
      }
    }
  }

  // ----- runs -----

  datatype Op = LookUp(cwd: nat, path: string) | AddName(dir: nat, name: string, ino: nat)

  // New names do not replace old ones
  ghost predicate Allowed(s: State, op: Op) {
    match op
    case LookUp(cwd, path) => cwd in s.nodes
    case AddName(dir, name, ino) => (dir, name) !in s.fs
  }

  function Step(s: State, op: Op): State {
    match op
    case LookUp(cwd, path) => Lookup(s, cwd, path).0
    case AddName(dir, name, ino) => s.(fs := s.fs[(dir, name) := ino])
  }

  ghost predicate ValidRun(s: State, ops: seq<Op>)
    decreases |ops|
  {
    ops == [] || (Allowed(s, ops[0]) && ValidRun(Step(s, ops[0]), ops[1..]))
  }

  function Run(s: State, ops: seq<Op>): State
    decreases |ops|
  {
    if ops == [] then s else Run(Step(s, ops[0]), ops[1..])
  }

  // mount_root
  function Mounted(ino: nat, fs: map<(nat, string), nat>): State {
    State(map[ROOT := Dentry("/", ROOT, ino, [])], fs, 1)
  }

  lemma StepInv(s: State, op: Op)
    requires Inv(s) && Allowed(s, op)
    ensures Inv(Step(s, op))
  {
    match op {
      case LookUp(cwd, path) =>
        ComponentsClean(Relative(path));
        ResolveAgrees(s, if IsAbsolute(path) then ROOT else cwd, Components(Relative(path)));
      case AddName(dir, name, ino) =>
        var t := Step(s, op);
        forall d | d in t.nodes ensures NodeOk(t, d) {
          assert NodeOk(s, d);
        }
        forall d, c | d in t.nodes && c in t.nodes[d].children ensures ChildOk(t, d, c) {
          assert ChildOk(s, d, c);
        }
    }
  }

  lemma {:induction false} RunInv(s: State, ops: seq<Op>)
    requires Inv(s) && ValidRun(s, ops)
    ensures Inv(Run(s, ops))
    decreases |ops|
  {
    if ops != [] {
      StepInv(s, ops[0]);
      RunInv(Step(s, ops[0]), ops[1..]);
    }
  }

  // After every run from the mounted root, a lookup finds what a walk through the file system finds
  lemma LookupAfterRun(ino: nat, fs: map<(nat, string), nat>, ops: seq<Op>, cwd: nat, path: string)
    requires ValidRun(Mounted(ino, fs), ops) && cwd in Run(Mounted(ino, fs), ops).nodes
    ensures var s := Run(Mounted(ino, fs), ops);
            && Inv(s)
            && var from := if IsAbsolute(path) then ROOT else cwd;
               var (t, r) := Lookup(s, cwd, path);
               && Inv(t) && (r.Some? ==> r.value in t.nodes)
               && Walk(s.fs, Place(s, from), Components(Relative(path)))
                  == if r.None? then None else Some(Place(t, r.value))
  {
    RunInv(Mounted(ino, fs), ops);
    ComponentsClean(Relative(path));
    ResolveAgrees(Run(Mounted(ino, fs), ops), if IsAbsolute(path) then ROOT else cwd, Components(Relative(path)));
  }

  // ----- printing -----

  // The names from the root down to an entry
  ghost function Names(s: State, d: nat): seq<string>
    requires Inv(s) && d in s.nodes
  {
    assert NodeOk(s, d);
    if d == ROOT then [] else Names(s, s.nodes[d].parent) + [s.nodes[d].name]
  }

  // getcwdstr without the buffer; the root's own name is a slash
  ghost function Printed(s: State, d: nat): string
    requires Inv(s) && d in s.nodes
  {
    assert NodeOk(s, d);
    if d == ROOT then "/" else Printed(s, s.nodes[d].parent) + s.nodes[d].name + "/"
  }

  // Names, each followed by a slash
  function Joined(names: seq<string>): string {
    if names == [] then "" else names[0] + "/" + Joined(names[1..])
  }

  lemma {:induction false} JoinedSnoc(names: seq<string>, name: string)
    ensures Joined(names + [name]) == Joined(names) + name + "/"
  {
    if names == [] {
      assert [name][1..] == [];
    } else {
      assert (names + [name])[1..] == names[1..] + [name];
      JoinedSnoc(names[1..], name);
    }
  }

  lemma {:induction false} PrintedIsJoined(s: State, d: nat)
    requires Inv(s) && d in s.nodes
    ensures Printed(s, d) == "/" + Joined(Names(s, d))
    decreases d
  {
    assert NodeOk(s, d);
    if d != ROOT {
      PrintedIsJoined(s, s.nodes[d].parent);
      JoinedSnoc(Names(s, s.nodes[d].parent), s.nodes[d].name);
    }
  }

  lemma {:induction false} NameLenBefore(name: string, rest: string)
    requires '/' !in name
    ensures NameLen(name + "/" + rest) == |name|
  {
    var s := name + "/" + rest;
    if name != "" {
      assert s[1..] == name[1..] + "/" + rest;
      NameLenBefore(name[1..], rest);
    }
  }

  // Splitting undoes joining
  lemma {:induction false} SplitJoined(names: seq<string>)
    requires Clean(names)
    ensures Components(Joined(names)) == names
  {
    if names != [] {
      var s := Joined(names);
      NameLenBefore(names[0], Joined(names[1..]));
      assert s[..|names[0]|] == names[0];
      assert Rest(s) == Joined(names[1..]);
      SplitJoined(names[1..]);
    }
  }

  lemma {:induction false} NamesClean(s: State, d: nat)
    requires Inv(s) && d in s.nodes
    ensures Clean(Names(s, d))
    decreases d
  {
    assert NodeOk(s, d);
    if d != ROOT {
      NamesClean(s, s.nodes[d].parent);
    }
  }

  lemma {:induction false} ResolveSnoc(s: State, d: nat, names: seq<string>, name: string, e: nat, f: nat)
    requires Resolve(s, d, names) == (s, Some(e)) && e in s.nodes && Enter(s, e, name) == (s, Some(f))
    requires Steady(s, d, names)
    ensures Resolve(s, d, names + [name]) == (s, Some(f)) && Steady(s, d, names + [name])
    decreases |names|
  {
    if names == [] {
      assert [name][1..] == [];
      assert Resolve(s, f, []) == (s, Some(f));
    } else {
      assert (names + [name])[1..] == names[1..] + [name];
      ResolveSnoc(s, Enter(s, d, names[0]).1.value, names[1..], name, e, f);
    }
  }

  // Every component is answered from the cache
  predicate Steady(s: State, d: nat, names: seq<string>)
    decreases |names|
  {
    names == [] || (d in s.nodes && Enter(s, d, names[0]).0 == s && Enter(s, d, names[0]).1.Some?
                    && Steady(s, Enter(s, d, names[0]).1.value, names[1..]))
  }

  lemma {:induction false} NamesLead(s: State, d: nat)
    requires Inv(s) && d in s.nodes
    ensures Resolve(s, ROOT, Names(s, d)) == (s, Some(d)) && Steady(s, ROOT, Names(s, d))
    decreases d
  {
    assert NodeOk(s, d);
    if d != ROOT {
      var p := s.nodes[d].parent;
      NamesLead(s, p);
      assert ChildOk(s, p, d);
      ResolveSnoc(s, ROOT, Names(s, p), s.nodes[d].name, p, d);
    }
  }

  // Looking up the printed path of an entry, from anywhere, gives that entry and asks nobody
  lemma PrintThenLookup(s: State, cwd: nat, d: nat)
    requires Inv(s) && d in s.nodes
    ensures Lookup(s, cwd, Printed(s, d)) == (s, Some(d))
  {
    PrintedIsJoined(s, d);
    assert Relative(Printed(s, d)) == Joined(Names(s, d));
    NamesClean(s, d);
    SplitJoined(Names(s, d));
    NamesLead(s, d);
  }
}
