/**
 Path resolution over a cache of directory entries. Entries know their parent and their cached
 children; what is not cached is asked of the file system, whose directories are a map from an
 inode and a name to an inode. The cache never changes what a path means, and the path printed for
 an entry leads back to it.
 */
module Vfs {
  import opened LinkedLists

  datatype Dentry = Dentry(name: string, parent: nat, ino: nat, children: seq<nat>)

  // Entry 0 is the root; next is an identity that was never used
  datatype State = State(nodes: map<nat, Dentry>, fs: map<(nat, string), nat>, next: nat)

  const ROOT := 0

  // ----- paths -----

  // The length of the first component
  function NameLen(s: string): (n: nat)
    ensures n <= |s| && '/' !in s[..n] && (n < |s| ==> s[n] == '/')
  {
    if s == "" || s[0] == '/' then 0
    else
      var n := NameLen(s[1..]);
      assert s[..n + 1] == [s[0]] + s[1..][..n];
      n + 1
  }

  // What follows the first component and the slash behind it
  function Rest(s: string): (r: string)
    ensures s != "" ==> |r| < |s|
  {
    var n := NameLen(s);
    if n < |s| then s[n + 1..] else ""
  }

  function Components(s: string): seq<string>
    decreases |s|
  {
    if s == "" then [] else [s[..NameLen(s)]] + Components(Rest(s))
  }

  predicate IsAbsolute(path: string) {
    path != "" && path[0] == '/'
  }

  function Relative(path: string): string {
    if IsAbsolute(path) then path[1..] else path
  }

  // A name that an entry can have
  predicate IsName(name: string) {
    '/' !in name && name != "." && name != ".."
  }

  // ----- the cache -----

  ghost predicate Inv(s: State) {
    && ROOT in s.nodes && s.nodes[ROOT].parent == ROOT && s.nodes[ROOT].name == "/"
    && (forall d :: d in s.nodes ==> d < s.next)
    && (forall d {:trigger NodeOk(s, d)} :: d in s.nodes ==> NodeOk(s, d))
    && (forall d, c {:trigger ChildOk(s, d, c)} :: d in s.nodes && c in s.nodes[d].children ==> ChildOk(s, d, c))
  }

  // An entry is cached under a parent older than itself, with the inode the file system has there
  predicate NodeOk(s: State, d: nat)
    requires d in s.nodes
  {
    var e := s.nodes[d];
    d != ROOT ==>
      && e.parent in s.nodes && e.parent < d && d in s.nodes[e.parent].children && IsName(e.name)
      && var key := (s.nodes[e.parent].ino, e.name); key in s.fs && s.fs[key] == e.ino
  }

  // A child points back, and no other child of the same parent has its name
  ghost predicate ChildOk(s: State, d: nat, c: nat)
    requires d in s.nodes && c in s.nodes[d].children
  {
    && c in s.nodes && c != ROOT && s.nodes[c].parent == d
    && forall x :: x in s.nodes[d].children && x in s.nodes && s.nodes[x].name == s.nodes[c].name ==> x == c
  }

  // ----- lookup -----

  // The first cached child with a name
  function Find(nodes: map<nat, Dentry>, children: seq<nat>, name: string): (r: Option<nat>)
    ensures r.Some? ==> r.value in children && r.value in nodes && nodes[r.value].name == name
    ensures r.None? ==> forall c :: c in children && c in nodes ==> nodes[c].name != name
  {
    if children == [] then None
    else if children[0] in nodes && nodes[children[0]].name == name then Some(children[0])
    else Find(nodes, children[1..], name)
  }

  // vfs_lookup_in_fs: ask the file system, cache the answer in front of the parent's children
  function LookupInFs(s: State, d: nat, name: string): (State, Option<nat>)
    requires d in s.nodes
  {
    var key := (s.nodes[d].ino, name);
    if key !in s.fs then (s, None)
    else
      var child := Dentry(name, d, s.fs[key], []);
      var parent := s.nodes[d].(children := [s.next] + s.nodes[d].children);
      (s.(nodes := s.nodes[s.next := child][d := parent], next := s.next + 1), Some(s.next))
  }

  // One component
  function Enter(s: State, d: nat, name: string): (State, Option<nat>)
    requires d in s.nodes
  {
    if name == ".." then (s, Some(s.nodes[d].parent))
    else if name == "." then (s, Some(d))
    else
      match Find(s.nodes, s.nodes[d].children, name)
      case Some(c) => (s, Some(c))
      case None => LookupInFs(s, d, name)
  }

  function Resolve(s: State, d: nat, names: seq<string>): (State, Option<nat>)
    decreases |names|
  {
    if names == [] then (s, Some(d))
    else if d !in s.nodes then (s, None)
    else
      var (t, r) := Enter(s, d, names[0]);
      if r.None? then (t, None) else Resolve(t, r.value, names[1..])
  }

  // vfs_lookup
  function Lookup(s: State, cwd: nat, path: string): (State, Option<nat>) {
    Resolve(s, if IsAbsolute(path) then ROOT else cwd, Components(Relative(path)))
  }

  // ----- without a cache -----

  // A place is the inodes from the root down to it; the file system alone says where a name leads
  function Walk(fs: map<(nat, string), nat>, place: seq<nat>, names: seq<string>): Option<seq<nat>>
    requires place != []
    decreases |names|
  {
    if names == [] then Some(place)
    else if names[0] == ".." then Walk(fs, if |place| > 1 then place[..|place| - 1] else place, names[1..])
    else if names[0] == "." then Walk(fs, place, names[1..])
    else
      var key := (place[|place| - 1], names[0]);
      if key in fs then Walk(fs, place + [fs[key]], names[1..]) else None
  }

  ghost function Place(s: State, d: nat): (p: seq<nat>)
    requires Inv(s) && d in s.nodes
    ensures p != [] && p[|p| - 1] == s.nodes[d].ino
  {
    assert NodeOk(s, d);
    if d == ROOT then [s.nodes[d].ino] else Place(s, s.nodes[d].parent) + [s.nodes[d].ino]
  }
}
