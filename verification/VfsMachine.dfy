/**
 The VFS server's path code as it runs: the path loop advances through the string and extends the
 tree of entries, and the printer writes into the caller's buffer.
 */
module VfsMachine {
  import opened LinkedLists
  import opened Patches
  import opened Vfs
  import opened VfsRuns
  import opened VfsPrint

  // The path loop's name buffer, and the name field of an entry
  const FILENAME_SIZE := 256
  const NAME_SIZE := 128

  // A component fits in the path loop's buffer, and in the name field if any directory has it
  predicate ShortName(fs: map<(nat, string), nat>, name: string) {
    |name| < FILENAME_SIZE && (|name| < NAME_SIZE || forall key :: key in fs ==> key.1 != name)
  }

  predicate Short(fs: map<(nat, string), nat>, names: seq<string>) {
    forall i :: 0 <= i < |names| ==> ShortName(fs, names[i])
  }

  // Every entry's name fits in its field
  predicate NamesFit(s: State) {
    forall d :: d in s.nodes ==> |s.nodes[d].name| < NAME_SIZE
  }

  // getfilename
  method GetFileName(path: string, at: nat, buffer: array<char>) returns (len: nat)
    requires at <= |path| && NameLen(path[at..]) < buffer.Length
    modifies buffer
    ensures len == NameLen(path[at..]) && at + len <= |path|
    ensures buffer[..len] == path[at..at + len] && buffer[len] == '\0'
  {
    len := 0;
    ghost var s := path[at..];
    while at + len < |path| && path[at + len] != '/'
      invariant at + len <= |path| && len <= NameLen(s)
      invariant buffer[..len] == path[at..at + len]
    {
      InName(s, len);
      buffer[len] := path[at + len];
      len := len + 1;
    }
    assert s[..len] == path[at..at + len];
    NameEnds(s, len);
    buffer[len] := '\0';
  }

  // A character that is no slash does not end the name
  lemma InName(s: string, n: nat)
    requires n < |s| && n <= NameLen(s) && s[n] != '/'
    ensures n < NameLen(s)
  {
  }

  lemma NameEnds(s: string, n: nat)
    requires n <= NameLen(s) && (n == |s| || s[n] == '/')
    ensures n == NameLen(s)
  {
  }

  class Server {
    var nodes: map<nat, Dentry>
    var fs: map<(nat, string), nat>
    var next: nat

    ghost function View(): State
      reads this
    {
      State(nodes, fs, next)
    }

    // mount_root
    constructor (ino: nat, directories: map<(nat, string), nat>)
      ensures View() == Mounted(ino, directories) && Inv(View()) && NamesFit(View())
    {
      nodes := map[ROOT := Dentry("/", ROOT, ino, [])];
      fs := directories;
      next := 1;
    }

    // The search among the cached children
    method FindChild(d: nat, name: string) returns (r: Option<nat>)
      requires Inv(View()) && d in nodes
      ensures r == Find(nodes, nodes[d].children, name)
    {
      var children := nodes[d].children;
      var i: nat := 0;
      while i < |children|
        invariant i <= |children| && Find(nodes, children, name) == Find(nodes, children[i..], name)
      {
        assert ChildOk(View(), d, children[i]);
        if nodes[children[i]].name == name {
          return Some(children[i]);
        }
        assert children[i..][1..] == children[i + 1..];
        i := i + 1;
      }
      return None;
    }

    // vfs_lookup_in_fs
    method AskFs(d: nat, name: string) returns (r: Option<nat>)
      requires d in nodes
      modifies this
      ensures (View(), r) == LookupInFs(old(View()), d, name)
    {
      var key := (nodes[d].ino, name);
      if key !in fs {
        return None;
      }
      var child := next;
      next := next + 1;
      var parent := nodes[d];
      nodes := nodes[child := Dentry(name, d, fs[key], [])][d := parent.(children := [child] + parent.children)];
      return Some(child);
    }

    // The body of the path loop
    method EnterName(d: nat, name: string) returns (r: Option<nat>)
      requires Inv(View()) && d in nodes
      modifies this
      ensures (View(), r) == Enter(old(View()), d, name)
    {
      if name == ".." {
        return Some(nodes[d].parent);
      }
      if name == "." {
        return Some(d);
      }
      r := FindChild(d, name);
      if r.None? {
        r := AskFs(d, name);
      }
    }

    // The part of the path loop that moves through the string
    method ScanName(path: string, at: nat, filename: array<char>) returns (name: string, next: nat)
      requires at < |path| && NameLen(path[at..]) < filename.Length
      modifies filename
      ensures name == path[at..at + NameLen(path[at..])] && next == After(path, at)
    {
      var len := GetFileName(path, at, filename);
      name := filename[..len];
      next := at + len;
      if next < |path| && path[next] == '/' {
        next := next + 1;
      }
    }

    // The same in terms of the path's components
    method NextName(path: string, at: nat, filename: array<char>) returns (name: string, next: nat)
      requires at < |path| && filename.Length == FILENAME_SIZE
      requires Short(fs, Components(path[at..])) && Clean(Components(path[at..]))
      modifies filename
      ensures at < next <= |path|
      ensures var names, rest := Components(path[at..]), Components(path[next..]);
              && names != [] && names[0] == name && names[1..] == rest
              && ShortName(fs, name) && '/' !in name && Short(fs, rest) && Clean(rest)
    {
      ghost var n := NameLen(path[at..]);
      FirstName(fs, path, at, Components(path[at..]), path[at..at + n], Components(path[After(path, at)..]));
      name, next := ScanName(path, at, filename);
    }

    // vfs_lookup
    method LookupPath(cwd: nat, path: string) returns (r: Option<nat>)
      requires Inv(View()) && NamesFit(View()) && cwd in nodes && Short(fs, Components(Relative(path)))
      modifies this
      ensures (View(), r) == Lookup(old(View()), cwd, path)
      ensures Inv(View()) && NamesFit(View())
    {
      var filename := new char[FILENAME_SIZE];
      var current, sptr: nat := cwd, 0;
      if |path| > 0 && path[0] == '/' {
        current, sptr := ROOT, 1;
      }
      ComponentsClean(Relative(path));
      assert path[sptr..] == Relative(path);
      while sptr < |path|
        invariant sptr <= |path| && Inv(View()) && NamesFit(View()) && current in nodes
        invariant Short(fs, Components(path[sptr..])) && Clean(Components(path[sptr..]))
        invariant Resolve(View(), current, Components(path[sptr..])) == Lookup(old(View()), cwd, path)
      {
        var name;
        name, sptr := NextName(path, sptr, filename);
        EnterInv(View(), current, name);
        r := EnterName(current, name);
        if r.None? {
          return;
        }
        current := r.value;
      }
      assert path[sptr..] == "";
      return Some(current);
    }

    // strncpy of a text and its end, at a place in memory
    method Put(mem: array<char>, at: nat, text: string)
      requires at + |text| <= mem.Length
      modifies mem
      ensures mem[..] == Patch(old(mem[..]), at, text)
    {
      var i: nat := 0;
      while i < |text|
        invariant i <= |text| && mem[..] == Patch(old(mem[..]), at, text[..i])
      {
        mem[at + i] := text[i];
        i := i + 1;
      }
      assert text[..i] == text;
    }

    // getcwdstr with the buffer at buf
    method PrintPath(d: nat, mem: array<char>, buf: nat, size: int) returns (n: int)
      requires Inv(View()) && d in nodes && Around(View(), d, mem.Length, buf)
      modifies mem
      ensures n == Answer(View(), d, size)
      ensures mem[..] == PrintInto(View(), d, old(mem[..]), buf, size)
      decreases d
    {
      assert NodeOk(View(), d);
      if d == ROOT {
        if size < 2 {
          return -1;
        }
        Put(mem, buf, "/" + "\0");
        return 1;
      }
      n := PrintPath(nodes[d].parent, mem, buf, size);
      var name := nodes[d].name;
      if size < |name| + 2 {
        return -1;
      }
      Put(mem, buf + n, name + "/" + "\0");
      return n + |name| + 1;
    }

    // The path printed for an entry leads back to it, and changes nothing in the tree
    method PrintThenLookUp(cwd: nat, d: nat, mem: array<char>, buf: nat, size: int) returns (r: Option<nat>)
      requires Inv(View()) && NamesFit(View()) && cwd in nodes && d in nodes
      requires Around(View(), d, mem.Length, buf) && |Printed(View(), d)| < size
      modifies this, mem
      ensures r == Some(d) && View() == old(View())
    {
      RoomPrints(View(), d, mem[..], buf, size);
      var n := PrintPath(d, mem, buf, size);
      var path := mem[..][buf..buf + n];
      assert path == Printed(View(), d);
      PrintedShort(View(), d);
      PrintThenLookup(View(), cwd, d);
      r := LookupPath(cwd, path);
    }
  }

  lemma PrintedShort(s: State, d: nat)
    requires Inv(s) && NamesFit(s) && d in s.nodes
    ensures Short(s.fs, Components(Relative(Printed(s, d))))
  {
    PrintedIsJoined(s, d);
    assert Relative(Printed(s, d)) == Joined(Names(s, d));
    NamesClean(s, d);
    SplitJoined(Names(s, d));
    NamesShort(s, d);
  }

  lemma {:induction false} NamesShort(s: State, d: nat)
    requires Inv(s) && NamesFit(s) && d in s.nodes
    ensures Short(s.fs, Names(s, d))
    decreases d
  {
    assert NodeOk(s, d);
    if d != ROOT {
      NamesShort(s, s.nodes[d].parent);
    }
  }

  lemma EnterInv(s: State, d: nat, name: string)
    requires Inv(s) && NamesFit(s) && d in s.nodes && '/' !in name && ShortName(s.fs, name)
    ensures var (t, r) := Enter(s, d, name);
            Inv(t) && NamesFit(t) && t.fs == s.fs && (r.Some? ==> r.value in t.nodes)
  {
    EnterAgrees(s, d, name);
  }

  // Where the path loop goes on after the component at a position
  function After(path: string, at: nat): (r: nat)
    requires at < |path|
    ensures at < r <= |path|
  {
    var n := at + NameLen(path[at..]);
    if n < |path| then n + 1 else n
  }

  // The names of a path from a position on: the one there, and those of the rest
  lemma FirstName(fs: map<(nat, string), nat>, path: string, at: nat, names: seq<string>, name: string,
                  rest: seq<string>)
    requires at < |path| && names == Components(path[at..]) && Short(fs, names) && Clean(names)
    requires name == path[at..at + NameLen(path[at..])] && rest == Components(path[After(path, at)..])
    ensures names != [] && names[0] == name && names[1..] == rest
    ensures ShortName(fs, name) && '/' !in name && Short(fs, rest) && Clean(rest)
  {
    var s := path[at..];
    assert s[..NameLen(s)] == name;
    assert Rest(s) == path[After(path, at)..];
    assert names == [name] + rest;
    assert names[0] == name && forall i :: 0 <= i < |rest| ==> names[i + 1] == rest[i];
  }
}
