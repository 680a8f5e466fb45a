/**
 What a path means, said of its characters: names with slashes between them are walked from the
 current directory, and from the root if a slash comes first.
 */
module VfsPaths {
  import opened LinkedLists
  import opened Vfs
  import opened VfsRuns

  // Names with single slashes between them
  function Slashed(names: seq<string>): string {
    if names == [] then ""
    else if |names| == 1 then names[0]
    else names[0] + "/" + Slashed(names[1..])
  }

  // A path is written with or without a slash at its end; without, its last name is not empty
  predicate Writes(names: seq<string>, path: string) {
    && names != [] && Clean(names)
    && (path == Slashed(names) + "/" || (path == Slashed(names) && names[|names| - 1] != ""))
  }

  // The lookup ends at that place, or fails if there is none
  ghost predicate EndsAt(after: State, r: Option<nat>, place: Option<seq<nat>>) {
    && Inv(after) && (r.Some? ==> r.value in after.nodes)
    && place == if r.None? then None else Some(Place(after, r.value))
  }

  lemma {:induction false} SlashedIsJoined(names: seq<string>)
    requires names != []
    ensures Slashed(names) + "/" == Joined(names)
  {
    if |names| > 1 {
      SlashedIsJoined(names[1..]);
    } else {
      assert names[1..] == [] && Joined([]) == "";
    }
  }

  lemma {:induction false} WholeName(name: string)
    requires '/' !in name
    ensures NameLen(name) == |name|
  {
    if name != "" {
      WholeName(name[1..]);
    }
  }

  lemma {:induction false} SlashedComponents(names: seq<string>)
    requires names != [] && Clean(names) && names[|names| - 1] != ""
    ensures Components(Slashed(names)) == names
  {
    var s := Slashed(names);
    if |names| == 1 {
      WholeName(s);
      assert s[..|s|] == s && Components(Rest(s)) == [] && names == [s];
    } else {
      NameLenBefore(names[0], Slashed(names[1..]));
      assert s[..|names[0]|] == names[0] && Rest(s) == Slashed(names[1..]);
      SlashedComponents(names[1..]);
    }
  }

  lemma PathComponents(names: seq<string>, path: string)
    requires Writes(names, path)
    ensures Components(path) == names
  {
    if path == Slashed(names) + "/" {
      SlashedIsJoined(names);
      SplitJoined(names);
    } else {
      SlashedComponents(names);
    }
  }

  // A path that starts with a name is walked from the current directory
  lemma RelativePath(s: State, cwd: nat, names: seq<string>, path: string)
    requires Inv(s) && cwd in s.nodes && Writes(names, path) && names[0] != ""
    ensures var (t, r) := Lookup(s, cwd, path); EndsAt(t, r, Walk(s.fs, Place(s, cwd), names))
  {
    StartsWithName(names, path);
    PathComponents(names, path);
    LookupFrom(s, cwd, path, names);
    ResolveEndsAt(s, cwd, names);
  }

  lemma StartsWithName(names: seq<string>, path: string)
    requires Writes(names, path) && names[0] != ""
    ensures path != "" && path[0] != '/'
  {
    assert Slashed(names)[0] == names[0][0] && names[0][0] in names[0];
  }

  lemma LookupFrom(s: State, cwd: nat, path: string, names: seq<string>)
    requires path != "" && Components(if path[0] == '/' then path[1..] else path) == names
    ensures Lookup(s, cwd, path) == Resolve(s, if path[0] == '/' then ROOT else cwd, names)
  {
  }

  lemma ResolveEndsAt(s: State, d: nat, names: seq<string>)
    requires Inv(s) && d in s.nodes && Clean(names)
    ensures var (t, r) := Resolve(s, d, names); EndsAt(t, r, Walk(s.fs, Place(s, d), names))
  {
    ResolveAgrees(s, d, names);
  }

  // A path behind a slash is walked from the root, wherever the caller is
  lemma AbsolutePath(s: State, cwd: nat, names: seq<string>, path: string)
    requires Inv(s) && cwd in s.nodes && Writes(names, path)
    ensures var (t, r) := Lookup(s, cwd, "/" + path); EndsAt(t, r, Walk(s.fs, [s.nodes[0].ino], names))
  {
    PathComponents(names, path);
    assert ("/" + path)[1..] == path;
    LookupFrom(s, cwd, "/" + path, names);
    assert Place(s, ROOT) == [s.nodes[ROOT].ino];
    ResolveEndsAt(s, ROOT, names);
  }

  // No name at all is the current directory, and a slash alone the root
  lemma EmptyPath(s: State, cwd: nat)
    ensures Lookup(s, cwd, "") == (s, Some(cwd)) && Lookup(s, cwd, "/") == (s, Some(0))
  {
    assert "/"[1..] == "";
  }

  // The same after every run of lookups and new names from the mounted root
  lemma PathAfterRun(ino: nat, fs: map<(nat, string), nat>, ops: seq<Op>, cwd: nat, names: seq<string>, path: string)
    requires ValidRun(Mounted(ino, fs), ops) && cwd in Run(Mounted(ino, fs), ops).nodes && Writes(names, path)
    ensures var s := Run(Mounted(ino, fs), ops);
            && Inv(s)
            && (var (t, r) := Lookup(s, cwd, "/" + path); EndsAt(t, r, Walk(s.fs, [s.nodes[0].ino], names)))
            && (names[0] != "" ==>
                  var (t, r) := Lookup(s, cwd, path); EndsAt(t, r, Walk(s.fs, Place(s, cwd), names)))
  {
    RunInv(Mounted(ino, fs), ops);
    var s := Run(Mounted(ino, fs), ops);
    AbsolutePath(s, cwd, names, path);
    if names[0] != "" {
      RelativePath(s, cwd, names, path);
    }
  }
}
