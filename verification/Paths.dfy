/** Lexical paths: joining a relative or absolute name to a directory, and where that leads. */
module Paths {
  import opened Options
  import opened Text

  type Path = seq<string>

  function Walk(at: Path, segments: seq<string>): Path
    decreases |segments|
  {
    if segments == [] then at
    else
      var s := segments[0];
      var next :=
        if s == "" || s == "." then at
        else if s == ".." then (if at == [] then [] else at[..|at| - 1])
        else at + [s];
      Walk(next, segments[1..])
  }

  predicate IsAbsolute(name: string) {
    name != "" && name[0] == '/'
  }

  /** `(base / name).resolve()`. */
  function Resolved(base: Path, name: string): Path {
    Walk(if IsAbsolute(name) then [] else base, Split(name, '/'))
  }

  // -- What a name does on balance ----------------------------------------------------------

  /** What a relative path does on balance: so many levels up, then these names down. */
  datatype Net = Net(up: nat, down: Path)

  function Onward(net: Net, segments: seq<string>): Net
    decreases |segments|
  {
    if segments == [] then net
    else
      var s := segments[0];
      var next :=
        if s == "" || s == "." then net
        else if s == ".." then
          if net.down == [] then Net(net.up + 1, []) else Net(net.up, net.down[..|net.down| - 1])
        else Net(net.up, net.down + [s]);
      Onward(next, segments[1..])
  }

  function NetOf(name: string): Net {
    Onward(Net(0, []), Split(name, '/'))
  }

  /** Climbing stops at the root of the file system. */
  function Climb(base: Path, up: nat): nat {
    if up < |base| then up else |base|
  }

  function Follow(base: Path, net: Net): Path {
    base[..|base| - Climb(base, net.up)] + net.down
  }

  lemma {:induction false} WalkFollows(base: Path, net: Net, segments: seq<string>)
    ensures Walk(Follow(base, net), segments) == Follow(base, Onward(net, segments))
    decreases |segments|
  {
    if segments == [] {
    } else {
      var s, at := segments[0], Follow(base, net);
      if s == "" || s == "." {
        WalkFollows(base, net, segments[1..]);
      } else if s == ".." {
        if net.down == [] {
          assert Follow(base, Net(net.up + 1, [])) == if at == [] then [] else at[..|at| - 1];
          WalkFollows(base, Net(net.up + 1, []), segments[1..]);
        } else {
          assert Follow(base, Net(net.up, net.down[..|net.down| - 1])) == at[..|at| - 1];
          WalkFollows(base, Net(net.up, net.down[..|net.down| - 1]), segments[1..]);
        }
      } else {
        assert Follow(base, Net(net.up, net.down + [s])) == at + [s];
        WalkFollows(base, Net(net.up, net.down + [s]), segments[1..]);
      }
    }
  }

  lemma ResolvedFollows(base: Path, name: string)
    ensures Resolved(base, name) == if IsAbsolute(name) then NetOf(name).down else Follow(base, NetOf(name))
  {
    var at := if IsAbsolute(name) then [] else base;
    assert Follow(at, Net(0, [])) == at;
    WalkFollows(at, Net(0, []), Split(name, '/'));
  }

  /** A name that stays inside whatever directory it is joined to. */
  predicate Inside(name: string) {
    !IsAbsolute(name) && NetOf(name).up == 0
  }

  lemma InsideResolves(base: Path, name: string)
    requires Inside(name)
    ensures Resolved(base, name) == base + NetOf(name).down
  {
    ResolvedFollows(base, name);
  }

  // -- Joining one name to a directory ------------------------------------------------------

  /** A name that denotes an entry of whatever directory it is joined to. */
  predicate ChildName(name: string) {
    name != "" && '/' !in name && name != "." && name != ".."
  }

  lemma {:induction false} OnwardLacksSlash(net: Net, segments: seq<string>)
    requires forall i :: 0 <= i < |segments| ==> '/' !in segments[i]
    requires forall i :: 0 <= i < |net.down| ==> '/' !in net.down[i]
    ensures forall i :: 0 <= i < |Onward(net, segments).down| ==> '/' !in Onward(net, segments).down[i]
    decreases |segments|
  {
    if segments == [] {
    } else {
      var s := segments[0];
      var next :=
        if s == "" || s == "." then net
        else if s == ".." then
          if net.down == [] then Net(net.up + 1, []) else Net(net.up, net.down[..|net.down| - 1])
        else Net(net.up, net.down + [s]);
      OnwardLacksSlash(next, segments[1..]);
    }
  }

  lemma SlashNoChild(dir: Path, name: string)
    requires '/' in name
    ensures Resolved(dir, name) != dir + [name]
  {
    var at, net := if IsAbsolute(name) then [] else dir, NetOf(name);
    assert Follow(at, Net(0, [])) == at;
    WalkFollows(at, Net(0, []), Split(name, '/'));
    PartsLackSeparator(name, '/');
    OnwardLacksSlash(Net(0, []), Split(name, '/'));
    var r, kept := Resolved(dir, name), |at| - Climb(at, net.up);
    assert r == at[..kept] + net.down;
    if |r| > |dir| {
      assert r[|dir|] == net.down[|dir| - kept];
    }
  }

  /** Joining a name to a directory yields the entry of that name exactly when it is a child name. */
  lemma JoinIsChildExactly(dir: Path, name: string)
    ensures Resolved(dir, name) == dir + [name] <==> ChildName(name)
  {
    if '/' in name {
      SlashNoChild(dir, name);
    } else {
      SplitWithout(name, '/');
      assert Walk(dir, [name]) == if name == "" || name == "." then dir
                                  else if name == ".." then (if dir == [] then [] else dir[..|dir| - 1])
                                  else dir + [name] by {
        assert [name][1..] == [];
      }
    }
  }

  /** The names without the empty and the dot segments. */
  function Plain(segments: seq<string>): seq<string> {
    if segments == [] then []
    else if segments[0] in {"", ".", ".."} then Plain(segments[1..])
    else [segments[0]] + Plain(segments[1..])
  }

  /** Where an id leads inside a directory, if it is relative and takes no step back. */
  function Target(id: string): Option<Path> {
    if IsAbsolute(id) || ".." in Split(id, '/') then None else Some(Plain(Split(id, '/')))
  }

  lemma {:induction false} WalkForward(at: Path, segments: seq<string>)
    requires ".." !in segments
    ensures Walk(at, segments) == at + Plain(segments)
    decreases |segments|
  {
    if segments == [] {
    } else {
      var s := segments[0];
      assert s in segments;
      WalkForward(if s == "" || s == "." then at else at + [s], segments[1..]);
    }
  }

  lemma TargetResolves(dir: Path, id: string)
    requires Target(id).Some?
    ensures Resolved(dir, id) == dir + Target(id).value
  {
    WalkForward(dir, Split(id, '/'));
  }

  lemma ChildTarget(name: string)
    requires ChildName(name)
    ensures Target(name) == Some([name])
  {
    SplitWithout(name, '/');
    assert !IsAbsolute(name);
    assert [name][1..] == [];
    assert Plain([name]) == [name];
  }
}
