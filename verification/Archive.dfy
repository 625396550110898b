/** Unpacking a downloaded archive and finding the package in it (store.py). */
module Archive {
  import opened Options
  import opened Text
  import opened Paths
  import opened Packages

  /** An archive member: its stored name, and its content unless it is a directory. */
  datatype Member = Member(name: string, isDir: bool, content: string)

  // -- Extraction ---------------------------------------------------------------------------

  /** `_assert_within` passes: the target is the base or below it. */
  predicate Within(base: Path, target: Path) {
    base <= target
  }

  /**
    Where extraction puts a member: `zipfile` drops special segments, `tarfile` makes the name relative
    and resolves it.
   */
  function Destination(base: Path, name: string, zip: bool): Path {
    if zip then base + Plain(Split(name, '/')) else Walk(base, Split(name, '/'))
  }

  predicate AllWithin(base: Path, members: seq<Member>) {
    forall i :: 0 <= i < |members| ==> Within(base, Resolved(base, members[i].name))
  }

  /**
    Extraction of a member raises: outside the directory (tar filter), or a file in the place of the
    directory itself.
   */
  predicate Refused(base: Path, m: Member, zip: bool) {
    !Within(base, Destination(base, m.name, zip)) || (!m.isDir && Destination(base, m.name, zip) == base)
  }

  function Written(files: map<Path, string>, base: Path, m: Member, zip: bool): map<Path, string> {
    if m.isDir then files else files[Destination(base, m.name, zip) := m.content]
  }

  /** The files after extracting members in order; `None` once one is refused. */
  function ExtractFrom(files: map<Path, string>, base: Path, members: seq<Member>, zip: bool): Option<map<Path, string>>
    decreases |members|
  {
    if members == [] then Some(files)
    else if Refused(base, members[0], zip) then None
    else ExtractFrom(Written(files, base, members[0], zip), base, members[1..], zip)
  }

  function Extracted(base: Path, members: seq<Member>, zip: bool): Option<map<Path, string>> {
    if AllWithin(base, members) then ExtractFrom(map[], base, members, zip) else None
  }

  /**
    `_extract_archive` up to finding the package: all names are checked before any member is
    written, and whatever is written lies below the extract directory.
   */
  method ExtractArchive(base: Path, members: seq<Member>, zip: bool) returns (ok: bool, files: map<Path, string>)
    ensures forall p :: p in files ==> base < p
    ensures !AllWithin(base, members) ==> !ok && files == map[]
    ensures Extracted(base, members, zip) == if ok then Some(files) else None
  {
    files := map[];
    for i := 0 to |members|
      invariant forall j :: 0 <= j < i ==> Within(base, Resolved(base, members[j].name))
    {
      if !Within(base, Resolved(base, members[i].name)) {
        return false, map[];
      }
    }
    for i := 0 to |members|
      invariant forall p :: p in files ==> base < p
      invariant ExtractFrom(map[], base, members, zip) == ExtractFrom(files, base, members[i..], zip)
    {
      if Refused(base, members[i], zip) {
        return false, files;
      }
      files := Written(files, base, members[i], zip);
    }
    ok := true;
  }

  lemma {:induction false} ExtractKeeps(files: map<Path, string>, base: Path, members: seq<Member>, zip: bool, p: Path)
    requires p in files && ExtractFrom(files, base, members, zip).Some?
    requires forall j :: 0 <= j < |members| && !members[j].isDir ==> Destination(base, members[j].name, zip) != p
    ensures p in ExtractFrom(files, base, members, zip).value
            && ExtractFrom(files, base, members, zip).value[p] == files[p]
    decreases |members|
  {
    if members == [] {
    } else {
      ExtractKeeps(Written(files, base, members[0], zip), base, members[1..], zip, p);
    }
  }

  /** Extraction writes a member's content where that member belongs, unless a later member is written there too. */
  lemma {:induction false} ExtractedContent(files: map<Path, string>, base: Path, members: seq<Member>, zip: bool,
                                            i: nat)
    requires i < |members| && !members[i].isDir && ExtractFrom(files, base, members, zip).Some?
    requires forall j :: i < j < |members| && !members[j].isDir ==>
               Destination(base, members[j].name, zip) != Destination(base, members[i].name, zip)
    ensures var p := Destination(base, members[i].name, zip);
            var out := ExtractFrom(files, base, members, zip).value;
            p in out && out[p] == members[i].content
    decreases |members|
  {
    var p, next := Destination(base, members[i].name, zip), Written(files, base, members[0], zip);
    if i > 0 {
      ExtractedContent(next, base, members[1..], zip, i - 1);
    } else {
      ExtractKeeps(next, base, members[1..], zip, p);
    }
  }

  /** Extraction goes through exactly when no member is refused. */
  lemma {:induction false} ExtractsExactly(files: map<Path, string>, base: Path, members: seq<Member>, zip: bool)
    ensures ExtractFrom(files, base, members, zip).Some? <==>
            forall i :: 0 <= i < |members| ==> !Refused(base, members[i], zip)
    decreases |members|
  {
    if members == [] {
    } else {
      ExtractsExactly(Written(files, base, members[0], zip), base, members[1..], zip);
      assert forall i :: 0 < i < |members| ==> members[i] == members[1..][i - 1];
    }
  }

  /**
    A member whose name is relative and takes no step back goes where the name says, in either kind of
    archive; it passes the check, and extraction refuses it only if it is a file without a name.
   */
  lemma PlainMemberExtracted(base: Path, m: Member, zip: bool)
    requires Target(m.name).Some?
    ensures Destination(base, m.name, zip) == Resolved(base, m.name) == base + Target(m.name).value
    ensures Within(base, Resolved(base, m.name))
    ensures Refused(base, m, zip) <==> !m.isDir && Target(m.name).value == []
  {
    TargetResolves(base, m.name);
    assert Destination(base, m.name, zip) == base + Target(m.name).value;
  }

  // -- Which names pass ---------------------------------------------------------------------

  /** A name comes back to where it climbed from: it goes down through the base's own last segments. */
  predicate Returns(base: Path, net: Net) {
    base[|base| - Climb(base, net.up)..] <= net.down
  }

  lemma PrefixOfBoth(a: Path, b: Path, c: Path)
    ensures a + b <= a + c <==> b <= c
  {
    if a + b <= a + c {
      assert b == (a + b)[|a|..] && c == (a + c)[|a|..];
      assert (a + c)[|a|..|a| + |b|] == c[..|b|];
    }
    if b <= c {
      assert a + c == a + b + c[|b|..];
    }
  }

  /**
    A member name passes the check exactly when, on balance, it climbs no level that it does not go
    down again by the base's own segments; an absolute name has to spell out the whole base.
   */
  lemma NamePassesExactly(base: Path, name: string)
    ensures Within(base, Resolved(base, name)) <==>
            if IsAbsolute(name) then base <= NetOf(name).down else Returns(base, NetOf(name))
  {
    var net := NetOf(name);
    ResolvedFollows(base, name);
    if !IsAbsolute(name) {
      var d := Climb(base, net.up);
      var kept, left := base[..|base| - d], base[|base| - d..];
      assert base == kept + left;
      assert Resolved(base, name) == kept + net.down;
      PrefixOfBoth(kept, left, net.down);
    }
  }

  /** A relative name that never climbs passes, and a tar member of such a name lands where the check looked. */
  lemma HarmlessNamePasses(base: Path, name: string)
    requires Inside(name)
    ensures Within(base, Resolved(base, name)) && Destination(base, name, false) == Resolved(base, name)
  {
    NamePassesExactly(base, name);
  }

  // -- An archive of one file -------------------------------------------------------------

  lemma ChildDestination(base: Path, name: string, zip: bool)
    requires ChildName(name)
    ensures Resolved(base, name) == Destination(base, name, zip) == base + [name]
  {
    JoinIsChildExactly(base, name);
    ChildTarget(name);
  }

  /** An archive of one file under a child name unpacks to that file. */
  lemma LoneMember(base: Path, name: string, content: string)
    requires ChildName(name)
    ensures Extracted(base, [Member(name, false, content)], true) == Some(map[base + [name] := content])
  {
    var m := Member(name, false, content);
    ChildDestination(base, name, true);
    assert |base + [name]| > |base|;
    assert !Refused(base, m, true);
    assert ExtractFrom(map[], base, [m], true) == ExtractFrom(Written(map[], base, m, true), base, [m][1..], true);
    assert AllWithin(base, [m]);
  }

  // -- The package root ---------------------------------------------------------------------

  predicate IsManifest(p: Path) {
    p != [] && p[|p| - 1] == MANIFEST
  }

  function Manifests(files: map<Path, string>): set<Path> {
    set p | p in files && IsManifest(p)
  }

  function Parent(p: Path): Path
    requires p != []
  {
    p[..|p| - 1]
  }

  /** The first of the shallowest paths. */
  function Shallowest(paths: seq<Path>): Path
    requires paths != []
  {
    if |paths| == 1 then paths[0]
    else
      var rest := Shallowest(paths[1..]);
      if |paths[0]| <= |rest| then paths[0] else rest
  }

  ghost predicate Walks(walk: set<Path> -> seq<Path>) {
    forall paths, p :: p in walk(paths) <==> p in paths
  }

  /** `_find_package_root`, where `walk` is the order in which the directory tree yields manifests. */
  function PackageRoot(files: map<Path, string>, base: Path, walk: set<Path> -> seq<Path>): Option<Path> {
    if base + [MANIFEST] in files then Some(base)
    else
      var found := walk(Manifests(files));
      if found == [] || Shallowest(found) == [] then None else Some(Parent(Shallowest(found)))
  }

  lemma {:induction false} ShallowestAppend(paths: seq<Path>, p: Path)
    requires paths != []
    ensures Shallowest(paths + [p]) == if |p| < |Shallowest(paths)| then p else Shallowest(paths)
  {
    if |paths| == 1 {
    } else {
      assert (paths + [p])[1..] == paths[1..] + [p];
      ShallowestAppend(paths[1..], p);
    }
  }

  method FindPackageRoot(files: map<Path, string>, base: Path, walk: set<Path> -> seq<Path>)
    returns (root: Option<Path>)
    ensures root == PackageRoot(files, base, walk)
  {
    if base + [MANIFEST] in files {
      return Some(base);
    }
    var found := walk(Manifests(files));
    if found == [] {
      return None;
    }
    var best := found[0];
    assert found[..1] == [best];
    for i := 1 to |found|
      invariant best == Shallowest(found[..i])
    {
      ShallowestAppend(found[..i], found[i]);
      assert found[..i + 1] == found[..i] + [found[i]];
      if |found[i]| < |best| {
        best := found[i];
      }
    }
    assert found[..|found|] == found;
    root := if best == [] then None else Some(Parent(best));
  }

  lemma {:induction false} ShallowestFacts(paths: seq<Path>)
    requires paths != []
    ensures Shallowest(paths) in paths
    ensures forall p :: p in paths ==> |Shallowest(paths)| <= |p|
  {
    if |paths| == 1 {
    } else {
      ShallowestFacts(paths[1..]);
    }
  }

  /** The files below a directory, by relative path. */
  function Subtree(files: map<Path, string>, root: Path): Tree {
    var inside := set p | p in files && root <= p;
    var relative := set p | p in inside :: p[|root|..];
    map r | r in relative && root + r in files :: files[root + r]
  }

  lemma SubtreeHolds(files: map<Path, string>, root: Path, r: Path)
    ensures r in Subtree(files, root) <==> root + r in files
    ensures r in Subtree(files, root) ==> Subtree(files, root)[r] == files[root + r]
  {
    assert (root + r)[|root|..] == r;
    assert root <= root + r;
  }

  /**
    A package root is found exactly when some extracted file is a manifest. It then lies in the
    extract directory, holds a manifest, and no directory with a manifest is shallower.
   */
  lemma RootIsShallowest(files: map<Path, string>, base: Path, walk: set<Path> -> seq<Path>)
    requires Walks(walk) && forall p :: p in files ==> base < p
    ensures var root := PackageRoot(files, base, walk);
            && (root.Some? <==> exists p :: p in files && IsManifest(p))
            && (root.Some? ==>
                  && Within(base, root.value)
                  && HasManifest(Subtree(files, root.value))
                  && forall p :: p in files && IsManifest(p) ==> |root.value| <= |Parent(p)|)
  {
    var found := walk(Manifests(files));
    assert forall p :: p in found <==> p in Manifests(files);
    if base + [MANIFEST] in files {
      assert IsManifest(base + [MANIFEST]);
      SubtreeHolds(files, base, [MANIFEST]);
    } else if found != [] {
      ShallowestFacts(found);
      var best := Shallowest(found);
      assert best in Manifests(files);
      assert best == Parent(best) + [MANIFEST];
      SubtreeHolds(files, Parent(best), [MANIFEST]);
    } else {
      assert forall p :: p in files && IsManifest(p) ==> p in Manifests(files);
    }
  }
}
