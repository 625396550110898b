/** Package directories, their validation, and the loader's listings (contract.py, loader.py). */
module Packages {
  import opened Options
  import opened Paths

  /** The files below a directory, by relative path. */
  type Tree = map<Path, string>

  datatype Node = PlainFile(content: string) | Dir(tree: Tree)

  /** The writable apps directory, or the seed directory: its entries by name. */
  type Directory = map<string, Node>

  const MANIFEST := "axionet-app.json"

  predicate HasManifest(t: Tree) {
    [MANIFEST] in t
  }

  /** The apps directory after a package was to be put in place, and whether that went through. */
  datatype Placement = Placement(apps: Directory, ok: bool)

  /** The id pattern `^[a-z][a-z0-9-]*$` of the manifest schema; `$` also matches before a final line feed. */
  predicate MatchesIdPattern(id: string) {
    && id != "" && 'a' <= id[0] <= 'z'
    && forall i :: 0 < i < |id| ==>
         'a' <= id[i] <= 'z' || '0' <= id[i] <= '9' || id[i] == '-' || (i == |id| - 1 && id[i] == '\n')
  }

  /**
    An id of the pattern begins with a small letter and goes on with those, digits and hyphens; a line
    feed can only end it.
   */
  lemma IdPatternGrows(id: string, c: char)
    ensures !MatchesIdPattern("")
    ensures MatchesIdPattern([c]) <==> 'a' <= c <= 'z'
    ensures MatchesIdPattern(id) && '\n' !in id ==>
              (MatchesIdPattern(id + [c]) <==> 'a' <= c <= 'z' || '0' <= c <= '9' || c == '-' || c == '\n')
    ensures '\n' in id ==> !MatchesIdPattern(id + [c])
  {
    var longer := id + [c];
    assert longer[|id|] == c && forall i :: 0 <= i < |id| ==> longer[i] == id[i];
    if '\n' in id {
      var i :| 0 <= i < |id| && id[i] == '\n';
      assert longer[i] == '\n' && i != |longer| - 1;
    }
  }

  lemma PatternIsChildName(id: string)
    requires MatchesIdPattern(id)
    ensures ChildName(id)
  {
    assert id[0] != '/' && id[0] != '.';
  }

  ghost predicate Enumerates(listed: seq<string>, names: set<string>) {
    && (forall n :: n in listed <==> n in names)
    && forall i, j :: 0 <= i < j < |listed| ==> listed[i] != listed[j]
  }

  /** The content of every file there is. */
  type Disk = Path -> Option<string>

  function FileIn(t: Tree, p: Path): Option<string> {
    if p in t then Some(t[p]) else None
  }

  /** What is found at the paths that the manifest of a package at `at` names. */
  function Found(h: Host, t: Tree, disk: Disk, at: Path): seq<Option<string>>
    requires HasManifest(t)
  {
    var paths := h.paths(t[[MANIFEST]]);
    seq(|paths|, i requires 0 <= i < |paths| => disk(Resolved(at, paths[i])))
  }

  /** `validate_app_package` finds no error in the package at `at`. */
  predicate Valid(h: Host, t: Tree, disk: Disk, at: Path) {
    HasManifest(t) && h.conforms(t, Found(h, t, disk, at))
  }

  /**
    What comes from outside: the paths of the five files that a manifest's text names, whether a
    tree with a manifest meets the package contract, given what is found at those paths, the
    manifest's id and version, the order in which a directory's names are listed, where the apps
    directory is, what files there are elsewhere, and what copying a tree to a place other than one
    below the apps directory does to it.
   */
  datatype Host = Host(
    paths: string -> seq<string>,
    conforms: (Tree, seq<Option<string>>) -> bool,
    id: Tree -> string,
    version: Tree -> string,
    list: set<string> -> seq<string>,
    root: Path,
    outside: Disk,
    elsewhere: (Directory, string, Tree) -> Placement)
  {
    /**
      Listings are complete; the contract demands the five files and includes the schema's pattern
      for the manifest's id.
     */
    ghost predicate Valid() {
      && (forall names :: Enumerates(list(names), names))
      && (forall manifest :: |paths(manifest)| == 5)
      && forall t: Tree, found: seq<Option<string>> :: HasManifest(t) && conforms(t, found) ==>
           MatchesIdPattern(id(t)) && None !in found
    }
  }

  /** The file at a path inside a directory. */
  function FileBelow(d: Directory, p: Path): Option<string> {
    if p == [] || p[0] !in d then None
    else
      match d[p[0]]
      case PlainFile(content) => if |p| == 1 then Some(content) else None
      case Dir(tree) => FileIn(tree, p[1..])
  }

  function AppsDisk(h: Host, apps: Directory): Disk {
    p => if h.root <= p then FileBelow(apps, p[|h.root|..]) else h.outside(p)
  }

  /** Directory `name` holds a package that is valid where it is. */
  predicate ValidAt(h: Host, apps: Directory, name: string) {
    name in apps && apps[name].Dir? && Valid(h, apps[name].tree, AppsDisk(h, apps), h.root + [name])
  }

  datatype Loaded = Loaded(directory: string, id: string, version: string, reference: bool)

  predicate IsReference(name: string) {
    name != "" && name[0] == '_'
  }

  predicate Loadable(h: Host, apps: Directory, name: string, includeReference: bool) {
    && ValidAt(h, apps, name)
    && (includeReference || !IsReference(name))
  }

  function Load(h: Host, t: Tree, name: string): Loaded {
    Loaded(name, h.id(t), h.version(t), IsReference(name))
  }

  function LoadedFrom(h: Host, apps: Directory, names: seq<string>, includeReference: bool): seq<Loaded> {
    if names == [] then []
    else if Loadable(h, apps, names[0], includeReference) then
      [Load(h, apps[names[0]].tree, names[0])] + LoadedFrom(h, apps, names[1..], includeReference)
    else LoadedFrom(h, apps, names[1..], includeReference)
  }

  function ListLoaded(h: Host, apps: Directory, includeReference: bool): seq<Loaded> {
    LoadedFrom(h, apps, h.list(apps.Keys), includeReference)
  }

  function First(packages: seq<Loaded>, id: string): Option<Loaded> {
    if packages == [] then None
    else if packages[0].id == id then Some(packages[0])
    else First(packages[1..], id)
  }

  function Last(packages: seq<Loaded>, id: string): Option<Loaded> {
    if packages == [] then None
    else
      var later := Last(packages[1..], id);
      if later.Some? then later else if packages[0].id == id then Some(packages[0]) else None
  }

  /** `get_loaded_package`, which includes reference packages. */
  function GetLoaded(h: Host, apps: Directory, id: string): Option<Loaded> {
    First(ListLoaded(h, apps, true), id)
  }

  // -- The loops ----------------------------------------------------------------------------

  method ListLoadedPackages(h: Host, apps: Directory, includeReference: bool) returns (loaded: seq<Loaded>)
    ensures loaded == ListLoaded(h, apps, includeReference)
    ensures h.Valid() ==>
            forall p :: p in loaded ==>
              Loadable(h, apps, p.directory, includeReference) && p == Load(h, apps[p.directory].tree, p.directory)
  {
    loaded := [];
    var names := h.list(apps.Keys);
    for i := 0 to |names|
      invariant LoadedFrom(h, apps, names, includeReference) ==
                loaded + LoadedFrom(h, apps, names[i..], includeReference)
      invariant forall p :: p in loaded ==>
                Loadable(h, apps, p.directory, includeReference) && p == Load(h, apps[p.directory].tree, p.directory)
    {
      var name := names[i];
      if name in apps && apps[name].Dir? && HasManifest(apps[name].tree) && (includeReference || !IsReference(name)) {
        if Valid(h, apps[name].tree, AppsDisk(h, apps), h.root + [name]) {
          loaded := loaded + [Load(h, apps[name].tree, name)];
        }
      }
    }
  }

  method GetLoadedPackage(h: Host, apps: Directory, id: string) returns (found: Option<Loaded>)
    ensures found == GetLoaded(h, apps, id)
  {
    var packages := ListLoadedPackages(h, apps, true);
    for i := 0 to |packages|
      invariant First(packages, id) == First(packages[i..], id)
    {
      if packages[i].id == id {
        return Some(packages[i]);
      }
    }
    found := None;
  }

  /** The dictionary `{package.id: package}`: the last package of an id stays. */
  method Index(packages: seq<Loaded>) returns (byId: map<string, Loaded>)
    ensures forall id ::
              && (id in byId <==> Last(packages, id).Some?)
              && (id in byId ==> byId[id] == Last(packages, id).value)
  {
    byId := map[];
    for i := 0 to |packages|
      invariant forall id ::
                  && (Last(packages[i..], id).Some? ==> Last(packages, id) == Last(packages[i..], id))
                  && (Last(packages[i..], id).None? ==>
                      Last(packages, id) == if id in byId then Some(byId[id]) else None)
    {
      byId := byId[packages[i].id := packages[i]];
    }
  }

  // -- What a lookup finds ------------------------------------------------------------------

  lemma {:induction false} LoadedMember(h: Host, apps: Directory, names: seq<string>, includeReference: bool, p: Loaded)
    ensures p in LoadedFrom(h, apps, names, includeReference) <==>
            && p.directory in names && Loadable(h, apps, p.directory, includeReference)
            && p == Load(h, apps[p.directory].tree, p.directory)
  {
    if names == [] {
    } else {
      LoadedMember(h, apps, names[1..], includeReference, p);
    }
  }

  /** What is listed: each valid package, reference packages if asked for, under its directory, id and version. */
  lemma LoadedExactly(h: Host, apps: Directory, includeReference: bool, p: Loaded)
    requires h.Valid()
    ensures p in ListLoaded(h, apps, includeReference) <==>
            && ValidAt(h, apps, p.directory)
            && p.id == h.id(apps[p.directory].tree) && p.version == h.version(apps[p.directory].tree)
            && (p.reference <==> "_" <= p.directory) && (p.reference ==> includeReference)
  {
    assert Enumerates(h.list(apps.Keys), apps.Keys);
    LoadedMember(h, apps, h.list(apps.Keys), includeReference, p);
  }

  /** Packages are listed in the order of their directories. */
  lemma {:induction false} LoadedInOrder(h: Host, apps: Directory, a: seq<string>, b: seq<string>,
                                         includeReference: bool)
    ensures LoadedFrom(h, apps, a + b, includeReference) ==
            LoadedFrom(h, apps, a, includeReference) + LoadedFrom(h, apps, b, includeReference)
  {
    if a == [] {
      assert a + b == b;
    } else {
      assert (a + b)[1..] == a[1..] + b;
      LoadedInOrder(h, apps, a[1..], b, includeReference);
    }
  }

  lemma {:induction false} FirstMember(packages: seq<Loaded>, id: string)
    ensures First(packages, id).Some? <==> exists p :: p in packages && p.id == id
    ensures First(packages, id).Some? <==> Last(packages, id).Some?
    ensures First(packages, id).Some? ==> First(packages, id).value in packages && First(packages, id).value.id == id
    ensures Last(packages, id).Some? ==> Last(packages, id).value in packages && Last(packages, id).value.id == id
  {
    if packages == [] {
    } else {
      FirstMember(packages[1..], id);
      assert packages == [packages[0]] + packages[1..];
    }
  }

  /** Directory `name` holds a valid package with the given id. */
  predicate Carries(h: Host, apps: Directory, name: string, id: string, includeReference: bool) {
    Loadable(h, apps, name, includeReference) && h.id(apps[name].tree) == id
  }

  /** Some directory carries the id. */
  ghost predicate Carried(h: Host, apps: Directory, id: string) {
    exists n :: Carries(h, apps, n, id, true)
  }

  /** A lookup succeeds exactly when some directory carries the id, and finds such a directory. */
  lemma LookupFinds(h: Host, apps: Directory, id: string, includeReference: bool)
    requires h.Valid()
    ensures var packages := ListLoaded(h, apps, includeReference);
            && (First(packages, id).Some? <==> exists n :: Carries(h, apps, n, id, includeReference))
            && (First(packages, id).Some? <==> Last(packages, id).Some?)
            && (First(packages, id).Some? ==>
                  forall p | p == First(packages, id).value || p == Last(packages, id).value ::
                    && Carries(h, apps, p.directory, id, includeReference)
                    && p == Load(h, apps[p.directory].tree, p.directory))
  {
    var names := h.list(apps.Keys);
    assert Enumerates(names, apps.Keys);
    var packages := ListLoaded(h, apps, includeReference);
    FirstMember(packages, id);
    if First(packages, id).Some? {
      LoadedMember(h, apps, names, includeReference, First(packages, id).value);
      assert Carries(h, apps, First(packages, id).value.directory, id, includeReference);
      LoadedMember(h, apps, names, includeReference, Last(packages, id).value);
    }
    if n :| Carries(h, apps, n, id, includeReference) {
      LoadedMember(h, apps, names, includeReference, Load(h, apps[n].tree, n));
    }
  }

  // -- What a package reads -----------------------------------------------------------------

  /** The tree is what there is below `at`. */
  ghost predicate Holds(disk: Disk, at: Path, t: Tree) {
    forall p :: disk(at + p) == FileIn(t, p)
  }

  /** The tree on its own, at the root of an otherwise empty disk. */
  function Alone(t: Tree): Disk {
    p => FileIn(t, p)
  }

  /** Every path the manifest names stays inside the package. */
  predicate SelfContained(h: Host, t: Tree) {
    HasManifest(t) && forall rel :: rel in h.paths(t[[MANIFEST]]) ==> Inside(rel)
  }

  predicate ValidAlone(h: Host, t: Tree) {
    Valid(h, t, Alone(t), [])
  }

  lemma FoundInside(h: Host, t: Tree, disk: Disk, at: Path)
    requires SelfContained(h, t) && Holds(disk, at, t)
    ensures Found(h, t, disk, at) == Found(h, t, Alone(t), [])
    ensures Valid(h, t, disk, at) <==> ValidAlone(h, t)
  {
    var paths := h.paths(t[[MANIFEST]]);
    forall i | 0 <= i < |paths| ensures disk(Resolved(at, paths[i])) == Alone(t)(Resolved([], paths[i])) {
      assert paths[i] in paths;
      InsideResolves(at, paths[i]);
      InsideResolves([], paths[i]);
      assert [] + NetOf(paths[i]).down == NetOf(paths[i]).down;
    }
  }

  /** A place at which a path that leaves the package finds something else than on its own. */
  lemma FoundOutside(h: Host, t: Tree, rel: string) returns (disk: Disk, at: Path)
    requires HasManifest(t) && rel in h.paths(t[[MANIFEST]]) && !Inside(rel)
    ensures Holds(disk, at, t) && Found(h, t, disk, at) != Found(h, t, Alone(t), [])
  {
    var net := NetOf(rel);
    var strange := if net.down == [] then "x" else net.down[0] + "x";
    at := seq(if IsAbsolute(rel) then 1 else net.up, _ => strange);
    ResolvedFollows(at, rel);
    ResolvedFollows([], rel);
    assert at[..0] + net.down == net.down && [] + net.down == net.down;
    var here, other := at, if FileIn(t, net.down) == None then Some("") else None;
    disk := p => if here <= p then FileIn(t, p[|here|..]) else other;
    forall p ensures disk(at + p) == FileIn(t, p) {
      assert (at + p)[|at|..] == p;
    }
    assert !(at <= net.down) by {
      if net.down != [] {
        assert |strange| == |net.down[0]| + 1;
        assert at[0] == strange;
      }
    }
    var paths := h.paths(t[[MANIFEST]]);
    var i :| 0 <= i < |paths| && paths[i] == rel;
    assert Found(h, t, disk, at)[i] != Found(h, t, Alone(t), [])[i];
  }

  /** A package is read the same wherever it is placed exactly when it is self-contained. */
  lemma ReadsTheSameExactly(h: Host, t: Tree)
    requires HasManifest(t)
    ensures SelfContained(h, t) <==>
            forall disk: Disk, at: Path | Holds(disk, at, t) :: Found(h, t, disk, at) == Found(h, t, Alone(t), [])
  {
    if SelfContained(h, t) {
      forall disk: Disk, at: Path | Holds(disk, at, t)
        ensures Found(h, t, disk, at) == Found(h, t, Alone(t), [])
      {
        FoundInside(h, t, disk, at);
      }
    } else {
      var rel :| rel in h.paths(t[[MANIFEST]]) && !Inside(rel);
      var disk, at := FoundOutside(h, t, rel);
    }
  }

  lemma DiskBelow(h: Host, apps: Directory, p: Path)
    ensures AppsDisk(h, apps)(h.root + p) == FileBelow(apps, p)
  {
    assert (h.root + p)[|h.root|..] == p;
  }

  lemma FileAt(h: Host, apps: Directory, name: string, p: Path)
    requires name in apps && apps[name].Dir?
    ensures AppsDisk(h, apps)(h.root + [name] + p) == FileIn(apps[name].tree, p)
  {
    var q := [name] + p;
    DiskBelow(h, apps, q);
    assert q[0] == name && q[1..] == p;
    assert h.root + [name] + p == h.root + q;
  }

  lemma AppsHold(h: Host, apps: Directory, name: string)
    requires name in apps && apps[name].Dir?
    ensures Holds(AppsDisk(h, apps), h.root + [name], apps[name].tree)
  {
    forall p ensures AppsDisk(h, apps)(h.root + [name] + p) == FileIn(apps[name].tree, p) {
      FileAt(h, apps, name, p);
    }
  }

  /** An absolute path leads to the file it names, in the apps directory or outside it. */
  lemma AbsolutePathReads(h: Host, apps: Directory, name: string, rel: string, p: Path)
    requires IsAbsolute(rel)
    ensures Resolved(h.root + [name], rel) == NetOf(rel).down
    ensures NetOf(rel).down == h.root + p ==> AppsDisk(h, apps)(Resolved(h.root + [name], rel)) == FileBelow(apps, p)
    ensures !(h.root <= NetOf(rel).down) ==>
              AppsDisk(h, apps)(Resolved(h.root + [name], rel)) == h.outside(NetOf(rel).down)
  {
    ResolvedFollows(h.root + [name], rel);
    DiskBelow(h, apps, p);
  }

  /** A self-contained package is valid in the apps directory exactly when it is valid on its own. */
  lemma SelfContainedValidAt(h: Host, apps: Directory, name: string)
    requires name in apps && apps[name].Dir? && SelfContained(h, apps[name].tree)
    ensures ValidAt(h, apps, name) <==> ValidAlone(h, apps[name].tree)
  {
    AppsHold(h, apps, name);
    FoundInside(h, apps[name].tree, AppsDisk(h, apps), h.root + [name]);
  }

  // -- What a write changes -----------------------------------------------------------------

  /** A path of the manifest in directory `n` leads to the entry `name`. */
  predicate Reads(h: Host, apps: Directory, n: string, name: string) {
    && n in apps && apps[n].Dir? && HasManifest(apps[n].tree)
    && exists rel :: rel in h.paths(apps[n].tree[[MANIFEST]]) && h.root + [name] <= Resolved(h.root + [n], rel)
  }

  /** No other package with the given id reads the entry `name`. */
  predicate Unread(h: Host, apps: Directory, name: string, id: string) {
    forall n :: n in apps && n != name && apps[n].Dir? && h.id(apps[n].tree) == id ==> !Reads(h, apps, n, name)
  }

  lemma SelfContainedReadsNone(h: Host, apps: Directory, n: string, name: string)
    requires n in apps && apps[n].Dir? && SelfContained(h, apps[n].tree) && n != name
    ensures !Reads(h, apps, n, name)
  {
    forall rel | rel in h.paths(apps[n].tree[[MANIFEST]])
      ensures !(h.root + [name] <= Resolved(h.root + [n], rel))
    {
      InsideResolves(h.root + [n], rel);
      var p := h.root + [n] + NetOf(rel).down;
      assert p[|h.root|] == n && (h.root + [name])[|h.root|] == name;
    }
  }

  lemma WriteElsewhere(h: Host, apps: Directory, name: string, node: Node, p: Path)
    requires !(h.root + [name] <= p)
    ensures AppsDisk(h, apps[name := node])(p) == AppsDisk(h, apps)(p)
  {
    if h.root <= p {
      var q := p[|h.root|..];
      DiskBelow(h, apps, q);
      DiskBelow(h, apps[name := node], q);
      assert p == h.root + q;
      assert q != [] ==> p[..|h.root| + 1] == h.root + [q[0]];
    }
  }

  lemma WriteUnseen(h: Host, apps: Directory, name: string, node: Node, n: string)
    requires n in apps && n != name && !Reads(h, apps, n, name)
    ensures ValidAt(h, apps[name := node], n) <==> ValidAt(h, apps, n)
  {
    if apps[n].Dir? && HasManifest(apps[n].tree) {
      var t, at, after := apps[n].tree, h.root + [n], apps[name := node];
      var paths := h.paths(t[[MANIFEST]]);
      forall i | 0 <= i < |paths|
        ensures AppsDisk(h, after)(Resolved(at, paths[i])) == AppsDisk(h, apps)(Resolved(at, paths[i]))
      {
        assert paths[i] in paths;
        WriteElsewhere(h, apps, name, node, Resolved(at, paths[i]));
      }
      assert Found(h, t, AppsDisk(h, after), at) == Found(h, t, AppsDisk(h, apps), at);
    }
  }

  /**
    When no directory carries an id and no other package of that id reads the directory written, a
    lookup succeeds after the write exactly if that directory carries the id. If what was written is
    self-contained, that is decided by its tree alone.
   */
  lemma LookupAfterWrite(h: Host, apps: Directory, name: string, t: Tree, id: string)
    requires h.Valid() && GetLoaded(h, apps, id).None? && Unread(h, apps, name, id)
    ensures var after := apps[name := Dir(t)];
            && GetLoaded(h, after, id) == (if Carries(h, after, name, id, true) then Some(Load(h, t, name)) else None)
            && (SelfContained(h, t) ==> (Carries(h, after, name, id, true) <==> ValidAlone(h, t) && h.id(t) == id))
  {
    var after := apps[name := Dir(t)];
    LookupFinds(h, apps, id, true);
    LookupFinds(h, after, id, true);
    forall n | n != name && Carries(h, after, n, id, true) ensures false {
      WriteUnseen(h, apps, name, Dir(t), n);
      assert Carries(h, apps, n, id, true);
    }
    if SelfContained(h, t) {
      SelfContainedValidAt(h, after, name);
    }
  }

  lemma LookupOwnWrite(h: Host, apps: Directory, name: string, t: Tree)
    requires h.Valid() && SelfContained(h, t) && ValidAlone(h, t)
    ensures GetLoaded(h, apps[name := Dir(t)], h.id(t)).Some?
  {
    var after := apps[name := Dir(t)];
    SelfContainedValidAt(h, after, name);
    LookupFinds(h, after, h.id(t), true);
    assert Carries(h, after, name, h.id(t), true);
  }
}
