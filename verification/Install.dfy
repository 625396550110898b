/** Seeding the apps directory, the store view, and installation from the seed or from an archive (store.py). */
module Install {
  import opened Options
  import opened Text
  import opened Base64
  import opened Signatures
  import opened Trust
  import opened Paths
  import opened Packages
  import opened Archive
  import Sources
  import Store

  // -- Outside world ------------------------------------------------------------------------

  /**
    `httpsOk` is the URL check of store.py, `get` a successful HTTP response with its body, `zip`
    whether a URL names a zip archive, `unpack` the members of an archive that can be read, `walk`
    the order in which a directory tree is searched, `extractTo` the temporary extract directory.
   */
  datatype Network = Network(
    httpsOk: string -> bool,
    get: string -> Option<seq<byte>>,
    zip: string -> bool,
    unpack: (seq<byte>, bool) -> Option<seq<Member>>,
    walk: set<Path> -> seq<Path>,
    extractTo: Path)

  datatype Failure =
    | IndexUnavailable | NotInIndex | NotHttps | DownloadFailed | Untrusted(reason: Reason) | BadArchive | NoManifest
    | InvalidPackage | CannotPlace | BadBundledPath | MissingFromSeed | InstalledPackageInvalid | NoInstallableSource

  datatype Outcome =
    | Installed(id: string, version: string)
    | AlreadyInstalled(id: string, version: string)
    | Failed(failure: Failure)

  // -- Seeding ------------------------------------------------------------------------------

  predicate IsPackage(dir: Directory, name: string) {
    name in dir && dir[name].Dir? && HasManifest(dir[name].tree)
  }

  /** The apps directory after `ensure_apps_seeded`; `seed` is `None` when there is no seed directory. */
  function Seeded(apps: Directory, seed: Option<Directory>): Directory {
    if seed.None? then apps
    else map n | n in apps.Keys + seed.value.Keys && (n in apps || IsPackage(seed.value, n)) ::
           if n in apps then apps[n] else seed.value[n]
  }

  // -- Archives -----------------------------------------------------------------------------

  /** `_fetch_optional_signature`: the first candidate that is an https URL with a non-empty body. */
  function FirstSignature(net: Network, candidates: seq<string>): Option<seq<byte>> {
    if candidates == [] then None
    else
      var body := if net.httpsOk(candidates[0]) then net.get(candidates[0]) else None;
      if body.Some? && body.value != [] then body else FirstSignature(net, candidates[1..])
  }

  function SignatureCandidates(archiveUrl: string, signatureUrl: string): seq<string> {
    (if signatureUrl != "" then [signatureUrl] else []) + [archiveUrl + ".sig"]
  }

  datatype Fetched = Package(tree: Tree) | Rejected(failure: Failure)

  /** The disk while an archive lies unpacked below `base`. */
  function ExtractDisk(h: Host, apps: Directory, base: Path, files: map<Path, string>): Disk {
    p => if base <= p then FileIn(files, p) else AppsDisk(h, apps)(p)
  }

  /** Everything an archive install does before it changes the apps directory. */
  function FetchPackage(h: Host, net: Network, c: Crypto, trust: TrustDoc, apps: Directory,
                        url: string, signatureUrl: string): Fetched {
    if !net.httpsOk(url) then Rejected(NotHttps)
    else
      var payload := net.get(url);
      if payload.None? then Rejected(DownloadFailed)
      else
        var v := Enforced(c, trust, payload.value, FirstSignature(net, SignatureCandidates(url, signatureUrl)));
        if v.Refused? then Rejected(Untrusted(v.reason))
        else
          var members := net.unpack(payload.value, net.zip(url));
          var files := if members.Some? then Extracted(net.extractTo, members.value, net.zip(url)) else None;
          if files.None? then Rejected(BadArchive)
          else
            var root := PackageRoot(files.value, net.extractTo, net.walk);
            if root.None? then Rejected(NoManifest)
            else
              var tree := Subtree(files.value, root.value);
              if Valid(h, tree, ExtractDisk(h, apps, net.extractTo, files.value), root.value) then Package(tree)
              else Rejected(InvalidPackage)
  }

  /** `rmtree` raises on a plain file in the place of the directory. */
  predicate Replaceable(apps: Directory, name: string) {
    name in apps ==> apps[name].Dir?
  }

  /** What a directory holds whose files are those of a tree. */
  function TopLevel(t: Tree): Directory {
    var names := set p | p in t && p != [] :: p[0];
    map n | n in names :: if [n] in t then PlainFile(t[[n]]) else Dir(Subtree(t, [n]))
  }

  /** A tree without what lies at a path or below it. */
  function Removed(t: Tree, at: Path): Tree {
    map p | p in t && !(at <= p) :: t[p]
  }

  /** A tree moved below a path. */
  function Moved(t: Tree, at: Path): Tree {
    var moved := set p | p in t :: at + p;
    map p | p in moved && at <= p && p[|at|..] in t :: t[p[|at|..]]
  }

  function TreeOf(apps: Directory, name: string): Tree {
    if name in apps && apps[name].Dir? then apps[name].tree else map[]
  }

  /** A file stands at the path inside the apps directory, or on the way to it. */
  predicate Blocked(apps: Directory, at: Path)
    requires at != []
  {
    !Replaceable(apps, at[0]) || exists i :: 1 < i <= |at| && at[1..i] in TreeOf(apps, at[0])
  }

  /**
    `rmtree`, then `copytree`, at the apps directory joined with an id: an entry of the directory, a
    place inside one, the whole directory for an id such as `.`, or somewhere else.
   */
  function Placed(h: Host, apps: Directory, id: string, t: Tree): Placement {
    match Target(id)
    case None => h.elsewhere(apps, id, t)
    case Some(at) =>
      if at == [] then Placement(TopLevel(t), true)
      else if Blocked(apps, at) then Placement(apps, false)
      else Placement(apps[at[0] := Dir(Removed(TreeOf(apps, at[0]), at[1..]) + Moved(t, at[1..]))], true)
  }

  /** The apps directory and the outcome of `install_from_archive_url`. */
  function ArchiveInstalled(h: Host, net: Network, c: Crypto, trust: TrustDoc, apps: Directory,
                            url: string, signatureUrl: string): (Directory, Outcome) {
    match FetchPackage(h, net, c, trust, apps, url, signatureUrl)
    case Rejected(failure) => (apps, Failed(failure))
    case Package(tree) =>
      var name := h.id(tree);
      var p := Placed(h, apps, name, tree);
      (p.apps,
       if !p.ok then Failed(CannotPlace)
       else if IsPackage(apps, name) then AlreadyInstalled(name, h.version(tree))
       else Installed(name, h.version(tree)))
  }

  // -- The store ----------------------------------------------------------------------------

  predicate PlainName(rel: string) {
    '/' !in rel && '\\' !in rel && (rel != "" ==> rel[0] != '.')
  }

  function BundledPath(entry: Store.Entry, id: string): string {
    if entry.path != "" then entry.path else id
  }

  /** The seed's package that a bundled entry names, if its path is plain and it is there. */
  function SeedPackage(seed: Option<Directory>, entry: Store.Entry, id: string): Option<Tree> {
    var rel := BundledPath(entry, id);
    if seed.Some? && PlainName(rel) && IsPackage(seed.value, rel) then Some(seed.value[rel].tree) else None
  }

  /** The apps directory and the outcome of the bundled branch, on a directory where nothing carries `id`. */
  function BundledInstalled(h: Host, apps: Directory, seed: Option<Directory>, entry: Store.Entry,
                            id: string): (Directory, Outcome) {
    if !PlainName(BundledPath(entry, id)) then (apps, Failed(BadBundledPath))
    else if SeedPackage(seed, entry, id).None? then (apps, Failed(MissingFromSeed))
    else
      var p := Placed(h, apps, id, SeedPackage(seed, entry, id).value);
      var loaded := GetLoaded(h, p.apps, id);
      (p.apps,
       if !p.ok then Failed(CannotPlace)
       else if loaded.Some? then Installed(loaded.value.id, loaded.value.version)
       else Failed(InstalledPackageInvalid))
  }

  /** The apps directory and the outcome of `install_from_store`, given the merged index. */
  function StoreInstalled(h: Host, net: Network, c: Crypto, trust: TrustDoc, merged: Option<Store.Merged>,
                          seed: Option<Directory>, apps0: Directory, id: string): (Directory, Outcome) {
    var apps := Seeded(apps0, seed);
    if merged.None? then (apps, Failed(IndexUnavailable))
    else
      var listing := Store.Find(merged.value.packages, id);
      var existing := GetLoaded(h, apps, id);
      if listing.None? then (apps, Failed(NotInIndex))
      else if existing.Some? then (apps, AlreadyInstalled(existing.value.id, existing.value.version))
      else if listing.value.entry.archiveUrl != "" then
        ArchiveInstalled(h, net, c, trust, apps, listing.value.entry.archiveUrl, listing.value.entry.signatureUrl)
      else if listing.value.entry.source == "bundled" then BundledInstalled(h, apps, seed, listing.value.entry, id)
      else (apps, Failed(NoInstallableSource))
  }

  /** One row of the store view. */
  datatype Status = Status(listing: Store.Listing, installed: bool, version: Option<string>, signingRequired: bool)

  function StatusOf(h: Host, apps: Directory, includeReference: bool, x: Store.Listing): Status {
    var loaded := Last(ListLoaded(h, apps, includeReference), x.entry.id);
    Status(x, loaded.Some?, if loaded.Some? then Some(loaded.value.version) else None, x.entry.archiveUrl != "")
  }

  function Statuses(h: Host, apps: Directory, includeReference: bool, packages: seq<Store.Listing>): seq<Status> {
    seq(|packages|, i requires 0 <= i < |packages| => StatusOf(h, apps, includeReference, packages[i]))
  }

  // -- The machine --------------------------------------------------------------------------

  /** The writable apps directory beside its read-only seed. */
  class AppsDir {
    const host: Host
    const seed: Option<Directory>
    var apps: Directory

    constructor (host: Host, seed: Option<Directory>, apps: Directory)
      ensures this.host == host && this.seed == seed && this.apps == apps
    {
      this.host := host;
      this.seed := seed;
      this.apps := apps;
    }

    method EnsureSeeded()
      requires host.Valid()
      modifies this
      ensures apps == Seeded(old(apps), seed)
    {
      if seed.None? {
        return;
      }
      var names := host.list(seed.value.Keys);
      assert Enumerates(names, seed.value.Keys);
      for i := 0 to |names|
        invariant forall n :: n in apps <==> n in old(apps) || (n in names[..i] && IsPackage(seed.value, n))
        invariant forall n :: n in apps ==> apps[n] == if n in old(apps) then old(apps)[n] else seed.value[n]
      {
        var name := names[i];
        if seed.value[name].Dir? && HasManifest(seed.value[name].tree) && name !in apps {
          apps := apps[name := seed.value[name]];
        }
      }
      assert names[..|names|] == names;
      assert apps == Seeded(old(apps), seed);
    }

    method StoreEntriesWithStatus(includeReference: bool, file: Sources.SourceFile, w: Store.World,
                                  storeIndexUrl: string)
      returns (rows: Option<seq<Status>>)
      requires host.Valid()
      modifies this, file
      ensures apps == Seeded(old(apps), seed) && file.Current() == old(file.Current())
      ensures var merged := Store.MergedIndex(w, Sources.ByPriority(Sources.Enabled(file.Current())), storeIndexUrl);
              rows == if merged.Some? then Some(Statuses(host, apps, includeReference, merged.value.packages)) else None
    {
      EnsureSeeded();
      var merged := Store.MergeStoreIndexes(file, w, storeIndexUrl);
      if merged.None? {
        return None;
      }
      var shown := Rows(includeReference, merged.value.packages);
      rows := Some(shown);
    }

    method Rows(includeReference: bool, listings: seq<Store.Listing>) returns (rows: seq<Status>)
      ensures rows == Statuses(host, apps, includeReference, listings)
    {
      var packages := ListLoadedPackages(host, apps, includeReference);
      var installed := Index(packages);
      rows := [];
      for i := 0 to |listings|
        invariant |rows| == i
        invariant forall j :: 0 <= j < i ==> rows[j] == StatusOf(host, apps, includeReference, listings[j])
      {
        var x := listings[i];
        var id := x.entry.id;
        var version := if id in installed then Some(installed[id].version) else None;
        rows := rows + [Status(x, id in installed, version, x.entry.archiveUrl != "")];
      }
      assert rows == Statuses(host, apps, includeReference, listings);
    }

    method FetchSignature(net: Network, archiveUrl: string, signatureUrl: string) returns (signature: Option<seq<byte>>)
      ensures signature == FirstSignature(net, SignatureCandidates(archiveUrl, signatureUrl))
    {
      var candidates := SignatureCandidates(archiveUrl, signatureUrl);
      for i := 0 to |candidates|
        invariant FirstSignature(net, candidates) == FirstSignature(net, candidates[i..])
      {
        if net.httpsOk(candidates[i]) {
          var body := net.get(candidates[i]);
          if body.Some? && body.value != [] {
            return body;
          }
        }
      }
      signature := None;
    }

    /** Removes what is at the target and copies a package there. */
    method Place(id: string, tree: Tree) returns (ok: bool)
      modifies this
      ensures Placement(apps, ok) == Placed(host, old(apps), id, tree)
    {
      var target := Target(id);
      if target.None? {
        var p := host.elsewhere(apps, id, tree);
        apps, ok := p.apps, p.ok;
        return;
      }
      var at := target.value;
      if at == [] {
        apps := TopLevel(tree);
        return true;
      }
      if Blocked(apps, at) {
        return false;
      }
      var kept := map[];
      if at[0] in apps {
        kept := Removed(apps[at[0]].tree, at[1..]);
      }
      assert kept == Removed(TreeOf(apps, at[0]), at[1..]);
      apps := apps[at[0] := Dir(kept + Moved(tree, at[1..]))];
      ok := true;
    }

    method InstallFromArchiveUrl(net: Network, c: Crypto, trust: TrustFile, url: string, signatureUrl: string)
      returns (r: Outcome)
      modifies this, trust
      ensures trust.Current() == old(trust.Current())
      ensures (apps, r) == ArchiveInstalled(host, net, c, trust.Current(), old(apps), url, signatureUrl)
    {
      if !net.httpsOk(url) {
        return Failed(NotHttps);
      }
      var payload := net.get(url);
      if payload.None? {
        return Failed(DownloadFailed);
      }
      var signature := FetchSignature(net, url, signatureUrl);
      var v := trust.EnforceArchiveTrust(c, payload.value, signature);
      if v.Refused? {
        return Failed(Untrusted(v.reason));
      }
      var members := net.unpack(payload.value, net.zip(url));
      if members.None? {
        return Failed(BadArchive);
      }
      var ok, files := ExtractArchive(net.extractTo, members.value, net.zip(url));
      if !ok {
        return Failed(BadArchive);
      }
      var root := FindPackageRoot(files, net.extractTo, net.walk);
      if root.None? {
        return Failed(NoManifest);
      }
      var tree := Subtree(files, root.value);
      if !Valid(host, tree, ExtractDisk(host, apps, net.extractTo, files), root.value) {
        return Failed(InvalidPackage);
      }
      var name := host.id(tree);
      var already := IsPackage(apps, name);
      var placed := Place(name, tree);
      if !placed {
        return Failed(CannotPlace);
      }
      r := if already then AlreadyInstalled(name, host.version(tree)) else Installed(name, host.version(tree));
    }

    method InstallFromStore(id: string, file: Sources.SourceFile, w: Store.World, storeIndexUrl: string,
                            net: Network, c: Crypto, trust: TrustFile) returns (r: Outcome)
      requires host.Valid()
      modifies this, file, trust
      ensures file.Current() == old(file.Current()) && trust.Current() == old(trust.Current())
      ensures var merged := Store.MergedIndex(w, Sources.ByPriority(Sources.Enabled(file.Current())), storeIndexUrl);
              (apps, r) == StoreInstalled(host, net, c, trust.Current(), merged, seed, old(apps), id)
    {
      EnsureSeeded();
      var merged := Store.MergeStoreIndexes(file, w, storeIndexUrl);
      if merged.None? {
        return Failed(IndexUnavailable);
      }
      var listing := Store.Find(merged.value.packages, id);
      if listing.None? {
        return Failed(NotInIndex);
      }
      var entry := listing.value.entry;
      var existing := GetLoadedPackage(host, apps, id);
      if existing.Some? {
        return AlreadyInstalled(existing.value.id, existing.value.version);
      }
      if entry.archiveUrl != "" {
        r := InstallFromArchiveUrl(net, c, trust, entry.archiveUrl, entry.signatureUrl);
        return;
      }
      if entry.source == "bundled" {
        r := InstallBundled(entry, id);
        return;
      }
      r := Failed(NoInstallableSource);
    }

    method InstallBundled(entry: Store.Entry, id: string) returns (r: Outcome)
      modifies this
      ensures (apps, r) == BundledInstalled(host, old(apps), seed, entry, id)
    {
      var rel := BundledPath(entry, id);
      if !PlainName(rel) {
        return Failed(BadBundledPath);
      }
      if seed.None? || !IsPackage(seed.value, rel) {
        return Failed(MissingFromSeed);
      }
      var placed := Place(id, seed.value[rel].tree);
      if !placed {
        return Failed(CannotPlace);
      }
      var loaded := GetLoadedPackage(host, apps, id);
      if loaded.None? {
        return Failed(InstalledPackageInvalid);
      }
      r := Installed(loaded.value.id, loaded.value.version);
    }
  }

  /** The apps directory replaced by a tree holds what the tree holds. */
  lemma TopLevelHolds(t: Tree, p: Path)
    requires p != [] && (|p| == 1 || [p[0]] !in t)
    ensures FileBelow(TopLevel(t), p) == FileIn(t, p)
  {
    SubtreeHolds(t, [p[0]], p[1..]);
    assert [p[0]] + p[1..] == p;
    if |p| == 1 {
      assert p == [p[0]] && p[1..] == [];
    }
  }

  // -- Bundled installs ---------------------------------------------------------------------

  /** Nothing loads under an id that is no child name, so an install under one never succeeds. */
  lemma LoadedIsChildName(h: Host, apps: Directory, id: string)
    requires h.Valid() && GetLoaded(h, apps, id).Some?
    ensures ChildName(id)
  {
    LookupFinds(h, apps, id, true);
    PatternIsChildName(id);
  }

  lemma PlacedChild(h: Host, apps: Directory, id: string, t: Tree)
    requires ChildName(id)
    ensures Placed(h, apps, id, t) ==
            if Replaceable(apps, id) then Placement(apps[id := Dir(t)], true) else Placement(apps, false)
  {
    ChildTarget(id);
    assert [id][1..] == [];
    var was := TreeOf(apps, id);
    forall p ensures p in Removed(was, []) + Moved(t, []) <==> p in t {
      assert p in t ==> [] + p == p;
    }
    assert Removed(was, []) + Moved(t, []) == t;
  }

  /**
    The bundled branch: the target directory becomes the seed's package before it is looked at, so
    it is replaced even when the install then fails. It succeeds exactly when some directory carries
    the requested id once the seed's package is written.
   */
  lemma BundledOutcome(h: Host, apps: Directory, seed: Option<Directory>, entry: Store.Entry, id: string)
    requires h.Valid() && SeedPackage(seed, entry, id).Some? && Replaceable(apps, id)
    ensures var written := apps[id := Dir(SeedPackage(seed, entry, id).value)];
            var (after, r) := BundledInstalled(h, apps, seed, entry, id);
            && (ChildName(id) ==> after == written)
            && (ChildName(id) && r.Failed? ==> r.failure == InstalledPackageInvalid)
            && (r.Installed? <==> Carried(h, written, id))
            && (r.Installed? ==> ChildName(id) && r.id == id)
  {
    var t := SeedPackage(seed, entry, id).value;
    var written := apps[id := Dir(t)];
    LookupFinds(h, written, id, true);
    if ChildName(id) {
      PlacedChild(h, apps, id, t);
    } else {
      if GetLoaded(h, written, id).Some? {
        LoadedIsChildName(h, written, id);
      }
      var after := Placed(h, apps, id, t).apps;
      if GetLoaded(h, after, id).Some? {
        LoadedIsChildName(h, after, id);
      }
    }
  }

  /**
    When no other package of the requested id reads the target directory, a bundled install that
    succeeds reports the directory it wrote, under the requested id and with the seed's version. For
    a self-contained package it succeeds exactly when that is valid on its own and carries the id.
   */
  lemma BundledIdentity(h: Host, apps: Directory, seed: Option<Directory>, entry: Store.Entry, id: string)
    requires h.Valid() && GetLoaded(h, apps, id).None? && Unread(h, apps, id, id)
    requires SeedPackage(seed, entry, id).Some? && Replaceable(apps, id)
    ensures var t := SeedPackage(seed, entry, id).value;
            var (after, r) := BundledInstalled(h, apps, seed, entry, id);
            && (r.Installed? <==> Carries(h, apps[id := Dir(t)], id, id, true))
            && (r.Installed? ==> r == Installed(id, h.version(t)) && GetLoaded(h, after, id) == Some(Load(h, t, id)))
            && (SelfContained(h, t) ==> (r.Installed? <==> ValidAlone(h, t) && h.id(t) == id))
  {
    var t := SeedPackage(seed, entry, id).value;
    BundledOutcome(h, apps, seed, entry, id);
    LookupAfterWrite(h, apps, id, t, id);
    LookupFinds(h, apps[id := Dir(t)], id, true);
  }

  /** The seed holds a package under a name that has no slash or backslash and does not begin with a dot. */
  predicate SeedHolds(seed: Option<Directory>, name: string, t: Tree) {
    && seed.Some? && name in seed.value && seed.value[name] == Dir(t) && HasManifest(t)
    && '/' !in name && '\\' !in name && !("." <= name)
  }

  /** A bundled entry names the seed's package by its path, and by the id when it has none. */
  lemma SeedPackageExactly(seed: Option<Directory>, entry: Store.Entry, id: string, t: Tree)
    ensures SeedPackage(seed, entry, id) == Some(t) <==> SeedHolds(seed, if entry.path == "" then id else entry.path, t)
  {
  }

  /** What a bundled install fails with before it changes anything. */
  lemma BundledFailsWith(h: Host, apps: Directory, seed: Option<Directory>, entry: Store.Entry, id: string)
    ensures var name, r := if entry.path == "" then id else entry.path, BundledInstalled(h, apps, seed, entry, id);
            && ('/' in name || '\\' in name || "." <= name ==> r == (apps, Failed(BadBundledPath)))
            && ('/' !in name && '\\' !in name && !("." <= name) && SeedPackage(seed, entry, id).None? ==>
                  r == (apps, Failed(MissingFromSeed)))
  {
  }

  /** What the merged index lists under an id. */
  function ListedEntry(merged: Option<Store.Merged>, id: string): Option<Store.Entry> {
    var listing := if merged.Some? then Store.Find(merged.value.packages, id) else None;
    if listing.Some? then Some(listing.value.entry) else None
  }

  /** A plain file of the id's name makes the bundled branch fail. */
  lemma BundledBlocked(h: Host, apps: Directory, seed: Option<Directory>, entry: Store.Entry, id: string)
    requires h.Valid() && SeedPackage(seed, entry, id).Some? && !Replaceable(apps, id)
    ensures BundledInstalled(h, apps, seed, entry, id).1.Failed?
  {
    var t := SeedPackage(seed, entry, id).value;
    if ChildName(id) {
      PlacedChild(h, apps, id, t);
    }
    var after := Placed(h, apps, id, t).apps;
    if GetLoaded(h, after, id).Some? {
      LoadedIsChildName(h, after, id);
    }
  }

  /**
    A store install of an entry without an archive installs something exactly when the entry is
    bundled, the seed holds a package under the bundled name, no plain file is in the way, seeding has
    left no directory that carries the id, and writing the package leaves one that does. For a
    self-contained package, with no other package of the id reading its place, the last condition
    is that the package is valid on its own and carries the id.
   */
  lemma BundledInstalledExactly(h: Host, net: Network, c: Crypto, trust: TrustDoc, merged: Option<Store.Merged>,
                                seed: Option<Directory>, apps: Directory, id: string)
    requires h.Valid() && ListedEntry(merged, id).Some? && ListedEntry(merged, id).value.archiveUrl == ""
    ensures var entry, seeded := ListedEntry(merged, id).value, Seeded(apps, seed);
            var t := SeedPackage(seed, entry, id);
            StoreInstalled(h, net, c, trust, merged, seed, apps, id).1.Installed? <==>
              && entry.source == "bundled" && t.Some? && Replaceable(seeded, id)
              && !Carried(h, seeded, id) && Carried(h, seeded[id := Dir(t.value)], id)
    ensures var entry, seeded := ListedEntry(merged, id).value, Seeded(apps, seed);
            var t := SeedPackage(seed, entry, id);
            (t.Some? && SelfContained(h, t.value) && Unread(h, seeded, id, id)) ==>
              (StoreInstalled(h, net, c, trust, merged, seed, apps, id).1.Installed? <==>
                && entry.source == "bundled" && Replaceable(seeded, id)
                && !Carried(h, seeded, id)
                && ValidAlone(h, t.value) && h.id(t.value) == id)
  {
    var entry, seeded := ListedEntry(merged, id).value, Seeded(apps, seed);
    var t := SeedPackage(seed, entry, id);
    LookupFinds(h, seeded, id, true);
    if GetLoaded(h, seeded, id).None? && t.Some? {
      if Replaceable(seeded, id) {
        BundledOutcome(h, seeded, seed, entry, id);
        if Unread(h, seeded, id, id) {
          BundledIdentity(h, seeded, seed, entry, id);
        }
      } else {
        BundledBlocked(h, seeded, seed, entry, id);
      }
    }
  }

  /**
    Because seeding runs first, installing a self-contained package in this way, where no other
    package of its id reads its place, can only go over something: the apps directory held an entry
    of the bundled path's name before the call, other than the seed's own package.
   */
  lemma BundledInstallNeedsOccupiedName(h: Host, net: Network, c: Crypto, trust: TrustDoc, merged: Option<Store.Merged>,
                                        seed: Option<Directory>, apps: Directory, id: string)
    requires h.Valid() && ListedEntry(merged, id).Some? && ListedEntry(merged, id).value.archiveUrl == ""
    requires StoreInstalled(h, net, c, trust, merged, seed, apps, id).1.Installed?
    requires var t := SeedPackage(seed, ListedEntry(merged, id).value, id);
             (t.Some? ==> SelfContained(h, t.value)) && Unread(h, Seeded(apps, seed), id, id)
    ensures var rel := BundledPath(ListedEntry(merged, id).value, id);
            seed.Some? && rel in seed.value && rel in apps && apps[rel] != seed.value[rel]
  {
    BundledInstalledExactly(h, net, c, trust, merged, seed, apps, id);
    var rel, seeded := BundledPath(ListedEntry(merged, id).value, id), Seeded(apps, seed);
    assert IsPackage(seed.value, rel);
    assert rel in seeded;
    assert !Carries(h, seeded, rel, id, true);
    if seeded[rel] == seed.value[rel] {
      SelfContainedValidAt(h, seeded, rel);
    }
  }

  /**
    The id asked for is joined to the apps directory unchecked. An entry listed under the id `.`, or
    any other name of the directory itself, replaces the whole apps directory by the seed package's
    content, and then fails: every directory not named like one inside that package is gone.
   */
  lemma SelfNameReplacesEverything(h: Host, apps: Directory, seed: Option<Directory>, entry: Store.Entry, id: string)
    requires h.Valid() && Target(id) == Some([]) && SeedPackage(seed, entry, id).Some?
    ensures Target(".") == Some([])
    ensures var (after, r) := BundledInstalled(h, apps, seed, entry, id);
            && r == Failed(InstalledPackageInvalid)
            && forall n :: n in after <==>
                 exists p :: p in SeedPackage(seed, entry, id).value && p != [] && p[0] == n
  {
    SplitWithout(".", '/');
    assert ["."][1..] == [];
    var after := BundledInstalled(h, apps, seed, entry, id).0;
    if GetLoaded(h, after, id).Some? {
      LoadedIsChildName(h, after, id);
      ChildTarget(id);
    }
  }

  lemma TargetOfTwo(a: string, b: string)
    requires ChildName(a) && ChildName(b)
    ensures Target(a + "/" + b) == Some([a, b]) && !ChildName(a + "/" + b)
  {
    SplitAtSeparator(a, b, '/');
    SplitWithout(a, '/');
    SplitWithout(b, '/');
    assert (a + "/" + b)[|a|] == '/';
    assert a + ['/'] + b == a + "/" + b;
    assert [a] + [b] == [a, b] && [a, b][1..] == [b] && [b][1..] == [];
    assert Plain([b]) == [b] && Plain([a, b]) == [a] + Plain([a, b][1..]);
  }

  /**
    An id of two names replaces what the first entry holds under the second name by the seed's
    package, and fails: a directory that is not named by the id has changed.
   */
  lemma InnerNameChangesAnother(h: Host, apps: Directory, seed: Option<Directory>, entry: Store.Entry,
                                a: string, b: string)
    requires h.Valid() && ChildName(a) && ChildName(b) && SeedPackage(seed, entry, a + "/" + b).Some?
    requires a in apps && apps[a].Dir? && [b] !in apps[a].tree
    ensures !ChildName(a + "/" + b)
    ensures var t := SeedPackage(seed, entry, a + "/" + b).value;
            var (after, r) := BundledInstalled(h, apps, seed, entry, a + "/" + b);
            && r == Failed(InstalledPackageInvalid)
            && after == apps[a := Dir(Removed(apps[a].tree, [b]) + Moved(t, [b]))]
            && [b, MANIFEST] in after[a].tree && after[a].tree[[b, MANIFEST]] == t[[MANIFEST]]
  {
    var id, t := a + "/" + b, SeedPackage(seed, entry, a + "/" + b).value;
    TargetOfTwo(a, b);
    assert [a, b][1..] == [b] && [a, b][1..2] == [b];
    assert !Blocked(apps, [a, b]);
    var after := BundledInstalled(h, apps, seed, entry, id).0;
    if GetLoaded(h, after, id).Some? {
      LoadedIsChildName(h, after, id);
    }
    assert [b] + [MANIFEST] == [b, MANIFEST] && [b, MANIFEST][1..] == [MANIFEST];
  }

  // -- Archive installs ---------------------------------------------------------------------

  lemma {:induction false} ExtractedBelow(files: map<Path, string>, base: Path, members: seq<Member>, zip: bool)
    requires forall p :: p in files ==> base < p
    requires ExtractFrom(files, base, members, zip).Some?
    ensures forall p :: p in ExtractFrom(files, base, members, zip).value ==> base < p
    decreases |members|
  {
    if members == [] {
    } else {
      ExtractedBelow(Written(files, base, members[0], zip), base, members[1..], zip);
    }
  }

  /**
    What has passed when an archive install goes through: the URL, the trust policy, every member name,
    the manifest search, the contract.
   */
  lemma ArchivePassedEveryCheck(h: Host, net: Network, c: Crypto, trust: TrustDoc, apps: Directory, url: string,
                                signatureUrl: string)
    requires Walks(net.walk) && FetchPackage(h, net, c, trust, apps, url, signatureUrl).Package?
    ensures var payload := net.get(url).value;
            var members := net.unpack(payload, net.zip(url)).value;
            && net.httpsOk(url)
            && Accepted(Enforced(c, trust, payload, FirstSignature(net, SignatureCandidates(url, signatureUrl))))
            && AllWithin(net.extractTo, members)
            && exists root: Path :: Within(net.extractTo, root)
                 && FetchPackage(h, net, c, trust, apps, url, signatureUrl).tree ==
                    Subtree(Extracted(net.extractTo, members, net.zip(url)).value, root)
  {
    var members := net.unpack(net.get(url).value, net.zip(url)).value;
    var files := Extracted(net.extractTo, members, net.zip(url)).value;
    ExtractedBelow(map[], net.extractTo, members, net.zip(url));
    RootIsShallowest(files, net.extractTo, net.walk);
  }

  lemma ExtractHolds(h: Host, apps: Directory, base: Path, files: map<Path, string>, root: Path)
    requires Within(base, root)
    ensures Holds(ExtractDisk(h, apps, base, files), root, Subtree(files, root))
  {
    forall p ensures ExtractDisk(h, apps, base, files)(root + p) == FileIn(Subtree(files, root), p) {
      SubtreeHolds(files, root, p);
      var q := root + p;
      assert base <= root <= q;
      assert ExtractDisk(h, apps, base, files)(q) == FileIn(files, q);
    }
  }

  /** A URL passes the check and yields a body that is not empty. */
  predicate Served(net: Network, url: string) {
    net.httpsOk(url) && net.get(url).Some? && net.get(url).value != []
  }

  /** The signature of an archive: from the URL given for it, else from the archive's own with `.sig` behind it. */
  lemma SignatureExactly(net: Network, url: string, signatureUrl: string)
    ensures FirstSignature(net, SignatureCandidates(url, signatureUrl)) ==
            if signatureUrl != "" && Served(net, signatureUrl) then net.get(signatureUrl)
            else if Served(net, url + ".sig") then net.get(url + ".sig")
            else None
  {
    var last, own := [url + ".sig"], url + ".sig";
    assert last[1..] == [];
    assert FirstSignature(net, last) == if Served(net, own) then net.get(own) else None;
    if signatureUrl != "" {
      var both := SignatureCandidates(url, signatureUrl);
      assert both[0] == signatureUrl && both[1..] == last;
      assert FirstSignature(net, both) ==
             if Served(net, signatureUrl) then net.get(signatureUrl) else FirstSignature(net, last);
    } else {
      assert SignatureCandidates(url, signatureUrl) == last;
    }
  }

  /** The files of an archive that can be unpacked. */
  predicate Unpacks(net: Network, members: seq<Member>, zip: bool) {
    && (forall i :: 0 <= i < |members| ==> net.extractTo <= Resolved(net.extractTo, members[i].name))
    && forall i :: 0 <= i < |members| ==> !Archive.Refused(net.extractTo, members[i], zip)
  }

  /**
    What an archive has to meet: its URL, its signature, its members, a manifest, and a package at the
    root that is valid there.
   */
  ghost predicate Acceptable(h: Host, net: Network, c: Crypto, trust: TrustDoc, apps: Directory, url: string,
                             signature: Option<seq<byte>>, t: Tree) {
    && net.httpsOk(url) && net.get(url).Some?
    && (if signature.None? then trust.allowUnsigned
        else VerifiedInReach(c, trust.keys, net.get(url).value, signature.value))
    && var members := net.unpack(net.get(url).value, net.zip(url));
       && members.Some? && Unpacks(net, members.value, net.zip(url))
       && var files := ExtractFrom(map[], net.extractTo, members.value, net.zip(url));
          && files.Some? && (exists p :: p in files.value && IsManifest(p))
          && var root := PackageRoot(files.value, net.extractTo, net.walk);
             && root.Some? && t == Subtree(files.value, root.value)
             && Valid(h, t, ExtractDisk(h, apps, net.extractTo, files.value), root.value)
  }

  lemma UnpacksExactly(net: Network, members: seq<Member>, zip: bool)
    requires Walks(net.walk)
    ensures var files := Extracted(net.extractTo, members, zip);
            && (files.Some? <==> Unpacks(net, members, zip))
            && (files.Some? ==>
                  && files == ExtractFrom(map[], net.extractTo, members, zip)
                  && (PackageRoot(files.value, net.extractTo, net.walk).Some? <==>
                      exists p :: p in files.value && IsManifest(p)))
  {
    ExtractsExactly(map[], net.extractTo, members, zip);
    if Unpacks(net, members, zip) {
      ExtractedBelow(map[], net.extractTo, members, zip);
      RootIsShallowest(ExtractFrom(map[], net.extractTo, members, zip).value, net.extractTo, net.walk);
    }
  }

  lemma FetchedExactly(h: Host, net: Network, c: Crypto, trust: TrustDoc, apps: Directory, url: string,
                       signatureUrl: string, t: Tree)
    requires Walks(net.walk)
    ensures FetchPackage(h, net, c, trust, apps, url, signatureUrl) == Package(t) <==>
            Acceptable(h, net, c, trust, apps, url, FirstSignature(net, SignatureCandidates(url, signatureUrl)), t)
  {
    if net.httpsOk(url) && net.get(url).Some? {
      var payload, zip := net.get(url).value, net.zip(url);
      AcceptedExactly(c, trust, payload, FirstSignature(net, SignatureCandidates(url, signatureUrl)));
      var members := net.unpack(payload, zip);
      if members.Some? {
        UnpacksExactly(net, members.value, zip);
      }
    }
  }

  /**
    An archive install goes through exactly when the archive is acceptable and no plain file is in the
    place of the manifest's id. It then reports the manifest's id and version, as already installed
    exactly when there was a package under that id before.
   */
  lemma ArchiveInstalledExactly(h: Host, net: Network, c: Crypto, trust: TrustDoc, apps: Directory, url: string,
                                signatureUrl: string, t: Tree)
    requires h.Valid() && Walks(net.walk)
    ensures var (after, r) := ArchiveInstalled(h, net, c, trust, apps, url, signatureUrl);
            var signature := FirstSignature(net, SignatureCandidates(url, signatureUrl));
            && (!r.Failed? <==>
                exists u :: Acceptable(h, net, c, trust, apps, url, signature, u) && Replaceable(apps, h.id(u)))
            && (Acceptable(h, net, c, trust, apps, url, signature, t) && Replaceable(apps, h.id(t)) ==>
                  && after == apps[h.id(t) := Dir(t)]
                  && r == if IsPackage(apps, h.id(t)) then AlreadyInstalled(h.id(t), h.version(t))
                          else Installed(h.id(t), h.version(t)))
  {
    var signature := FirstSignature(net, SignatureCandidates(url, signatureUrl));
    var f := FetchPackage(h, net, c, trust, apps, url, signatureUrl);
    forall u ensures f == Package(u) <==> Acceptable(h, net, c, trust, apps, url, signature, u) {
      FetchedExactly(h, net, c, trust, apps, url, signatureUrl, u);
    }
    if f.Package? {
      PatternIsChildName(h.id(f.tree));
      PlacedChild(h, apps, h.id(f.tree), f.tree);
    }
  }

  /** A rejected archive names the first obstacle on its way. */
  lemma FetchFailsWith(h: Host, net: Network, c: Crypto, trust: TrustDoc, apps: Directory, url: string,
                       signatureUrl: string)
    requires Walks(net.walk)
    ensures var f := FetchPackage(h, net, c, trust, apps, url, signatureUrl);
            var signature, body := FirstSignature(net, SignatureCandidates(url, signatureUrl)), net.get(url);
            if !net.httpsOk(url) then f == Rejected(NotHttps)
            else if body.None? then f == Rejected(DownloadFailed)
            else
              var v, members := Enforced(c, trust, body.value, signature), net.unpack(body.value, net.zip(url));
              if !Accepted(v) then f == Rejected(Untrusted(v.reason))
              else if members.None? || !Unpacks(net, members.value, net.zip(url)) then f == Rejected(BadArchive)
              else
                var files := ExtractFrom(map[], net.extractTo, members.value, net.zip(url));
                && files.Some?
                && (f == Rejected(NoManifest) <==> !exists p :: p in files.value && IsManifest(p))
                && (f.Rejected? ==> f == Rejected(NoManifest) || f == Rejected(InvalidPackage))
  {
    if net.httpsOk(url) && net.get(url).Some? {
      var members := net.unpack(net.get(url).value, net.zip(url));
      if members.Some? {
        UnpacksExactly(net, members.value, net.zip(url));
      }
    }
  }

  /** A self-contained package that passes in the extract directory is valid on its own. */
  lemma FetchedAlone(h: Host, net: Network, c: Crypto, trust: TrustDoc, apps: Directory, url: string,
                     signatureUrl: string)
    requires Walks(net.walk) && FetchPackage(h, net, c, trust, apps, url, signatureUrl).Package?
    requires SelfContained(h, FetchPackage(h, net, c, trust, apps, url, signatureUrl).tree)
    ensures ValidAlone(h, FetchPackage(h, net, c, trust, apps, url, signatureUrl).tree)
  {
    var members := net.unpack(net.get(url).value, net.zip(url)).value;
    var files := Extracted(net.extractTo, members, net.zip(url)).value;
    ExtractedBelow(map[], net.extractTo, members, net.zip(url));
    RootIsShallowest(files, net.extractTo, net.walk);
    var root := PackageRoot(files, net.extractTo, net.walk).value;
    ExtractHolds(h, apps, net.extractTo, files, root);
    FoundInside(h, Subtree(files, root), ExtractDisk(h, apps, net.extractTo, files), root);
  }

  /**
    An archive install is all or nothing: any failed check leaves every directory as it was;
    otherwise exactly the directory named by the manifest's id becomes the extracted package. If the
    package is self-contained, its id can be loaded then.
   */
  lemma ArchiveAllOrNothing(h: Host, net: Network, c: Crypto, trust: TrustDoc, apps: Directory, url: string,
                            signatureUrl: string)
    requires h.Valid()
    ensures var (after, r) := ArchiveInstalled(h, net, c, trust, apps, url, signatureUrl);
            var f := FetchPackage(h, net, c, trust, apps, url, signatureUrl);
            && (r.Failed? ==> after == apps)
            && (!r.Failed? ==>
                  && f.Package? && HasManifest(f.tree) && r.id == h.id(f.tree) && r.version == h.version(f.tree)
                  && after == apps[r.id := Dir(f.tree)]
                  && (Walks(net.walk) && SelfContained(h, f.tree) ==> GetLoaded(h, after, r.id).Some?))
  {
    var f := FetchPackage(h, net, c, trust, apps, url, signatureUrl);
    if f.Package? {
      PatternIsChildName(h.id(f.tree));
      PlacedChild(h, apps, h.id(f.tree), f.tree);
      if Walks(net.walk) && SelfContained(h, f.tree) {
        FetchedAlone(h, net, c, trust, apps, url, signatureUrl);
        LookupOwnWrite(h, apps, h.id(f.tree), f.tree);
      }
    }
  }

  /**
    The policy end to end: with a trust store that edits can produce and unsigned archives not
    allowed, an archive that gets installed came with a signature that some stored key verifies on
    exactly the bytes that were unpacked.
   */
  lemma InstalledArchiveWasVerified(h: Host, net: Network, c: Crypto, edits: seq<Edit>, apps: Directory, url: string,
                                    signatureUrl: string)
    requires !Trust.Run(DEFAULT_TRUST, edits).allowUnsigned
    requires !ArchiveInstalled(h, net, c, Trust.Run(DEFAULT_TRUST, edits), apps, url, signatureUrl).1.Failed?
    ensures var signature := FirstSignature(net, SignatureCandidates(url, signatureUrl));
            && signature.Some?
            && exists k :: k in Trust.Run(DEFAULT_TRUST, edits).keys
                 && Verifies(c, k, net.get(url).value, signature.value)
                 && DecodePublicKey(k.publicKey).Some?
                 && DecodeSignature(signature.value, c.utf8(signature.value)).Some?
                 && c.ed25519(DecodePublicKey(k.publicKey).value, net.get(url).value,
                              DecodeSignature(signature.value, c.utf8(signature.value)).value)
  {
    TrustDecision(c, edits, net.get(url).value, FirstSignature(net, SignatureCandidates(url, signatureUrl)));
  }

  /**
    The id asked for is not compared with the archive's manifest: what changes is the directory of
    the manifest's id. When no other package of the requested id reads that directory, the requested
    id can be loaded afterwards exactly when the downloaded manifest carries it and the package is
    valid where it was copied; the latter always holds of a self-contained package.
   */
  lemma RequestedIdLoadsExactly(h: Host, net: Network, c: Crypto, trust: TrustDoc, merged: Option<Store.Merged>,
                                seed: Option<Directory>, apps: Directory, id: string)
    requires h.Valid() && ListedEntry(merged, id).Some? && ListedEntry(merged, id).value.archiveUrl != ""
    requires GetLoaded(h, Seeded(apps, seed), id).None?
    requires !StoreInstalled(h, net, c, trust, merged, seed, apps, id).1.Failed?
    ensures var (after, r) := StoreInstalled(h, net, c, trust, merged, seed, apps, id);
            var entry, seeded := ListedEntry(merged, id).value, Seeded(apps, seed);
            var f := FetchPackage(h, net, c, trust, seeded, entry.archiveUrl, entry.signatureUrl);
            && f.Package? && HasManifest(f.tree)
            && after == seeded[h.id(f.tree) := Dir(f.tree)]
            && (Unread(h, seeded, h.id(f.tree), id) ==>
                  (GetLoaded(h, after, id).Some? <==> h.id(f.tree) == id && ValidAt(h, after, id)))
            && (Unread(h, seeded, h.id(f.tree), id) && Walks(net.walk) && SelfContained(h, f.tree) ==>
                  (GetLoaded(h, after, id).Some? <==> h.id(f.tree) == id))
  {
    var entry, seeded := ListedEntry(merged, id).value, Seeded(apps, seed);
    var f := FetchPackage(h, net, c, trust, seeded, entry.archiveUrl, entry.signatureUrl);
    ArchiveAllOrNothing(h, net, c, trust, seeded, entry.archiveUrl, entry.signatureUrl);
    if Unread(h, seeded, h.id(f.tree), id) {
      LookupAfterWrite(h, seeded, h.id(f.tree), f.tree, id);
      if Walks(net.walk) && SelfContained(h, f.tree) {
        FetchedAlone(h, net, c, trust, seeded, entry.archiveUrl, entry.signatureUrl);
      }
    }
  }

  // -- Witnesses ----------------------------------------------------------------------------

  /** Some listing of a set. */
  ghost function SomeOrder<T(!new)>(names: set<T>): (listed: seq<T>)
    ensures forall n :: n in listed <==> n in names
    ensures forall i, j :: 0 <= i < j < |listed| ==> listed[i] != listed[j]
  {
    if names == {} then []
    else
      var n :| n in names;
      [n] + SomeOrder(names - {n})
  }

  /** A contract that asks no more than a manifest and the five files, all at one path, and has one id for all. */
  ghost function OnePathHost(id: string, rel: string): Host {
    Host(_ => seq(5, _ => rel), (_, found) => None !in found, _ => id, _ => "1", names => SomeOrder(names),
         ["apps"], _ => None, (apps, _, _) => Placement(apps, false))
  }

  /** A network on which one URL yields an archive of the given members. */
  ghost function OneArchive(url: string, members: seq<Member>): Network {
    Network(_ => true, u => if u == url then Some([]) else None, _ => true, (_, _) => Some(members),
            paths => SomeOrder(paths), ["tmp"])
  }

  lemma NoSignature(net: Network, url: string)
    requires net.get(url + ".sig").None?
    ensures FirstSignature(net, SignatureCandidates(url, "")) == None
  {
    assert [url + ".sig"][1..] == [];
    assert SignatureCandidates(url, "") == [url + ".sig"];
  }

  /** Without a signature and with unsigned archives allowed, the rest of the checks decides. */
  lemma UnsignedFetched(h: Host, net: Network, c: Crypto, apps: Directory, url: string, members: seq<Member>,
                        files: map<Path, string>, root: Path)
    requires net.httpsOk(url) && net.get(url).Some? && net.get(url + ".sig").None?
    requires net.unpack(net.get(url).value, net.zip(url)) == Some(members)
    requires Extracted(net.extractTo, members, net.zip(url)) == Some(files)
    requires PackageRoot(files, net.extractTo, net.walk) == Some(root)
    requires Valid(h, Subtree(files, root), ExtractDisk(h, apps, net.extractTo, files), root)
    ensures FetchPackage(h, net, c, DEFAULT_TRUST, apps, url, "") == Package(Subtree(files, root))
  {
    NoSignature(net, url);
  }

  /** A file that every one of the five paths leads to, in the extract directory, makes the package valid there. */
  lemma OnePathValid(id: string, rel: string, t: Tree, disk: Disk, at: Path)
    requires HasManifest(t)
    ensures Valid(OnePathHost(id, rel), t, disk, at) <==> disk(Resolved(at, rel)).Some?
  {
    var h := OnePathHost(id, rel);
    var found := Found(h, t, disk, at);
    assert |found| == 5 && forall i :: 0 <= i < 5 ==> found[i] == disk(Resolved(at, rel));
    assert found[0] == disk(Resolved(at, rel));
  }

  /** The archive installs, when its one package root holds a manifest beside what the five paths lead to. */
  lemma OneArchiveInstalled(c: Crypto, url: string, id: string, rel: string, members: seq<Member>,
                            files: map<Path, string>, root: Path)
    requires MatchesIdPattern(id) && Extracted(["tmp"], members, true) == Some(files)
    requires PackageRoot(files, ["tmp"], OneArchive(url, members).walk) == Some(root)
    requires root + [MANIFEST] in files && ["tmp"] <= Resolved(root, rel) && Resolved(root, rel) in files
    ensures ArchiveInstalled(OnePathHost(id, rel), OneArchive(url, members), c, DEFAULT_TRUST, map[], url, "") ==
            (map[id := Dir(Subtree(files, root))], Installed(id, "1"))
  {
    var h, net, t := OnePathHost(id, rel), OneArchive(url, members), Subtree(files, root);
    SubtreeHolds(files, root, [MANIFEST]);
    var disk, r := ExtractDisk(h, map[], ["tmp"], files), Resolved(root, rel);
    assert disk(r) == FileIn(files, r) == Some(files[r]);
    OnePathValid(id, rel, t, disk, root);
    assert |url + ".sig"| == |url| + 4;
    UnsignedFetched(h, net, c, map[], url, members, files, root);
    PatternIsChildName(id);
    PlacedChild(h, map[], id, t);
  }

  lemma ManifestOnly(url: string, name: string)
    requires name == MANIFEST && ChildName(name)
    ensures var members := [Member(name, false, "")];
            && Extracted(["tmp"], members, true) == Some(map[["tmp", name] := ""])
            && PackageRoot(map[["tmp", name] := ""], ["tmp"], OneArchive(url, members).walk) == Some(["tmp"])
  {
    LoneMember(["tmp"], name, "");
    assert ["tmp"] + [name] == ["tmp", name];
  }

  lemma ManifestIsChildName()
    ensures MANIFEST == "axionet-app.json" && ChildName(MANIFEST)
  {
  }

  lemma OnePathHostValid(id: string, rel: string)
    requires MatchesIdPattern(id)
    ensures OnePathHost(id, rel).Valid()
  {
  }

  lemma OnlyOthersLoad(h: Host, apps: Directory, id: string)
    requires h.Valid() && forall n :: n in apps && apps[n].Dir? ==> h.id(apps[n].tree) != id
    ensures GetLoaded(h, apps, id).None?
  {
    LookupFinds(h, apps, id, true);
  }

  /** An index with one entry, which names an archive. */
  function OneEntry(id: string, url: string): Store.Merged {
    Store.Merged(false, None, [], [Store.Listing(Store.Entry(id, "1", "github", "", url, ""), "s", "s")])
  }

  lemma OneEntryInstalls(h: Host, net: Network, c: Crypto, id: string, url: string)
    requires url != "" && GetLoaded(h, map[], id).None?
    ensures ListedEntry(Some(OneEntry(id, url)), id).Some?
    ensures StoreInstalled(h, net, c, DEFAULT_TRUST, Some(OneEntry(id, url)), None, map[], id) ==
            ArchiveInstalled(h, net, c, DEFAULT_TRUST, map[], url, "")
  {
  }

  lemma ManifestInstalled(c: Crypto, url: string, id: string, name: string)
    requires name == MANIFEST && ChildName(name) && MatchesIdPattern(id)
    ensures ArchiveInstalled(OnePathHost(id, name), OneArchive(url, [Member(name, false, "")]), c, DEFAULT_TRUST, map[],
                             url, "") ==
            (map[id := Dir(Subtree(map[["tmp", name] := ""], ["tmp"]))], Installed(id, "1"))
  {
    ManifestOnly(url, name);
    JoinIsChildExactly(["tmp"], name);
    assert ["tmp"] + [name] == ["tmp", name];
    OneArchiveInstalled(c, url, id, name, [Member(name, false, "")], map[["tmp", name] := ""], ["tmp"]);
  }

  /** For any two different ids there is an archive that the store lists under one and that installs under the other. */
  lemma RequestedIdMayNotLoad(c: Crypto, url: string, wanted: string, carried: string)
    returns (h: Host, net: Network, merged: Store.Merged)
    requires url != "" && wanted != carried && MatchesIdPattern(carried)
    ensures h.Valid() && Walks(net.walk) && ListedEntry(Some(merged), wanted).Some?
    ensures var (after, r) := StoreInstalled(h, net, c, DEFAULT_TRUST, Some(merged), None, map[], wanted);
            r == Installed(carried, "1") && GetLoaded(h, after, wanted).None?
  {
    var name := MANIFEST;
    ManifestIsChildName();
    h, net := OnePathHost(carried, name), OneArchive(url, [Member(name, false, "")]);
    merged := OneEntry(wanted, url);
    OnePathHostValid(carried, name);
    ManifestInstalled(c, url, carried, name);
    OnlyOthersLoad(h, map[], wanted);
    OneEntryInstalls(h, net, c, wanted, url);
    OnlyOthersLoad(h, map[carried := Dir(Subtree(map[["tmp", name] := ""], ["tmp"]))], wanted);
  }

  lemma StepBack(at: Path, dir: string, rest: string)
    requires Target(rest).Some?
    ensures Resolved(at + [dir], "../" + rest) == at + Target(rest).value
  {
    var rel, from := "../" + rest, at + [dir];
    SplitAtSeparator("..", rest, '/');
    assert ".." + ['/'] + rest == rel;
    SplitWithout("..", '/');
    assert rel[0] == '.' && ([".."] + Split(rest, '/'))[1..] == Split(rest, '/');
    assert from[..|from| - 1] == at;
    assert Walk(from, [".."] + Split(rest, '/')) == Walk(at, Split(rest, '/'));
    TargetResolves(at, rest);
  }

  lemma SiblingPath(at: Path, dir: string, name: string)
    requires ChildName(name)
    ensures Resolved(at + [dir], "../" + name) == at + [name]
  {
    ChildTarget(name);
    StepBack(at, dir, name);
  }

  /** An archive with a manifest one level down and another file at its top. */
  function SiblingMembers(dir: string, manifest: string, name: string): seq<Member> {
    [Member(dir + "/" + manifest, false, ""), Member(name, false, "x")]
  }

  function SiblingFiles(dir: string, manifest: string, name: string): map<Path, string> {
    map[["tmp", dir, manifest] := ""][["tmp", name] := "x"]
  }

  lemma SiblingExtracted(dir: string, manifest: string, name: string)
    requires ChildName(dir) && ChildName(manifest) && ChildName(name)
    ensures Extracted(["tmp"], SiblingMembers(dir, manifest, name), true) == Some(SiblingFiles(dir, manifest, name))
  {
    var base, members := ["tmp"], SiblingMembers(dir, manifest, name);
    TargetOfTwo(dir, manifest);
    TargetResolves(base, dir + "/" + manifest);
    ChildDestination(base, name, true);
    assert base + [dir, manifest] == ["tmp", dir, manifest] && base + [name] == ["tmp", name];
    assert Destination(base, members[0].name, true) == ["tmp", dir, manifest];
    assert Within(base, Resolved(base, members[0].name)) && Within(base, Resolved(base, members[1].name));
    var one := Written(map[], base, members[0], true);
    assert one == map[["tmp", dir, manifest] := ""];
    assert !Archive.Refused(base, members[0], true) && !Archive.Refused(base, members[1], true);
    assert members[1..] == [members[1]] && members[1..][1..] == [];
    assert ExtractFrom(one, base, members[1..], true) == Some(Written(one, base, members[1], true));
  }

  lemma SiblingRoot(dir: string, manifest: string, name: string, walk: set<Path> -> seq<Path>)
    requires manifest == MANIFEST && name != MANIFEST && Walks(walk)
    ensures PackageRoot(SiblingFiles(dir, manifest, name), ["tmp"], walk) == Some(["tmp", dir])
  {
    var files := SiblingFiles(dir, manifest, name);
    var p, q: Path := ["tmp", dir, manifest], ["tmp", name];
    assert forall r :: r in files <==> r == p || r == q;
    assert q[1] == name && (["tmp"] + [MANIFEST])[1] == MANIFEST;
    assert IsManifest(p) && !IsManifest(q);
    assert p in walk(Manifests(files));
    ShallowestFacts(walk(Manifests(files)));
    assert Shallowest(walk(Manifests(files))) in Manifests(files);
    assert Parent(p) == ["tmp", dir];
  }

  lemma SiblingInstalled(c: Crypto, url: string, id: string, dir: string, manifest: string, name: string)
    requires manifest == MANIFEST && ChildName(manifest) && name != MANIFEST
    requires MatchesIdPattern(id) && ChildName(dir) && ChildName(name)
    ensures var t := Subtree(SiblingFiles(dir, manifest, name), ["tmp", dir]);
            && HasManifest(t)
            && ArchiveInstalled(OnePathHost(id, "../" + name), OneArchive(url, SiblingMembers(dir, manifest, name)), c,
                                DEFAULT_TRUST, map[], url, "") == (map[id := Dir(t)], Installed(id, "1"))
  {
    var members, files, root := SiblingMembers(dir, manifest, name), SiblingFiles(dir, manifest, name), ["tmp", dir];
    SiblingExtracted(dir, manifest, name);
    SiblingRoot(dir, manifest, name, OneArchive(url, members).walk);
    SiblingPath(["tmp"], dir, name);
    assert ["tmp"] + [dir] == root && ["tmp"] + [name] == ["tmp", name];
    assert root + [MANIFEST] == ["tmp", dir, manifest];
    SubtreeHolds(files, root, [MANIFEST]);
    OneArchiveInstalled(c, url, id, "../" + name, members, files, root);
  }

  lemma SiblingMissing(id: string, rel: string, name: string, t: Tree)
    requires MatchesIdPattern(id) && ChildName(name) && rel == "../" + name && name != id
    ensures GetLoaded(OnePathHost(id, rel), map[id := Dir(t)], id).None?
  {
    var h, apps := OnePathHost(id, rel), map[id := Dir(t)];
    OnePathHostValid(id, rel);
    LookupFinds(h, apps, id, true);
    SiblingPath(["apps"], id, name);
    if HasManifest(t) {
      OnePathValid(id, rel, t, AppsDisk(h, apps), ["apps"] + [id]);
      DiskBelow(h, apps, [name]);
    }
  }

  /**
    Not every package that installs can be loaded: an archive whose manifest names a file beside the
    package's directory is valid where it was unpacked. Installed, the file is missing.
   */
  lemma SiblingFileIsLost(c: Crypto, url: string, id: string, dir: string, name: string)
    returns (h: Host, net: Network, t: Tree)
    requires MatchesIdPattern(id) && ChildName(dir) && ChildName(name) && name != MANIFEST && name != id
    ensures h == OnePathHost(id, "../" + name) && h.Valid() && HasManifest(t)
    ensures ArchiveInstalled(h, net, c, DEFAULT_TRUST, map[], url, "") == (map[id := Dir(t)], Installed(id, "1"))
    ensures Walks(net.walk) && GetLoaded(h, map[id := Dir(t)], id).None?
  {
    var manifest := MANIFEST;
    ManifestIsChildName();
    h, net := OnePathHost(id, "../" + name), OneArchive(url, SiblingMembers(dir, manifest, name));
    t := Subtree(SiblingFiles(dir, manifest, name), ["tmp", dir]);
    OnePathHostValid(id, "../" + name);
    SiblingInstalled(c, url, id, dir, manifest, name);
    SiblingMissing(id, "../" + name, name, t);
  }

  /** A listing that begins with a given name if it is there. */
  ghost function Leading(first: string, names: set<string>): (listed: seq<string>)
    ensures Enumerates(listed, names)
    ensures first in names ==> listed != [] && listed[0] == first
  {
    if first in names then [first] + SomeOrder(names - {first}) else SomeOrder(names)
  }

  /** A host on which every package reads the manifest of the directory `id`, and `first` is listed first. */
  ghost function ReadingHost(id: string, first: string): Host {
    OnePathHost(id, "../" + (id + "/" + MANIFEST)).(list := names => Leading(first, names))
  }

  lemma ReadingValid(id: string, first: string, apps: Directory, n: string)
    requires ChildName(id) && n in apps && apps[n].Dir? && HasManifest(apps[n].tree)
    ensures ValidAt(ReadingHost(id, first), apps, n) <==> id in apps && apps[id].Dir? && HasManifest(apps[id].tree)
  {
    var h, rel, m := ReadingHost(id, first), "../" + (id + "/" + MANIFEST), MANIFEST;
    ManifestIsChildName();
    TargetOfTwo(id, m);
    StepBack(["apps"], n, id + "/" + m);
    DiskBelow(h, apps, [id, m]);
    assert [id, m][1..] == [m];
    var found := Found(h, apps[n].tree, AppsDisk(h, apps), h.root + [n]);
    assert forall i :: 0 <= i < 5 ==> found[i] == FileBelow(apps, [id, m]);
    assert None in found <==> found[0] == None;
  }

  lemma ReadingHostValid(id: string, first: string)
    requires MatchesIdPattern(id)
    ensures ReadingHost(id, first).Valid()
  {
    var h := ReadingHost(id, first);
    forall names ensures Enumerates(h.list(names), names) {
      assert h.list(names) == Leading(first, names);
    }
  }

  lemma ReadingAnswers(id: string, other: string, t: Tree, u: Tree)
    requires MatchesIdPattern(id) && other != id && HasManifest(t) && HasManifest(u)
    ensures var h, apps := ReadingHost(id, other), map[other := Dir(u)];
            && h.Valid() && GetLoaded(h, apps, id).None?
            && GetLoaded(h, apps[id := Dir(t)], id) == Some(Load(h, u, other))
  {
    var h, apps := ReadingHost(id, other), map[other := Dir(u)];
    var after := apps[id := Dir(t)];
    PatternIsChildName(id);
    ReadingHostValid(id, other);
    LookupFinds(h, apps, id, true);
    ReadingValid(id, other, apps, other);
    ReadingValid(id, other, after, other);
    var names := h.list(after.Keys);
    assert other in after.Keys && names[0] == other;
  }

  /**
    Without the condition on other packages, a bundled install can report a directory that it did
    not write: one that carries the id, but is valid only once the written directory is there.
   */
  lemma AnotherPackageAnswers(id: string, other: string, t: Tree, u: Tree, entry: Store.Entry)
    requires MatchesIdPattern(id) && other != id && HasManifest(t) && HasManifest(u)
    requires BundledPath(entry, id) == id && PlainName(id)
    ensures var h, apps, seed := ReadingHost(id, other), map[other := Dir(u)], Some(map[id := Dir(t)]);
            && h.Valid() && GetLoaded(h, apps, id).None? && !Unread(h, apps, id, id)
            && BundledInstalled(h, apps, seed, entry, id) == (apps[id := Dir(t)], Installed(id, "1"))
            && GetLoaded(h, apps[id := Dir(t)], id) == Some(Load(h, u, other))
  {
    var h, apps := ReadingHost(id, other), map[other := Dir(u)];
    ReadingAnswers(id, other, t, u);
    PatternIsChildName(id);
    PlacedChild(h, apps, id, t);
    if Unread(h, apps, id, id) {
      LookupAfterWrite(h, apps, id, t, id);
    }
  }

  // -- The view and the action --------------------------------------------------------------

  /**
    Whatever the store view reports as installed, an install of it changes nothing; the versions agree
    unless two directories carry the id.
   */
  lemma ViewAgreesWithInstall(h: Host, net: Network, c: Crypto, trust: TrustDoc, merged: Store.Merged,
                              seed: Option<Directory>, apps: Directory, x: Store.Listing)
    requires h.Valid() && Store.Find(merged.packages, x.entry.id).Some?
    requires StatusOf(h, Seeded(apps, seed), false, x).installed
    ensures var (after, r) := StoreInstalled(h, net, c, trust, Some(merged), seed, apps, x.entry.id);
            && after == Seeded(apps, seed) && r.AlreadyInstalled? && r.id == x.entry.id
            && ((forall n, m ::
                    Carries(h, after, n, x.entry.id, true) && Carries(h, after, m, x.entry.id, true) ==> n == m) ==>
                  StatusOf(h, after, false, x).version == Some(r.version))
  {
    var seeded, id := Seeded(apps, seed), x.entry.id;
    LookupFinds(h, seeded, id, false);
    LookupFinds(h, seeded, id, true);
    var shown := Last(ListLoaded(h, seeded, false), id).value;
    assert Carries(h, seeded, shown.directory, id, true);
  }

  /**
    The view has one row for each listing, in order: installed exactly when a directory carries the id,
    reference directories aside unless asked for, with the version of such a directory; archives are
    what needs signing.
   */
  lemma ViewExactly(h: Host, apps: Directory, includeReference: bool, packages: seq<Store.Listing>, i: nat)
    requires h.Valid() && i < |packages|
    ensures var rows := Statuses(h, apps, includeReference, packages);
            && |rows| == |packages| && rows[i].listing == packages[i]
            && (rows[i].signingRequired <==> packages[i].entry.archiveUrl != "")
            && (rows[i].installed <==> exists n :: Carries(h, apps, n, packages[i].entry.id, includeReference))
            && (rows[i].version.Some? <==> rows[i].installed)
            && (rows[i].installed ==>
                  exists n :: Carries(h, apps, n, packages[i].entry.id, includeReference)
                    && rows[i].version == Some(h.version(apps[n].tree)))
  {
    var id := packages[i].entry.id;
    LookupFinds(h, apps, id, includeReference);
    var found := Last(ListLoaded(h, apps, includeReference), id);
    if found.Some? {
      assert Carries(h, apps, found.value.directory, id, includeReference);
    }
  }

  /**
    What a store install does when nothing carries the id: it goes by the index, by the entry's archive,
    else by its source.
   */
  lemma StoreInstallsBy(h: Host, net: Network, c: Crypto, trust: TrustDoc, merged: Option<Store.Merged>,
                        seed: Option<Directory>, apps: Directory, id: string)
    requires h.Valid()
    ensures var r := StoreInstalled(h, net, c, trust, merged, seed, apps, id);
            && (merged.None? ==> r == (Seeded(apps, seed), Failed(IndexUnavailable)))
            && (merged.Some? && ListedEntry(merged, id).None? ==> r == (Seeded(apps, seed), Failed(NotInIndex)))
            && (ListedEntry(merged, id).Some? && Carried(h, Seeded(apps, seed), id) ==>
                  r.0 == Seeded(apps, seed) && r.1.AlreadyInstalled? && r.1.id == id)
            && (ListedEntry(merged, id).Some? && !Carried(h, Seeded(apps, seed), id) ==>
                  var entry := ListedEntry(merged, id).value;
                  && (entry.archiveUrl == "" && entry.source != "bundled" ==>
                        r == (Seeded(apps, seed), Failed(NoInstallableSource))))
  {
    LookupFinds(h, Seeded(apps, seed), id, true);
  }

  /**
    The lookup before an install finds a package exactly when the view reports one, or only reference
    directories carry the id.
   */
  lemma ViewMissesReferences(h: Host, apps: Directory, x: Store.Listing)
    requires h.Valid()
    ensures GetLoaded(h, apps, x.entry.id).Some? <==>
            || StatusOf(h, apps, false, x).installed
            || exists n :: "_" <= n && Carries(h, apps, n, x.entry.id, true)
  {
    LookupFinds(h, apps, x.entry.id, false);
    LookupFinds(h, apps, x.entry.id, true);
    if n :| Carries(h, apps, n, x.entry.id, true) && !IsReference(n) {
      assert Carries(h, apps, n, x.entry.id, false);
    }
    if n :| Carries(h, apps, n, x.entry.id, false) {
      assert Carries(h, apps, n, x.entry.id, true);
    }
  }

  // -- Runs ---------------------------------------------------------------------------------

  /** A step on the apps directory, with everything from outside that it sees. */
  datatype Op =
    | Seed
    | FromStore(net: Network, c: Crypto, trust: TrustDoc, merged: Option<Store.Merged>, id: string)
    | FromArchive(net: Network, c: Crypto, trust: TrustDoc, url: string, signatureUrl: string)

  function Step(h: Host, seed: Option<Directory>, apps: Directory, op: Op): Directory {
    match op
    case Seed => Seeded(apps, seed)
    case FromStore(net, c, trust, merged, id) => StoreInstalled(h, net, c, trust, merged, seed, apps, id).0
    case FromArchive(net, c, trust, url, signatureUrl) => ArchiveInstalled(h, net, c, trust, apps, url, signatureUrl).0
  }

  function Run(h: Host, seed: Option<Directory>, apps: Directory, ops: seq<Op>): Directory
    decreases |ops|
  {
    if ops == [] then apps else Run(h, seed, Step(h, seed, apps, ops[0]), ops[1..])
  }

  /**
    An install step, taken at `apps`, writes under the entry `name`: for an archive that passes, the
    one of the manifest's id; for a bundled entry, the first name of the id asked for.
   */
  predicate InstallsUnder(h: Host, seed: Option<Directory>, apps: Directory, op: Op, name: string) {
    match op
    case Seed => false
    case FromArchive(net, c, trust, url, signatureUrl) =>
      var f := FetchPackage(h, net, c, trust, apps, url, signatureUrl);
      f.Package? && h.id(f.tree) == name
    case FromStore(net, c, trust, merged, id) =>
      && ListedEntry(merged, id).Some?
      && var entry := ListedEntry(merged, id).value;
         if entry.archiveUrl != "" then
           var f := FetchPackage(h, net, c, trust, Seeded(apps, seed), entry.archiveUrl, entry.signatureUrl);
           f.Package? && h.id(f.tree) == name
         else entry.source == "bundled" && Target(id).Some? && [name] <= Target(id).value
  }

  /** A bundled entry is asked for under an id that leads to a place below the apps directory, without a step back. */
  predicate AsksBelow(op: Op) {
    match op
    case FromStore(_, _, _, merged, id) =>
      var entry := ListedEntry(merged, id);
      (entry.Some? && entry.value.archiveUrl == "" && entry.value.source == "bundled") ==>
        Target(id).Some? && Target(id).value != []
    case _ => true
  }

  /** No step of a run writes under the entry `name`. */
  predicate NeverUnder(h: Host, seed: Option<Directory>, apps: Directory, ops: seq<Op>, name: string) {
    forall i :: 0 <= i < |ops| ==> !InstallsUnder(h, seed, Run(h, seed, apps, ops[..i]), ops[i], name)
  }

  lemma SeedingOnlyAdds(apps: Directory, seed: Option<Directory>)
    ensures forall n :: n in apps ==> n in Seeded(apps, seed) && Seeded(apps, seed)[n] == apps[n]
    ensures seed.Some? ==> forall n :: IsPackage(seed.value, n) ==> n in Seeded(apps, seed)
  {
  }

  lemma ArchiveKeepsOthers(h: Host, net: Network, c: Crypto, trust: TrustDoc, apps: Directory,
                           url: string, signatureUrl: string, name: string)
    requires h.Valid() && name in apps
    ensures var after, f := ArchiveInstalled(h, net, c, trust, apps, url, signatureUrl).0,
                            FetchPackage(h, net, c, trust, apps, url, signatureUrl);
            name in after && (!(f.Package? && h.id(f.tree) == name) ==> after[name] == apps[name])
  {
    ArchiveAllOrNothing(h, net, c, trust, apps, url, signatureUrl);
  }

  lemma BundledKeepsOthers(h: Host, apps: Directory, seed: Option<Directory>, entry: Store.Entry, id: string,
                           name: string)
    requires name in apps && Target(id).Some? && Target(id).value != []
    ensures var after := BundledInstalled(h, apps, seed, entry, id).0;
            name in after && (Target(id).value[0] != name ==> after[name] == apps[name])
  {
  }

  lemma StoreKeepsOthers(h: Host, seed: Option<Directory>, apps: Directory, net: Network, c: Crypto, trust: TrustDoc,
                         merged: Option<Store.Merged>, id: string, name: string)
    requires var op := FromStore(net, c, trust, merged, id); h.Valid() && AsksBelow(op) && name in apps
    ensures var op, after := FromStore(net, c, trust, merged, id),
                             StoreInstalled(h, net, c, trust, merged, seed, apps, id).0;
            name in after && (!InstallsUnder(h, seed, apps, op, name) ==> after[name] == apps[name])
  {
    SeedingOnlyAdds(apps, seed);
    if ListedEntry(merged, id).Some? {
      var entry, seeded := ListedEntry(merged, id).value, Seeded(apps, seed);
      if entry.archiveUrl != "" {
        ArchiveKeepsOthers(h, net, c, trust, seeded, entry.archiveUrl, entry.signatureUrl, name);
      } else if entry.source == "bundled" {
        BundledKeepsOthers(h, seeded, seed, entry, id, name);
      }
    }
  }

  lemma StepKeepsOthers(h: Host, seed: Option<Directory>, apps: Directory, op: Op, name: string)
    requires h.Valid() && AsksBelow(op) && name in apps
    ensures name in Step(h, seed, apps, op)
    ensures !InstallsUnder(h, seed, apps, op, name) ==> Step(h, seed, apps, op)[name] == apps[name]
  {
    SeedingOnlyAdds(apps, seed);
    match op
    case Seed =>
    case FromArchive(net, c, trust, url, signatureUrl) =>
      ArchiveKeepsOthers(h, net, c, trust, apps, url, signatureUrl, name);
    case FromStore(net, c, trust, merged, id) =>
      StoreKeepsOthers(h, seed, apps, net, c, trust, merged, id, name);
  }

  lemma NeverUnderTail(h: Host, seed: Option<Directory>, apps: Directory, ops: seq<Op>, name: string)
    requires ops != [] && NeverUnder(h, seed, apps, ops, name)
    ensures !InstallsUnder(h, seed, apps, ops[0], name)
    ensures NeverUnder(h, seed, Step(h, seed, apps, ops[0]), ops[1..], name)
  {
    assert ops[..0] == [];
    var next := Step(h, seed, apps, ops[0]);
    forall i | 0 <= i < |ops[1..]|
      ensures !InstallsUnder(h, seed, Run(h, seed, next, ops[1..][..i]), ops[1..][i], name)
    {
      assert ops[..i + 1][0] == ops[0] && ops[..i + 1][1..] == ops[1..][..i];
      assert !InstallsUnder(h, seed, Run(h, seed, apps, ops[..i + 1]), ops[i + 1], name);
    }
  }

  /**
    In every run that asks for bundled entries below the apps directory only, a directory never
    disappears, and it changes only if some step writes under its name.
   */
  lemma {:induction false} RunReplacesOnlyInstalled(h: Host, seed: Option<Directory>, apps: Directory, ops: seq<Op>,
                                                    name: string)
    requires h.Valid() && (forall i :: 0 <= i < |ops| ==> AsksBelow(ops[i])) && name in apps
    ensures name in Run(h, seed, apps, ops)
    ensures NeverUnder(h, seed, apps, ops, name) ==> Run(h, seed, apps, ops)[name] == apps[name]
    decreases |ops|
  {
    if ops == [] {
    } else {
      StepKeepsOthers(h, seed, apps, ops[0], name);
      RunReplacesOnlyInstalled(h, seed, Step(h, seed, apps, ops[0]), ops[1..], name);
      if NeverUnder(h, seed, apps, ops, name) {
        NeverUnderTail(h, seed, apps, ops, name);
      }
    }
  }

  lemma NothingToSeed(apps: Directory, seed: Option<Directory>)
    requires seed.Some? ==> forall n :: IsPackage(seed.value, n) ==> n in apps
    ensures Seeded(apps, seed) == apps
  {
  }

  /** After a first seeding, every later one in such a run is a no-op, whatever was installed in between. */
  lemma LaterSeedingsDoNothing(h: Host, seed: Option<Directory>, apps: Directory, ops: seq<Op>)
    requires h.Valid() && forall i :: 0 <= i < |ops| ==> AsksBelow(ops[i])
    ensures var later := Run(h, seed, Seeded(apps, seed), ops);
            Seeded(later, seed) == later
  {
    var first := Seeded(apps, seed);
    SeedingOnlyAdds(apps, seed);
    forall n | n in first ensures n in Run(h, seed, first, ops) {
      RunReplacesOnlyInstalled(h, seed, first, ops, n);
    }
    NothingToSeed(Run(h, seed, first, ops), seed);
  }
}
