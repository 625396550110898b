/**
  The service catalog: builtin definitions overlaid by packages, and the plugin registry beside it
  (catalog.py, registry.py, generic/plugin.py).
 */
module Catalog {
  import opened Options

  /** What the catalog reads of a loaded package; `runtime` tells whether its manifest declares a container runtime. */
  datatype Package = Package(id: string, serviceType: string, runtime: bool, image: string)

  datatype Definition = Definition(serviceType: string, enabled: bool, image: string, fromPackage: bool)

  /** `definition_from_package`. */
  function FromPackage(p: Package): Definition {
    Definition(p.serviceType, true, if p.image != "" then p.image else p.serviceType, true)
  }

  predicate Lists(defs: seq<Definition>, serviceType: string) {
    exists i :: 0 <= i < |defs| && defs[i].serviceType == serviceType
  }

  predicate DistinctTypes(defs: seq<Definition>) {
    forall i, j :: 0 <= i < j < |defs| ==> defs[i].serviceType != defs[j].serviceType
  }

  /** `package_for_service_type`: the first loaded package of the type that declares a runtime. */
  function PackageFor(packages: seq<Package>, serviceType: string): Option<Package> {
    if packages == [] then None
    else if packages[0].serviceType == serviceType && packages[0].runtime then Some(packages[0])
    else PackageFor(packages[1..], serviceType)
  }

  function Builtin(builtins: seq<Definition>, serviceType: string): Option<Definition> {
    if builtins == [] then None
    else if builtins[0].serviceType == serviceType then Some(builtins[0])
    else Builtin(builtins[1..], serviceType)
  }

  /**
    The definition the catalog should show for a type: an enabled builtin, else a package's, else a
    disabled builtin.
   */
  function Effective(builtins: seq<Definition>, packages: seq<Package>, serviceType: string): Option<Definition> {
    var builtin, package := Builtin(builtins, serviceType), PackageFor(packages, serviceType);
    if builtin.Some? && builtin.value.enabled then builtin
    else if package.Some? then Some(FromPackage(package.value))
    else builtin
  }

  /** The types that packages add, in the order of their first package with a runtime. */
  function AddedTypes(builtins: seq<Definition>, packages: seq<Package>): seq<string>
    decreases |packages|
  {
    if packages == [] then []
    else
      var init, p := packages[..|packages| - 1], packages[|packages| - 1];
      var before := AddedTypes(builtins, init);
      if p.runtime && !Lists(builtins, p.serviceType) && p.serviceType !in before then before + [p.serviceType]
      else before
  }

  /** `ordered` is a catalog: the effective definition of each builtin type, then of each added type. */
  ghost predicate IsCatalog(ordered: seq<Definition>, builtins: seq<Definition>, packages: seq<Package>) {
    var added := AddedTypes(builtins, packages);
    && |ordered| == |builtins| + |added|
    && (forall i :: 0 <= i < |builtins| ==> Some(ordered[i]) == Effective(builtins, packages, builtins[i].serviceType))
    && (forall i :: 0 <= i < |added| ==> Some(ordered[|builtins| + i]) == Effective(builtins, packages, added[i]))
  }

  // -- The overlay loops --------------------------------------------------------------------

  lemma {:induction false} BuiltinFound(builtins: seq<Definition>, i: nat)
    requires i < |builtins| && DistinctTypes(builtins)
    ensures Builtin(builtins, builtins[i].serviceType) == Some(builtins[i])
  {
    if i > 0 {
      assert builtins[0].serviceType != builtins[i].serviceType;
      BuiltinFound(builtins[1..], i - 1);
    }
  }

  lemma {:induction false} BuiltinListed(builtins: seq<Definition>, serviceType: string)
    ensures Builtin(builtins, serviceType).Some? <==> Lists(builtins, serviceType)
    ensures Builtin(builtins, serviceType).Some? ==> Builtin(builtins, serviceType).value.serviceType == serviceType
  {
    if builtins == [] {
    } else {
      BuiltinListed(builtins[1..], serviceType);
      assert builtins == [builtins[0]] + builtins[1..];
      if Lists(builtins[1..], serviceType) {
        var i :| 0 <= i < |builtins[1..]| && builtins[1..][i].serviceType == serviceType;
        assert builtins[i + 1].serviceType == serviceType;
      }
    }
  }

  lemma BuiltinAt(builtins: seq<Definition>)
    requires DistinctTypes(builtins)
    ensures forall i :: 0 <= i < |builtins| ==> Effective(builtins, [], builtins[i].serviceType) == Some(builtins[i])
    ensures forall t :: Effective(builtins, [], t).Some? ==> Lists(builtins, t)
  {
    forall t ensures Builtin(builtins, t).Some? <==> Lists(builtins, t) {
      BuiltinListed(builtins, t);
    }
    forall i | 0 <= i < |builtins| ensures Builtin(builtins, builtins[i].serviceType) == Some(builtins[i]) {
      BuiltinFound(builtins, i);
    }
  }

  /** The dictionary `{item["service_type"]: item}` of the builtins, with its insertion order. */
  method BuiltinsByType(builtins: seq<Definition>) returns (keys: seq<string>, byType: map<string, Definition>)
    requires DistinctTypes(builtins)
    ensures |keys| == |builtins| && forall j :: 0 <= j < |keys| ==> keys[j] == builtins[j].serviceType
    ensures forall t :: t in byType <==> t in keys
    ensures forall t :: Effective(builtins, [], t) == if t in byType then Some(byType[t]) else None
  {
    keys, byType := [], map[];
    for i := 0 to |builtins|
      invariant |keys| == i && forall j :: 0 <= j < i ==> keys[j] == builtins[j].serviceType
      invariant forall t :: t in byType <==> t in keys
      invariant forall j :: 0 <= j < i ==>
                builtins[j].serviceType in byType && byType[builtins[j].serviceType] == builtins[j]
    {
      keys := keys + [builtins[i].serviceType];
      byType := byType[builtins[i].serviceType := builtins[i]];
    }
    BuiltinAt(builtins);
  }

  lemma OwnTypes(builtins: seq<Definition>, own: seq<string>, t: string)
    requires |own| == |builtins| && forall j :: 0 <= j < |own| ==> own[j] == builtins[j].serviceType
    ensures t in own <==> Lists(builtins, t)
  {
  }

  lemma AddedAppend(builtins: seq<Definition>, packages: seq<Package>, p: Package)
    ensures var before := AddedTypes(builtins, packages);
            AddedTypes(builtins, packages + [p]) ==
            if p.runtime && !Lists(builtins, p.serviceType) && p.serviceType !in before then before + [p.serviceType]
            else before
  {
    assert (packages + [p])[..|packages|] == packages;
  }

  lemma {:induction false} PackageForAppend(packages: seq<Package>, p: Package, t: string)
    ensures PackageFor(packages + [p], t) ==
            if PackageFor(packages, t).Some? then PackageFor(packages, t)
            else if p.serviceType == t && p.runtime then Some(p) else None
  {
    if packages == [] {
    } else {
      assert (packages + [p])[1..] == packages[1..] + [p];
      PackageForAppend(packages[1..], p, t);
    }
  }

  lemma EffectiveAppend(builtins: seq<Definition>, packages: seq<Package>, p: Package)
    ensures forall t :: Effective(builtins, packages + [p], t) ==
              var before := Effective(builtins, packages, t);
              if p.runtime && p.serviceType == t && !(before.Some? && before.value.enabled) then Some(FromPackage(p))
              else before
  {
    forall t {
      PackageForAppend(packages, p, t);
    }
  }

  /** The dictionary holds each type's effective definition. */
  ghost predicate Holds(byType: map<string, Definition>, builtins: seq<Definition>, packages: seq<Package>) {
    forall t :: Effective(builtins, packages, t) == if t in byType then Some(byType[t]) else None
  }

  lemma HoldsNext(byType: map<string, Definition>, builtins: seq<Definition>, packages: seq<Package>, p: Package)
    requires Holds(byType, builtins, packages)
    ensures var t := p.serviceType;
            var taken := p.runtime && !(t in byType && byType[t].enabled);
            Holds(if taken then byType[t := FromPackage(p)] else byType, builtins, packages + [p])
  {
    EffectiveAppend(builtins, packages, p);
  }

  /** The overlay loop: a package with a runtime takes a free type or that of a disabled definition. */
  method Overlay(builtins: seq<Definition>, packages: seq<Package>)
    returns (keys: seq<string>, byType: map<string, Definition>)
    requires DistinctTypes(builtins)
    ensures |keys| == |builtins| + |AddedTypes(builtins, packages)|
    ensures forall j :: 0 <= j < |builtins| ==> keys[j] == builtins[j].serviceType
    ensures keys[|builtins|..] == AddedTypes(builtins, packages)
    ensures forall t :: t in byType <==> t in keys
    ensures Holds(byType, builtins, packages)
  {
    keys, byType := BuiltinsByType(builtins);
    ghost var own := keys;
    assert own + AddedTypes(builtins, []) == own;
    for i := 0 to |packages|
      invariant keys == own + AddedTypes(builtins, packages[..i])
      invariant forall t :: t in byType <==> t in keys
      invariant Holds(byType, builtins, packages[..i])
    {
      var p := packages[i];
      HoldsNext(byType, builtins, packages[..i], p);
      assert packages[..i + 1] == packages[..i] + [p];
      AddedAppend(builtins, packages[..i], p);
      OwnTypes(builtins, own, p.serviceType);
      if p.runtime && !(p.serviceType in byType && byType[p.serviceType].enabled) {
        if p.serviceType !in byType {
          keys := keys + [p.serviceType];
        }
        byType := byType[p.serviceType := FromPackage(p)];
      }
    }
    assert packages[..|packages|] == packages;
  }

  method ReadOut(builtins: seq<Definition>, keys: seq<string>, byType: map<string, Definition>)
    returns (ordered: seq<Definition>)
    requires |builtins| <= |keys| && forall j :: 0 <= j < |builtins| ==> keys[j] == builtins[j].serviceType
    requires forall t :: t in byType <==> t in keys
    requires forall i :: 0 <= i < |keys| ==> (keys[i] in keys[..|builtins|] <==> i < |builtins|)
    ensures |ordered| == |keys| && forall j :: 0 <= j < |keys| ==> keys[j] in byType && ordered[j] == byType[keys[j]]
  {
    var n := |builtins|;
    ordered := [];
    var seen: set<string> := {};
    for i := 0 to n
      invariant |ordered| == i && forall j :: 0 <= j < i ==> keys[j] in byType && ordered[j] == byType[keys[j]]
      invariant forall t :: t in seen <==> t in keys[..i]
    {
      assert keys[i] == builtins[i].serviceType;
      ordered := ordered + [byType[builtins[i].serviceType]];
      seen := seen + {builtins[i].serviceType};
    }
    for i := 0 to |keys|
      invariant |ordered| == if i <= n then n else i
      invariant forall j :: 0 <= j < |ordered| ==> keys[j] in byType && ordered[j] == byType[keys[j]]
    {
      if keys[i] !in seen {
        ordered := ordered + [byType[keys[i]]];
      }
    }
  }

  lemma {:induction false} AddedAreNew(builtins: seq<Definition>, packages: seq<Package>)
    ensures var added := AddedTypes(builtins, packages);
            && (forall i, j :: 0 <= i < j < |added| ==> added[i] != added[j])
            && (forall t :: t in added <==> !Lists(builtins, t) && PackageFor(packages, t).Some?)
    decreases |packages|
  {
    if packages == [] {
    } else {
      var init, p := packages[..|packages| - 1], packages[|packages| - 1];
      AddedAreNew(builtins, init);
      assert packages == init + [p];
      forall t ensures PackageFor(packages, t) ==
                       if PackageFor(init, t).Some? then PackageFor(init, t)
                       else if p.serviceType == t && p.runtime then Some(p) else None {
        PackageForAppend(init, p, t);
      }
    }
  }

  /** Among the keys, those that are no builtin's type are exactly the added ones behind. */
  lemma UnseenAreAdded(builtins: seq<Definition>, packages: seq<Package>, keys: seq<string>)
    requires |builtins| <= |keys| && keys[|builtins|..] == AddedTypes(builtins, packages)
    requires forall j :: 0 <= j < |builtins| ==> keys[j] == builtins[j].serviceType
    ensures forall i :: 0 <= i < |keys| ==> (keys[i] in keys[..|builtins|] <==> i < |builtins|)
  {
    var n := |builtins|;
    AddedAreNew(builtins, packages);
    forall i | n <= i < |keys| ensures keys[i] !in keys[..n] {
      assert keys[i] == keys[n..][i - n];
      assert !Lists(builtins, keys[i]);
    }
  }

  lemma ReadOutIsCatalog(ordered: seq<Definition>, builtins: seq<Definition>, packages: seq<Package>, keys: seq<string>)
    requires |ordered| == |keys| >= |builtins| && keys[|builtins|..] == AddedTypes(builtins, packages)
    requires forall j :: 0 <= j < |builtins| ==> keys[j] == builtins[j].serviceType
    requires forall j :: 0 <= j < |keys| ==> Some(ordered[j]) == Effective(builtins, packages, keys[j])
    ensures IsCatalog(ordered, builtins, packages)
  {
    forall i | 0 <= i < |AddedTypes(builtins, packages)|
      ensures keys[|builtins| + i] == AddedTypes(builtins, packages)[i]
    {
      assert keys[|builtins|..][i] == keys[|builtins| + i];
    }
  }

  /**
    `list_service_definitions`: the overlaid dictionary is read out in builtin order, then for the types
    seen in no builtin.
   */
  method ListServiceDefinitions(builtins: seq<Definition>, packages: seq<Package>) returns (ordered: seq<Definition>)
    requires DistinctTypes(builtins)
    ensures IsCatalog(ordered, builtins, packages)
  {
    var keys, byType := Overlay(builtins, packages);
    UnseenAreAdded(builtins, packages, keys);
    ordered := ReadOut(builtins, keys, byType);
    ReadOutIsCatalog(ordered, builtins, packages, keys);
  }

  /** A package of a type is the first listed that declares a runtime. */
  lemma {:induction false} PackageForExactly(packages: seq<Package>, t: string, i: nat)
    requires i < |packages| && packages[i].serviceType == t && packages[i].runtime
    requires forall j :: 0 <= j < i ==> !(packages[j].serviceType == t && packages[j].runtime)
    ensures PackageFor(packages, t) == Some(packages[i])
  {
    if i == 0 {
    } else {
      PackageForExactly(packages[1..], t, i - 1);
    }
  }

  // -- What the catalog shows ---------------------------------------------------------------

  lemma {:induction false} PackageForType(packages: seq<Package>, t: string)
    ensures PackageFor(packages, t).Some? ==>
            PackageFor(packages, t).value.serviceType == t && PackageFor(packages, t).value.runtime
  {
    if packages == [] {
    } else {
      PackageForType(packages[1..], t);
    }
  }

  lemma EffectiveType(builtins: seq<Definition>, packages: seq<Package>, t: string)
    ensures Effective(builtins, packages, t).Some? ==> Effective(builtins, packages, t).value.serviceType == t
  {
    BuiltinListed(builtins, t);
    PackageForType(packages, t);
  }

  lemma ShownType(ordered: seq<Definition>, builtins: seq<Definition>, packages: seq<Package>, i: nat)
    requires IsCatalog(ordered, builtins, packages) && i < |ordered|
    ensures ordered[i].serviceType ==
            if i < |builtins| then builtins[i].serviceType else AddedTypes(builtins, packages)[i - |builtins|]
  {
    var added, n := AddedTypes(builtins, packages), |builtins|;
    if i < n {
      EffectiveType(builtins, packages, builtins[i].serviceType);
    } else {
      var k := i - n;
      assert Some(ordered[n + k]) == Effective(builtins, packages, added[k]);
      EffectiveType(builtins, packages, added[k]);
    }
  }

  lemma AddedAt(builtins: seq<Definition>, packages: seq<Package>, i: nat, j: nat)
    requires i < |AddedTypes(builtins, packages)| && j < |AddedTypes(builtins, packages)|
    ensures !Lists(builtins, AddedTypes(builtins, packages)[i])
    ensures i != j ==> AddedTypes(builtins, packages)[i] != AddedTypes(builtins, packages)[j]
  {
    AddedAreNew(builtins, packages);
    var added := AddedTypes(builtins, packages);
    if i > j {
      assert added[j] != added[i];
    }
  }

  /** The types shown are distinct: each builtin type in its place, then each added type. */
  lemma CatalogTypes(ordered: seq<Definition>, builtins: seq<Definition>, packages: seq<Package>)
    requires DistinctTypes(builtins) && IsCatalog(ordered, builtins, packages)
    ensures DistinctTypes(ordered)
    ensures forall i :: 0 <= i < |builtins| ==> ordered[i].serviceType == builtins[i].serviceType
  {
    var n := |builtins|;
    forall i, j | 0 <= i < j < |ordered| ensures ordered[i].serviceType != ordered[j].serviceType {
      ShownType(ordered, builtins, packages, i);
      ShownType(ordered, builtins, packages, j);
      if j >= n {
        AddedAt(builtins, packages, j - n, if i < n then 0 else i - n);
      }
    }
    forall i | 0 <= i < n ensures ordered[i].serviceType == builtins[i].serviceType {
      ShownType(ordered, builtins, packages, i);
    }
  }

  /** A type is shown exactly when a builtin or a package with a runtime provides it. */
  lemma CatalogLists(ordered: seq<Definition>, builtins: seq<Definition>, packages: seq<Package>, t: string)
    requires IsCatalog(ordered, builtins, packages)
    ensures Lists(ordered, t) <==> Lists(builtins, t) || PackageFor(packages, t).Some?
    ensures Lists(ordered, t) <==> Effective(builtins, packages, t).Some?
  {
    var n, added := |builtins|, AddedTypes(builtins, packages);
    BuiltinListed(builtins, t);
    AddedAreNew(builtins, packages);
    if i :| 0 <= i < |ordered| && ordered[i].serviceType == t {
      ShownType(ordered, builtins, packages, i);
      if i < n {
        assert Lists(builtins, t);
      } else {
        assert added[i - n] in added;
      }
    }
    if Lists(builtins, t) {
      var i :| 0 <= i < n && builtins[i].serviceType == t;
      ShownType(ordered, builtins, packages, i);
    } else if t in added {
      var i :| 0 <= i < |added| && added[i] == t;
      ShownType(ordered, builtins, packages, n + i);
    }
  }

  /** Builtins that are enabled stand unchanged whatever packages are loaded. */
  lemma EnabledBuiltinStands(ordered: seq<Definition>, builtins: seq<Definition>, packages: seq<Package>, i: nat)
    requires DistinctTypes(builtins) && IsCatalog(ordered, builtins, packages)
    requires i < |builtins| && builtins[i].enabled
    ensures ordered[i] == builtins[i]
  {
    BuiltinFound(builtins, i);
  }

  // -- The registry -------------------------------------------------------------------------

  /** The service types with a plugin of their own. */
  const PLUGIN_TYPES := {"haproxy", "frr", "keycloak-mgmt", "keycloak-apps", "auth-gateway", "varnish"}

  const BUILTINS: seq<Definition> := [
    Definition("haproxy", true, "haproxy", false),
    Definition("frr", true, "axionet/frr", false),
    Definition("keycloak-mgmt", true, "quay.io/keycloak/keycloak", false),
    Definition("keycloak-apps", true, "quay.io/keycloak/keycloak", false),
    Definition("auth-gateway", true, "quay.io/oauth2-proxy/oauth2-proxy", false),
    Definition("varnish", true, "varnish", false),
    Definition("nginx", false, "nginx", false),
    Definition("prometheus", false, "prom/prometheus", false),
    Definition("grafana", false, "grafana/grafana", false)]

  datatype Plugin = Named(serviceType: string) | Generic(serviceType: string)

  /** `get_plugin`; `None` stands for the `ValueError`. */
  function GetPlugin(packages: seq<Package>, serviceType: string): Option<Plugin> {
    if serviceType in PLUGIN_TYPES then Some(Named(serviceType))
    else if PackageFor(packages, serviceType).Some? then Some(Generic(serviceType))
    else None
  }

  method ListEnabledServiceTypes(packages: seq<Package>) returns (types: set<string>)
    ensures forall t :: t in types <==> GetPlugin(packages, t).Some?
  {
    types := PLUGIN_TYPES;
    for i := 0 to |packages|
      invariant forall t :: t in types <==> t in PLUGIN_TYPES || PackageFor(packages[..i], t).Some?
    {
      var p := packages[i];
      assert packages[..i + 1] == packages[..i] + [p];
      forall t {
        PackageForAppend(packages[..i], p, t);
      }
      if p.runtime {
        types := types + {p.serviceType};
      }
    }
    assert packages[..|packages|] == packages;
  }

  /** A character and a length tell the builtin types apart. */
  lemma BuiltinTag(i: nat)
    requires i < |BUILTINS|
    ensures var t := BUILTINS[i].serviceType;
            (|t|, t[|t| - 1]) ==
            [(7, 'y'), (3, 'r'), (13, 't'), (13, 's'), (12, 'y'), (7, 'h'), (5, 'x'), (10, 's'), (7, 'a')][i]
  {
  }

  lemma BuiltinsDistinct()
    ensures DistinctTypes(BUILTINS)
  {
    forall i, j | 0 <= i < j < |BUILTINS| ensures BUILTINS[i].serviceType != BUILTINS[j].serviceType {
      BuiltinTag(i);
      BuiltinTag(j);
    }
  }

  lemma BuiltinImages()
    ensures |BUILTINS| == 9
    ensures BUILTINS[0].image == "haproxy" && BUILTINS[1].image == "axionet/frr" && BUILTINS[5].image == "varnish"
    ensures BUILTINS[2].image == BUILTINS[3].image == "quay.io/keycloak/keycloak"
    ensures BUILTINS[4].image == "quay.io/oauth2-proxy/oauth2-proxy"
    ensures BUILTINS[6].image == "nginx" && BUILTINS[7].image == "prom/prometheus"
    ensures BUILTINS[8].image == "grafana/grafana"
  {
  }

  lemma EnabledBuiltinTypes(t: string)
    ensures t in PLUGIN_TYPES <==> exists i :: 0 <= i < 6 && BUILTINS[i].serviceType == t
    ensures forall i :: 0 <= i < |BUILTINS| ==> (BUILTINS[i].enabled <==> i < 6) && !BUILTINS[i].fromPackage
  {
    assert BUILTINS[0].serviceType == "haproxy" && BUILTINS[1].serviceType == "frr"
        && BUILTINS[2].serviceType == "keycloak-mgmt";
    assert BUILTINS[3].serviceType == "keycloak-apps" && BUILTINS[4].serviceType == "auth-gateway"
        && BUILTINS[5].serviceType == "varnish";
  }

  /** The enabled builtins are exactly the types with a plugin of their own. */
  lemma BuiltinsMatchPlugins(t: string)
    ensures t in PLUGIN_TYPES <==> Builtin(BUILTINS, t).Some? && Builtin(BUILTINS, t).value.enabled
    ensures Builtin(BUILTINS, t).Some? ==> !Builtin(BUILTINS, t).value.fromPackage
  {
    BuiltinsDistinct();
    EnabledBuiltinTypes(t);
    BuiltinListed(BUILTINS, t);
    if i :| 0 <= i < |BUILTINS| && BUILTINS[i].serviceType == t {
      BuiltinFound(BUILTINS, i);
    }
  }

  lemma CatalogEntry(ordered: seq<Definition>, builtins: seq<Definition>, packages: seq<Package>, d: Definition)
    requires DistinctTypes(builtins) && IsCatalog(ordered, builtins, packages) && d in ordered
    ensures Some(d) == Effective(builtins, packages, d.serviceType)
  {
    var added := AddedTypes(builtins, packages);
    var i :| 0 <= i < |ordered| && ordered[i] == d;
    var t := if i < |builtins| then builtins[i].serviceType else added[i - |builtins|];
    if i >= |builtins| {
      assert Some(ordered[|builtins| + (i - |builtins|)]) == Effective(builtins, packages, t);
    }
    EffectiveType(builtins, packages, t);
  }

  /**
    What is shown for a type: an enabled builtin as it is; else the first package of the type with a
    runtime, enabled, under its image or the type's name; else the disabled builtin as it is.
   */
  lemma ShownExactly(ordered: seq<Definition>, builtins: seq<Definition>, packages: seq<Package>, d: Definition)
    requires DistinctTypes(builtins) && IsCatalog(ordered, builtins, packages) && d in ordered
    ensures var t, package := d.serviceType, PackageFor(packages, d.serviceType);
            && (forall b :: b in builtins && b.serviceType == t && (b.enabled || package.None?) ==> d == b)
            && ((forall b :: b in builtins && b.serviceType == t ==> !b.enabled) && package.Some? ==>
                  && d.enabled && d.fromPackage
                  && d.image == if package.value.image == "" then t else package.value.image)
  {
    var t := d.serviceType;
    CatalogEntry(ordered, builtins, packages, d);
    BuiltinListed(builtins, t);
    PackageForType(packages, t);
    forall b | b in builtins && b.serviceType == t ensures Builtin(builtins, t) == Some(b) {
      var i :| 0 <= i < |builtins| && builtins[i] == b;
      BuiltinFound(builtins, i);
    }
    if Builtin(builtins, t).Some? {
      var i :| 0 <= i < |builtins| && builtins[i].serviceType == t;
      assert builtins[i] in builtins;
    }
  }

  /**
    With the shipped builtins, the catalog shows a type as enabled exactly when a plugin can be had
    for it; a definition taken from a package is that of the package behind the generic plugin.
   */
  lemma EnabledExactlyWhenPluggable(ordered: seq<Definition>, packages: seq<Package>, t: string)
    requires IsCatalog(ordered, BUILTINS, packages)
    ensures (exists d :: d in ordered && d.serviceType == t && d.enabled) <==> GetPlugin(packages, t).Some?
    ensures forall d :: d in ordered && d.serviceType == t && d.fromPackage ==>
              GetPlugin(packages, t) == Some(Generic(t)) && d == FromPackage(PackageFor(packages, t).value)
  {
    BuiltinsDistinct();
    BuiltinsMatchPlugins(t);
    CatalogLists(ordered, BUILTINS, packages, t);
    EffectiveType(BUILTINS, packages, t);
    forall d | d in ordered && d.serviceType == t ensures Some(d) == Effective(BUILTINS, packages, t) {
      CatalogEntry(ordered, BUILTINS, packages, d);
    }
    if Lists(ordered, t) {
      var i :| 0 <= i < |ordered| && ordered[i].serviceType == t;
      assert ordered[i] in ordered;
    }
  }
}
