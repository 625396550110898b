/** Mutation RBAC: which role a request path needs (rbac.py, security.py). */
module Rbac {
  import opened Options
  import opened Text
  import opened Roles

  const SAFE_METHODS := {"GET", "HEAD", "OPTIONS"}
  const AUTHENTICATED_MUTATION_SUFFIXES := ["/auth/logout"]
  const ADMIN_MUTATION_PREFIXES := [
    "/api/v1/users", "/api/v1/groups", "/api/v1/auth-sources",
    "/api/v1/app-idp-bindings", "/api/v1/sites", "/api/v1/load-balancers"]
  const ADMIN_MUTATION_SUFFIXES := ["/system/orphans/prune", "/promote-management"]
  const PUBLIC_PATH_SUFFIXES := [
    "/system/health", "/auth/login", "/auth/login-options", "/auth/oidc/start", "/auth/oidc/callback"]

  // -- As the code tests it: on strings -----------------------------------------------------

  /** `path.rstrip("/")`. */
  function WithoutTrailing(path: string): string {
    if path != "" && path[|path| - 1] == '/' then WithoutTrailing(path[..|path| - 1]) else path
  }

  function NormalizedPath(path: string): string {
    var p := WithoutTrailing(path);
    if p != "" then p else "/"
  }

  predicate PathUnderPrefix(path: string, prefix: string) {
    var normalized, pref := NormalizedPath(path), NormalizedPath(prefix);
    normalized == pref || pref + "/" <= normalized
  }

  predicate EndsWith(s: string, suffix: string) {
    |suffix| <= |s| && s[|s| - |suffix|..] == suffix
  }

  predicate PathEndsWithSuffix(path: string, suffix: string) {
    EndsWith(NormalizedPath(path), NormalizedPath(suffix))
  }

  predicate IsPublicPath(path: string) {
    exists suffix :: suffix in PUBLIC_PATH_SUFFIXES && EndsWith(NormalizedPath(path), suffix)
  }

  predicate IsAuthenticatedMutation(path: string) {
    exists suffix :: suffix in AUTHENTICATED_MUTATION_SUFFIXES && PathEndsWithSuffix(path, suffix)
  }

  predicate UnderAdminPrefix(path: string) {
    exists prefix :: prefix in ADMIN_MUTATION_PREFIXES && PathUnderPrefix(path, prefix)
  }

  predicate IsAdminAction(path: string) {
    exists suffix :: suffix in ADMIN_MUTATION_SUFFIXES && PathEndsWithSuffix(path, suffix)
  }

  /** The minimum role for a request; `None` when any caller may make it. */
  function RequiredMutationRole(httpMethod: string, path: string): Option<string> {
    if Upper(httpMethod) in SAFE_METHODS then None
    else if IsPublicPath(path) then None
    else if IsAuthenticatedMutation(path) then None
    else if UnderAdminPrefix(path) || IsAdminAction(path) then Some("admin")
    else Some("operator")
  }

  datatype Decision = Allowed | Forbidden

  /** `enforce_mutation_rbac`; `user` is `None` when no authenticated user is attached to the request. */
  method EnforceMutationRbac(httpMethod: string, path: string, user: Option<User>) returns (d: Decision)
    ensures d.Forbidden? <==>
              var minimum := RequiredMutationRole(httpMethod, path);
              minimum.Some? && user.Some? && forall r :: HoldsRole(user.value, r) ==> !RoleSatisfies(r, minimum.value)
    ensures d.Forbidden? <==>
              var minimum := RequiredMutationRole(httpMethod, path);
              && minimum.Some? && user.Some?
              && forall r :: HoldsRole(user.value, r) ==>
                   !Names(r, "admin") && (minimum.value == "operator" ==> !Names(r, "operator"))
  {
    var minimum := RequiredMutationRole(httpMethod, path);
    if minimum.None? || user.None? {
      return Allowed;
    }
    var role := EffectiveRole(user.value);
    GateOpensForSomeRole(user.value, role, minimum.value);
    forall r
      ensures RoleSatisfies(r, minimum.value) <==>
              Names(r, "admin") || (minimum.value == "operator" && Names(r, "operator"))
    {
      GateByName(r);
    }
    d := if RoleSatisfies(Some(role), minimum.value) then Allowed else Forbidden;
  }

  // -- As a reader means it: on segments ----------------------------------------------------

  /** The `/`-separated segments of a path, ignoring trailing slashes; an absolute path begins with an empty one. */
  function Segments(path: string): seq<string> {
    Split(WithoutTrailing(path), '/')
  }

  predicate ProperEnd(s: seq<string>, tail: seq<string>) {
    |tail| < |s| && s[|s| - |tail|..] == tail
  }

  /** The path's segments end in `tail`, and something (if only the root) comes before. */
  predicate EndsInSegments(path: string, tail: seq<string>) {
    ProperEnd(Segments(path), tail)
  }

  predicate Public(path: string) {
    || EndsInSegments(path, ["system", "health"])
    || EndsInSegments(path, ["auth", "login"]) || EndsInSegments(path, ["auth", "login-options"])
    || EndsInSegments(path, ["auth", "oidc", "start"]) || EndsInSegments(path, ["auth", "oidc", "callback"])
  }

  predicate Logout(path: string) {
    EndsInSegments(path, ["auth", "logout"])
  }

  /** The path begins with the empty segment of an absolute path, `api`, `v1` and the resource. */
  predicate OfResource(path: string, name: string) {
    ["", "api", "v1", name] <= Segments(path)
  }

  predicate AdminResource(path: string) {
    || OfResource(path, "users") || OfResource(path, "groups") || OfResource(path, "auth-sources")
    || OfResource(path, "app-idp-bindings") || OfResource(path, "sites") || OfResource(path, "load-balancers")
  }

  predicate AdminAction(path: string) {
    EndsInSegments(path, ["system", "orphans", "prune"]) || EndsInSegments(path, ["promote-management"])
  }

  predicate Safe(httpMethod: string) {
    var name := Upper(httpMethod);
    name == "GET" || name == "HEAD" || name == "OPTIONS"
  }

  /** The required role, read off the segments of the path. */
  function RoleBySegments(httpMethod: string, path: string): Option<string> {
    if Safe(httpMethod) || Public(path) || Logout(path) then None
    else if AdminResource(path) || AdminAction(path) then Some("admin")
    else Some("operator")
  }

  // -- The two agree ------------------------------------------------------------------------

  lemma SegmentsOfContinued(p: string, rest: string)
    ensures Split(p + "/" + rest, '/') == Split(p, '/') + Split(rest, '/')
  {
    SplitAtSeparator(p, rest, '/');
  }

  lemma ContinuedBySegments(p: string, q: string)
    requires Split(p, '/') <= Split(q, '/') && p != q
    ensures p + "/" <= q
  {
    var ps, qs := Split(p, '/'), Split(q, '/');
    JoinSplit(p, '/');
    JoinSplit(q, '/');
    var rest := qs[|ps|..];
    assert qs == ps + rest;
    assert ps == qs || |ps| < |qs|;
    JoinAppend(ps, rest, '/');
    assert q == (p + "/") + Join(rest, '/');
  }

  /** On strings: equal, or continued behind a slash. On segments: a prefix. */
  lemma PrefixBySegments(p: string, q: string)
    ensures Split(p, '/') <= Split(q, '/') <==> q == p || p + "/" <= q
  {
    if p + "/" <= q {
      assert q == p + "/" + q[|p| + 1..];
      SegmentsOfContinued(p, q[|p| + 1..]);
    } else if Split(p, '/') <= Split(q, '/') && p != q {
      ContinuedBySegments(p, q);
    }
  }

  lemma {:induction false} NoTrailing(path: string)
    ensures var p := WithoutTrailing(path);
            p != "" ==> p[|p| - 1] != '/'
  {
    if path != "" && path[|path| - 1] == '/' {
      NoTrailing(path[..|path| - 1]);
    }
  }

  /**
    For every path and prefix, the string test is the segment test, except for a prefix that is
    empty but for slashes: that one covers only the paths that are so too, and those that begin
    with two slashes.
   */
  lemma UnderPrefixExactly(path: string, prefix: string)
    ensures PathUnderPrefix(path, prefix) <==>
            if WithoutTrailing(prefix) != "" then Segments(prefix) <= Segments(path)
            else WithoutTrailing(path) == "" || ["", ""] <= Segments(path)
  {
    var p, q := WithoutTrailing(prefix), WithoutTrailing(path);
    if p != "" {
      PrefixBySegments(p, q);
      if q == "" {
        NoTrailing(prefix);
      }
    } else {
      PrefixBySegments("/", q);
      assert Split("/", '/') == ["", ""] by {
        assert "/"[1..] == "";
      }
      NoTrailing(path);
    }
  }

  lemma EndsBySegments(s: string, tail: string)
    requires EndsWith(s, "/" + tail)
    ensures ProperEnd(Split(s, '/'), Split(tail, '/'))
  {
    var head := s[..|s| - |tail| - 1];
    assert s == head + ("/" + tail);
    assert s == head + "/" + tail;
    SegmentsOfContinued(head, tail);
    assert |Split(head, '/')| >= 1;
  }

  lemma ConcatenationEnds(h: string, tail: string)
    ensures EndsWith(h + "/" + tail, "/" + tail)
  {
    assert h + "/" + tail == h + ("/" + tail);
  }

  lemma EndsByString(s: string, head: seq<string>, tail: string)
    requires |head| >= 1 && Split(s, '/') == head + Split(tail, '/')
    ensures EndsWith(s, "/" + tail)
  {
    JoinSplit(s, '/');
    JoinSplit(tail, '/');
    JoinAppend(head, Split(tail, '/'), '/');
    ConcatenationEnds(Join(head, '/'), tail);
  }

  /** On strings: ends in a slash and `tail`. On segments: ends in the tail's, with something before. */
  lemma SuffixBySegments(s: string, tail: string)
    ensures EndsWith(s, "/" + tail) <==> ProperEnd(Split(s, '/'), Split(tail, '/'))
  {
    var ss, ts := Split(s, '/'), Split(tail, '/');
    if EndsWith(s, "/" + tail) {
      EndsBySegments(s, tail);
    } else if ProperEnd(ss, ts) {
      var head := ss[..|ss| - |ts|];
      assert ss == head + ts;
      EndsByString(s, head, tail);
    }
  }

  lemma NormalizedFixed(path: string)
    requires path != "" && path[|path| - 1] != '/'
    ensures NormalizedPath(path) == path
  {
  }

  lemma EndsExactly(path: string, tail: string)
    requires tail != ""
    ensures EndsWith(NormalizedPath(path), "/" + tail) <==> EndsInSegments(path, Split(tail, '/'))
  {
    var p := WithoutTrailing(path);
    SuffixBySegments(p, tail);
    if p == "" {
      assert Segments(path) == [""];
    } else {
      assert NormalizedPath(path) == p;
    }
  }

  /** A test string that begins with a slash and does not end with one, as all the constants do. */
  predicate Anchored(s: string) {
    |s| >= 2 && s[0] == '/' && s[|s| - 1] != '/'
  }

  /** For an anchored suffix, the string test is the segment test. */
  lemma SuffixExactly(path: string, suffix: string)
    requires Anchored(suffix)
    ensures EndsWith(NormalizedPath(path), suffix) <==> EndsInSegments(path, Segments(suffix)[1..])
    ensures PathEndsWithSuffix(path, suffix) <==> EndsInSegments(path, Segments(suffix)[1..])
  {
    var tail := suffix[1..];
    assert suffix == "/" + tail;
    NormalizedFixed(suffix);
    EndsExactly(path, tail);
    assert Segments(suffix)[1..] == Split(tail, '/');
  }

  predicate PlainName(name: string) {
    name != "" && '/' !in name
  }

  lemma OneNameSplits(a: string)
    requires PlainName(a)
    ensures Split("/" + a, '/') == ["", a] && Anchored("/" + a)
  {
    SplitAtSeparator("", a, '/');
    assert "" + ['/'] + a == "/" + a;
    SplitWithout(a, '/');
    assert ("/" + a)[|a|] == a[|a| - 1] && a[|a| - 1] in a;
  }

  lemma NameAppended(s: string, a: string)
    requires PlainName(a) && Anchored(s)
    ensures Split(s + "/" + a, '/') == Split(s, '/') + [a] && Anchored(s + "/" + a)
  {
    SplitAtSeparator(s, a, '/');
    SplitWithout(a, '/');
    assert (s + "/" + a)[|s + "/" + a| - 1] == a[|a| - 1] && a[|a| - 1] in a;
  }

  /** For an anchored constant, the string tests are tests on its names. */
  lemma TestsByNames(path: string, s: string, names: seq<string>)
    requires Anchored(s) && Split(s, '/') == [""] + names
    ensures EndsWith(NormalizedPath(path), s) <==> EndsInSegments(path, names)
    ensures PathEndsWithSuffix(path, s) <==> EndsInSegments(path, names)
    ensures PathUnderPrefix(path, s) <==> [""] + names <= Segments(path)
  {
    SuffixExactly(path, s);
    UnderPrefixExactly(path, s);
    assert ([""] + names)[1..] == names;
  }

  lemma OneName(path: string, s: string, a: string)
    requires s == "/" + a && PlainName(a)
    ensures PathEndsWithSuffix(path, s) <==> EndsInSegments(path, [a])
  {
    OneNameSplits(a);
    assert [""] + [a] == ["", a];
    TestsByNames(path, s, [a]);
  }

  lemma TwoNames(path: string, s: string, a: string, b: string)
    requires s == "/" + a + "/" + b && PlainName(a) && PlainName(b)
    ensures EndsWith(NormalizedPath(path), s) <==> EndsInSegments(path, [a, b])
    ensures PathEndsWithSuffix(path, s) <==> EndsInSegments(path, [a, b])
  {
    OneNameSplits(a);
    NameAppended("/" + a, b);
    assert ["", a] + [b] == [""] + [a, b];
    TestsByNames(path, s, [a, b]);
  }

  lemma ThreeNames(path: string, s: string, a: string, b: string, c: string)
    requires s == "/" + a + "/" + b + "/" + c && PlainName(a) && PlainName(b) && PlainName(c)
    ensures EndsWith(NormalizedPath(path), s) <==> EndsInSegments(path, [a, b, c])
    ensures PathEndsWithSuffix(path, s) <==> EndsInSegments(path, [a, b, c])
    ensures PathUnderPrefix(path, s) <==> ["", a, b, c] <= Segments(path)
  {
    OneNameSplits(a);
    NameAppended("/" + a, b);
    NameAppended("/" + a + "/" + b, c);
    assert ["", a] + [b] + [c] == [""] + [a, b, c] == ["", a, b, c];
    TestsByNames(path, s, [a, b, c]);
  }

  lemma ResourceByName(path: string, s: string, name: string)
    requires s == "/api/v1/" + name && PlainName(name)
    ensures PathUnderPrefix(path, s) <==> OfResource(path, name)
  {
    assert "/api/v1/" == "/" + "api" + "/" + "v1" + "/";
    ThreeNames(path, s, "api", "v1", name);
  }

  lemma HealthAndLogin(path: string)
    ensures EndsWith(NormalizedPath(path), "/system/health") <==> EndsInSegments(path, ["system", "health"])
    ensures EndsWith(NormalizedPath(path), "/auth/login") <==> EndsInSegments(path, ["auth", "login"])
  {
    TwoNames(path, "/system/health", "system", "health");
    TwoNames(path, "/auth/login", "auth", "login");
  }

  lemma LoginOptions(path: string)
    ensures EndsWith(NormalizedPath(path), "/auth/login-options") <==> EndsInSegments(path, ["auth", "login-options"])
  {
    TwoNames(path, "/auth/login-options", "auth", "login-options");
  }

  lemma OidcStart(path: string)
    ensures EndsWith(NormalizedPath(path), "/auth/oidc/start") <==> EndsInSegments(path, ["auth", "oidc", "start"])
  {
    ThreeNames(path, "/auth/oidc/start", "auth", "oidc", "start");
  }

  lemma OidcCallback(path: string)
    ensures EndsWith(NormalizedPath(path), "/auth/oidc/callback") <==>
            EndsInSegments(path, ["auth", "oidc", "callback"])
  {
    ThreeNames(path, "/auth/oidc/callback", "auth", "oidc", "callback");
  }

  lemma AnyOfFive(path: string, p: seq<string>)
    requires |p| == 5
    ensures var n := NormalizedPath(path);
            (exists s :: s in p && EndsWith(n, s)) <==>
            EndsWith(n, p[0]) || EndsWith(n, p[1]) || EndsWith(n, p[2]) || EndsWith(n, p[3]) || EndsWith(n, p[4])
  {
    assert forall i :: 0 <= i < 5 ==> p[i] in p;
  }

  lemma PublicByNames(path: string)
    ensures IsPublicPath(path) <==> Public(path)
  {
    HealthAndLogin(path);
    LoginOptions(path);
    OidcStart(path);
    OidcCallback(path);
    AnyOfFive(path, PUBLIC_PATH_SUFFIXES);
  }

  lemma AnyOfSix(path: string, p: seq<string>)
    requires |p| == 6
    ensures (exists s :: s in p && PathUnderPrefix(path, s)) <==>
            || PathUnderPrefix(path, p[0]) || PathUnderPrefix(path, p[1]) || PathUnderPrefix(path, p[2])
            || PathUnderPrefix(path, p[3]) || PathUnderPrefix(path, p[4]) || PathUnderPrefix(path, p[5])
  {
    assert forall i :: 0 <= i < 6 ==> p[i] in p;
  }

  lemma UsersAndGroups(path: string)
    ensures PathUnderPrefix(path, "/api/v1/users") <==> OfResource(path, "users")
    ensures PathUnderPrefix(path, "/api/v1/groups") <==> OfResource(path, "groups")
  {
    ResourceByName(path, "/api/v1/users", "users");
    ResourceByName(path, "/api/v1/groups", "groups");
  }

  lemma AuthSources(path: string)
    ensures PathUnderPrefix(path, "/api/v1/auth-sources") <==> OfResource(path, "auth-sources")
    ensures PathUnderPrefix(path, "/api/v1/sites") <==> OfResource(path, "sites")
  {
    ResourceByName(path, "/api/v1/auth-sources", "auth-sources");
    ResourceByName(path, "/api/v1/sites", "sites");
  }

  lemma Bindings(path: string)
    ensures PathUnderPrefix(path, "/api/v1/app-idp-bindings") <==> OfResource(path, "app-idp-bindings")
  {
    ResourceByName(path, "/api/v1/app-idp-bindings", "app-idp-bindings");
  }

  lemma LoadBalancers(path: string)
    ensures PathUnderPrefix(path, "/api/v1/load-balancers") <==> OfResource(path, "load-balancers")
  {
    ResourceByName(path, "/api/v1/load-balancers", "load-balancers");
  }

  lemma ResourcesByName(path: string)
    ensures UnderAdminPrefix(path) <==> AdminResource(path)
  {
    UsersAndGroups(path);
    AuthSources(path);
    Bindings(path);
    LoadBalancers(path);
    AnyOfSix(path, ADMIN_MUTATION_PREFIXES);
  }

  lemma LogoutByNames(path: string)
    ensures IsAuthenticatedMutation(path) <==> Logout(path)
  {
    TwoNames(path, "/auth/logout", "auth", "logout");
    assert AUTHENTICATED_MUTATION_SUFFIXES[0] in AUTHENTICATED_MUTATION_SUFFIXES;
  }

  lemma AnyOfTwo(path: string, p: seq<string>)
    requires |p| == 2
    ensures (exists s :: s in p && PathEndsWithSuffix(path, s)) <==>
            PathEndsWithSuffix(path, p[0]) || PathEndsWithSuffix(path, p[1])
  {
    assert p[0] in p && p[1] in p;
  }

  lemma Prune(path: string)
    ensures PathEndsWithSuffix(path, "/system/orphans/prune") <==> EndsInSegments(path, ["system", "orphans", "prune"])
  {
    ThreeNames(path, "/system/orphans/prune", "system", "orphans", "prune");
  }

  lemma ActionsByName(path: string)
    ensures IsAdminAction(path) <==> AdminAction(path)
  {
    Prune(path);
    OneName(path, "/promote-management", "promote-management");
    AnyOfTwo(path, ADMIN_MUTATION_SUFFIXES);
  }

  /**
    The required role read by segments, for every method and path: admin is needed exactly when the
    method is unsafe, the path is neither public nor a logout, and its segments begin with those of
    an admin resource or end in those of an admin action.
   */
  lemma MutationRuleBySegments(httpMethod: string, path: string)
    ensures RequiredMutationRole(httpMethod, path) == RoleBySegments(httpMethod, path)
  {
    PublicByNames(path);
    LogoutByNames(path);
    ActionsByName(path);
    ResourcesByName(path);
  }

  lemma {:induction false} TrailingSlashes(path: string, n: nat)
    ensures WithoutTrailing(path + seq(n, _ => '/')) == WithoutTrailing(path)
  {
    var slashes := seq(n, _ => '/');
    if n == 0 {
      assert path + slashes == path;
    } else {
      assert (path + slashes)[..|path| + n - 1] == path + seq(n - 1, _ => '/');
      TrailingSlashes(path, n - 1);
    }
  }

  /** Any number of trailing slashes leaves the required role as it is. */
  lemma TrailingSlashesIgnored(httpMethod: string, path: string, n: nat)
    ensures RequiredMutationRole(httpMethod, path + seq(n, _ => '/')) == RequiredMutationRole(httpMethod, path)
  {
    TrailingSlashes(path, n);
  }
}
