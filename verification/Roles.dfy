/** Platform roles and the effective role of a user with group memberships (roles.py). */
module Roles {
  import opened Options
  import opened Text

  predicate IsRole(r: string) {
    r == "viewer" || r == "operator" || r == "admin"
  }

  function Rank(r: string): nat
    requires IsRole(r)
  {
    if r == "viewer" then 1 else if r == "operator" then 2 else 3
  }

  /** `normalize_role`: an unknown, empty or missing role counts as viewer. */
  function NormalizeRole(role: Option<string>): (r: string)
    ensures IsRole(r)
  {
    var value := Lower(Strip(if role.Some? && role.value != "" then role.value else "viewer"));
    if IsRole(value) then value else "viewer"
  }

  function RankOf(role: Option<string>): (n: nat)
    ensures 1 <= n <= 3
  {
    Rank(NormalizeRole(role))
  }

  predicate RoleSatisfies(role: Option<string>, minimum: string) {
    RankOf(role) >= RankOf(Some(minimum))
  }

  /** `group` is `None` for a membership whose group is gone. */
  datatype Membership = Membership(group: Option<Group>)

  datatype Group = Group(name: string, role: Option<string>)

  datatype User = User(role: Option<string>, memberships: seq<Membership>)

  /** The roles that count for a user: their own, and that of each existing group. */
  ghost predicate HoldsRole(u: User, role: Option<string>) {
    role == u.role || exists m :: m in u.memberships && m.group.Some? && m.group.value.role == role
  }

  ghost function RolesOf(u: User): iset<Option<string>> {
    iset r | HoldsRole(u, r)
  }

  ghost predicate IsBound(n: nat, roles: iset<Option<string>>) {
    forall r :: r in roles ==> RankOf(r) <= n
  }

  /** `best` is the least upper bound of the roles: above all of them, and below every role that is. */
  ghost predicate IsJoin(best: string, roles: iset<Option<string>>) {
    && IsRole(best)
    && IsBound(Rank(best), roles)
    && forall n :: 1 <= n <= 3 && IsBound(n, roles) ==> Rank(best) <= n
  }

  /** The highest rank among the roles, and at least that of a viewer. */
  function MaxRank(roles: seq<Option<string>>): (n: nat)
    ensures 1 <= n <= 3
  {
    if roles == [] then 1
    else
      var before, last := MaxRank(roles[..|roles| - 1]), RankOf(roles[|roles| - 1]);
      if last > before then last else before
  }

  method MaxRole(roles: seq<Option<string>>) returns (best: string)
    ensures IsRole(best) && Rank(best) == MaxRank(roles)
  {
    best := "viewer";
    var bestRank := 1;
    for i := 0 to |roles|
      invariant IsRole(best) && Rank(best) == bestRank == MaxRank(roles[..i])
    {
      assert roles[..i + 1][..i] == roles[..i];
      var normalized := NormalizeRole(roles[i]);
      var rank := RankOf(roles[i]);
      if rank > bestRank {
        best, bestRank := normalized, rank;
      }
    }
    assert roles[..|roles|] == roles;
  }

  lemma {:induction false} MaxRankFacts(roles: seq<Option<string>>)
    ensures forall r :: r in roles ==> RankOf(r) <= MaxRank(roles)
    ensures MaxRank(roles) > 1 ==> exists r :: r in roles && RankOf(r) == MaxRank(roles)
  {
    if roles == [] {
    } else {
      var init, last := roles[..|roles| - 1], roles[|roles| - 1];
      MaxRankFacts(init);
      assert roles == init + [last];
      assert last in roles;
    }
  }

  lemma MaxRankIsJoin(best: string, roles: seq<Option<string>>)
    requires IsRole(best) && Rank(best) == MaxRank(roles)
    ensures IsJoin(best, iset r | r in roles)
  {
    MaxRankFacts(roles);
  }

  method EffectiveRole(u: User) returns (role: string)
    ensures IsJoin(role, RolesOf(u))
  {
    var roles := [u.role];
    for i := 0 to |u.memberships|
      invariant u.role in roles
      invariant forall r :: r in roles <==>
                || r == u.role
                || exists j :: 0 <= j < i && u.memberships[j].group.Some? && u.memberships[j].group.value.role == r
    {
      var m := u.memberships[i];
      if m.group.Some? {
        roles := roles + [m.group.value.role];
      }
    }
    role := MaxRole(roles);
    MaxRankIsJoin(role, roles);
    assert (iset r | r in roles) == RolesOf(u);
  }

  lemma NormalizeFixed(r: string)
    requires IsRole(r)
    ensures RankOf(Some(r)) == Rank(r)
  {
    assert Trimmed(r);
    TrimmedIsFixed(r);
    assert Lower("viewer") == "viewer" && Lower("operator") == "operator" && Lower("admin") == "admin";
  }

  /**
    The join is unique, so the effective role depends on the set of held roles alone: not on the order
    of memberships.
   */
  lemma JoinUnique(a: string, b: string, roles: iset<Option<string>>)
    requires IsJoin(a, roles) && IsJoin(b, roles)
    ensures a == b
  {
    assert Rank(a) == Rank(b);
  }

  lemma JoinReached(best: string, roles: iset<Option<string>>, n: nat)
    requires IsJoin(best, roles) && roles != iset{}
    ensures Rank(best) >= n <==> exists r :: r in roles && RankOf(r) >= n
  {
    if forall r :: r in roles ==> RankOf(r) < n {
      var r :| r in roles;
      assert RankOf(r) < n;
      if n <= 4 {
        assert IsBound(n - 1, roles);
      }
    }
  }

  /** A role's text names a role: trimmed and in lower case. */
  predicate Names(role: Option<string>, name: string) {
    role.Some? && Lower(Strip(role.value)) == name
  }

  lemma EmptyNamesNone()
    ensures Lower(Strip("")) == ""
  {
  }

  lemma RankByName(role: Option<string>)
    ensures RankOf(role) == if Names(role, "admin") then 3 else if Names(role, "operator") then 2 else 1
  {
    EmptyNamesNone();
    TrimmedIsFixed("viewer");
    assert Lower("viewer") == "viewer";
  }

  lemma RanksOfMinimums()
    ensures RankOf(Some("admin")) == 3 && RankOf(Some("operator")) == 2 && RankOf(Some("viewer")) == 1
  {
    NormalizeFixed("admin");
    NormalizeFixed("operator");
    NormalizeFixed("viewer");
  }

  /**
    The gate by names: an admin passes every minimum, an operator all but admin, and anything else,
    be it viewer, unknown, empty or missing, passes the minimum viewer only.
   */
  lemma GateByName(role: Option<string>)
    ensures RoleSatisfies(role, "admin") <==> Names(role, "admin")
    ensures RoleSatisfies(role, "operator") <==> Names(role, "admin") || Names(role, "operator")
    ensures RoleSatisfies(role, "viewer")
  {
    RankByName(role);
    RanksOfMinimums();
  }

  /** The role gate opens for the effective role exactly when the own role or some group's role alone would open it. */
  lemma GateOpensForSomeRole(u: User, effective: string, minimum: string)
    requires IsJoin(effective, RolesOf(u))
    ensures RoleSatisfies(Some(effective), minimum) <==> exists r :: HoldsRole(u, r) && RoleSatisfies(r, minimum)
  {
    NormalizeFixed(effective);
    assert u.role in RolesOf(u);
    JoinReached(effective, RolesOf(u), RankOf(Some(minimum)));
    assert forall r :: r in RolesOf(u) <==> HoldsRole(u, r);
  }

  /** The effective role is admin when some held role names it, else operator when some does, else viewer. */
  lemma EffectiveByName(u: User, effective: string)
    requires IsJoin(effective, RolesOf(u))
    ensures effective == "admin" <==> exists r :: HoldsRole(u, r) && Names(r, "admin")
    ensures effective == "viewer" <==> forall r :: HoldsRole(u, r) ==> !Names(r, "admin") && !Names(r, "operator")
  {
    GateOpensForSomeRole(u, effective, "admin");
    GateOpensForSomeRole(u, effective, "operator");
    NormalizeFixed(effective);
    NormalizeFixed("admin");
    NormalizeFixed("operator");
    forall r ensures RoleSatisfies(r, "admin") <==> Names(r, "admin")
      ensures RoleSatisfies(r, "operator") <==> Names(r, "admin") || Names(r, "operator")
    {
      GateByName(r);
    }
  }

  function Joined(u: User, i: nat, m: Membership): User
    requires i <= |u.memberships|
  {
    u.(memberships := u.memberships[..i] + [m] + u.memberships[i..])
  }

  lemma JoinedHolds(u: User, i: nat, m: Membership, role: Option<string>)
    requires i <= |u.memberships| && HoldsRole(u, role)
    ensures HoldsRole(Joined(u, i, m), role)
  {
    assert u.memberships == u.memberships[..i] + u.memberships[i..];
  }

  /** Adding a membership, anywhere in the list, never closes the gate. */
  lemma MembershipNeverRevokes(u: User, i: nat, m: Membership, before: string, after: string, minimum: string)
    requires i <= |u.memberships|
    requires IsJoin(before, RolesOf(u))
    requires IsJoin(after, RolesOf(Joined(u, i, m)))
    requires RoleSatisfies(Some(before), minimum)
    ensures RoleSatisfies(Some(after), minimum)
  {
    GateOpensForSomeRole(u, before, minimum);
    GateOpensForSomeRole(Joined(u, i, m), after, minimum);
    var r :| HoldsRole(u, r) && RoleSatisfies(r, minimum);
    JoinedHolds(u, i, m, r);
  }
}
