/** Updates that break off in the middle: when the memo, which they do not clear, can go stale. */
module AclStale {
  import opened Names
  import opened Wrappers
  import opened AclModel
  import opened AclDecision
  import opened AclLists
  import opened AclChanges

  // ----- entries that matching cannot tell apart -----

  ghost predicate SameNames(s: seq<string>, t: seq<string>) {
    forall x :: x in s <==> x in t
  }

  /** Whatever `x` yields without an exception, `y` yields too. */
  ghost predicate Alike(roles: Roles, x: Acl, y: Acl) {
    || (x.usesRole && y.usesRole && x.role == y.role && SameNames(x.members, y.members))
    || (!x.usesRole && !y.usesRole && x.actions == y.actions && x.scope == y.scope && SameNames(x.members, y.members))
    || (x.usesRole && x.role !in roles)
    || (!x.usesRole && !y.usesRole && x.actions == y.actions == [])
  }

  ghost predicate AllAlike(roles: Roles, xs: seq<Acl>, ys: seq<Acl>) {
    |xs| == |ys| && forall i :: 0 <= i < |xs| ==> Alike(roles, xs[i], ys[i])
  }

  ghost predicate RolesAlike(roles: Roles, others: Roles) {
    roles.Keys == others.Keys && forall n :: n in roles ==> AllAlike(roles, roles[n], others[n])
  }

  lemma GrantsAlike(w: World, q: Request, x: Acl, y: Acl, us: seq<string>, vs: seq<string>)
    requires x.actions == y.actions && SameNames(us, vs)
    ensures Grants(w, q, x, us) <==> Grants(w, q, y, vs)
  {
    forall act | act in x.actions
      ensures ActionGrants(w, q, act, us) <==> ActionGrants(w, q, act, vs)
    {
      forall u ensures u in Applicable(w, q.target, act, us) <==> u in Applicable(w, q.target, act, vs) {
      }
    }
  }

  lemma {:induction false} MatchAlike(w: World, roles: Roles, others: Roles, q: Request, x: Acl, y: Acl,
                                      used: seq<string>, us: seq<string>, vs: seq<string>)
    requires Alike(roles, x, y) && RolesAlike(roles, others) && SameNames(us, vs)
    ensures var (v, u) := MatchAcl(w, roles, q, x, used, us);
      !Raises(v) ==> MatchAcl(w, others, q, y, used, vs) == (v, u)
    decreases Unused(roles, used), 0
  {
    assert us == [] <==> vs == [] by {
      if us != [] { assert us[0] in vs; }
      if vs != [] { assert vs[0] in us; }
    }
    if x.usesRole {
      if x.role !in used && x.role in roles {
        var inner := used + [x.role];
        assert x.role in Unused(roles, used) && x.role !in Unused(roles, inner);
        assert Unused(roles, inner) <= Unused(roles, used);
        EntriesAlike(w, roles, others, q, roles[x.role], others[x.role], inner, Inherited(x, us), Inherited(y, vs));
      }
    } else {
      if x.actions != [] {
        GrantsAlike(w, q, x, y, Users(x, us), Users(y, vs));
      }
    }
  }

  lemma {:induction false} EntriesAlike(w: World, roles: Roles, others: Roles, q: Request, xs: seq<Acl>, ys: seq<Acl>,
                                        used: seq<string>, us: seq<string>, vs: seq<string>)
    requires AllAlike(roles, xs, ys) && RolesAlike(roles, others) && SameNames(us, vs)
    ensures var (v, u) := MatchEntries(w, roles, q, xs, used, us);
      !Raises(v) ==> MatchEntries(w, others, q, ys, used, vs) == (v, u)
    decreases Unused(roles, used), |xs| + 1
  {
    if xs != [] {
      MatchAlike(w, roles, others, q, xs[0], ys[0], used, us, vs);
      var (v, u) := MatchAcl(w, roles, q, xs[0], used, us);
      assert Unused(roles, u) <= Unused(roles, used);
      EntriesAlike(w, roles, others, q, xs[1..], ys[1..], u, us, vs);
    }
  }

  /** An entry of a set that never contributes anything. */
  predicate Idle(a: Acl) {
    !a.usesRole && (a.scope.None? || forall act | act in a.actions ::
                      a.members == [] && 'o' !in act.acls && 'm' !in act.acls)
  }

  lemma IdleContributesNothing(p: Policy, q: Request, c: Candidate)
    requires Idle(c.acl)
    ensures EffectOf(p, q, c) == Nothing
  {
    forall act | act in c.acl.actions && c.acl.scope.Some?
      ensures Applicable(p.world, q.target, act, c.acl.members) == []
    {
    }
  }

  ghost predicate Interchangeable(roles: Roles, c: Candidate, d: Candidate) {
    c.own == d.own && (Alike(roles, c.acl, d.acl) || (Idle(c.acl) && Idle(d.acl)))
  }

  lemma {:induction false} FoldAlike(p: Policy, p': Policy, q: Request, cs: seq<Candidate>, ds: seq<Candidate>,
                                     reset: bool)
    requires p.world == p'.world && RolesAlike(p.roles, p'.roles) && |cs| == |ds|
    requires forall i :: 0 <= i < |cs| ==> Interchangeable(p.roles, cs[i], ds[i])
    ensures Fold(p, q, cs, reset).Success? ==> Fold(p', q, ds, reset) == Fold(p, q, cs, reset)
    decreases cs
  {
    if cs != [] {
      assert Interchangeable(p.roles, cs[0], ds[0]);
      if Idle(cs[0].acl) && Idle(ds[0].acl) {
        IdleContributesNothing(p, q, cs[0]);
        IdleContributesNothing(p', q, ds[0]);
      } else {
        MatchAlike(p.world, p.roles, p'.roles, q, cs[0].acl, ds[0].acl, [], [], []);
      }
      FoldAlike(p, p', q, cs[1..], ds[1..], reset);
      FoldAlike(p, p', q, cs[1..], ds[1..], true);
    }
  }

  lemma AlikeItself(roles: Roles, a: Acl)
    ensures Alike(roles, a, a)
  {
  }

  /** Exchanging an entry of a set for an interchangeable one leaves every decision that was taken as it was. */
  lemma EntryExchanged(p: Policy, i: nat, k: nat, a: Acl, query: Query)
    requires i < |p.sets| && k < |p.sets[i].acls|
    requires forall own :: Interchangeable(p.roles, Candidate(p.sets[i].acls[k], own), Candidate(a, own))
    requires Decide(p, query).Success?
    ensures Decide(WithList(p, i, p.sets[i].acls[k := a]), query) == Decide(p, query)
  {
    if query.user.Some? && query.user.value !in p.admins {
      var acls, p' := p.sets[i].acls, WithList(p, i, p.sets[i].acls[k := a]);
      var t := Target(p, query);
      var q := Request(query.user.value, query.topic, query.acls, t);
      var x, own := BeforeSet(p, i, t, t), p.sets[i].base == t;
      var met := Visits(t, p.root, p.sets[i].base);
      ReplaceOnWalk(p, i, acls[k := a], t, t);
      if met {
        SetOnWalk(p, i, t, t);
      }
      var cs, ds := Walk(p, t, t), Walk(p', t, t);
      forall j | 0 <= j < |cs|
        ensures Interchangeable(p.roles, cs[j], ds[j])
      {
        AlikeItself(p.roles, cs[j].acl);
        if met && j == |x| + k {
          assert cs[j] == Candidate(acls[k], own) && ds[j] == Candidate(a, own);
        } else {
          assert cs[j] == ds[j];
        }
      }
      forall n, j | n in p.roles && 0 <= j < |p.roles[n]|
        ensures Alike(p.roles, p.roles[n][j], p.roles[n][j])
      {
        AlikeItself(p.roles, p.roles[n][j]);
      }
      FoldAlike(p, p', q, cs, ds, false);
    }
  }

  /** The same for an entry of a role. */
  lemma RoleEntryExchanged(p: Policy, n: string, k: nat, a: Acl, query: Query)
    requires n in p.roles && k < |p.roles[n]| && Alike(p.roles, p.roles[n][k], a) && Decide(p, query).Success?
    ensures Decide(p.(roles := p.roles[n := p.roles[n][k := a]]), query) == Decide(p, query)
  {
    if query.user.Some? && query.user.value !in p.admins {
      var p' := p.(roles := p.roles[n := p.roles[n][k := a]]);
      var t := Target(p, query);
      var cs := Walk(p, t, t);
      SameSetsSameWalk(p, p', t, t);
      forall j | 0 <= j < |cs|
        ensures Interchangeable(p.roles, cs[j], cs[j])
      {
        AlikeItself(p.roles, cs[j].acl);
      }
      forall m, j | m in p.roles && 0 <= j < |p.roles[m]|
        ensures Alike(p.roles, p.roles[m][j], p'.roles[m][j])
      {
        AlikeItself(p.roles, p.roles[m][j]);
      }
      FoldAlike(p, p', Request(query.user.value, query.topic, query.acls, t), cs, cs, false);
    }
  }

  lemma {:induction false} SameSetsSameWalk(p: Policy, p': Policy, target: Dn, base: Dn)
    requires p.root == p'.root && p.sets == p'.sets
    ensures Walk(p, target, base) == Walk(p', target, base)
    decreases |base|
  {
    if Contains(base, p.root) && base != [] {
      SameSetsSameWalk(p, p', target, base[1..]);
    }
  }

  // ----- which updates can leave a stale memo -----

  /** When an update of the entry `a` breaks off: an unknown role, or a scope for an entry that uses a role. */
  lemma BreaksOffIff(a: Acl, roles: Roles, ch: Changes)
    ensures Updated(a, roles, ch).1.Some? <==>
              || (ch.rolename != "" && ch.rolename !in roles)
              || (ch.scope.Given? && (ch.rolename != "" || (ch.actions == [] && a.usesRole)))
  {
  }

  predicate OtherMembers(a: Acl, ch: Changes) {
    ch.members != [] &&
    ((exists m | m in ch.members :: m !in a.members) || (exists m | m in a.members :: m !in ch.members))
  }

  /** What matching sees of the entry changes, although the update breaks off: its members, or that it is turned from
      an entry that counts, or into a reference that counts. The priority does not matter. */
  predicate CanGoStale(a: Acl, ch: Changes) {
    if ch.rolename == "" then a.usesRole && ch.actions == [] && ch.scope.Given? && OtherMembers(a, ch)
    else if a.usesRole && a.role == ch.rolename then ch.scope.Given? && OtherMembers(a, ch)
    else !Idle(a) || ch.scope.Given?
  }

  /** The entry of a role, which has no members to change. */
  predicate CanGoStaleInRole(a: Acl, ch: Changes) {
    ch.rolename != "" && !(a.usesRole && a.role == ch.rolename) && (a.usesRole || a.actions != [] || ch.scope.Given?)
  }

  /** An update that breaks off and cannot leave the memo stale does not: every decision that was taken stands. */
  lemma HarmlessUpdate(p: Policy, i: nat, k: nat, ch: Changes, query: Query)
    requires i < |p.sets| && k < |p.sets[i].acls| && (ch.actions == [] || ch.rolename == "")
    requires Updated(p.sets[i].acls[k], p.roles, ch).1.Some? && !CanGoStale(p.sets[i].acls[k], ch)
    requires Decide(p, query).Success?
    ensures var a := Updated(p.sets[i].acls[k], p.roles, ch).0;
      Decide(WithList(p, i, p.sets[i].acls[k := a]), query) == Decide(p, query)
  {
    var a := p.sets[i].acls[k];
    var b := Updated(a, p.roles, ch).0;
    BreaksOffIff(a, p.roles, ch);
    assert Alike(p.roles, a, b) || (Idle(a) && Idle(b));
    EntryExchanged(p, i, k, b, query);
  }

  lemma HarmlessRoleUpdate(p: Policy, n: string, k: nat, ch: Changes, query: Query)
    requires n in p.roles && k < |p.roles[n]| && (ch.actions == [] || ch.rolename == "") && ch.members == []
    requires Updated(p.roles[n][k], p.roles, ch).1.Some? && !CanGoStaleInRole(p.roles[n][k], ch)
    requires Decide(p, query).Success?
    ensures var a := Updated(p.roles[n][k], p.roles, ch).0;
      Decide(p.(roles := p.roles[n := p.roles[n][k := a]]), query) == Decide(p, query)
  {
    var a := p.roles[n][k];
    BreaksOffIff(a, p.roles, ch);
    RoleEntryExchanged(p, n, k, Updated(a, p.roles, ch).0, query);
  }

  // ----- and every one of those does, for some policy -----

  /** The update breaks off in this policy and turns a decision that was taken into another one. */
  ghost predicate GoesStale(p: Policy, i: nat, k: nat, a: Acl, ch: Changes, query: Query) {
    && i < |p.sets| && k < |p.sets[i].acls| && p.sets[i].acls[k] == a
    && Updated(a, p.roles, ch).1.Some?
    && Decide(p, query).Success?
    && Decide(WithList(p, i, p.sets[i].acls[k := Updated(a, p.roles, ch).0]), query) != Decide(p, query)
  }

  /** A world where names match only themselves, and everything belongs to and is managed by "o". */
  function PlainWorld(): World {
    World((x, y) => x == y, t => ["o"], t => Some("o"))
  }

  /** One set on the root. */
  function OneSet(acls: seq<Acl>, roles: Roles): Policy {
    Policy(["r"], [AclSet(["r"], acls)], roles, [], PlainWorld())
  }

  lemma OneSetDecides(acls: seq<Acl>, roles: Roles, user: string, topic: string, rights: string)
    ensures Decide(OneSet(acls, roles), Query(Some(user), topic, rights, None))
         == Fold(OneSet(acls, roles), Request(user, topic, rights, ["r"]), OfList(acls, true), false)
  {
    OneSetWalk(OneSet(acls, roles));
  }

  lemma OneEntryFold(a: Acl, roles: Roles, q: Request, reset: bool)
    ensures var p, v := OneSet([a], roles), MatchAcl(PlainWorld(), roles, q, a, [], []).0;
      Fold(p, q, OfList([a], true), reset) ==
        if Raises(v) then Failure(v)
        else Success(v == Match(Some(PSUB)) || (!reset && (v == Match(Some(SUB)) || v == Match(Some(ONE)))))
  {
    var cs := OfList([a], true);
    assert cs == [Candidate(a, true)] && cs[1..] == [];
  }

  /** An entry of everybody who is in charge. */
  function InCharge(topic: string): Acl {
    Acl(0, Some(0), [], false, "", Some(PSUB), [Action(topic, "o")])
  }

  lemma InChargeMatches(roles: Roles, q: Request, used: seq<string>, override: seq<string>)
    requires q.user == "o" && q.acls == ""
    ensures MatchAcl(PlainWorld(), roles, q, InCharge(q.topic), used, override) == (Match(Some(PSUB)), used)
  {
    var act := Action(q.topic, "o");
    assert act in InCharge(q.topic).actions;
    assert "o" in Applicable(PlainWorld(), q.target, act, Users(InCharge(q.topic), override));
    assert ActionGrants(PlainWorld(), q, act, Users(InCharge(q.topic), override));
  }

  /** A role with that entry grants through any ACL that uses it. */
  lemma RoleInCharge(a: Acl, roles: Roles, q: Request)
    requires a.usesRole && a.role in roles && roles[a.role] == [InCharge(q.topic)] && q.user == "o" && q.acls == ""
    ensures MatchAcl(PlainWorld(), roles, q, a, [], []).0 == Match(Some(PSUB))
  {
    InChargeMatches(roles, q, [a.role], Inherited(a, []));
    assert [] + [a.role] == [a.role];
    assert MatchEntries(PlainWorld(), roles, q, roles[a.role], [a.role], Inherited(a, [])).0 == Match(Some(PSUB));
  }

  /** A role for the members of whoever uses it. */
  function ForMembers(): Acl {
    Acl(0, Some(0), [], false, "", Some(PSUB), [Action("t", "r")])
  }

  lemma RoleForMembers(a: Acl, roles: Roles, user: string)
    requires a.usesRole && a.role in roles && roles[a.role] == [ForMembers()]
    ensures MatchAcl(PlainWorld(), roles, Request(user, "t", "r", ["r"]), a, [], []).0 ==
              if user in a.members then Match(Some(PSUB)) else NoMatch
  {
    var w, q, e, act := PlainWorld(), Request(user, "t", "r", ["r"]), ForMembers(), Action("t", "r");
    assert act in e.actions && Users(e, a.members) == a.members && [] + [a.role] == [a.role];
    assert Grants(w, q, e, a.members) <==> ActionGrants(w, q, act, a.members);
    assert act.acls == ['r'] && Applicable(w, q.target, act, a.members) == a.members;
    assert ActionGrants(w, q, act, a.members) <==> user in a.members by {
      if user in a.members { assert w.matches(user, q.user); }
    }
    assert MatchEntries(w, roles, q, [], [a.role], a.members) == (NoMatch, [a.role]);
    assert roles[a.role][1..] == [];
    assert MatchEntries(w, roles, q, roles[a.role], [a.role], a.members).0 ==
             if user in a.members then Match(Some(PSUB)) else NoMatch;
  }

  lemma StaleByMembers(a: Acl, ch: Changes) returns (p: Policy, query: Query)
    requires a.usesRole && ch.actions == [] && ch.scope.Given? && OtherMembers(a, ch)
    requires ch.rolename == "" || ch.rolename == a.role
    ensures GoesStale(p, 0, 0, a, ch, query)
  {
    var roles := map[a.role := [ForMembers()]];
    var b := Updated(a, roles, ch).0;
    var m :| (m in ch.members && m !in a.members) || (m in a.members && m !in ch.members);
    p, query := OneSet([a], roles), Query(Some(m), "t", "r", None);
    RoleForMembers(a, roles, m);
    RoleForMembers(b, roles, m);
    Decided(a, b, roles, m, "t", "r");
  }

  /** The decisions before and after, with the entry alone on the root. */
  lemma Decided(a: Acl, b: Acl, roles: Roles, user: string, topic: string, rights: string)
    ensures var q := Request(user, topic, rights, ["r"]);
      var v, u := MatchAcl(PlainWorld(), roles, q, a, [], []).0, MatchAcl(PlainWorld(), roles, q, b, [], []).0;
      var query := Query(Some(user), topic, rights, None);
      && Decide(OneSet([a], roles), query) == Fold(OneSet([a], roles), q, OfList([a], true), false)
      && Decide(WithList(OneSet([a], roles), 0, [a][0 := b]), query)
           == Fold(OneSet([b], roles), q, OfList([b], true), false)
      && (v == Match(Some(PSUB)) ==> Decide(OneSet([a], roles), query) == Success(true))
      && (v == NoMatch || v == Match(None) ==> Decide(OneSet([a], roles), query) == Success(false))
      && (u == Match(Some(PSUB)) ==> Decide(WithList(OneSet([a], roles), 0, [a][0 := b]), query) == Success(true))
      && (u == NoMatch ==> Decide(WithList(OneSet([a], roles), 0, [a][0 := b]), query) == Success(false))
  {
    var q := Request(user, topic, rights, ["r"]);
    assert [a][0 := b] == [b];
    assert [AclSet(["r"], [a])][0 := AclSet(["r"], [b])] == [AclSet(["r"], [b])];
    assert WithList(OneSet([a], roles), 0, [b]) == OneSet([b], roles);
    OneSetDecides([a], roles, user, topic, rights);
    OneSetDecides([b], roles, user, topic, rights);
    OneEntryFold(a, roles, q, false);
    OneEntryFold(b, roles, q, false);
  }

  /** An entry that uses a role is turned into nothing by a reference to an unknown one. */
  lemma StaleByLostRole(a: Acl, ch: Changes) returns (p: Policy, query: Query)
    requires a.usesRole && ch.rolename != "" && a.role != ch.rolename
    ensures GoesStale(p, 0, 0, a, ch, query)
  {
    var roles := map[a.role := [InCharge("t")]];
    var b, q := Updated(a, roles, ch).0, Request("o", "t", "", ["r"]);
    p, query := OneSet([a], roles), Query(Some("o"), "t", "", None);
    RoleInCharge(a, roles, q);
    assert !Grants(PlainWorld(), q, b, b.members);
    Decided(a, b, roles, "o", "t", "");
  }

  /** An entry that did nothing is turned into a reference to a role, and the scope then breaks the update off. */
  lemma StaleByNewRole(a: Acl, ch: Changes) returns (p: Policy, query: Query)
    requires !a.usesRole && Idle(a) && ch.rolename != "" && ch.scope.Given?
    ensures GoesStale(p, 0, 0, a, ch, query)
  {
    var roles := map[ch.rolename := [InCharge("t")]];
    var b, q := Updated(a, roles, ch).0, Request("o", "t", "", ["r"]);
    p, query := OneSet([a], roles), Query(Some("o"), "t", "", None);
    RoleInCharge(b, roles, q);
    IdleContributesNothing(p, q, Candidate(a, true));
    Decided(a, b, roles, "o", "t", "");
  }

  /** Somebody an entry that is not idle grants something to, in the plain world. */
  lemma SomebodyGranted(a: Acl) returns (user: string, topic: string)
    requires !a.usesRole && !Idle(a)
    ensures Grants(PlainWorld(), Request(user, topic, "", ["r"]), a, a.members)
  {
    var act :| act in a.actions && (a.members != [] || 'o' in act.acls || 'm' in act.acls);
    topic := act.topic;
    if 'o' in act.acls || 'm' in act.acls {
      user := "o";
      assert "o" in Applicable(PlainWorld(), ["r"], act, a.members);
    } else {
      user := a.members[0];
      assert user in Applicable(PlainWorld(), ["r"], act, a.members);
    }
    assert ActionGrants(PlainWorld(), Request(user, topic, "", ["r"]), act, a.members);
  }

  /** An entry that counted is turned into nothing. */
  lemma StaleByLostEntry(a: Acl, ch: Changes) returns (p: Policy, query: Query)
    requires !a.usesRole && !Idle(a) && ch.rolename != ""
    ensures GoesStale(p, 0, 0, a, ch, query)
  {
    var user, topic := SomebodyGranted(a);
    var roles: Roles := map[];
    var b, q := Updated(a, roles, ch).0, Request(user, topic, "", ["r"]);
    query := Query(Some(user), topic, "", None);
    assert !Grants(PlainWorld(), q, b, b.members);
    if a.scope != Some(RESET) {
      p := OneSet([a], roles);
      OneSetDecides([a], roles, user, topic, "");
      OneEntryFold(a, roles, q, false);
      Decided(a, b, roles, user, topic, "");
    } else {
      var sub := Acl(0, Some(0), [user], false, "", Some(SUB), [Action(topic, "r")]);
      p := OneSet([a, sub], roles);
      ResetDecides(a, b, sub, user, topic);
    }
  }

  lemma ResetDecides(a: Acl, b: Acl, sub: Acl, user: string, topic: string)
    requires var q := Request(user, topic, "", ["r"]);
      && !a.usesRole && a.scope == Some(RESET) && Grants(PlainWorld(), q, a, a.members)
      && !b.usesRole && b.actions == []
    requires sub == Acl(0, Some(0), [user], false, "", Some(SUB), [Action(topic, "r")])
    ensures var p, query := OneSet([a, sub], map[]), Query(Some(user), topic, "", None);
      && Decide(p, query) == Success(false)
      && Decide(WithList(p, 0, [a, sub][0 := b]), query) == Success(true)
  {
    var p, q, act := OneSet([a, sub], map[]), Request(user, topic, "", ["r"]), Action(topic, "r");
    assert act in sub.actions && user in Applicable(PlainWorld(), ["r"], act, [user]);
    assert ActionGrants(PlainWorld(), q, act, [user]) && Grants(PlainWorld(), q, sub, [user]);
    assert !Grants(PlainWorld(), q, b, b.members);
    OneSetDecides([a, sub], map[], user, topic, "");
    OneSetDecides([b, sub], map[], user, topic, "");
    assert [a, sub][0 := b] == [b, sub];
    assert WithList(p, 0, [b, sub]).sets == [AclSet(["r"], [b, sub])];
    assert WithList(p, 0, [b, sub]) == OneSet([b, sub], map[]);
    TwoEntryFold(OneSet([a, sub], map[]), q, a, sub);
    TwoEntryFold(OneSet([b, sub], map[]), q, b, sub);
  }

  lemma TwoEntryFold(p: Policy, q: Request, a: Acl, sub: Acl)
    requires !a.usesRole && !sub.usesRole && sub.scope == Some(SUB) && Grants(p.world, q, sub, sub.members)
    requires Grants(p.world, q, a, a.members) ==> a.scope == Some(RESET)
    ensures Fold(p, q, OfList([a, sub], true), false) == Success(!Grants(p.world, q, a, a.members))
  {
    var cs := OfList([a, sub], true);
    assert cs == [Candidate(a, true), Candidate(sub, true)] && cs[1..] == [Candidate(sub, true)] && cs[1..][1..] == [];
    assert Fold(p, q, cs[1..], true) == Success(false);
    assert Fold(p, q, cs[1..], false) == Success(true);
  }

  /** There are a policy with the entry and a decision that an update which breaks off makes stale, if and only if the
      update changes what matching sees of the entry. */
  lemma StaleIff(a: Acl, ch: Changes)
    requires ch.actions == [] || ch.rolename == ""
    ensures (exists p, i, k, query :: GoesStale(p, i, k, a, ch, query)) <==> CanGoStale(a, ch)
  {
    if p, i, k, query :| GoesStale(p, i, k, a, ch, query) {
      if !CanGoStale(a, ch) {
        HarmlessUpdate(p, i, k, ch, query);
      }
    }
    if CanGoStale(a, ch) {
      var p, query;
      if ch.rolename == "" || (a.usesRole && a.role == ch.rolename) {
        p, query := StaleByMembers(a, ch);
      } else if a.usesRole {
        p, query := StaleByLostRole(a, ch);
      } else if Idle(a) {
        p, query := StaleByNewRole(a, ch);
      } else {
        p, query := StaleByLostEntry(a, ch);
      }
    }
  }

  // ----- the same for entries of roles -----

  /** The update of a role's entry breaks off in this policy and turns a decision that was taken into another one. */
  ghost predicate GoesStaleInRole(p: Policy, n: string, k: nat, a: Acl, ch: Changes, query: Query) {
    && n in p.roles && n != ch.rolename && k < |p.roles[n]| && p.roles[n][k] == a
    && Updated(a, p.roles, ch).1.Some?
    && Decide(p, query).Success?
    && Decide(p.(roles := p.roles[n := p.roles[n][k := Updated(a, p.roles, ch).0]]), query) != Decide(p, query)
  }

  /** A user "o" for whom everything depends on the role `n`. */
  function ThroughRole(n: string): Acl {
    Acl(0, Some(0), ["o"], true, n, None, [])
  }

  /** What such a policy decides follows from the entries of the role. */
  lemma RoleDecides(n: string, roles: Roles, topic: string)
    requires n in roles
    ensures var v := MatchEntries(PlainWorld(), roles, Request("o", topic, "", ["r"]), roles[n], [n], ["o"]).0;
      Decide(OneSet([ThroughRole(n)], roles), Query(Some("o"), topic, "", None)) ==
        if Raises(v) then Failure(v)
        else Success(v == Match(Some(PSUB)) || v == Match(Some(SUB)) || v == Match(Some(ONE)))
  {
    var q := Request("o", topic, "", ["r"]);
    OneSetDecides([ThroughRole(n)], roles, "o", topic, "");
    OneEntryFold(ThroughRole(n), roles, q, false);
    assert [] + [n] == [n];
  }

  lemma FirstEntryDecides(roles: Roles, q: Request, entries: seq<Acl>, used: seq<string>, users: seq<string>)
    requires entries != []
    ensures var (v, u) := MatchAcl(PlainWorld(), roles, q, entries[0], used, users);
      MatchEntries(PlainWorld(), roles, q, entries, used, users)
        == if v.NoMatch? then MatchEntries(PlainWorld(), roles, q, entries[1..], u, users) else (v, u)
  {
  }

  lemma OtherName(a: Acl, ch: Changes) returns (n: string)
    ensures n != a.role && n != ch.rolename
  {
    n := a.role + ch.rolename + "x";
    assert |n| > |a.role| && |n| > |ch.rolename|;
  }

  /** An entry that uses a role with the entry in charge grants "o" everything. */
  lemma UsesRoleInCharge(a: Acl, roles: Roles, q: Request, n: string)
    requires a.usesRole && a.role in roles && a.role != n && roles[a.role] == [InCharge(q.topic)]
    requires q.user == "o" && q.acls == ""
    ensures MatchEntries(PlainWorld(), roles, q, [a], [n], ["o"]).0 == Match(Some(PSUB))
  {
    var users := Inherited(a, ["o"]);
    InChargeMatches(roles, q, [n] + [a.role], users);
    assert MatchEntries(PlainWorld(), roles, q, roles[a.role], [n] + [a.role], users).0 == Match(Some(PSUB));
    assert MatchAcl(PlainWorld(), roles, q, a, [n], ["o"]).0 == Match(Some(PSUB));
  }

  lemma NothingMatches(b: Acl, roles: Roles, q: Request, n: string)
    requires !b.usesRole && b.actions == []
    ensures MatchEntries(PlainWorld(), roles, q, [b], [n], ["o"]) == (NoMatch, [n])
  {
    assert !Grants(PlainWorld(), q, b, Users(b, ["o"]));
    assert MatchAcl(PlainWorld(), roles, q, b, [n], ["o"]) == (NoMatch, [n]);
    assert [b][1..] == [];
  }

  lemma StaleByLostRoleInRole(a: Acl, ch: Changes) returns (p: Policy, n: string, query: Query)
    requires a.usesRole && ch.rolename != "" && a.role != ch.rolename
    ensures GoesStaleInRole(p, n, 0, a, ch, query)
  {
    n := OtherName(a, ch);
    var roles := map[n := [a], a.role := [InCharge("t")]];
    var b, q := Updated(a, roles, ch).0, Request("o", "t", "", ["r"]);
    var after := roles[n := [a][0 := b]];
    p, query := OneSet([ThroughRole(n)], roles), Query(Some("o"), "t", "", None);
    UsesRoleInCharge(a, roles, q, n);
    NothingMatches(b, after, q, n);
    assert [a][0 := b] == [b];
    RoleDecides(n, roles, "t");
    RoleDecides(n, after, "t");
    assert p.(roles := after) == OneSet([ThroughRole(n)], after);
  }

  lemma StaleByNewRoleInRole(a: Acl, ch: Changes) returns (p: Policy, n: string, query: Query)
    requires !a.usesRole && a.actions == [] && ch.rolename != "" && ch.scope.Given?
    ensures GoesStaleInRole(p, n, 0, a, ch, query)
  {
    n := OtherName(a, ch);
    var roles := map[n := [a], ch.rolename := [InCharge("t")]];
    var b, q := Updated(a, roles, ch).0, Request("o", "t", "", ["r"]);
    var after := roles[n := [a][0 := b]];
    p, query := OneSet([ThroughRole(n)], roles), Query(Some("o"), "t", "", None);
    NothingMatches(a, roles, q, n);
    UsesRoleInCharge(b, after, q, n);
    assert [a][0 := b] == [b];
    RoleDecides(n, roles, "t");
    RoleDecides(n, after, "t");
    assert p.(roles := after) == OneSet([ThroughRole(n)], after);
  }

  /** "o" is granted whatever a direct entry with actions grants, as its own or as a member. */
  lemma EntryForO(a: Acl, roles: Roles, q: Request, used: seq<string>)
    requires !a.usesRole && a.actions != [] && q == Request("o", a.actions[0].topic, "", ["r"])
    ensures MatchAcl(PlainWorld(), roles, q, a, used, ["o"]) == (Match(a.scope), used)
  {
    var act := a.actions[0];
    assert act in a.actions && "o" in Applicable(PlainWorld(), q.target, act, ["o"]);
    assert ActionGrants(PlainWorld(), q, act, ["o"]);
  }

  lemma StaleByLostEntryInRole(a: Acl, ch: Changes) returns (p: Policy, n: string, query: Query)
    requires !a.usesRole && a.actions != [] && ch.rolename != ""
    ensures GoesStaleInRole(p, n, 0, a, ch, query)
  {
    n := OtherName(a, ch);
    var topic := a.actions[0].topic;
    var visible := a.scope == Some(PSUB) || a.scope == Some(SUB) || a.scope == Some(ONE);
    var entries := if visible then [a] else [a, InCharge(topic)];
    var roles := map[n := entries];
    var b, q := Updated(a, roles, ch).0, Request("o", topic, "", ["r"]);
    var after := roles[n := entries[0 := b]];
    p, query := OneSet([ThroughRole(n)], roles), Query(Some("o"), topic, "", None);
    EntryForO(a, roles, q, [n]);
    FirstEntryDecides(roles, q, entries, [n], ["o"]);
    assert !Grants(PlainWorld(), q, b, Users(b, ["o"]));
    FirstEntryDecides(after, q, entries[0 := b], [n], ["o"]);
    assert entries[0 := b][1..] == entries[1..];
    if visible {
      assert entries[1..] == [];
    } else {
      assert entries[1..] == [InCharge(topic)];
      InChargeMatches(after, q, [n], ["o"]);
      FirstEntryDecides(after, q, entries[1..], [n], ["o"]);
    }
    RoleDecides(n, roles, topic);
    RoleDecides(n, after, topic);
    assert p.(roles := after) == OneSet([ThroughRole(n)], after);
  }

  /** The exact condition for entries of roles, whose updates change no members. */
  lemma StaleInRoleIff(a: Acl, ch: Changes)
    requires ch.members == [] && (ch.actions == [] || ch.rolename == "")
    ensures (exists p, n, k, query :: GoesStaleInRole(p, n, k, a, ch, query)) <==> CanGoStaleInRole(a, ch)
  {
    if p, n, k, query :| GoesStaleInRole(p, n, k, a, ch, query) {
      if !CanGoStaleInRole(a, ch) {
        HarmlessRoleUpdate(p, n, k, ch, query);
      }
    }
    if CanGoStaleInRole(a, ch) {
      var p, n, query;
      if a.usesRole {
        p, n, query := StaleByLostRoleInRole(a, ch);
      } else if a.actions == [] {
        p, n, query := StaleByNewRoleInRole(a, ch);
      } else {
        p, n, query := StaleByLostEntryInRole(a, ch);
      }
    }
  }
}
