/** What a decision means for the entries that were stored, in their own words: users, topics, rights, scopes, bases. */
module AclMeaning {
  import opened Names
  import opened Wrappers
  import opened AclModel
  import opened AclDecision

  // ----- one action -----

  /** An action covers a request: it holds every right asked for, it is about the topic, and it names the user: as one
      of the members, or, with the rights 'm' and 'o', as a manager or as the owner of the target instead. */
  ghost predicate Covers(w: World, act: Action, members: seq<string>, q: Request) {
    && (forall right :: right in q.acls ==> right in act.acls)
    && w.matches(act.topic, q.topic)
    && if 'm' in act.acls || 'o' in act.acls
       then || ('m' in act.acls && exists x :: x in w.managers(q.target) && w.matches(x, q.user))
            || ('o' in act.acls && w.owner(q.target).Some? && w.matches(w.owner(q.target).value, q.user))
       else exists x :: x in members && w.matches(x, q.user)
  }

  lemma CoversIff(w: World, act: Action, members: seq<string>, q: Request)
    ensures ActionGrants(w, q, act, members) <==> Covers(w, act, members, q)
  {
    var users := Applicable(w, q.target, act, members);
    if Covers(w, act, members, q) {
      assert exists u :: u in users && w.matches(u, q.user);
    }
    if ActionGrants(w, q, act, members) {
      var u :| u in users && w.matches(u, q.user);
    }
  }

  /** Some action of the entry covers the request for these members. */
  ghost predicate CoveredBy(w: World, a: Acl, members: seq<string>, q: Request) {
    exists act :: act in a.actions && Covers(w, act, members, q)
  }

  lemma GrantsIffCovered(w: World, q: Request, a: Acl, users: seq<string>)
    ensures Grants(w, q, a, users) <==> CoveredBy(w, a, users, q)
  {
    forall act | act in a.actions
      ensures ActionGrants(w, q, act, users) <==> Covers(w, act, users, q)
    {
      CoversIff(w, act, users, q);
    }
  }

  // ----- every grant has a reason -----

  /** The request a query makes for a user. */
  function Asked(p: Policy, query: Query): Request
    requires query.user.Some?
  {
    Request(query.user.value, query.topic, query.acls,
            if query.base.Some? && query.base.value != [] then query.base.value else p.root)
  }

  /** An entry of a set, or one reached from there through roles, with an action that covers the request. */
  ghost predicate Reason(p: Policy, q: Request, s: AclSet, a: Acl, ev: Event) {
    && s in p.sets && Visits(q.target, p.root, s.base) && a in s.acls
    && ev in Unfold(p.roles, a, [], []).0 && ev.Try? && CoveredBy(p.world, ev.acl, ev.users, q)
  }

  /** Whoever is granted and is no administrator is so by an entry on the way from the target up to the root: the entry,
      or one its roles lead to, has an action that covers the request. */
  lemma GrantHasReason(p: Policy, query: Query)
    requires query.user.Some? && query.user.value !in p.admins && Decide(p, query) == Success(true)
    ensures exists s, a, ev :: Reason(p, Asked(p, query), s, a, ev)
  {
    var q := Asked(p, query);
    var cs := Walk(p, q.target, q.target);
    DecisionGrantsIff(p, query);
    var i :| Wins(Effects(p, q, cs), false, i);
    var c := cs[i];
    var v := MatchAcl(p.world, p.roles, q, c.acl, [], []).0;
    assert v.Match?;
    var ev := MatchHasReason(p, q, c.acl);
    CandidateOnWalk(p, q.target, q.target, c);
    var s :| s in p.sets && Visits(q.target, p.root, s.base) && c.acl in s.acls;
    assert Reason(p, q, s, c.acl, ev);
  }

  lemma MatchHasReason(p: Policy, q: Request, a: Acl) returns (ev: Event)
    requires MatchAcl(p.world, p.roles, q, a, [], []).0.Match?
    ensures ev in Unfold(p.roles, a, [], []).0 && ev.Try? && CoveredBy(p.world, ev.acl, ev.users, q)
  {
    var es := Unfold(p.roles, a, [], []).0;
    MatchIsScan(p.world, p.roles, q, a, [], []);
    ev := ScanHasReason(p.world, p.roles, q, es, []);
    GrantsIffCovered(p.world, q, ev.acl, ev.users);
  }

  lemma {:induction false} ScanHasReason(w: World, roles: Roles, q: Request, es: seq<Event>, used: seq<string>)
    returns (ev: Event)
    requires Scan(w, roles, q, es, used).0.Match?
    ensures ev in es && ev.Try? && Grants(w, q, ev.acl, ev.users)
    decreases es
  {
    match es[0]
    case Enter(role) => ev := ScanHasReason(w, roles, q, es[1..], used + [role]);
    case Try(acl, users) =>
      if Grants(w, q, acl, users) {
        ev := es[0];
      } else {
        ev := ScanHasReason(w, roles, q, es[1..], used);
      }
  }

  lemma {:induction false} CandidateOnWalk(p: Policy, target: Dn, base: Dn, c: Candidate)
    requires c in Walk(p, target, base)
    ensures exists s :: s in p.sets && Visits(base, p.root, s.base) && c.acl in s.acls
    decreases |base|
  {
    if c in AtBase(p.sets, base, base == target) {
      var s := CandidateAtBase(p.sets, base, base == target, c);
      assert base[|base| - |base|..] == base;
      assert Visits(base, p.root, s.base);
    } else {
      CandidateOnWalk(p, target, base[1..], c);
      var s :| s in p.sets && Visits(base[1..], p.root, s.base) && c.acl in s.acls;
      VisitsOneUp(base, p.root, s.base);
    }
  }

  lemma {:induction false} CandidateAtBase(sets: seq<AclSet>, base: Dn, own: bool, c: Candidate) returns (s: AclSet)
    requires c in AtBase(sets, base, own)
    ensures s in sets && s.base == base && c.acl in s.acls
    decreases sets
  {
    if sets[0].base == base && c in OfSet(sets[0], own) {
      s := sets[0];
    } else {
      s := CandidateAtBase(sets[1..], base, own, c);
    }
  }

  // ----- what roles lead to -----

  /** The entry is `a` itself or stands in some role. */
  ghost predicate Stored(roles: Roles, a: Acl, e: Acl) {
    e == a || exists n :: n in roles && e in roles[n]
  }

  lemma {:induction false} UnfoldedIsStored(roles: Roles, a: Acl, used: seq<string>, override: seq<string>)
    ensures forall ev :: ev in Unfold(roles, a, used, override).0 && ev.Try? ==> Stored(roles, a, ev.acl)
    decreases Unused(roles, used), 0
  {
    if a.usesRole && a.role !in used && a.role in roles {
      assert a.role in Unused(roles, used) && a.role !in Unused(roles, used + [a.role]);
      assert Unused(roles, used + [a.role]) <= Unused(roles, used);
      RoleIsStored(roles, roles[a.role], used + [a.role], Inherited(a, override));
    }
  }

  lemma {:induction false} RoleIsStored(roles: Roles, entries: seq<Acl>, used: seq<string>, users: seq<string>)
    ensures forall ev :: ev in UnfoldEntries(roles, entries, used, users).0 && ev.Try? ==>
              ev.acl in entries || exists n :: n in roles && ev.acl in roles[n]
    decreases Unused(roles, used), |entries| + 1
  {
    if entries != [] {
      var u := Unfold(roles, entries[0], used, users).1;
      assert Unused(roles, u) <= Unused(roles, used);
      UnfoldedIsStored(roles, entries[0], used, users);
      RoleIsStored(roles, entries[1..], u, users);
    }
  }

  /** Some stored action holds the right. */
  ghost predicate Holds(p: Policy, right: char) {
    || (exists s, a, act :: s in p.sets && a in s.acls && act in a.actions && right in act.acls)
    || (exists n, a, act :: n in p.roles && a in p.roles[n] && act in a.actions && right in act.acls)
  }

  lemma ReasonHoldsRight(p: Policy, q: Request, s: AclSet, a: Acl, ev: Event, right: char)
    requires Reason(p, q, s, a, ev) && right in q.acls
    ensures Holds(p, right)
  {
    UnfoldedIsStored(p.roles, a, [], []);
    var act :| act in ev.acl.actions && Covers(p.world, act, ev.users, q);
    assert right in act.acls && Stored(p.roles, a, ev.acl);
  }

  /** A right that no stored action holds is granted to nobody but administrators. */
  lemma UnheldRightIsDenied(p: Policy, query: Query, right: char)
    requires query.user.Some? && query.user.value !in p.admins && right in query.acls && !Holds(p, right)
    ensures Decide(p, query) != Success(true)
  {
    if Decide(p, query) == Success(true) {
      GrantHasReason(p, query);
      var q := Asked(p, query);
      var s, a, ev :| Reason(p, q, s, a, ev);
      ReasonHoldsRight(p, q, s, a, ev, right);
    }
  }

  /** Where roles carry no members of their own, the reason is about the members of the entry in the set. */
  lemma ReasonNamesMembers(p: Policy, q: Request, s: AclSet, a: Acl, ev: Event)
    requires Reason(p, q, s, a, ev) && forall n, e :: n in p.roles && e in p.roles[n] ==> e.members == []
    ensures CoveredBy(p.world, ev.acl, a.members, q)
  {
    EntriesUseOuterMembers(p.roles, a, [], []);
  }

  // ----- when a decision raises -----

  /** The walk raises exactly what its first exception says, if no candidate before it settles the decision. */
  lemma {:induction false} RaisesIff(p: Policy, q: Request, cs: seq<Candidate>, reset: bool, v: Verdict)
    ensures Fold(p, q, cs, reset) == Failure(v) <==> RaisedBy(Effects(p, q, cs), reset, v)
    decreases cs
  {
    if cs != [] {
      var es := Effects(p, q, cs);
      var reset' := reset || es[0].Revoke?;
      assert es[1..] == Effects(p, q, cs[1..]);
      RaisesIff(p, q, cs[1..], reset', v);
      RaisedUnfold(es, reset, v);
    }
  }

  ghost predicate RaisedAt(es: seq<Effect>, reset: bool, v: Verdict, i: int) {
    && 0 <= i < |es| && es[i] == Exception(v)
    && forall j :: 0 <= j < i ==> !es[j].Exception? && !Wins(es, reset, j)
  }

  ghost predicate RaisedBy(es: seq<Effect>, reset: bool, v: Verdict) {
    exists i :: RaisedAt(es, reset, v, i)
  }

  lemma RaisedUnfold(es: seq<Effect>, reset: bool, v: Verdict)
    requires es != []
    ensures RaisedBy(es, reset, v) <==>
              es[0] == Exception(v)
              || (!es[0].Exception? && !Wins(es, reset, 0) && RaisedBy(es[1..], reset || es[0].Revoke?, v))
  {
    var rest, reset' := es[1..], reset || es[0].Revoke?;
    if es[0] == Exception(v) {
      assert RaisedAt(es, reset, v, 0);
    }
    if RaisedBy(es, reset, v) && es[0] != Exception(v) {
      var i :| RaisedAt(es, reset, v, i);
      forall j | 0 <= j < i - 1
        ensures !rest[j].Exception? && !Wins(rest, reset', j)
      {
        assert rest[j] == es[j + 1];
        WinsShift(es, reset, j);
      }
      assert !Wins(es, reset, 0);
      assert RaisedAt(rest, reset', v, i - 1);
    }
    if !es[0].Exception? && !Wins(es, reset, 0) && RaisedBy(rest, reset', v) {
      var i :| RaisedAt(rest, reset', v, i);
      forall j | 0 <= j < i + 1
        ensures !es[j].Exception? && !Wins(es, reset, j)
      {
        if j > 0 {
          assert es[j] == rest[j - 1];
          WinsShift(es, reset, j - 1);
        }
      }
      assert RaisedAt(es, reset, v, i + 1);
    }
  }

  // ----- decisions about sets that use no roles, place by place -----

  ghost predicate NoRoles(p: Policy) {
    forall s, a :: s in p.sets && a in s.acls ==> !a.usesRole
  }

  /** A place in the sets: entry `k` of set `i`. */
  datatype Place = Place(i: nat, k: nat)

  predicate IsPlace(sets: seq<AclSet>, x: Place) {
    x.i < |sets| && x.k < |sets[x.i].acls|
  }

  /** The base is the target or lies above it, and still at or below the root. */
  ghost predicate Above(base: Dn, target: Dn, root: Dn) {
    && base != []
    && (exists below :: target == below + base)
    && exists x, y :: base == x + root + y
  }

  lemma AboveIsVisited(base: Dn, target: Dn, root: Dn)
    ensures Above(base, target, root) <==> Visits(target, root, base)
  {
    if Visits(target, root, base) {
      assert target == target[..|target| - |base|] + base;
      var i :| OccursAt(base, root, i);
      assert base == base[..i] + root + base[i + |root|..];
    }
    if Above(base, target, root) {
      var below :| target == below + base;
      assert target[|target| - |base|..] == base;
      var x, y :| base == x + root + y;
      assert base[|x|..|x| + |root|] == root;
      assert OccursAt(base, root, |x|);
    }
  }

  /** The entry in this place concerns the request: it stands at or above the target, and covers it. */
  ghost predicate Concerns(p: Policy, q: Request, x: Place) {
    && IsPlace(p.sets, x) && Above(p.sets[x.i].base, q.target, p.root)
    && var a := p.sets[x.i].acls[x.k]; CoveredBy(p.world, a, a.members, q)
  }

  /** Nearer to the target; on one base in an earlier set, in one set earlier in the list. */
  predicate Before(sets: seq<AclSet>, x: Place, y: Place)
    requires IsPlace(sets, x) && IsPlace(sets, y)
  {
    || |sets[x.i].base| > |sets[y.i].base|
    || (|sets[x.i].base| == |sets[y.i].base| && (x.i < y.i || (x.i == y.i && x.k < y.k)))
  }

  /** The entry in this place grants the request: for good, or below its base, or on its base only, unless an entry that
      resets comes before it. */
  ghost predicate GrantsFrom(p: Policy, q: Request, x: Place) {
    && Concerns(p, q, x)
    && var scope := p.sets[x.i].acls[x.k].scope;
       || scope == Some(PSUB)
       || (&& (scope == Some(SUB) || (scope == Some(ONE) && p.sets[x.i].base == q.target))
           && forall y :: Concerns(p, q, y) && p.sets[y.i].acls[y.k].scope == Some(RESET) ==> !Before(p.sets, y, x))
  }

  // The places a walk meets, in order.

  function InSet(sets: seq<AclSet>, i: nat): (xs: seq<Place>)
    requires i < |sets|
  {
    seq(|sets[i].acls|, k requires 0 <= k < |sets[i].acls| => Place(i, k))
  }

  function OnBase(sets: seq<AclSet>, i: nat, base: Dn): seq<Place>
    requires i <= |sets|
    decreases |sets| - i
  {
    if i == |sets| then [] else (if sets[i].base == base then InSet(sets, i) else []) + OnBase(sets, i + 1, base)
  }

  ghost function OnWay(p: Policy, base: Dn): seq<Place>
    decreases |base|
  {
    if Contains(base, p.root) && base != [] then OnBase(p.sets, 0, base) + OnWay(p, base[1..]) else []
  }

  ghost predicate InOrder(sets: seq<AclSet>, xs: seq<Place>) {
    && (forall x :: x in xs ==> IsPlace(sets, x))
    && forall m, n :: 0 <= m < n < |xs| ==> Before(sets, xs[m], xs[n])
  }

  /** The candidates `cs` stand in the places `xs`. */
  ghost predicate StandIn(sets: seq<AclSet>, xs: seq<Place>, cs: seq<Candidate>, own: bool) {
    && |xs| == |cs|
    && forall n :: 0 <= n < |xs| ==>
         IsPlace(sets, xs[n]) && cs[n] == Candidate(sets[xs[n].i].acls[xs[n].k], own)
  }

  lemma StandInBoth(sets: seq<AclSet>, xs: seq<Place>, ys: seq<Place>, cs: seq<Candidate>, ds: seq<Candidate>,
                    own: bool)
    requires StandIn(sets, xs, cs, own) && StandIn(sets, ys, ds, own)
    ensures StandIn(sets, xs + ys, cs + ds, own)
  {
  }

  lemma SetPlaces(sets: seq<AclSet>, i: nat, own: bool)
    requires i < |sets|
    ensures InOrder(sets, InSet(sets, i))
    ensures forall x: Place :: x in InSet(sets, i) <==> x.i == i && x.k < |sets[i].acls|
    ensures StandIn(sets, InSet(sets, i), OfSet(sets[i], own), own)
  {
    forall x: Place | x.i == i && x.k < |sets[i].acls|
      ensures x in InSet(sets, i)
    {
      assert InSet(sets, i)[x.k] == x;
    }
  }

  lemma OrderConcat(sets: seq<AclSet>, a: seq<Place>, b: seq<Place>)
    requires InOrder(sets, a) && InOrder(sets, b)
    requires forall x, y :: x in a && y in b ==> Before(sets, x, y)
    ensures InOrder(sets, a + b)
  {
    var xs := a + b;
    forall m, n | 0 <= m < n < |xs|
      ensures Before(sets, xs[m], xs[n])
    {
      if m < |a| { assert xs[m] == a[m] && a[m] in a; } else { assert xs[m] == b[m - |a|]; }
      if n >= |a| { assert xs[n] == b[n - |a|] && b[n - |a|] in b; } else { assert xs[n] == a[n]; }
    }
  }

  lemma {:induction false} BasePlaces(sets: seq<AclSet>, i: nat, base: Dn, own: bool)
    requires i <= |sets|
    ensures InOrder(sets, OnBase(sets, i, base))
    ensures forall x: Place :: x in OnBase(sets, i, base) <==> IsPlace(sets, x) && i <= x.i && sets[x.i].base == base
    ensures StandIn(sets, OnBase(sets, i, base), AtBase(sets[i..], base, own), own)
    decreases |sets| - i
  {
    if i < |sets| {
      BasePlaces(sets, i + 1, base, own);
      SetPlaces(sets, i, own);
      assert sets[i..][0] == sets[i] && sets[i..][1..] == sets[i + 1..];
      if sets[i].base == base {
        OrderConcat(sets, InSet(sets, i), OnBase(sets, i + 1, base));
        StandInBoth(sets, InSet(sets, i), OnBase(sets, i + 1, base), OfSet(sets[i], own),
                    AtBase(sets[i + 1..], base, own), own);
      } else {
        assert [] + OnBase(sets, i + 1, base) == OnBase(sets, i + 1, base);
        assert [] + AtBase(sets[i + 1..], base, own) == AtBase(sets[i + 1..], base, own);
      }
    }
  }

  /** The candidates of the walk, with their places. */
  ghost predicate Placed(p: Policy, target: Dn, xs: seq<Place>, cs: seq<Candidate>) {
    && InOrder(p.sets, xs) && |xs| == |cs|
    && forall n :: 0 <= n < |xs| ==>
         xs[n] in xs && cs[n] == Candidate(p.sets[xs[n].i].acls[xs[n].k], p.sets[xs[n].i].base == target)
  }

  lemma {:induction false} WayPlaces(p: Policy, target: Dn, base: Dn)
    requires |base| <= |target| && target[|target| - |base|..] == base
    ensures Placed(p, target, OnWay(p, base), Walk(p, target, base))
    ensures forall x: Place :: x in OnWay(p, base) <==> IsPlace(p.sets, x) && Visits(base, p.root, p.sets[x.i].base)
    decreases |base|
  {
    if Contains(base, p.root) && base != [] {
      var here, above := OnBase(p.sets, 0, base), OnWay(p, base[1..]);
      assert p.sets[0..] == p.sets;
      BasePlaces(p.sets, 0, base, base == target);
      assert target[|target| - |base| + 1..] == base[1..];
      WayPlaces(p, target, base[1..]);
      OrderConcat(p.sets, here, above);
      assert base[|base| - |base|..] == base;
      forall x: Place | IsPlace(p.sets, x)
        ensures Visits(base, p.root, p.sets[x.i].base) <==> x in here || x in above
      {
        if p.sets[x.i].base != base {
          VisitsOneUp(base, p.root, p.sets[x.i].base);
        }
      }
      var xs, cs := here + above, Walk(p, target, base);
      assert cs == AtBase(p.sets, base, base == target) + Walk(p, target, base[1..]);
      forall n | 0 <= n < |xs|
        ensures xs[n] in xs && cs[n] == Candidate(p.sets[xs[n].i].acls[xs[n].k], p.sets[xs[n].i].base == target)
      {
        if n < |here| { assert xs[n] == here[n] && here[n] in here; } else { assert xs[n] == above[n - |here|]; }
      }
    } else {
      forall x: Place | IsPlace(p.sets, x)
        ensures !Visits(base, p.root, p.sets[x.i].base)
      {
        NotVisited(base, p.root, p.sets[x.i].base);
      }
    }
  }

  lemma NotVisited(base: Dn, root: Dn, at: Dn)
    requires base == [] || !Contains(base, root)
    ensures !Visits(base, root, at)
  {
    if base != [] && at != base {
      VisitsOneUp(base, root, at);
    }
  }

  /** What an entry that uses no role contributes. */
  lemma DirectEffect(p: Policy, q: Request, a: Acl, own: bool)
    requires !a.usesRole
    ensures EffectOf(p, q, Candidate(a, own)) ==
              if !CoveredBy(p.world, a, a.members, q) then Nothing
              else match a.scope
                case Some(PSUB) => Permanent
                case Some(SUB) => Grant
                case Some(ONE) => if own then Grant else Nothing
                case Some(RESET) => Revoke
                case None => Nothing
  {
    GrantsIffCovered(p.world, q, a, a.members);
  }

  /** One effect settles the walk exactly if its place grants. */
  lemma WinsIffGrants(p: Policy, q: Request, xs: seq<Place>, cs: seq<Candidate>, n: nat)
    requires NoRoles(p) && Placed(p, q.target, xs, cs) && n < |xs|
    requires forall x: Place :: x in xs <==> IsPlace(p.sets, x) && Visits(q.target, p.root, p.sets[x.i].base)
    ensures Wins(Effects(p, q, cs), false, n) <==> GrantsFrom(p, q, xs[n])
  {
    var es := Effects(p, q, cs);
    forall m | 0 <= m < |xs|
      ensures xs[m] in xs && !p.sets[xs[m].i].acls[xs[m].k].usesRole
      ensures Concerns(p, q, xs[m]) <==> CoveredBy(p.world, cs[m].acl, cs[m].acl.members, q)
      ensures es[m] == EffectOf(p, q, cs[m])
    {
      var s := p.sets[xs[m].i];
      assert s in p.sets && s.acls[xs[m].k] in s.acls;
      AboveIsVisited(s.base, q.target, p.root);
    }
    forall m | 0 <= m < |xs|
      ensures es[m].Revoke? <==> Concerns(p, q, xs[m]) && p.sets[xs[m].i].acls[xs[m].k].scope == Some(RESET)
      ensures es[m].Permanent? <==> Concerns(p, q, xs[m]) && p.sets[xs[m].i].acls[xs[m].k].scope == Some(PSUB)
      ensures es[m].Grant? <==> Concerns(p, q, xs[m]) && var scope := p.sets[xs[m].i].acls[xs[m].k].scope;
                                scope == Some(SUB) || (scope == Some(ONE) && p.sets[xs[m].i].base == q.target)
    {
      DirectEffect(p, q, cs[m].acl, cs[m].own);
    }
    ResetsBefore(p, q, xs, n, es);
  }

  lemma ResetsBefore(p: Policy, q: Request, xs: seq<Place>, n: nat, es: seq<Effect>)
    requires InOrder(p.sets, xs) && n < |xs| == |es|
    requires forall x: Place :: x in xs <==> IsPlace(p.sets, x) && Visits(q.target, p.root, p.sets[x.i].base)
    requires forall m :: 0 <= m < |xs| ==>
               xs[m] in xs &&
               (es[m].Revoke? <==> Concerns(p, q, xs[m]) && p.sets[xs[m].i].acls[xs[m].k].scope == Some(RESET))
    ensures (forall m :: 0 <= m < n ==> !es[m].Revoke?) <==>
            forall y :: Concerns(p, q, y) && p.sets[y.i].acls[y.k].scope == Some(RESET) ==>
              xs[n] in xs && !Before(p.sets, y, xs[n])
  {
    if forall m :: 0 <= m < n ==> !es[m].Revoke? {
      forall y | Concerns(p, q, y) && p.sets[y.i].acls[y.k].scope == Some(RESET)
        ensures !Before(p.sets, y, xs[n])
      {
        AboveIsVisited(p.sets[y.i].base, q.target, p.root);
        var m :| 0 <= m < |xs| && xs[m] == y;
        assert m >= n;
        if m > n { assert Before(p.sets, xs[n], xs[m]); }
      }
    } else {
      var m :| 0 <= m < n && es[m].Revoke?;
      assert Before(p.sets, xs[m], xs[n]);
    }
  }

  /** Where no set uses a role, nothing is ever raised, and a user who is no administrator is granted a request if and
      only if an entry grants it: an entry at or above the target, with an action that covers the request, whose scope
      is PSUB, or SUB, or ONE on the target itself, and in the last two cases no RESET entry that covers the request
      stands nearer to the target or before it on the same base. */
  lemma DirectDecisionIff(p: Policy, query: Query)
    requires query.user.Some? && query.user.value !in p.admins && NoRoles(p)
    ensures Decide(p, query).Success?
    ensures Decide(p, query).value <==> exists x :: GrantsFrom(p, Asked(p, query), x)
  {
    var q := Asked(p, query);
    var cs, xs := Walk(p, q.target, q.target), OnWay(p, q.target);
    assert q.target[|q.target| - |q.target|..] == q.target;
    WayPlaces(p, q.target, q.target);
    DirectNeverRaises(p, q, cs);
    DecisionGrantsIff(p, query);
    NothingRaisedGrantedIff(Effects(p, q, cs));
    forall n: nat | n < |xs|
      ensures Wins(Effects(p, q, cs), false, n) <==> GrantsFrom(p, q, xs[n])
    {
      WinsIffGrants(p, q, xs, cs, n);
    }
    if x :| GrantsFrom(p, q, x) {
      AboveIsVisited(p.sets[x.i].base, q.target, p.root);
      var n :| 0 <= n < |xs| && xs[n] == x;
      assert Wins(Effects(p, q, cs), false, n);
    }
  }

  lemma DirectNeverRaises(p: Policy, q: Request, cs: seq<Candidate>)
    requires NoRoles(p) && cs == Walk(p, q.target, q.target)
    ensures forall i :: 0 <= i < |cs| ==> !Effects(p, q, cs)[i].Exception?
    ensures Fold(p, q, cs, false).Success?
  {
    forall i | 0 <= i < |cs|
      ensures !EffectOf(p, q, cs[i]).Exception?
    {
      CandidateOnWalk(p, q.target, q.target, cs[i]);
      DirectEffect(p, q, cs[i].acl, cs[i].own);
    }
    if Fold(p, q, cs, false).Failure? {
      RaisesIff(p, q, cs, false, Fold(p, q, cs, false).error);
    }
  }

  lemma NothingRaisedGrantedIff(es: seq<Effect>)
    requires forall i :: 0 <= i < |es| ==> !es[i].Exception?
    ensures Granted(es, false) <==> exists n: nat :: n < |es| && Wins(es, false, n)
  {
  }

  // ----- owners and managers -----

  /** One set on the root with one entry that uses no role, and a question about the root. */
  ghost predicate OneEntry(p: Policy, a: Acl, user: string) {
    p.root != [] && p.sets == [AclSet(p.root, [a])] && !a.usesRole && user !in p.admins
  }

  /** It is granted exactly if one of the actions covers it and the scope is not RESET or missing. */
  lemma OneEntryDecides(p: Policy, a: Acl, user: string, topic: string, rights: string)
    requires OneEntry(p, a, user)
    ensures Decide(p, Query(Some(user), topic, rights, None)) == Success(
              && CoveredBy(p.world, a, a.members, Request(user, topic, rights, p.root))
              && (a.scope == Some(PSUB) || a.scope == Some(SUB) || a.scope == Some(ONE)))
  {
    var query, q := Query(Some(user), topic, rights, None), Request(user, topic, rights, p.root);
    assert p.sets[0].acls == [a];
    DirectDecisionIff(p, query);
    assert Asked(p, query) == q && [] + p.root == p.root && p.root == [] + p.root + [];
    assert Above(p.root, p.root, p.root);
    var first := Place(0, 0);
    assert forall x :: Concerns(p, q, x) ==> x == first;
    assert Concerns(p, q, first) <==> CoveredBy(p.world, a, a.members, q);
    assert !Before(p.sets, first, first);
    assert GrantsFrom(p, q, first) <==>
             Concerns(p, q, first) && (a.scope == Some(PSUB) || a.scope == Some(SUB) || a.scope == Some(ONE));
    assert (exists x :: GrantsFrom(p, q, x)) <==> GrantsFrom(p, q, first);
  }

  /** An action with the right 'o' and not 'm' is for the owner of the target alone, whoever the members and the
      managers are. */
  lemma OwnerDecides(p: Policy, a: Acl, act: Action, user: string, topic: string, rights: string)
    requires OneEntry(p, a, user) && a.actions == [act] && a.scope == Some(PSUB)
    requires 'o' in act.acls && 'm' !in act.acls
    ensures Decide(p, Query(Some(user), topic, rights, None)) == Success(
              && p.world.matches(act.topic, topic) && (forall right :: right in rights ==> right in act.acls)
              && p.world.owner(p.root).Some? && p.world.matches(p.world.owner(p.root).value, user))
  {
    OneEntryDecides(p, a, user, topic, rights);
    assert act in a.actions;
  }

  /** One with 'm' and not 'o' is for the managers alone. */
  lemma ManagerDecides(p: Policy, a: Acl, act: Action, user: string, topic: string, rights: string)
    requires OneEntry(p, a, user) && a.actions == [act] && a.scope == Some(PSUB)
    requires 'm' in act.acls && 'o' !in act.acls
    ensures Decide(p, Query(Some(user), topic, rights, None)) == Success(
              && p.world.matches(act.topic, topic) && (forall right :: right in rights ==> right in act.acls)
              && exists x :: x in p.world.managers(p.root) && p.world.matches(x, user))
  {
    OneEntryDecides(p, a, user, topic, rights);
    assert act in a.actions;
  }
}
