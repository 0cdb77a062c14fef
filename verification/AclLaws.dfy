/** What the operations of the resolver do to lists, sets, roles and arguments, said entry by entry. */
module AclLaws {
  import opened Names
  import opened Wrappers
  import opened AclModel
  import opened AclDecision
  import opened AclMeaning
  import opened AclLists
  import opened AclChanges

  // ----- what an updated entry grants -----

  /** After an update with actions that succeeds, the entry grants what those actions cover for its members, and nothing
      it granted before. */
  lemma UpdateGrantsExactly(w: World, roles: Roles, was: Acl, ch: Changes, q: Request)
    requires ch.actions != [] && ch.rolename == ""
    ensures var now, members := Updated(was, roles, ch).0, if ch.members != [] then ch.members else was.members;
      Updated(was, roles, ch).1 == None
      && MatchAcl(w, roles, q, now, [], []).0 ==
           (if exists act :: act in ch.actions && Covers(w, act, members, q)
            then Match(if ch.scope.Given? then Some(ch.scope.scope) else was.scope) else NoMatch)
  {
    var now := Updated(was, roles, ch).0;
    UpdatedRewrites(was, roles, ch);
    GrantsIffCovered(w, q, now, now.members);
  }

  /** So with that entry alone on the root, a request is granted exactly if one of the new actions covers it. */
  lemma UpdatedEntryDecides(p: Policy, was: Acl, ch: Changes, now: Acl, user: string, topic: string, rights: string)
    requires ch.actions != [] && ch.rolename == "" && now == Updated(was, p.roles, ch).0 && OneEntry(p, now, user)
    requires ch.scope == Given(PSUB)
    ensures Decide(p, Query(Some(user), topic, rights, None)) == Success(
              exists act :: act in ch.actions &&
                Covers(p.world, act, if ch.members != [] then ch.members else was.members,
                       Request(user, topic, rights, p.root)))
  {
    UpdatedRewrites(was, p.roles, ch);
    OneEntryDecides(p, now, user, topic, rights);
  }

  // ----- new entries -----

  /** The entry `addACL` and `addACLToRole` make: what was asked for, with scope SUB if none is given; an entry that
      uses a role has no scope and no actions. */
  lemma NewEntryHolds(id: int, priority: int, members: seq<string>, actions: seq<Action>, scope: ScopeArg, name: string)
    ensures var a := NewEntry(id, priority, members, actions, scope, name);
      && a.id == id && a.priority == Some(priority) && a.members == members && a.actions == actions
      && (actions != [] ==> !a.usesRole && a.scope == Some(match scope case Given(s) => s case _ => SUB))
      && (actions == [] ==> a.usesRole && a.role == name && a.scope == None)
  {
  }

  // ----- arguments -----

  /** Rights are made of the nine letters only. */
  predicate KnownRights(actions: seq<Action>) {
    forall a | a in actions :: forall c | c in a.acls ::
      c == 'r' || c == 'w' || c == 'c' || c == 'd' || c == 'm' || c == 'x' || c == 'o' || c == 's' || c == 'e'
  }

  lemma ValidIffKnown(actions: seq<Action>)
    ensures ValidRights(actions) <==> KnownRights(actions)
  {
    assert forall c :: c in "rwcdmxose" <==>
      c == 'r' || c == 'w' || c == 'c' || c == 'd' || c == 'm' || c == 'x' || c == 'o' || c == 's' || c == 'e';
  }

  predicate InRange(priority: int) {
    -100 <= priority <= 100
  }

  /** `addACL` accepts exactly a known scope or none, a priority within 100 of 0, known rights, and actions or a role
      but not both; each error has its reason, and the reasons are looked at in that order. */
  lemma AddArguments(priority: int, actions: seq<Action>, scope: ScopeArg, name: string)
    ensures var e := WrongForAdd(priority, actions, scope, name);
      && (e == None <==>
            scope != Unknown && InRange(priority) && KnownRights(actions) && (actions == [] || name == ""))
      && (e == Some(InvalidScope) <==> scope == Unknown)
      && (e == Some(InvalidPriority) <==> scope != Unknown && !InRange(priority))
      && (e == Some(InvalidRights) <==> scope != Unknown && InRange(priority) && !KnownRights(actions))
  {
    ValidIffKnown(actions);
  }

  /** `addACLToRole` further needs a role to add to, a scope for actions, and a role other than itself to use. */
  lemma AddToRoleArguments(roles: Roles, name: string, priority: int, actions: seq<Action>, scope: ScopeArg,
                           useRole: string)
    ensures var e := WrongForRole(roles, name, priority, actions, scope, useRole);
      && (e == None <==>
            name in roles && InRange(priority) && (actions == [] || scope.Given?) && KnownRights(actions)
            && (actions == [] || useRole == "") && (useRole == "" || useRole != name))
      && (e == Some(RoleNotFound) <==> name !in roles)
      && (e == Some(InvalidPriority) <==> name in roles && !InRange(priority))
      && (e == Some(InvalidScope) <==> name in roles && InRange(priority) && actions != [] && !scope.Given?)
      && (e == Some(SelfReference) ==> useRole == name && useRole != "" && actions == [])
  {
    ValidIffKnown(actions);
  }

  lemma UpdateRoleArguments(ch: Changes)
    ensures var e := WrongForRoleUpdate(ch);
      && (e == None <==> InRange(ch.priority) && (ch.actions == [] || ch.rolename == "") && ch.scope != Unknown
                         && KnownRights(ch.actions))
      && (e == Some(InvalidPriority) <==> !InRange(ch.priority))
      && (e == Some(ParameterMismatch) <==> InRange(ch.priority) && ch.actions != [] && ch.rolename != "")
  {
    ValidIffKnown(ch.actions);
  }

  // ----- lists in order -----

  /** An entry without a priority counts as 0. */
  function PriorityOf(a: Acl): int {
    match a.priority case Some(n) => n case None => 0
  }

  /** Adding keeps every entry and brings in the new one, with the length of the list as its priority if it has none;
      afterwards the priorities go up in a set and down in a role. */
  lemma AddedHolds(acls: seq<Acl>, a: Acl, descending: bool)
    ensures var all, b := Added(acls, a, descending),
                          if a.priority == None then a.(priority := Some(|acls|)) else a;
      && multiset(all) == multiset(acls) + multiset{b}
      && forall i, j :: 0 <= i < j < |all| ==>
           if descending then PriorityOf(all[i]) >= PriorityOf(all[j]) else PriorityOf(all[i]) <= PriorityOf(all[j])
  {
    var b := WithPriority(a, |acls|);
    SortSorts(acls + [b], descending);
    assert multiset(acls + [b]) == multiset(acls) + multiset{b};
    var all := Added(acls, a, descending);
    forall i, j | 0 <= i < j < |all|
      ensures if descending then PriorityOf(all[i]) >= PriorityOf(all[j]) else PriorityOf(all[i]) <= PriorityOf(all[j])
    {
      assert SortKey(all[i], descending) <= SortKey(all[j], descending);
    }
  }

  // ----- sets -----

  /** The list holds the old entries and a new one that differs from `a` at most in a priority that `a` lacks. */
  ghost predicate Gains(acls: seq<Acl>, a: Acl, now: seq<Acl>) {
    exists n :: multiset(now) == multiset(acls) + multiset{a.(priority := Some(n))}
                && (a.priority.Some? ==> n == a.priority.value)
  }

  lemma AddedGains(acls: seq<Acl>, a: Acl, descending: bool)
    ensures Gains(acls, a, Added(acls, a, descending))
  {
    AddedHolds(acls, a, descending);
    var n := if a.priority == None then |acls| else a.priority.value;
    assert a.(priority := Some(n)) == if a.priority == None then a.(priority := Some(|acls|)) else a;
  }

  /** `add_acl_to_base`: every set on the base gains the entry, every other set stays. */
  lemma {:induction false} AddToAllHolds(sets: seq<AclSet>, base: Dn, a: Acl)
    ensures var now := AddToAll(sets, base, a);
      && |now| == |sets|
      && forall i :: 0 <= i < |sets| ==>
           && now[i].base == sets[i].base
           && (if sets[i].base == base then Gains(sets[i].acls, a, now[i].acls) else now[i] == sets[i])
    decreases sets
  {
    if sets != [] {
      var b := if sets[0].base == base then WithPriority(a, |sets[0].acls|) else a;
      AddedGains(sets[0].acls, a, false);
      AddToAllHolds(sets[1..], base, b);
      var now := AddToAll(sets, base, a);
      forall i | 0 < i < |sets| && sets[i].base == base
        ensures Gains(sets[i].acls, a, now[i].acls)
      {
        GainsWithPriority(sets[i].acls, a, |sets[0].acls|, b, now[i].acls);
      }
    }
  }

  lemma GainsWithPriority(acls: seq<Acl>, a: Acl, n: nat, b: Acl, now: seq<Acl>)
    requires b == a || b == WithPriority(a, n)
    requires Gains(acls, b, now)
    ensures Gains(acls, a, now)
  {
    var m :| multiset(now) == multiset(acls) + multiset{b.(priority := Some(m))}
             && (b.priority.Some? ==> m == b.priority.value);
    assert b.(priority := Some(m)) == a.(priority := Some(m));
  }

  /** `add_acl_to_set`: the first set on the base gains the entry, every other set stays. */
  lemma AddToFirstHolds(sets: seq<AclSet>, base: Dn, a: Acl, k: nat)
    requires k < |sets| && sets[k].base == base && forall j :: 0 <= j < k ==> sets[j].base != base
    ensures var now := AddToFirst(sets, base, a);
      && |now| == |sets| && now[k].base == base && Gains(sets[k].acls, a, now[k].acls)
      && forall i :: 0 <= i < |sets| && i != k ==> now[i] == sets[i]
  {
    assert sets[k] in sets && HasBase(sets, base);
    var first := AddToFirstAt(sets, base, a);
    assert first == k;
    AddedGains(sets[k].acls, a, false);
  }

  function Ids(acls: seq<Acl>): multiset<int> {
    multiset(seq(|acls|, i requires 0 <= i < |acls| => acls[i].id))
  }

  /** `add_acl_set` on a known base: the first set there gains all entries, every other set stays. */
  lemma {:induction false} MergedHolds(sets: seq<AclSet>, s: AclSet, k: nat)
    requires k < |sets| && sets[k].base == s.base && forall j :: 0 <= j < k ==> sets[j].base != s.base
    ensures var now := AddEach(sets, s.base, s.acls);
      && now == Merged(sets, s)
      && |now| == |sets| && now[k].base == s.base
      && Ids(now[k].acls) == Ids(sets[k].acls) + Ids(s.acls)
      && forall i :: 0 <= i < |sets| && i != k ==> now[i] == sets[i]
    decreases s.acls
  {
    assert sets[k] in sets && HasBase(sets, s.base);
    if s.acls != [] {
      var a := s.acls[0];
      AddToFirstHolds(sets, s.base, a, k);
      var one := AddToFirst(sets, s.base, a);
      GainedIds(sets[k].acls, a, one[k].acls);
      MergedHolds(one, AclSet(s.base, s.acls[1..]), k);
      FirstId(s.acls);
    } else {
      assert Ids([]) == multiset{};
    }
  }

  lemma IdsConcat(a: seq<Acl>, b: seq<Acl>)
    ensures Ids(a + b) == Ids(a) + Ids(b)
  {
    var x, y := seq(|a|, i requires 0 <= i < |a| => a[i].id), seq(|b|, i requires 0 <= i < |b| => b[i].id);
    var all := seq(|a + b|, i requires 0 <= i < |a + b| => (a + b)[i].id);
    assert all == x + y;
  }

  lemma OneId(a: Acl)
    ensures Ids([a]) == multiset{a.id}
  {
    assert seq(1, i requires 0 <= i < 1 => [a][i].id) == [a.id];
  }

  lemma FirstId(acls: seq<Acl>)
    requires acls != []
    ensures Ids(acls) == multiset{acls[0].id} + Ids(acls[1..])
  {
    assert acls == [acls[0]] + acls[1..];
    IdsConcat([acls[0]], acls[1..]);
    OneId(acls[0]);
  }

  lemma GainedIds(acls: seq<Acl>, a: Acl, now: seq<Acl>)
    requires Gains(acls, a, now)
    ensures Ids(now) == Ids(acls) + multiset{a.id}
  {
    var n :| multiset(now) == multiset(acls) + multiset{a.(priority := Some(n))};
    var b := a.(priority := Some(n));
    assert multiset(now) == multiset(acls + [b]);
    SameIds(now, acls + [b]);
    IdsConcat(acls, [b]);
    OneId(b);
  }

  lemma Cancelled<T>(a: multiset<T>, b: multiset<T>, t: T)
    requires a + multiset{t} == b + multiset{t}
    ensures a == b
  {
    assert a == (a + multiset{t}) - multiset{t} && b == (b + multiset{t}) - multiset{t};
  }

  lemma {:induction false} SameIds(x: seq<Acl>, y: seq<Acl>)
    requires multiset(x) == multiset(y)
    ensures Ids(x) == Ids(y)
    decreases |x|
  {
    assert |x| == |multiset(x)| == |multiset(y)| == |y|;
    if x != [] {
      assert x[0] in multiset(y);
      var j :| 0 <= j < |y| && y[j] == x[0];
      var rest := y[..j] + y[j + 1..];
      assert y == y[..j] + [y[j]] + y[j + 1..];
      assert x == [x[0]] + x[1..];
      assert multiset(y) == multiset(rest) + multiset{y[j]};
      assert multiset(x) == multiset(x[1..]) + multiset{x[0]};
      Cancelled(multiset(x[1..]), multiset(rest), x[0]);
      SameIds(x[1..], rest);
      FirstId(x);
      IdOut(y, j);
    }
  }

  lemma IdOut(y: seq<Acl>, j: nat)
    requires j < |y|
    ensures Ids(y) == multiset{y[j].id} + Ids(y[..j] + y[j + 1..])
  {
    var a, b := y[..j], y[j + 1..];
    assert y == (a + [y[j]]) + b;
    IdsConcat(a + [y[j]], b);
    IdsConcat(a, [y[j]]);
    IdsConcat(a, b);
    OneId(y[j]);
  }

  /** `addACL` for a base that has a set opens none; otherwise there is one new empty set behind the others, on the
      base, or on the root for the empty base. */
  lemma OpenedHolds(sets: seq<AclSet>, base: Dn, root: Dn)
    ensures var now, place := Opened(sets, base, root), if base == [] then root else base;
      if (exists s :: s in sets && s.base == base) || (exists s :: s in sets && s.base == place)
      then now == sets else now == sets + [AclSet(place, [])]
  {
  }

  // ----- members -----

  /** The first mention of a name goes and nothing else; whoever was mentioned once is gone. */
  lemma {:induction false} RemoveFirstHolds(s: seq<string>, x: string)
    ensures var now := RemoveFirst(s, x);
      && multiset(now) == multiset(s) - multiset{x}
      && (x !in s ==> now == s)
      && (multiset(s)[x] == 1 ==> x !in now)
    decreases s
  {
    if s != [] {
      assert s == [s[0]] + s[1..];
      if s[0] != x {
        RemoveFirstHolds(s[1..], x);
        assert [s[0]] + s[1..] == s;
      }
      assert x in RemoveFirst(s, x) ==> multiset(RemoveFirst(s, x))[x] > 0;
    }
  }

  /** `remove_acls_for_user`: every entry of every set loses one mention of the user, and nothing else changes. */
  lemma RemoveUserHolds(sets: seq<AclSet>, user: string, i: nat, k: nat)
    requires i < |sets| && k < |sets[i].acls|
    ensures var now := RemoveUser(sets, user);
      && |now| == |sets| && now[i].base == sets[i].base && |now[i].acls| == |sets[i].acls|
      && now[i].acls[k].(members := sets[i].acls[k].members) == sets[i].acls[k]
      && multiset(now[i].acls[k].members) == multiset(sets[i].acls[k].members) - multiset{user}
  {
    RemoveFirstHolds(sets[i].acls[k].members, user);
  }

  // ----- where an id is found -----

  /** The ids in use are those of the entries of all sets and all roles. */
  lemma UsedIdsAre(sets: seq<AclSet>, roles: Roles, id: int)
    ensures id in UsedIds(sets, roles) <==>
              || (exists s, a :: s in sets && a in s.acls && a.id == id)
              || (exists n, a :: n in roles && a in roles[n] && a.id == id)
  {
  }

  predicate Precedes(x: Position, y: Position) {
    x.i < y.i || (x.i == y.i && x.k < y.k)
  }

  predicate Ascending(xs: seq<Position>) {
    forall m, n :: 0 <= m < n < |xs| ==> Precedes(xs[m], xs[n])
  }

  lemma AscendingFrom(x: Position, rest: seq<Position>)
    requires Ascending(rest) && forall y :: y in rest ==> Precedes(x, y)
    ensures Ascending([x] + rest)
  {
    var xs := [x] + rest;
    forall m, n | 0 <= m < n < |xs|
      ensures Precedes(xs[m], xs[n])
    {
      assert xs[n] == rest[n - 1] && rest[n - 1] in rest;
    }
  }

  /** The places of an id are listed in set order and entry order, so the first and the last are just that. */
  lemma {:induction false} PlacesInOrder(sets: seq<AclSet>, i: nat, k: nat, id: int)
    ensures Ascending(PositionsFrom(sets, i, k, id))
    decreases |sets| - i, if i < |sets| then |sets[i].acls| - k else 0
  {
    if i < |sets| {
      if k >= |sets[i].acls| {
        PlacesInOrder(sets, i + 1, 0, id);
      } else {
        PlacesInOrder(sets, i, k + 1, id);
        if sets[i].acls[k].id == id {
          LaterPlaces(sets, i, k, id);
          AscendingFrom(Position(i, k), PositionsFrom(sets, i, k + 1, id));
        }
      }
    }
  }

  lemma LaterPlaces(sets: seq<AclSet>, i: nat, k: nat, id: int)
    ensures forall y :: y in PositionsFrom(sets, i, k + 1, id) ==> Precedes(Position(i, k), y)
  {
    PositionsAre(sets, i, k + 1, id);
    forall y | y in PositionsFrom(sets, i, k + 1, id)
      ensures Precedes(Position(i, k), y)
    {
      assert NotBefore(y, i, k + 1);
    }
  }

  /** The entry that `removeACL` removes is the first with the id, the one that `updateACL` changes the last. */
  lemma FirstAndLastPlace(sets: seq<AclSet>, id: int, i: nat, k: nat)
    requires i < |sets| && k < |sets[i].acls| && sets[i].acls[k].id == id
    ensures var xs := Positions(sets, id);
      && xs != []
      && !Precedes(Position(i, k), xs[0]) && !Precedes(xs[|xs| - 1], Position(i, k))
      && forall x :: x in xs ==> x.i < |sets| && x.k < |sets[x.i].acls| && sets[x.i].acls[x.k].id == id
  {
    PositionsAre(sets, 0, 0, id);
    PlacesInOrder(sets, 0, 0, id);
    assert EntryAt(sets, i, k, id) && NotBefore(Position(i, k), 0, 0);
    var xs := Positions(sets, id);
    var n :| 0 <= n < |xs| && xs[n] == Position(i, k);
    if n > 0 { assert Precedes(xs[0], xs[n]); }
    if n < |xs| - 1 { assert Precedes(xs[n], xs[|xs| - 1]); }
    assert forall x :: x in xs ==> EntryAt(sets, x.i, x.k, id);
  }
}
