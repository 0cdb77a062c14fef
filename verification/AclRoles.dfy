/** Which roles are in use (`is_role_used`), and why removing an unused one cannot be noticed. */
module AclRoles {
  import opened Names
  import opened Wrappers
  import opened AclModel
  import opened AclDecision

  /** Following references from `entries` meets the role `name` within `n` steps. */
  ghost predicate Meets(roles: Roles, entries: seq<Acl>, name: string, n: nat)
    decreases n
  {
    n > 0 && exists e :: e in entries && e.usesRole
                         && (e.role == name || (e.role in roles && Meets(roles, roles[e.role], name, n - 1)))
  }

  ghost predicate Uses(roles: Roles, entries: seq<Acl>, name: string) {
    exists n: nat :: Meets(roles, entries, name, n)
  }

  ghost predicate RoleUsed(p: Policy, name: string) {
    exists s :: s in p.sets && Uses(p.roles, s.acls, name)
  }

  lemma UsesUnfold(roles: Roles, entries: seq<Acl>, name: string)
    ensures Uses(roles, entries, name) <==>
      exists e :: e in entries && e.usesRole
                  && (e.role == name || (e.role in roles && Uses(roles, roles[e.role], name)))
  {
    if n: nat :| Meets(roles, entries, name, n) {
      var e :| e in entries && e.usesRole
               && (e.role == name || (e.role in roles && Meets(roles, roles[e.role], name, n - 1)));
      assert e.role == name || Uses(roles, roles[e.role], name);
    }
    if e :| e in entries && e.usesRole && (e.role == name || (e.role in roles && Uses(roles, roles[e.role], name))) {
      if e.role == name {
        assert Meets(roles, entries, name, 1);
      } else {
        var n: nat :| Meets(roles, roles[e.role], name, n);
        assert Meets(roles, entries, name, n + 1);
      }
    }
  }

  // ----- the search of `is_role_used` -----

  /** The search finds the name or not, raises KeyError for a role that does not exist, or never ends. */
  datatype Search = Found | NotFound | Missing(role: string) | Endless

  /** `__is_role_used`, on every graph: `path` holds the roles whose entries are being searched. A role met again on its
      own path would be searched in the same way for ever. */
  function Seek(roles: Roles, entries: seq<Acl>, name: string, path: seq<string>): Search
    decreases Unused(roles, path), |entries|
  {
    if entries == [] then NotFound
    else
      var a := entries[0];
      if !a.usesRole then Seek(roles, entries[1..], name, path)
      else if a.role == name then Found
      else if a.role !in roles then Missing(a.role)
      else if a.role in path then Endless
      else
        assert a.role in Unused(roles, path) && a.role !in Unused(roles, path + [a.role]);
        assert Unused(roles, path + [a.role]) <= Unused(roles, path);
        var inner := Seek(roles, roles[a.role], name, path + [a.role]);
        if inner.NotFound? then Seek(roles, entries[1..], name, path) else inner
  }

  /** The entries of all sets, in order. */
  function AllEntries(sets: seq<AclSet>): seq<Acl> {
    if sets == [] then [] else sets[0].acls + AllEntries(sets[1..])
  }

  /** `is_role_used`. */
  function SeekInSets(p: Policy, name: string): Search {
    Seek(p.roles, AllEntries(p.sets), name, [])
  }

  lemma {:induction false} SeekConcat(roles: Roles, a: seq<Acl>, b: seq<Acl>, name: string, path: seq<string>)
    ensures var first := Seek(roles, a, name, path);
      Seek(roles, a + b, name, path) == if first.NotFound? then Seek(roles, b, name, path) else first
    decreases a
  {
    if a == [] {
      assert a + b == b;
    } else {
      assert (a + b)[0] == a[0] && (a + b)[1..] == a[1..] + b;
      SeekConcat(roles, a[1..], b, name, path);
    }
  }

  /** What the search says is right: found means that the references lead to the role, not found that they do not. */
  lemma {:induction false} SeekMeaning(roles: Roles, entries: seq<Acl>, name: string, path: seq<string>)
    ensures Seek(roles, entries, name, path).Found? ==> Uses(roles, entries, name)
    ensures Seek(roles, entries, name, path).NotFound? ==> !Uses(roles, entries, name)
    decreases Unused(roles, path), |entries|
  {
    UsesUnfold(roles, entries, name);
    if entries != [] {
      var a, rest := entries[0], entries[1..];
      assert a in entries && forall e :: e in entries <==> e == a || e in rest;
      UsesUnfold(roles, rest, name);
      SeekMeaning(roles, rest, name, path);
      if a.usesRole && a.role != name && a.role in roles && a.role !in path {
        assert a.role in Unused(roles, path) && a.role !in Unused(roles, path + [a.role]);
        assert Unused(roles, path + [a.role]) <= Unused(roles, path);
        SeekMeaning(roles, roles[a.role], name, path + [a.role]);
      }
    }
  }

  lemma {:induction false} MissingIsMissing(roles: Roles, entries: seq<Acl>, name: string, path: seq<string>)
    ensures var r := Seek(roles, entries, name, path); r.Missing? ==> r.role !in roles
    decreases Unused(roles, path), |entries|
  {
    if entries != [] {
      var a := entries[0];
      MissingIsMissing(roles, entries[1..], name, path);
      if a.usesRole && a.role != name && a.role in roles && a.role !in path {
        assert a.role in Unused(roles, path) && a.role !in Unused(roles, path + [a.role]);
        assert Unused(roles, path + [a.role]) <= Unused(roles, path);
        MissingIsMissing(roles, roles[a.role], name, path + [a.role]);
      }
    }
  }

  lemma {:induction false} EntriesOfSets(sets: seq<AclSet>)
    ensures forall e :: e in AllEntries(sets) <==> exists s :: s in sets && e in s.acls
    decreases sets
  {
    if sets != [] {
      EntriesOfSets(sets[1..]);
      forall e
        ensures e in AllEntries(sets) <==> exists s :: s in sets && e in s.acls
      {
        if e in sets[0].acls {
          assert sets[0] in sets;
        } else if e in AllEntries(sets[1..]) {
          var s :| s in sets[1..] && e in s.acls;
          assert s in sets;
        }
      }
    }
  }

  lemma UsedIffSetsUse(p: Policy, name: string)
    ensures RoleUsed(p, name) <==> Uses(p.roles, AllEntries(p.sets), name)
  {
    var all := AllEntries(p.sets);
    EntriesOfSets(p.sets);
    UsesUnfold(p.roles, all, name);
    if RoleUsed(p, name) {
      var s :| s in p.sets && Uses(p.roles, s.acls, name);
      UsesUnfold(p.roles, s.acls, name);
    }
    if e :| e in all && e.usesRole && (e.role == name || (e.role in p.roles && Uses(p.roles, p.roles[e.role], name))) {
      if Uses(p.roles, all, name) {
        var s :| s in p.sets && e in s.acls;
        UsesUnfold(p.roles, s.acls, name);
      }
    }
  }

  /** The loop with its recursive calls, on every graph where the search ends. */
  method IsUsedIn(roles: Roles, entries: seq<Acl>, name: string, ghost path: seq<string>) returns (r: Search)
    requires !Seek(roles, entries, name, path).Endless?
    ensures r == Seek(roles, entries, name, path)
    decreases Unused(roles, path)
  {
    for i := 0 to |entries|
      invariant Seek(roles, entries[i..], name, path) == Seek(roles, entries, name, path)
    {
      var acl := entries[i];
      assert entries[i..][0] == acl && entries[i..][1..] == entries[i + 1..];
      if acl.usesRole {
        if acl.role == name { return Found; }
        if acl.role !in roles { return Missing(acl.role); }
        assert acl.role in Unused(roles, path) && acl.role !in Unused(roles, path + [acl.role]);
        assert Unused(roles, path + [acl.role]) <= Unused(roles, path);
        var inner := IsUsedIn(roles, roles[acl.role], name, path + [acl.role]);
        if !inner.NotFound? { return inner; }
      }
    }
    r := NotFound;
  }

  /** `is_role_used` decides whether references lead from the ACL sets to the role, unless it meets a missing role. */
  method IsRoleUsed(p: Policy, name: string) returns (r: Search)
    requires !SeekInSets(p, name).Endless?
    ensures r == SeekInSets(p, name)
    ensures r.Found? ==> RoleUsed(p, name)
    ensures r.NotFound? ==> !RoleUsed(p, name)
  {
    SeekMeaning(p.roles, AllEntries(p.sets), name, []);
    UsedIffSetsUse(p, name);
    for i := 0 to |p.sets|
      invariant Seek(p.roles, AllEntries(p.sets[i..]), name, []) == SeekInSets(p, name)
    {
      var s := p.sets[i];
      assert p.sets[i..][0] == s && p.sets[i..][1..] == p.sets[i + 1..];
      SeekConcat(p.roles, s.acls, AllEntries(p.sets[i + 1..]), name, []);
      var inner := IsUsedIn(p.roles, s.acls, name, []);
      if !inner.NotFound? { return inner; }
    }
    r := NotFound;
  }

  // ----- when the search ends -----

  /** The same search with at most `depth` calls inside each other, and no record of a path. */
  function SeekWithin(roles: Roles, entries: seq<Acl>, name: string, depth: nat): Option<Search>
    decreases depth, |entries|
  {
    if entries == [] then Some(NotFound)
    else
      var a := entries[0];
      if !a.usesRole then SeekWithin(roles, entries[1..], name, depth)
      else if a.role == name then Some(Found)
      else if a.role !in roles then Some(Missing(a.role))
      else if depth == 0 then None
      else
        var inner := SeekWithin(roles, roles[a.role], name, depth - 1);
        if inner == Some(NotFound) then SeekWithin(roles, entries[1..], name, depth) else inner
  }

  lemma {:induction false} DeeperIsSame(roles: Roles, entries: seq<Acl>, name: string, depth: nat, more: nat)
    requires depth <= more && SeekWithin(roles, entries, name, depth).Some?
    ensures SeekWithin(roles, entries, name, more) == SeekWithin(roles, entries, name, depth)
    decreases depth, |entries|
  {
    if entries != [] {
      var a := entries[0];
      if !a.usesRole {
        DeeperIsSame(roles, entries[1..], name, depth, more);
      } else if a.role != name && a.role in roles {
        DeeperIsSame(roles, roles[a.role], name, depth - 1, more - 1);
        if SeekWithin(roles, roles[a.role], name, depth - 1) == Some(NotFound) {
          DeeperIsSame(roles, entries[1..], name, depth, more);
        }
      }
    }
  }

  /** A search that does not come back to its own path ends within some depth, ... */
  lemma {:induction false} SearchFits(roles: Roles, entries: seq<Acl>, name: string, path: seq<string>)
    returns (depth: nat)
    requires !Seek(roles, entries, name, path).Endless?
    ensures SeekWithin(roles, entries, name, depth) == Some(Seek(roles, entries, name, path))
    decreases Unused(roles, path), |entries|
  {
    depth := 0;
    if entries != [] {
      var a := entries[0];
      if !a.usesRole {
        depth := SearchFits(roles, entries[1..], name, path);
      } else if a.role != name && a.role in roles {
        assert a.role in Unused(roles, path) && a.role !in Unused(roles, path + [a.role]);
        assert Unused(roles, path + [a.role]) <= Unused(roles, path);
        var inner := SearchFits(roles, roles[a.role], name, path + [a.role]);
        depth := inner + 1;
        if Seek(roles, roles[a.role], name, path + [a.role]).NotFound? {
          var rest := SearchFits(roles, entries[1..], name, path);
          depth := if rest < inner + 1 then inner + 1 else rest;
          DeeperIsSame(roles, entries[1..], name, rest, depth);
        }
        DeeperIsSame(roles, roles[a.role], name, inner, depth - 1);
      }
    }
  }

  /** Each role on the path waits for the one behind it, the last one for the entries: whoever ends within some depth
      ends after them. */
  ghost predicate Waiting(roles: Roles, entries: seq<Acl>, name: string, path: seq<string>) {
    forall i, depth: nat :: 0 <= i < |path| && path[i] in roles
                            && SeekWithin(roles, roles[path[i]], name, depth).Some? ==>
      |path| - 1 - i <= depth && SeekWithin(roles, entries, name, depth - (|path| - 1 - i)).Some?
  }

  lemma WaitingForRole(roles: Roles, entries: seq<Acl>, name: string, path: seq<string>)
    requires entries != [] && Waiting(roles, entries, name, path)
    requires var a := entries[0]; a.usesRole && a.role != name && a.role in roles
    ensures Waiting(roles, roles[entries[0].role], name, path + [entries[0].role])
  {
    var role := entries[0].role;
    var longer := path + [role];
    forall i, depth: nat | 0 <= i < |longer| && longer[i] in roles
                           && SeekWithin(roles, roles[longer[i]], name, depth).Some?
      ensures |longer| - 1 - i <= depth && SeekWithin(roles, roles[role], name, depth - (|longer| - 1 - i)).Some?
    {
      if i < |path| {
        assert path[i] == longer[i];
        assert SeekWithin(roles, entries, name, depth - (|path| - 1 - i)).Some?;
      }
    }
  }

  /** ... and one that comes back to its own path ends within none. */
  lemma {:induction false} EndlessAtEveryDepth(roles: Roles, entries: seq<Acl>, name: string, path: seq<string>,
                                               depth: nat)
    requires Seek(roles, entries, name, path).Endless? && Waiting(roles, entries, name, path)
    ensures SeekWithin(roles, entries, name, depth).None?
    decreases Unused(roles, path), |entries|, depth
  {
    var a, rest := entries[0], entries[1..];
    if !a.usesRole {
      EndlessAtEveryDepth(roles, rest, name, path, depth);
    } else if a.role in path {
      if SeekWithin(roles, entries, name, depth).Some? {
        var i :| 0 <= i < |path| && path[i] == a.role;
        assert depth > 0 && SeekWithin(roles, roles[path[i]], name, depth - 1).Some?;
        EndlessAtEveryDepth(roles, entries, name, path, depth - 1 - (|path| - 1 - i));
      }
    } else {
      assert a.role in Unused(roles, path) && a.role !in Unused(roles, path + [a.role]);
      assert Unused(roles, path + [a.role]) <= Unused(roles, path);
      if Seek(roles, roles[a.role], name, path + [a.role]).Endless? {
        WaitingForRole(roles, entries, name, path);
        if depth > 0 {
          EndlessAtEveryDepth(roles, roles[a.role], name, path + [a.role], depth - 1);
        }
      } else {
        var inner := SearchFits(roles, roles[a.role], name, path + [a.role]);
        forall d: nat | SeekWithin(roles, entries, name, d).Some?
          ensures SeekWithin(roles, rest, name, d).Some?
        {
          DeeperIsSame(roles, roles[a.role], name, d - 1, d + inner);
          DeeperIsSame(roles, roles[a.role], name, inner, d + inner);
        }
        EndlessAtEveryDepth(roles, rest, name, path, depth);
      }
    }
  }

  /** The search ends, within some depth of calls, if and only if no role is met again on its own path before the name
      or a missing role is met; and then it ends in that outcome. */
  lemma SearchEndsIff(roles: Roles, entries: seq<Acl>, name: string)
    ensures (exists depth: nat :: SeekWithin(roles, entries, name, depth).Some?) <==>
              !Seek(roles, entries, name, []).Endless?
    ensures forall depth: nat :: SeekWithin(roles, entries, name, depth).Some? ==>
              SeekWithin(roles, entries, name, depth) == Some(Seek(roles, entries, name, []))
  {
    if Seek(roles, entries, name, []).Endless? {
      forall depth: nat ensures SeekWithin(roles, entries, name, depth).None? {
        EndlessAtEveryDepth(roles, entries, name, [], depth);
      }
    } else {
      var enough := SearchFits(roles, entries, name, []);
      forall depth: nat | SeekWithin(roles, entries, name, depth).Some?
        ensures SeekWithin(roles, entries, name, depth) == Some(Seek(roles, entries, name, []))
      {
        DeeperIsSame(roles, entries, name, depth, depth + enough);
        DeeperIsSame(roles, entries, name, enough, depth + enough);
      }
    }
  }

  /** On one and the same cycle the search for a role of the cycle ends, the search for any other name does not. */
  lemma SearchOnCycle(entry: Acl, toA: Acl, toB: Acl, name: string)
    requires entry.usesRole && entry.role == "b" && toA.usesRole && toA.role == "a" && toB.usesRole && toB.role == "b"
    ensures var roles := map["a" := [toB], "b" := [toA]];
      Seek(roles, [entry], name, []) == if name == "a" || name == "b" then Found else Endless
  {
    var roles := map["a" := [toB], "b" := [toA]];
    assert [] + ["b"] == ["b"] && ["b"] + ["a"] == ["b", "a"];
    assert Seek(roles, [toB], name, ["b", "a"]) == if name == "b" then Found else Endless;
    assert name != "a" ==> Seek(roles, [toA], name, ["b"]) == Seek(roles, [toB], name, ["b", "a"]);
  }

  /** Nothing in reach of the entries dangles or lies on a cycle: what they refer to has a rank, and refers to roles of
      lower rank only. */
  ghost predicate Ranked(roles: Roles, entries: seq<Acl>, rank: map<string, nat>) {
    && (forall e :: e in entries && e.usesRole ==> e.role in rank)
    && forall r :: r in rank ==> r in roles && forall e :: e in roles[r] && e.usesRole ==>
                                                e.role in rank && rank[e.role] < rank[r]
  }

  /** Then every search ends, with an answer: nobody on the path has a lower rank than the entries ahead. */
  lemma {:induction false} RankedSearchAnswers(roles: Roles, entries: seq<Acl>, rank: map<string, nat>, name: string,
                                               path: seq<string>)
    requires Ranked(roles, entries, rank)
    requires forall r, e :: r in path && e in entries && e.usesRole ==> r in rank && rank[e.role] < rank[r]
    ensures Seek(roles, entries, name, path) == if Uses(roles, entries, name) then Found else NotFound
    decreases Unused(roles, path), |entries|
  {
    SeekMeaning(roles, entries, name, path);
    if entries != [] {
      var a, rest := entries[0], entries[1..];
      assert a in entries && forall e :: e in rest ==> e in entries;
      RankedSearchAnswers(roles, rest, rank, name, path);
      if a.usesRole && a.role != name {
        assert a.role !in path;
        assert a.role in Unused(roles, path) && a.role !in Unused(roles, path + [a.role]);
        assert Unused(roles, path + [a.role]) <= Unused(roles, path);
        RankedSearchAnswers(roles, roles[a.role], rank, name, path + [a.role]);
        SeekMeaning(roles, roles[a.role], name, path + [a.role]);
      }
    }
  }

  /** So on an acyclic graph without dangling names in reach of the sets, `is_role_used` decides every question. */
  lemma RankedSetsAnswer(p: Policy, rank: map<string, nat>, name: string)
    requires Ranked(p.roles, AllEntries(p.sets), rank)
    ensures SeekInSets(p, name) == if RoleUsed(p, name) then Found else NotFound
  {
    UsedIffSetsUse(p, name);
    RankedSearchAnswers(p.roles, AllEntries(p.sets), rank, name, []);
  }

  // ----- removing an unused role -----

  function WithoutRole(p: Policy, name: string): Policy {
    p.(roles := p.roles - {name})
  }

  lemma {:induction false} MatchWithout(w: World, roles: Roles, name: string, q: Request, acl: Acl, used: seq<string>,
                                        override: seq<string>)
    requires !Uses(roles, [acl], name)
    ensures MatchAcl(w, roles - {name}, q, acl, used, override) == MatchAcl(w, roles, q, acl, used, override)
    decreases Unused(roles, used), 0
  {
    UsesUnfold(roles, [acl], name);
    if acl.usesRole && acl.role !in used && acl.role in roles {
      assert acl in [acl];
      assert acl.role in Unused(roles, used) && acl.role !in Unused(roles, used + [acl.role]);
      EntriesWithout(w, roles, name, q, roles[acl.role], used + [acl.role], Inherited(acl, override));
    }
  }

  lemma {:induction false} EntriesWithout(w: World, roles: Roles, name: string, q: Request, entries: seq<Acl>,
                                          used: seq<string>, override: seq<string>)
    requires !Uses(roles, entries, name)
    ensures MatchEntries(w, roles - {name}, q, entries, used, override)
         == MatchEntries(w, roles, q, entries, used, override)
    decreases Unused(roles, used), |entries|
  {
    if entries != [] {
      UsesPart(roles, entries, [entries[0]], name);
      UsesPart(roles, entries, entries[1..], name);
      MatchWithout(w, roles, name, q, entries[0], used, override);
      var (v, u) := MatchAcl(w, roles, q, entries[0], used, override);
      if v.NoMatch? {
        EntriesWithout(w, roles, name, q, entries[1..], u, override);
      }
    }
  }

  lemma UsesPart(roles: Roles, all: seq<Acl>, part: seq<Acl>, name: string)
    requires !Uses(roles, all, name) && forall e :: e in part ==> e in all
    ensures !Uses(roles, part, name)
  {
    UsesUnfold(roles, all, name);
    UsesUnfold(roles, part, name);
  }

  lemma {:induction false} FoldWithout(p: Policy, name: string, q: Request, cs: seq<Candidate>, reset: bool)
    requires forall c :: c in cs ==> !Uses(p.roles, [c.acl], name)
    ensures Fold(WithoutRole(p, name), q, cs, reset) == Fold(p, q, cs, reset)
    decreases cs
  {
    if cs != [] {
      assert cs[0] in cs;
      MatchWithout(p.world, p.roles, name, q, cs[0].acl, [], []);
      FoldWithout(p, name, q, cs[1..], reset);
      FoldWithout(p, name, q, cs[1..], true);
    }
  }

  lemma {:induction false} WalkStaysInSets(p: Policy, target: Dn, base: Dn)
    ensures forall c :: c in Walk(p, target, base) ==> exists s :: s in p.sets && c.acl in s.acls
    decreases |base|
  {
    if Contains(base, p.root) && base != [] {
      BaseStaysInSets(p.sets, base, base == target);
      WalkStaysInSets(p, target, base[1..]);
    }
  }

  lemma {:induction false} BaseStaysInSets(sets: seq<AclSet>, base: Dn, own: bool)
    ensures forall c :: c in AtBase(sets, base, own) ==> exists s :: s in sets && c.acl in s.acls
    decreases sets
  {
    if sets != [] {
      BaseStaysInSets(sets[1..], base, own);
      forall c | c in AtBase(sets, base, own) ensures exists s :: s in sets && c.acl in s.acls {
        if c in AtBase(sets[1..], base, own) {
          var s :| s in sets[1..] && c.acl in s.acls;
          assert s in sets;
        } else {
          assert c in OfSet(sets[0], own) && sets[0] in sets;
        }
      }
    }
  }

  lemma {:induction false} SameWalk(p: Policy, name: string, target: Dn, base: Dn)
    ensures Walk(WithoutRole(p, name), target, base) == Walk(p, target, base)
    decreases |base|
  {
    if Contains(base, p.root) && base != [] {
      SameWalk(p, name, target, base[1..]);
    }
  }

  /** Removing a role that is not used leaves every decision as it was, exceptions included.
      The role graph may have cycles and dangling roles elsewhere. */
  lemma RemovalIsInvisible(p: Policy, name: string, query: Query)
    requires !RoleUsed(p, name)
    ensures Decide(WithoutRole(p, name), query) == Decide(p, query)
  {
    if query.user.Some? && query.user.value !in p.admins {
      var t := Target(p, query);
      var q := Request(query.user.value, query.topic, query.acls, t);
      var cs := Walk(p, t, t);
      SameWalk(p, name, t, t);
      WalkStaysInSets(p, t, t);
      forall c | c in cs ensures !Uses(p.roles, [c.acl], name) {
        var s :| s in p.sets && c.acl in s.acls;
        UsesPart(p.roles, s.acls, [c.acl], name);
      }
      FoldWithout(p, name, q, cs, false);
    }
  }

  /** It leaves every search as it was, too: what the sets cannot reach does not matter to it. */
  lemma RemovalKeepsSearches(p: Policy, name: string, other: string)
    requires !RoleUsed(p, name)
    ensures SeekInSets(WithoutRole(p, name), other) == SeekInSets(p, other)
  {
    UsedIffSetsUse(p, name);
    SeekWithout(p.roles, AllEntries(p.sets), name, other, []);
  }

  lemma {:induction false} SeekWithout(roles: Roles, entries: seq<Acl>, name: string, other: string, path: seq<string>)
    requires !Uses(roles, entries, name)
    ensures Seek(roles - {name}, entries, other, path) == Seek(roles, entries, other, path)
    decreases Unused(roles, path), |entries|
  {
    UsesUnfold(roles, entries, name);
    if entries != [] {
      var a := entries[0];
      assert a in entries;
      UsesPart(roles, entries, entries[1..], name);
      SeekWithout(roles, entries[1..], name, other, path);
      if a.usesRole && a.role != other && a.role in roles && a.role !in path {
        assert a.role in Unused(roles, path) && a.role !in Unused(roles, path + [a.role]);
        assert Unused(roles, path + [a.role]) <= Unused(roles, path);
        SeekWithout(roles, roles[a.role], name, other, path + [a.role]);
      }
    }
  }

  // ----- what removal does to the role graph -----

  ghost predicate NoDangling(roles: Roles) {
    forall r, e :: r in roles && e in roles[r] && e.usesRole ==> e.role in roles
  }

  ghost predicate RefersTo(roles: Roles, r: string, name: string) {
    r in roles && exists e :: e in roles[r] && e.usesRole && e.role == name
  }

  /** Only references from the sets are looked at: the graph keeps its references intact
      exactly when no other role refers to the removed one. */
  lemma RemovalKeepsReferencesIff(roles: Roles, name: string)
    requires NoDangling(roles)
    ensures NoDangling(roles - {name}) <==> forall r :: r != name ==> !RefersTo(roles, r, name)
  {
    var rest: Roles := roles - {name};
    if r :| r != name && RefersTo(roles, r, name) {
      var e :| e in roles[r] && e.usesRole && e.role == name;
      assert r in rest && e in rest[r] && e.role !in rest;
    }
    if forall r :: r != name ==> !RefersTo(roles, r, name) {
      forall r: string, e: Acl | r in rest && e in rest[r] && e.usesRole ensures e.role in rest {
        assert !RefersTo(roles, r, name) && e in roles[r];
      }
    }
  }

  /** A removal that succeeds and leaves a dangling reference behind. It is out of reach of the sets, and the next
      removal succeeds as well. */
  lemma RemovalCanDangle(p: Policy, entry: Acl)
    requires entry.usesRole && entry.role == "inner"
    requires p.sets == [] && p.roles == map["outer" := [entry], "inner" := []]
    ensures SeekInSets(p, "inner") == NotFound && NoDangling(p.roles)
    ensures var rest := WithoutRole(p, "inner");
      !NoDangling(rest.roles) && SeekInSets(rest, "outer") == NotFound
  {
    assert entry in p.roles["outer"];
    assert RefersTo(p.roles, "outer", "inner");
    RemovalKeepsReferencesIff(p.roles, "inner");
  }
}
