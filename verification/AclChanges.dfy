/** What the operations of the resolver do to the sets and roles, and what they keep. */
module AclChanges {
  import opened Names
  import opened Wrappers
  import opened AclModel
  import opened AclDecision
  import opened AclLists
  import opened AclMemo

  datatype Error =
    | Denied                     // no permission for the command
    | Undecided(verdict: Verdict)   // `check` itself raised
    | AclNotFound | NoBaseAcl | NotFoundOnBase
    | RoleNotFound | RoleInUse | RoleExists | SelfReference
    | DanglingRole(role: string)    // KeyError of a search that meets a role that does not exist
    | EndlessSearch                 // RecursionError of one that goes round a cycle
    | InvalidScope | InvalidScopeTarget | InvalidPriority | InvalidRights | InvalidName | ParameterMismatch

  /** A scope argument: left out, an unknown word, or one of the four. */
  datatype ScopeArg = NotGiven | Unknown | Given(scope: Scope)

  /** What `updateACL` and `updateACLRole` may change; an empty value means "leave it". */
  datatype Changes = Changes(members: seq<string>, priority: int, actions: seq<Action>, rolename: string,
                             scope: ScopeArg)

  predicate ValidRights(actions: seq<Action>) {
    forall a | a in actions :: forall c | c in a.acls :: c in "rwcdmxose"
  }

  /** The entry after an update, and the exception if the update breaks off in the middle. */
  function Updated(a: Acl, roles: Roles, ch: Changes): (Acl, Option<Error>) {
    var a1 := if ch.members != [] then a.(members := ch.members) else a;
    var a2 := if ch.priority != 0 then a1.(priority := Some(ch.priority)) else a1;
    var a3 := if ch.actions != [] then a2.(usesRole := false, role := "", actions := ch.actions) else a2;
    var a4 := if ch.rolename != "" then a3.(usesRole := false, role := "", actions := []) else a3;
    if ch.rolename != "" && ch.rolename !in roles then (a4, Some(RoleNotFound))
    else
      var a5 := if ch.rolename != "" then a4.(usesRole := true, role := ch.rolename) else a4;
      match ch.scope
      case Given(s) => if a5.usesRole then (a5, Some(InvalidScopeTarget)) else (a5.(scope := Some(s)), None)
      case _ => (a5, None)
  }

  /** What is wrong with the arguments of `addACL`. */
  function WrongForAdd(priority: int, actions: seq<Action>, scope: ScopeArg, rolename: string): Option<Error> {
    if scope.Unknown? then Some(InvalidScope)
    else if priority < -100 || priority > 100 then Some(InvalidPriority)
    else if !ValidRights(actions) then Some(InvalidRights)
    else if actions != [] && rolename != "" then Some(ParameterMismatch)
    else None
  }

  /** The entry `addACL` makes: with actions and a scope, SUB if none is given, or with a role and no scope. */
  function NewEntry(id: int, priority: int, members: seq<string>, actions: seq<Action>, scope: ScopeArg,
                    rolename: string): Acl
  {
    if actions != [] then
      Acl(id, Some(priority), members, false, "", Some(if scope.Given? then scope.scope else SUB), actions)
    else Acl(id, Some(priority), members, true, rolename, None, [])
  }

  /** What is wrong with the arguments of `addACLToRole`. */
  function WrongForRole(roles: Roles, rolename: string, priority: int, actions: seq<Action>, scope: ScopeArg,
                        useRole: string): Option<Error>
  {
    if rolename !in roles then Some(RoleNotFound)
    else if priority < -100 || priority > 100 then Some(InvalidPriority)
    else if actions != [] && !scope.Given? then Some(InvalidScope)
    else if !ValidRights(actions) then Some(InvalidRights)
    else if actions != [] && useRole != "" then Some(ParameterMismatch)
    else if useRole == rolename && useRole != "" then Some(SelfReference)
    else None
  }

  /** What is wrong with the arguments of `updateACLRole`. */
  function WrongForRoleUpdate(ch: Changes): Option<Error> {
    if ch.priority < -100 || ch.priority > 100 then Some(InvalidPriority)
    else if ch.actions != [] && ch.rolename != "" then Some(ParameterMismatch)
    else if ch.scope.Unknown? then Some(InvalidScope)
    else if !ValidRights(ch.actions) then Some(InvalidRights)
    else None
  }

  function ReplaceAt(sets: seq<AclSet>, i: nat, k: nat, a: Acl): seq<AclSet>
    requires i < |sets| && k < |sets[i].acls|
  {
    sets[i := sets[i].(acls := sets[i].acls[k := a])]
  }

  /** What an update makes of an entry, field by field: each value that is given replaces the old one, actions and a
      role also replace each other, and everything else stays. With an unknown role the entry ends up with neither, and
      a scope is refused once the entry uses a role. */
  predicate Rewrites(was: Acl, roles: Roles, ch: Changes, now: Acl, error: Option<Error>) {
    var unknown := ch.rolename != "" && ch.rolename !in roles;
    && error == (if unknown then Some(RoleNotFound)
                 else if now.usesRole && ch.scope.Given? then Some(InvalidScopeTarget) else None)
    && now.id == was.id
    && now.members == (if ch.members != [] then ch.members else was.members)
    && now.priority == (if ch.priority != 0 then Some(ch.priority) else was.priority)
    && now.actions == (if ch.rolename != "" then [] else if ch.actions != [] then ch.actions else was.actions)
    && now.usesRole == (if ch.rolename != "" then !unknown else was.usesRole && ch.actions == [])
    && now.role == (if unknown then "" else if ch.rolename != "" then ch.rolename
                    else if ch.actions != [] then "" else was.role)
    && now.scope == (if ch.scope.Given? && error.None? then Some(ch.scope.scope) else was.scope)
  }

  lemma UpdatedRewrites(was: Acl, roles: Roles, ch: Changes)
    requires ch.actions == [] || ch.rolename == ""
    ensures var (now, error) := Updated(was, roles, ch); Rewrites(was, roles, ch, now, error)
  {
  }

  /** Entry `k` of set `i` is rewritten, and nothing else changes. */
  ghost predicate EntryRewritten(before: seq<AclSet>, i: nat, k: nat, roles: Roles, ch: Changes, after: seq<AclSet>,
                                 error: Option<Error>)
    requires i < |before| && k < |before[i].acls|
  {
    && |after| == |before| && (forall j :: 0 <= j < |before| && j != i ==> after[j] == before[j])
    && after[i].base == before[i].base && |after[i].acls| == |before[i].acls|
    && (forall m :: 0 <= m < |before[i].acls| && m != k ==> after[i].acls[m] == before[i].acls[m])
    && Rewrites(before[i].acls[k], roles, ch, after[i].acls[k], error)
  }

  /** The same in a role. */
  ghost predicate RoleEntryRewritten(before: Roles, n: string, k: nat, ch: Changes, after: Roles, error: Option<Error>)
    requires n in before && k < |before[n]|
  {
    && after.Keys == before.Keys && (forall m :: m in before && m != n ==> after[m] == before[m])
    && |after[n]| == |before[n]|
    && (forall m :: 0 <= m < |before[n]| && m != k ==> after[n][m] == before[n][m])
    && Rewrites(before[n][k], before, ch, after[n][k], error)
  }

  lemma UpdatesPlaceRewrites(before: seq<AclSet>, i: nat, k: nat, roles: Roles, ch: Changes, after: seq<AclSet>,
                             r: Option<Error>, late: bool)
    requires i < |before| && k < |before[i].acls| && UpdatesPlace(before, i, k, roles, ch, after, r, late)
    requires ch.actions == [] || ch.rolename == ""
    ensures EntryRewritten(before, i, k, roles, ch, after, r)
  {
    UpdatedRewrites(before[i].acls[k], roles, ch);
  }

  lemma RoleUpdateRewrites(before: Roles, n: string, k: nat, ch: Changes, after: Roles, error: Option<Error>)
    requires n in before && k < |before[n]| && (ch.actions == [] || ch.rolename == "")
    requires error == Updated(before[n][k], before, ch).1
    requires after == before[n := before[n][k := Updated(before[n][k], before, ch).0]]
    ensures RoleEntryRewritten(before, n, k, ch, after, error)
  {
    UpdatedRewrites(before[n][k], before, ch);
  }

  /** The entry in this place is updated, and `late` tells that this raised half-way. */
  predicate UpdatesPlace(before: seq<AclSet>, i: nat, k: nat, roles: Roles, ch: Changes, after: seq<AclSet>,
                         r: Option<Error>, late: bool)
    requires i < |before| && k < |before[i].acls|
  {
    var (a, error) := Updated(before[i].acls[k], roles, ch);
    r == error && (late <==> error.Some?) && after == ReplaceAt(before, i, k, a)
  }

  function RemoveAt(acls: seq<Acl>, k: nat): seq<Acl>
    requires k < |acls|
  {
    acls[..k] + acls[k + 1..]
  }

  function RemoveMember(a: Acl, user: string): Acl {
    a.(members := RemoveFirst(a.members, user))
  }

  function RemoveFirst(s: seq<string>, x: string): seq<string> {
    if s == [] then [] else if s[0] == x then s[1..] else [s[0]] + RemoveFirst(s[1..], x)
  }

  function RemoveUser(sets: seq<AclSet>, user: string): seq<AclSet> {
    seq(|sets|, i requires 0 <= i < |sets| =>
      sets[i].(acls := seq(|sets[i].acls|, k requires 0 <= k < |sets[i].acls| => RemoveMember(sets[i].acls[k], user))))
  }

  function WithBase(sets: seq<AclSet>, base: Dn): seq<AclSet> {
    if HasBase(sets, base) then sets else sets + [AclSet(base, [])]
  }

  /** `addACL` opens a set for a base without one. `ACLSet` replaces an empty base by that of the environment, so the
      set it opens for the empty base, if there is none there, is on the root. */
  function Opened(sets: seq<AclSet>, base: Dn, root: Dn): seq<AclSet> {
    if HasBase(sets, base) then sets else WithBase(sets, if base == [] then root else base)
  }

  function AddEach(sets: seq<AclSet>, base: Dn, acls: seq<Acl>): seq<AclSet>
    decreases acls
  {
    if acls == [] then sets else AddEach(AddToFirst(sets, base, acls[0]), base, acls[1..])
  }

  /** `add_acl_set` */
  function Merged(sets: seq<AclSet>, s: AclSet): seq<AclSet> {
    if HasBase(sets, s.base) then AddEach(sets, s.base, s.acls) else sets + [s]
  }

  function UsedIds(sets: seq<AclSet>, roles: Roles): set<int> {
    (set s, a | s in sets && a in s.acls :: a.id) + (set r, a | r in roles && a in roles[r] :: a.id)
  }

  /** The first id behind the last one given that no entry has. */
  ghost predicate NextFree(used: set<int>, last: int, id: int) {
    last < id && id !in used && forall i :: last < i < id ==> i in used
  }

  ghost function Above(ids: set<int>, n: int): set<int> {
    set i | i in ids && i >= n
  }

  lemma {:induction false} AddKeepsBases(sets: seq<AclSet>, base: Dn, a: Acl)
    requires HasBase(sets, base)
    ensures HasBase(AddToFirst(sets, base, a), base)
    decreases sets
  {
    var r := AddToFirst(sets, base, a);
    assert r[0] in r;
    if sets[0].base != base {
      AddKeepsBases(sets[1..], base, a);
      var s :| s in AddToFirst(sets[1..], base, a) && s.base == base;
      assert s in r;
    }
  }

  lemma {:induction false} AddToAllNone(sets: seq<AclSet>, base: Dn, a: Acl)
    requires !HasBase(sets, base)
    ensures AddToAll(sets, base, a) == sets
    decreases sets
  {
    if sets != [] {
      assert sets[0] in sets && forall s :: s in sets[1..] ==> s in sets;
      AddToAllNone(sets[1..], base, a);
    }
  }

  ghost predicate EntryAt(sets: seq<AclSet>, i: nat, k: nat, id: int) {
    i < |sets| && k < |sets[i].acls| && sets[i].acls[k].id == id
  }

  /** The first entry of the role with the id. */
  ghost predicate FirstInRole(roles: Roles, n: string, k: nat, id: int) {
    RoleEntryAt(roles, n, k, id) && forall j :: 0 <= j < k ==> roles[n][j].id != id
  }

  ghost predicate RoleEntryAt(roles: Roles, n: string, k: nat, id: int) {
    n in roles && k < |roles[n]| && roles[n][k].id == id
  }

  /** `removeACL`: the entry goes, and its set with it when it was the last one. */
  function AfterRemoval(sets: seq<AclSet>, i: nat, k: nat): seq<AclSet>
    requires i < |sets| && k < |sets[i].acls|
  {
    var rest := RemoveAt(sets[i].acls, k);
    var sets' := sets[i := sets[i].(acls := rest)];
    if rest == [] then RemoveByBase(sets', 0, sets[i].base) else sets'
  }

  // ----- where an id is found -----

  /** Entry `k` of set `i`. */
  datatype Position = Position(i: nat, k: nat)

  /** All places of entries with the id from place (i, k) on, in set order and entry order. */
  function PositionsFrom(sets: seq<AclSet>, i: nat, k: nat, id: int): seq<Position>
    decreases |sets| - i, if i < |sets| then |sets[i].acls| - k else 0
  {
    if i >= |sets| then []
    else if k >= |sets[i].acls| then PositionsFrom(sets, i + 1, 0, id)
    else if sets[i].acls[k].id == id then [Position(i, k)] + PositionsFrom(sets, i, k + 1, id)
    else PositionsFrom(sets, i, k + 1, id)
  }

  /** (i, k) itself or behind it. */
  predicate NotBefore(place: Position, i: nat, k: nat) {
    place.i > i || (place.i == i && place.k >= k)
  }

  /** Exactly the places with the id. */
  lemma {:induction false} PositionsAre(sets: seq<AclSet>, i: nat, k: nat, id: int)
    ensures forall place: Position :: place in PositionsFrom(sets, i, k, id) <==>
              EntryAt(sets, place.i, place.k, id) && NotBefore(place, i, k)
    decreases |sets| - i, if i < |sets| then |sets[i].acls| - k else 0
  {
    if i < |sets| {
      if k >= |sets[i].acls| {
        PositionsAre(sets, i + 1, 0, id);
      } else {
        PositionsAre(sets, i, k + 1, id);
      }
    }
  }

  function Positions(sets: seq<AclSet>, id: int): (places: seq<Position>)
    ensures forall place :: place in places ==> EntryAt(sets, place.i, place.k, id)
  {
    PositionsAre(sets, 0, 0, id);
    PositionsFrom(sets, 0, 0, id)
  }

  // ----- sets that are in order -----

  ghost predicate AllSorted(sets: seq<AclSet>) {
    forall s :: s in sets ==> Sorted(s.acls, false)
  }

  ghost predicate RolesSorted(roles: Roles) {
    forall n :: n in roles ==> Sorted(roles[n], true)
  }

  ghost predicate PlainBases(sets: seq<AclSet>) {
    forall s :: s in sets ==> PlainBase(s.base)
  }

  /** One set per base, and no entry in two sets. */
  ghost predicate Tidy(sets: seq<AclSet>) {
    UniqueBases(sets) && UniqueIds(sets)
  }

  lemma {:induction false} AddToFirstAt(sets: seq<AclSet>, base: Dn, a: Acl) returns (k: nat)
    requires HasBase(sets, base)
    ensures k < |sets| && sets[k].base == base && forall j :: 0 <= j < k ==> sets[j].base != base
    ensures AddToFirst(sets, base, a) == sets[k := sets[k].(acls := Added(sets[k].acls, a, false))]
    decreases sets
  {
    if sets[0].base == base {
      k := 0;
    } else {
      assert HasBase(sets[1..], base);
      k := AddToFirstAt(sets[1..], base, a);
      k := k + 1;
    }
  }

  /** With one set per base, adding to every set on it is adding to the first. */
  lemma {:induction false} AddToAllIsFirst(sets: seq<AclSet>, base: Dn, a: Acl)
    requires UniqueBases(sets)
    ensures AddToAll(sets, base, a) == AddToFirst(sets, base, a)
    decreases sets
  {
    if sets != [] {
      if sets[0].base == base {
        assert !HasBase(sets[1..], base);
        AddToAllNone(sets[1..], base, WithPriority(a, |sets[0].acls|));
      } else {
        AddToAllIsFirst(sets[1..], base, a);
      }
    }
  }

  /** Another list in one set, with ids that are its own. */
  lemma OneListKeepsTidy(sets: seq<AclSet>, k: nat, acls: seq<Acl>, extra: set<int>)
    requires k < |sets| && Tidy(sets)
    requires forall a :: a in acls ==> a.id in extra || exists b :: b in sets[k].acls && b.id == a.id
    requires forall j, b :: 0 <= j < |sets| && b in sets[j].acls ==> b.id !in extra
    ensures Tidy(sets[k := sets[k].(acls := acls)])
  {
    var q := sets[k := sets[k].(acls := acls)];
    forall i, j | 0 <= i < j < |q|
      ensures Apart(q[i], q[j])
    {
      assert Apart(sets[i], sets[j]);
    }
  }

  lemma AddedEntries(acls: seq<Acl>, a: Acl, descending: bool)
    ensures Sorted(Added(acls, a, descending), descending)
    ensures forall x :: x in Added(acls, a, descending) <==> x in acls || x == WithPriority(a, |acls|)
  {
    var s := acls + [WithPriority(a, |acls|)];
    SortSorts(s, descending);
    forall x
      ensures x in Added(acls, a, descending) <==> x in s
    {
      assert x in Added(acls, a, descending) <==> x in multiset(Added(acls, a, descending));
      assert x in s <==> x in multiset(s);
    }
  }

  lemma AddToFirstKeeps(sets: seq<AclSet>, base: Dn, a: Acl)
    ensures AllSorted(sets) ==> AllSorted(AddToFirst(sets, base, a))
    ensures PlainBases(sets) ==> PlainBases(AddToFirst(sets, base, a))
    ensures Tidy(sets) && (forall s, b :: s in sets && b in s.acls ==> b.id != a.id) ==>
              Tidy(AddToFirst(sets, base, a))
  {
    if HasBase(sets, base) {
      var k := AddToFirstAt(sets, base, a);
      AddedEntries(sets[k].acls, a, false);
      if Tidy(sets) && forall s, b :: s in sets && b in s.acls ==> b.id != a.id {
        OneListKeepsTidy(sets, k, Added(sets[k].acls, a, false), {a.id});
      }
    } else {
      AddToFirstNone(sets, base, a);
    }
  }

  lemma {:induction false} AddToFirstNone(sets: seq<AclSet>, base: Dn, a: Acl)
    requires !HasBase(sets, base)
    ensures AddToFirst(sets, base, a) == sets
    decreases sets
  {
    if sets != [] {
      assert sets[0] in sets && forall s :: s in sets[1..] ==> s in sets;
      AddToFirstNone(sets[1..], base, a);
    }
  }

  lemma {:induction false} AddToAllKeeps(sets: seq<AclSet>, base: Dn, a: Acl)
    ensures AllSorted(sets) ==> AllSorted(AddToAll(sets, base, a))
    ensures PlainBases(sets) ==> PlainBases(AddToAll(sets, base, a))
    decreases sets
  {
    if sets != [] {
      AddedEntries(sets[0].acls, a, false);
      assert sets[0] in sets && forall s :: s in sets[1..] ==> s in sets;
      AddToAllKeeps(sets[1..], base, a);
      AddToAllKeeps(sets[1..], base, WithPriority(a, |sets[0].acls|));
    }
  }

  lemma {:induction false} AddEachKeeps(sets: seq<AclSet>, base: Dn, acls: seq<Acl>)
    ensures AllSorted(sets) ==> AllSorted(AddEach(sets, base, acls))
    ensures PlainBases(sets) ==> PlainBases(AddEach(sets, base, acls))
    decreases acls
  {
    if acls != [] {
      AddToFirstKeeps(sets, base, acls[0]);
      AddEachKeeps(AddToFirst(sets, base, acls[0]), base, acls[1..]);
    }
  }

  lemma WithBaseKeeps(sets: seq<AclSet>, base: Dn)
    ensures AllSorted(sets) ==> AllSorted(WithBase(sets, base))
    ensures PlainBases(sets) && PlainBase(base) ==> PlainBases(WithBase(sets, base))
    ensures Tidy(sets) ==> Tidy(WithBase(sets, base))
    ensures forall roles :: UsedIds(WithBase(sets, base), roles) == UsedIds(sets, roles)
  {
    var q := WithBase(sets, base);
    if !HasBase(sets, base) {
      assert forall i :: 0 <= i < |sets| ==> q[i] == sets[i] && sets[i] in sets;
      assert q[|sets|] == AclSet(base, []);
      assert forall s :: s in q <==> s in sets || s == AclSet(base, []);
    }
  }

  lemma OpenedKeepsIds(sets: seq<AclSet>, base: Dn, root: Dn, roles: Roles)
    ensures UsedIds(Opened(sets, base, root), roles) == UsedIds(sets, roles)
  {
    WithBaseKeeps(sets, if base == [] then root else base);
  }

  lemma OpenedKeeps(sets: seq<AclSet>, base: Dn, root: Dn)
    ensures AllSorted(sets) ==> AllSorted(Opened(sets, base, root))
    ensures PlainBases(sets) && PlainBase(root) && (base == [] || PlainBase(base)) ==>
              PlainBases(Opened(sets, base, root))
    ensures Tidy(sets) ==> Tidy(Opened(sets, base, root))
    ensures forall roles :: UsedIds(Opened(sets, base, root), roles) == UsedIds(sets, roles)
  {
    WithBaseKeeps(sets, if base == [] then root else base);
  }

  /** An entry for the empty base is stored nowhere. */
  lemma EmptyBaseStoresNothing(sets: seq<AclSet>, root: Dn, a: Acl)
    requires root != [] && !HasBase(sets, [])
    ensures AddToAll(Opened(sets, [], root), [], a) == Opened(sets, [], root) == WithBase(sets, root)
  {
    var q := Opened(sets, [], root);
    assert forall s :: s in q ==> s in sets || s == AclSet(root, []);
    AddToAllNone(q, [], a);
  }

  lemma SetDroppedKeeps(sets: seq<AclSet>, k: nat)
    requires k < |sets|
    ensures var q := sets[..k] + sets[k + 1..];
      && (AllSorted(sets) ==> AllSorted(q)) && (PlainBases(sets) ==> PlainBases(q)) && (Tidy(sets) ==> Tidy(q))
  {
    var q := sets[..k] + sets[k + 1..];
    assert forall s :: s in q ==> s in sets;
    if Tidy(sets) {
      forall i, j | 0 <= i < j < |q|
        ensures q[i].base != q[j].base && Apart(q[i], q[j])
      {
        var x, y := if i < k then i else i + 1, if j < k then j else j + 1;
        assert q[i] == sets[x] && q[j] == sets[y] && Apart(sets[x], sets[y]);
      }
    }
  }

  lemma {:induction false} RemoveFirstSameAt(sets: seq<AclSet>, acls: seq<Acl>) returns (k: nat)
    ensures k <= |sets| && RemoveFirstSame(sets, acls) == if k == |sets| then sets else sets[..k] + sets[k + 1..]
    decreases sets
  {
    if sets == [] {
      k := 0;
    } else if SameList(sets[0].acls, acls) {
      k := 0;
    } else {
      k := RemoveFirstSameAt(sets[1..], acls);
      if k < |sets| - 1 {
        DropBehindHead(sets, k);
      }
      k := k + 1;
    }
  }

  lemma {:induction false} RemoveByBaseKeeps(sets: seq<AclSet>, i: nat, base: Dn)
    ensures AllSorted(sets) ==> AllSorted(RemoveByBase(sets, i, base))
    ensures PlainBases(sets) ==> PlainBases(RemoveByBase(sets, i, base))
    ensures Tidy(sets) ==> Tidy(RemoveByBase(sets, i, base))
    decreases |sets| - i
  {
    if i < |sets| {
      if sets[i].base == base {
        var k := RemoveFirstSameAt(sets, sets[i].acls);
        if k < |sets| {
          SetDroppedKeeps(sets, k);
        }
        RemoveByBaseKeeps(RemoveFirstSame(sets, sets[i].acls), i + 1, base);
      } else {
        RemoveByBaseKeeps(sets, i + 1, base);
      }
    }
  }

  lemma RemoveUserKeeps(sets: seq<AclSet>, user: string)
    ensures AllSorted(sets) ==> AllSorted(RemoveUser(sets, user))
    ensures PlainBases(sets) ==> PlainBases(RemoveUser(sets, user))
    ensures Tidy(sets) ==> Tidy(RemoveUser(sets, user))
  {
    var q := RemoveUser(sets, user);
    forall i | 0 <= i < |q|
      ensures q[i].base == sets[i].base && sets[i] in sets
      ensures Sorted(sets[i].acls, false) ==> Sorted(q[i].acls, false)
      ensures forall a :: a in q[i].acls ==> exists b :: b in sets[i].acls && b.id == a.id
    {
      forall a | a in q[i].acls
        ensures exists b :: b in sets[i].acls && b.id == a.id
      {
        var j :| 0 <= j < |q[i].acls| && q[i].acls[j] == a;
        assert sets[i].acls[j] in sets[i].acls && sets[i].acls[j].id == a.id;
      }
    }
    if Tidy(sets) {
      forall i, j | 0 <= i < j < |q|
        ensures Apart(q[i], q[j])
      {
        assert Apart(sets[i], sets[j]);
      }
    }
  }

  /** An entry goes, and its set with it if it is empty then. */
  lemma AfterRemovalKeeps(sets: seq<AclSet>, i: nat, k: nat)
    requires i < |sets| && k < |sets[i].acls|
    ensures AllSorted(sets) ==> AllSorted(AfterRemoval(sets, i, k))
    ensures PlainBases(sets) ==> PlainBases(AfterRemoval(sets, i, k))
    ensures Tidy(sets) ==> Tidy(AfterRemoval(sets, i, k))
  {
    var acls := sets[i].acls;
    var rest := RemoveAt(acls, k);
    var q := sets[i := sets[i].(acls := rest)];
    assert forall a :: a in rest ==> a in acls;
    assert sets[i] in sets;
    if AllSorted(sets) {
      RemovedStaysSorted(acls, k, false);
    }
    if Tidy(sets) {
      OneListKeepsTidy(sets, i, rest, {});
    }
    RemoveByBaseKeeps(q, 0, sets[i].base);
  }

  /** `removeACL` decides like the same sets with just that entry taken out. So removing a direct PSUB entry never
      creates a grant, and removing a RESET entry never takes one away. */
  lemma RemovedEntryDecides(p: Policy, i: nat, k: nat, query: Query)
    requires i < |p.sets| && k < |p.sets[i].acls| && Tidy(p.sets)
    ensures var a, after := p.sets[i].acls[k], p.(sets := AfterRemoval(p.sets, i, k));
      && Decide(after, query) == Decide(WithList(p, i, RemoveAt(p.sets[i].acls, k)), query)
      && (!a.usesRole && a.scope == Some(PSUB) && Decide(after, query) == Success(true) ==>
            Decide(p, query) == Success(true))
      && (!a.usesRole && a.scope == Some(RESET) && Decide(p, query) == Success(true) ==>
            Decide(after, query) == Success(true))
  {
    var acls, base := p.sets[i].acls, p.sets[i].base;
    var rest := RemoveAt(acls, k);
    var gone := WithList(p, i, rest);
    if rest == [] {
      OneListKeepsTidy(p.sets, i, rest, {});
      RemovalDecides(gone, i, query);
      assert Emptied(gone.sets, base) == gone.sets;
    }
    if !acls[k].usesRole {
      AddingOneEntry(gone, i, k, acls[k], query);
      InsertedAgain(p, i, k);
    }
  }

  lemma InsertedAgain(p: Policy, i: nat, k: nat)
    requires i < |p.sets| && k < |p.sets[i].acls|
    ensures Inserted(WithList(p, i, RemoveAt(p.sets[i].acls, k)), i, k, p.sets[i].acls[k]) == p
  {
    var acls := p.sets[i].acls;
    var rest := RemoveAt(acls, k);
    assert rest[..k] + [acls[k]] + rest[k..] == acls;
    assert p.sets[i := p.sets[i].(acls := rest)][i := p.sets[i]] == p.sets;
  }

  /** Replacing an entry keeps everything but the order. */
  lemma ReplaceAtKeeps(sets: seq<AclSet>, i: nat, k: nat, a: Acl)
    requires i < |sets| && k < |sets[i].acls| && a.id == sets[i].acls[k].id
    ensures PlainBases(sets) ==> PlainBases(ReplaceAt(sets, i, k, a))
    ensures Tidy(sets) ==> Tidy(ReplaceAt(sets, i, k, a))
  {
    var acls := sets[i].acls;
    assert sets[i] in sets && acls[k] in acls && forall x :: x in acls[k := a] ==> x == a || x in acls;
    if Tidy(sets) {
      OneListKeepsTidy(sets, i, acls[k := a], {});
    }
  }

  /** An update keeps the sets sorted if and only if the new priority, if there is one, fits between those of the
      neighbours: nothing sorts the list again. */
  lemma UpdateKeepsSortedIff(sets: seq<AclSet>, i: nat, k: nat, roles: Roles, ch: Changes)
    requires i < |sets| && k < |sets[i].acls| && AllSorted(sets)
    ensures AllSorted(ReplaceAt(sets, i, k, Updated(sets[i].acls[k], roles, ch).0)) <==>
              FitsBetween(sets[i].acls, k, ch.priority, false)
  {
    var acls, a := sets[i].acls, Updated(sets[i].acls[k], roles, ch).0;
    var q := ReplaceAt(sets, i, k, a);
    assert sets[i] in sets && q[i] in q;
    assert forall s :: s in q ==> s == q[i] || s in sets;
    ReplacedSortedIff(acls, k, a, false);
  }

  lemma UpdateKeepsRolesSortedIff(roles: Roles, n: string, k: nat, ch: Changes)
    requires n in roles && k < |roles[n]| && RolesSorted(roles)
    ensures RolesSorted(roles[n := roles[n][k := Updated(roles[n][k], roles, ch).0]]) <==>
              FitsBetween(roles[n], k, ch.priority, true)
  {
    var a := Updated(roles[n][k], roles, ch).0;
    var q := roles[n := roles[n][k := a]];
    assert n in q;
    ReplacedSortedIff(roles[n], k, a, true);
  }

  /** A priority of 0 changes nothing; any other must lie between those of the neighbours. */
  predicate FitsBetween(acls: seq<Acl>, k: nat, priority: int, descending: bool)
    requires k < |acls|
  {
    var key := if descending then -priority else priority;
    priority == 0 ||
    (&& (k > 0 ==> SortKey(acls[k - 1], descending) <= key)
     && (k + 1 < |acls| ==> key <= SortKey(acls[k + 1], descending)))
  }

  /** Every other change of the roles keeps them sorted. */
  lemma RoleChangesKeepSorted(roles: Roles, n: string, a: Acl, k: nat, entries: seq<Acl>)
    requires RolesSorted(roles)
    ensures n in roles ==> RolesSorted(roles[n := Added(roles[n], a, true)])
    ensures n in roles && k < |roles[n]| ==> RolesSorted(roles[n := RemoveAt(roles[n], k)])
    ensures Sorted(entries, true) <==> RolesSorted(roles[n := entries])
    ensures RolesSorted(roles - {n})
  {
    if n in roles {
      AddedEntries(roles[n], a, true);
      if k < |roles[n]| {
        RemovedStaysSorted(roles[n], k, true);
      }
    }
    assert n in roles[n := entries];
  }

  /** The failing input: an entry that does not concern the user at all, added to a set an update has left unsorted,
      takes a grant away, although it is a direct PSUB entry. */
  lemma UnsortedSetLosesGrant(w: World, root: Dn)
    requires root != [] && w.matches("u", "u") && w.matches("t", "t") && !w.matches("other", "u")
    ensures var act := [Action("t", "r")];
      var sub := Acl(1, Some(0), ["u"], false, "", Some(SUB), act);
      var reset := Acl(2, Some(1), ["u"], false, "", Some(RESET), act);
      var psub := Acl(3, Some(9), ["other"], false, "", Some(PSUB), act);
      var updated := Updated(sub, map[], Changes([], 5, [], "", NotGiven));
      var before := Policy(root, [AclSet(root, [updated.0, reset])], map[], [], w);
      var after := WithList(before, 0, Added(before.sets[0].acls, psub, false));
      var query := Query(Some("u"), "t", "r", None);
      && Sorted([sub, reset], false) && updated.1 == None && !Sorted(before.sets[0].acls, false)
      && Decide(before, query) == Success(true) && Decide(after, query) == Success(false)
  {
    var act := [Action("t", "r")];
    var sub := Acl(1, Some(0), ["u"], false, "", Some(SUB), act);
    var reset := Acl(2, Some(1), ["u"], false, "", Some(RESET), act);
    var psub := Acl(3, Some(9), ["other"], false, "", Some(PSUB), act);
    var late := sub.(priority := Some(5));
    assert SortKey([late, reset][0], false) > SortKey([late, reset][1], false);
    SortThree(late, reset, psub);
    ReorderedDecisions(w, root, late, reset, psub);
    var before := Policy(root, [AclSet(root, [late, reset])], map[], [], w);
    assert WithList(before, 0, [reset, late, psub]).sets == [AclSet(root, [reset, late, psub])];
  }

  /** In the one order the user is granted, in the other not. */
  lemma ReorderedDecisions(w: World, root: Dn, sub: Acl, reset: Acl, psub: Acl)
    requires root != [] && w.matches("u", "u") && w.matches("t", "t") && !w.matches("other", "u")
    requires !sub.usesRole && !reset.usesRole && !psub.usesRole && sub.scope == Some(SUB) && reset.scope == Some(RESET)
    requires sub.members == reset.members == ["u"] && psub.members == ["other"]
    requires sub.actions == reset.actions == psub.actions == [Action("t", "r")]
    ensures var query := Query(Some("u"), "t", "r", None);
      && Decide(Policy(root, [AclSet(root, [sub, reset])], map[], [], w), query) == Success(true)
      && Decide(Policy(root, [AclSet(root, [reset, sub, psub])], map[], [], w), query) == Success(false)
  {
    var q := Request("u", "t", "r", root);
    var before := Policy(root, [AclSet(root, [sub, reset])], map[], [], w);
    var after := Policy(root, [AclSet(root, [reset, sub, psub])], map[], [], w);
    assert Action("t", "r") in sub.actions && "u" in Applicable(w, root, Action("t", "r"), ["u"]);
    assert ActionGrants(w, q, Action("t", "r"), ["u"]);
    assert !Grants(w, q, psub, ["other"]);
    OneSetWalk(before);
    OneSetWalk(after);
    FoldTwo(before, q, sub, reset);
    FoldThree(after, q, reset, sub, psub);
  }

  lemma SortThree(x: Acl, y: Acl, z: Acl)
    requires SortKey(y, false) < SortKey(x, false) <= SortKey(z, false) && z.priority.Some?
    ensures Added([x, y], z, false) == [y, x, z]
  {
    assert [x, y] + [z] == [x, y, z] && [x, y, z][..2] == [x, y] && [x, y][..1] == [x] && [x][..0] == [];
    assert StableSort([x], false) == [x];
    assert Place([x], 1, y, false) == 0;
    assert StableSort([x, y], false) == [y, x];
    assert Place([y, x], 2, z, false) == 2;
  }

  /** With a single set, on the root, the walk from the root meets just its entries. */
  lemma OneSetWalk(p: Policy)
    requires p.root != [] && |p.sets| == 1 && p.sets[0].base == p.root
    ensures Walk(p, p.root, p.root) == OfList(p.sets[0].acls, true)
  {
    assert OccursAt(p.root, p.root, 0);
    assert p.sets[1..] == [];
    var above := p.root[1..];
    assert !Contains(above, p.root);
    assert Walk(p, p.root, above) == [];
    assert AtBase(p.sets, p.root, true) == OfSet(p.sets[0], true) + AtBase([], p.root, true);
    assert OfList(p.sets[0].acls, true) + [] + [] == OfList(p.sets[0].acls, true);
  }

  lemma FoldTwo(p: Policy, q: Request, x: Acl, y: Acl)
    requires !x.usesRole && x.scope == Some(SUB) && Grants(p.world, q, x, x.members)
    ensures Fold(p, q, OfList([x, y], true), false) == Success(true)
  {
  }

  lemma FoldThree(p: Policy, q: Request, x: Acl, y: Acl, z: Acl)
    requires !x.usesRole && x.scope == Some(RESET) && Grants(p.world, q, x, x.members)
    requires !y.usesRole && y.scope == Some(SUB) && !z.usesRole && !Grants(p.world, q, z, z.members)
    ensures Fold(p, q, OfList([x, y, z], true), false) == Success(false)
  {
    var cs := OfList([x, y, z], true);
    assert cs == [Candidate(x, true), Candidate(y, true), Candidate(z, true)];
    assert cs[1..] == [Candidate(y, true), Candidate(z, true)] && cs[1..][1..] == [Candidate(z, true)];
    assert cs[1..][1..][1..] == [];
    assert Fold(p, q, [Candidate(z, true)], true) == Success(false);
    assert Fold(p, q, cs[1..], true) == Success(false);
  }
}
