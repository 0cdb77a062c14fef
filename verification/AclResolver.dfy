/** The resolver with its memo in front of `check`, and every operation that changes what `check` depends on. */
module AclResolver {
  import opened Names
  import opened Wrappers
  import opened AclModel
  import opened AclDecision
  import opened AclRoles
  import opened AclMemo
  import opened AclLists
  import opened AclChanges
  import opened AclStale

  /** The question whether a user may write ACLs on a base. */
  function PermissionQuery(topic: string, user: Option<string>, base: Dn): Query {
    Query(user, topic, "w", Some(base))
  }

  /** Why the user may not, if so, given a policy and a memo. */
  ghost function RefusalIn(p: Policy, topic: string, memo: map<string, bool>, user: Option<string>, base: Dn)
    : Option<Error>
  {
    var query := PermissionQuery(topic, user, base);
    match if Key(query) in memo then Success(memo[Key(query)]) else Decide(p, query)
    case Failure(v) => Some(Undecided(v))
    case Success(granted) => if granted then None else Some(Denied)
  }

  /** Asks for permission on one base after the other; answers given on the way are in the memo then. */
  ghost function AskEach(p: Policy, topic: string, memo: map<string, bool>, user: Option<string>, bases: seq<Dn>)
    : Option<Error>
    decreases bases
  {
    if bases == [] then None
    else if RefusalIn(p, topic, memo, user, bases[0]).Some? then RefusalIn(p, topic, memo, user, bases[0])
    else AskEach(p, topic, memo[Key(PermissionQuery(topic, user, bases[0])) := true], user, bases[1..])
  }

  // ----- the same without a memo -----

  /** Why the user may not write on the base, if so. */
  ghost function Refused(p: Policy, topic: string, user: Option<string>, base: Dn): Option<Error> {
    RefusalIn(p, topic, map[], user, base)
  }

  /** The first refusal on one of the bases. */
  ghost function FirstRefusal(p: Policy, topic: string, user: Option<string>, bases: seq<Dn>): Option<Error> {
    if bases == [] then None
    else if Refused(p, topic, user, bases[0]).Some? then Refused(p, topic, user, bases[0])
    else FirstRefusal(p, topic, user, bases[1..])
  }

  /** What the search for the entry to update comes back with: the last place, if the user may write on all bases. */
  function LastPlace(refused: Option<Error>, places: seq<Position>): Result<Position, Error> {
    if refused.Some? then Failure(refused.value)
    else if places == [] then Failure(AclNotFound)
    else Success(places[|places| - 1])
  }

  /** What is wrong with an update. */
  function WrongForUpdate(ch: Changes, found: Result<Position, Error>): Option<Error> {
    if ch.scope.Unknown? then Some(InvalidScope)
    else if !ValidRights(ch.actions) then Some(InvalidRights)
    else if found.Failure? then Some(found.error)
    else if ch.actions != [] && ch.rolename != "" then Some(ParameterMismatch)
    else None
  }

  /** Why a role is not removed, if so. */
  function WrongForRemoval(p: Policy, name: string): Option<Error> {
    if name !in p.roles then Some(RoleNotFound)
    else match SeekInSets(p, name)
      case Found => Some(RoleInUse)
      case NotFound => None
      case Missing(role) => Some(DanglingRole(role))
      case Endless => Some(EndlessSearch)
  }

  function BaseAt(sets: seq<AclSet>, i: nat): Dn {
    if i < |sets| then sets[i].base else []
  }

  /** The bases of these positions. */
  function BasesOf(sets: seq<AclSet>, positions: seq<Position>): seq<Dn> {
    if positions == [] then [] else [BaseAt(sets, positions[0].i)] + BasesOf(sets, positions[1..])
  }

  /** In the search for an entry: the positions met and those to come, and the answer the asking will have. */
  ghost predicate OnTheWay(p: Policy, topic: string, user: Option<string>, memo: map<string, bool>,
                           all: seq<Position>, answer: Option<Error>, met: seq<Position>, rest: seq<Position>)
  {
    all == met + rest && answer == AskEach(p, topic, memo, user, BasesOf(p.sets, rest))
  }

  /** One more position was asked about. */
  lemma OneStepOn(p: Policy, topic: string, user: Option<string>, memo: map<string, bool>, all: seq<Position>,
                  answer: Option<Error>, met: seq<Position>, x: Position, rest: seq<Position>)
    requires OnTheWay(p, topic, user, memo, all, answer, met, [x] + rest)
    ensures var base := BaseAt(p.sets, x.i);
      var refused := RefusalIn(p, topic, memo, user, base);
      if refused.Some? then answer == refused
      else OnTheWay(p, topic, user, memo[Key(PermissionQuery(topic, user, base)) := true], all, answer, met + [x], rest)
  {
    assert ([x] + rest)[0] == x && ([x] + rest)[1..] == rest;
    assert met + ([x] + rest) == (met + [x]) + rest;
    var bases := BasesOf(p.sets, [x] + rest);
    assert bases == [BaseAt(p.sets, x.i)] + BasesOf(p.sets, rest);
    assert bases[1..] == BasesOf(p.sets, rest);
  }

  lemma EndOfSet(sets: seq<AclSet>, i: nat, id: int)
    requires i < |sets|
    ensures PositionsFrom(sets, i, |sets[i].acls|, id) == PositionsFrom(sets, i + 1, 0, id)
  {
  }

  lemma NothingMetYet(p: Policy, topic: string, user: Option<string>, memo: map<string, bool>, all: seq<Position>)
    ensures OnTheWay(p, topic, user, memo, all, AskEach(p, topic, memo, user, BasesOf(p.sets, all)), [], all)
  {
    assert [] + all == all;
  }

  lemma NothingAhead(p: Policy, topic: string, user: Option<string>, memo: map<string, bool>, all: seq<Position>,
                     answer: Option<Error>, met: seq<Position>)
    requires OnTheWay(p, topic, user, memo, all, answer, met, [])
    ensures met == all && answer == None
  {
  }

  lemma LastIsNew(positions: seq<Position>, x: Position)
    ensures LastOf(positions + [x]) == Some(x)
  {
  }

  function LastOf(positions: seq<Position>): Option<Position> {
    if positions == [] then None else Some(positions[|positions| - 1])
  }

  /** The user may write on each of these bases. */
  ghost predicate Permitted(p: Policy, topic: string, user: Option<string>, bases: seq<Dn>) {
    forall base | base in bases :: Decide(p, PermissionQuery(topic, user, base)) == Success(true)
  }

  /** Every memo entry is the decision on the query it was stored for. */
  ghost predicate IsCoherent(p: Policy, memo: map<string, bool>, asked: map<string, Query>) {
    && asked.Keys == memo.Keys
    && forall k :: k in memo ==> Key(asked[k]) == k && Decide(p, asked[k]) == Success(memo[k])
  }

  ghost predicate OnlyPlain(asked: map<string, Query>) {
    forall k :: k in asked ==> Plain(asked[k])
  }

  /** In front of a coherent memo of plain queries, asking on plain bases succeeds exactly for who may write there. */
  lemma {:induction false} AskedIffPermitted(p: Policy, topic: string, memo: map<string, bool>,
                                             asked: map<string, Query>, user: Option<string>, bases: seq<Dn>)
    requires IsCoherent(p, memo, asked) && OnlyPlain(asked)
    requires forall base | base in bases :: Plain(PermissionQuery(topic, user, base))
    ensures AskEach(p, topic, memo, user, bases).None? <==> Permitted(p, topic, user, bases)
    decreases bases
  {
    if bases != [] {
      var query := PermissionQuery(topic, user, bases[0]);
      assert bases[0] in bases && forall base :: base in bases <==> base == bases[0] || base in bases[1..];
      if Key(query) in memo {
        KeyTellsPlainQueriesApart(asked[Key(query)], query);
      }
      if Decide(p, query) == Success(true) {
        AskedIffPermitted(p, topic, memo[Key(query) := true], asked[Key(query) := query], user, bases[1..]);
      }
    }
  }

  /** And the answers are the same as without a memo. */
  lemma MemoIsRight(p: Policy, topic: string, memo: map<string, bool>, asked: map<string, Query>,
                    user: Option<string>, base: Dn)
    requires IsCoherent(p, memo, asked) && OnlyPlain(asked) && Plain(PermissionQuery(topic, user, base))
    ensures RefusalIn(p, topic, memo, user, base) == Refused(p, topic, user, base)
  {
    var query := PermissionQuery(topic, user, base);
    if Key(query) in memo {
      KeyTellsPlainQueriesApart(asked[Key(query)], query);
    }
  }

  lemma {:induction false} MemoIsRightEach(p: Policy, topic: string, memo: map<string, bool>, asked: map<string, Query>,
                                           user: Option<string>, bases: seq<Dn>)
    requires IsCoherent(p, memo, asked) && OnlyPlain(asked)
    requires forall base | base in bases :: Plain(PermissionQuery(topic, user, base))
    ensures AskEach(p, topic, memo, user, bases) == FirstRefusal(p, topic, user, bases)
    decreases bases
  {
    if bases != [] {
      var query := PermissionQuery(topic, user, bases[0]);
      assert bases[0] in bases && forall base :: base in bases[1..] ==> base in bases;
      MemoIsRight(p, topic, memo, asked, user, bases[0]);
      if Refused(p, topic, user, bases[0]).None? {
        MemoIsRightEach(p, topic, memo[Key(query) := true], asked[Key(query) := query], user, bases[1..]);
      }
    }
  }

  lemma {:induction false} BasesFrom(sets: seq<AclSet>, positions: seq<Position>)
    requires forall position :: position in positions ==> position.i < |sets|
    ensures forall base :: base in BasesOf(sets, positions) ==> exists s :: s in sets && s.base == base
    decreases positions
  {
    if positions != [] {
      assert positions[0] in positions && sets[positions[0].i] in sets;
      BasesFrom(sets, positions[1..]);
    }
  }

  /** The memo has only grown. */
  ghost predicate Grown(memo0: map<string, bool>, asked0: map<string, Query>, memo: map<string, bool>,
                        asked: map<string, Query>)
  {
    forall k :: k in asked0 && k in memo0 ==> k in asked && k in memo && asked[k] == asked0[k] && memo[k] == memo0[k]
  }

  lemma GrownFurther(memo0: map<string, bool>, asked0: map<string, Query>, memo1: map<string, bool>,
                     asked1: map<string, Query>, memo2: map<string, bool>, asked2: map<string, Query>)
    requires Grown(memo0, asked0, memo1, asked1) && Grown(memo1, asked1, memo2, asked2)
    ensures Grown(memo0, asked0, memo2, asked2)
  {
  }

  // ----- loading everything anew -----

  datatype NamedRole = NamedRole(name: string, entries: seq<Acl>)

  function Installed(roles: Roles, list: seq<NamedRole>): Roles
    decreases list
  {
    if list == [] then roles else Installed(roles[list[0].name := list[0].entries], list[1..])
  }

  /** Each name ends up with the entries it was given last. */
  lemma {:induction false} InstalledHolds(roles: Roles, list: seq<NamedRole>, i: nat, other: string)
    requires i < |list| && forall j :: i < j < |list| ==> list[j].name != list[i].name
    requires forall role :: role in list ==> role.name != other
    ensures var now := Installed(roles, list);
      && list[i].name in now && now[list[i].name] == list[i].entries
      && (other in now <==> other in roles) && (other in roles ==> now[other] == roles[other])
    decreases list
  {
    var one := roles[list[0].name := list[0].entries];
    assert list[0] in list && forall role :: role in list[1..] ==> role in list;
    if i > 0 {
      InstalledHolds(one, list[1..], i - 1, other);
    } else {
      NotInstalledAgain(one, list[1..], list[0].name);
      NotInstalledAgain(one, list[1..], other);
    }
  }

  lemma {:induction false} NotInstalledAgain(roles: Roles, list: seq<NamedRole>, n: string)
    requires forall role :: role in list ==> role.name != n
    ensures var now := Installed(roles, list); (n in now <==> n in roles) && (n in roles ==> now[n] == roles[n])
    decreases list
  {
    if list != [] {
      assert list[0] in list && forall role :: role in list[1..] ==> role in list;
      NotInstalledAgain(roles[list[0].name := list[0].entries], list[1..], n);
    }
  }

  /** `add_acl_set` for one set after the other. */
  function MergedSets(sets: seq<AclSet>, list: seq<AclSet>): seq<AclSet>
    decreases list
  {
    if list == [] then sets else MergedSets(Merged(sets, list[0]), list[1..])
  }

  /** Nothing in the memo grants, but to administrators and calls without a user. */
  ghost predicate NothingToForget(admins: seq<string>, memo: map<string, bool>, asked: map<string, Query>) {
    forall k :: k in memo && k in asked && memo[k] ==> asked[k].user.None? || asked[k].user.value in admins
  }

  lemma {:induction false} NothingOnTheWalk(p: Policy, target: Dn, base: Dn)
    requires p.sets == []
    ensures Walk(p, target, base) == []
    decreases |base|
  {
    if Contains(base, p.root) && base != [] {
      NothingOnTheWalk(p, target, base[1..]);
    }
  }

  lemma ForgettingAll(p: Policy, empty: Policy, memo: map<string, bool>, asked: map<string, Query>)
    requires IsCoherent(p, memo, asked) && empty == p.(sets := [], roles := map[])
    ensures IsCoherent(empty, memo, asked) <==> NothingToForget(p.admins, memo, asked)
  {
    forall query
      ensures Decide(empty, query) == Success(query.user.None? || query.user.value in p.admins)
    {
      if query.user.Some? {
        NothingOnTheWalk(empty, Target(empty, query), Target(empty, query));
      }
    }
    assert forall k :: k in memo ==> k in asked;
  }

  class ACLResolver {
    const root: Dn
    const admins: seq<string>
    const world: World
    const aclTopic: string

    var sets: seq<AclSet>
    var roles: Roles
    var nextAclId: int
    var memo: map<string, bool>
    /** The query each memo entry was computed for. */
    ghost var asked: map<string, Query>

    constructor (root: Dn, admins: seq<string>, world: World, aclTopic: string)
      ensures Coherent() && sets == [] && roles == map[] && memo == map[] && nextAclId == 0
      ensures this.root == root && this.admins == admins && this.world == world && this.aclTopic == aclTopic
    {
      this.root, this.admins, this.world, this.aclTopic := root, admins, world, aclTopic;
      sets, roles, nextAclId, memo, asked := [], map[], 0, map[], map[];
    }

    function Current(): Policy
      reads this`sets, this`roles
    {
      Policy(root, sets, roles, admins, world)
    }

    /** Every memo entry is the uncached decision, in the current state, of the query it was stored for. */
    ghost predicate Coherent()
      reads this
    {
      IsCoherent(Current(), memo, asked)
    }

    ghost predicate AllPlain()
      reads this
    {
      OnlyPlain(asked)
    }

    /** What `check` answers: the entry under the query's key, or else the decision. */
    ghost function Answer(query: Query): Result<bool, Verdict>
      reads this
    {
      if Key(query) in memo then Success(memo[Key(query)]) else Decide(Current(), query)
    }

    /** `check` behind its memo. On plain queries the answer is always the uncached decision. */
    method Check(query: Query) returns (r: Result<bool, Verdict>)
      requires Coherent()
      modifies this`memo, this`asked
      ensures Coherent()
      ensures r == old(Answer(query))
      ensures memo == if r.Success? then old(memo)[Key(query) := r.value] else old(memo)
      ensures old(AllPlain()) && Plain(query) ==> AllPlain() && r == Decide(Current(), query)
      ensures Grown(old(memo), old(asked), memo, asked)
      ensures r.Success? && Key(query) !in old(memo) ==> asked[Key(query)] == query
    {
      var key := Key(query);
      if key in memo {
        if AllPlain() && Plain(query) {
          KeyTellsPlainQueriesApart(asked[key], query);
        }
        r := Success(memo[key]);
        assert memo == memo[key := memo[key]];
      } else {
        r := AclDecision.Check(Current(), query);
        if r.Success? {
          memo := memo[key := r.value];
          asked := asked[key := query];
        }
      }
    }

    method CacheClear()
      modifies this`memo, this`asked
      ensures Coherent() && memo == map[] && AllPlain()
    {
      memo, asked := map[], map[];
    }

    /** A fresh id for a new entry. */
    method GetNextAclId() returns (id: int)
      modifies this`nextAclId
      ensures id == nextAclId && NextFree(UsedIds(sets, roles), old(nextAclId), id)
    {
      var used := UsedIds(sets, roles);
      nextAclId := nextAclId + 1;
      while nextAclId in used
        invariant nextAclId > old(nextAclId)
        invariant forall i :: old(nextAclId) < i < nextAclId ==> i in used
        decreases Above(used, nextAclId)
      {
        assert nextAclId in Above(used, nextAclId) && Above(used, nextAclId + 1) <= Above(used, nextAclId);
        nextAclId := nextAclId + 1;
      }
      id := nextAclId;
    }

    // ----- the resolver's own operations -----

    /** A set on a new base makes any memo coherent again. */
    method AddAclSet(s: AclSet)
      requires Coherent() || !HasBase(sets, s.base)
      modifies this`sets, this`memo, this`asked
      ensures Coherent()
      ensures sets == Merged(old(sets), s)
      ensures HasBase(old(sets), s.base) || memo == map[]
      ensures old(AllPlain()) ==> AllPlain()
    {
      if !HasBase(sets, s.base) {
        sets := sets + [s];
        CacheClear();
      } else {
        for i := 0 to |s.acls|
          invariant Coherent() && HasBase(sets, s.base) && (old(AllPlain()) ==> AllPlain())
          invariant AddEach(sets, s.base, s.acls[i..]) == AddEach(old(sets), s.base, s.acls)
        {
          assert s.acls[i..][0] == s.acls[i] && s.acls[i..][1..] == s.acls[i + 1..];
          AddKeepsBases(sets, s.base, s.acls[i]);
          var e := AddAclToSet(s.base, s.acls[i]);
        }
      }
    }

    method AddAclToSet(base: Dn, a: Acl) returns (r: Option<Error>)
      requires Coherent()
      modifies this`sets, this`memo, this`asked
      ensures Coherent()
      ensures if HasBase(old(sets), base) then r == None && sets == AddToFirst(old(sets), base, a)
              else r == Some(NoBaseAcl) && sets == old(sets)
      ensures old(AllPlain()) ==> AllPlain()
    {
      if !HasBase(sets, base) { return Some(NoBaseAcl); }
      sets := AddToFirst(sets, base, a);
      CacheClear();
      r := None;
    }

    method AddAclToBase(base: Dn, a: Acl)
      requires Coherent()
      modifies this`sets, this`memo, this`asked
      ensures Coherent() && sets == AddToAll(old(sets), base, a)
      ensures old(AllPlain()) ==> AllPlain()
    {
      if HasBase(sets, base) {
        sets := AddToAll(sets, base, a);
        CacheClear();
      } else {
        AddToAllNone(sets, base, a);
      }
    }

    method AddAclToRole(rolename: string, a: Acl) returns (r: Option<Error>)
      requires Coherent()
      modifies this`roles, this`memo, this`asked
      ensures Coherent()
      ensures if rolename in old(roles)
              then r == None && roles == old(roles)[rolename := Added(old(roles)[rolename], a, true)]
              else r == Some(RoleNotFound) && roles == old(roles)
      ensures old(AllPlain()) ==> AllPlain()
    {
      if rolename !in roles { return Some(RoleNotFound); }
      roles := roles[rolename := Added(roles[rolename], a, true)];
      CacheClear();
      r := None;
    }

    method AddAclRole(name: string, entries: seq<Acl>)
      modifies this`roles, this`memo, this`asked
      ensures Coherent() && AllPlain() && roles == old(roles)[name := entries]
    {
      roles := roles[name := entries];
      CacheClear();
    }

    /** `clear` forgets sets and roles but not the answers; they stay right exactly if none of them grants anything to
        anybody but administrators and calls without a user. */
    method Clear()
      modifies this`sets, this`roles, this`nextAclId
      ensures sets == [] && roles == map[] && nextAclId == 0
      ensures old(Coherent()) ==> (Coherent() <==> NothingToForget(admins, memo, asked))
    {
      ghost var before, was := Current(), Coherent();
      sets, roles, nextAclId := [], map[], 0;
      if was {
        ForgettingAll(before, Current(), memo, asked);
      }
    }

    /** `load_acls`, with the roles and sets the object database holds: the memo is coherent afterwards exactly if there
        is a role or a set, or nothing had to be forgotten. */
    method LoadAcls(newRoles: seq<NamedRole>, newSets: seq<AclSet>)
      requires Coherent()
      modifies this
      ensures sets == MergedSets([], newSets) && roles == Installed(map[], newRoles) && nextAclId == 0
      ensures Coherent() <==> newRoles != [] || newSets != [] || old(NothingToForget(admins, memo, asked))
      ensures newRoles == [] && newSets == [] ==> memo == old(memo) && asked == old(asked)
    {
      ghost var fine := NothingToForget(admins, memo, asked);
      Clear();
      assert Coherent() <==> fine;
      InstallRoles(newRoles);
      AddSets(newSets);
    }

    method InstallRoles(list: seq<NamedRole>)
      modifies this`roles, this`memo, this`asked
      ensures roles == Installed(old(roles), list)
      ensures if list == [] then memo == old(memo) && asked == old(asked) else Coherent()
    {
      for i := 0 to |list|
        invariant Installed(roles, list[i..]) == Installed(old(roles), list)
        invariant if i == 0 then memo == old(memo) && asked == old(asked) else Coherent()
      {
        assert list[i..][0] == list[i] && list[i..][1..] == list[i + 1..];
        AddAclRole(list[i].name, list[i].entries);
      }
    }

    method AddSets(list: seq<AclSet>)
      requires Coherent() || sets == []
      modifies this`sets, this`memo, this`asked
      ensures sets == MergedSets(old(sets), list)
      ensures old(Coherent()) || list != [] ==> Coherent()
      ensures list == [] ==> memo == old(memo) && asked == old(asked)
    {
      for i := 0 to |list|
        invariant MergedSets(sets, list[i..]) == MergedSets(old(sets), list)
        invariant old(Coherent()) || i > 0 ==> Coherent()
        invariant i == 0 ==> sets == old(sets) && memo == old(memo) && asked == old(asked)
      {
        assert list[i..][0] == list[i] && list[i..][1..] == list[i + 1..];
        AddAclSet(list[i]);
      }
    }

    /** `remove_role`, wherever its search ends; a successful removal cannot be noticed by any query. */
    method RemoveRole(name: string) returns (r: Option<Error>)
      requires Coherent() && (name in roles ==> !SeekInSets(Current(), name).Endless?)
      modifies this`roles, this`memo, this`asked
      ensures Coherent()
      ensures r == WrongForRemoval(old(Current()), name)
      ensures r == None ==> !RoleUsed(old(Current()), name)
      ensures r == Some(RoleInUse) ==> RoleUsed(old(Current()), name)
      ensures roles == if r == None then old(roles) - {name} else old(roles)
      ensures forall query :: Decide(Current(), query) == Decide(old(Current()), query)
      ensures old(AllPlain()) ==> AllPlain()
    {
      if name !in roles { return Some(RoleNotFound); }
      var used := IsRoleUsed(Current(), name);
      if used.Missing? { return Some(DanglingRole(used.role)); }
      if used.Found? { return Some(RoleInUse); }
      ghost var before := Current();
      roles := roles - {name};
      CacheClear();
      assert Current() == WithoutRole(before, name);
      forall query ensures Decide(Current(), query) == Decide(before, query) {
        RemovalIsInvisible(before, name, query);
      }
      r := None;
    }

    /** `remove_aclset_by_base`: the loop runs over the list it removes from. */
    method RemoveAclSetByBase(base: Dn) returns (r: Option<Error>)
      requires Coherent()
      modifies this`sets, this`memo, this`asked
      ensures Coherent() && sets == RemoveByBase(old(sets), 0, base)
      ensures r == if HasBase(old(sets), base) then None else Some(NotFoundOnBase)
      ensures old(AllPlain()) ==> AllPlain()
    {
      var i, found := 0, false;
      var list := sets;
      while i < |list|
        invariant 0 <= i
        invariant RemoveByBase(list, i, base) == RemoveByBase(sets, 0, base)
        invariant !found ==> list == sets && forall j :: 0 <= j < i && j < |sets| ==> sets[j].base != base
        invariant found ==> HasBase(sets, base)
        decreases |list| - i
      {
        if list[i].base == base {
          assert !found ==> list[i] in sets;
          list := RemoveFirstSame(list, list[i].acls);
          found := true;
        }
        i := i + 1;
      }
      if !found { return Some(NotFoundOnBase); }
      sets := list;
      CacheClear();
      r := None;
    }

    method RemoveAclsForUser(user: string)
      requires Coherent()
      modifies this`sets, this`memo, this`asked
      ensures Coherent() && sets == RemoveUser(old(sets), user)
      ensures old(AllPlain()) ==> AllPlain()
    {
      if sets == [] {
        assert RemoveUser(sets, user) == sets;
      } else {
        sets := RemoveUser(sets, user);
        CacheClear();
      }
    }

    // ----- commands: they ask for permission first -----

    /** Why the user may not write ACLs on the base, if so: what the resolver answers, memo included. */
    ghost function Refusal(user: Option<string>, base: Dn): Option<Error>
      reads this
    {
      RefusalIn(Current(), aclTopic, memo, user, base)
    }

    ghost function Permission(user: Option<string>, base: Dn): Query {
      PermissionQuery(aclTopic, user, base)
    }

    /** The first reason that holds: the user's, or one found in the arguments. */
    ghost function Hindrance(user: Option<string>, base: Dn, arguments: Option<Error>): Option<Error>
      reads this
    {
      if Refusal(user, base).Some? then Refusal(user, base) else arguments
    }

    ghost predicate PlainPermission(user: Option<string>, base: Dn) {
      Plain(Permission(user, base))
    }

    /** `if not self.check(user, '<domain>.acl', 'w', None, base): raise`. */
    method Permit(user: Option<string>, base: Dn) returns (r: Option<Error>)
      requires Coherent()
      modifies this`memo, this`asked
      ensures Coherent() && r == old(Refusal(user, base))
      ensures r.None? ==> memo == old(memo)[Key(Permission(user, base)) := true]
      ensures Grown(old(memo), old(asked), memo, asked)
      ensures old(AllPlain()) && PlainPermission(user, base) ==>
                AllPlain() && (r.None? <==> Decide(Current(), Permission(user, base)) == Success(true))
    {
      var c := Check(Query(user, aclTopic, "w", Some(base)));
      r := if c.Failure? then Some(Undecided(c.error)) else if c.value then None else Some(Denied);
    }

    /** Succeeds exactly for a permitted user with valid arguments and a role, if one is named, that exists; a missing
        role is noticed when a set may have been opened and an id taken already. */
    method AddACL(user: Option<string>, base: Dn, priority: int, members: seq<string>, actions: seq<Action>,
                  scope: ScopeArg, rolename: string)
      returns (r: Result<Option<int>, Error>)
      requires Coherent()
      modifies this
      ensures Coherent() && roles == old(roles)
      ensures old(AllPlain()) && PlainPermission(user, base) ==> AllPlain()
      ensures var e := old(Hindrance(user, base, WrongForAdd(priority, actions, scope, rolename)));
              if e.Some? then r == Failure(e.value) && sets == old(sets) && nextAclId == old(nextAclId)
              else Places(old(sets), old(nextAclId), base, priority, members, actions, scope, rolename, r)
    {
      var denied := Permit(user, base);
      if denied.Some? { return Failure(denied.value); }
      if scope.Unknown? { return Failure(InvalidScope); }
      if priority < -100 || priority > 100 { return Failure(InvalidPriority); }
      if !ValidRights(actions) { return Failure(InvalidRights); }
      if actions != [] && rolename != "" { return Failure(ParameterMismatch); }
      r := PlaceACL(base, priority, members, actions, scope, rolename);
    }

    /** A set is opened for the base, and unless the role is missing the new entry, with the next free id, is in every
        set on it. */
    ghost predicate Places(before: seq<AclSet>, last: int, base: Dn, priority: int, members: seq<string>,
                           actions: seq<Action>, scope: ScopeArg, rolename: string, r: Result<Option<int>, Error>)
      reads this`sets, this`roles, this`nextAclId
    {
      var now := Opened(before, base, root);
      if actions == [] && rolename == "" then r == Success(None) && sets == now && nextAclId == last
      else
        && NextFree(UsedIds(before, roles), last, nextAclId)
        && if actions == [] && rolename !in roles then r == Failure(RoleNotFound) && sets == now
           else && r == Success(Some(nextAclId))
                && sets == AddToAll(now, base, NewEntry(nextAclId, priority, members, actions, scope, rolename))
    }

    /** The part of `addACL` behind the checks. */
    method PlaceACL(base: Dn, priority: int, members: seq<string>, actions: seq<Action>, scope: ScopeArg,
                    rolename: string)
      returns (r: Result<Option<int>, Error>)
      requires Coherent() && (actions == [] || rolename == "")
      modifies this
      ensures Coherent() && roles == old(roles) && (old(AllPlain()) ==> AllPlain())
      ensures Places(old(sets), old(nextAclId), base, priority, members, actions, scope, rolename, r)
    {
      OpenedKeepsIds(sets, base, root, roles);
      if !HasBase(sets, base) {
        AddAclSet(AclSet(if base == [] then root else base, []));
      }
      if actions != [] {
        var id := StoreNew(base, Acl(0, Some(priority), members, false, "",
                                     Some(if scope.Given? then scope.scope else SUB), actions));
        return Success(Some(id));
      }
      if rolename != "" {
        if rolename !in roles {
          var _ := GetNextAclId();
          return Failure(RoleNotFound);
        }
        var id := StoreNew(base, Acl(0, Some(priority), members, true, rolename, None, []));
        return Success(Some(id));
      }
      r := Success(None);
    }

    /** A new entry takes its id when it is made. */
    method StoreNew(base: Dn, a: Acl) returns (id: int)
      requires Coherent()
      modifies this
      ensures Coherent() && roles == old(roles) && (old(AllPlain()) ==> AllPlain())
      ensures id == nextAclId && NextFree(UsedIds(old(sets), roles), old(nextAclId), nextAclId)
      ensures sets == AddToAll(old(sets), base, a.(id := id))
    {
      id := GetNextAclId();
      AddAclToBase(base, a.(id := id));
    }

    ghost predicate PlainPermissions(user: Option<string>)
      reads this`sets
    {
      forall s | s in sets :: PlainPermission(user, s.base)
    }

    ghost predicate PermittedAt(user: Option<string>, positions: seq<Position>)
      reads this`sets, this`roles
    {
      Permitted(Current(), aclTopic, user, BasesOf(sets, positions))
    }

    /** Finds the last entry with the id, asking for permission on the base of every entry that has it. */
    method FindForUpdate(user: Option<string>, aclId: int) returns (r: Result<Position, Error>)
      requires Coherent()
      modifies this`memo, this`asked
      ensures Coherent() && Grown(old(memo), old(asked), memo, asked)
      ensures var all := PositionsFrom(sets, 0, 0, aclId);
              r == LastPlace(AskEach(Current(), aclTopic, old(memo), user, BasesOf(sets, all)), all)
      ensures old(AllPlain()) && PlainPermissions(user) ==> AllPlain()
    {
      ghost var p, all, met := Current(), PositionsFrom(sets, 0, 0, aclId), [];
      ghost var answer := AskEach(p, aclTopic, memo, user, BasesOf(sets, all));
      ghost var plain := AllPlain() && PlainPermissions(user);
      var refused: Option<Error>, found: Option<Position> := None, None;
      NothingMetYet(p, aclTopic, user, memo, all);
      var i := 0;
      while i < |sets| && refused.None?
        invariant 0 <= i <= |sets|
        invariant Coherent() && Grown(old(memo), old(asked), memo, asked) && (plain ==> AllPlain())
        invariant if refused.Some? then answer == refused
                  else OnTheWay(p, aclTopic, user, memo, all, answer, met, PositionsFrom(p.sets, i, 0, aclId))
        invariant found == LastOf(met)
      {
        assert sets[i] in sets && Current() == p;
        refused, found, met := FindInSet(user, i, aclId, found, all, answer, met);
        i := i + 1;
      }
      if refused.None? {
        NothingAhead(p, aclTopic, user, memo, all, answer, met);
      }
      r := if refused.Some? then Failure(refused.value)
           else if found.Some? then Success(found.value) else Failure(AclNotFound);
    }

    /** The same in one set. */
    method FindInSet(user: Option<string>, i: nat, aclId: int, before: Option<Position>, ghost all: seq<Position>,
                     ghost answer: Option<Error>, ghost metBefore: seq<Position>)
      returns (refused: Option<Error>, found: Option<Position>, ghost met: seq<Position>)
      requires Coherent() && i < |sets| && before == LastOf(metBefore)
      requires OnTheWay(Current(), aclTopic, user, memo, all, answer, metBefore, PositionsFrom(sets, i, 0, aclId))
      modifies this`memo, this`asked
      ensures Coherent() && Grown(old(memo), old(asked), memo, asked) && found == LastOf(met)
      ensures if refused.Some? then answer == refused
              else OnTheWay(Current(), aclTopic, user, memo, all, answer, met, PositionsFrom(sets, i + 1, 0, aclId))
      ensures old(AllPlain()) && PlainPermission(user, sets[i].base) ==> AllPlain()
    {
      refused, found, met := None, before, metBefore;
      ghost var p, plain := Current(), AllPlain() && PlainPermission(user, sets[i].base);
      var acls, k := sets[i].acls, 0;
      while k < |acls| && refused.None?
        invariant 0 <= k <= |acls|
        invariant Coherent() && Grown(old(memo), old(asked), memo, asked) && (plain ==> AllPlain())
        invariant refused.Some? ==> answer == refused
        invariant refused.None? ==>
                    OnTheWay(p, aclTopic, user, memo, all, answer, met, PositionsFrom(p.sets, i, k, aclId))
        invariant found == LastOf(met)
      {
        ghost var memo1, asked1 := memo, asked;
        refused, found, met := AskAt(user, i, k, aclId, found, all, answer, met);
        GrownFurther(old(memo), old(asked), memo1, asked1, memo, asked);
        k := k + 1;
      }
      EndOfSet(p.sets, i, aclId);
    }

    /** The same at one position. */
    method AskAt(user: Option<string>, i: nat, k: nat, aclId: int, before: Option<Position>, ghost all: seq<Position>,
                 ghost answer: Option<Error>, ghost metBefore: seq<Position>)
      returns (refused: Option<Error>, found: Option<Position>, ghost met: seq<Position>)
      requires Coherent() && i < |sets| && k < |sets[i].acls| && before == LastOf(metBefore)
      requires OnTheWay(Current(), aclTopic, user, memo, all, answer, metBefore, PositionsFrom(sets, i, k, aclId))
      modifies this`memo, this`asked
      ensures Coherent() && Grown(old(memo), old(asked), memo, asked) && found == LastOf(met)
      ensures if refused.Some? then answer == refused
              else OnTheWay(Current(), aclTopic, user, memo, all, answer, met, PositionsFrom(sets, i, k + 1, aclId))
      ensures old(AllPlain()) && PlainPermission(user, sets[i].base) ==> AllPlain()
    {
      refused, found, met := None, before, metBefore;
      if sets[i].acls[k].id == aclId {
        ghost var place, rest := Position(i, k), PositionsFrom(sets, i, k + 1, aclId);
        OneStepOn(Current(), aclTopic, user, memo, all, answer, met, place, rest);
        refused := Permit(user, sets[i].base);
        if refused.None? {
          LastIsNew(met, place);
          found, met := Some(Position(i, k)), met + [place];
        }
      }
    }

    /** Why `updateACL` refuses, before it changes anything. */
    ghost function UpdateHindrance(user: Option<string>, aclId: int, ch: Changes): Option<Error>
      reads this
    {
      var all := Positions(sets, aclId);
      WrongForUpdate(ch, LastPlace(AskEach(Current(), aclTopic, memo, user, BasesOf(sets, all)), all))
    }

    /** Who is not hindered may write on the base of every entry with the id. */
    lemma UnhinderedIsPermitted(user: Option<string>, aclId: int, ch: Changes)
      requires Coherent() && UpdateHindrance(user, aclId, ch).None?
      ensures AllPlain() && PlainPermissions(user) ==> PermittedAt(user, Positions(sets, aclId))
    {
      if AllPlain() && PlainPermissions(user) {
        var all := Positions(sets, aclId);
        BasesFrom(sets, all);
        AskedIffPermitted(Current(), aclTopic, memo, asked, user, BasesOf(sets, all));
      }
    }

    /** `updateACL`, exactly. When it breaks off in the middle of the update (`late`) the entry is changed and the memo
        is not cleared; the memo is coherent all the same unless the update changed what matching sees. */
    method UpdateACL(user: Option<string>, aclId: int, ch: Changes) returns (r: Option<Error>, late: bool)
      requires Coherent()
      modifies this`sets, this`memo, this`asked
      ensures old(UpdateHindrance(user, aclId, ch)).Some? ==>
                r == old(UpdateHindrance(user, aclId, ch)) && !late && sets == old(sets)
      ensures old(UpdateHindrance(user, aclId, ch)).None? ==>
                var places := Positions(old(sets), aclId);
                var place := places[|places| - 1];
                && EntryRewritten(old(sets), place.i, place.k, roles, ch, sets, r)
                && UpdatesPlace(old(sets), place.i, place.k, roles, ch, sets, r, late)
                && (late && !CanGoStale(old(sets)[place.i].acls[place.k], ch) ==> Coherent())
      ensures !late ==> Coherent()
      ensures old(AllPlain() && PlainPermissions(user)) ==>
                AllPlain() && (late || r.None? ==> old(PermittedAt(user, Positions(sets, aclId))))
      ensures late ==> Grown(old(memo), old(asked), memo, asked)
    {
      late := false;
      ghost var hindered, places := UpdateHindrance(user, aclId, ch), Positions(sets, aclId);
      if hindered.None? {
        UnhinderedIsPermitted(user, aclId, ch);
      }
      if ch.scope.Unknown? { return Some(InvalidScope), false; }
      if !ValidRights(ch.actions) { return Some(InvalidRights), false; }
      var pos := FindForUpdate(user, aclId);
      assert hindered == WrongForUpdate(ch, pos);
      if pos.Failure? { return Some(pos.error), false; }
      if ch.actions != [] && ch.rolename != "" { return Some(ParameterMismatch), false; }
      assert hindered.None? && pos.value in places;
      ghost var before := sets;
      r, late := ChangeEntry(pos.value.i, pos.value.k, ch);
      UpdatesPlaceRewrites(before, pos.value.i, pos.value.k, roles, ch, sets, r, late);
    }

    /** The part of `updateACL` behind the checks. */
    method ChangeEntry(i: nat, k: nat, ch: Changes) returns (r: Option<Error>, late: bool)
      requires Coherent() && i < |sets| && k < |sets[i].acls| && (ch.actions == [] || ch.rolename == "")
      modifies this`sets, this`memo, this`asked
      ensures UpdatesPlace(old(sets), i, k, roles, ch, sets, r, late)
      ensures late && !CanGoStale(old(sets)[i].acls[k], ch) ==> Coherent()
      ensures !late ==> Coherent()
      ensures if late then memo == old(memo) && asked == old(asked) else memo == map[] && AllPlain()
    {
      var was := sets[i].acls[k];
      var (a, e) := Updated(was, roles, ch);
      ghost var before := Current();
      sets := ReplaceAt(sets, i, k, a);
      late := e.Some?;
      if e.Some? {
        if !CanGoStale(was, ch) {
          forall key | key in memo
            ensures Decide(Current(), asked[key]) == Success(memo[key])
          {
            HarmlessUpdate(before, i, k, ch, asked[key]);
            assert Current() == WithList(before, i, before.sets[i].acls[k := a]);
          }
        }
        return e, true;
      }
      CacheClear();
      r := None;
    }

    /** Looks through the roles, in the order the dictionary happens to have. */
    method FindInRoles(aclId: int) returns (n: Option<string>, k: nat)
      ensures n.Some? ==> FirstInRole(roles, n.value, k, aclId)
      ensures n.None? ==> forall r, a :: r in roles && a in roles[r] ==> a.id != aclId
    {
      n, k := None, 0;
      var names := roles.Keys;
      while names != {}
        invariant names <= roles.Keys
        invariant n.Some? ==> FirstInRole(roles, n.value, k, aclId)
        invariant n.None? ==> forall r, a :: r in roles && r !in names && a in roles[r] ==> a.id != aclId
        decreases names
      {
        var r :| r in names;
        for j := 0 to |roles[r]|
          invariant n.Some? ==> FirstInRole(roles, n.value, k, aclId)
          invariant n.None? ==> forall x, a :: x in roles && x !in names && a in roles[x] ==> a.id != aclId
          invariant forall i :: 0 <= i < j ==> roles[r][i].id != aclId
        {
          if roles[r][j].id == aclId {
            n, k := Some(r), j;
            break;
          }
        }
        names := names - {r};
      }
    }

    /** The first entry with the id goes, if the user is permitted on its base, and its set with it if that is empty. */
    method RemoveACL(user: Option<string>, aclId: int) returns (r: Option<Error>)
      requires Coherent()
      modifies this`sets, this`memo, this`asked
      ensures Coherent()
      ensures old(AllPlain() && PlainPermissions(user)) ==> AllPlain()
      ensures var places := Positions(old(sets), aclId);
              if places == [] then r == Some(AclNotFound) && sets == old(sets)
              else
                assert places[0] in places;
                && r == old(var place := Positions(sets, aclId)[0];
                            assert place in Positions(sets, aclId);
                            Refusal(user, sets[place.i].base))
                && sets == if r.Some? then old(sets) else AfterRemoval(old(sets), places[0].i, places[0].k)
    {
      for i := 0 to |sets|
        invariant Coherent() && sets == old(sets) && memo == old(memo) && asked == old(asked)
        invariant Positions(sets, aclId) == PositionsFrom(sets, i, 0, aclId)
      {
        assert sets[i] in sets;
        for k := 0 to |sets[i].acls|
          invariant Coherent() && sets == old(sets) && memo == old(memo) && asked == old(asked)
          invariant Positions(sets, aclId) == PositionsFrom(sets, i, k, aclId)
        {
          if sets[i].acls[k].id == aclId {
            var denied := Permit(user, sets[i].base);
            if denied.Some? { return denied; }
            RemoveEntry(i, k);
            return None;
          }
        }
      }
      r := Some(AclNotFound);
    }

    method RemoveEntry(i: nat, k: nat)
      requires Coherent() && i < |sets| && k < |sets[i].acls|
      modifies this`sets, this`memo, this`asked
      ensures Coherent() && AllPlain() && sets == AfterRemoval(old(sets), i, k)
    {
      var base := sets[i].base;
      sets := sets[i := sets[i].(acls := RemoveAt(sets[i].acls, k))];
      CacheClear();
      if sets[i].acls == [] {
        var _ := RemoveAclSetByBase(base);
      }
      CacheClear();
    }

    method AddACLRole(user: Option<string>, rolename: string) returns (r: Option<Error>)
      requires Coherent()
      modifies this`roles, this`memo, this`asked
      ensures Coherent()
      ensures old(AllPlain()) && PlainPermission(user, root) ==> AllPlain()
      ensures r == old(Hindrance(user, root, if rolename == "" then Some(InvalidName)
                                             else if rolename in roles then Some(RoleExists) else None))
      ensures roles == if r.None? then old(roles)[rolename := []] else old(roles)
    {
      var denied := Permit(user, root);
      if denied.Some? { return denied; }
      if rolename == "" { return Some(InvalidName); }
      if rolename in roles { return Some(RoleExists); }
      AddAclRole(rolename, []);
      r := None;
    }

    method AddACLToRole(user: Option<string>, rolename: string, priority: int, actions: seq<Action>, scope: ScopeArg,
                        useRole: string)
      returns (r: Result<Option<int>, Error>)
      requires Coherent()
      modifies this
      ensures Coherent() && sets == old(sets)
      ensures old(AllPlain()) && PlainPermission(user, root) ==> AllPlain()
      ensures var e := old(Hindrance(user, root, WrongForRole(roles, rolename, priority, actions, scope, useRole)));
              if e.Some? then r == Failure(e.value) && roles == old(roles) && nextAclId == old(nextAclId)
              else rolename in old(roles) &&
                   PlacesInRole(old(roles), old(nextAclId), rolename, priority, actions, scope, useRole, r)
    {
      var denied := Permit(user, root);
      if denied.Some? { return Failure(denied.value); }
      if rolename !in roles { return Failure(RoleNotFound); }
      if priority < -100 || priority > 100 { return Failure(InvalidPriority); }
      if actions != [] && !scope.Given? { return Failure(InvalidScope); }
      if !ValidRights(actions) { return Failure(InvalidRights); }
      if actions != [] && useRole != "" { return Failure(ParameterMismatch); }
      if useRole == rolename && useRole != "" { return Failure(SelfReference); }
      r := PlaceInRole(rolename, priority, actions, scope, useRole);
    }

    /** Unless the role to use is missing the new entry, with the next free id, is in the role. */
    ghost predicate PlacesInRole(before: Roles, last: int, rolename: string, priority: int, actions: seq<Action>,
                                 scope: ScopeArg, useRole: string, r: Result<Option<int>, Error>)
      requires rolename in before
      reads this`sets, this`roles, this`nextAclId
    {
      if actions == [] && useRole == "" then r == Success(None) && roles == before && nextAclId == last
      else
        && NextFree(UsedIds(sets, before), last, nextAclId)
        && if actions == [] && useRole !in before then r == Failure(RoleNotFound) && roles == before
           else && r == Success(Some(nextAclId))
                && roles == before[rolename := Added(before[rolename],
                              NewEntry(nextAclId, priority, [], actions, scope, useRole), true)]
    }

    /** The part of `addACLToRole` behind the checks. */
    method PlaceInRole(rolename: string, priority: int, actions: seq<Action>, scope: ScopeArg, useRole: string)
      returns (r: Result<Option<int>, Error>)
      requires Coherent() && rolename in roles && (actions != [] ==> scope.Given?)
      modifies this
      ensures Coherent() && sets == old(sets) && (old(AllPlain()) ==> AllPlain())
      ensures PlacesInRole(old(roles), old(nextAclId), rolename, priority, actions, scope, useRole, r)
    {
      if actions != [] {
        var id := GetNextAclId();
        var _ := AddAclToRole(rolename, Acl(id, Some(priority), [], false, "", Some(scope.scope), actions));
        return Success(Some(id));
      } else if useRole != "" {
        var id := GetNextAclId();
        if useRole !in roles { return Failure(RoleNotFound); }
        var _ := AddAclToRole(rolename, Acl(id, Some(priority), [], true, useRole, None, []));
        return Success(Some(id));
      }
      r := Success(None);
    }

    /** `updateACLRole`; `late` as in `updateACL`. Which entry is found, if several roles have the id, depends on the
        order of the dictionary. */
    method UpdateACLRole(user: Option<string>, aclId: int, ch: Changes) returns (r: Option<Error>, late: bool)
      requires Coherent() && ch.members == []
      modifies this`roles, this`memo, this`asked
      ensures var e := old(Hindrance(user, root, WrongForRoleUpdate(ch)));
              if e.Some? then r == e && !late && roles == old(roles)
              else if forall n, a :: n in old(roles) && a in old(roles)[n] ==> a.id != aclId
              then r == Some(AclNotFound) && !late && roles == old(roles)
              else
                exists n: string, k: nat :: FirstInRole(old(roles), n, k, aclId) &&
                  if ch.rolename == n && n != "" then r == Some(SelfReference) && !late && roles == old(roles)
                  else
                    var was := old(roles)[n][k];
                    var (a, error) := Updated(was, old(roles), ch);
                    && r == error && (late <==> error.Some?)
                    && roles == old(roles)[n := old(roles)[n][k := a]]
                    && RoleEntryRewritten(old(roles), n, k, ch, roles, r)
                    && (late && !CanGoStaleInRole(was, ch) ==> Coherent())
      ensures !late ==> Coherent()
      ensures old(AllPlain()) && PlainPermission(user, root) ==> AllPlain()
    {
      var denied := Permit(user, root);
      if denied.Some? { return denied, false; }
      if ch.priority < -100 || ch.priority > 100 { return Some(InvalidPriority), false; }
      if ch.actions != [] && ch.rolename != "" { return Some(ParameterMismatch), false; }
      if ch.scope.Unknown? { return Some(InvalidScope), false; }
      if !ValidRights(ch.actions) { return Some(InvalidRights), false; }
      var n, k := FindInRoles(aclId);
      if n.None? { return Some(AclNotFound), false; }
      assert roles[n.value][k] in roles[n.value];
      if ch.rolename != "" && ch.rolename == n.value { return Some(SelfReference), false; }
      ghost var before := roles;
      r, late := ChangeRoleEntry(n.value, k, ch);
      RoleUpdateRewrites(before, n.value, k, ch, roles, r);
    }

    method ChangeRoleEntry(n: string, k: nat, ch: Changes) returns (r: Option<Error>, late: bool)
      requires Coherent() && n in roles && k < |roles[n]| && (ch.actions == [] || ch.rolename == "") && ch.members == []
      modifies this`roles, this`memo, this`asked
      ensures var was := old(roles)[n][k];
              var (a, error) := Updated(was, old(roles), ch);
              && r == error && (late <==> error.Some?) && roles == old(roles)[n := old(roles)[n][k := a]]
              && (late && !CanGoStaleInRole(was, ch) ==> Coherent())
      ensures !late ==> Coherent()
      ensures if late then memo == old(memo) && asked == old(asked) else memo == map[] && AllPlain()
    {
      var was := roles[n][k];
      var (a, e) := Updated(was, roles, ch);
      ghost var before := Current();
      roles := roles[n := roles[n][k := a]];
      late := e.Some?;
      if e.Some? {
        if !CanGoStaleInRole(was, ch) {
          forall key | key in memo
            ensures Decide(Current(), asked[key]) == Success(memo[key])
          {
            HarmlessRoleUpdate(before, n, k, ch, asked[key]);
            assert Current() == before.(roles := before.roles[n := before.roles[n][k := a]]);
          }
        }
        return e, true;
      }
      CacheClear();
      r := None;
    }

    /** The first entry with the id, in some role that has one, goes. */
    method RemoveRoleACL(user: Option<string>, aclId: int) returns (r: Option<Error>)
      requires Coherent()
      modifies this`roles, this`memo, this`asked
      ensures Coherent()
      ensures old(AllPlain()) && PlainPermission(user, root) ==> AllPlain()
      ensures r == old(Hindrance(user, root, if forall n, a :: n in roles && a in roles[n] ==> a.id != aclId
                                             then Some(RoleNotFound) else None))
      ensures if r.Some? then roles == old(roles)
              else exists n: string, k: nat :: FirstInRole(old(roles), n, k, aclId) &&
                     roles == old(roles)[n := RemoveAt(old(roles)[n], k)]
    {
      var denied := Permit(user, root);
      if denied.Some? { return denied; }
      var n, k := FindInRoles(aclId);
      if n.None? { return Some(RoleNotFound); }
      assert roles[n.value][k] in roles[n.value];
      roles := roles[n.value := RemoveAt(roles[n.value], k)];
      CacheClear();
      r := None;
    }
  }

  // ----- an update that breaks off, in front of a memo -----

  /** A question, then an update that breaks off: if the decision has changed, the memo is stale, and goes on giving
      the old answer. */
  method CheckThenUpdate(resolver: ACLResolver, query: Query, user: Option<string>, aclId: int, ch: Changes)
    returns (answer: Result<bool, Verdict>, r: Option<Error>, late: bool)
    requires resolver.Coherent() && Key(query) !in resolver.memo
    modifies resolver
    ensures late && answer.Success? && Decide(resolver.Current(), query) != answer ==>
              !resolver.Coherent() && resolver.Answer(query) == answer
    ensures late ==> resolver.roles == old(resolver.roles)
  {
    answer := resolver.Check(query);
    ghost var key := Key(query);
    assert answer.Success? ==> resolver.asked[key] == query && resolver.memo[key] == answer.value;
    r, late := resolver.UpdateACL(user, aclId, ch);
  }

  /** A resolver with one set and one entry. */
  method OneEntryResolver(root: Dn, world: World, topic: string, a: Acl) returns (resolver: ACLResolver)
    ensures fresh(resolver) && resolver.Coherent() && resolver.memo == map[] && resolver.roles == map[]
    ensures resolver.sets == [AclSet(root, [a])] && resolver.root == root && resolver.world == world
    ensures resolver.admins == [] && resolver.aclTopic == topic
  {
    resolver := new ACLResolver(root, [], world, topic);
    resolver.AddAclSet(AclSet(root, [a]));
  }

  lemma OnlyPlace(base: Dn, a: Acl)
    ensures Positions([AclSet(base, [a])], a.id) == [Position(0, 0)]
  {
    var sets := [AclSet(base, [a])];
    assert PositionsFrom(sets, 1, 0, a.id) == [];
    assert PositionsFrom(sets, 0, 1, a.id) == [];
    assert PositionsFrom(sets, 0, 0, a.id) == [Position(0, 0)] + PositionsFrom(sets, 0, 1, a.id);
  }

  lemma GrantThenNothing(w: World, root: Dn, acl: Acl, a: Acl)
    requires root != [] && w.matches("u", "u") && w.matches("t", "t")
    requires acl == Acl(1, Some(0), ["u"], false, "", Some(PSUB), [Action("t", "r")])
    requires a == acl.(actions := [])
    ensures Decide(Policy(root, [AclSet(root, [acl])], map[], [], w), Query(Some("u"), "t", "r", None)) == Success(true)
    ensures Decide(Policy(root, [AclSet(root, [a])], map[], [], w), Query(Some("u"), "t", "r", None)) == Success(false)
  {
    var p, p' := Policy(root, [AclSet(root, [acl])], map[], [], w), Policy(root, [AclSet(root, [a])], map[], [], w);
    var q := Request("u", "t", "r", root);
    OneSetWalk(p);
    OneSetWalk(p');
    assert Action("t", "r") in acl.actions && "u" in Applicable(w, root, Action("t", "r"), ["u"]);
    assert ActionGrants(w, q, Action("t", "r"), ["u"]);
    assert !Grants(w, q, a, ["u"]);
    var cs := OfList([a], true);
    assert cs == [Candidate(a, true)] && cs[1..] == [];
    assert MatchAcl(w, map[], q, a, [], []).0 == NoMatch;
    assert Fold(p', q, cs, false) == Fold(p', q, cs[1..], false);
  }

  /** It happens: an entry grants, the grant is remembered, an administrator's update with an unknown role takes the
      entry's actions away and raises, and the resolver goes on granting. */
  method BrokenOffUpdateLeavesStaleMemo(w: World, root: Dn) returns (resolver: ACLResolver, r: Option<Error>)
    requires root != [] && w.matches("u", "u") && w.matches("t", "t")
    ensures r == Some(RoleNotFound) && !resolver.Coherent()
    ensures var query := Query(Some("u"), "t", "r", None);
            resolver.Answer(query) == Success(true) && Decide(resolver.Current(), query) == Success(false)
  {
    var query, ch := Query(Some("u"), "t", "r", None), Changes([], 0, [], "gone", NotGiven);
    var acl := Acl(1, Some(0), ["u"], false, "", Some(PSUB), [Action("t", "r")]);
    resolver := OneEntryResolver(root, w, "acl", acl);
    var a := acl.(actions := []);
    GrantThenNothing(w, root, acl, a);
    assert ReplaceAt(resolver.sets, 0, 0, a) == [AclSet(root, [a])] by { assert [acl][0 := a] == [a]; }
    var answer := resolver.Check(query);
    assert resolver.memo == map[Key(query) := true];
    Unhindered(resolver, root, acl, ch);
    var late;
    r, late := resolver.UpdateACL(None, 1, ch);
    assert resolver.asked[Key(query)] == query && resolver.memo[Key(query)];
  }

  /** A call without a user is not refused. */
  lemma Unhindered(resolver: ACLResolver, root: Dn, acl: Acl, ch: Changes)
    requires resolver.sets == [AclSet(root, [acl])] && forall k :: k in resolver.memo ==> resolver.memo[k]
    requires !ch.scope.Unknown? && ch.actions == []
    ensures resolver.UpdateHindrance(None, acl.id, ch) == None
    ensures Positions(resolver.sets, acl.id) == [Position(0, 0)]
  {
    OnlyPlace(root, acl);
    var bases := BasesOf(resolver.sets, [Position(0, 0)]);
    assert [Position(0, 0)][1..] == [] && BasesOf(resolver.sets, []) == [];
    assert bases == [root] && bases[1..] == [];
    var p, t, memo := resolver.Current(), resolver.aclTopic, resolver.memo;
    assert RefusalIn(p, t, memo, None, root) == None;
    assert AskEach(p, t, memo[Key(PermissionQuery(t, None, root)) := true], None, bases[1..]) == None;
  }

  /** It happens: a grant is remembered, everything is loaded anew from a database that holds no roles and sets any
      more, and the resolver goes on granting. */
  method ReloadKeepsStaleGrant(w: World, root: Dn) returns (resolver: ACLResolver)
    requires root != [] && w.matches("u", "u") && w.matches("t", "t")
    ensures resolver.sets == [] && resolver.roles == map[] && !resolver.Coherent()
    ensures var query := Query(Some("u"), "t", "r", None);
            resolver.Answer(query) == Success(true) && Decide(resolver.Current(), query) == Success(false)
  {
    var query := Query(Some("u"), "t", "r", None);
    var acl := Acl(1, Some(0), ["u"], false, "", Some(PSUB), [Action("t", "r")]);
    resolver := OneEntryResolver(root, w, "acl", acl);
    GrantThenNothing(w, root, acl, acl.(actions := []));
    var answer := resolver.Check(query);
    assert resolver.asked[Key(query)] == query && resolver.memo[Key(query)];
    resolver.LoadAcls([], []);
    NothingOnTheWalk(resolver.Current(), root, root);
  }
}
