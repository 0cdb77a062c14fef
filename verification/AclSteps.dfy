/** What each call of the resolver does, said without its memo: effect and reply depend on the policy alone. */
module AclSteps {
  import opened Names
  import opened Wrappers
  import opened AclModel
  import opened AclDecision
  import opened AclRoles
  import opened AclMemo
  import opened AclLists
  import opened AclChanges
  import opened AclLaws
  import opened AclResolver

  datatype Command =
    | Ask(query: Query)
    | AddSet(s: AclSet)
    | AddToSet(base: Dn, a: Acl)
    | AddToBase(base: Dn, a: Acl)
    | AddToRole(name: string, a: Acl)
    | AddRole(name: string, entries: seq<Acl>)
    | RemoveRole(name: string)
    | RemoveSets(base: Dn)
    | RemoveUserAcls(name: string)
    | AddAcl(user: Option<string>, base: Dn, priority: int, members: seq<string>, actions: seq<Action>,
             scope: ScopeArg, name: string)
    | UpdateAcl(user: Option<string>, id: int, ch: Changes)
    | RemoveAcl(user: Option<string>, id: int)
    | AddAclRole(user: Option<string>, name: string)
    | AddAclToRole(user: Option<string>, name: string, priority: int, actions: seq<Action>, scope: ScopeArg,
                   useRole: string)
    | UpdateAclRole(user: Option<string>, id: int, priority: int, actions: seq<Action>, scope: ScopeArg,
                    useRole: string)
    | RemoveRoleAcl(user: Option<string>, id: int)

  /** How a call comes back. `BrokeOff` is an update that raises after it has begun to change its entry. */
  datatype Reply =
    | Answer(answer: Result<bool, Verdict>)
    | Done
    | NewId(id: int)
    | Failed(error: Error)
    | BrokeOff(error: Error)

  function ReplyOf(e: Option<Error>): Reply {
    if e.Some? then Failed(e.value) else Done
  }

  function ReplyWithId(r: Result<Option<int>, Error>): Reply {
    match r
    case Failure(e) => Failed(e)
    case Success(None) => Done
    case Success(Some(id)) => NewId(id)
  }

  /** An update of a role's entry changes no members. */
  function RoleChanges(c: Command): Changes
    requires c.UpdateAclRole?
  {
    Changes([], c.priority, c.actions, c.useRole, c.scope)
  }

  /** The state of a resolver between two calls. */
  datatype Snapshot = Snapshot(policy: Policy, next: int, memo: map<string, bool>, asked: map<string, Query>)

  ghost predicate Unchanged(b: Snapshot, a: Snapshot) {
    a.policy == b.policy && a.next == b.next
  }

  ghost predicate SetsBecome(b: Snapshot, a: Snapshot, sets: seq<AclSet>) {
    a.policy == b.policy.(sets := sets) && a.next == b.next
  }

  ghost predicate RolesBecome(b: Snapshot, a: Snapshot, roles: Roles) {
    a.policy == b.policy.(roles := roles) && a.next == b.next
  }

  /** The first reason that holds: the user's, or one found in the arguments. */
  ghost function Hindered(p: Policy, topic: string, user: Option<string>, base: Dn, arguments: Option<Error>)
    : Option<Error>
  {
    if Refused(p, topic, user, base).Some? then Refused(p, topic, user, base) else arguments
  }

  /** A question is answered by the decision, which is remembered. */
  ghost predicate Asks(b: Snapshot, query: Query, a: Snapshot, reply: Reply) {
    && Unchanged(b, a) && reply == Answer(Decide(b.policy, query))
    && a.memo == if reply.answer.Success? then b.memo[Key(query) := reply.answer.value] else b.memo
  }

  ghost predicate AddsAcl(topic: string, b: Snapshot, c: Command, a: Snapshot, reply: Reply)
    requires c.AddAcl?
  {
    var p := b.policy;
    var e := Hindered(p, topic, c.user, c.base, WrongForAdd(c.priority, c.actions, c.scope, c.name));
    var now := Opened(p.sets, c.base, p.root);
    if e.Some? then Unchanged(b, a) && reply == Failed(e.value)
    else if c.actions == [] && c.name == "" then SetsBecome(b, a, now) && reply == Done
    else
      && NextFree(UsedIds(p.sets, p.roles), b.next, a.next)
      && if c.actions == [] && c.name !in p.roles then a.policy == p.(sets := now) && reply == Failed(RoleNotFound)
         else && reply == NewId(a.next)
              && a.policy == p.(sets := AddToAll(now, c.base, NewEntry(a.next, c.priority, c.members, c.actions,
                                                                       c.scope, c.name)))
  }

  /** The last entry with the id is changed, for a user who may write on the base of each of them. */
  ghost predicate UpdatesAcl(topic: string, b: Snapshot, c: Command, a: Snapshot, reply: Reply)
    requires c.UpdateAcl?
  {
    var p, places := b.policy, Positions(b.policy.sets, c.id);
    var e := WrongForUpdate(c.ch, LastPlace(FirstRefusal(p, topic, c.user, BasesOf(p.sets, places)), places));
    if e.Some? then Unchanged(b, a) && reply == Failed(e.value)
    else
      UpdatesAt(b, places[|places| - 1], c.ch, a, reply)
  }

  ghost predicate UpdatesAt(b: Snapshot, place: Position, ch: Changes, a: Snapshot, reply: Reply)
    requires place.i < |b.policy.sets| && place.k < |b.policy.sets[place.i].acls|
  {
    var p := b.policy;
    var (entry, error) := Updated(p.sets[place.i].acls[place.k], p.roles, ch);
    && SetsBecome(b, a, ReplaceAt(p.sets, place.i, place.k, entry))
    && reply == if error.Some? then BrokeOff(error.value) else Done
  }

  /** The first entry with the id goes, for a user who may write on its base. */
  ghost predicate RemovesAcl(topic: string, b: Snapshot, c: Command, a: Snapshot, reply: Reply)
    requires c.RemoveAcl?
  {
    var p, places := b.policy, Positions(b.policy.sets, c.id);
    if places == [] then Unchanged(b, a) && reply == Failed(AclNotFound)
    else
      assert places[0] in places;
      var e := Refused(p, topic, c.user, p.sets[places[0].i].base);
      && reply == ReplyOf(e)
      && SetsBecome(b, a, if e.Some? then p.sets else AfterRemoval(p.sets, places[0].i, places[0].k))
  }

  ghost predicate AddsRole(topic: string, b: Snapshot, c: Command, a: Snapshot, reply: Reply)
    requires c.AddAclRole?
  {
    var p := b.policy;
    var e := Hindered(p, topic, c.user, p.root, if c.name == "" then Some(InvalidName)
                                                else if c.name in p.roles then Some(RoleExists) else None);
    reply == ReplyOf(e) && RolesBecome(b, a, if e.Some? then p.roles else p.roles[c.name := []])
  }

  ghost predicate AddsToRole(topic: string, b: Snapshot, c: Command, a: Snapshot, reply: Reply)
    requires c.AddAclToRole?
  {
    var p := b.policy;
    var e := Hindered(p, topic, c.user, p.root, WrongForRole(p.roles, c.name, c.priority, c.actions, c.scope,
                                                             c.useRole));
    if e.Some? then Unchanged(b, a) && reply == Failed(e.value)
    else if c.actions == [] && c.useRole == "" then Unchanged(b, a) && reply == Done
    else
      && NextFree(UsedIds(p.sets, p.roles), b.next, a.next)
      && if c.actions == [] && c.useRole !in p.roles then a.policy == p && reply == Failed(RoleNotFound)
         else && c.name in p.roles && reply == NewId(a.next)
              && a.policy == p.(roles := p.roles[c.name := Added(p.roles[c.name],
                                  NewEntry(a.next, c.priority, [], c.actions, c.scope, c.useRole), true)])
  }

  predicate NoRoleHas(roles: Roles, id: int) {
    forall n | n in roles :: forall a | a in roles[n] :: a.id != id
  }

  /** One first entry of a role with the id is changed. */
  ghost predicate UpdatesInRole(topic: string, b: Snapshot, c: Command, a: Snapshot, reply: Reply)
    requires c.UpdateAclRole?
  {
    var p, ch := b.policy, RoleChanges(c);
    var e := Hindered(p, topic, c.user, p.root, WrongForRoleUpdate(ch));
    if e.Some? then Unchanged(b, a) && reply == Failed(e.value)
    else if NoRoleHas(p.roles, c.id) then Unchanged(b, a) && reply == Failed(AclNotFound)
    else
      exists n: string, k: nat :: FirstInRole(p.roles, n, k, c.id) && UpdatesEntry(b, n, k, ch, a, reply)
  }

  ghost predicate UpdatesEntry(b: Snapshot, n: string, k: nat, ch: Changes, a: Snapshot, reply: Reply)
    requires n in b.policy.roles && k < |b.policy.roles[n]|
  {
    var roles := b.policy.roles;
    if ch.rolename == n && n != "" then Unchanged(b, a) && reply == Failed(SelfReference)
    else
      var (entry, error) := Updated(roles[n][k], roles, ch);
      && RolesBecome(b, a, roles[n := roles[n][k := entry]])
      && reply == if error.Some? then BrokeOff(error.value) else Done
  }

  /** One first entry of a role with the id goes. */
  ghost predicate RemovesFromRole(topic: string, b: Snapshot, c: Command, a: Snapshot, reply: Reply)
    requires c.RemoveRoleAcl?
  {
    var p := b.policy;
    var e := Hindered(p, topic, c.user, p.root, if NoRoleHas(p.roles, c.id) then Some(RoleNotFound) else None);
    && reply == ReplyOf(e)
    && if e.Some? then Unchanged(b, a)
       else exists n: string, k: nat ::
              FirstInRole(p.roles, n, k, c.id) && RolesBecome(b, a, p.roles[n := RemoveAt(p.roles[n], k)])
  }

  /** A call takes the resolver from one state to another and comes back with a reply. */
  ghost predicate Performed(topic: string, b: Snapshot, c: Command, a: Snapshot, reply: Reply) {
    var sets, roles := b.policy.sets, b.policy.roles;
    match c
    case Ask(query) => Asks(b, query, a, reply)
    case AddSet(s) => reply == Done && SetsBecome(b, a, Merged(sets, s))
    case AddToSet(base, x) =>
      && reply == ReplyOf(if HasBase(sets, base) then None else Some(NoBaseAcl))
      && SetsBecome(b, a, if HasBase(sets, base) then AddToFirst(sets, base, x) else sets)
    case AddToBase(base, x) => reply == Done && SetsBecome(b, a, AddToAll(sets, base, x))
    case AddToRole(name, x) =>
      && reply == ReplyOf(if name in roles then None else Some(RoleNotFound))
      && RolesBecome(b, a, if name in roles then roles[name := Added(roles[name], x, true)] else roles)
    case AddRole(name, entries) => reply == Done && RolesBecome(b, a, roles[name := entries])
    case RemoveRole(name) =>
      var e := WrongForRemoval(b.policy, name);
      reply == ReplyOf(e) && RolesBecome(b, a, if e.None? then roles - {name} else roles)
    case RemoveSets(base) =>
      && reply == ReplyOf(if HasBase(sets, base) then None else Some(NotFoundOnBase))
      && SetsBecome(b, a, RemoveByBase(sets, 0, base))
    case RemoveUserAcls(name) => reply == Done && SetsBecome(b, a, RemoveUser(sets, name))
    case AddAcl(_, _, _, _, _, _, _) => AddsAcl(topic, b, c, a, reply)
    case UpdateAcl(_, _, _) => UpdatesAcl(topic, b, c, a, reply)
    case RemoveAcl(_, _) => RemovesAcl(topic, b, c, a, reply)
    case AddAclRole(_, _) => AddsRole(topic, b, c, a, reply)
    case AddAclToRole(_, _, _, _, _, _) => AddsToRole(topic, b, c, a, reply)
    case UpdateAclRole(_, _, _, _, _, _) => UpdatesInRole(topic, b, c, a, reply)
    case RemoveRoleAcl(_, _) => RemovesFromRole(topic, b, c, a, reply)
  }

  // ----- what calls need -----

  /** The user may write ACLs on the base: the policy grants the right "w" on the topic of ACLs. */
  ghost predicate MayWrite(p: Policy, topic: string, user: Option<string>, base: Dn) {
    Decide(p, Query(user, topic, "w", Some(base))) == Success(true)
  }

  /** The base a command needs permission for: the one it names, those of the entries with the id it names, or the root
      for everything about roles. */
  ghost predicate Authorised(p: Policy, topic: string, c: Command) {
    match c
    case AddAcl(user, base, _, _, _, _, _) => MayWrite(p, topic, user, base)
    case UpdateAcl(user, id, _) =>
      forall s, a :: s in p.sets && a in s.acls && a.id == id ==> MayWrite(p, topic, user, s.base)
    case RemoveAcl(user, id) =>
      exists s, a :: s in p.sets && a in s.acls && a.id == id && MayWrite(p, topic, user, s.base)
    case AddAclRole(user, _) => MayWrite(p, topic, user, p.root)
    case AddAclToRole(user, _, _, _, _, _) => MayWrite(p, topic, user, p.root)
    case UpdateAclRole(user, _, _, _, _, _) => MayWrite(p, topic, user, p.root)
    case RemoveRoleAcl(user, _) => MayWrite(p, topic, user, p.root)
    case _ => true
  }

  lemma RefusedIff(p: Policy, topic: string, user: Option<string>, base: Dn)
    ensures Refused(p, topic, user, base).None? <==> MayWrite(p, topic, user, base)
    ensures Refused(p, topic, user, base) == Some(Denied) <==>
              Decide(p, Query(user, topic, "w", Some(base))) == Success(false)
  {
  }

  lemma {:induction false} NoRefusalIff(p: Policy, topic: string, user: Option<string>, bases: seq<Dn>)
    ensures FirstRefusal(p, topic, user, bases).None? <==>
              forall base :: base in bases ==> MayWrite(p, topic, user, base)
    decreases bases
  {
    if bases != [] {
      RefusedIff(p, topic, user, bases[0]);
      NoRefusalIff(p, topic, user, bases[1..]);
      assert forall base :: base in bases <==> base == bases[0] || base in bases[1..];
    }
  }

  lemma {:induction false} BaseOfEach(sets: seq<AclSet>, places: seq<Position>, x: Position)
    requires x in places && x.i < |sets|
    ensures sets[x.i].base in BasesOf(sets, places)
    decreases places
  {
    if places[0] != x {
      BaseOfEach(sets, places[1..], x);
    }
  }

  /** No command changes anything, or comes back without an error, for a user who may not write on the bases it
      concerns: an update needs permission on every base with an entry of the id, a removal on the base of the first.
      */
  lemma ChangeNeedsPermission(topic: string, b: Snapshot, c: Command, a: Snapshot, reply: Reply)
    requires Performed(topic, b, c, a, reply) && (!Unchanged(b, a) || !reply.Failed?)
    ensures Authorised(b.policy, topic, c)
  {
    var p := b.policy;
    match c {
      case AddAcl(user, base, _, _, _, _, _) => RefusedIff(p, topic, user, base);
      case UpdateAcl(user, id, ch) => UpdateNeedsPermission(topic, b, c, a, reply);
      case RemoveAcl(user, id) =>
        var places := Positions(p.sets, id);
        assert places[0] in places;
        var s := p.sets[places[0].i];
        assert s in p.sets && s.acls[places[0].k] in s.acls;
        RefusedIff(p, topic, user, s.base);
      case AddAclRole(user, _) => RefusedIff(p, topic, user, p.root);
      case AddAclToRole(user, _, _, _, _, _) => RefusedIff(p, topic, user, p.root);
      case UpdateAclRole(user, _, _, _, _, _) => RefusedIff(p, topic, user, p.root);
      case RemoveRoleAcl(user, _) => RefusedIff(p, topic, user, p.root);
      case _ =>
    }
  }

  lemma UpdateNeedsPermission(topic: string, b: Snapshot, c: Command, a: Snapshot, reply: Reply)
    requires c.UpdateAcl? && UpdatesAcl(topic, b, c, a, reply) && (!Unchanged(b, a) || !reply.Failed?)
    ensures Authorised(b.policy, topic, c)
  {
    var p, places := b.policy, Positions(b.policy.sets, c.id);
    NoRefusalIff(p, topic, c.user, BasesOf(p.sets, places));
    forall s, x | s in p.sets && x in s.acls && x.id == c.id
      ensures MayWrite(p, topic, c.user, s.base)
    {
      var i :| 0 <= i < |p.sets| && p.sets[i] == s;
      var k :| 0 <= k < |s.acls| && s.acls[k] == x;
      PositionsAre(p.sets, 0, 0, c.id);
      assert EntryAt(p.sets, i, k, c.id) && NotBefore(Position(i, k), 0, 0);
      BaseOfEach(p.sets, places, Position(i, k));
    }
  }

  /** What is wrong with an update: the reasons in the order they are looked at. */
  lemma UpdateArguments(ch: Changes, found: Result<Position, Error>)
    ensures var e := WrongForUpdate(ch, found);
      && (e == None <==> ch.scope != Unknown && KnownRights(ch.actions) && found.Success?
                         && (ch.actions == [] || ch.rolename == ""))
      && (e == Some(InvalidScope) ==> ch.scope == Unknown || found == Failure(InvalidScope))
      && (ch.scope != Unknown && KnownRights(ch.actions) && found.Failure? ==> e == Some(found.error))
  {
    ValidIffKnown(ch.actions);
  }

  /** Why a role is not removed: it does not exist, the sets lead to it, or its search meets a missing role or none of
      them. */
  lemma RemovalReasons(p: Policy, name: string)
    ensures var e := WrongForRemoval(p, name);
      && (e == Some(RoleNotFound) <==> name !in p.roles)
      && (e == Some(RoleInUse) ==> RoleUsed(p, name)) && (e == None ==> !RoleUsed(p, name))
      && (e.Some? && e.value.DanglingRole? ==> e.value.role !in p.roles)
  {
    if name in p.roles {
      SeekMeaning(p.roles, AllEntries(p.sets), name, []);
      UsedIffSetsUse(p, name);
      MissingIsMissing(p.roles, AllEntries(p.sets), name, []);
    }
  }

  // ----- what calls must be like, and what they keep -----

  ghost predicate PlainUser(user: Option<string>) {
    user.Some? ==> Free(user.value, '.') && user.value != "None"
  }

  /** Names, topics and bases that keep the memo keys readable. */
  ghost predicate PlainCommand(c: Command) {
    match c
    case Ask(query) => Plain(query)
    case AddSet(s) => PlainBase(s.base)
    case AddAcl(user, base, _, _, _, _, _) => PlainUser(user) && PlainBase(base)
    case UpdateAcl(user, _, _) => PlainUser(user)
    case RemoveAcl(user, _) => PlainUser(user)
    case AddAclRole(user, _) => PlainUser(user)
    case AddAclToRole(user, _, _, _, _, _) => PlainUser(user)
    case UpdateAclRole(user, _, _, _, _, _) => PlainUser(user)
    case RemoveRoleAcl(user, _) => PlainUser(user)
    case _ => true
  }

  /** A coherent memo of plain queries, and plain bases. */
  ghost predicate Settled(s: Snapshot, topic: string) {
    && IsCoherent(s.policy, s.memo, s.asked) && OnlyPlain(s.asked)
    && PlainBases(s.policy.sets) && PlainBase(s.policy.root) && Free(topic, '=')
  }

  /** One set per base, no entry in two sets, and every list sorted. */
  ghost predicate Orderly(p: Policy) {
    Tidy(p.sets) && AllSorted(p.sets) && RolesSorted(p.roles)
  }

  /** Calls that leave the lists in order: all but those that bring entries or lists of their own, and updates of a
      priority, which do not sort again. */
  ghost predicate KeepsOrder(c: Command) {
    match c
    case AddSet(s) => s.acls == []
    case AddToSet(_, _) => false
    case AddToBase(_, _) => false
    case AddRole(_, entries) => Sorted(entries, true)
    case UpdateAcl(_, _, ch) => ch.priority == 0
    case UpdateAclRole(_, _, priority, _, _, _) => priority == 0
    case _ => true
  }

  // ----- order and plain bases follow from the steps -----

  ghost predicate Keeps(b: Policy, c: Command, a: Policy) {
    && a.root == b.root
    && (PlainBases(b.sets) && PlainBase(b.root) && PlainCommand(c) ==> PlainBases(a.sets))
    && (Orderly(b) && KeepsOrder(c) ==> Orderly(a))
  }

  lemma MergedKeeps(sets: seq<AclSet>, s: AclSet)
    ensures var q := Merged(sets, s);
      && (PlainBases(sets) && PlainBase(s.base) ==> PlainBases(q))
      && (AllSorted(sets) && (HasBase(sets, s.base) || Sorted(s.acls, false)) ==> AllSorted(q))
      && (Tidy(sets) && s.acls == [] ==> Tidy(q))
  {
    if HasBase(sets, s.base) {
      AddEachKeeps(sets, s.base, s.acls);
    } else {
      var q := sets + [s];
      assert forall i :: 0 <= i < |sets| ==> q[i] == sets[i] && sets[i] in sets;
    }
  }

  /** Calls on the sets. */
  lemma SetStepKeeps(topic: string, b: Snapshot, c: Command, a: Snapshot, reply: Reply)
    requires Performed(topic, b, c, a, reply)
    requires c.AddSet? || c.AddToSet? || c.AddToBase? || c.RemoveSets? || c.RemoveUserAcls?
    ensures Keeps(b.policy, c, a.policy)
  {
    match c {
      case AddSet(s) => MergedKeeps(b.policy.sets, s);
      case AddToSet(base, x) => AddToFirstKeeps(b.policy.sets, base, x);
      case AddToBase(base, x) => AddToAllKeeps(b.policy.sets, base, x);
      case RemoveSets(base) => RemoveByBaseKeeps(b.policy.sets, 0, base);
      case RemoveUserAcls(name) => RemoveUserKeeps(b.policy.sets, name);
    }
  }

  /** An entry with an id of its own, in every set on a base. */
  lemma NewEntryKeeps(sets: seq<AclSet>, roles: Roles, base: Dn, x: Acl)
    requires x.id !in UsedIds(sets, roles)
    ensures var q := AddToAll(sets, base, x);
      && (PlainBases(sets) ==> PlainBases(q)) && (AllSorted(sets) ==> AllSorted(q)) && (Tidy(sets) ==> Tidy(q))
  {
    AddToAllKeeps(sets, base, x);
    if Tidy(sets) {
      AddToAllIsFirst(sets, base, x);
      forall s, y | s in sets && y in s.acls
        ensures y.id != x.id
      {
        assert y.id in UsedIds(sets, roles);
      }
      AddToFirstKeeps(sets, base, x);
    }
  }

  lemma AddedAclKeeps(topic: string, b: Snapshot, c: Command, a: Snapshot, reply: Reply)
    requires c.AddAcl? && AddsAcl(topic, b, c, a, reply)
    ensures Keeps(b.policy, c, a.policy)
  {
    var p := b.policy;
    OpenedKeeps(p.sets, c.base, p.root);
    if reply.NewId? {
      NewEntryKeeps(Opened(p.sets, c.base, p.root), p.roles, c.base,
                    NewEntry(a.next, c.priority, c.members, c.actions, c.scope, c.name));
    }
  }

  lemma UpdatedAtKeeps(b: Snapshot, place: Position, c: Command, a: Snapshot, reply: Reply)
    requires c.UpdateAcl? && place.i < |b.policy.sets| && place.k < |b.policy.sets[place.i].acls|
    requires UpdatesAt(b, place, c.ch, a, reply)
    ensures Keeps(b.policy, c, a.policy)
  {
    var p := b.policy;
    ReplaceAtKeeps(p.sets, place.i, place.k, Updated(p.sets[place.i].acls[place.k], p.roles, c.ch).0);
    if AllSorted(p.sets) {
      UpdateKeepsSortedIff(p.sets, place.i, place.k, p.roles, c.ch);
    }
  }

  lemma UpdatedAclKeeps(topic: string, b: Snapshot, c: Command, a: Snapshot, reply: Reply)
    requires c.UpdateAcl? && UpdatesAcl(topic, b, c, a, reply)
    ensures Keeps(b.policy, c, a.policy)
  {
    var places := Positions(b.policy.sets, c.id);
    if a.policy != b.policy {
      assert places[|places| - 1] in places;
      UpdatedAtKeeps(b, places[|places| - 1], c, a, reply);
    }
  }

  lemma RemovedAclKeeps(topic: string, b: Snapshot, c: Command, a: Snapshot, reply: Reply)
    requires c.RemoveAcl? && RemovesAcl(topic, b, c, a, reply)
    ensures Keeps(b.policy, c, a.policy)
  {
    var places := Positions(b.policy.sets, c.id);
    if places != [] {
      assert places[0] in places;
      AfterRemovalKeeps(b.policy.sets, places[0].i, places[0].k);
    }
  }

  /** Calls on the roles. */
  lemma RoleStepKeeps(topic: string, b: Snapshot, c: Command, a: Snapshot, reply: Reply)
    requires Performed(topic, b, c, a, reply)
    requires c.AddToRole? || c.AddRole? || c.RemoveRole? || c.AddAclRole? || c.AddAclToRole?
    ensures Keeps(b.policy, c, a.policy)
  {
    var roles := b.policy.roles;
    if RolesSorted(roles) {
      var x := if c.AddToRole? then c.a
               else if c.AddAclToRole? then NewEntry(a.next, c.priority, [], c.actions, c.scope, c.useRole)
               else Acl(0, None, [], false, "", None, []);
      RoleChangesKeepSorted(roles, c.name, x, 0, if c.AddRole? then c.entries else []);
    }
  }

  /** Calls on one entry of some role. */
  lemma RoleEntryStepKeeps(topic: string, b: Snapshot, c: Command, a: Snapshot, reply: Reply)
    requires Performed(topic, b, c, a, reply) && (c.UpdateAclRole? || c.RemoveRoleAcl?)
    ensures Keeps(b.policy, c, a.policy)
  {
    var roles := b.policy.roles;
    if RolesSorted(roles) && a.policy != b.policy && KeepsOrder(c) {
      if c.UpdateAclRole? {
        var n: string, k: nat :| FirstInRole(roles, n, k, c.id) && UpdatesEntry(b, n, k, RoleChanges(c), a, reply);
        UpdateKeepsRolesSortedIff(roles, n, k, RoleChanges(c));
      } else {
        var n: string, k: nat :| FirstInRole(roles, n, k, c.id)
                                 && RolesBecome(b, a, roles[n := RemoveAt(roles[n], k)]);
        RoleChangesKeepSorted(roles, n, roles[n][k], k, []);
      }
    }
  }

  /** Every call keeps bases plain, and all but the named ones keep the lists in order. */
  lemma StepKeeps(topic: string, b: Snapshot, c: Command, a: Snapshot, reply: Reply)
    requires Performed(topic, b, c, a, reply)
    ensures Keeps(b.policy, c, a.policy)
  {
    match c {
      case Ask(query) =>
      case AddAcl(_, _, _, _, _, _, _) => AddedAclKeeps(topic, b, c, a, reply);
      case UpdateAcl(_, _, _) => UpdatedAclKeeps(topic, b, c, a, reply);
      case RemoveAcl(_, _) => RemovedAclKeeps(topic, b, c, a, reply);
      case UpdateAclRole(_, _, _, _, _, _) => RoleEntryStepKeeps(topic, b, c, a, reply);
      case RemoveRoleAcl(_, _) => RoleEntryStepKeeps(topic, b, c, a, reply);
      case AddSet(_) => SetStepKeeps(topic, b, c, a, reply);
      case AddToSet(_, _) => SetStepKeeps(topic, b, c, a, reply);
      case AddToBase(_, _) => SetStepKeeps(topic, b, c, a, reply);
      case RemoveSets(_) => SetStepKeeps(topic, b, c, a, reply);
      case RemoveUserAcls(_) => SetStepKeeps(topic, b, c, a, reply);
      case _ => RoleStepKeeps(topic, b, c, a, reply);
    }
  }
}
