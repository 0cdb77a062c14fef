/** ACL entries, roles that refer to roles, and how one entry is matched (`ACL.match`). */
module AclModel {
  import opened Names
  import opened Wrappers

  datatype Scope = ONE | SUB | PSUB | RESET

  /** A topic pattern and the rights it gives, without options. */
  datatype Action = Action(topic: string, acls: string)

  /** An ACL or a role entry. One that uses a role keeps whatever scope it had before. */
  datatype Acl = Acl(id: int, priority: Option<int>, members: seq<string>,
                     usesRole: bool, role: string, scope: Option<Scope>, actions: seq<Action>)

  type Roles = map<string, seq<Acl>>

  /** `re.match` and the index lookups. */
  datatype World = World(
    matches: (string, string) -> bool,
    managers: Dn -> seq<string>,
    owner: Dn -> Option<string>)

  datatype Request = Request(user: string, topic: string, acls: string, target: Dn)

  datatype Verdict =
    | Match(scope: Option<Scope>)
    | NoMatch
    | Loop(role: string)     // ACL_LOOP
    | NoRole(role: string)   // KeyError: the role does not exist

  predicate Raises(v: Verdict) {
    v.Loop? || v.NoRole?
  }

  /** The rights 'o' and 'm' replace the members by the owner and the managers of the target. */
  function Applicable(w: World, target: Dn, act: Action, users: seq<string>): seq<string> {
    if 'o' in act.acls || 'm' in act.acls then
      (if 'm' in act.acls then w.managers(target) else []) +
      (if 'o' in act.acls && w.owner(target).Some? then [w.owner(target).value] else [])
    else users
  }

  predicate ActionGrants(w: World, q: Request, act: Action, users: seq<string>) {
    && (exists u | u in Applicable(w, q.target, act, users) :: w.matches(u, q.user))
    && w.matches(act.topic, q.topic)
    && forall c | c in q.acls :: c in act.acls
  }

  function Users(acl: Acl, override: seq<string>): seq<string> {
    if override != [] then override else acl.members
  }

  /** Some action of an entry that uses no role grants the request. */
  predicate Grants(w: World, q: Request, acl: Acl, users: seq<string>) {
    exists act | act in acl.actions :: ActionGrants(w, q, act, users)
  }

  /** The members a role's entries are checked against. */
  function Inherited(acl: Acl, override: seq<string>): seq<string> {
    if override != [] then override + acl.members else acl.members
  }

  ghost function Unused(roles: Roles, used: seq<string>): set<string> {
    roles.Keys - set r | r in used
  }

  /** `match`, with the list of used roles before and after; it ends on every role graph
      because a role is entered only while it is unused. */
  function MatchAcl(w: World, roles: Roles, q: Request, acl: Acl, used: seq<string>, override: seq<string>)
    : (r: (Verdict, seq<string>))
    ensures used <= r.1
    decreases Unused(roles, used), 0
  {
    if acl.usesRole then
      if acl.role in used then (Loop(acl.role), used)
      else if acl.role !in roles then (NoRole(acl.role), used + [acl.role])
      else
        assert acl.role in Unused(roles, used) && acl.role !in Unused(roles, used + [acl.role]);
        assert Unused(roles, used + [acl.role]) <= Unused(roles, used);
        MatchEntries(w, roles, q, roles[acl.role], used + [acl.role], Inherited(acl, override))
    else if Grants(w, q, acl, Users(acl, override)) then (Match(acl.scope), used)
    else (NoMatch, used)
  }

  function MatchEntries(w: World, roles: Roles, q: Request, entries: seq<Acl>, used: seq<string>,
                        override: seq<string>)
    : (r: (Verdict, seq<string>))
    ensures used <= r.1
    decreases Unused(roles, used), |entries|
  {
    if entries == [] then (NoMatch, used)
    else
      var (v, u) := MatchAcl(w, roles, q, entries[0], used, override);
      if !v.NoMatch? then (v, u)
      else
        assert Unused(roles, u) <= Unused(roles, used);
        MatchEntries(w, roles, q, entries[1..], u, override)
  }

  /** The list `used_roles`, shared by all recursive calls. */
  class RoleLog {
    var names: seq<string>

    constructor ()
      ensures names == []
    {
      names := [];
    }
  }

  method UserMatches(w: World, users: seq<string>, user: string) returns (b: bool)
    ensures b <==> exists u | u in users :: w.matches(u, user)
  {
    for i := 0 to |users|
      invariant forall j :: 0 <= j < i ==> !w.matches(users[j], user)
    {
      if w.matches(users[i], user) {
        assert users[i] in users;
        return true;
      }
    }
    b := false;
  }

  method MatchDirect(w: World, q: Request, acl: Acl, override: seq<string>) returns (b: bool)
    ensures b <==> Grants(w, q, acl, Users(acl, override))
  {
    var i := 0;
    while i < |acl.actions|
      invariant 0 <= i <= |acl.actions|
      invariant forall j :: 0 <= j < i ==> !ActionGrants(w, q, acl.actions[j], Users(acl, override))
    {
      var act := acl.actions[i];
      i := i + 1;
      var users := override;
      if users == [] { users := acl.members; }
      if 'o' in act.acls || 'm' in act.acls {
        users := [];
        if 'm' in act.acls { users := w.managers(q.target); }
        if 'o' in act.acls && w.owner(q.target).Some? { users := users + [w.owner(q.target).value]; }
      }
      assert users == Applicable(w, q.target, act, Users(acl, override));
      var userMatch := UserMatches(w, users, q.user);
      if !userMatch { continue; }
      if !w.matches(act.topic, q.topic) { continue; }
      if exists c | c in q.acls :: c !in act.acls { continue; }
      assert act in acl.actions && ActionGrants(w, q, act, Users(acl, override));
      return true;
    }
    b := false;
  }

  method MatchImpl(w: World, roles: Roles, q: Request, acl: Acl, used: RoleLog, override: seq<string>)
    returns (v: Verdict)
    modifies used
    ensures (v, used.names) == MatchAcl(w, roles, q, acl, old(used.names), override)
    decreases Unused(roles, used.names)
  {
    if acl.usesRole {
      var users := if override != [] then override + acl.members else acl.members;
      if acl.role in used.names { return Loop(acl.role); }
      assert acl.role in roles ==> acl.role in Unused(roles, used.names);
      used.names := used.names + [acl.role];
      if acl.role !in roles { return NoRole(acl.role); }
      var entries := roles[acl.role];
      ghost var start := used.names;
      for i := 0 to |entries|
        invariant start <= used.names
        invariant MatchEntries(w, roles, q, entries[i..], used.names, users)
               == MatchEntries(w, roles, q, entries, start, users)
      {
        assert entries[i..][0] == entries[i] && entries[i..][1..] == entries[i + 1..];
        assert Unused(roles, used.names) <= Unused(roles, start) < Unused(roles, old(used.names));
        var m := MatchImpl(w, roles, q, entries[i], used, users);
        if !m.NoMatch? { return m; }
      }
      return NoMatch;
    } else {
      var b := MatchDirect(w, q, acl, override);
      return if b then Match(acl.scope) else NoMatch;
    }
  }

  // ----- what a match depends on -----

  /** A match reports a loop only on a role it has entered before; it enters no role twice. */
  lemma {:induction false} LoopMeansReentry(w: World, roles: Roles, q: Request, acl: Acl, used: seq<string>,
                                            override: seq<string>)
    requires NoRepeats(used)
    ensures var (v, u) := MatchAcl(w, roles, q, acl, used, override);
      NoRepeats(u) && (v.Loop? ==> v.role in u) && (v.NoRole? ==> v.role !in roles)
    decreases Unused(roles, used), 0
  {
    if acl.usesRole && acl.role !in used && acl.role in roles {
      assert acl.role in Unused(roles, used) && acl.role !in Unused(roles, used + [acl.role]);
      EntriesEnterOnce(w, roles, q, roles[acl.role], used + [acl.role], Inherited(acl, override));
    }
  }

  lemma {:induction false} EntriesEnterOnce(w: World, roles: Roles, q: Request, entries: seq<Acl>, used: seq<string>,
                                            override: seq<string>)
    requires NoRepeats(used)
    ensures var (v, u) := MatchEntries(w, roles, q, entries, used, override);
      NoRepeats(u) && (v.Loop? ==> v.role in u) && (v.NoRole? ==> v.role !in roles)
    decreases Unused(roles, used), |entries|
  {
    if entries != [] {
      LoopMeansReentry(w, roles, q, entries[0], used, override);
      var (v, u) := MatchAcl(w, roles, q, entries[0], used, override);
      if v.NoMatch? {
        EntriesEnterOnce(w, roles, q, entries[1..], u, override);
      }
    }
  }

  ghost predicate NoRepeats(s: seq<string>) {
    forall i, j :: 0 <= i < j < |s| ==> s[i] != s[j]
  }

  // ----- the depth-first unfolding of a role graph -----

  /** The unfolding meets a role, or an entry with the users it applies to. */
  datatype Event = Enter(role: string) | Try(acl: Acl, users: seq<string>)

  /** The entries behind an ACL in depth-first order, with the roles entered before and after. A role that is met
      again, or does not exist, is not unfolded: matching raises there. */
  ghost function Unfold(roles: Roles, acl: Acl, used: seq<string>, override: seq<string>)
    : (r: (seq<Event>, seq<string>))
    ensures used <= r.1
    decreases Unused(roles, used), 0
  {
    if !acl.usesRole then ([Try(acl, Users(acl, override))], used)
    else if acl.role in used || acl.role !in roles then ([Enter(acl.role)], used)
    else
      assert acl.role in Unused(roles, used) && acl.role !in Unused(roles, used + [acl.role]);
      assert Unused(roles, used + [acl.role]) <= Unused(roles, used);
      var (es, u) := UnfoldEntries(roles, roles[acl.role], used + [acl.role], Inherited(acl, override));
      ([Enter(acl.role)] + es, u)
  }

  ghost function UnfoldEntries(roles: Roles, entries: seq<Acl>, used: seq<string>, override: seq<string>)
    : (r: (seq<Event>, seq<string>))
    ensures used <= r.1
    decreases Unused(roles, used), |entries| + 1
  {
    if entries == [] then ([], used)
    else
      var (es, u) := Unfold(roles, entries[0], used, override);
      assert Unused(roles, u) <= Unused(roles, used);
      var (rest, v) := UnfoldEntries(roles, entries[1..], u, override);
      (es + rest, v)
  }

  /** First match along the events, stopping where a role is met again or is missing. */
  ghost function Scan(w: World, roles: Roles, q: Request, es: seq<Event>, used: seq<string>): (Verdict, seq<string>) {
    if es == [] then (NoMatch, used)
    else match es[0]
      case Enter(role) =>
        if role in used then (Loop(role), used)
        else if role !in roles then (NoRole(role), used + [role])
        else Scan(w, roles, q, es[1..], used + [role])
      case Try(acl, users) =>
        if Grants(w, q, acl, users) then (Match(acl.scope), used) else Scan(w, roles, q, es[1..], used)
  }

  lemma {:induction false} ScanConcat(w: World, roles: Roles, q: Request, a: seq<Event>, b: seq<Event>,
                                      used: seq<string>)
    ensures var (v, u) := Scan(w, roles, q, a, used);
      Scan(w, roles, q, a + b, used) == if v.NoMatch? then Scan(w, roles, q, b, u) else (v, u)
    decreases a
  {
    if a == [] {
      assert a + b == b;
    } else {
      assert (a + b)[0] == a[0] && (a + b)[1..] == a[1..] + b;
      match a[0]
      case Enter(role) =>
        if role !in used && role in roles { ScanConcat(w, roles, q, a[1..], b, used + [role]); }
      case Try(acl, users) =>
        ScanConcat(w, roles, q, a[1..], b, used);
    }
  }

  /** On every role graph, `match` is the scan of the unfolding. */
  lemma {:induction false} MatchIsScan(w: World, roles: Roles, q: Request, acl: Acl, used: seq<string>,
                                       override: seq<string>)
    ensures var (es, u) := Unfold(roles, acl, used, override);
      && MatchAcl(w, roles, q, acl, used, override) == Scan(w, roles, q, es, used)
      && (Scan(w, roles, q, es, used).0.NoMatch? ==> Scan(w, roles, q, es, used).1 == u)
    decreases Unused(roles, used), 0
  {
    if acl.usesRole && acl.role !in used && acl.role in roles {
      var inner := used + [acl.role];
      assert acl.role in Unused(roles, used) && acl.role !in Unused(roles, inner);
      assert Unused(roles, inner) <= Unused(roles, used);
      EntriesAreScan(w, roles, q, roles[acl.role], inner, Inherited(acl, override));
      var rest := UnfoldEntries(roles, roles[acl.role], inner, Inherited(acl, override)).0;
      assert ([Enter(acl.role)] + rest)[1..] == rest;
    }
  }

  lemma {:induction false} EntriesAreScan(w: World, roles: Roles, q: Request, entries: seq<Acl>, used: seq<string>,
                                          override: seq<string>)
    ensures var (es, u) := UnfoldEntries(roles, entries, used, override);
      && MatchEntries(w, roles, q, entries, used, override) == Scan(w, roles, q, es, used)
      && (Scan(w, roles, q, es, used).0.NoMatch? ==> Scan(w, roles, q, es, used).1 == u)
    decreases Unused(roles, used), |entries| + 1
  {
    if entries != [] {
      var (first, u) := Unfold(roles, entries[0], used, override);
      assert Unused(roles, u) <= Unused(roles, used);
      ScanConcat(w, roles, q, first, UnfoldEntries(roles, entries[1..], u, override).0, used);
      MatchIsScan(w, roles, q, entries[0], used, override);
      EntriesAreScan(w, roles, q, entries[1..], u, override);
    }
  }

  /** Position `i` meets a role that is in `used` or was met before. */
  ghost predicate Reenters(es: seq<Event>, i: int, used: seq<string>) {
    0 <= i < |es| && es[i].Enter? && (es[i].role in used || es[i] in es[..i])
  }

  /** Position `i` meets a role that does not exist. */
  ghost predicate Dangles(roles: Roles, es: seq<Event>, i: int) {
    0 <= i < |es| && es[i].Enter? && es[i].role !in roles
  }

  ghost predicate GrantsAt(w: World, q: Request, es: seq<Event>, i: int) {
    0 <= i < |es| && es[i].Try? && Grants(w, q, es[i].acl, es[i].users)
  }

  /** A position that decides: an entry that grants, a role entered for the second time, or a missing role. */
  ghost predicate Decides(w: World, roles: Roles, q: Request, es: seq<Event>, i: int, used: seq<string>) {
    GrantsAt(w, q, es, i) || Reenters(es, i, used) || Dangles(roles, es, i)
  }

  ghost predicate DecidesFirst(w: World, roles: Roles, q: Request, es: seq<Event>, i: int, used: seq<string>) {
    Decides(w, roles, q, es, i, used) && forall j :: j < i ==> !Decides(w, roles, q, es, j, used)
  }

  /** The verdict of the position that decides. */
  ghost function VerdictAt(es: seq<Event>, i: int, used: seq<string>): Verdict
    requires 0 <= i < |es|
  {
    match es[i]
    case Try(acl, _) => Match(acl.scope)
    case Enter(role) => if Reenters(es, i, used) then Loop(role) else NoRole(role)
  }

  lemma {:induction false} ScanMeaning(w: World, roles: Roles, q: Request, es: seq<Event>, used: seq<string>)
    ensures forall i :: DecidesFirst(w, roles, q, es, i, used) ==>
              Scan(w, roles, q, es, used).0 == VerdictAt(es, i, used)
    ensures (forall i :: !Decides(w, roles, q, es, i, used)) ==> Scan(w, roles, q, es, used).0 == NoMatch
    decreases es
  {
    if es != [] && !Decides(w, roles, q, es, 0, used) {
      var rest := es[1..];
      var used' := if es[0].Enter? then used + [es[0].role] else used;
      ScanMeaning(w, roles, q, rest, used');
      forall i ensures Decides(w, roles, q, es, i + 1, used) <==> Decides(w, roles, q, rest, i, used')
               ensures 0 <= i < |rest| ==> VerdictAt(es, i + 1, used) == VerdictAt(rest, i, used') {
        DecidesShift(w, roles, q, es, i, used);
      }
      forall i | DecidesFirst(w, roles, q, es, i, used)
        ensures DecidesFirst(w, roles, q, rest, i - 1, used')
        ensures VerdictAt(es, i, used) == VerdictAt(rest, i - 1, used') {
        assert Decides(w, roles, q, es, (i - 1) + 1, used);
        assert VerdictAt(es, (i - 1) + 1, used) == VerdictAt(rest, i - 1, used');
        forall j | j < i - 1 ensures !Decides(w, roles, q, rest, j, used') {
          assert !Decides(w, roles, q, es, j + 1, used);
        }
      }
    }
  }

  lemma DecidesShift(w: World, roles: Roles, q: Request, es: seq<Event>, i: int, used: seq<string>)
    requires es != [] && !Decides(w, roles, q, es, 0, used)
    ensures var used' := if es[0].Enter? then used + [es[0].role] else used;
      && (Reenters(es, i + 1, used) <==> Reenters(es[1..], i, used'))
      && (Decides(w, roles, q, es, i + 1, used) <==> Decides(w, roles, q, es[1..], i, used'))
  {
    if 0 <= i < |es| - 1 {
      assert es[i + 1] == es[1..][i];
      assert es[..i + 1] == [es[0]] + es[1..][..i];
    }
  }

  /** `match` of an ACL on any role graph: the first entry of the unfolding that grants the request, unless a role
      is entered for the second time, or a missing one is named, before it. */
  lemma MatchMeaning(w: World, roles: Roles, q: Request, acl: Acl)
    ensures var es, v := Unfold(roles, acl, [], []).0, MatchAcl(w, roles, q, acl, [], []).0;
      && (forall i :: DecidesFirst(w, roles, q, es, i, []) ==> v == VerdictAt(es, i, []))
      && ((forall i :: !Decides(w, roles, q, es, i, [])) ==> v == NoMatch)
  {
    MatchIsScan(w, roles, q, acl, [], []);
    ScanMeaning(w, roles, q, Unfold(roles, acl, [], []).0, []);
  }

  ghost predicate NoMembers(roles: Roles) {
    forall r, e :: r in roles && e in roles[r] ==> e.members == []
  }

  /** Role entries have no members of their own, so every entry is tried with the members of the ACL itself. */
  lemma {:induction false} EntriesUseOuterMembers(roles: Roles, acl: Acl, used: seq<string>, override: seq<string>)
    requires NoMembers(roles) && (override == [] || acl.members == [])
    ensures forall ev :: ev in Unfold(roles, acl, used, override).0 && ev.Try? ==>
              ev.users == Inherited(acl, override)
    decreases Unused(roles, used), 0
  {
    if acl.usesRole && acl.role !in used && acl.role in roles {
      var inner := used + [acl.role];
      assert acl.role in Unused(roles, used) && acl.role !in Unused(roles, inner);
      assert Unused(roles, inner) <= Unused(roles, used);
      RoleUsesOuterMembers(roles, roles[acl.role], inner, Inherited(acl, override));
    }
  }

  lemma {:induction false} RoleUsesOuterMembers(roles: Roles, entries: seq<Acl>, used: seq<string>,
                                                users: seq<string>)
    requires NoMembers(roles) && forall e :: e in entries ==> e.members == []
    ensures forall ev :: ev in UnfoldEntries(roles, entries, used, users).0 && ev.Try? ==> ev.users == users
    decreases Unused(roles, used), |entries| + 1
  {
    if entries != [] {
      var u := Unfold(roles, entries[0], used, users).1;
      assert Unused(roles, u) <= Unused(roles, used);
      EntriesUseOuterMembers(roles, entries[0], used, users);
      RoleUsesOuterMembers(roles, entries[1..], u, users);
    }
  }
}
