/** Whole runs of the resolver: questions, mutators and commands in any order. The memo cannot be noticed. */
module AclRuns {
  import opened Names
  import opened Wrappers
  import opened AclModel
  import opened AclDecision
  import opened AclRoles
  import opened AclMemo
  import opened AclLists
  import opened AclChanges
  import opened AclResolver
  import opened AclSteps

  ghost function Snap(r: ACLResolver): Snapshot
    reads r
  {
    Snapshot(r.Current(), r.nextAclId, r.memo, r.asked)
  }

  ghost predicate IsSettled(r: ACLResolver)
    reads r
  {
    Settled(Snap(r), r.aclTopic)
  }

  /** In a settled resolver, a plain user is refused exactly what the decision refuses. */
  lemma RefusalsAreRight(r: ACLResolver, user: Option<string>, base: Dn)
    requires IsSettled(r) && PlainUser(user) && PlainBase(base)
    ensures r.PlainPermission(user, base)
    ensures r.Refusal(user, base) == Refused(r.Current(), r.aclTopic, user, base)
  {
    MemoIsRight(r.Current(), r.aclTopic, r.memo, r.asked, user, base);
  }

  lemma RefusalsForEntries(r: ACLResolver, user: Option<string>, id: int)
    requires IsSettled(r) && PlainUser(user)
    ensures r.PlainPermissions(user)
    ensures var bases := BasesOf(r.sets, Positions(r.sets, id));
      AskEach(r.Current(), r.aclTopic, r.memo, user, bases) == FirstRefusal(r.Current(), r.aclTopic, user, bases)
  {
    BasesFrom(r.sets, Positions(r.sets, id));
    MemoIsRightEach(r.Current(), r.aclTopic, r.memo, r.asked, user, BasesOf(r.sets, Positions(r.sets, id)));
  }

  // ----- one step -----

  method PerformAsk(r: ACLResolver, c: Command) returns (reply: Reply)
    requires IsSettled(r) && PlainCommand(c) && c.Ask?
    modifies r
    ensures Performed(r.aclTopic, old(Snap(r)), c, Snap(r), reply)
    ensures r.Coherent() && r.AllPlain()
  {
    var answer := r.Check(c.query);
    reply := Answer(answer);
  }

  method PerformOnSets(r: ACLResolver, c: Command) returns (reply: Reply)
    requires IsSettled(r) && PlainCommand(c)
    requires c.AddSet? || c.AddToSet? || c.AddToBase? || c.RemoveSets? || c.RemoveUserAcls?
    modifies r
    ensures Performed(r.aclTopic, old(Snap(r)), c, Snap(r), reply)
    ensures r.Coherent() && r.AllPlain()
  {
    reply := Done;
    match c {
      case AddSet(s) =>
        r.AddAclSet(s);
      case AddToSet(base, a) =>
        var e := r.AddAclToSet(base, a);
        reply := ReplyOf(e);
      case AddToBase(base, a) =>
        r.AddAclToBase(base, a);
      case RemoveSets(base) =>
        if !HasBase(r.sets, base) {
          NothingLeftToRemove(r.sets, 0, base);
        }
        var e := r.RemoveAclSetByBase(base);
        reply := ReplyOf(e);
      case RemoveUserAcls(name) =>
        r.RemoveAclsForUser(name);
    }
  }

  /** A search that goes round a cycle is cut off by the interpreter at whatever depth, and nothing has changed. */
  method PerformOnRoles(r: ACLResolver, c: Command) returns (reply: Reply)
    requires IsSettled(r) && PlainCommand(c) && (c.AddToRole? || c.AddRole? || c.RemoveRole?)
    modifies r
    ensures Performed(r.aclTopic, old(Snap(r)), c, Snap(r), reply)
    ensures r.Coherent() && r.AllPlain()
  {
    reply := Done;
    match c {
      case AddToRole(name, a) =>
        var e := r.AddAclToRole(name, a);
        reply := ReplyOf(e);
      case AddRole(name, entries) =>
        r.AddAclRole(name, entries);
      case RemoveRole(name) =>
        if name in r.roles && SeekInSets(r.Current(), name).Endless? { return Failed(EndlessSearch); }
        var e := r.RemoveRole(name);
        reply := ReplyOf(e);
    }
  }

  method PerformAddAcl(r: ACLResolver, c: Command) returns (reply: Reply)
    requires IsSettled(r) && PlainCommand(c) && c.AddAcl?
    modifies r
    ensures Performed(r.aclTopic, old(Snap(r)), c, Snap(r), reply)
    ensures r.Coherent() && r.AllPlain()
  {
    RefusalsAreRight(r, c.user, c.base);
    var e := r.AddACL(c.user, c.base, c.priority, c.members, c.actions, c.scope, c.name);
    reply := ReplyWithId(e);
  }

  method PerformUpdateAcl(r: ACLResolver, c: Command) returns (reply: Reply)
    requires IsSettled(r) && PlainCommand(c) && c.UpdateAcl?
    modifies r
    ensures Performed(r.aclTopic, old(Snap(r)), c, Snap(r), reply)
    ensures !reply.BrokeOff? ==> r.Coherent() && r.AllPlain()
  {
    RefusalsForEntries(r, c.user, c.id);
    var e, late := r.UpdateACL(c.user, c.id, c.ch);
    reply := if late && e.Some? then BrokeOff(e.value) else ReplyOf(e);
  }

  method PerformRemoveAcl(r: ACLResolver, c: Command) returns (reply: Reply)
    requires IsSettled(r) && PlainCommand(c) && c.RemoveAcl?
    modifies r
    ensures Performed(r.aclTopic, old(Snap(r)), c, Snap(r), reply)
    ensures r.Coherent() && r.AllPlain()
  {
    RefusalsForEntries(r, c.user, c.id);
    ghost var places := Positions(r.sets, c.id);
    if places != [] {
      assert places[0] in places && r.sets[places[0].i] in r.sets;
      RefusalsAreRight(r, c.user, r.sets[places[0].i].base);
    }
    var e := r.RemoveACL(c.user, c.id);
    reply := ReplyOf(e);
  }

  method PerformAddAclRole(r: ACLResolver, c: Command) returns (reply: Reply)
    requires IsSettled(r) && PlainCommand(c) && c.AddAclRole?
    modifies r
    ensures Performed(r.aclTopic, old(Snap(r)), c, Snap(r), reply)
    ensures r.Coherent() && r.AllPlain()
  {
    RefusalsAreRight(r, c.user, r.root);
    var e := r.AddACLRole(c.user, c.name);
    reply := ReplyOf(e);
  }

  method PerformAddAclToRole(r: ACLResolver, c: Command) returns (reply: Reply)
    requires IsSettled(r) && PlainCommand(c) && c.AddAclToRole?
    modifies r
    ensures Performed(r.aclTopic, old(Snap(r)), c, Snap(r), reply)
    ensures r.Coherent() && r.AllPlain()
  {
    RefusalsAreRight(r, c.user, r.root);
    var e := r.AddACLToRole(c.user, c.name, c.priority, c.actions, c.scope, c.useRole);
    reply := ReplyWithId(e);
  }

  method PerformRemoveRoleAcl(r: ACLResolver, c: Command) returns (reply: Reply)
    requires IsSettled(r) && PlainCommand(c) && c.RemoveRoleAcl?
    modifies r
    ensures Performed(r.aclTopic, old(Snap(r)), c, Snap(r), reply)
    ensures r.Coherent() && r.AllPlain()
  {
    RefusalsAreRight(r, c.user, r.root);
    var e := r.RemoveRoleACL(c.user, c.id);
    reply := ReplyOf(e);
  }

  method PerformUpdateAclRole(r: ACLResolver, c: Command) returns (reply: Reply)
    requires IsSettled(r) && PlainCommand(c) && c.UpdateAclRole?
    modifies r
    ensures Performed(r.aclTopic, old(Snap(r)), c, Snap(r), reply)
    ensures !reply.BrokeOff? ==> r.Coherent() && r.AllPlain()
  {
    RefusalsAreRight(r, c.user, r.root);
    var e, late := r.UpdateACLRole(c.user, c.id, RoleChanges(c));
    reply := if late && e.Some? then BrokeOff(e.value) else ReplyOf(e);
  }

  /** Each call does and replies what it should by the policy alone, and leaves the resolver settled unless it is an
      update that breaks off. */
  method Perform(r: ACLResolver, c: Command) returns (reply: Reply)
    requires IsSettled(r) && PlainCommand(c)
    modifies r
    ensures Performed(r.aclTopic, old(Snap(r)), c, Snap(r), reply)
    ensures !reply.BrokeOff? ==> IsSettled(r)
    ensures old(Orderly(r.Current())) && KeepsOrder(c) ==> Orderly(r.Current())
  {
    ghost var before := Snap(r);
    if c.Ask? {
      reply := PerformAsk(r, c);
    } else if c.AddToRole? || c.AddRole? || c.RemoveRole? {
      reply := PerformOnRoles(r, c);
    } else if c.AddAcl? {
      reply := PerformAddAcl(r, c);
    } else if c.UpdateAcl? {
      reply := PerformUpdateAcl(r, c);
    } else if c.RemoveAcl? {
      reply := PerformRemoveAcl(r, c);
    } else if c.UpdateAclRole? {
      reply := PerformUpdateAclRole(r, c);
    } else if c.AddAclRole? {
      reply := PerformAddAclRole(r, c);
    } else if c.AddAclToRole? {
      reply := PerformAddAclToRole(r, c);
    } else if c.RemoveRoleAcl? {
      reply := PerformRemoveRoleAcl(r, c);
    } else {
      reply := PerformOnSets(r, c);
    }
    StepKeeps(r.aclTopic, before, c, Snap(r), reply);
  }

  // ----- runs -----

  /** A run through these states, with these replies. */
  ghost predicate IsRun(topic: string, states: seq<Snapshot>, cs: seq<Command>, replies: seq<Reply>) {
    && |states| == |replies| + 1 && |replies| <= |cs|
    && forall i :: 0 <= i < |replies| ==> Performed(topic, states[i], cs[i], states[i + 1], replies[i])
  }

  /** One more call. */
  lemma RunGoesOn(topic: string, states: seq<Snapshot>, cs: seq<Command>, replies: seq<Reply>, s: Snapshot,
                  reply: Reply)
    requires IsRun(topic, states, cs, replies) && |replies| < |cs|
    requires Performed(topic, states[|replies|], cs[|replies|], s, reply)
    ensures IsRun(topic, states + [s], cs, replies + [reply])
  {
  }

  /** The last call is an update that breaks off. */
  predicate EndsLate(replies: seq<Reply>) {
    replies != [] && replies[|replies| - 1].BrokeOff?
  }

  /** Performs the calls in order, up to an update that breaks off in the middle. */
  method Run(r: ACLResolver, cs: seq<Command>) returns (replies: seq<Reply>, ghost states: seq<Snapshot>)
    requires IsSettled(r) && forall c :: c in cs ==> PlainCommand(c)
    modifies r
    ensures IsRun(r.aclTopic, states, cs, replies)
    ensures states[0] == old(Snap(r)) && states[|replies|] == Snap(r)
    ensures |replies| == |cs| || EndsLate(replies)
    ensures forall i :: 0 <= i < |replies| - 1 ==> !replies[i].BrokeOff?
    ensures forall i :: 0 <= i < |replies| ==> Settled(states[i], r.aclTopic)
    ensures IsSettled(r) || EndsLate(replies)
    ensures old(Orderly(r.Current())) && (forall c :: c in cs ==> KeepsOrder(c)) ==>
              forall i :: 0 <= i < |states| ==> Orderly(states[i].policy)
  {
    replies, states := [], [Snap(r)];
    for i := 0 to |cs|
      invariant |replies| == i && IsRun(r.aclTopic, states, cs, replies)
      invariant states[0] == old(Snap(r)) && states[i] == Snap(r)
      invariant forall j :: 0 <= j < |replies| ==> !replies[j].BrokeOff?
      invariant forall j :: 0 <= j < |states| ==> Settled(states[j], r.aclTopic)
      invariant old(Orderly(r.Current())) && (forall c :: c in cs ==> KeepsOrder(c)) ==>
                  forall j :: 0 <= j < |states| ==> Orderly(states[j].policy)
    {
      assert cs[i] in cs;
      var reply := Perform(r, cs[i]);
      RunGoesOn(r.aclTopic, states, cs, replies, Snap(r), reply);
      replies, states := replies + [reply], states + [Snap(r)];
      if reply.BrokeOff? { return; }
    }
  }

  /** After every run that does not end in an update that breaks off, the memo answers every plain query with the
      decision on the policy that the calls have led to. */
  method AskAfterRun(r: ACLResolver, cs: seq<Command>, query: Query)
    returns (replies: seq<Reply>, ghost states: seq<Snapshot>, answer: Result<bool, Verdict>)
    requires IsSettled(r) && Plain(query) && forall c :: c in cs ==> PlainCommand(c)
    modifies r
    ensures IsRun(r.aclTopic, states, cs, replies) && states[0] == old(Snap(r))
    ensures |replies| == |cs| || EndsLate(replies)
    ensures !EndsLate(replies) ==> answer == Decide(states[|cs|].policy, query)
  {
    replies, states := Run(r, cs);
    answer := Success(false);
    if !EndsLate(replies) {
      answer := r.Check(query);
    }
  }
}
