/** The access decision: walking from the target DN up to the root (`ACLResolver.check`, without its memo). */
module AclDecision {
  import opened Names
  import opened Wrappers
  import opened AclModel

  datatype AclSet = AclSet(base: Dn, acls: seq<Acl>)

  /** Everything a decision depends on. */
  datatype Policy = Policy(root: Dn, sets: seq<AclSet>, roles: Roles, admins: seq<string>, world: World)

  /** The arguments of `check`; the user and the base may be None. */
  datatype Query = Query(user: Option<string>, topic: string, acls: string, base: Option<Dn>)

  ghost predicate OccursAt(base: Dn, root: Dn, i: int) {
    0 <= i && i + |root| <= |base| && base[i..i + |root|] == root
  }

  /** `root in base`, on RDNs. */
  ghost predicate Contains(base: Dn, root: Dn) {
    exists i :: OccursAt(base, root, i)
  }

  method IsContained(base: Dn, root: Dn) returns (b: bool)
    ensures b <==> Contains(base, root)
  {
    if |root| > |base| { return false; }
    for i := 0 to |base| - |root| + 1
      invariant forall j :: 0 <= j < i ==> !OccursAt(base, root, j)
    {
      if base[i..i + |root|] == root {
        assert OccursAt(base, root, i);
        return true;
      }
    }
    b := false;
  }

  /** An ACL met on the walk; `own` tells whether its set hangs on the target itself. */
  datatype Candidate = Candidate(acl: Acl, own: bool)

  function OfList(acls: seq<Acl>, own: bool): seq<Candidate> {
    seq(|acls|, i requires 0 <= i < |acls| => Candidate(acls[i], own))
  }

  function OfSet(s: AclSet, own: bool): seq<Candidate> {
    OfList(s.acls, own)
  }

  /** The ACLs of the sets on `base`, in set order and entry order. */
  function AtBase(sets: seq<AclSet>, base: Dn, own: bool): seq<Candidate> {
    if sets == [] then []
    else (if sets[0].base == base then OfSet(sets[0], own) else []) + AtBase(sets[1..], base, own)
  }

  /** The ACLs in walk order, from `base` upwards. */
  ghost function Walk(p: Policy, target: Dn, base: Dn): seq<Candidate> {
    if Contains(base, p.root) && base != [] then
      AtBase(p.sets, base, base == target) + Walk(p, target, base[1..])
    else []
  }

  /** The early-returning loop over the candidates. */
  function Fold(p: Policy, q: Request, cs: seq<Candidate>, reset: bool): Result<bool, Verdict> {
    if cs == [] then Success(false)
    else
      match MatchAcl(p.world, p.roles, q, cs[0].acl, [], []).0
      case NoMatch => Fold(p, q, cs[1..], reset)
      case Match(Some(RESET)) => Fold(p, q, cs[1..], true)
      case Match(Some(PSUB)) => Success(true)
      case Match(Some(SUB)) => if !reset then Success(true) else Fold(p, q, cs[1..], reset)
      case Match(Some(ONE)) => if cs[0].own && !reset then Success(true) else Fold(p, q, cs[1..], reset)
      case Match(None) => Fold(p, q, cs[1..], reset)
      case Loop(role) => Failure(Loop(role))
      case NoRole(role) => Failure(NoRole(role))
  }

  function Target(p: Policy, query: Query): Dn {
    if query.base.Some? && query.base.value != [] then query.base.value else p.root
  }

  /** The decision, or the exception it ends with. */
  ghost function Decide(p: Policy, query: Query): Result<bool, Verdict> {
    if query.user.None? || query.user.value in p.admins then Success(true)
    else
      var target := Target(p, query);
      Fold(p, Request(query.user.value, query.topic, query.acls, target), Walk(p, target, target), false)
  }

  // ----- the loops -----

  /** The loop over one set. `stop` tells that the decision was taken in it. */
  method CheckSet(p: Policy, q: Request, s: AclSet, own: bool, ghost rest: seq<Candidate>, before: bool)
    returns (stop: bool, r: Result<bool, Verdict>, reset: bool)
    ensures stop ==> Fold(p, q, OfSet(s, own) + rest, before) == r
    ensures !stop ==> Fold(p, q, OfSet(s, own) + rest, before) == Fold(p, q, rest, reset)
  {
    reset := before;
    var i := 0;
    ghost var all := OfSet(s, own);
    assert all[0..] == all;
    while i < |s.acls|
      invariant 0 <= i <= |s.acls|
      invariant Fold(p, q, all + rest, before) == Fold(p, q, all[i..] + rest, reset)
    {
      var acl := s.acls[i];
      assert (all[i..] + rest)[0] == Candidate(acl, own) && (all[i..] + rest)[1..] == all[i + 1..] + rest;
      i := i + 1;
      var log := new RoleLog();
      var m := MatchImpl(p.world, p.roles, q, acl, log, []);
      if Raises(m) { return true, Failure(m), reset; }
      if m.Match? {
        if m.scope == Some(RESET) {
          reset := true;
        } else if m.scope == Some(PSUB) {
          return true, Success(true), reset;
        } else if m.scope == Some(SUB) {
          if !reset { return true, Success(true), reset; }
        } else if m.scope == Some(ONE) && own {
          if !reset { return true, Success(true), reset; }
        }
      }
    }
    assert all[|s.acls|..] + rest == rest;
    stop, r := false, Success(false);
  }

  /** The loop over the sets, at one base. */
  method CheckBase(p: Policy, q: Request, base: Dn, own: bool, ghost rest: seq<Candidate>, before: bool)
    returns (stop: bool, r: Result<bool, Verdict>, reset: bool)
    ensures stop ==> Fold(p, q, AtBase(p.sets, base, own) + rest, before) == r
    ensures !stop ==> Fold(p, q, AtBase(p.sets, base, own) + rest, before) == Fold(p, q, rest, reset)
  {
    reset := before;
    for i := 0 to |p.sets|
      invariant Fold(p, q, AtBase(p.sets, base, own) + rest, before)
             == Fold(p, q, AtBase(p.sets[i..], base, own) + rest, reset)
    {
      var s := p.sets[i];
      assert p.sets[i..][0] == s && p.sets[i..][1..] == p.sets[i + 1..];
      ghost var next := AtBase(p.sets[i + 1..], base, own) + rest;
      if s.base == base {
        assert AtBase(p.sets[i..], base, own) + rest == OfSet(s, own) + next;
        stop, r, reset := CheckSet(p, q, s, own, next, reset);
        if stop { return; }
      } else {
        assert AtBase(p.sets[i..], base, own) + rest == next;
      }
    }
    assert AtBase(p.sets[|p.sets|..], base, own) + rest == rest;
    stop, r := false, Success(false);
  }

  /** `check` as it is written: the walk, the loop over the sets, the loop over the ACLs. */
  method Check(p: Policy, query: Query) returns (r: Result<bool, Verdict>)
    ensures r == Decide(p, query)
  {
    if query.user.None? || query.user.value in p.admins { return Success(true); }
    var base := if query.base.Some? && query.base.value != [] then query.base.value else p.root;
    var origLoc := base;
    var q := Request(query.user.value, query.topic, query.acls, origLoc);
    var reset := false;
    var inside := IsContained(base, p.root);
    while inside && base != []
      invariant inside <==> Contains(base, p.root)
      invariant Decide(p, query) == Fold(p, q, Walk(p, origLoc, base), reset)
      decreases |base|
    {
      var stop, decision;
      stop, decision, reset := CheckBase(p, q, base, base == origLoc, Walk(p, origLoc, base[1..]), reset);
      if stop { return decision; }
      base := base[1..];
      inside := IsContained(base, p.root);
    }
    r := Success(false);
  }

  // ----- what grants -----

  /** What a candidate contributes. */
  datatype Effect = Nothing | Permanent | Grant | Revoke | Exception(verdict: Verdict)

  function EffectOf(p: Policy, q: Request, c: Candidate): Effect {
    match MatchAcl(p.world, p.roles, q, c.acl, [], []).0
    case NoMatch => Nothing
    case Match(None) => Nothing
    case Match(Some(RESET)) => Revoke
    case Match(Some(PSUB)) => Permanent
    case Match(Some(SUB)) => Grant
    case Match(Some(ONE)) => if c.own then Grant else Nothing
    case Loop(role) => Exception(Loop(role))
    case NoRole(role) => Exception(NoRole(role))
  }

  function Effects(p: Policy, q: Request, cs: seq<Candidate>): seq<Effect> {
    seq(|cs|, i requires 0 <= i < |cs| => EffectOf(p, q, cs[i]))
  }

  /** Effect `i` settles the walk in favour of the user. */
  ghost predicate Wins(es: seq<Effect>, reset: bool, i: int) {
    && 0 <= i < |es|
    && (es[i].Permanent? || (es[i].Grant? && !reset && forall j :: 0 <= j < i ==> !es[j].Revoke?))
  }

  ghost predicate Granted(es: seq<Effect>, reset: bool) {
    exists i :: Wins(es, reset, i) && forall j :: 0 <= j < i ==> !es[j].Exception?
  }

  /** The walk grants exactly when, before any exception, a matching PSUB entry exists, or a matching SUB entry
      (or ONE entry on the target's own base) that no matching RESET precedes. */
  lemma {:induction false} GrantsIff(p: Policy, q: Request, cs: seq<Candidate>, reset: bool)
    ensures Fold(p, q, cs, reset) == Success(true) <==> Granted(Effects(p, q, cs), reset)
    decreases cs
  {
    var es := Effects(p, q, cs);
    if cs != [] {
      var reset' := reset || es[0].Revoke?;
      GrantsIff(p, q, cs[1..], reset');
      assert es[1..] == Effects(p, q, cs[1..]);
      GrantedUnfold(es, reset);
    }
  }

  lemma GrantedUnfold(es: seq<Effect>, reset: bool)
    requires es != []
    ensures Granted(es, reset) <==>
              es[0].Permanent? || (es[0].Grant? && !reset)
              || (!es[0].Exception? && Granted(es[1..], reset || es[0].Revoke?))
  {
    var reset' := reset || es[0].Revoke?;
    if es[0].Permanent? || (es[0].Grant? && !reset) {
      assert Wins(es, reset, 0);
    }
    if Granted(es, reset) {
      var i :| Wins(es, reset, i) && forall j :: 0 <= j < i ==> !es[j].Exception?;
      if i > 0 {
        WinsShift(es, reset, i - 1);
        assert forall j :: 0 <= j < i - 1 ==> es[1..][j] == es[j + 1];
        assert Granted(es[1..], reset');
      }
    }
    if !es[0].Exception? && Granted(es[1..], reset') {
      var i :| Wins(es[1..], reset', i) && forall j :: 0 <= j < i ==> !es[1..][j].Exception?;
      WinsShift(es, reset, i);
      forall j | 0 <= j < i + 1 ensures !es[j].Exception? {
        if j > 0 { assert es[j] == es[1..][j - 1]; }
      }
    }
  }

  lemma WinsShift(es: seq<Effect>, reset: bool, i: nat)
    requires es != []
    ensures Wins(es, reset, i + 1) <==> Wins(es[1..], reset || es[0].Revoke?, i)
  {
    if i + 1 < |es| && es[i + 1].Grant? {
      assert forall j :: 0 <= j < i ==> es[1..][j] == es[j + 1];
      if forall j :: 0 <= j < i ==> !es[1..][j].Revoke? {
        forall j | 1 <= j < i + 1 ensures !es[j].Revoke? {
          assert es[j] == es[1..][j - 1];
        }
      }
    }
  }

  /** Administrators and calls without a user are always granted, everybody else by the walk. */
  lemma DecisionGrantsIff(p: Policy, query: Query)
    ensures Decide(p, query) == Success(true) <==>
              query.user.None? || query.user.value in p.admins ||
              var t := Target(p, query);
              Granted(Effects(p, Request(query.user.value, query.topic, query.acls, t), Walk(p, t, t)), false)
  {
    if query.user.Some? && query.user.value !in p.admins {
      var t := Target(p, query);
      GrantsIff(p, Request(query.user.value, query.topic, query.acls, t), Walk(p, t, t), false);
    }
  }

  // ----- adding one entry -----

  lemma {:induction false} FoldInsert(p: Policy, q: Request, a: seq<Candidate>, c: Candidate, b: seq<Candidate>,
                                      reset: bool)
    ensures EffectOf(p, q, c).Nothing? ==> Fold(p, q, a + [c] + b, reset) == Fold(p, q, a + b, reset)
    ensures EffectOf(p, q, c).Permanent? && Fold(p, q, a + b, reset) == Success(true) ==>
              Fold(p, q, a + [c] + b, reset) == Success(true)
    ensures EffectOf(p, q, c).Revoke? && Fold(p, q, a + [c] + b, reset) == Success(true) ==>
              Fold(p, q, a + b, reset) == Success(true)
    decreases a
  {
    if a == [] {
      assert a + [c] + b == [c] + b && a + b == b;
      assert ([c] + b)[1..] == b;
      ResetOnlyTakesAway(p, q, b, reset);
    } else {
      assert (a + [c] + b)[0] == a[0] && (a + [c] + b)[1..] == a[1..] + [c] + b;
      assert (a + b)[0] == a[0] && (a + b)[1..] == a[1..] + b;
      FoldInsert(p, q, a[1..], c, b, reset || EffectOf(p, q, a[0]).Revoke?);
    }
  }

  lemma {:induction false} ResetOnlyTakesAway(p: Policy, q: Request, cs: seq<Candidate>, reset: bool)
    ensures Fold(p, q, cs, true) == Success(true) ==> Fold(p, q, cs, reset) == Success(true)
    decreases cs
  {
    if cs != [] {
      ResetOnlyTakesAway(p, q, cs[1..], reset);
    }
  }

  /** The policy with another list in set `i`. */
  function WithList(p: Policy, i: nat, acls: seq<Acl>): Policy
    requires i < |p.sets|
  {
    p.(sets := p.sets[i := p.sets[i].(acls := acls)])
  }

  /** At one base, the candidates of set `i` stand between those of the sets before and behind it. */
  lemma {:induction false} SetAtBase(sets: seq<AclSet>, i: nat, acls: seq<Acl>, base: Dn, own: bool)
    requires i < |sets|
    ensures AtBase(sets[i := sets[i].(acls := acls)], base, own) ==
              AtBase(sets[..i], base, own) + (if sets[i].base == base then OfList(acls, own) else [])
              + AtBase(sets[i + 1..], base, own)
    decreases sets
  {
    var s' := sets[i].(acls := acls);
    if i == 0 {
      assert sets[0 := s'][1..] == sets[1..];
    } else {
      var head := if sets[0].base == base then OfSet(sets[0], own) else [];
      assert sets[i := s'][1..] == sets[1..][i - 1 := s'];
      assert sets[..i][1..] == sets[1..][..i - 1] && sets[1..][i - 1 + 1..] == sets[i + 1..];
      SetAtBase(sets[1..], i - 1, acls, base, own);
      BehindHead(head, AtBase(sets[1..][..i - 1], base, own),
                 if sets[i].base == base then OfList(acls, own) else [], AtBase(sets[i + 1..], base, own));
    }
  }

  lemma BehindHead<T>(head: seq<T>, a: seq<T>, x: seq<T>, b: seq<T>)
    ensures head + (a + x + b) == (head + a) + x + b
  {
  }

  /** The walk from `base` comes past `at`: a suffix of it that contains the root. */
  ghost predicate Visits(base: Dn, root: Dn, at: Dn) {
    at != [] && Contains(at, root) && |at| <= |base| && base[|base| - |at|..] == at
  }

  lemma VisitsOneUp(base: Dn, root: Dn, at: Dn)
    requires base != [] && at != base
    ensures Visits(base, root, at) <==> Visits(base[1..], root, at)
    ensures Visits(base, root, at) ==> Contains(base, root)
  {
    if |at| < |base| {
      assert base[1..][|base| - 1 - |at|..] == base[|base| - |at|..];
    } else if |at| == |base| {
      assert base[|base| - |at|..] == base;
    }
    if Visits(base, root, at) {
      var i :| OccursAt(at, root, i);
      assert base[|base| - |at|..][i..i + |root|] == base[|base| - |at| + i..|base| - |at| + i + |root|];
      assert OccursAt(base, root, |base| - |at| + i);
    }
  }

  /** What the walk meets before the list of set `i`. */
  ghost function BeforeSet(p: Policy, i: nat, target: Dn, base: Dn): seq<Candidate>
    requires i < |p.sets|
    decreases |base|
  {
    if base == [] then []
    else if p.sets[i].base == base then AtBase(p.sets[..i], base, base == target)
    else AtBase(p.sets, base, base == target) + BeforeSet(p, i, target, base[1..])
  }

  /** What it meets behind that list. */
  ghost function BehindSet(p: Policy, i: nat, target: Dn, base: Dn): seq<Candidate>
    requires i < |p.sets|
    decreases |base|
  {
    if base == [] then []
    else if p.sets[i].base == base then
      AtBase(p.sets[i + 1..], base, base == target) + Walk(p, target, base[1..])
    else BehindSet(p, i, target, base[1..])
  }

  /** Another list in set `i` is met where the old one was, once if the walk comes past the base of the set and never
      if it does not. */
  lemma {:induction false} ReplaceOnWalk(p: Policy, i: nat, acls: seq<Acl>, target: Dn, base: Dn)
    requires i < |p.sets|
    ensures Walk(WithList(p, i, acls), target, base) ==
              if Visits(base, p.root, p.sets[i].base)
              then BeforeSet(p, i, target, base) + OfList(acls, p.sets[i].base == target)
                   + BehindSet(p, i, target, base)
              else Walk(p, target, base)
    decreases |base|
  {
    var at, own := p.sets[i].base, base == target;
    if base != [] && Contains(base, p.root) {
      SetAtBase(p.sets, i, acls, base, own);
      if at == base {
        assert base[|base| - |at|..] == at;
        assert !Visits(base[1..], p.root, at);
        ReplaceOnWalk(p, i, acls, target, base[1..]);
        BeforeRest(AtBase(p.sets[..i], base, own), OfList(acls, own), AtBase(p.sets[i + 1..], base, own),
                   Walk(p, target, base[1..]));
      } else {
        SetAtBase(p.sets, i, p.sets[i].acls, base, own);
        assert p.sets[i := p.sets[i].(acls := p.sets[i].acls)] == p.sets;
        VisitsOneUp(base, p.root, at);
        ReplaceOnWalk(p, i, acls, target, base[1..]);
        BehindHead(AtBase(p.sets, base, own), BeforeSet(p, i, target, base[1..]), OfList(acls, at == target),
                   BehindSet(p, i, target, base[1..]));
      }
    } else if base != [] && at != base {
      VisitsOneUp(base, p.root, at);
    }
  }

  /** In particular the walk itself is what it meets before the list, the list, and what it meets behind it. */
  lemma SetOnWalk(p: Policy, i: nat, target: Dn, base: Dn)
    requires i < |p.sets| && Visits(base, p.root, p.sets[i].base)
    ensures Walk(p, target, base) ==
              BeforeSet(p, i, target, base) + OfList(p.sets[i].acls, p.sets[i].base == target)
              + BehindSet(p, i, target, base)
  {
    ReplaceOnWalk(p, i, p.sets[i].acls, target, base);
    assert p.sets[i := p.sets[i].(acls := p.sets[i].acls)] == p.sets;
  }

  lemma BeforeRest<T>(x: seq<T>, c: seq<T>, y: seq<T>, rest: seq<T>)
    ensures (x + c + y) + rest == x + c + (y + rest)
  {
  }

  /** A policy whose set `i` gains one entry at position `k`. */
  function Inserted(p: Policy, i: nat, k: nat, acl: Acl): Policy
    requires i < |p.sets| && k <= |p.sets[i].acls|
  {
    WithList(p, i, p.sets[i].acls[..k] + [acl] + p.sets[i].acls[k..])
  }

  lemma InsertInList(acls: seq<Acl>, k: nat, acl: Acl, own: bool, a: seq<Candidate>, b: seq<Candidate>)
    requires k <= |acls|
    ensures a + OfList(acls, own) + b == (a + OfList(acls[..k], own)) + (OfList(acls[k..], own) + b)
    ensures a + OfList(acls[..k] + [acl] + acls[k..], own) + b
         == (a + OfList(acls[..k], own)) + [Candidate(acl, own)] + (OfList(acls[k..], own) + b)
  {
    assert acls == acls[..k] + acls[k..];
  }

  /** A PSUB entry, added anywhere, never takes a grant away; a RESET entry never creates one. */
  lemma AddingOneEntry(p: Policy, i: nat, k: nat, acl: Acl, query: Query)
    requires i < |p.sets| && k <= |p.sets[i].acls| && !acl.usesRole
    ensures acl.scope == Some(PSUB) && Decide(p, query) == Success(true) ==>
              Decide(Inserted(p, i, k, acl), query) == Success(true)
    ensures acl.scope == Some(RESET) && Decide(Inserted(p, i, k, acl), query) == Success(true) ==>
              Decide(p, query) == Success(true)
  {
    if query.user.Some? && query.user.value !in p.admins {
      var acls, p' := p.sets[i].acls, Inserted(p, i, k, acl);
      var t := Target(p, query);
      var q := Request(query.user.value, query.topic, query.acls, t);
      var a, b, own := BeforeSet(p, i, t, t), BehindSet(p, i, t, t), p.sets[i].base == t;
      ReplaceOnWalk(p, i, acls[..k] + [acl] + acls[k..], t, t);
      SameFold(p, p', q, Walk(p', t, t), false);
      if Visits(t, p.root, p.sets[i].base) {
        SetOnWalk(p, i, t, t);
        InsertInList(acls, k, acl, own, a, b);
        FoldInsert(p, q, a + OfList(acls[..k], own), Candidate(acl, own), OfList(acls[k..], own) + b, false);
      }
    }
  }

  /** The loop looks at the roles and the world only. */
  lemma {:induction false} SameFold(p: Policy, p': Policy, q: Request, cs: seq<Candidate>, reset: bool)
    requires p.roles == p'.roles && p.world == p'.world
    ensures Fold(p, q, cs, reset) == Fold(p', q, cs, reset)
    decreases cs
  {
    if cs != [] {
      SameFold(p, p', q, cs[1..], reset);
      SameFold(p, p', q, cs[1..], true);
    }
  }
}
