/** When putting the entries of one set into another order changes a decision: `ACLSet.add` sorts the whole list. */
module AclResort {
  import opened Wrappers
  import opened AclModel
  import opened AclDecision
  import opened AclLists
  import opened AclChanges

  /** How far a stretch of the walk settles it: granted, ended by an exception, or open, with or without a reset. */
  datatype Leaning = Won | Raised | Open(reset: bool)

  function Lean(es: seq<Effect>, reset: bool): Leaning {
    if es == [] then Open(reset)
    else match es[0]
      case Permanent => Won
      case Exception(_) => Raised
      case Grant => if reset then Lean(es[1..], reset) else Won
      case Revoke => Lean(es[1..], true)
      case Nothing => Lean(es[1..], reset)
  }

  /** Whether a walk is granted that leans this way and goes on with `rest`. */
  ghost predicate Settles(l: Leaning, rest: seq<Effect>) {
    match l
    case Won => true
    case Raised => false
    case Open(reset) => Granted(rest, reset)
  }

  lemma {:induction false} GrantedConcat(a: seq<Effect>, b: seq<Effect>, reset: bool)
    ensures Granted(a + b, reset) <==> Settles(Lean(a, reset), b)
    decreases a
  {
    if a == [] {
      assert a + b == b;
    } else {
      assert (a + b)[0] == a[0] && (a + b)[1..] == a[1..] + b;
      GrantedUnfold(a + b, reset);
      GrantedConcat(a[1..], b, reset || a[0].Revoke?);
    }
  }

  lemma EffectsConcat(p: Policy, q: Request, a: seq<Candidate>, c: seq<Candidate>, b: seq<Candidate>)
    ensures Effects(p, q, a + c + b) == Effects(p, q, a) + (Effects(p, q, c) + Effects(p, q, b))
  {
  }

  // ----- what the walk meets around the list of one set -----

  function RequestOf(p: Policy, query: Query): Request
    requires query.user.Some?
  {
    Request(query.user.value, query.topic, query.acls, Target(p, query))
  }

  /** The user is no administrator, and the walk from the target comes past the base of set `i`. */
  ghost predicate Reaches(p: Policy, i: nat, query: Query)
    requires i < |p.sets|
  {
    && query.user.Some? && query.user.value !in p.admins
    && Visits(Target(p, query), p.root, p.sets[i].base)
  }

  ghost function Before(p: Policy, i: nat, query: Query): seq<Effect>
    requires i < |p.sets| && query.user.Some?
  {
    Effects(p, RequestOf(p, query), BeforeSet(p, i, Target(p, query), Target(p, query)))
  }

  ghost function Behind(p: Policy, i: nat, query: Query): seq<Effect>
    requires i < |p.sets| && query.user.Some?
  {
    Effects(p, RequestOf(p, query), BehindSet(p, i, Target(p, query), Target(p, query)))
  }

  /** What this list would contribute in set `i`. */
  function Within(p: Policy, i: nat, acls: seq<Acl>, query: Query): seq<Effect>
    requires i < |p.sets| && query.user.Some?
  {
    Effects(p, RequestOf(p, query), OfList(acls, p.sets[i].base == Target(p, query)))
  }

  ghost predicate IsGranted(p: Policy, query: Query) {
    Decide(p, query) == Success(true)
  }

  /** The effects met on the whole walk, with this list in set `i`. */
  lemma EffectsAround(p: Policy, i: nat, acls: seq<Acl>, query: Query)
    requires i < |p.sets| && Reaches(p, i, query)
    ensures var t := Target(p, query);
      Effects(p, RequestOf(p, query), Walk(WithList(p, i, acls), t, t))
        == Before(p, i, query) + (Within(p, i, acls, query) + Behind(p, i, query))
  {
    var t := Target(p, query);
    ReplaceOnWalk(p, i, acls, t, t);
    EffectsConcat(p, RequestOf(p, query), BeforeSet(p, i, t, t), OfList(acls, p.sets[i].base == t),
                  BehindSet(p, i, t, t));
  }

  /** With this list in set `i`, a user whose walk comes past it is granted by what comes before the list, or by the
      list and what comes behind it, if the walk arrives undecided. */
  lemma ListDecides(p: Policy, i: nat, acls: seq<Acl>, query: Query)
    requires i < |p.sets| && Reaches(p, i, query)
    ensures var l := Lean(Before(p, i, query), false);
      IsGranted(WithList(p, i, acls), query) <==>
        l.Won? || (l.Open? && Settles(Lean(Within(p, i, acls, query), l.reset), Behind(p, i, query)))
  {
    var p', t, q := WithList(p, i, acls), Target(p, query), RequestOf(p, query);
    DecisionGrantsIff(p', query);
    SameEffects(p, p', q, Walk(p', t, t));
    EffectsAround(p, i, acls, query);
    SettledBy(Before(p, i, query), Within(p, i, acls, query), Behind(p, i, query));
  }

  /** Everybody else is decided as before. */
  lemma ListOffTheWalk(p: Policy, i: nat, acls: seq<Acl>, query: Query)
    requires i < |p.sets| && !Reaches(p, i, query)
    ensures Decide(WithList(p, i, acls), query) == Decide(p, query)
  {
    if query.user.Some? && query.user.value !in p.admins {
      var t := Target(p, query);
      ReplaceOnWalk(p, i, acls, t, t);
      SameFold(p, WithList(p, i, acls), RequestOf(p, query), Walk(p, t, t), false);
    }
  }

  lemma WithOwnList(p: Policy, i: nat)
    requires i < |p.sets|
    ensures WithList(p, i, p.sets[i].acls) == p
  {
    assert p.sets[i := p.sets[i].(acls := p.sets[i].acls)] == p.sets;
  }

  /** Another list in one set changes whether a user is granted if and only if that user is no administrator, the walk
      comes past the set, arrives there undecided, and the two lists settle it differently. */
  lemma ListMattersIff(p: Policy, i: nat, acls: seq<Acl>, query: Query)
    requires i < |p.sets|
    ensures IsGranted(p, query) != IsGranted(WithList(p, i, acls), query) <==>
              && Reaches(p, i, query)
              && var l, after := Lean(Before(p, i, query), false), Behind(p, i, query);
                 l.Open? && Settles(Lean(Within(p, i, p.sets[i].acls, query), l.reset), after)
                         != Settles(Lean(Within(p, i, acls, query), l.reset), after)
  {
    WithOwnList(p, i);
    if Reaches(p, i, query) {
      ListDecides(p, i, p.sets[i].acls, query);
      ListDecides(p, i, acls, query);
    } else {
      ListOffTheWalk(p, i, acls, query);
    }
  }

  lemma SettledBy(a: seq<Effect>, c: seq<Effect>, b: seq<Effect>)
    ensures var l := Lean(a, false);
      Granted(a + (c + b), false) <==> l.Won? || (l.Open? && Settles(Lean(c, l.reset), b))
  {
    GrantedConcat(a, c + b, false);
    if Lean(a, false).Open? {
      GrantedConcat(c, b, Lean(a, false).reset);
    }
  }

  lemma SameEffects(p: Policy, p': Policy, q: Request, cs: seq<Candidate>)
    requires p.roles == p'.roles && p.world == p'.world
    ensures Effects(p, q, cs) == Effects(p', q, cs)
  {
  }

  // ----- the same entries in another order -----

  ghost predicate NoException(es: seq<Effect>) {
    forall e :: e in es ==> !e.Exception?
  }

  /** The same effects, in any order. */
  ghost predicate Reordered(a: seq<Effect>, b: seq<Effect>) {
    forall e :: e in a <==> e in b
  }

  /** Some grant is not preceded by a reset. */
  ghost predicate GrantsFirst(es: seq<Effect>) {
    exists i :: 0 <= i < |es| && es[i].Grant? && forall j :: 0 <= j < i ==> !es[j].Revoke?
  }

  lemma {:induction false} LeanWithoutException(es: seq<Effect>, reset: bool)
    requires NoException(es)
    ensures Lean(es, reset) ==
              if Permanent in es || (!reset && GrantsFirst(es)) then Won else Open(reset || Revoke in es)
    decreases es
  {
    if es != [] {
      var rest, reset' := es[1..], reset || es[0].Revoke?;
      assert forall e :: e in es <==> e == es[0] || e in rest;
      LeanWithoutException(rest, reset');
      if GrantsFirst(es) && !es[0].Grant? {
        var i :| 0 <= i < |es| && es[i].Grant? && forall j :: 0 <= j < i ==> !es[j].Revoke?;
        assert rest[i - 1] == es[i] && forall j :: 0 <= j < i - 1 ==> rest[j] == es[j + 1];
        assert GrantsFirst(rest) && !es[0].Revoke?;
      }
      if GrantsFirst(rest) && !es[0].Revoke? {
        var i :| 0 <= i < |rest| && rest[i].Grant? && forall j :: 0 <= j < i ==> !rest[j].Revoke?;
        assert es[i + 1] == rest[i] && forall j :: 0 < j < i + 1 ==> es[j] == rest[j - 1];
        assert GrantsFirst(es);
      }
      if es[0].Grant? {
        assert GrantsFirst(es);
      }
    }
  }

  lemma GrantedWithoutException(es: seq<Effect>, reset: bool)
    requires NoException(es)
    ensures Granted(es, reset) <==> Permanent in es || (!reset && GrantsFirst(es))
  {
    LeanWithoutException(es, reset);
    GrantedConcat(es, [], reset);
    assert es + [] == es;
  }

  /** No permanent grant lies anywhere, and nothing before the list grants or resets. */
  ghost predicate LeftToTheList(before: seq<Effect>, list: seq<Effect>, after: seq<Effect>) {
    && Permanent !in before + list + after
    && !GrantsFirst(before) && Revoke !in before
  }

  /** On a walk without exceptions, a reordered list takes a grant away if and only if in the first order a grant comes
      before every reset, in the second none does, and the decision is left to the list. */
  lemma ReorderMattersIff(before: seq<Effect>, list: seq<Effect>, other: seq<Effect>, after: seq<Effect>)
    requires NoException(before) && NoException(list) && NoException(after) && Reordered(list, other)
    ensures var l := Lean(before, false);
      && l != Raised
      && (l.Open? && Settles(Lean(list, l.reset), after) && !Settles(Lean(other, l.reset), after) <==>
            GrantsFirst(list) && !GrantsFirst(other) && LeftToTheList(before, list, after))
  {
    var reset := Lean(before, false).Open? && Lean(before, false).reset;
    LeanWithoutException(before, false);
    LeanWithoutException(list, reset);
    LeanWithoutException(other, reset);
    GrantedWithoutException(after, true);
    GrantedWithoutException(after, false);
    if GrantsFirst(list) && !GrantsFirst(other) {
      GrantNeedsReset(list, other);
    }
  }

  lemma GrantNeedsReset(es: seq<Effect>, other: seq<Effect>)
    requires GrantsFirst(es) && !GrantsFirst(other) && forall e :: e in es ==> e in other
    ensures Revoke in other
  {
    var i :| 0 <= i < |es| && es[i].Grant?;
    assert es[i] in other;
    var j :| 0 <= j < |other| && other[j] == es[i];
    var k :| 0 <= k < j && other[k].Revoke?;
    assert other[k] in other;
  }

  /** Sorting a list keeps its effects, in another order. */
  lemma SortReorders(p: Policy, q: Request, acls: seq<Acl>, own: bool, descending: bool)
    ensures Reordered(Effects(p, q, OfList(acls, own)), Effects(p, q, OfList(StableSort(acls, descending), own)))
  {
    SortSorts(acls, descending);
    SameEntries(p, q, acls, StableSort(acls, descending), own);
    SameEntries(p, q, StableSort(acls, descending), acls, own);
  }

  lemma SameEntries(p: Policy, q: Request, a: seq<Acl>, b: seq<Acl>, own: bool)
    requires multiset(a) == multiset(b)
    ensures forall e :: e in Effects(p, q, OfList(a, own)) ==> e in Effects(p, q, OfList(b, own))
  {
    var es, fs := Effects(p, q, OfList(a, own)), Effects(p, q, OfList(b, own));
    forall e | e in es
      ensures e in fs
    {
      var i :| 0 <= i < |es| && es[i] == e;
      assert a[i] in multiset(b);
      var j :| 0 <= j < |b| && b[j] == a[i];
      assert fs[j] == e;
    }
  }

  /** No role on the walk is met twice or missing. */
  ghost predicate Quiet(p: Policy, query: Query) {
    query.user.Some? ==>
      NoException(Effects(p, RequestOf(p, query), Walk(p, Target(p, query), Target(p, query))))
  }

  lemma QuietAround(p: Policy, i: nat, query: Query)
    requires i < |p.sets| && Reaches(p, i, query) && Quiet(p, query)
    ensures NoException(Before(p, i, query)) && NoException(Within(p, i, p.sets[i].acls, query))
    ensures NoException(Behind(p, i, query))
  {
    WithOwnList(p, i);
    EffectsAround(p, i, p.sets[i].acls, query);
    ExceptionsAround(Before(p, i, query), Within(p, i, p.sets[i].acls, query), Behind(p, i, query));
  }

  lemma ExceptionsAround(a: seq<Effect>, c: seq<Effect>, b: seq<Effect>)
    requires NoException(a + (c + b))
    ensures NoException(a) && NoException(c) && NoException(b)
  {
    assert forall e :: e in a || e in c || e in b ==> e in a + (c + b);
  }

  /** In the list of set `i` a grant comes before every reset, in this order of it none does, and nothing else on the
      walk decides. */
  ghost predicate OrderDecides(p: Policy, i: nat, first: seq<Acl>, second: seq<Acl>, query: Query)
    requires i < |p.sets|
  {
    && Reaches(p, i, query)
    && GrantsFirst(Within(p, i, first, query)) && !GrantsFirst(Within(p, i, second, query))
    && LeftToTheList(Before(p, i, query), Within(p, i, p.sets[i].acls, query), Behind(p, i, query))
  }

  /** What the sort in `ACLSet.add` does by itself, on a walk without exceptions: when it takes a grant away, and when
      it creates one. */
  lemma SortMattersIff(p: Policy, i: nat, query: Query)
    requires i < |p.sets| && Quiet(p, query)
    ensures var acls, sorted := p.sets[i].acls, StableSort(p.sets[i].acls, false);
      var p' := WithList(p, i, sorted);
      && (IsGranted(p, query) && !IsGranted(p', query) <==> OrderDecides(p, i, acls, sorted, query))
      && (!IsGranted(p, query) && IsGranted(p', query) <==> OrderDecides(p, i, sorted, acls, query))
  {
    var acls, sorted := p.sets[i].acls, StableSort(p.sets[i].acls, false);
    WithOwnList(p, i);
    if Reaches(p, i, query) {
      ListDecides(p, i, acls, query);
      ListDecides(p, i, sorted, query);
      QuietAround(p, i, query);
      SortReorders(p, RequestOf(p, query), acls, p.sets[i].base == Target(p, query), false);
      ReorderBothWays(Before(p, i, query), Within(p, i, acls, query), Within(p, i, sorted, query),
                      Behind(p, i, query));
    } else {
      ListOffTheWalk(p, i, sorted, query);
    }
  }

  lemma ReorderBothWays(before: seq<Effect>, list: seq<Effect>, other: seq<Effect>, after: seq<Effect>)
    requires NoException(before) && NoException(list) && NoException(after) && Reordered(list, other)
    ensures var l := Lean(before, false);
      && l != Raised
      && (l.Open? && Settles(Lean(list, l.reset), after) && !Settles(Lean(other, l.reset), after) <==>
            GrantsFirst(list) && !GrantsFirst(other) && LeftToTheList(before, list, after))
      && (l.Open? && !Settles(Lean(list, l.reset), after) && Settles(Lean(other, l.reset), after) <==>
            GrantsFirst(other) && !GrantsFirst(list) && LeftToTheList(before, list, after))
  {
    ReorderMattersIff(before, list, other, after);
    ReorderMattersIff(before, other, list, after);
    assert Permanent in before + list + after <==> Permanent in before + other + after;
  }

  // ----- adding a PSUB entry -----

  /** Exactly when adding a direct PSUB entry takes a grant away, on a walk without exceptions: the entry does not
      concern the request, and the sort that comes with adding it moves a reset in front of every grant. */
  lemma AddTakesGrantIff(p: Policy, i: nat, acl: Acl, query: Query)
    requires i < |p.sets| && !acl.usesRole && acl.scope == Some(PSUB) && Quiet(p, query)
    ensures var acls := p.sets[i].acls;
      IsGranted(p, query) && !IsGranted(WithList(p, i, Added(acls, acl, false)), query) <==>
        && OrderDecides(p, i, acls, StableSort(acls, false), query)
        && !Grants(p.world, RequestOf(p, query), acl, acl.members)
  {
    var acls := p.sets[i].acls;
    var sorted := StableSort(acls, false);
    SortMattersIff(p, i, query);
    if Reaches(p, i, query) {
      var k := AddInserts(acls, acl, false);
      var b := WithPriority(acl, |acls|);
      assert Added(acls, acl, false) == sorted[..k] + [b] + sorted[k..];
      InsertedPsub(p, i, sorted, k, b, query);
      if Grants(p.world, RequestOf(p, query), acl, acl.members) {
        PsubGrants(p, i, acl, query);
      }
    } else {
      ListOffTheWalk(p, i, Added(acls, acl, false), query);
    }
  }

  /** A PSUB entry that does not match can as well be left out. */
  lemma InsertedPsub(p: Policy, i: nat, sorted: seq<Acl>, k: nat, b: Acl, query: Query)
    requires i < |p.sets| && Reaches(p, i, query) && k <= |sorted| && !b.usesRole && b.scope == Some(PSUB)
    ensures !Grants(p.world, RequestOf(p, query), b, b.members) ==>
              Decide(WithList(p, i, sorted[..k] + [b] + sorted[k..]), query) == Decide(WithList(p, i, sorted), query)
  {
    var t, q, own := Target(p, query), RequestOf(p, query), p.sets[i].base == Target(p, query);
    var x, y := BeforeSet(p, i, t, t), BehindSet(p, i, t, t);
    var longer := sorted[..k] + [b] + sorted[k..];
    ReplaceOnWalk(p, i, sorted, t, t);
    ReplaceOnWalk(p, i, longer, t, t);
    InsertInList(sorted, k, b, own, x, y);
    FoldInsert(p, q, x + OfList(sorted[..k], own), Candidate(b, own), OfList(sorted[k..], own) + y, false);
    SameFold(p, WithList(p, i, sorted), q, Walk(WithList(p, i, sorted), t, t), false);
    SameFold(p, WithList(p, i, longer), q, Walk(WithList(p, i, longer), t, t), false);
  }

  /** One that matches grants, whatever else the walk meets, if nothing there raises. */
  lemma PsubGrants(p: Policy, i: nat, acl: Acl, query: Query)
    requires i < |p.sets| && Reaches(p, i, query) && Quiet(p, query)
    requires !acl.usesRole && acl.scope == Some(PSUB) && Grants(p.world, RequestOf(p, query), acl, acl.members)
    ensures IsGranted(WithList(p, i, Added(p.sets[i].acls, acl, false)), query)
  {
    var acls, q, own := p.sets[i].acls, RequestOf(p, query), p.sets[i].base == Target(p, query);
    var all, es := acls + [WithPriority(acl, |acls|)], Within(p, i, Added(p.sets[i].acls, acl, false), query);
    ListDecides(p, i, Added(acls, acl, false), query);
    QuietAround(p, i, query);
    SortReorders(p, q, all, own, false);
    assert Effects(p, q, OfList(all, own)) == Within(p, i, acls, query) + [Permanent];
    assert Permanent in es && NoException(es);
    LeanWithoutException(Before(p, i, query), false);
    LeanWithoutException(es, Lean(Before(p, i, query), false).Open? && Lean(Before(p, i, query), false).reset);
  }

  /** The same for a policy with one set, on the root, and a question about the root: the order of the list decides,
      unless an entry grants for good. */
  lemma AddOnRootTakesGrantIff(p: Policy, acl: Acl, user: string, topic: string, rights: string)
    requires p.root != [] && |p.sets| == 1 && p.sets[0].base == p.root && user !in p.admins
    requires !acl.usesRole && acl.scope == Some(PSUB)
    requires NoException(Effects(p, Request(user, topic, rights, p.root), OfList(p.sets[0].acls, true)))
    ensures var q, query := Request(user, topic, rights, p.root), Query(Some(user), topic, rights, None);
      var acls := p.sets[0].acls;
      var list, sorted := Effects(p, q, OfList(acls, true)), Effects(p, q, OfList(StableSort(acls, false), true));
      IsGranted(p, query) && !IsGranted(WithList(p, 0, Added(acls, acl, false)), query) <==>
        && GrantsFirst(list) && !GrantsFirst(sorted) && Permanent !in list
        && !Grants(p.world, q, acl, acl.members)
  {
    var query := Query(Some(user), topic, rights, None);
    assert OccursAt(p.root, p.root, 0);
    assert p.root[|p.root| - |p.root|..] == p.root;
    assert Visits(p.root, p.root, p.root);
    OneSetWalk(p);
    assert Quiet(p, query);
    assert p.sets[..0] == [] && p.sets[1..] == [];
    assert !Contains(p.root[1..], p.root);
    assert Before(p, 0, query) == [] && Behind(p, 0, query) == [];
    assert [] + Within(p, 0, p.sets[0].acls, query) + [] == Within(p, 0, p.sets[0].acls, query);
    AddTakesGrantIff(p, 0, acl, query);
  }
}
