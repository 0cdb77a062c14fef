/** Ordered lists of entries (`ACLSet.add`, `ACLRole.add`) and the list of sets a resolver keeps. */
module AclLists {
  import opened Names
  import opened Wrappers
  import opened AclModel
  import opened AclDecision

  /** Sets are sorted by ascending priority, roles by descending priority. */
  function SortKey(a: Acl, descending: bool): int {
    var p := if a.priority.Some? then a.priority.value else 0;
    if descending then -p else p
  }

  /** The place, among the first `n`, behind the last entry whose key is not larger. */
  function Place(s: seq<Acl>, n: nat, a: Acl, descending: bool): (k: nat)
    requires n <= |s|
    ensures k <= n
  {
    if n == 0 then 0
    else if SortKey(s[n - 1], descending) <= SortKey(a, descending) then n
    else Place(s, n - 1, a, descending)
  }

  function InsertStable(s: seq<Acl>, a: Acl, descending: bool): seq<Acl> {
    var k := Place(s, |s|, a, descending);
    s[..k] + [a] + s[k..]
  }

  /** Python's sort is stable. */
  function StableSort(s: seq<Acl>, descending: bool): seq<Acl> {
    if s == [] then [] else InsertStable(StableSort(s[..|s| - 1], descending), s[|s| - 1], descending)
  }

  function WithPriority(a: Acl, size: nat): Acl {
    if a.priority.None? then a.(priority := Some(size)) else a
  }

  /** `add`: a missing priority becomes the current length, then the list is sorted. */
  function Added(acls: seq<Acl>, a: Acl, descending: bool): seq<Acl> {
    StableSort(acls + [WithPriority(a, |acls|)], descending)
  }

  ghost predicate Sorted(s: seq<Acl>, descending: bool) {
    forall i, j :: 0 <= i < j < |s| ==> SortKey(s[i], descending) <= SortKey(s[j], descending)
  }

  /** `k` is the place behind all entries whose key is not larger. */
  ghost predicate Fits(s: seq<Acl>, k: nat, a: Acl, descending: bool) {
    && k <= |s|
    && (forall i :: 0 <= i < k ==> SortKey(s[i], descending) <= SortKey(a, descending))
    && (forall i :: k <= i < |s| ==> SortKey(a, descending) < SortKey(s[i], descending))
  }

  lemma {:induction false} PlaceFits(s: seq<Acl>, n: nat, a: Acl, descending: bool)
    requires Sorted(s, descending) && n <= |s|
    requires forall i :: n <= i < |s| ==> SortKey(a, descending) < SortKey(s[i], descending)
    ensures Fits(s, Place(s, n, a, descending), a, descending)
    decreases n
  {
    if n > 0 && SortKey(a, descending) < SortKey(s[n - 1], descending) {
      PlaceFits(s, n - 1, a, descending);
    }
  }

  lemma InsertedIsSorted(s: seq<Acl>, k: nat, a: Acl, descending: bool)
    requires Sorted(s, descending) && Fits(s, k, a, descending)
    ensures Sorted(s[..k] + [a] + s[k..], descending)
  {
    var t := s[..k] + [a] + s[k..];
    forall i, j | 0 <= i < j < |t| ensures SortKey(t[i], descending) <= SortKey(t[j], descending) {
      assert t[i] == if i < k then s[i] else if i == k then a else s[i - 1];
      assert t[j] == if j < k then s[j] else if j == k then a else s[j - 1];
    }
  }

  lemma InsertedMultiset<T>(s: seq<T>, k: nat, a: T)
    requires k <= |s|
    ensures multiset(s[..k] + [a] + s[k..]) == multiset(s + [a])
  {
    assert s == s[..k] + s[k..];
  }

  lemma {:induction false} SortSorts(s: seq<Acl>, descending: bool)
    ensures Sorted(StableSort(s, descending), descending)
    ensures multiset(StableSort(s, descending)) == multiset(s)
  {
    if s != [] {
      var init, last := s[..|s| - 1], s[|s| - 1];
      SortSorts(init, descending);
      var t := StableSort(init, descending);
      PlaceFits(t, |t|, last, descending);
      var k := Place(t, |t|, last, descending);
      InsertedIsSorted(t, k, last, descending);
      InsertedMultiset(t, k, last);
      assert s == init + [last];
    }
  }

  lemma {:induction false} SortedStays(s: seq<Acl>, descending: bool)
    requires Sorted(s, descending)
    ensures StableSort(s, descending) == s
  {
    if s != [] {
      var init, last := s[..|s| - 1], s[|s| - 1];
      SortedStays(init, descending);
      PlaceFits(init, |init|, last, descending);
      assert Place(init, |init|, last, descending) == |init| by {
        assert forall i :: 0 <= i < |init| ==> SortKey(init[i], descending) <= SortKey(last, descending);
      }
      assert s == init[..|init|] + [last] + init[|init|..];
    }
  }

  /** Adding sorts the list and puts the entry behind all entries of the same or a smaller key. */
  lemma AddInserts(acls: seq<Acl>, a: Acl, descending: bool) returns (k: nat)
    ensures var sorted, b := StableSort(acls, descending), WithPriority(a, |acls|);
      && Fits(sorted, k, b, descending)
      && Added(acls, a, descending) == sorted[..k] + [b] + sorted[k..]
      && (Sorted(acls, descending) ==> sorted == acls)
  {
    var b := WithPriority(a, |acls|);
    assert (acls + [b])[..|acls|] == acls;
    SortSorts(acls, descending);
    var sorted := StableSort(acls, descending);
    PlaceFits(sorted, |sorted|, b, descending);
    k := Place(sorted, |sorted|, b, descending);
    if Sorted(acls, descending) {
      SortedStays(acls, descending);
    }
  }

  /** An added direct PSUB entry never takes a grant away that the sorted list gives, an added RESET entry never
      creates one. Whatever else changes is the doing of the sort. */
  lemma AddKeepsOrder(p: Policy, i: nat, acl: Acl, query: Query)
    requires i < |p.sets| && !acl.usesRole
    ensures var acls := p.sets[i].acls;
      var sorted, added := WithList(p, i, StableSort(acls, false)), WithList(p, i, Added(acls, acl, false));
      && (Sorted(acls, false) ==> sorted == p)
      && (acl.scope == Some(PSUB) && Decide(sorted, query) == Success(true) ==> Decide(added, query) == Success(true))
      && (acl.scope == Some(RESET) && Decide(added, query) == Success(true) ==> Decide(sorted, query) == Success(true))
  {
    var acls := p.sets[i].acls;
    var k := AddInserts(acls, acl, false);
    var sorted := WithList(p, i, StableSort(acls, false));
    AddingOneEntry(sorted, i, k, WithPriority(acl, |acls|), query);
    assert sorted.sets[i := sorted.sets[i].(acls := Added(acls, acl, false))]
        == p.sets[i := p.sets[i].(acls := Added(acls, acl, false))];
    if Sorted(acls, false) {
      assert p.sets[i := p.sets[i]] == p.sets;
    }
  }

  /** Another entry in one place keeps a sorted list sorted if and only if it fits between its neighbours. */
  lemma ReplacedSortedIff(s: seq<Acl>, k: nat, a: Acl, descending: bool)
    requires k < |s| && Sorted(s, descending)
    ensures Sorted(s[k := a], descending) <==>
              && (k > 0 ==> SortKey(s[k - 1], descending) <= SortKey(a, descending))
              && (k + 1 < |s| ==> SortKey(a, descending) <= SortKey(s[k + 1], descending))
  {
    var t := s[k := a];
    if k > 0 { assert t[k - 1] == s[k - 1] && t[k] == a; }
    if k + 1 < |s| { assert t[k + 1] == s[k + 1] && t[k] == a; }
    assert forall i :: 0 <= i < |s| && i != k ==> t[i] == s[i];
  }

  lemma RemovedStaysSorted(s: seq<Acl>, k: nat, descending: bool)
    requires k < |s| && Sorted(s, descending)
    ensures Sorted(s[..k] + s[k + 1..], descending)
  {
    var t := s[..k] + s[k + 1..];
    assert forall i :: 0 <= i < |t| ==> t[i] == if i < k then s[i] else s[i + 1];
  }

  // ----- the list of sets -----

  predicate HasBase(sets: seq<AclSet>, base: Dn) {
    exists s | s in sets :: s.base == base
  }

  /** `add_acl_to_set`: into the first set on the base. */
  function AddToFirst(sets: seq<AclSet>, base: Dn, acl: Acl): seq<AclSet> {
    if sets == [] then []
    else if sets[0].base == base then [sets[0].(acls := Added(sets[0].acls, acl, false))] + sets[1..]
    else [sets[0]] + AddToFirst(sets[1..], base, acl)
  }

  /** `add_acl_to_base`: into every set on the base; the first add settles the entry's priority. */
  function AddToAll(sets: seq<AclSet>, base: Dn, acl: Acl): seq<AclSet> {
    if sets == [] then []
    else if sets[0].base == base then
      [sets[0].(acls := Added(sets[0].acls, acl, false))]
      + AddToAll(sets[1..], base, WithPriority(acl, |sets[0].acls|))
    else [sets[0]] + AddToAll(sets[1..], base, acl)
  }

  /** Lists are equal when they hold the same entry objects; the bases are not compared. */
  predicate SameList(a: seq<Acl>, b: seq<Acl>) {
    |a| == |b| && forall i :: 0 <= i < |a| ==> a[i].id == b[i].id
  }

  /** `list.remove`: the first set that is equal as a list. */
  function RemoveFirstSame(sets: seq<AclSet>, acls: seq<Acl>): (r: seq<AclSet>)
    ensures |r| <= |sets|
  {
    if sets == [] then []
    else if SameList(sets[0].acls, acls) then sets[1..]
    else [sets[0]] + RemoveFirstSame(sets[1..], acls)
  }

  /** `remove_aclset_by_base`: the loop goes on over the list it removes from. */
  function RemoveByBase(sets: seq<AclSet>, i: nat, base: Dn): seq<AclSet>
    decreases |sets| - i
  {
    if i >= |sets| then sets
    else if sets[i].base == base then RemoveByBase(RemoveFirstSame(sets, sets[i].acls), i + 1, base)
    else RemoveByBase(sets, i + 1, base)
  }

  ghost predicate UniqueBases(sets: seq<AclSet>) {
    forall i, j :: 0 <= i < j < |sets| ==> sets[i].base != sets[j].base
  }

  /** No entry object is in both. */
  ghost predicate Apart(x: AclSet, y: AclSet) {
    forall a, b :: a in x.acls && b in y.acls ==> a.id != b.id
  }

  ghost predicate UniqueIds(sets: seq<AclSet>) {
    forall i, j :: 0 <= i < j < |sets| ==> Apart(sets[i], sets[j])
  }

  lemma ApartNotSame(x: AclSet, y: AclSet)
    requires Apart(x, y) && y.acls != []
    ensures !SameList(x.acls, y.acls)
  {
    assert y.acls[0] in y.acls;
    if x.acls != [] {
      assert x.acls[0] in x.acls && x.acls[0].id != y.acls[0].id;
    }
  }

  lemma {:induction false} NothingLeftToRemove(sets: seq<AclSet>, i: nat, base: Dn)
    requires forall j :: i <= j < |sets| ==> sets[j].base != base
    ensures RemoveByBase(sets, i, base) == sets
    decreases |sets| - i
  {
    if i < |sets| {
      NothingLeftToRemove(sets, i + 1, base);
    }
  }

  /** The set that goes: the one on the base, or the first empty one if that is empty. */
  lemma {:induction false} FirstSame(sets: seq<AclSet>, i: nat) returns (k: nat)
    requires i < |sets| && UniqueIds(sets)
    ensures k <= i && RemoveFirstSame(sets, sets[i].acls) == sets[..k] + sets[k + 1..]
    ensures |sets[k].acls| == |sets[i].acls| && (sets[i].acls != [] ==> k == i)
    ensures sets[i].acls == [] ==> forall j :: 0 <= j < k ==> sets[j].acls != []
    decreases sets
  {
    if i > 0 && sets[i].acls != [] {
      assert Apart(sets[0], sets[i]);
      ApartNotSame(sets[0], sets[i]);
    }
    if SameList(sets[0].acls, sets[i].acls) {
      k := 0;
    } else {
      var rest := sets[1..];
      forall x, y | 0 <= x < y < |rest| ensures Apart(rest[x], rest[y]) {
        assert Apart(sets[x + 1], sets[y + 1]);
      }
      k := FirstSame(rest, i - 1);
      DropBehindHead(sets, k);
      k := k + 1;
    }
  }

  lemma DropBehindHead<T>(s: seq<T>, k: nat)
    requires k + 1 < |s|
    ensures [s[0]] + (s[1..][..k] + s[1..][k + 1..]) == s[..k + 1] + s[k + 2..]
  {
  }

  /** What `remove_aclset_by_base` removes when the bases are unique. */
  lemma RemovedSet(sets: seq<AclSet>, i: nat) returns (k: nat)
    requires i < |sets| && UniqueIds(sets) && UniqueBases(sets)
    ensures k <= i && RemoveByBase(sets, 0, sets[i].base) == sets[..k] + sets[k + 1..]
    ensures |sets[k].acls| == |sets[i].acls| && (sets[i].acls != [] ==> k == i)
    ensures sets[i].acls == [] ==> forall j :: 0 <= j < k ==> sets[j].acls != []
  {
    k := FirstSame(sets, i);
    SkipTo(sets, 0, i);
    var rest := sets[..k] + sets[k + 1..];
    NothingLeftToRemove(rest, i + 1, sets[i].base);
  }

  lemma {:induction false} SkipTo(sets: seq<AclSet>, j: nat, i: nat)
    requires j <= i < |sets| && UniqueBases(sets)
    ensures RemoveByBase(sets, j, sets[i].base)
         == RemoveByBase(RemoveFirstSame(sets, sets[i].acls), i + 1, sets[i].base)
    decreases i - j
  {
    var base := sets[i].base;
    if j < i {
      SkipTo(sets, j + 1, i);
      assert sets[j].base != base && RemoveByBase(sets, j, base) == RemoveByBase(sets, j + 1, base);
    }
  }

  /** The base is gone from the list exactly when its set was not empty or no empty set stood before it. */
  lemma BaseGoneIff(sets: seq<AclSet>, i: nat)
    requires i < |sets| && UniqueIds(sets) && UniqueBases(sets)
    ensures !HasBase(RemoveByBase(sets, 0, sets[i].base), sets[i].base)
       <==> sets[i].acls != [] || forall j :: 0 <= j < i ==> sets[j].acls != []
  {
    var k := RemovedSet(sets, i);
    BaseInRest(sets, i, k);
    assert k == i <==> sets[i].acls != [] || forall j :: 0 <= j < i ==> sets[j].acls != [];
  }

  lemma BaseInRest(sets: seq<AclSet>, i: nat, k: nat)
    requires i < |sets| && k < |sets| && UniqueBases(sets)
    ensures HasBase(sets[..k] + sets[k + 1..], sets[i].base) <==> k != i
  {
    var rest := sets[..k] + sets[k + 1..];
    if k < i {
      assert rest[i - 1] == sets[i] && sets[i] in rest;
    } else if i < k {
      assert rest[i] == sets[i] && sets[i] in rest;
    } else {
      forall j | 0 <= j < |rest| ensures rest[j].base != sets[i].base {
        assert rest[j] == if j < k then sets[j] else sets[j + 1];
      }
    }
  }

  /** All entries on `base` taken out. */
  function Emptied(sets: seq<AclSet>, base: Dn): seq<AclSet> {
    seq(|sets|, i requires 0 <= i < |sets| => if sets[i].base == base then AclSet(base, []) else sets[i])
  }

  lemma {:induction false} EmptiedAtBase(sets: seq<AclSet>, base: Dn, b: Dn, own: bool)
    ensures AtBase(Emptied(sets, base), b, own) == if b == base then [] else AtBase(sets, b, own)
    decreases sets
  {
    if sets != [] {
      EmptiedAtBase(sets[1..], base, b, own);
      assert Emptied(sets, base)[1..] == Emptied(sets[1..], base);
    }
  }

  lemma {:induction false} AtBaseConcat(x: seq<AclSet>, y: seq<AclSet>, b: Dn, own: bool)
    ensures AtBase(x + y, b, own) == AtBase(x, b, own) + AtBase(y, b, own)
    decreases x
  {
    if x == [] {
      assert x + y == y;
    } else {
      assert (x + y)[0] == x[0] && (x + y)[1..] == x[1..] + y;
      AtBaseConcat(x[1..], y, b, own);
    }
  }

  lemma {:induction false} NoneAtBase(sets: seq<AclSet>, b: Dn, own: bool)
    requires forall s :: s in sets && s.base == b ==> s.acls == []
    ensures AtBase(sets, b, own) == []
    decreases sets
  {
    if sets != [] {
      assert sets[0] in sets;
      NoneAtBase(sets[1..], b, own);
    }
  }

  lemma DropSilent(pre: seq<AclSet>, x: AclSet, post: seq<AclSet>, b: Dn, own: bool)
    requires x.base == b ==> x.acls == []
    ensures AtBase(pre + [x] + post, b, own) == AtBase(pre + post, b, own)
  {
    AtBaseConcat(pre + [x], post, b, own);
    AtBaseConcat(pre, [x], b, own);
    AtBaseConcat(pre, post, b, own);
    assert AtBase([x], b, own) == [];
  }

  lemma RestIsSilent(sets: seq<AclSet>, i: nat, k: nat, s: AclSet)
    requires i < |sets| && k < |sets| && UniqueBases(sets) && (sets[i].acls != [] ==> k == i)
    requires s in sets[..k] + sets[k + 1..] && s.base == sets[i].base
    ensures s.acls == []
  {
    var rest := sets[..k] + sets[k + 1..];
    var j :| 0 <= j < |rest| && rest[j] == s;
    var m := if j < k then j else j + 1;
    assert s == sets[m] && m != k;
    assert m == i;
  }

  /** Whichever set object goes, at every base exactly the entries on the removed base are gone. */
  lemma RemovalAtBase(sets: seq<AclSet>, i: nat, b: Dn, own: bool)
    requires i < |sets| && UniqueIds(sets) && UniqueBases(sets)
    ensures AtBase(RemoveByBase(sets, 0, sets[i].base), b, own) == AtBase(Emptied(sets, sets[i].base), b, own)
  {
    var k := RemovedSet(sets, i);
    var pre, post := sets[..k], sets[k + 1..];
    EmptiedAtBase(sets, sets[i].base, b, own);
    if b == sets[i].base {
      forall s: AclSet | s in pre + post && s.base == b ensures s.acls == [] {
        RestIsSilent(sets, i, k, s);
      }
      NoneAtBase(pre + post, b, own);
    } else {
      assert sets == pre + [sets[k]] + post;
      DropSilent(pre, sets[k], post, b, own);
    }
  }

  lemma {:induction false} SameAtBaseSameWalk(p: Policy, p': Policy, target: Dn, base: Dn)
    requires p.root == p'.root
    requires forall b, own :: AtBase(p.sets, b, own) == AtBase(p'.sets, b, own)
    ensures Walk(p, target, base) == Walk(p', target, base)
    decreases |base|
  {
    if Contains(base, p.root) && base != [] {
      SameAtBaseSameWalk(p, p', target, base[1..]);
    }
  }

  /** `remove_aclset_by_base` decides like the same list with the entries on that base taken out. */
  lemma RemovalDecides(p: Policy, i: nat, query: Query)
    requires i < |p.sets| && UniqueIds(p.sets) && UniqueBases(p.sets)
    ensures Decide(p.(sets := RemoveByBase(p.sets, 0, p.sets[i].base)), query)
         == Decide(p.(sets := Emptied(p.sets, p.sets[i].base)), query)
  {
    var p1 := p.(sets := RemoveByBase(p.sets, 0, p.sets[i].base));
    var p2 := p.(sets := Emptied(p.sets, p.sets[i].base));
    forall b, own ensures AtBase(p1.sets, b, own) == AtBase(p2.sets, b, own) {
      RemovalAtBase(p.sets, i, b, own);
    }
    if query.user.Some? && query.user.value !in p.admins {
      var t := Target(p, query);
      SameAtBaseSameWalk(p1, p2, t, t);
      SameFold(p1, p2, Request(query.user.value, query.topic, query.acls, t), Walk(p1, t, t), false);
    }
  }
}
