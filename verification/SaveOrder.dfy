/** The order attributes are saved in (`__saveOrder`), and the change propagation in `commit` that relies on it. */
module SaveOrder {
  import opened Wrappers

  /** `depends_on` of every attribute. */
  type Deps = map<string, seq<string>>

  datatype Error =
    | DependLoop         // ATTRIBUTE_DEPEND_LOOP
    | UnknownAttribute   // KeyError: a dependency that is no attribute

  /** `x` ends a dependency walk of `d` steps from `item`. */
  ghost predicate Reaches(deps: Deps, item: string, d: nat, x: string)
    decreases d
  {
    if d == 0 then x == item
    else item in deps && exists k :: k in deps[item] && Reaches(deps, k, d - 1, x)
  }

  /** Every walk from `item` stays among the attributes and has at most `budget` of them. */
  ghost predicate Safe(deps: Deps, item: string, budget: nat)
    decreases budget
  {
    budget > 0 && item in deps && forall k :: k in deps[item] ==> Safe(deps, k, budget - 1)
  }

  ghost predicate Closed(deps: Deps) {
    forall k, d :: k in deps && d in deps[k] ==> d in deps
  }

  ghost predicate Distinct(s: seq<string>) {
    forall i, j :: 0 <= i < j < |s| ==> s[i] != s[j]
  }

  /** Every dependency of an attribute stands before it. */
  ghost predicate DependencyFirst(order: seq<string>, deps: Deps) {
    forall i, k :: 0 <= i < |order| && order[i] in deps && k in deps[order[i]] ==> k in order[..i]
  }

  lemma {:induction false} OneStepFurther(deps: Deps, item: string, d: nat, x: string, k: string)
    requires Reaches(deps, item, d, x) && x in deps && k in deps[x]
    ensures Reaches(deps, item, d + 1, k)
    decreases d
  {
    if d == 0 {
      assert k in deps[item] && Reaches(deps, k, 0, k);
    } else {
      var m :| m in deps[item] && Reaches(deps, m, d - 1, x);
      OneStepFurther(deps, m, d - 1, x, k);
    }
  }

  lemma {:induction false} SafeReach(deps: Deps, item: string, budget: nat, d: nat, x: string)
    requires Safe(deps, item, budget) && Reaches(deps, item, d, x)
    ensures d < budget && x in deps && Safe(deps, x, budget - d)
    decreases d
  {
    if d > 0 {
      var m :| m in deps[item] && Reaches(deps, m, d - 1, x);
      SafeReach(deps, m, budget - 1, d - 1, x);
    }
  }

  /** `x` ends a walk of `d` steps whose second attribute is one of `ks`. */
  ghost predicate Deeper(deps: Deps, ks: seq<string>, d: int, x: string) {
    d > 0 && exists k :: k in ks && Reaches(deps, k, d - 1, x)
  }

  lemma DeeperAppend(deps: Deps, ks: seq<string>, k: string, d: int, x: string)
    ensures Deeper(deps, ks + [k], d, x) <==> Deeper(deps, ks, d, x) || (d > 0 && Reaches(deps, k, d - 1, x))
  {
    if Deeper(deps, ks, d, x) {
      var m :| m in ks && Reaches(deps, m, d - 1, x);
      assert m in ks + [k];
    }
    if d > 0 && Reaches(deps, k, d - 1, x) {
      assert k in ks + [k];
    }
  }

  /** The dictionary `res` of `__saveOrderHelper`: the attributes met at each level. */
  class LevelTable {
    var levels: map<int, seq<string>>

    constructor ()
      ensures levels == map[]
    {
      levels := map[];
    }
  }

  ghost predicate Listed(levels: map<int, seq<string>>, l: int, x: string) {
    l in levels && x in levels[l]
  }

  /** `__saveOrderHelper` for an attribute: its dependencies one level deeper, then itself. */
  method SaveOrderHelper(deps: Deps, res: LevelTable, item: string, level: nat) returns (error: Option<Error>)
    requires 1 <= level <= 10
    modifies res
    ensures old(res.levels.Keys) <= res.levels.Keys
    ensures error.None? <==> Safe(deps, item, 10 - level)
    ensures error.None? ==> forall l, x :: Listed(res.levels, l, x) <==>
              Listed(old(res.levels), l, x) || (l >= level && Reaches(deps, item, l - level, x))
    ensures Closed(deps) && item in deps ==> error != Some(UnknownAttribute)
    decreases 10 - level
  {
    if level !in res.levels {
      res.levels := res.levels[level := []];
    }
    if level == 10 { return Some(DependLoop); }
    if item !in deps { return Some(UnknownAttribute); }
    var ks := deps[item];
    for i := 0 to |ks|
      invariant old(res.levels.Keys) + {level} <= res.levels.Keys
      invariant forall j :: 0 <= j < i ==> Safe(deps, ks[j], 9 - level)
      invariant forall l, x :: Listed(res.levels, l, x) <==>
                  (Listed(old(res.levels), l, x) || Deeper(deps, ks[..i], l - level, x))
    {
      label Before:
      var e := SaveOrderHelper(deps, res, ks[i], level + 1);
      if e.Some? {
        assert ks[i] in deps[item];
        return e;
      }
      assert ks[..i + 1] == ks[..i] + [ks[i]];
      forall l, x
        ensures Listed(res.levels, l, x) <==>
                  (Listed(old(res.levels), l, x) || Deeper(deps, ks[..i + 1], l - level, x))
      {
        DeeperAppend(deps, ks[..i], ks[i], l - level, x);
        assert Listed(res.levels, l, x) <==>
          (Listed(old@Before(res.levels), l, x) || (l >= level + 1 && Reaches(deps, ks[i], l - (level + 1), x)));
      }
    }
    assert ks[..|ks|] == ks;
    label After:
    res.levels := res.levels[level := res.levels[level] + [item]];
    assert forall l, x :: Listed(res.levels, l, x) <==>
                            Listed(old@After(res.levels), l, x) || (l == level && x == item);
    return None;
  }

  /** `x` is met at level `l` when every attribute starts a walk at level 1. */
  ghost predicate Met(deps: Deps, names: seq<string>, l: int, x: string) {
    l >= 1 && exists k :: k in names && Reaches(deps, k, l - 1, x)
  }

  lemma MetAppend(deps: Deps, names: seq<string>, k: string, l: int, x: string)
    ensures Met(deps, names + [k], l, x) <==> Met(deps, names, l, x) || (l >= 1 && Reaches(deps, k, l - 1, x))
  {
    DeeperAppend(deps, names, k, l, x);
    assert Met(deps, names, l, x) == Deeper(deps, names, l, x);
    assert Met(deps, names + [k], l, x) == Deeper(deps, names + [k], l, x);
  }

  /** The level-0 call of `__saveOrderHelper`: every attribute, in dictionary order, starts at level 1. */
  method CollectLevels(names: seq<string>, deps: Deps) returns (error: Option<Error>, res: LevelTable)
    ensures fresh(res)
    ensures error.None? <==> forall k :: k in names ==> Safe(deps, k, 9)
    ensures error.None? ==> forall l, x :: Listed(res.levels, l, x) <==> Met(deps, names, l, x)
    ensures Closed(deps) && (forall k :: k in names ==> k in deps) ==> error != Some(UnknownAttribute)
  {
    res := new LevelTable();
    res.levels := map[0 := []];
    for i := 0 to |names|
      invariant forall j :: 0 <= j < i ==> Safe(deps, names[j], 9)
      invariant forall l, x :: Listed(res.levels, l, x) <==> Met(deps, names[..i], l, x)
    {
      label Before:
      error := SaveOrderHelper(deps, res, names[i], 1);
      if error.Some? {
        assert names[i] in names;
        return;
      }
      assert names[..i + 1] == names[..i] + [names[i]];
      forall l, x ensures Listed(res.levels, l, x) <==> Met(deps, names[..i + 1], l, x) {
        MetAppend(deps, names[..i], names[i], l, x);
        assert Listed(res.levels, l, x) <==>
          (Listed(old@Before(res.levels), l, x) || (l >= 1 && Reaches(deps, names[i], l - 1, x)));
      }
    }
    assert names[..|names|] == names;
    error := None;
  }

  /** `__saveOrder`: deepest level first, every attribute at its first appearance. */
  method SaveOrder(names: seq<string>, deps: Deps) returns (r: Result<seq<string>, Error>)
    requires forall k :: k in names <==> k in deps
    ensures r.Success? <==> forall k :: k in deps ==> Safe(deps, k, 9)
    ensures r.Success? ==> Distinct(r.value) && DependencyFirst(r.value, deps)
    ensures r.Success? ==> forall k :: k in r.value <==> k in deps
    ensures Closed(deps) ==> r != Failure(UnknownAttribute)
  {
    var error, res := CollectLevels(names, deps);
    if error.Some? { return Failure(error.value); }
    var levels := res.levels;
    assert forall l, x :: Listed(levels, l, x) <==> Met(deps, names, l, x);
    forall x ensures !ListedFrom(levels, 10, x) && (ListedFrom(levels, 0, x) <==> x in deps) {
      AllMet(deps, names, levels, x);
    }
    forall l, x | Listed(levels, l, x) ensures DependenciesNext(deps, levels, l, x) {
      DependenciesListed(deps, names, l, x);
    }
    var attrs := DeepestFirst(levels, deps);
    r := Success(attrs);
  }

  ghost predicate DependenciesNext(deps: Deps, levels: map<int, seq<string>>, l: int, x: string) {
    x in deps ==> forall k :: k in deps[x] ==> Listed(levels, l + 1, k)
  }

  /** The loop over the levels, highest number first. */
  method DeepestFirst(levels: map<int, seq<string>>, ghost deps: Deps) returns (attrs: seq<string>)
    requires forall x :: !ListedFrom(levels, 10, x)
    requires forall l, x :: Listed(levels, l, x) ==> DependenciesNext(deps, levels, l, x)
    ensures Distinct(attrs) && DependencyFirst(attrs, deps)
    ensures forall x :: x in attrs <==> ListedFrom(levels, 0, x)
  {
    attrs := [];
    for level := 10 downto 0
      invariant Distinct(attrs) && DependencyFirst(attrs, deps)
      invariant forall x :: x in attrs <==> ListedFrom(levels, level, x)
    {
      var candidates := if level in levels then levels[level] else [];
      forall x, k | x in candidates && x in deps && k in deps[x] ensures k in attrs {
        assert Listed(levels, level, x) && DependenciesNext(deps, levels, level, x);
        assert Listed(levels, level + 1, k);
      }
      ghost var higher := attrs;
      attrs := AppendNew(attrs, candidates, deps);
      forall x ensures x in attrs <==> ListedFrom(levels, level, x) {
        assert x in candidates <==> Listed(levels, level, x);
        assert x in higher <==> ListedFrom(levels, level + 1, x);
      }
    }
  }

  method AppendNew(before: seq<string>, candidates: seq<string>, ghost deps: Deps) returns (attrs: seq<string>)
    requires Distinct(before) && DependencyFirst(before, deps)
    requires forall x, k :: x in candidates && x in deps && k in deps[x] ==> k in before
    ensures Distinct(attrs) && DependencyFirst(attrs, deps)
    ensures forall x :: x in attrs <==> x in before || x in candidates
  {
    attrs := before;
    for i := 0 to |candidates|
      invariant Distinct(attrs) && DependencyFirst(attrs, deps)
      invariant forall x :: x in attrs <==> x in before || x in candidates[..i]
    {
      var attr := candidates[i];
      assert candidates[..i + 1] == candidates[..i] + [attr];
      if attr !in attrs {
        assert attr in candidates;
        AppendKeepsOrder(attrs, attr, deps);
        attrs := attrs + [attr];
      }
    }
    assert candidates[..|candidates|] == candidates;
  }

  ghost predicate ListedFrom(levels: map<int, seq<string>>, level: int, x: string) {
    exists l :: l >= level && Listed(levels, l, x)
  }

  lemma AllMet(deps: Deps, names: seq<string>, levels: map<int, seq<string>>, x: string)
    requires forall k :: k in names <==> k in deps
    requires forall k :: k in names ==> Safe(deps, k, 9)
    requires forall l, y :: Listed(levels, l, y) <==> Met(deps, names, l, y)
    ensures ListedFrom(levels, 0, x) <==> x in deps
    ensures !ListedFrom(levels, 10, x)
  {
    if x in deps {
      assert Reaches(deps, x, 0, x) && Met(deps, names, 1, x);
      assert Listed(levels, 1, x);
    }
    forall l | Listed(levels, l, x) ensures l < 10 && x in deps {
      var k :| k in names && Reaches(deps, k, l - 1, x);
      SafeReach(deps, k, 9, l - 1, x);
    }
  }

  lemma DependenciesListed(deps: Deps, names: seq<string>, l: int, x: string)
    requires Met(deps, names, l, x)
    ensures x in deps ==> forall k :: k in deps[x] ==> Met(deps, names, l + 1, k)
  {
    var m :| m in names && Reaches(deps, m, l - 1, x);
    if x in deps {
      forall k | k in deps[x] ensures Met(deps, names, l + 1, k) {
        OneStepFurther(deps, m, l - 1, x, k);
      }
    }
  }

  lemma AppendKeepsOrder(attrs: seq<string>, attr: string, deps: Deps)
    requires Distinct(attrs) && DependencyFirst(attrs, deps) && attr !in attrs
    requires attr in deps ==> forall k :: k in deps[attr] ==> k in attrs
    ensures Distinct(attrs + [attr]) && DependencyFirst(attrs + [attr], deps)
  {
    forall i, k | 0 <= i < |attrs + [attr]| && (attrs + [attr])[i] in deps && k in deps[(attrs + [attr])[i]]
      ensures k in (attrs + [attr])[..i]
    {
      assert (attrs + [attr])[..i] == attrs[..i];
      if i == |attrs| {
        assert attrs[..i] == attrs;
      }
    }
  }

  // ----- when it raises -----

  /** Some dependency walk has ten attributes. */
  ghost predicate WalkOfTen(deps: Deps) {
    exists k, x :: k in deps && Reaches(deps, k, 9, x)
  }

  lemma {:induction false} UnsafeHasWalk(deps: Deps, item: string, budget: nat)
    requires Closed(deps) && item in deps && !Safe(deps, item, budget)
    ensures exists x :: Reaches(deps, item, budget, x)
    decreases budget
  {
    if budget == 0 {
      assert Reaches(deps, item, 0, item);
    } else {
      var k :| k in deps[item] && !Safe(deps, k, budget - 1);
      UnsafeHasWalk(deps, k, budget - 1);
      var x :| Reaches(deps, k, budget - 1, x);
      assert Reaches(deps, item, budget, x);
    }
  }

  /** The order exists exactly when all dependencies are attributes and no walk has ten of them. */
  lemma OrderExistsIff(deps: Deps)
    ensures (forall k :: k in deps ==> Safe(deps, k, 9)) <==> Closed(deps) && !WalkOfTen(deps)
  {
    if forall k :: k in deps ==> Safe(deps, k, 9) {
      forall k, d | k in deps && d in deps[k] ensures d in deps {
        assert Safe(deps, k, 9);
        assert Safe(deps, d, 8);
      }
      if k, x :| k in deps && Reaches(deps, k, 9, x) {
        SafeReach(deps, k, 9, 9, x);
      }
    } else if Closed(deps) {
      var k :| k in deps && !Safe(deps, k, 9);
      UnsafeHasWalk(deps, k, 9);
    }
  }

  lemma {:induction false} CycleNeverSafe(deps: Deps, item: string, d: nat, budget: nat)
    requires d > 0 && Reaches(deps, item, d, item)
    ensures !Safe(deps, item, budget)
    decreases budget
  {
    if Safe(deps, item, budget) {
      SafeReach(deps, item, budget, d, item);
      CycleNeverSafe(deps, item, d, budget - d);
    }
  }

  /** Every cycle is a walk of ten attributes, so every cycle raises. */
  lemma CycleRaises(deps: Deps, item: string, d: nat)
    requires Closed(deps) && item in deps && d > 0 && Reaches(deps, item, d, item)
    ensures WalkOfTen(deps)
  {
    CycleNeverSafe(deps, item, d, 9);
    UnsafeHasWalk(deps, item, 9);
  }

  // ----- change propagation in `commit` -----

  type Flags = map<string, bool>

  /** Some attribute `key` depends on, directly or not, or `key` itself, was changed. */
  ghost predicate Affected(deps: Deps, status: Flags, key: string) {
    exists d: nat, x :: Reaches(deps, key, d, x) && x in status && status[x]
  }

  lemma AffectedUnfold(deps: Deps, status: Flags, key: string)
    requires key in deps && key in status
    ensures Affected(deps, status, key) <==>
              status[key] || exists k :: k in deps[key] && Affected(deps, status, k)
  {
    if status[key] {
      assert Reaches(deps, key, 0, key);
    }
    if k :| k in deps[key] && Affected(deps, status, k) {
      var d: nat, x :| Reaches(deps, k, d, x) && x in status && status[x];
      assert Reaches(deps, key, d + 1, x);
    }
    if Affected(deps, status, key) {
      var d: nat, x :| Reaches(deps, key, d, x) && x in status && status[x];
      if d > 0 {
        var k :| k in deps[key] && Reaches(deps, k, d - 1, x);
        assert Affected(deps, status, k);
      }
    }
  }

  /** `affected` is closed the way the flags are passed on. */
  ghost predicate Fixpoint(deps: Deps, status: Flags, affected: set<string>) {
    && status.Keys == deps.Keys
    && forall key :: key in deps ==> (key in affected <==> status[key] || exists k :: k in deps[key] && k in affected)
  }

  /** Between passes: flags start at the status and only ever mark affected attributes. */
  ghost predicate Sound(status: Flags, affected: set<string>, commit: Flags) {
    && commit.Keys == status.Keys
    && forall k :: k in status ==> (status[k] ==> commit[k]) && (commit[k] ==> k in affected)
  }

  ghost predicate Settled(affected: set<string>, commit: Flags, keys: seq<string>) {
    forall k :: k in keys && k in commit ==> (commit[k] <==> k in affected)
  }

  ghost predicate AnyChanged(ks: seq<string>, status: Flags, commit: Flags) {
    exists k :: k in ks && k in status && k in commit && (status[k] || commit[k])
  }

  /** The inner loop: `key` takes over the flags of its dependencies. */
  method Absorb(key: string, ks: seq<string>, status: Flags, before: Flags) returns (commit: Flags, required: bool)
    requires before.Keys == status.Keys && key in before && forall k :: k in ks ==> k in status
    ensures commit == before[key := before[key] || AnyChanged(ks, status, before)]
    ensures required <==> commit != before
  {
    commit, required := before, false;
    for j := 0 to |ks|
      invariant commit == before[key := before[key] || AnyChanged(ks[..j], status, before)]
      invariant required <==> commit[key] != before[key]
    {
      var propname := ks[j];
      assert ks[..j + 1] == ks[..j] + [propname];
      var previous := commit[key];
      commit := commit[key := commit[key] || status[propname]];
      commit := commit[key := commit[key] || commit[propname]];
      if commit[key] != previous {
        required := true;
      }
    }
    assert ks[..|ks|] == ks;
    assert before == before[key := before[key]];
  }

  lemma AbsorbIsSound(deps: Deps, status: Flags, affected: set<string>, before: Flags, key: string)
    requires Fixpoint(deps, status, affected) && Sound(status, affected, before) && key in deps
    ensures AnyChanged(deps[key], status, before) ==> key in affected
  {
    if k :| k in deps[key] && k in status && k in before && (status[k] || before[k]) {
      assert k in affected;
    }
  }

  lemma AbsorbSettles(deps: Deps, status: Flags, affected: set<string>, before: Flags, done: seq<string>, key: string)
    requires Fixpoint(deps, status, affected) && Sound(status, affected, before) && key in deps
    requires Settled(affected, before, done) && forall k :: k in deps[key] ==> k in done && k in deps
    ensures before[key] || AnyChanged(deps[key], status, before) <==> key in affected
  {
    AbsorbIsSound(deps, status, affected, before, key);
    if key in affected && !status[key] {
      var k :| k in deps[key] && k in affected;
      assert before[k];
    }
  }

  /** What the absorption does to all flags. */
  lemma AbsorbKeepsSound(deps: Deps, status: Flags, affected: set<string>, a: Flags, key: string)
    requires Fixpoint(deps, status, affected) && key in deps && Sound(status, affected, a)
    ensures var b := a[key := a[key] || AnyChanged(deps[key], status, a)];
      Sound(status, affected, b) && Grows(a, b)
  {
    AbsorbIsSound(deps, status, affected, a, key);
  }

  lemma AbsorbSettlesOneMore(deps: Deps, status: Flags, affected: set<string>, a: Flags, done: seq<string>,
                             key: string)
    requires Fixpoint(deps, status, affected) && key in deps && Sound(status, affected, a)
    requires Settled(affected, a, done) && forall k :: k in deps[key] ==> k in done && k in deps
    ensures Settled(affected, a[key := a[key] || AnyChanged(deps[key], status, a)], done + [key])
  {
    AbsorbSettles(deps, status, affected, a, done, key);
  }

  lemma TakeOneMore<T>(s: seq<T>, i: nat)
    requires i < |s|
    ensures s[..i + 1] == s[..i] + [s[i]]
  {
  }

  lemma PassStep(order: seq<string>, i: nat, deps: Deps, status: Flags, affected: set<string>, a: Flags, b: Flags)
    requires Closed(deps) && Fixpoint(deps, status, affected) && i < |order| && order[i] in deps
    requires Sound(status, affected, a) && b == a[order[i] := a[order[i]] || AnyChanged(deps[order[i]], status, a)]
    ensures Sound(status, affected, b) && Grows(a, b)
    ensures DependencyFirst(order, deps) && Settled(affected, a, order[..i]) ==> Settled(affected, b, order[..i + 1])
  {
    AbsorbKeepsSound(deps, status, affected, a, order[i]);
    if DependencyFirst(order, deps) && Settled(affected, a, order[..i]) {
      AbsorbSettlesOneMore(deps, status, affected, a, order[..i], order[i]);
      TakeOneMore(order, i);
    }
  }

  /** One pass over the attributes; `required` tells whether a flag was set. */
  method Pass(order: seq<string>, deps: Deps, status: Flags, before: Flags, ghost affected: set<string>)
    returns (commit: Flags, required: bool)
    requires Closed(deps) && Fixpoint(deps, status, affected) && forall k :: k in order ==> k in deps
    requires Sound(status, affected, before)
    ensures Sound(status, affected, commit)
    ensures required <==> commit != before
    ensures DependencyFirst(order, deps) ==> Settled(affected, commit, order)
  {
    commit, required := before, false;
    for i := 0 to |order|
      invariant Sound(status, affected, commit)
      invariant Grows(before, commit)
      invariant required <==> commit != before
      invariant DependencyFirst(order, deps) ==> Settled(affected, commit, order[..i])
    {
      var key := order[i];
      assert key in order;
      var next, changed := Absorb(key, deps[key], status, commit);
      PassStep(order, i, deps, status, affected, commit, next);
      GrowsOnly(before, commit, next);
      commit := next;
      if changed { required := true; }
    }
    assert order[..|order|] == order;
  }

  ghost predicate Grows(a: Flags, b: Flags) {
    a.Keys == b.Keys && forall k :: k in a && a[k] ==> b[k]
  }

  lemma GrowsOnly(a: Flags, b: Flags, c: Flags)
    requires Grows(a, b) && Grows(b, c)
    ensures Grows(a, c) && (b != c ==> a != c)
  {
    if b != c {
      assert exists k :: k in b && b[k] != c[k];
    }
  }

  lemma SettledUnique(affected: set<string>, a: Flags, b: Flags, order: seq<string>)
    requires a.Keys == b.Keys && forall k :: k in a ==> k in order
    requires Settled(affected, a, order) && Settled(affected, b, order)
    ensures a == b
  {
  }

  /** The bounded loop of `commit`. Along a dependency-first order the first pass marks everything that is
      affected, the second finds nothing to do, and the bound of five passes is never reached.
      Along any order nothing is marked that is not affected. */
  method Propagate(order: seq<string>, deps: Deps, status: Flags) returns (commit: Flags, passes: nat)
    requires Closed(deps) && status.Keys == deps.Keys && forall k :: k in order <==> k in deps
    ensures commit.Keys == deps.Keys && passes <= 5
    ensures forall k :: k in deps ==> (status[k] ==> commit[k]) && (commit[k] ==> Affected(deps, status, k))
    ensures DependencyFirst(order, deps) ==>
              passes <= 2 && forall k :: k in deps ==> (commit[k] <==> Affected(deps, status, k))
  {
    ghost var affected := AffectedSet(deps, status);
    commit := status;
    var first, max, required := true, 5, false;
    while (first || required) && max > 0
      invariant 0 <= max <= 5 && Sound(status, affected, commit)
      invariant first <==> max == 5
      invariant DependencyFirst(order, deps) && max < 5 ==> Settled(affected, commit, order)
      invariant DependencyFirst(order, deps) ==> max >= 4 || (max == 3 && !required)
      decreases max
    {
      ghost var again := !first;
      first := false;
      max := max - 1;
      ghost var before := commit;
      commit, required := Pass(order, deps, status, commit, affected);
      if DependencyFirst(order, deps) && again {
        SettledUnique(affected, before, commit, order);
      }
    }
    passes := 5 - max;
  }

  lemma AffectedSet(deps: Deps, status: Flags) returns (affected: set<string>)
    requires Closed(deps) && status.Keys == deps.Keys
    ensures Fixpoint(deps, status, affected) && Sound(status, affected, status)
    ensures forall k :: k in affected <==> k in deps && Affected(deps, status, k)
  {
    affected := set k | k in deps && Affected(deps, status, k);
    forall key | key in deps
      ensures key in affected <==> status[key] || exists k :: k in deps[key] && k in affected
    {
      AffectedUnfold(deps, status, key);
      if k :| k in deps[key] && Affected(deps, status, k) {
        assert k in affected;
      }
    }
    forall k | k in deps && status[k] ensures k in affected {
      AffectedUnfold(deps, status, k);
    }
  }

  /** An object's order is computed when it is created and used when it is committed: together the two give
      a commit status that is exact, or an object that cannot be created. */
  method OrderAndPropagate(names: seq<string>, deps: Deps, status: Flags) returns (r: Result<Flags, Error>)
    requires status.Keys == deps.Keys && forall k :: k in names <==> k in deps
    ensures r.Success? <==> Closed(deps) && !WalkOfTen(deps)
    ensures r.Success? ==>
              r.value.Keys == deps.Keys && forall k :: k in deps ==> (r.value[k] <==> Affected(deps, status, k))
  {
    OrderExistsIff(deps);
    var order := SaveOrder(names, deps);
    if order.Failure? { return Failure(order.error); }
    var commit, _ := Propagate(order.value, deps, status);
    r := Success(commit);
  }
}
