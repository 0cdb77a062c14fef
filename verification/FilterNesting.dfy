/** What the unrelocated numbering does to every filter that nests a <When> in the body of a <When>. */
module FilterNesting {
  import opened Wrappers
  import opened FilterSyntax
  import opened FilterCompiler
  import opened FilterMachine
  import opened FilterExecution
  import opened FilterCorrectness

  /** The first <When> that has a body with a <When> in it has one in its `matched` body. */
  predicate FirstNests(ws: seq<When>) {
    ws != [] && if PlainBodies(ws[0]) then FirstNests(ws[1..]) else !Plain(ws[0].matched)
  }

  /** The <When>s of a chain that are not inside others, in order. */
  function Outermost(es: seq<Entry>): seq<When> {
    if es == [] then [] else (if es[0].Choice? then es[0].whens else []) + Outermost(es[1..])
  }

  predicate NestsInMatched(es: seq<Entry>) {
    FirstNests(Outermost(es))
  }

  // ----- a stretch of lines that is never left -----

  /** Whoever takes every conditional jump when it holds stays within this code or goes one line behind it. */
  ghost predicate StaysBehind(code: seq<Line>, n: nat) {
    forall i :: 0 <= i < |code| ==> StaysUpTo(code[i], n + |code| + 1)
  }

  predicate StaysUpTo(line: Line, last: int) {
    match line
    case Branch(onTrue, _) => 1 <= onTrue <= last
    case Goto(to) => 1 <= to <= last
    case _ => true
  }

  /** The first `size` lines of the code, which stands behind `n` others, end in a conditional jump, and no jump that is
      taken leads behind it. */
  ghost predicate IsTrap(code: seq<Line>, n: nat, size: nat) {
    && 0 < size <= |code| && code[size - 1].Branch?
    && forall i :: 0 <= i < size ==> StaysUpTo(code[i], n + size)
  }

  lemma ForwardStays(code: seq<Line>, n: nat)
    requires ForwardFrom(code, n)
    ensures StaysBehind(code, n)
  {
    forall i | 0 <= i < |code|
      ensures StaysUpTo(code[i], n + |code| + 1)
    {
      assert JumpsAhead(code[i], n + i + 1, n + |code|);
    }
  }

  lemma TrapBehind(a: seq<Line>, b: seq<Line>, rest: seq<Line>, n: nat, size: nat)
    requires StaysBehind(a, n) && IsTrap(b, n + |a|, size)
    ensures IsTrap(a + b + rest, n, |a| + size)
  {
    var code := a + b + rest;
    assert code[|a| + size - 1] == b[size - 1];
    forall i | 0 <= i < |a| + size
      ensures StaysUpTo(code[i], n + |a| + size)
    {
      if i >= |a| {
        assert code[i] == b[i - |a|];
      }
    }
  }

  /** A body with a <When> in it, numbered from line 1, holds a trap wherever else it is put. */
  lemma {:induction false} TrapInBody(es: seq<Entry>, m: nat, p: nat) returns (size: nat)
    requires !Plain(es) && m < p
    ensures IsTrap(Code(es, m, false), p, size)
    decreases es
  {
    var e, rest := es[0], es[1..];
    var head := EntryCode(e, m, false);
    var tail := Code(rest, m + |head|, false);
    if e.Choice? && e.whens != [] {
      size := TrapInFirst(e.whens, m, p);
      assert IsTrap(head + tail, p, size);
    } else {
      assert forall x | x in es :: x == e || x in rest;
      var inner := TrapInBody(rest, m + |head|, p + |head|);
      TrapBehind(head, tail, [], p, inner);
      assert head + tail + [] == head + tail;
      size := |head| + inner;
    }
  }

  lemma TrapInFirst(ws: seq<When>, m: nat, p: nat) returns (size: nat)
    requires ws != [] && m < p
    ensures IsTrap(WhensCode(ws, m, false), p, size)
  {
    var c, code := ChainCode(ws[0].condition), WhensCode(ws, m, false);
    FirstJump(ws, m, false);
    size := |c| + 1;
    assert c <= WhenCode(ws[0], m, false) <= code;
    forall i | 0 <= i < size
      ensures StaysUpTo(code[i], p + size)
    {
      if i < |c| {
        NoJumps(ws[0].condition, i);
        assert code[i] == c[i];
      }
    }
  }

  lemma {:induction false} NoJumps(c: Chain, i: nat)
    requires i < |ChainCode(c)|
    ensures !ChainCode(c)[i].Branch? && !ChainCode(c)[i].Goto?
  {
    if c.Operator? {
      var l, r := |ChainCode(c.left)|, |ChainCode(c.right)|;
      if i < l {
        NoJumps(c.left, i);
      } else if i < l + r {
        NoJumps(c.right, i - l);
      }
    }
  }

  lemma TrapInWhen(w: When, n: nat) returns (size: nat)
    requires !Plain(w.matched)
    ensures IsTrap(WhenCode(w, n, false), n, size)
  {
    var c, f, e := ChainCode(w.condition), Code(w.matched, 0, false), Code(w.otherwise, 0, false);
    var onMatch, noMatch := n + |c| + 2, n + |c| + |f| + 3;
    var test, goto := c + [Branch(onMatch, noMatch)], [Goto(noMatch + |e|)];
    forall i | 0 <= i < |test|
      ensures StaysUpTo(test[i], n + |test| + 1)
    {
      if i < |c| {
        NoJumps(w.condition, i);
      }
    }
    var inner := TrapInBody(w.matched, 0, n + |test|);
    TrapBehind(test, f, goto + e, n, inner);
    assert test + f + (goto + e) == Assembled(c, n, f, e);
    size := |test| + inner;
  }

  lemma {:induction false} TrapInWhens(ws: seq<When>, n: nat) returns (size: nat)
    requires FirstNests(ws)
    ensures IsTrap(WhensCode(ws, n, false), n, size)
    decreases ws
  {
    var head := WhenCode(ws[0], n, false);
    if PlainBodies(ws[0]) {
      WhenAgreesIffPlain(ws[0], n);
      ForwardWhen(ws[0], n);
      ForwardStays(head, n);
      var inner := TrapInWhens(ws[1..], n + |head|);
      TrapBehind(head, WhensCode(ws[1..], n + |head|, false), [], n, inner);
      assert head + WhensCode(ws[1..], n + |head|, false) + [] == WhensCode(ws, n, false);
      size := |head| + inner;
    } else {
      size := TrapInWhen(ws[0], n);
      assert IsTrap(WhensCode(ws, n, false), n, size);
    }
  }

  lemma {:induction false} FirstOfTwo(a: seq<When>, b: seq<When>)
    ensures FirstNests(a + b) <==> if forall w | w in a :: PlainBodies(w) then FirstNests(b) else FirstNests(a)
    decreases a
  {
    if a == [] {
      assert a + b == b;
    } else {
      assert (a + b)[0] == a[0] && (a + b)[1..] == a[1..] + b;
      assert forall w :: w in a <==> w == a[0] || w in a[1..];
      FirstOfTwo(a[1..], b);
    }
  }

  lemma {:induction false} TrapInChain(es: seq<Entry>, n: nat) returns (size: nat)
    requires NestsInMatched(es)
    ensures IsTrap(Code(es, n, false), n, size)
    decreases es
  {
    var e, rest := es[0], es[1..];
    var head, whens := EntryCode(e, n, false), if e.Choice? then e.whens else [];
    var tail := Code(rest, n + |head|, false);
    FirstOfTwo(whens, Outermost(rest));
    if forall w | w in whens :: PlainBodies(w) {
      WhensAgreeIffPlain(whens, n);
      ForwardEntry(e, n);
      ForwardStays(head, n);
      var inner := TrapInChain(rest, n + |head|);
      TrapBehind(head, tail, [], n, inner);
      assert head + tail + [] == head + tail;
      size := |head| + inner;
    } else {
      size := TrapInWhens(whens, n);
      assert IsTrap(head + tail, n, size);
    }
  }

  // ----- the machine in a trap -----

  /** Comparators that always agree and filters that change nothing. */
  function Agreeing(): Runtime {
    Runtime((call, st) => Success(st), (call, key) => Success(Verdict(true)))
  }

  ghost predicate Caught(c: Config, size: nat, st: State) {
    0 <= c.lptr < size && c.state == st && forall v :: v in c.stack ==> Truthy(v)
  }

  lemma StaysCaught(lines: seq<Line>, size: nat, c: Config, st: State)
    requires IsTrap(lines, 0, size) && Caught(c, size, st) && ValidState(st)
    ensures var next := Step(Agreeing(), lines, c);
      match next
      case Stop(r) => r == Failure(EmptyStack)
      case Continue(c') => Caught(c', size, st)
  {
    assert StaysUpTo(lines[c.lptr], size);
    var n := |c.stack|;
    if n > 0 {
      assert c.stack[n - 1] in c.stack;
    }
    if n > 1 {
      assert c.stack[n - 2] in c.stack;
    }
  }

  lemma {:induction false} CaughtForEver(lines: seq<Line>, size: nat, c: Config, st: State, fuel: nat)
    requires IsTrap(lines, 0, size) && Caught(c, size, st) && ValidState(st)
    ensures var next := Steps(Agreeing(), lines, c, fuel); next.Stop? ==> next.result == Failure(EmptyStack)
    decreases fuel
  {
    if fuel > 0 {
      StaysCaught(lines, size, c, st);
      var next := Step(Agreeing(), lines, c);
      if next.Continue? {
        CaughtForEver(lines, size, next.config, st, fuel - 1);
      }
    }
  }

  // ----- the tree has a meaning all the same -----

  lemma {:induction false} AgreeingHolds(c: Chain, key: string)
    requires Full(c)
    ensures Holds(Agreeing(), c, key) == Success(true)
  {
    if c.Operator? {
      AgreeingHolds(c.left, key);
      AgreeingHolds(c.right, key);
    }
  }

  lemma {:induction false} AgreeingMeaning(es: seq<Entry>, st: State)
    requires Complete(es) && ValidState(st)
    ensures Interpret(Agreeing(), es, st) == Success(st)
    decreases es, 1
  {
    if es != [] {
      if es[0].Choice? {
        AgreeingWhens(es[0].whens, st);
      }
      AgreeingMeaning(es[1..], st);
    }
  }

  lemma {:induction false} AgreeingWhens(ws: seq<When>, st: State)
    requires CompleteWhens(ws) && ValidState(st)
    ensures InterpretWhens(Agreeing(), ws, st) == Success(st)
    decreases ws, 0
  {
    if ws != [] {
      AgreeingHolds(ws[0].condition, st.key);
      AgreeingMeaning(ws[0].matched, st);
      AgreeingWhens(ws[1..], st);
    }
  }

  // ----- the theorems -----

  /** Every filter whose first nesting <When> nests in its `matched` body: with comparators that agree and filters that
      change nothing its tree leaves the state as it is, but its lines never come to an end that is not an error. */
  lemma {:induction false} NestingNeverEnds(chains: seq<seq<Entry>>, st: State)
    requires NestsInMatched(Joined(chains)) && Complete(Joined(chains)) && ValidState(st)
    ensures Interpret(Agreeing(), Joined(chains), st) == Success(st)
    ensures forall fuel: nat :: var next := Steps(Agreeing(), ChainsCode(chains, 0), Config(0, [], st), fuel);
              next.Stop? ==> next.result == Failure(EmptyStack)
  {
    AgreeingMeaning(Joined(chains), st);
    CodeOfJoined(chains, 0);
    var size := TrapInChain(Joined(chains), 0);
    forall fuel: nat
      ensures var next := Steps(Agreeing(), ChainsCode(chains, 0), Config(0, [], st), fuel);
        next.Stop? ==> next.result == Failure(EmptyStack)
    {
      CaughtForEver(ChainsCode(chains, 0), size, Config(0, [], st), st, fuel);
    }
  }

  /** The machine ends on the lines in what the trees say. */
  ghost predicate EndsAsMeant(rt: Runtime, chains: seq<seq<Entry>>, st: State) {
    exists fuel: nat ::
      Steps(rt, ChainsCode(chains, 0), Config(0, [], st), fuel) == Stop(Interpret(rt, Joined(chains), st))
  }

  /** Leaving out filters that nest first in an Else body, the lines mean what the trees say, for all filters,
      comparators and states, if and only if no body holds a <When>. */
  lemma {:induction false} MeantIffFlat(chains: seq<seq<Entry>>)
    requires Complete(Joined(chains)) && (Flat(Joined(chains)) || NestsInMatched(Joined(chains)))
    ensures (forall rt, st :: EndsAsMeant(rt, chains, st)) <==> Flat(Joined(chains))
  {
    if Flat(Joined(chains)) {
      forall rt, st
        ensures EndsAsMeant(rt, chains, st)
      {
        var lines := ChainsCode(chains, 0);
        CompiledMeansTree(rt, chains, st);
        StopsInTime(rt, lines, Config(0, [], st), |lines| + 1);
      }
    } else {
      var property: Property := map["backend" := Null, "value" := Null, "type" := Null];
      var st := State("key", map["key" := property]);
      NestingNeverEnds(chains, st);
      assert !EndsAsMeant(Agreeing(), chains, st);
    }
  }
}
