/** Running the compiled lines means the same as reading the tree. */
module FilterCorrectness {
  import opened Wrappers
  import opened FilterSyntax
  import opened FilterCompiler
  import opened FilterMachine
  import opened FilterExecution

  // ----- the jumps of relocated code go ahead -----

  lemma ForwardParts(a: seq<Line>, b: seq<Line>, n: nat)
    requires ForwardFrom(a, n) && ForwardFrom(b, n + |a|)
    ensures ForwardFrom(a + b, n)
  {
    forall i | 0 <= i < |a + b|
      ensures JumpsAhead((a + b)[i], n + i + 1, n + |a + b|)
    {
      if i >= |a| {
        assert (a + b)[i] == b[i - |a|];
        assert JumpsAhead(b[i - |a|], n + |a| + (i - |a|) + 1, n + |a| + |b|);
      } else {
        assert JumpsAhead(a[i], n + i + 1, n + |a|);
      }
    }
  }

  lemma {:induction false} ForwardChain(c: Chain, n: nat)
    ensures ForwardFrom(ChainCode(c), n)
  {
    match c
    case Empty =>
    case Condition(_) =>
    case Operator(_, left, right) =>
      ForwardChain(left, n);
      ForwardChain(right, n + |ChainCode(left)|);
  }

  lemma {:induction false} ForwardCode(es: seq<Entry>, n: nat)
    ensures ForwardFrom(Code(es, n, true), n)
    decreases es, 1
  {
    if es != [] {
      var head := EntryCode(es[0], n, true);
      ForwardEntry(es[0], n);
      ForwardCode(es[1..], n + |head|);
      ForwardParts(head, Code(es[1..], n + |head|, true), n);
    }
  }

  lemma {:induction false} ForwardEntry(e: Entry, n: nat)
    ensures ForwardFrom(EntryCode(e, n, true), n)
    decreases e, 0
  {
    if e.Choice? {
      ForwardWhens(e.whens, n);
    }
  }

  lemma {:induction false} ForwardWhens(ws: seq<When>, n: nat)
    ensures ForwardFrom(WhensCode(ws, n, true), n)
    decreases ws, 1
  {
    if ws != [] {
      var head := WhenCode(ws[0], n, true);
      ForwardWhen(ws[0], n);
      ForwardWhens(ws[1..], n + |head|);
      ForwardParts(head, WhensCode(ws[1..], n + |head|, true), n);
    }
  }

  lemma {:induction false} ForwardWhen(w: When, n: nat)
    ensures ForwardFrom(WhenCode(w, n, true), n)
    decreases w, 0
  {
    var cond := ChainCode(w.condition);
    var f := Code(w.matched, n + |cond| + 1, true);
    var e := Code(w.otherwise, n + |cond| + |f| + 2, true);
    ForwardChain(w.condition, n);
    ForwardCode(w.matched, n + |cond| + 1);
    ForwardCode(w.otherwise, n + |cond| + |f| + 2);
    ForwardAssembled(cond, n, f, e);
  }

  lemma ForwardAssembled(c: seq<Line>, n: nat, f: seq<Line>, e: seq<Line>)
    requires ForwardFrom(c, n) && ForwardFrom(f, n + |c| + 1) && ForwardFrom(e, n + |c| + |f| + 2)
    ensures ForwardFrom(Assembled(c, n, f, e), n)
  {
    var code := Assembled(c, n, f, e);
    var i1, i2 := |c| + 1, |c| + 1 + |f|;
    forall i | 0 <= i < |code|
      ensures JumpsAhead(code[i], n + i + 1, n + |code|)
    {
      if i < |c| {
        assert JumpsAhead(c[i], n + i + 1, n + |c|);
      } else if i1 <= i < i2 {
        assert code[i] == f[i - i1];
        assert JumpsAhead(f[i - i1], n + i1 + (i - i1) + 1, n + i1 + |f|);
      } else if i > i2 {
        assert code[i] == e[i - i2 - 1];
        assert JumpsAhead(e[i - i2 - 1], n + i2 + 1 + (i - i2 - 1) + 1, n + i2 + 1 + |e|);
      }
    }
  }

  // ----- where the two numberings agree -----

  lemma {:induction false} SameSize(es: seq<Entry>, n: nat, r: bool, n': nat, r': bool)
    ensures |Code(es, n, r)| == |Code(es, n', r')|
    decreases es, 1
  {
    if es != [] {
      SameSizeEntry(es[0], n, r, n', r');
      SameSize(es[1..], n + |EntryCode(es[0], n, r)|, r, n' + |EntryCode(es[0], n', r')|, r');
    }
  }

  lemma {:induction false} SameSizeEntry(e: Entry, n: nat, r: bool, n': nat, r': bool)
    ensures |EntryCode(e, n, r)| == |EntryCode(e, n', r')|
    decreases e, 0
  {
    if e.Choice? {
      SameSizeWhens(e.whens, n, r, n', r');
    }
  }

  lemma {:induction false} SameSizeWhens(ws: seq<When>, n: nat, r: bool, n': nat, r': bool)
    ensures |WhensCode(ws, n, r)| == |WhensCode(ws, n', r')|
    decreases ws, 1
  {
    if ws != [] {
      SameSizeWhen(ws[0], n, r, n', r');
      SameSizeWhens(ws[1..], n + |WhenCode(ws[0], n, r)|, r, n' + |WhenCode(ws[0], n', r')|, r');
    }
  }

  lemma {:induction false} SameSizeWhen(w: When, n: nat, r: bool, n': nat, r': bool)
    ensures |WhenCode(w, n, r)| == |WhenCode(w, n', r')|
    decreases w, 0
  {
    var m, m' := n + |ChainCode(w.condition)| + 1, n' + |ChainCode(w.condition)| + 1;
    SameSize(w.matched, if r then m else 0, r, if r' then m' else 0, r');
    var k := |Code(w.matched, if r then m else 0, r)|;
    SameSize(w.otherwise, if r then m + k + 1 else 0, r, if r' then m' + k + 1 else 0, r');
  }

  /** A body with a <When> in it looks different at every position: its jumps are absolute. */
  lemma {:induction false} JumpsPinThePosition(es: seq<Entry>, n: nat, r: bool, n': nat, r': bool)
    requires !Plain(es) && n != n'
    ensures Code(es, n, r) != Code(es, n', r')
    decreases es
  {
    var e, rest := es[0], es[1..];
    var head, head' := EntryCode(e, n, r), EntryCode(e, n', r');
    SameSizeEntry(e, n, r, n', r');
    var tail, tail' := Code(rest, n + |head|, r), Code(rest, n' + |head'|, r');
    assert Code(es, n, r) == head + tail && Code(es, n', r') == head' + tail';
    SameParts(head, tail, head', tail');
    if e.Choice? && e.whens != [] {
      WhensPinThePosition(e.whens, n, r, n', r');
    } else {
      assert forall x | x in es :: x == e || x in rest;
      JumpsPinThePosition(rest, n + |head|, r, n' + |head'|, r');
    }
  }

  lemma WhensPinThePosition(ws: seq<When>, n: nat, r: bool, n': nat, r': bool)
    requires ws != [] && n != n'
    ensures WhensCode(ws, n, r) != WhensCode(ws, n', r')
  {
    FirstJump(ws, n, r);
    FirstJump(ws, n', r');
  }

  lemma FirstJump(ws: seq<When>, n: nat, r: bool)
    requires ws != []
    ensures var i := |ChainCode(ws[0].condition)|; var code := WhensCode(ws, n, r);
      i < |code| && code[i].Branch? && code[i].onTrue == n + i + 2
  {
    var i, code := |ChainCode(ws[0].condition)|, WhenCode(ws[0], n, r);
    assert code[i].Branch? && code[i].onTrue == n + i + 2;
  }

  lemma {:induction false} PlainCode(es: seq<Entry>, n: nat, r: bool, n': nat, r': bool)
    requires Plain(es)
    ensures Code(es, n, r) == Code(es, n', r')
    decreases es
  {
    if es != [] {
      assert es[0] in es && forall e | e in es[1..] :: e in es;
      PlainCode(es[1..], n + |EntryCode(es[0], n, r)|, r, n' + |EntryCode(es[0], n', r')|, r');
      assert EntryCode(es[0], n, r) == EntryCode(es[0], n', r');
    }
  }

  predicate PlainBodies(w: When) {
    Plain(w.matched) && Plain(w.otherwise)
  }

  lemma {:induction false} WhenAgreesIffPlain(w: When, n: nat)
    ensures WhenCode(w, n, false) == WhenCode(w, n, true) <==> PlainBodies(w)
  {
    var c := ChainCode(w.condition);
    var f, f' := Code(w.matched, 0, false), Code(w.matched, n + |c| + 1, true);
    var e, e' := Code(w.otherwise, 0, false), Code(w.otherwise, n + |c| + |f'| + 2, true);
    BodyAgreesIffPlain(w.matched, n + |c| + 1);
    BodyAgreesIffPlain(w.otherwise, n + |c| + |f'| + 2);
    SamePieces(c, n, f, e, f', e');
  }

  lemma BodyAgreesIffPlain(es: seq<Entry>, n: nat)
    requires n > 0
    ensures |Code(es, 0, false)| == |Code(es, n, true)|
    ensures Code(es, 0, false) == Code(es, n, true) <==> Plain(es)
  {
    SameSize(es, 0, false, n, true);
    if Plain(es) {
      PlainCode(es, 0, false, n, true);
    } else {
      JumpsPinThePosition(es, 0, false, n, true);
    }
  }

  lemma {:induction false} WhensAgreeIffPlain(ws: seq<When>, n: nat)
    ensures WhensCode(ws, n, false) == WhensCode(ws, n, true) <==> forall w | w in ws :: PlainBodies(w)
    decreases ws
  {
    if ws != [] {
      var a, b := WhenCode(ws[0], n, false), WhenCode(ws[0], n, true);
      SameSizeWhen(ws[0], n, false, n, true);
      WhenAgreesIffPlain(ws[0], n);
      WhensAgreeIffPlain(ws[1..], n + |a|);
      SameParts(a, WhensCode(ws[1..], n + |a|, false), b, WhensCode(ws[1..], n + |a|, true));
      assert forall w :: w in ws <==> w == ws[0] || w in ws[1..];
    }
  }

  /** The handlers number a chain as the relocating compiler does exactly when no body holds a <When>. */
  lemma {:induction false} CodeAgreesIffFlat(es: seq<Entry>, n: nat)
    ensures Code(es, n, false) == Code(es, n, true) <==> Flat(es)
    decreases es
  {
    if es != [] {
      var e, rest := es[0], es[1..];
      var a, b := EntryCode(e, n, false), EntryCode(e, n, true);
      SameSizeEntry(e, n, false, n, true);
      if e.Choice? {
        WhensAgreeIffPlain(e.whens, n);
      }
      CodeAgreesIffFlat(rest, n + |a|);
      SameParts(a, Code(rest, n + |a|, false), b, Code(rest, n + |a|, true));
      FlatCons(es);
    }
  }

  lemma FlatCons(es: seq<Entry>)
    requires es != []
    ensures Flat(es) <==> (es[0].Choice? ==> forall w | w in es[0].whens :: PlainBodies(w)) && Flat(es[1..])
  {
    assert forall e :: e in es <==> e == es[0] || e in es[1..];
    if Flat(es) && es[0].Choice? {
      assert es[0] in es;
    }
  }

  lemma SameParts<T>(a: seq<T>, x: seq<T>, b: seq<T>, y: seq<T>)
    requires |a| == |b|
    ensures a + x == b + y <==> a == b && x == y
  {
    if a + x == b + y {
      assert (a + x)[..|a|] == a && (b + y)[..|a|] == b;
      assert (a + x)[|a|..] == x && (b + y)[|a|..] == y;
    }
  }

  lemma SamePieces(c: seq<Line>, n: nat, f: seq<Line>, e: seq<Line>, f': seq<Line>, e': seq<Line>)
    requires |f| == |f'| && |e| == |e'|
    ensures Assembled(c, n, f, e) == Assembled(c, n, f', e') <==> f == f' && e == e'
  {
    var onMatch, noMatch := n + |c| + 2, n + |c| + |f| + 3;
    var branch, goto := [Branch(onMatch, noMatch)], [Goto(noMatch + |e|)];
    SameParts(c + branch + f + goto, e, c + branch + f' + goto, e');
    SameParts(c + branch + f, goto, c + branch + f', goto);
    SameParts(c + branch, f, c + branch, f');
  }

  // ----- where unrelocated jumps go back -----

  /** A jump that does not go ahead when the code stands behind `n` lines. */
  ghost predicate JumpsBackFrom(code: seq<Line>, n: nat) {
    exists i :: 0 <= i < |code| && code[i].Branch? && code[i].onTrue <= n + i + 1
  }

  lemma BackIsNotForward(code: seq<Line>, n: nat)
    requires JumpsBackFrom(code, n)
    ensures !ForwardFrom(code, n)
  {
    var i :| 0 <= i < |code| && code[i].Branch? && code[i].onTrue <= n + i + 1;
    assert !JumpsAhead(code[i], n + i + 1, n + |code|);
  }

  lemma BackInPart(a: seq<Line>, b: seq<Line>, c: seq<Line>, n: nat)
    requires JumpsBackFrom(b, n + |a|)
    ensures JumpsBackFrom(a + b + c, n)
  {
    var i :| 0 <= i < |b| && b[i].Branch? && b[i].onTrue <= n + |a| + i + 1;
    assert (a + b + c)[|a| + i] == b[i];
  }

  /** A body with a <When> in it, numbered from line 1, jumps back wherever else it is put. */
  lemma {:induction false} BodyJumpsBack(es: seq<Entry>, m: nat, p: nat)
    requires !Plain(es) && m < p
    ensures JumpsBackFrom(Code(es, m, false), p)
    decreases es
  {
    var e, rest := es[0], es[1..];
    var head := EntryCode(e, m, false);
    var tail := Code(rest, m + |head|, false);
    if e.Choice? && e.whens != [] {
      FirstJump(e.whens, m, false);
      var i := |ChainCode(e.whens[0].condition)|;
      assert head[i].Branch? && head[i].onTrue <= p + i + 1;
      BackInPart([], head, tail, p);
      assert [] + head + tail == head + tail;
    } else {
      assert forall x | x in es :: x == e || x in rest;
      BodyJumpsBack(rest, m + |head|, p + |head|);
      BackInPart(head, tail, [], p);
      assert head + tail + [] == head + tail;
    }
  }

  lemma WhenJumpsBack(w: When, n: nat)
    requires !PlainBodies(w)
    ensures JumpsBackFrom(WhenCode(w, n, false), n)
  {
    var c, f, e := ChainCode(w.condition), Code(w.matched, 0, false), Code(w.otherwise, 0, false);
    var onMatch, noMatch := n + |c| + 2, n + |c| + |f| + 3;
    var branch, goto := [Branch(onMatch, noMatch)], [Goto(noMatch + |e|)];
    if !Plain(w.matched) {
      BodyJumpsBack(w.matched, 0, n + |c| + 1);
      BackInPart(c + branch, f, goto + e, n);
      assert c + branch + f + (goto + e) == Assembled(c, n, f, e);
    } else {
      BodyJumpsBack(w.otherwise, 0, n + |c| + |f| + 2);
      BackInPart(c + branch + f + goto, e, [], n);
      assert c + branch + f + goto + e + [] == Assembled(c, n, f, e);
    }
  }

  lemma {:induction false} WhensJumpBack(ws: seq<When>, n: nat)
    requires exists w :: w in ws && !PlainBodies(w)
    ensures JumpsBackFrom(WhensCode(ws, n, false), n)
    decreases ws
  {
    var head := WhenCode(ws[0], n, false);
    var tail := WhensCode(ws[1..], n + |head|, false);
    if !PlainBodies(ws[0]) {
      WhenJumpsBack(ws[0], n);
      BackInPart([], head, tail, n);
      assert [] + head + tail == head + tail;
    } else {
      assert forall w | w in ws :: w == ws[0] || w in ws[1..];
      WhensJumpBack(ws[1..], n + |head|);
      BackInPart(head, tail, [], n);
      assert head + tail + [] == head + tail;
    }
  }

  lemma {:induction false} ChainJumpsBack(es: seq<Entry>, n: nat)
    requires !Flat(es)
    ensures JumpsBackFrom(Code(es, n, false), n)
    decreases es
  {
    if es != [] {
      var head := EntryCode(es[0], n, false);
      var tail := Code(es[1..], n + |head|, false);
      FlatCons(es);
      if Flat(es[1..]) {
        WhensJumpBack(es[0].whens, n);
        BackInPart([], head, tail, n);
        assert [] + head + tail == head + tail;
      } else {
        ChainJumpsBack(es[1..], n + |head|);
        BackInPart(head, tail, [], n);
        assert head + tail + [] == head + tail;
      }
    }
  }

  /** All jumps the handlers emit for a chain go ahead if and only if no body holds a <When>. */
  lemma ForwardIffFlat(es: seq<Entry>, n: nat)
    ensures ForwardFrom(Code(es, n, false), n) <==> Flat(es)
  {
    if Flat(es) {
      CodeAgreesIffFlat(es, n);
      ForwardCode(es, n);
    } else {
      ChainJumpsBack(es, n);
      BackIsNotForward(Code(es, n, false), n);
    }
  }

  // ----- the theorems -----

  /** The relocating compiler is right for every nesting. */
  lemma RelocatedMeansTree(rt: Runtime, es: seq<Entry>, st: State)
    requires Complete(es)
    ensures Forward(Code(es, 0, true))
    ensures Run(rt, Code(es, 0, true), Config(0, [], st)) == Interpret(rt, es, st)
  {
    ForwardCode(es, 0);
    var lines := Code(es, 0, true);
    RunCode(rt, lines, es, Config(0, [], st));
    GetsThere(rt, lines, Config(0, [], st), After(|lines|, [], Interpret(rt, es, st)));
  }

  /** The handlers' compiler is right behind any lines compiled before,
      whatever values those leave on the stack. */
  lemma {:induction false} AppendedMeansTree(rt: Runtime, before: seq<Line>, es: seq<Entry>, c: Config)
    requires Forward(before) && Complete(es) && Flat(es) && 0 <= c.lptr <= |before|
    ensures var lines := before + Code(es, |before|, false);
      && Forward(lines)
      && var r := Run(rt, before, c);
         Run(rt, lines, c) == if r.Failure? then r else Interpret(rt, es, r.value)
    decreases |before| - c.lptr
  {
    var code := Code(es, |before|, false);
    var lines := before + code;
    CodeAgreesIffFlat(es, |before|);
    ForwardCode(es, |before|);
    ForwardParts(before, code, 0);
    if c.lptr == |before| {
      RunCode(rt, lines, es, c);
      GetsThere(rt, lines, c, After(|lines|, c.stack, Interpret(rt, es, c.state)));
    } else {
      assert Step(rt, lines, c) == Step(rt, before, c);
      var next := Step(rt, before, c);
      if next.Continue? {
        AppendedMeansTree(rt, before, es, next.config);
      }
    }
  }

  /** The entries of several chains, one chain after the other. */
  function Joined(chains: seq<seq<Entry>>): seq<Entry> {
    if chains == [] then [] else chains[0] + Joined(chains[1..])
  }

  lemma {:induction false} CodeOfConcat(a: seq<Entry>, b: seq<Entry>, n: nat)
    ensures Code(a + b, n, false) == Code(a, n, false) + Code(b, n + |Code(a, n, false)|, false)
    decreases a
  {
    if a == [] {
      assert a + b == b;
    } else {
      assert (a + b)[0] == a[0] && (a + b)[1..] == a[1..] + b;
      CodeOfConcat(a[1..], b, n + |EntryCode(a[0], n, false)|);
    }
  }

  lemma {:induction false} CodeOfJoined(chains: seq<seq<Entry>>, n: nat)
    ensures ChainsCode(chains, n) == Code(Joined(chains), n, false)
    decreases chains
  {
    if chains != [] {
      CodeOfConcat(chains[0], Joined(chains[1..]), n);
      CodeOfJoined(chains[1..], n + |Code(chains[0], n, false)|);
    }
  }

  /** What `__build_filter` makes of an in- or out-filter, run by `__processFilter`, is what its trees say. */
  lemma CompiledMeansTree(rt: Runtime, chains: seq<seq<Entry>>, st: State)
    requires Complete(Joined(chains)) && Flat(Joined(chains))
    ensures Forward(ChainsCode(chains, 0))
    ensures Run(rt, ChainsCode(chains, 0), Config(0, [], st)) == Interpret(rt, Joined(chains), st)
  {
    CodeOfJoined(chains, 0);
    CodeAgreesIffFlat(Joined(chains), 0);
    RelocatedMeansTree(rt, Joined(chains), st);
  }

  // ----- stack safety -----

  lemma {:induction false} FullNeverUnderflows(rt: Runtime, c: Chain, key: string)
    requires Full(c)
    ensures Holds(rt, c, key) != Failure(EmptyStack)
  {
    if c.Operator? {
      FullNeverUnderflows(rt, c.left, key);
      FullNeverUnderflows(rt, c.right, key);
    }
  }

  /** No run of a compiled filter with complete conditions pops from an empty stack. */
  lemma NeverUnderflows(rt: Runtime, chains: seq<seq<Entry>>, st: State)
    requires Complete(Joined(chains)) && Flat(Joined(chains))
    ensures Run(rt, ChainsCode(chains, 0), Config(0, [], st)) != Failure(EmptyStack)
    ensures forall fuel: nat :: Steps(rt, ChainsCode(chains, 0), Config(0, [], st), fuel) != Stop(Failure(EmptyStack))
  {
    var lines, c := ChainsCode(chains, 0), Config(0, [], st);
    CompiledMeansTree(rt, chains, st);
    TreeNeverUnderflows(rt, Joined(chains), st);
    forall fuel: nat
      ensures Steps(rt, lines, c, fuel) != Stop(Failure(EmptyStack))
    {
      StopsInTime(rt, lines, c, fuel + |lines| + 1);
      MoreFuel(rt, lines, c, fuel, |lines| + 1);
    }
  }

  /** A machine that has stopped stays where it is. */
  lemma {:induction false} MoreFuel(rt: Runtime, lines: seq<Line>, c: Config, fuel: nat, more: nat)
    ensures Steps(rt, lines, c, fuel).Stop? ==> Steps(rt, lines, c, fuel + more) == Steps(rt, lines, c, fuel)
    decreases fuel
  {
    if fuel > 0 && Step(rt, lines, c).Continue? {
      MoreFuel(rt, lines, Step(rt, lines, c).config, fuel - 1, more);
    }
  }

  lemma {:induction false} TreeNeverUnderflows(rt: Runtime, es: seq<Entry>, st: State)
    requires Complete(es)
    ensures Interpret(rt, es, st) != Failure(EmptyStack)
    decreases es, 1
  {
    if es != [] {
      if es[0].Choice? {
        WhensNeverUnderflow(rt, es[0].whens, st);
      }
      var r := InterpretEntry(rt, es[0], st);
      if r.Success? {
        TreeNeverUnderflows(rt, es[1..], r.value);
      }
    }
  }

  lemma {:induction false} WhensNeverUnderflow(rt: Runtime, ws: seq<When>, st: State)
    requires CompleteWhens(ws)
    ensures InterpretWhens(rt, ws, st) != Failure(EmptyStack)
    decreases ws, 0
  {
    if ws != [] {
      var w := ws[0];
      FullNeverUnderflows(rt, w.condition, st.key);
      TreeNeverUnderflows(rt, w.matched, st);
      TreeNeverUnderflows(rt, w.otherwise, st);
      var r := InterpretWhen(rt, w, st);
      if r.Success? {
        WhensNeverUnderflow(rt, ws[1..], r.value);
      }
    }
  }

  lemma {:induction false} StackHeight(rt: Runtime, c: Chain, key: string, stack: seq<Value>)
    ensures var r := ChainStack(rt, c, key, stack);
      r.Success? ==> |r.value| == |stack| + Height(c)
  {
    if c.Operator? {
      StackHeight(rt, c.left, key, stack);
      var l := ChainStack(rt, c.left, key, stack);
      if l.Success? {
        StackHeight(rt, c.right, key, l.value);
      }
    }
  }

  ghost predicate NeverRaises(rt: Runtime) {
    forall call, key :: rt.compare(call, key).Success?
  }

  lemma {:induction false} OnlyUnderflow(rt: Runtime, c: Chain, key: string, stack: seq<Value>)
    requires NeverRaises(rt)
    ensures var r := ChainStack(rt, c, key, stack);
      && (r.Failure? ==> r.error == EmptyStack)
      && (Full(c) ==> r.Success?)
  {
    if c.Operator? {
      OnlyUnderflow(rt, c.left, key, stack);
      var l := ChainStack(rt, c.left, key, stack);
      if l.Success? {
        OnlyUnderflow(rt, c.right, key, l.value);
        if Full(c) {
          StackHeight(rt, c.left, key, stack);
          StackHeight(rt, c.right, key, l.value);
          HeightOne(c.left);
          HeightOne(c.right);
        }
      }
    }
  }

  /** The schema lets conditions be missing. When none is, a <When> goes on to the body its condition selects;
      when one is, it pops from an empty stack. */
  lemma UnderflowsIffIncomplete(rt: Runtime, lines: seq<Line>, w: When, onMatch: nat, noMatch: nat, end: nat, c: Config)
    requires NeverRaises(rt) && c.stack == [] && 0 <= c.lptr
    requires Placed(lines, w, c.lptr, onMatch, noMatch, end)
    ensures var b := Holds(rt, w.condition, c.state.key);
      if Full(w.condition)
      then b.Success? && Run(rt, lines, c) == Run(rt, lines, c.(lptr := (if b.value then onMatch else noMatch) - 1))
      else Run(rt, lines, c) == Failure(EmptyStack)
  {
    OnlyUnderflow(rt, w.condition, c.state.key, []);
    if Full(w.condition) {
      RunTest(rt, lines, w.condition, onMatch, noMatch, c);
      FullPushesOne(rt, w.condition, c.state.key, []);
      ValueIsTruth(rt, w.condition, c.state.key);
      var b := Holds(rt, w.condition, c.state.key);
      GetsThere(rt, lines, c, Continue(c.(lptr := (if b.value then onMatch else noMatch) - 1)));
    } else {
      HeightOne(w.condition);
      StackHeight(rt, w.condition, c.state.key, []);
      RunChain(rt, lines, w.condition, c.lptr, [], c.state);
      GetsThere(rt, lines, c, AfterStack(onMatch - 2, c.state, ChainStack(rt, w.condition, c.state.key, [])));
      assert lines[onMatch - 2] == [Branch(onMatch, noMatch)][0];
    }
  }

  // ----- what the unrelocated numbering does to a nested <When> -----

  /** <When> c1 with <When> c2 with a filter in its body. */
  function Nested(c1: Call, c2: Call, f: Call): seq<Entry> {
    [Choice([When(Condition(c1), [Choice([When(Condition(c2), [Filter(f)], [])])], [])])]
  }

  lemma OneWhen(rt: Runtime, w: When, n: nat, r: bool, st: State)
    ensures Code([Choice([w])], n, r) == WhenCode(w, n, r)
    ensures Interpret(rt, [Choice([w])], st) == InterpretWhen(rt, w, st)
  {
    assert WhensCode([w], n, r) == WhenCode(w, n, r);
    assert InterpretWhens(rt, [w], st) == InterpretWhen(rt, w, st);
    assert EntryCode(Choice([w]), n, r) == WhenCode(w, n, r);
    assert InterpretEntry(rt, Choice([w]), st) == InterpretWhen(rt, w, st);
  }

  function NestedLines(c1: Call, c2: Call, f: Call): seq<Line> {
    [ConditionLine(c1), Branch(3, 8), ConditionLine(c2), Branch(3, 5), FilterLine(f), Goto(5), Goto(8)]
  }

  lemma NestedCode(rt: Runtime, c1: Call, c2: Call, f: Call, st: State)
    requires NeverRaises(rt) && forall s :: ApplyFilter(rt, f, s).Success?
    ensures Code(Nested(c1, c2, f), 0, false) == NestedLines(c1, c2, f)
    ensures Interpret(rt, Nested(c1, c2, f), st).Success?
  {
    var inner := When(Condition(c2), [Filter(f)], []);
    var outer := When(Condition(c1), [Choice([inner])], []);
    OneWhen(rt, inner, 0, false, st);
    OneWhen(rt, outer, 0, false, st);
    assert Code([Filter(f)], 0, false) == [FilterLine(f)];
    assert WhenCode(inner, 0, false) == [ConditionLine(c2), Branch(3, 5), FilterLine(f), Goto(5)];
    assert WhenCode(outer, 0, false) == NestedLines(c1, c2, f);
    assert Interpret(rt, [Filter(f)], st).Success?;
    assert InterpretWhen(rt, inner, st).Success?;
    assert InterpretWhen(rt, outer, st).Success?;
  }

  /** As soon as the outer condition holds, the machine never halts, whatever the inner one says,
      while the tree has a meaning: the filter is applied or it is not. */
  lemma NestedWhenDiverges(rt: Runtime, c1: Call, c2: Call, f: Call, st: State)
    requires rt.compare(c1, st.key).Success? && Truthy(rt.compare(c1, st.key).value)
    requires NeverRaises(rt) && forall s :: ApplyFilter(rt, f, s).Success?
    ensures Diverges(rt, Code(Nested(c1, c2, f), 0, false), Config(0, [], st))
    ensures Interpret(rt, Nested(c1, c2, f), st).Success?
  {
    NestedCode(rt, c1, c2, f, st);
    var lines := NestedLines(c1, c2, f);
    var v := rt.compare(c1, st.key).value;
    var c0, c1', c2' := Config(0, [], st), Config(1, [v], st), Config(2, [], st);
    assert Step(rt, lines, c0) == Continue(c1');
    assert Step(rt, lines, c1') == Continue(c2');
    forall fuel: nat ensures Steps(rt, lines, c0, fuel).Continue? {
      if fuel > 2 {
        assert Steps(rt, lines, c0, fuel) == Steps(rt, lines, c1', fuel - 1);
        assert Steps(rt, lines, c1', fuel - 1) == Steps(rt, lines, c2', fuel - 2);
        NestedLoops(rt, c1, c2, f, c2', fuel - 2);
      }
    }
  }

  /** The configurations the machine cannot leave once it has entered the unrelocated body. */
  predicate Trapped(c: Config) {
    c.lptr == 2 || (c.lptr == 3 && c.stack != []) || c.lptr == 4 || c.lptr == 5
  }

  lemma StaysTrapped(rt: Runtime, c1: Call, c2: Call, f: Call, c: Config)
    requires NeverRaises(rt) && (forall s :: ApplyFilter(rt, f, s).Success?) && Trapped(c)
    ensures var next := Step(rt, NestedLines(c1, c2, f), c);
      next.Continue? && Trapped(next.config)
  {
    assert rt.compare(c2, c.state.key).Success?;
    assert ApplyFilter(rt, f, c.state).Success?;
  }

  lemma {:induction false} NestedLoops(rt: Runtime, c1: Call, c2: Call, f: Call, c: Config, fuel: nat)
    requires NeverRaises(rt) && (forall s :: ApplyFilter(rt, f, s).Success?) && Trapped(c)
    ensures Steps(rt, NestedLines(c1, c2, f), c, fuel).Continue?
    decreases fuel
  {
    if fuel > 0 {
      StaysTrapped(rt, c1, c2, f, c);
      NestedLoops(rt, c1, c2, f, Step(rt, NestedLines(c1, c2, f), c).config, fuel - 1);
    }
  }

  // ----- comparators that hand back a pair -----

  /** What the comparators meant by their answers. */
  function Meant(rt: Runtime, c: Chain, key: string): bool {
    match c
    case Empty => false
    case Condition(call) => var r := rt.compare(call, key); r.Success? && r.value.ok
    case Operator(op, left, right) =>
      Junct(op, Meant(rt, left, key), Meant(rt, right, key))
  }

  /** Plain verdicts are followed; the pairs the shipped comparators return are all taken for true,
      so a <When> then follows the comparators exactly when their verdict is true. */
  lemma {:induction false} VerdictFollowedIff(rt: Runtime, c: Chain, key: string)
    requires NeverRaises(rt) && Full(c)
    ensures (forall call :: rt.compare(call, key).value.Verdict?) ==> Holds(rt, c, key) == Success(Meant(rt, c, key))
    ensures (forall call :: rt.compare(call, key).value.Reply?) ==>
              (Holds(rt, c, key) == Success(Meant(rt, c, key)) <==> Meant(rt, c, key))
    ensures (forall call :: rt.compare(call, key).value.Reply?) ==> Holds(rt, c, key) == Success(true)
  {
    if c.Operator? {
      VerdictFollowedIff(rt, c.left, key);
      VerdictFollowedIff(rt, c.right, key);
    }
  }
}
