/** The machine on compiled lines, step by step: where it gets to, with which stack, from the start of each piece. */
module FilterExecution {
  import opened Wrappers
  import opened FilterSyntax
  import opened FilterCompiler
  import opened FilterMachine

  /** `code` stands behind the first `n` of the `lines`. */
  ghost predicate At(lines: seq<Line>, n: nat, code: seq<Line>) {
    n + |code| <= |lines| && forall i | 0 <= i < |code| :: lines[n + i] == code[i]
  }

  lemma AtParts(lines: seq<Line>, n: nat, a: seq<Line>, b: seq<Line>)
    requires At(lines, n, a + b)
    ensures At(lines, n, a) && At(lines, n + |a|, b)
  {
    forall i | 0 <= i < |a| ensures lines[n + i] == a[i] {
      assert (a + b)[i] == a[i];
    }
    forall i | 0 <= i < |b| ensures lines[n + |a| + i] == b[i] {
      assert (a + b)[|a| + i] == b[i];
    }
  }

  // ----- getting ahead -----

  /** In `k` steps, all of them ahead, the machine gets from `c` to `n`. */
  ghost predicate GetsIn(rt: Runtime, lines: seq<Line>, c: Config, n: Next, k: nat)
    decreases k
  {
    if k == 0 then n == Continue(c)
    else match Step(rt, lines, c)
      case Stop(r) => k == 1 && n == Stop(r)
      case Continue(d) => c.lptr < d.lptr && GetsIn(rt, lines, d, n, k - 1)
  }

  ghost predicate Gets(rt: Runtime, lines: seq<Line>, c: Config, n: Next) {
    exists k: nat :: GetsIn(rt, lines, c, n, k)
  }

  lemma {:induction false} GetsInSteps(rt: Runtime, lines: seq<Line>, c: Config, n: Next, k: nat)
    requires GetsIn(rt, lines, c, n, k)
    ensures Steps(rt, lines, c, k) == n
    ensures Run(rt, lines, c) == match n { case Stop(r) => r case Continue(d) => Run(rt, lines, d) }
    decreases k
  {
    if k > 0 && Step(rt, lines, c).Continue? {
      GetsInSteps(rt, lines, Step(rt, lines, c).config, n, k - 1);
    }
  }

  /** So it gets there in the machine's own steps, and runs on from there to the same outcome. */
  lemma GetsThere(rt: Runtime, lines: seq<Line>, c: Config, n: Next)
    requires Gets(rt, lines, c, n)
    ensures exists k: nat :: Steps(rt, lines, c, k) == n
    ensures Run(rt, lines, c) == match n { case Stop(r) => r case Continue(d) => Run(rt, lines, d) }
  {
    var k: nat :| GetsIn(rt, lines, c, n, k);
    GetsInSteps(rt, lines, c, n, k);
  }

  lemma Stay(rt: Runtime, lines: seq<Line>, c: Config)
    ensures Gets(rt, lines, c, Continue(c))
  {
    assert GetsIn(rt, lines, c, Continue(c), 0);
  }

  lemma OneStep(rt: Runtime, lines: seq<Line>, c: Config, n: Next)
    requires Step(rt, lines, c) == n && (n.Continue? ==> c.lptr < n.config.lptr)
    ensures Gets(rt, lines, c, n)
  {
    assert n.Continue? ==> GetsIn(rt, lines, n.config, n, 0);
    assert GetsIn(rt, lines, c, n, 1);
  }

  lemma {:induction false} GetsInTogether(rt: Runtime, lines: seq<Line>, c: Config, d: Config, n: Next, k: nat, m: nat)
    requires GetsIn(rt, lines, c, Continue(d), k) && GetsIn(rt, lines, d, n, m)
    ensures GetsIn(rt, lines, c, n, k + m)
    decreases k
  {
    if k > 0 {
      GetsInTogether(rt, lines, Step(rt, lines, c).config, d, n, k - 1, m);
    }
  }

  lemma Onwards(rt: Runtime, lines: seq<Line>, c: Config, d: Config, n: Next)
    requires Gets(rt, lines, c, Continue(d)) && Gets(rt, lines, d, n)
    ensures Gets(rt, lines, c, n)
  {
    var k: nat :| GetsIn(rt, lines, c, Continue(d), k);
    var m: nat :| GetsIn(rt, lines, d, n, m);
    GetsInTogether(rt, lines, c, d, n, k, m);
  }

  // ----- conditions -----

  /** The value a condition tree leaves on the stack: the operator gets the right operand first. */
  function ValueOf(rt: Runtime, c: Chain, key: string): Result<Value, Error> {
    match c
    case Empty => Failure(EmptyStack)
    case Condition(call) =>
      (match rt.compare(call, key)
       case Failure(message) => Failure(Raised(message))
       case Success(v) => Success(v))
    case Operator(op, left, right) =>
      (match ValueOf(rt, left, key)
       case Failure(e) => Failure(e)
       case Success(l) =>
         match ValueOf(rt, right, key)
         case Failure(e) => Failure(e)
         case Success(r) => Success(Combine(op, r, l)))
  }

  /** The operand order does not matter for the truth of the value. */
  lemma {:induction false} ValueIsTruth(rt: Runtime, c: Chain, key: string)
    ensures var v, b := ValueOf(rt, c, key), Holds(rt, c, key);
      if v.Failure? then b == Failure(v.error) else b == Success(Truthy(v.value))
  {
    match c
    case Empty =>
    case Condition(_) =>
    case Operator(_, left, right) =>
      ValueIsTruth(rt, left, key);
      ValueIsTruth(rt, right, key);
  }

  /** What an operator line does to the stack. */
  function Operated(op: Junction, t: seq<Value>): Result<seq<Value>, Error> {
    if |t| < 2 then Failure(EmptyStack)
    else Success(t[..|t| - 2] + [Combine(op, t[|t| - 1], t[|t| - 2])])
  }

  /** What the lines of any condition tree, complete or not, do to the stack. */
  function ChainStack(rt: Runtime, c: Chain, key: string, stack: seq<Value>): Result<seq<Value>, Error> {
    match c
    case Empty => Success(stack)
    case Condition(call) =>
      (match rt.compare(call, key)
       case Failure(message) => Failure(Raised(message))
       case Success(v) => Success(stack + [v]))
    case Operator(op, left, right) =>
      (match ChainStack(rt, left, key, stack)
       case Failure(e) => Failure(e)
       case Success(s) =>
         match ChainStack(rt, right, key, s)
         case Failure(e) => Failure(e)
         case Success(t) =>
           Operated(op, t))
  }

  /** Going on at `lptr` after the lines of a condition tree. */
  function AfterStack(lptr: int, st: State, r: Result<seq<Value>, Error>): Next {
    match r
    case Failure(e) => Stop(Failure(e))
    case Success(stack) => Continue(Config(lptr, stack, st))
  }

  lemma {:induction false} RunChain(rt: Runtime, lines: seq<Line>, cond: Chain, n: nat, stack: seq<Value>, st: State)
    requires At(lines, n, ChainCode(cond))
    ensures Gets(rt, lines, Config(n, stack, st),
                 AfterStack(n + |ChainCode(cond)|, st, ChainStack(rt, cond, st.key, stack)))
    decreases cond
  {
    var c := Config(n, stack, st);
    match cond
    case Empty =>
      Stay(rt, lines, c);
    case Condition(call) =>
      RunComparison(rt, lines, call, n, stack, st);
    case Operator(op, left, right) =>
      OperatorParts(lines, n, op, left, right);
      RunChain(rt, lines, left, n, stack, st);
      var s := ChainStack(rt, left, st.key, stack);
      if s.Success? {
        var m := n + |ChainCode(left)|;
        var k := m + |ChainCode(right)|;
        RunChain(rt, lines, right, m, s.value, st);
        var t := ChainStack(rt, right, st.key, s.value);
        Onwards(rt, lines, c, Config(m, s.value, st), AfterStack(k, st, t));
        if t.Success? {
          RunOperator(rt, lines, op, k, t.value, st);
          Onwards(rt, lines, c, Config(k, t.value, st), AfterStack(k + 1, st, ChainStack(rt, cond, st.key, stack)));
        }
      }
  }

  lemma RunComparison(rt: Runtime, lines: seq<Line>, call: Call, n: nat, stack: seq<Value>, st: State)
    requires At(lines, n, [ConditionLine(call)])
    ensures Gets(rt, lines, Config(n, stack, st),
                 AfterStack(n + 1, st, ChainStack(rt, Condition(call), st.key, stack)))
  {
    assert lines[n] == [ConditionLine(call)][0];
    OneStep(rt, lines, Config(n, stack, st), AfterStack(n + 1, st, ChainStack(rt, Condition(call), st.key, stack)));
  }

  lemma OperatorParts(lines: seq<Line>, n: nat, op: Junction, left: Chain, right: Chain)
    requires At(lines, n, ChainCode(Operator(op, left, right)))
    ensures At(lines, n, ChainCode(left)) && At(lines, n + |ChainCode(left)|, ChainCode(right))
    ensures At(lines, n + |ChainCode(left)| + |ChainCode(right)|, [OperatorLine(op)])
    ensures |ChainCode(Operator(op, left, right))| == |ChainCode(left)| + |ChainCode(right)| + 1
  {
    AtParts(lines, n, ChainCode(left) + ChainCode(right), [OperatorLine(op)]);
    AtParts(lines, n, ChainCode(left), ChainCode(right));
  }

  lemma RunOperator(rt: Runtime, lines: seq<Line>, op: Junction, n: nat, t: seq<Value>, st: State)
    requires At(lines, n, [OperatorLine(op)])
    ensures Gets(rt, lines, Config(n, t, st), AfterStack(n + 1, st, Operated(op, t)))
  {
    assert lines[n] == [OperatorLine(op)][0];
    OneStep(rt, lines, Config(n, t, st), AfterStack(n + 1, st, Operated(op, t)));
  }

  /** A complete tree pushes exactly one value. */
  lemma {:induction false} FullPushesOne(rt: Runtime, c: Chain, key: string, stack: seq<Value>)
    requires Full(c)
    ensures var r, v := ChainStack(rt, c, key, stack), ValueOf(rt, c, key);
      if v.Failure? then r == Failure(v.error) else r == Success(stack + [v.value])
  {
    if c.Operator? {
      FullPushesOne(rt, c.left, key, stack);
      var l := ValueOf(rt, c.left, key);
      if l.Success? {
        FullPushesOne(rt, c.right, key, stack + [l.value]);
        var r := ValueOf(rt, c.right, key);
        if r.Success? {
          var t := stack + [l.value] + [r.value];
          assert t[..|t| - 2] == stack;
        }
      }
    }
  }

  /** The lines of a complete condition push its value, and nothing else. */
  lemma RunCondition(rt: Runtime, lines: seq<Line>, cond: Chain, c: Config)
    requires Full(cond)
    requires 0 <= c.lptr && At(lines, c.lptr, ChainCode(cond))
    ensures var v := ValueOf(rt, cond, c.state.key);
      Gets(rt, lines, c, if v.Failure? then Stop(Failure(v.error))
                         else Continue(Config(c.lptr + |ChainCode(cond)|, c.stack + [v.value], c.state)))
  {
    RunChain(rt, lines, cond, c.lptr, c.stack, c.state);
    FullPushesOne(rt, cond, c.state.key, c.stack);
  }

  // ----- filter chains, all nestings, relocated -----

  /** Going on at `lptr` with the stack that was there before. */
  function After(lptr: int, stack: seq<Value>, r: Result<State, Error>): Next {
    match r
    case Failure(e) => Stop(Failure(e))
    case Success(st) => Continue(Config(lptr, stack, st))
  }

  lemma {:induction false} RunCode(rt: Runtime, lines: seq<Line>, es: seq<Entry>, c: Config)
    requires Complete(es)
    requires 0 <= c.lptr && At(lines, c.lptr, Code(es, c.lptr, true))
    ensures Gets(rt, lines, c, After(c.lptr + |Code(es, c.lptr, true)|, c.stack, Interpret(rt, es, c.state)))
    decreases es, 1
  {
    if es != [] {
      var head := EntryCode(es[0], c.lptr, true);
      AtParts(lines, c.lptr, head, Code(es[1..], c.lptr + |head|, true));
      RunEntry(rt, lines, es[0], c);
      var r := InterpretEntry(rt, es[0], c.state);
      if r.Success? {
        var d := Config(c.lptr + |head|, c.stack, r.value);
        RunCode(rt, lines, es[1..], d);
        Onwards(rt, lines, c, d, After(c.lptr + |Code(es, c.lptr, true)|, c.stack, Interpret(rt, es, c.state)));
      }
    } else {
      Stay(rt, lines, c);
    }
  }

  lemma {:induction false} RunEntry(rt: Runtime, lines: seq<Line>, e: Entry, c: Config)
    requires CompleteEntry(e)
    requires 0 <= c.lptr && At(lines, c.lptr, EntryCode(e, c.lptr, true))
    ensures Gets(rt, lines, c, After(c.lptr + |EntryCode(e, c.lptr, true)|, c.stack, InterpretEntry(rt, e, c.state)))
    decreases e, 0
  {
    match e
    case Filter(call) =>
      assert lines[c.lptr] == EntryCode(e, c.lptr, true)[0];
      OneStep(rt, lines, c, After(c.lptr + 1, c.stack, InterpretEntry(rt, e, c.state)));
    case Choice(whens) =>
      RunWhens(rt, lines, whens, c);
  }

  lemma {:induction false} RunWhens(rt: Runtime, lines: seq<Line>, ws: seq<When>, c: Config)
    requires CompleteWhens(ws)
    requires 0 <= c.lptr && At(lines, c.lptr, WhensCode(ws, c.lptr, true))
    ensures Gets(rt, lines, c, After(c.lptr + |WhensCode(ws, c.lptr, true)|, c.stack, InterpretWhens(rt, ws, c.state)))
    decreases ws, 1
  {
    if ws != [] {
      var head := WhenCode(ws[0], c.lptr, true);
      AtParts(lines, c.lptr, head, WhensCode(ws[1..], c.lptr + |head|, true));
      RunWhen(rt, lines, ws[0], c);
      var r := InterpretWhen(rt, ws[0], c.state);
      if r.Success? {
        var d := Config(c.lptr + |head|, c.stack, r.value);
        RunWhens(rt, lines, ws[1..], d);
        Onwards(rt, lines, c, d,
                After(c.lptr + |WhensCode(ws, c.lptr, true)|, c.stack, InterpretWhens(rt, ws, c.state)));
      }
    } else {
      Stay(rt, lines, c);
    }
  }

  /** Where the pieces of a <When> stand; its code ends at line `end`. */
  ghost predicate Placed(lines: seq<Line>, w: When, n: nat, onMatch: nat, noMatch: nat, end: nat) {
    && At(lines, n, ChainCode(w.condition))
    && onMatch == n + |ChainCode(w.condition)| + 2
    && At(lines, onMatch - 2, [Branch(onMatch, noMatch)])
    && At(lines, onMatch - 1, Code(w.matched, onMatch - 1, true))
    && noMatch == onMatch + |Code(w.matched, onMatch - 1, true)| + 1
    && At(lines, noMatch - 2, [Goto(end + 1)])
    && At(lines, noMatch - 1, Code(w.otherwise, noMatch - 1, true))
    && end == noMatch - 1 + |Code(w.otherwise, noMatch - 1, true)|
  }

  lemma AssembledParts(lines: seq<Line>, n: nat, c: seq<Line>, f: seq<Line>, e: seq<Line>)
    requires At(lines, n, Assembled(c, n, f, e))
    ensures var onMatch := n + |c| + 2; var noMatch := onMatch + |f| + 1;
      && At(lines, n, c) && At(lines, onMatch - 2, [Branch(onMatch, noMatch)])
      && At(lines, onMatch - 1, f) && At(lines, noMatch - 2, [Goto(noMatch + |e|)])
      && At(lines, noMatch - 1, e)
  {
    var onMatch, noMatch := n + |c| + 2, n + |c| + |f| + 3;
    var branch, goto := [Branch(onMatch, noMatch)], [Goto(noMatch + |e|)];
    AtParts(lines, n, c + branch + f + goto, e);
    AtParts(lines, n, c + branch + f, goto);
    AtParts(lines, n, c + branch, f);
    AtParts(lines, n, c, branch);
  }

  lemma WhenPlaced(lines: seq<Line>, w: When, n: nat) returns (onMatch: nat, noMatch: nat)
    requires At(lines, n, WhenCode(w, n, true))
    ensures Placed(lines, w, n, onMatch, noMatch, n + |WhenCode(w, n, true)|)
  {
    var c := ChainCode(w.condition);
    onMatch := n + |c| + 2;
    var f := Code(w.matched, onMatch - 1, true);
    noMatch := onMatch + |f| + 1;
    AssembledParts(lines, n, c, f, Code(w.otherwise, noMatch - 1, true));
  }

  /** From the start of a condition to the first line of the body it selects. */
  lemma RunTest(rt: Runtime, lines: seq<Line>, cond: Chain, onMatch: nat, noMatch: nat, c: Config)
    requires Full(cond)
    requires 0 <= c.lptr && At(lines, c.lptr, ChainCode(cond))
    requires At(lines, c.lptr + |ChainCode(cond)|, [Branch(onMatch, noMatch)])
    requires c.lptr + |ChainCode(cond)| + 1 < onMatch && c.lptr + |ChainCode(cond)| + 1 < noMatch
    ensures var b := Holds(rt, cond, c.state.key);
      Gets(rt, lines, c, if b.Failure? then Stop(Failure(b.error))
                         else Continue(c.(lptr := (if b.value then onMatch else noMatch) - 1)))
  {
    RunCondition(rt, lines, cond, c);
    ValueIsTruth(rt, cond, c.state.key);
    var v := ValueOf(rt, cond, c.state.key);
    if v.Success? {
      var test := c.(lptr := c.lptr + |ChainCode(cond)|);
      RunBranch(rt, lines, onMatch, noMatch, test, v.value);
      Onwards(rt, lines, c, test.(stack := c.stack + [v.value]),
              Continue(c.(lptr := (if Truthy(v.value) then onMatch else noMatch) - 1)));
    }
  }

  lemma {:induction false} RunWhen(rt: Runtime, lines: seq<Line>, w: When, c: Config)
    requires CompleteWhen(w)
    requires 0 <= c.lptr && At(lines, c.lptr, WhenCode(w, c.lptr, true))
    ensures Gets(rt, lines, c, After(c.lptr + |WhenCode(w, c.lptr, true)|, c.stack, InterpretWhen(rt, w, c.state)))
    decreases w, 1
  {
    var onMatch, noMatch := WhenPlaced(lines, w, c.lptr);
    RunPlaced(rt, lines, w, onMatch, noMatch, c.lptr + |WhenCode(w, c.lptr, true)|, c);
  }

  lemma {:induction false} RunPlaced(rt: Runtime, lines: seq<Line>, w: When, onMatch: nat, noMatch: nat, end: nat,
                                     c: Config)
    requires CompleteWhen(w)
    requires 0 <= c.lptr && Placed(lines, w, c.lptr, onMatch, noMatch, end)
    ensures Gets(rt, lines, c, After(end, c.stack, InterpretWhen(rt, w, c.state)))
    decreases w, 0
  {
    RunTest(rt, lines, w.condition, onMatch, noMatch, c);
    var b := Holds(rt, w.condition, c.state.key);
    var n := After(end, c.stack, InterpretWhen(rt, w, c.state));
    if b == Success(true) {
      RunMatched(rt, lines, w.matched, end + 1, c.(lptr := onMatch - 1));
      Onwards(rt, lines, c, c.(lptr := onMatch - 1), n);
    } else if b == Success(false) {
      RunCode(rt, lines, w.otherwise, c.(lptr := noMatch - 1));
      Onwards(rt, lines, c, c.(lptr := noMatch - 1), n);
    }
  }

  /** In the machine's own steps: the stack after a <When> is exactly the stack before it. */
  lemma WhenKeepsStack(rt: Runtime, lines: seq<Line>, w: When, c: Config)
    requires CompleteWhen(w) && 0 <= c.lptr && At(lines, c.lptr, WhenCode(w, c.lptr, true))
    ensures match InterpretWhen(rt, w, c.state)
      case Success(st) => exists k: nat ::
        Steps(rt, lines, c, k) == Continue(Config(c.lptr + |WhenCode(w, c.lptr, true)|, c.stack, st))
      case Failure(e) => exists k: nat :: Steps(rt, lines, c, k) == Stop(Failure(e))
  {
    RunWhen(rt, lines, w, c);
    GetsThere(rt, lines, c, After(c.lptr + |WhenCode(w, c.lptr, true)|, c.stack, InterpretWhen(rt, w, c.state)));
  }

  /** A body and the jump behind it. */
  lemma {:induction false} RunMatched(rt: Runtime, lines: seq<Line>, es: seq<Entry>, to: nat, c: Config)
    requires Complete(es) && 0 <= c.lptr
    requires At(lines, c.lptr, Code(es, c.lptr, true))
    requires At(lines, c.lptr + |Code(es, c.lptr, true)|, [Goto(to)])
    requires c.lptr + |Code(es, c.lptr, true)| + 1 < to
    ensures Gets(rt, lines, c, After(to - 1, c.stack, Interpret(rt, es, c.state)))
    decreases es, 2
  {
    RunCode(rt, lines, es, c);
    var r := Interpret(rt, es, c.state);
    if r.Success? {
      var d := Config(c.lptr + |Code(es, c.lptr, true)|, c.stack, r.value);
      RunGoto(rt, lines, to, d);
      Onwards(rt, lines, c, d, Continue(d.(lptr := to - 1)));
    }
  }

  lemma RunBranch(rt: Runtime, lines: seq<Line>, onTrue: nat, onFalse: nat, c: Config, v: Value)
    requires 0 <= c.lptr && At(lines, c.lptr, [Branch(onTrue, onFalse)])
    requires c.lptr + 1 < onTrue && c.lptr + 1 < onFalse
    ensures Gets(rt, lines, c.(stack := c.stack + [v]),
                 Continue(c.(lptr := (if Truthy(v) then onTrue else onFalse) - 1)))
  {
    var before := c.(stack := c.stack + [v]);
    assert lines[c.lptr] == [Branch(onTrue, onFalse)][0];
    assert before.stack[..|before.stack| - 1] == c.stack;
    OneStep(rt, lines, before, Continue(c.(lptr := (if Truthy(v) then onTrue else onFalse) - 1)));
  }

  lemma RunGoto(rt: Runtime, lines: seq<Line>, to: nat, c: Config)
    requires 0 <= c.lptr && At(lines, c.lptr, [Goto(to)]) && c.lptr + 1 < to
    ensures Gets(rt, lines, c, Continue(c.(lptr := to - 1)))
  {
    assert lines[c.lptr] == [Goto(to)][0];
    OneStep(rt, lines, c, Continue(c.(lptr := to - 1)));
  }
}
