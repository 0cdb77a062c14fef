/** `__processValidator`: a postfix condition list decides whether a value is accepted, and says why not. */
module Validator {
  import opened Wrappers
  import opened FilterSyntax
  import opened FilterCompiler

  /** A comparator's reply for the value being validated. */
  datatype Answer = Answer(ok: bool, errors: seq<string>)

  /** The comparators, with properties, key and value already bound; they may raise. */
  type Check = Call -> Result<Answer, string>

  datatype Judgement = Judgement(ok: bool, messages: seq<string>)

  /** The machine's variables; `last` is the pending error message. */
  datatype Registers = Registers(stack: seq<bool>, last: string, messages: seq<string>)

  /** A failed condition leaves its last error behind, if it has one. */
  function Pending(a: Answer, last: string): string {
    if !a.ok && a.errors != [] then a.errors[|a.errors| - 1] else last
  }

  function Execute(check: Check, line: Line, r: Registers): Result<Registers, Error> {
    match line
    case ConditionLine(call) =>
      (match check(call)
       case Failure(message) => Failure(Raised(message))
       case Success(a) => Success(Registers(r.stack + [a.ok], Pending(a, r.last), r.messages)))
    case OperatorLine(op) =>
      var n := |r.stack|;
      if n < 2 then Failure(EmptyStack)
      else
        var res := Junct(op, r.stack[n - 1], r.stack[n - 2]);
        Success(Registers(r.stack[..n - 2] + [res],
                          if res then r.last else "",
                          if res then r.messages else r.messages + [r.last]))
    case _ => Success(r)
  }

  function ExecuteAll(check: Check, code: seq<Line>, r: Registers): Result<Registers, Error> {
    if code == [] then Success(r)
    else
      match Execute(check, code[0], r)
      case Failure(e) => Failure(e)
      case Success(r') => ExecuteAll(check, code[1..], r')
  }

  /** The verdict on top of the stack; a rejection adds the pending message. */
  function Finish(r: Registers): Result<Judgement, Error> {
    var n := |r.stack|;
    if n == 0 then Failure(EmptyStack)
    else Success(Judgement(r.stack[n - 1],
                           if !r.stack[n - 1] && r.last != "" then r.messages + [r.last] else r.messages))
  }

  function Outcome(check: Check, code: seq<Line>): Result<Judgement, Error> {
    match ExecuteAll(check, code, Registers([], "", []))
    case Failure(e) => Failure(e)
    case Success(r) => Finish(r)
  }

  method ProcessValidator(check: Check, fltr: map<int, Line>, ghost code: seq<Line>)
    returns (result: Result<Judgement, Error>)
    requires fltr == Numbered(code)
    ensures result == Outcome(check, code)
  {
    var lptr, stack, last, messages := 0, [], "", [];
    while lptr + 1 in fltr
      invariant 0 <= lptr <= |code|
      invariant ExecuteAll(check, code[lptr..], Registers(stack, last, messages))
             == ExecuteAll(check, code, Registers([], "", []))
      decreases |code| - lptr
    {
      assert code[lptr..][0] == fltr[lptr + 1] && code[lptr..][1..] == code[lptr + 1..];
      lptr := lptr + 1;
      var n := |stack|;
      match fltr[lptr] {
        case ConditionLine(call) =>
          var a := check(call);
          if a.Failure? { return Failure(Raised(a.error)); }
          stack := stack + [a.value.ok];
          if !a.value.ok && a.value.errors != [] {
            last := a.value.errors[|a.value.errors| - 1];
          }
        case OperatorLine(op) =>
          if n < 2 { return Failure(EmptyStack); }
          var res := Junct(op, stack[n - 1], stack[n - 2]);
          stack := stack[..n - 2] + [res];
          if !res {
            messages := messages + [last];
            last := "";
          }
        case _ =>
      }
    }
    if stack == [] { return Failure(EmptyStack); }
    var res := stack[|stack| - 1];
    if !res && last != "" {
      messages := messages + [last];
    }
    result := Success(Judgement(res, messages));
  }

  // ----- the tree's own meaning -----

  /** The boolean the tree stands for; left operand first, both always evaluated. */
  function Truth(check: Check, c: Chain): Result<bool, Error> {
    match c
    case Empty => Failure(EmptyStack)
    case Condition(call) =>
      (match check(call)
       case Failure(message) => Failure(Raised(message))
       case Success(a) => Success(a.ok))
    case Operator(op, left, right) =>
      (match Truth(check, left)
       case Failure(e) => Failure(e)
       case Success(l) =>
         match Truth(check, right)
         case Failure(e) => Failure(e)
         case Success(r) => Success(Junct(op, l, r)))
  }

  /** The messages a tree leaves behind: the pending one and those already reported. */
  datatype Trail = Trail(last: string, messages: seq<string>)

  function Left(check: Check, c: Chain, t: Trail): Trail {
    match c
    case Empty => t
    case Condition(call) =>
      (match check(call)
       case Failure(_) => t
       case Success(a) => t.(last := Pending(a, t.last)))
    case Operator(op, left, right) =>
      var u := Left(check, right, Left(check, left, t));
      if Truth(check, c) == Success(false) then Trail("", u.messages + [u.last]) else u
  }

  lemma {:induction false} ExecuteConcat(check: Check, a: seq<Line>, b: seq<Line>, r: Registers)
    ensures var first := ExecuteAll(check, a, r);
      ExecuteAll(check, a + b, r) == if first.Failure? then first else ExecuteAll(check, b, first.value)
    decreases a
  {
    if a == [] {
      assert a + b == b;
    } else {
      assert (a + b)[0] == a[0] && (a + b)[1..] == a[1..] + b;
      var r' := Execute(check, a[0], r);
      if r'.Success? {
        ExecuteConcat(check, a[1..], b, r'.value);
      }
    }
  }

  /** The lines of a complete tree push its truth value and leave its messages. */
  lemma {:induction false} ExecuteTree(check: Check, c: Chain, r: Registers)
    requires Full(c)
    ensures var b, t := Truth(check, c), Left(check, c, Trail(r.last, r.messages));
      ExecuteAll(check, ChainCode(c), r) ==
      if b.Failure? then Failure(b.error) else Success(Registers(r.stack + [b.value], t.last, t.messages))
    decreases c
  {
    match c
    case Condition(call) =>
      assert ChainCode(c)[1..] == [];
    case Operator(op, left, right) =>
      var l, r' := ChainCode(left), ChainCode(right);
      ExecuteConcat(check, l + r', [OperatorLine(op)], r);
      ExecuteConcat(check, l, r', r);
      ExecuteTree(check, left, r);
      var first := ExecuteAll(check, l, r);
      if first.Success? {
        ExecuteTree(check, right, first.value);
        var second := ExecuteAll(check, r', first.value);
        if second.Success? {
          var s := second.value.stack;
          assert s[..|s| - 2] == r.stack;
          assert [OperatorLine(op)][1..] == [];
        }
      }
  }

  /** What `__build_filter` makes of a validator, run by `__processValidator`, gives the tree's truth value. */
  lemma ValidatorMeansTree(check: Check, c: Chain)
    requires Full(c)
    ensures var b, t, o := Truth(check, c), Left(check, c, Trail("", [])), Outcome(check, ChainCode(c));
      if b.Failure? then o == Failure(b.error)
      else o == Success(Judgement(b.value, if !b.value && t.last != "" then t.messages + [t.last] else t.messages))
  {
    ExecuteTree(check, c, Registers([], "", []));
  }

  // ----- the verdict and its messages, condition by condition -----

  /** What the comparators say together. */
  predicate Accepts(check: Check, c: Chain) {
    match c
    case Empty => false
    case Condition(call) => var a := check(call); a.Success? && a.value.ok
    case Operator(And, left, right) => Accepts(check, left) && Accepts(check, right)
    case Operator(Or, left, right) => Accepts(check, left) || Accepts(check, right)
  }

  lemma {:induction false} TruthIsAccepts(check: Check, c: Chain)
    requires Full(c) && forall call :: check(call).Success?
    ensures Truth(check, c) == Success(Accepts(check, c))
  {
    if c.Operator? {
      TruthIsAccepts(check, c.left);
      TruthIsAccepts(check, c.right);
    }
  }

  /** A value is accepted if and only if the and and or of the comparators' answers says so. */
  lemma AcceptedIff(check: Check, c: Chain)
    requires Full(c) && forall call :: check(call).Success?
    ensures var o := Outcome(check, ChainCode(c)); o.Success? && (o.value.ok <==> Accepts(check, c))
  {
    TruthIsAccepts(check, c);
    ValidatorMeansTree(check, c);
  }

  /** A single condition that fails is reported with the last of its errors, one that holds with nothing. */
  lemma OneCondition(check: Check, call: Call)
    requires check(call).Success?
    ensures var a := check(call).value;
      Outcome(check, ChainCode(Condition(call))) ==
        Success(Judgement(a.ok, if a.ok || a.errors == [] || a.errors[|a.errors| - 1] == "" then []
                                else [a.errors[|a.errors| - 1]]))
  {
    ValidatorMeansTree(check, Condition(call));
    var t := Left(check, Condition(call), Trail("", []));
    assert t.messages + [t.last] == [t.last];
  }

  /** Of two conditions that both have to hold, the last one that fails is reported. */
  lemma TwoConditions(check: Check, x: Call, y: Call, m: string, n: string)
    requires check(x).Success? && check(y).Success?
    requires !check(x).value.ok ==> check(x).value.errors == [m]
    requires !check(y).value.ok ==> check(y).value.errors == [n]
    ensures var a, b := check(x).value.ok, check(y).value.ok;
      Outcome(check, ChainCode(Operator(And, Condition(x), Condition(y)))) ==
        Success(Judgement(a && b, if !b then [n] else if !a then [m] else []))
  {
    var c, start := Operator(And, Condition(x), Condition(y)), Trail("", []);
    ValidatorMeansTree(check, c);
    var t := Left(check, Condition(y), Left(check, Condition(x), start));
    assert Truth(check, Condition(x)).Success? && Truth(check, Condition(y)).Success?;
    assert t.messages == [] && t.messages + [t.last] == [t.last];
    assert Left(check, c, start) == if Truth(check, c) == Success(false) then Trail("", [t.last]) else t;
  }

  // ----- missing conditions -----

  lemma {:induction false} ExecuteAnyTree(check: Check, c: Chain, r: Registers)
    requires forall call :: check(call).Success?
    ensures var o := ExecuteAll(check, ChainCode(c), r);
      if o.Success? then |o.value.stack| == |r.stack| + Height(c) else o.error == EmptyStack
    decreases c
  {
    match c
    case Empty =>
    case Condition(call) =>
      assert ChainCode(c)[1..] == [];
    case Operator(op, left, right) =>
      var l, r' := ChainCode(left), ChainCode(right);
      ExecuteConcat(check, l + r', [OperatorLine(op)], r);
      ExecuteConcat(check, l, r', r);
      ExecuteAnyTree(check, left, r);
      var first := ExecuteAll(check, l, r);
      if first.Success? {
        ExecuteAnyTree(check, right, first.value);
        assert [OperatorLine(op)][1..] == [];
      }
  }

  /** A validator comes to a verdict exactly when no condition is missing; otherwise it pops an empty stack. */
  lemma VerdictIffComplete(check: Check, c: Chain)
    requires forall call :: check(call).Success?
    ensures if Full(c) then Outcome(check, ChainCode(c)).Success?
            else Outcome(check, ChainCode(c)) == Failure(EmptyStack)
  {
    HeightOne(c);
    ExecuteAnyTree(check, c, Registers([], "", []));
    if Full(c) {
      AllEvaluate(check, c);
      ValidatorMeansTree(check, c);
    }
  }

  lemma {:induction false} AllEvaluate(check: Check, c: Chain)
    requires Full(c) && forall call :: check(call).Success?
    ensures Truth(check, c).Success?
  {
    if c.Operator? {
      AllEvaluate(check, c.left);
      AllEvaluate(check, c.right);
    }
  }

  // ----- rejections are explained -----

  /** Some message that says something has been reported or is pending. */
  predicate Explained(t: Trail) {
    t.last != "" || exists m | m in t.messages :: m != ""
  }

  predicate Speaks(check: Check, call: Call) {
    var a := check(call);
    a.Success? && !a.value.ok ==> a.value.errors != [] && a.value.errors[|a.value.errors| - 1] != ""
  }

  lemma {:induction false} FailureIsExplained(check: Check, c: Chain, t: Trail)
    requires forall call :: Speaks(check, call)
    ensures Explained(t) || Truth(check, c) == Success(false) ==> Explained(Left(check, c, t))
    decreases c
  {
    match c
    case Empty =>
    case Condition(call) =>
      assert Speaks(check, call);
    case Operator(op, left, right) =>
      var t1 := Left(check, left, t);
      var t2 := Left(check, right, t1);
      FailureIsExplained(check, left, t);
      FailureIsExplained(check, right, t1);
      if Explained(t) || Truth(check, c) == Success(false) {
        assert Explained(t2);
        if Truth(check, c) == Success(false) {
          assert t2.last in t2.messages + [t2.last];
          assert forall m | m in t2.messages :: m in t2.messages + [t2.last];
        }
      }
  }

  /** If every failing comparator says why, every rejection carries a message that is not empty. */
  lemma RejectionHasMessage(check: Check, c: Chain)
    requires Full(c) && forall call :: Speaks(check, call)
    requires Truth(check, c) == Success(false)
    ensures var o := Outcome(check, ChainCode(c));
      o.Success? && !o.value.ok && exists m | m in o.value.messages :: m != ""
  {
    ValidatorMeansTree(check, c);
    FailureIsExplained(check, c, Trail("", []));
    var t := Left(check, c, Trail("", []));
    assert t.last in t.messages + [t.last];
    assert forall m | m in t.messages :: m in t.messages + [t.last];
  }
}
