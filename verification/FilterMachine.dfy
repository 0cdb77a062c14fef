/** The line-pointer and stack machine of `__processFilter`. */
module FilterMachine {
  import opened Wrappers
  import opened FilterSyntax
  import opened FilterCompiler

  /** `lptr` is the line executed last; the next one is `lptr + 1`. */
  datatype Config = Config(lptr: int, stack: seq<Value>, state: State)

  datatype Next = Continue(config: Config) | Stop(result: Result<State, Error>)

  function Step(rt: Runtime, lines: seq<Line>, c: Config): Next {
    if !(0 <= c.lptr < |lines|) then Stop(Success(c.state))
    else
      var lptr := c.lptr + 1;
      var n := |c.stack|;
      match LineAt(lines, lptr)
      case FilterLine(call) =>
        (match ApplyFilter(rt, call, c.state)
         case Failure(e) => Stop(Failure(e))
         case Success(st') => Continue(Config(lptr, c.stack, st')))
      case ConditionLine(call) =>
        (match rt.compare(call, c.state.key)
         case Failure(message) => Stop(Failure(Raised(message)))
         case Success(v) => Continue(Config(lptr, c.stack + [v], c.state)))
      case OperatorLine(op) =>
        if n < 2 then Stop(Failure(EmptyStack))
        else Continue(Config(lptr, c.stack[..n - 2] + [Combine(op, c.stack[n - 1], c.stack[n - 2])], c.state))
      case Branch(onTrue, onFalse) =>
        if n < 1 then Stop(Failure(EmptyStack))
        else Continue(Config((if Truthy(c.stack[n - 1]) then onTrue else onFalse) - 1, c.stack[..n - 1], c.state))
      case Goto(to) =>
        Continue(Config(to - 1, c.stack, c.state))
  }

  /** Up to `fuel` steps; works for every list of lines, also one that never halts. */
  function Steps(rt: Runtime, lines: seq<Line>, c: Config, fuel: nat): Next
    decreases fuel
  {
    if fuel == 0 then Continue(c)
    else
      match Step(rt, lines, c)
      case Stop(r) => Stop(r)
      case Continue(c') => Steps(rt, lines, c', fuel - 1)
  }

  ghost predicate Diverges(rt: Runtime, lines: seq<Line>, c: Config) {
    forall fuel: nat :: Steps(rt, lines, c, fuel).Continue?
  }

  /** The jump of line `number`, if it is one, goes to a later line, at most one behind `last`. */
  predicate JumpsAhead(line: Line, number: int, last: int) {
    match line
    case Branch(onTrue, onFalse) => number < onTrue <= last + 1 && number < onFalse <= last + 1
    case Goto(to) => number < to <= last + 1
    case _ => true
  }

  /** All jumps of `code`, placed behind `n` lines, go ahead and stay within it or one line behind it. */
  predicate ForwardFrom(code: seq<Line>, n: nat) {
    forall i :: 0 <= i < |code| ==> JumpsAhead(code[i], n + i + 1, n + |code|)
  }

  predicate Forward(lines: seq<Line>) {
    ForwardFrom(lines, 0)
  }

  /** The outcome of running to the end, given up at a jump that does not go ahead. */
  function Run(rt: Runtime, lines: seq<Line>, c: Config): Result<State, Error>
    decreases |lines| - c.lptr
  {
    match Step(rt, lines, c)
    case Stop(r) => r
    case Continue(c') => if c'.lptr <= c.lptr then Failure(JumpsBack) else Run(rt, lines, c')
  }

  /** No list whose jumps all go ahead runs for more steps than it has lines (plus the one that stops). */
  lemma {:induction false} StopsInTime(rt: Runtime, lines: seq<Line>, c: Config, fuel: nat)
    requires Forward(lines) && 0 <= c.lptr <= |lines| && fuel > |lines| - c.lptr
    ensures Steps(rt, lines, c, fuel) == Stop(Run(rt, lines, c))
    decreases |lines| - c.lptr
  {
    match Step(rt, lines, c)
    case Stop(_) =>
    case Continue(c') => StopsInTime(rt, lines, c', fuel - 1);
  }

  /** One round of the loop over the numbered lines. */
  method ExecuteLine(rt: Runtime, fltr: map<int, Line>, c: Config, ghost code: seq<Line>) returns (next: Next)
    requires fltr == Numbered(code) && c.lptr >= -1
    ensures next == Step(rt, code, c)
    ensures next.Continue? ==> next.config.lptr >= -1
  {
    if c.lptr + 1 !in fltr { return Stop(Success(c.state)); }
    var lptr, stack, st := c.lptr + 1, c.stack, c.state;
    var n := |stack|;
    match fltr[lptr] {
      case FilterLine(call) =>
        var out := ApplyFilter(rt, call, st);
        if out.Failure? { return Stop(Failure(out.error)); }
        st := out.value;
      case ConditionLine(call) =>
        var out := rt.compare(call, st.key);
        if out.Failure? { return Stop(Failure(Raised(out.error))); }
        stack := stack + [out.value];
      case Branch(onTrue, onFalse) =>
        if n < 1 { return Stop(Failure(EmptyStack)); }
        var top := stack[n - 1];
        stack := stack[..n - 1];
        lptr := (if Truthy(top) then onTrue else onFalse) - 1;
      case Goto(to) =>
        lptr := to - 1;
      case OperatorLine(op) =>
        if n < 2 { return Stop(Failure(EmptyStack)); }
        var a, b := stack[n - 1], stack[n - 2];
        stack := stack[..n - 2] + [Combine(op, a, b)];
    }
    next := Continue(Config(lptr, stack, st));
  }

  /** `__processFilter` for at most `limit` rounds. It works on every list of lines, also on one whose jumps go back and
      whose loop would not end. */
  method ExecuteLines(rt: Runtime, fltr: map<int, Line>, start: State, limit: nat, ghost code: seq<Line>)
    returns (next: Next)
    requires fltr == Numbered(code)
    ensures next == Steps(rt, code, Config(0, [], start), limit)
  {
    next := Continue(Config(0, [], start));
    var rounds := limit;
    while rounds > 0 && next.Continue?
      invariant next.Continue? ==> next.config.lptr >= -1
      invariant Steps(rt, code, Config(0, [], start), limit) ==
                  if next.Continue? then Steps(rt, code, next.config, rounds) else next
      decreases rounds
    {
      next := ExecuteLine(rt, fltr, next.config, code);
      rounds := rounds - 1;
    }
  }

  /** `__processFilter` on every list and every state on which its loop ends, after whatever number of rounds; where all
      jumps go ahead it always does, within one round more than there are lines (`StopsInTime`). */
  method ProcessFilter(rt: Runtime, fltr: map<int, Line>, start: State, ghost code: seq<Line>, ghost rounds: nat)
    returns (r: Result<State, Error>)
    requires fltr == Numbered(code) && Steps(rt, code, Config(0, [], start), rounds).Stop?
    ensures Steps(rt, code, Config(0, [], start), rounds) == Stop(r)
    ensures Forward(code) ==> r == Run(rt, code, Config(0, [], start))
  {
    var next := Continue(Config(0, [], start));
    ghost var left := rounds;
    while next.Continue?
      invariant next.Continue? ==> next.config.lptr >= -1
      invariant Steps(rt, code, Config(0, [], start), rounds) ==
                  if next.Continue? then Steps(rt, code, next.config, left) else next
      decreases left, next.Continue?
    {
      next := ExecuteLine(rt, fltr, next.config, code);
      left := left - 1;
    }
    r := next.result;
    if Forward(code) {
      StoppedIsRun(rt, code, Config(0, [], start), rounds);
    }
  }

  /** However many rounds it took. */
  lemma {:induction false} StoppedIsRun(rt: Runtime, lines: seq<Line>, c: Config, fuel: nat)
    requires Forward(lines) && 0 <= c.lptr <= |lines| && Steps(rt, lines, c, fuel).Stop?
    ensures Steps(rt, lines, c, fuel) == Stop(Run(rt, lines, c))
    decreases fuel
  {
    match Step(rt, lines, c)
    case Stop(_) =>
    case Continue(c') => StoppedIsRun(rt, lines, c', fuel - 1);
  }
}
