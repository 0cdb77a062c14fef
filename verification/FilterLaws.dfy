/** What compiled filters do to a state, said in the words of the filters and comparators themselves. */
module FilterLaws {
  import opened Wrappers
  import opened FilterSyntax
  import opened FilterCompiler
  import opened FilterMachine
  import opened FilterCorrectness

  // ----- one filter -----

  /** What a filter has to hand back: its key is a property, and every property has a backend, a type, and a value that
      is a list or None. */
  predicate Usable(st: State) {
    && st.key in st.props
    && forall k | k in st.props ::
         && "backend" in st.props[k] && "type" in st.props[k] && "value" in st.props[k]
         && (st.props[k]["value"].List? || st.props[k]["value"].Null?)
  }

  /** Why it is refused otherwise. */
  function Complaint(st: State): Error {
    if st.key in st.props then InvalidProperty else InvalidKey(st.key)
  }

  lemma FilterAnswers(rt: Runtime, call: Call, st: State)
    ensures match rt.filter(call, st)
      case Failure(message) => ApplyFilter(rt, call, st) == Failure(Raised(message))
      case Success(after) =>
        ApplyFilter(rt, call, st) == if Usable(after) then Success(after) else Failure(Complaint(after))
  {
    match rt.filter(call, st)
    case Failure(_) =>
    case Success(after) =>
      if Usable(after) {
        assert ValidState(after);
      } else if after.key in after.props {
        var k :| k in after.props && !("backend" in after.props[k] && "type" in after.props[k]
                                       && "value" in after.props[k]
                                       && (after.props[k]["value"].List? || after.props[k]["value"].Null?));
        assert !ValidProperty(after.props[k]);
      }
  }

  // ----- a list of filters -----

  /** The states a list of filters goes through: each filter is given what the one before it handed back. */
  ghost predicate Passes(rt: Runtime, calls: seq<Call>, states: seq<State>) {
    && 0 < |states| <= |calls| + 1
    && forall i :: 0 < i < |states| ==>
         rt.filter(calls[i - 1], states[i - 1]) == Success(states[i]) && Usable(states[i])
  }

  /** The outcome of a list of filters: the last state, or the complaint about the filter that stopped it. */
  ghost predicate Yields(rt: Runtime, calls: seq<Call>, states: seq<State>, r: Result<State, Error>)
    requires 0 < |states| <= |calls| + 1
  {
    var last := states[|states| - 1];
    if |states| == |calls| + 1 then r == Success(last)
    else
      match rt.filter(calls[|states| - 1], last)
      case Failure(message) => r == Failure(Raised(message))
      case Success(after) => !Usable(after) && r == Failure(Complaint(after))
  }

  /** The outcome of handing a state through a list of filters. */
  ghost predicate Composes(rt: Runtime, calls: seq<Call>, st: State, r: Result<State, Error>) {
    exists states :: Passes(rt, calls, states) && states[0] == st && Yields(rt, calls, states, r)
  }

  /** There is only one. */
  lemma ComposesOnce(rt: Runtime, calls: seq<Call>, st: State, r: Result<State, Error>, s: Result<State, Error>)
    requires Composes(rt, calls, st, r) && Composes(rt, calls, st, s)
    ensures r == s
  {
    var xs :| Passes(rt, calls, xs) && xs[0] == st && Yields(rt, calls, xs, r);
    var ys :| Passes(rt, calls, ys) && ys[0] == st && Yields(rt, calls, ys, s);
    if |xs| <= |ys| {
      SameStates(rt, calls, xs, ys, r, |xs| - 1);
    } else {
      SameStates(rt, calls, ys, xs, s, |ys| - 1);
    }
  }

  lemma {:induction false} SameStates(rt: Runtime, calls: seq<Call>, xs: seq<State>, ys: seq<State>,
                                      r: Result<State, Error>, i: nat)
    requires Passes(rt, calls, xs) && Passes(rt, calls, ys) && xs[0] == ys[0] && i < |xs| <= |ys|
    requires Yields(rt, calls, xs, r)
    ensures xs[i] == ys[i] && (i == |xs| - 1 ==> |xs| == |ys|)
    decreases i
  {
    if i + 1 < |ys| {
      PassesOn(rt, calls, ys, i);
    }
    if i > 0 {
      SameStates(rt, calls, xs, ys, r, i - 1);
      PassesOn(rt, calls, xs, i - 1);
      PassesOn(rt, calls, ys, i - 1);
    }
  }

  lemma PassesOn(rt: Runtime, calls: seq<Call>, states: seq<State>, i: nat)
    requires Passes(rt, calls, states) && i + 1 < |states|
    ensures rt.filter(calls[i], states[i]) == Success(states[i + 1]) && Usable(states[i + 1])
  {
    assert rt.filter(calls[i + 1 - 1], states[i + 1 - 1]) == Success(states[i + 1]);
  }

  function Filters(calls: seq<Call>): seq<Entry> {
    seq(|calls|, i requires 0 <= i < |calls| => Filter(calls[i]))
  }

  lemma {:induction false} FiltersCompose(rt: Runtime, calls: seq<Call>, st: State) returns (states: seq<State>)
    ensures Passes(rt, calls, states) && states[0] == st
    ensures Yields(rt, calls, states, Interpret(rt, Filters(calls), st))
    decreases calls
  {
    states := [st];
    if calls != [] {
      FilterAnswers(rt, calls[0], st);
      assert Filters(calls)[1..] == Filters(calls[1..]);
      var r := ApplyFilter(rt, calls[0], st);
      if r.Success? {
        var rest := FiltersCompose(rt, calls[1..], r.value);
        states := [st] + rest;
        assert Passes(rt, calls, states) by {
          forall i | 0 < i < |states|
            ensures rt.filter(calls[i - 1], states[i - 1]) == Success(states[i]) && Usable(states[i])
          {
            assert states[i] == rest[i - 1];
            if i > 1 { assert states[i - 1] == rest[i - 2] && calls[i - 1] == calls[1..][i - 2]; }
          }
        }
        assert states[|states| - 1] == rest[|rest| - 1];
        if |rest| <= |calls[1..]| { assert calls[|states| - 1] == calls[1..][|rest| - 1]; }
      }
    }
  }

  lemma PlainFilters(calls: seq<Call>)
    ensures Complete(Filters(calls)) && Flat(Filters(calls)) && Joined([Filters(calls)]) == Filters(calls)
    decreases calls
  {
    var es := Filters(calls);
    assert Joined([es]) == es + Joined([]) == es;
    if calls != [] {
      assert es[1..] == Filters(calls[1..]);
      PlainFilters(calls[1..]);
    }
  }

  /** Compiles chains without nesting and runs them. */
  method Process(rt: Runtime, chains: seq<seq<Entry>>, st: State) returns (r: Result<State, Error>)
    requires Complete(Joined(chains)) && Flat(Joined(chains))
    ensures r == Interpret(rt, Joined(chains), st)
  {
    CompiledMeansTree(rt, chains, st);
    var out := BuildFilter(chains);
    StopsInTime(rt, out.code, Config(0, [], st), |out.code| + 1);
    r := ProcessFilter(rt, out.lines, st, out.code, |out.code| + 1);
  }

  /** A filter of filters, compiled and run, hands the state from one to the next, and ends in what the last one hands
      back or in the complaint about the first that raises or hands back something unusable. */
  method RunFilters(rt: Runtime, calls: seq<Call>, st: State) returns (r: Result<State, Error>)
    ensures Composes(rt, calls, st, r)
  {
    PlainFilters(calls);
    var _ := FiltersCompose(rt, calls, st);
    r := Process(rt, [Filters(calls)], st);
  }

  /** In particular a single filter: its answer over `rt.filter` alone. */
  method RunFilter(rt: Runtime, call: Call, st: State) returns (r: Result<State, Error>)
    ensures match rt.filter(call, st)
      case Failure(message) => r == Failure(Raised(message))
      case Success(after) => r == if Usable(after) then Success(after) else Failure(Complaint(after))
  {
    r := RunFilters(rt, [call], st);
    ghost var states :| Passes(rt, [call], states) && states[0] == st && Yields(rt, [call], states, r);
    assert |states| == 2 ==> rt.filter([call][0], states[0]) == Success(states[1]);
  }

  // ----- conditions -----

  /** The message of the first comparator that raises, from left to right. */
  function FirstRaise(rt: Runtime, c: Chain, key: string): Option<string> {
    match c
    case Empty => None
    case Condition(call) => (match rt.compare(call, key) case Failure(message) => Some(message) case Success(_) => None)
    case Operator(_, left, right) =>
      if FirstRaise(rt, left, key).Some? then FirstRaise(rt, left, key) else FirstRaise(rt, right, key)
  }

  /** What the comparators say together; a pair they return counts as true. */
  predicate Says(rt: Runtime, c: Chain, key: string) {
    match c
    case Empty => false
    case Condition(call) =>
      var r := rt.compare(call, key);
      r.Success? && (r.value.Reply? || r.value.ok)
    case Operator(And, left, right) => Says(rt, left, key) && Says(rt, right, key)
    case Operator(Or, left, right) => Says(rt, left, key) || Says(rt, right, key)
  }

  /** A complete condition raises what its first raising comparator raises, and is otherwise the and and or of their
      answers. */
  lemma {:induction false} ConditionSays(rt: Runtime, c: Chain, key: string)
    requires Full(c)
    ensures match FirstRaise(rt, c, key)
      case Some(message) => Holds(rt, c, key) == Failure(Raised(message))
      case None => Holds(rt, c, key) == Success(Says(rt, c, key))
  {
    if c.Operator? {
      ConditionSays(rt, c.left, key);
      ConditionSays(rt, c.right, key);
    }
  }

  /** A <When> with one list of filters and another in its <Else>, compiled and run: the condition picks the list, and
      the state goes through that one only. */
  method RunWhen(rt: Runtime, c: Chain, matched: seq<Call>, otherwise: seq<Call>, st: State)
    returns (r: Result<State, Error>)
    requires Full(c)
    ensures match FirstRaise(rt, c, st.key)
      case Some(message) => r == Failure(Raised(message))
      case None => Composes(rt, if Says(rt, c, st.key) then matched else otherwise, st, r)
  {
    var w := When(c, Filters(matched), Filters(otherwise));
    var es := [Choice([w])];
    PlainFilters(matched);
    PlainFilters(otherwise);
    ConditionSays(rt, c, st.key);
    OneWhen(rt, w, 0, false, st);
    assert Joined([es]) == es + Joined([]) == es;
    assert CompleteWhen(w) && CompleteWhens([w][1..]) && es[1..] == [];
    assert CompleteEntry(es[0]) && Complete(es[1..]) && Complete(es);
    var _ := FiltersCompose(rt, if Says(rt, c, st.key) then matched else otherwise, st);
    r := Process(rt, [es], st);
  }
}
