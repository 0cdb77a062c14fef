/** The parsed filter and validator trees, and what they mean when they are read directly:
    the reference the compiled process lists are measured against. */
module FilterSyntax {
  import opened Wrappers

  /** A named filter or comparator with its <Param> texts. */
  datatype Call = Call(name: string, params: seq<string>)

  datatype Junction = Or | And

  /** A <ConditionChain>. The schema lets a chain be empty. */
  datatype Chain =
    | Empty
    | Condition(call: Call)
    | Operator(op: Junction, left: Chain, right: Chain)

  /** A <FilterEntry>: one filter, or a <Choice> whose <When>s all run, one after the other. */
  datatype Entry = Filter(call: Call) | Choice(whens: seq<When>)

  /** A <When>; a missing <Else> is an empty `otherwise`. */
  datatype When = When(condition: Chain, matched: seq<Entry>, otherwise: seq<Entry>)

  /** A property value as the machine checks it: a list, None, or anything else. */
  datatype Field = List(items: seq<string>) | Null | Other

  type Property = map<string, Field>

  /** What a filter rewrites: the current key and all properties. */
  datatype State = State(key: string, props: map<string, Property>)

  datatype Error =
    | Raised(message: string)   // raised inside a filter or comparator
    | InvalidKey(key: string)   // FILTER_INVALID_KEY
    | InvalidProperty           // FILTER_MISSING_KEY or FILTER_NO_LIST
    | EmptyStack                // pop from an empty list
    | JumpsBack                 // no error of the source: a jump that does not go ahead, see FilterMachine.Run

  /** What a comparator hands back: a plain boolean, or the pair (verdict, errors). */
  datatype Value = Verdict(ok: bool) | Reply(ok: bool, errors: seq<string>)

  /** Python's truth value: a pair is never empty, so it counts as true. */
  predicate Truthy(v: Value) {
    v.Reply? || v.ok
  }

  function Junct(op: Junction, a: bool, b: bool): bool {
    if op == And then a && b else a || b
  }

  /** `v1 and v2`, `v1 or v2` return one of their operands. */
  function Combine(op: Junction, v1: Value, v2: Value): Value {
    match op
    case And => if Truthy(v1) then v2 else v1
    case Or => if Truthy(v1) then v1 else v2
  }

  /** The filters and comparators themselves; either kind may raise. */
  datatype Runtime = Runtime(
    filter: (Call, State) -> Result<State, string>,
    compare: (Call, string) -> Result<Value, string>)

  predicate ValidProperty(p: Property) {
    && "backend" in p && "value" in p && "type" in p
    && !p["value"].Other?
  }

  predicate ValidState(st: State) {
    && st.key in st.props
    && forall k | k in st.props :: ValidProperty(st.props[k])
  }

  /** One filter call with the checks the machine makes on what came back. */
  function ApplyFilter(rt: Runtime, call: Call, st: State): (r: Result<State, Error>)
    ensures r.Success? ==> ValidState(r.value)
    ensures r.Failure? ==> !r.error.EmptyStack? && !r.error.JumpsBack?
  {
    match rt.filter(call, st)
    case Failure(message) => Failure(Raised(message))
    case Success(st') =>
      if st'.key !in st'.props then Failure(InvalidKey(st'.key))
      else if exists k | k in st'.props :: !ValidProperty(st'.props[k]) then Failure(InvalidProperty)
      else Success(st')
  }

  /** The boolean a condition tree stands for. Both operands are always evaluated, left one first. */
  function Holds(rt: Runtime, c: Chain, key: string): Result<bool, Error> {
    match c
    case Empty => Failure(EmptyStack)
    case Condition(call) =>
      (match rt.compare(call, key)
       case Failure(message) => Failure(Raised(message))
       case Success(v) => Success(Truthy(v)))
    case Operator(op, left, right) =>
      (match Holds(rt, left, key)
       case Failure(e) => Failure(e)
       case Success(l) =>
         match Holds(rt, right, key)
         case Failure(e) => Failure(e)
         case Success(r) => Success(Junct(op, l, r)))
  }

  /** Direct reading of a filter chain. */
  function Interpret(rt: Runtime, es: seq<Entry>, st: State): Result<State, Error>
    decreases es, 1
  {
    if es == [] then Success(st)
    else
      match InterpretEntry(rt, es[0], st)
      case Failure(e) => Failure(e)
      case Success(st') => Interpret(rt, es[1..], st')
  }

  function InterpretEntry(rt: Runtime, e: Entry, st: State): Result<State, Error>
    decreases e, 0
  {
    match e
    case Filter(call) => ApplyFilter(rt, call, st)
    case Choice(whens) => InterpretWhens(rt, whens, st)
  }

  function InterpretWhens(rt: Runtime, ws: seq<When>, st: State): Result<State, Error>
    decreases ws, 1
  {
    if ws == [] then Success(st)
    else
      match InterpretWhen(rt, ws[0], st)
      case Failure(e) => Failure(e)
      case Success(st') => InterpretWhens(rt, ws[1..], st')
  }

  function InterpretWhen(rt: Runtime, w: When, st: State): Result<State, Error>
    decreases w, 0
  {
    match Holds(rt, w.condition, st.key)
    case Failure(e) => Failure(e)
    case Success(b) => Interpret(rt, if b then w.matched else w.otherwise, st)
  }

  /** No condition is missing. */
  predicate Full(c: Chain) {
    match c
    case Empty => false
    case Condition(_) => true
    case Operator(_, left, right) => Full(left) && Full(right)
  }

  /** How much a condition tree raises the stack. */
  function Height(c: Chain): int {
    match c
    case Empty => 0
    case Condition(_) => 1
    case Operator(_, left, right) => Height(left) + Height(right) - 1
  }

  lemma {:induction false} HeightOne(c: Chain)
    ensures Height(c) <= 1 && (Height(c) == 1 <==> Full(c))
  {
    if c.Operator? {
      HeightOne(c.left);
      HeightOne(c.right);
    }
  }

  predicate Complete(es: seq<Entry>)
    decreases es, 1
  {
    es == [] || (CompleteEntry(es[0]) && Complete(es[1..]))
  }

  predicate CompleteEntry(e: Entry)
    decreases e, 0
  {
    e.Choice? ==> CompleteWhens(e.whens)
  }

  predicate CompleteWhens(ws: seq<When>)
    decreases ws, 1
  {
    ws == [] || (CompleteWhen(ws[0]) && CompleteWhens(ws[1..]))
  }

  predicate CompleteWhen(w: When)
    decreases w, 0
  {
    Full(w.condition) && Complete(w.matched) && Complete(w.otherwise)
  }

  /** A body that holds no <When> at all, directly or deeper down. */
  predicate Plain(es: seq<Entry>) {
    forall e | e in es :: e.Filter? || e.whens == []
  }

  /** Every <When> of the chain has plain bodies. */
  predicate Flat(es: seq<Entry>) {
    forall e, w | e in es && e.Choice? && w in e.whens :: Plain(w.matched) && Plain(w.otherwise)
  }
}
