/** The compiler: `__build_filter` and its handlers flatten a tree into numbered lines with jumps. */
module FilterCompiler {
  import opened FilterSyntax

  /** One process-list entry. Jump targets are line numbers, counted from 1. */
  datatype Line =
    | FilterLine(call: Call)
    | ConditionLine(call: Call)
    | OperatorLine(op: Junction)
    | Branch(onTrue: nat, onFalse: nat)
    | Goto(to: nat)

  /** Postfix code of a condition chain. */
  function ChainCode(c: Chain): seq<Line> {
    match c
    case Empty => []
    case Condition(call) => [ConditionLine(call)]
    case Operator(op, left, right) => ChainCode(left) + ChainCode(right) + [OperatorLine(op)]
  }

  /** Code of a filter chain behind `n` earlier lines.
      With `relocate` the bodies of a <When> are numbered where they end up;
      without it they are numbered from line 1, as the handlers do it. */
  function Code(es: seq<Entry>, n: nat, relocate: bool): seq<Line>
    decreases es, 1
  {
    if es == [] then []
    else
      var c := EntryCode(es[0], n, relocate);
      c + Code(es[1..], n + |c|, relocate)
  }

  function EntryCode(e: Entry, n: nat, relocate: bool): seq<Line>
    decreases e, 0
  {
    match e
    case Filter(call) => [FilterLine(call)]
    case Choice(whens) => WhensCode(whens, n, relocate)
  }

  function WhensCode(ws: seq<When>, n: nat, relocate: bool): seq<Line>
    decreases ws, 1
  {
    if ws == [] then []
    else
      var c := WhenCode(ws[0], n, relocate);
      c + WhensCode(ws[1..], n + |c|, relocate)
  }

  function WhenCode(w: When, n: nat, relocate: bool): seq<Line>
    decreases w, 0
  {
    var c := ChainCode(w.condition);
    var f := Code(w.matched, if relocate then n + |c| + 1 else 0, relocate);
    var e := Code(w.otherwise, if relocate then n + |c| + |f| + 2 else 0, relocate);
    Assembled(c, n, f, e)
  }

  /** Condition, conditional jump, body, jump over the else body, else body. */
  function Assembled(c: seq<Line>, n: nat, f: seq<Line>, e: seq<Line>): seq<Line> {
    var onMatch := n + |c| + 2;
    var noMatch := onMatch + |f| + 1;
    c + [Branch(onMatch, noMatch)] + f + [Goto(noMatch + |e|)] + e
  }

  function LineAt(code: seq<Line>, number: int): Line
    requires 1 <= number <= |code|
  {
    code[number - 1]
  }

  /** Lines as the dictionary the handlers fill: line numbers 1 to n. */
  function Numbered(code: seq<Line>): map<int, Line> {
    map i | 1 <= i <= |code| :: LineAt(code, i)
  }

  lemma NumberedSize(code: seq<Line>)
    ensures |Numbered(code)| == |code|
  {
    if code != [] {
      var init := code[..|code| - 1];
      NumberedSize(init);
      assert Numbered(code) == Numbered(init)[|code| := code[|code| - 1]];
    }
  }

  lemma NumberedAppend(code: seq<Line>, line: Line)
    ensures Numbered(code + [line]) == Numbered(code)[|code| + 1 := line]
  {
  }

  /** The dictionary `out` that the handlers pass along and grow. */
  class ProcessList {
    var lines: map<int, Line>
    ghost var code: seq<Line>

    ghost predicate Valid()
      reads this
    {
      lines == Numbered(code)
    }

    constructor ()
      ensures Valid() && code == []
    {
      lines := map[];
      code := [];
    }

    method Size() returns (n: nat)
      requires Valid()
      ensures n == |code|
    {
      NumberedSize(code);
      n := |lines|;
    }

    method Append(line: Line)
      requires Valid()
      modifies this
      ensures Valid() && code == old(code) + [line]
    {
      var cnt := Size();
      NumberedAppend(code, line);
      lines := lines[cnt + 1 := line];
      code := code + [line];
    }

    /** Copies the lines of another list behind the own ones, in order of their numbers. */
    method AppendAll(other: ProcessList)
      requires Valid() && other.Valid() && other != this
      modifies this
      ensures Valid() && code == old(code) + other.code
    {
      var n := other.Size();
      for entry := 0 to n
        invariant Valid() && other.Valid() && other.code == old(other.code)
        invariant code == old(code) + other.code[..entry]
      {
        assert other.code[..entry + 1] == other.code[..entry] + [other.code[entry]];
        Append(other.lines[entry + 1]);
      }
    }
  }

  method HandleCondition(call: Call, out: ProcessList)
    requires out.Valid()
    modifies out
    ensures out.Valid() && out.code == old(out.code) + [ConditionLine(call)]
  {
    out.Append(ConditionLine(call));
  }

  method HandleConditionOperator(c: Chain, out: ProcessList)
    requires c.Operator? && out.Valid()
    modifies out
    ensures out.Valid() && out.code == old(out.code) + ChainCode(c)
    decreases c, 0
  {
    HandleConditionChain(c.left, out);
    HandleConditionChain(c.right, out);
    out.Append(OperatorLine(c.op));
  }

  method HandleConditionChain(c: Chain, out: ProcessList)
    requires out.Valid()
    modifies out
    ensures out.Valid() && out.code == old(out.code) + ChainCode(c)
    decreases c, 1
  {
    match c
    case Empty =>
    case Condition(call) => HandleCondition(call, out);
    case Operator(op, left, right) => HandleConditionOperator(c, out);
  }

  method HandleFilter(call: Call, out: ProcessList)
    requires out.Valid()
    modifies out
    ensures out.Valid() && out.code == old(out.code) + [FilterLine(call)]
  {
    out.Append(FilterLine(call));
  }

  /** The bodies are compiled into fresh lists of their own and then copied behind the jump lines. */
  method HandleWhen(w: When, out: ProcessList)
    requires out.Valid()
    modifies out
    ensures out.Valid() && out.code == old(out.code) + WhenCode(w, |old(out.code)|, false)
    decreases w, 0
  {
    HandleConditionChain(w.condition, out);
    var filterChain := CompileBody(w.matched);
    var elseChain := CompileBody(w.otherwise);
    Layout(old(out.code), ChainCode(w.condition), filterChain.code, elseChain.code);
    EmitBodies(out, filterChain, elseChain);
  }

  method CompileBody(es: seq<Entry>) returns (chain: ProcessList)
    ensures fresh(chain) && chain.Valid() && chain.code == Code(es, 0, false)
    decreases es, 4
  {
    chain := new ProcessList();
    HandleFilterChain(es, chain);
  }

  /** The jump arithmetic of `__handleWhen`. */
  method EmitBodies(out: ProcessList, filterChain: ProcessList, elseChain: ProcessList)
    requires out.Valid() && filterChain.Valid() && elseChain.Valid()
    requires out != filterChain && out != elseChain
    modifies out
    ensures out.Valid()
    ensures var f, e, noMatch := filterChain.code, elseChain.code, |old(out.code)| + |filterChain.code| + 3;
      out.code == old(out.code) + [Branch(|old(out.code)| + 2, noMatch)] + f + [Goto(noMatch + |e|)] + e
  {
    var cnt := out.Size();
    var filterSize := filterChain.Size();
    var elseSize := elseChain.Size();
    var onMatch := cnt + 2;
    var endMatch := onMatch + filterSize;
    var noMatch := endMatch + 1;
    var endNoMatch := noMatch + elseSize;

    out.Append(Branch(onMatch, noMatch));
    out.AppendAll(filterChain);
    out.Append(Goto(endNoMatch));
    out.AppendAll(elseChain);
  }

  lemma Layout(before: seq<Line>, c: seq<Line>, f: seq<Line>, e: seq<Line>)
    ensures var noMatch := |before + c| + |f| + 3;
      before + c + [Branch(|before + c| + 2, noMatch)] + f + [Goto(noMatch + |e|)] + e
        == before + Assembled(c, |before|, f, e)
  {
  }

  method HandleChoice(whens: seq<When>, out: ProcessList)
    requires out.Valid()
    modifies out
    ensures out.Valid() && out.code == old(out.code) + WhensCode(whens, |old(out.code)|, false)
    decreases whens, 1
  {
    ghost var start := |out.code|;
    for i := 0 to |whens|
      invariant out.Valid()
      invariant out.code + WhensCode(whens[i..], |out.code|, false)
             == old(out.code) + WhensCode(whens, start, false)
    {
      assert whens[i..][0] == whens[i] && whens[i..][1..] == whens[i + 1..];
      HandleWhen(whens[i], out);
    }
  }

  method HandleFilterEntry(e: Entry, out: ProcessList)
    requires out.Valid()
    modifies out
    ensures out.Valid() && out.code == old(out.code) + EntryCode(e, |old(out.code)|, false)
    decreases e, 2
  {
    match e
    case Filter(call) => HandleFilter(call, out);
    case Choice(whens) => HandleChoice(whens, out);
  }

  /** A filter chain; the chain inside an <Else> goes the same way. */
  method HandleFilterChain(es: seq<Entry>, out: ProcessList)
    requires out.Valid()
    modifies out
    ensures out.Valid() && out.code == old(out.code) + Code(es, |old(out.code)|, false)
    decreases es, 3
  {
    ghost var start := |out.code|;
    for i := 0 to |es|
      invariant out.Valid()
      invariant out.code + Code(es[i..], |out.code|, false) == old(out.code) + Code(es, start, false)
    {
      assert es[i..][0] == es[i] && es[i..][1..] == es[i + 1..];
      HandleFilterEntry(es[i], out);
    }
  }

  /** `__build_filter` on an in- or out-filter: its filter chains, one behind the other. */
  method BuildFilter(chains: seq<seq<Entry>>) returns (out: ProcessList)
    ensures fresh(out) && out.Valid() && out.code == ChainsCode(chains, 0)
  {
    out := new ProcessList();
    for i := 0 to |chains|
      invariant fresh(out) && out.Valid()
      invariant out.code + ChainsCode(chains[i..], |out.code|) == ChainsCode(chains, 0)
    {
      assert chains[i..][0] == chains[i] && chains[i..][1..] == chains[i + 1..];
      HandleFilterChain(chains[i], out);
    }
  }

  function ChainsCode(chains: seq<seq<Entry>>, n: nat): seq<Line> {
    if chains == [] then []
    else
      var c := Code(chains[0], n, false);
      c + ChainsCode(chains[1..], n + |c|)
  }

  /** `__build_filter` on a validator: a single condition or operator. */
  method BuildValidator(c: Chain) returns (out: ProcessList)
    ensures fresh(out) && out.Valid() && out.code == ChainCode(c)
  {
    out := new ProcessList();
    HandleConditionChain(c, out);
  }
}
