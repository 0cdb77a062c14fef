/** The text form ACL sets and ACL roles are stored in (`types/acl_set.py`, `types/acl_roles.py`). */
module AclText {
  import opened Wrappers

  type Options = map<string, string>

  /** `json.dumps` and `json.loads`. */
  datatype Codec = Codec(dumps: Options -> string, loads: string -> Result<Options, string>)

  /** What is needed of JSON: it reads back what it writes, on one line that is not empty. */
  ghost predicate Lawful(c: Codec) {
    forall o :: c.loads(c.dumps(o)) == Success(o) && c.dumps(o) != "" && '\n' !in c.dumps(o)
  }

  datatype Action = Action(topic: string, acl: string, options: Option<Options>)

  /** One entry as a dictionary: keys that are missing are None. Role entries have no members at all. */
  datatype Entry = Entry(scope: Option<string>, priority: string, members: Option<seq<string>>,
                         rolename: Option<string>, actions: Option<seq<Action>>)

  datatype Error = MissingKey | TooFewLines | TooFewParts | BadJson(message: string)

  /** `"rolename" in entry and entry["rolename"]` */
  predicate RefersToRole(e: Entry) {
    e.rolename.Some? && e.rolename.value != ""
  }

  // ----- Python's join and split -----

  function Join(parts: seq<string>, c: char): string {
    if parts == [] then ""
    else if |parts| == 1 then parts[0]
    else parts[0] + [c] + Join(parts[1..], c)
  }

  /** Position of the first `c`, or the length. */
  function Find(s: string, c: char): (n: nat)
    ensures n <= |s| && (n < |s| ==> s[n] == c) && c !in s[..n]
  {
    if s == "" || s[0] == c then 0 else 1 + Find(s[1..], c)
  }

  function Split(s: string, c: char): (parts: seq<string>)
    ensures parts != []
    decreases |s|
  {
    var n := Find(s, c);
    if n == |s| then [s] else [s[..n]] + Split(s[n + 1..], c)
  }

  /** `s.split(c, k)` */
  function SplitMax(s: string, c: char, k: nat): seq<string>
    decreases k
  {
    var n := Find(s, c);
    if k == 0 || n == |s| then [s] else [s[..n]] + SplitMax(s[n + 1..], c, k - 1)
  }

  lemma FindIn(a: string, c: char, b: string)
    requires c !in a
    ensures Find(a + [c] + b, c) == |a|
  {
    var s := a + [c] + b;
    var n := Find(s, c);
    assert s[|a|] == c;
    assert forall i :: 0 <= i < |a| ==> s[i] == a[i] && a[i] in a;
    assert forall i :: 0 <= i < n ==> s[i] == s[..n][i] && s[..n][i] in s[..n];
    assert n == |a|;
  }

  lemma FindNot(a: string, c: char)
    requires c !in a
    ensures Find(a, c) == |a|
  {
  }

  lemma {:induction false} SplitJoin(parts: seq<string>, c: char)
    requires parts != [] && forall p | p in parts :: c !in p
    ensures Split(Join(parts, c), c) == parts
    decreases parts
  {
    assert parts[0] in parts;
    if |parts| == 1 {
      FindNot(parts[0], c);
    } else {
      var rest := Join(parts[1..], c);
      FindIn(parts[0], c, rest);
      var s := parts[0] + [c] + rest;
      assert s[..|parts[0]|] == parts[0] && s[|parts[0]| + 1..] == rest;
      SplitJoin(parts[1..], c);
    }
  }

  lemma {:induction false} JoinAppend(parts: seq<string>, x: string, c: char)
    requires parts != []
    ensures Join(parts + [x], c) == Join(parts, c) + [c] + x
    decreases parts
  {
    if |parts| == 1 {
      assert (parts + [x])[1..] == [x];
    } else {
      assert (parts + [x])[1..] == parts[1..] + [x];
      JoinAppend(parts[1..], x, c);
    }
  }

  lemma SplitThree(a: string, b: string, d: string, c: char)
    requires c !in a && c !in b
    ensures SplitMax(a + [c] + (b + [c] + d), c, 2) == [a, b, d]
  {
    var s := a + [c] + (b + [c] + d);
    FindIn(a, c, b + [c] + d);
    assert s[..|a|] == a && s[|a| + 1..] == b + [c] + d;
    FindIn(b, c, d);
    assert (b + [c] + d)[..|b|] == b && (b + [c] + d)[|b| + 1..] == d;
  }

  // ----- printing -----

  function ActionLine(codec: Codec, a: Action): string {
    a.topic + ":" + (a.acl + ":" + match a.options { case Some(o) => codec.dumps(o) case None => "" })
  }

  function ActionLines(codec: Codec, actions: seq<Action>): seq<string> {
    if actions == [] then [] else [ActionLine(codec, actions[0])] + ActionLines(codec, actions[1..])
  }

  lemma {:induction false} ActionLinesAppend(codec: Codec, actions: seq<Action>, a: Action)
    ensures ActionLines(codec, actions + [a]) == ActionLines(codec, actions) + [ActionLine(codec, a)]
    decreases actions
  {
    if actions != [] {
      assert (actions + [a])[0] == actions[0] && (actions + [a])[1..] == actions[1..] + [a];
      ActionLinesAppend(codec, actions[1..], a);
    } else {
      assert (actions + [a])[1..] == [];
    }
  }

  function MembersOf(e: Entry): seq<string> {
    match e.members case Some(m) => m case None => []
  }

  /** An entry that can be printed without a KeyError. */
  predicate Printable(e: Entry) {
    RefersToRole(e) || (e.scope.Some? && e.actions.Some?)
  }

  /** The lines of an entry: scope, priority, members, role name, actions. */
  function EntryLines(codec: Codec, e: Entry, withMembers: bool): seq<string>
    requires Printable(e)
  {
    [if RefersToRole(e) then "" else e.scope.value,
     e.priority,
     if withMembers then Join(MembersOf(e), ',') else "",
     if RefersToRole(e) then e.rolename.value else ""]
    + if RefersToRole(e) then [] else ActionLines(codec, e.actions.value)
  }

  /** The body of `_convert_to_unicodestring`, one entry. */
  method PrintEntry(codec: Codec, e: Entry, withMembers: bool) returns (item: string)
    requires Printable(e)
    ensures item == Join(EntryLines(codec, e, withMembers), '\n')
  {
    ghost var lines := [if RefersToRole(e) then "" else e.scope.value, e.priority,
                        if withMembers then Join(MembersOf(e), ',') else ""];
    if RefersToRole(e) {
      item := "\n" + e.priority + "\n";
    } else {
      item := e.scope.value + "\n" + e.priority + "\n";
    }
    if withMembers {
      item := item + Join(MembersOf(e), ',');
    }
    ThreeLines(lines[0], lines[1], lines[2]);
    assert item == Join(lines, '\n');
    if RefersToRole(e) {
      JoinAppend(lines, e.rolename.value, '\n');
      item := item + "\n" + e.rolename.value;
      assert EntryLines(codec, e, withMembers) == lines + [e.rolename.value];
    } else {
      JoinAppend(lines, "", '\n');
      item := item + "\n";
      item := PrintActions(codec, e.actions.value, item, lines + [""]);
      assert EntryLines(codec, e, withMembers) == lines + [""] + ActionLines(codec, e.actions.value);
    }
  }

  /** The loop over the actions; `lines` is what has been printed before. */
  method PrintActions(codec: Codec, actions: seq<Action>, before: string, ghost lines: seq<string>)
    returns (item: string)
    requires lines != [] && before == Join(lines, '\n')
    ensures item == Join(lines + ActionLines(codec, actions), '\n')
  {
    item := before;
    assert lines + ActionLines(codec, actions[..0]) == lines;
    for i := 0 to |actions|
      invariant item == Join(lines + ActionLines(codec, actions[..i]), '\n')
    {
      var line := ActionLine(codec, actions[i]);
      assert actions[..i + 1] == actions[..i] + [actions[i]];
      ActionLinesAppend(codec, actions[..i], actions[i]);
      JoinAppend(lines + ActionLines(codec, actions[..i]), line, '\n');
      assert lines + ActionLines(codec, actions[..i]) + [line] == lines + (ActionLines(codec, actions[..i]) + [line]);
      item := item + "\n" + line;
    }
    assert actions[..|actions|] == actions;
  }

  lemma ThreeLines(a: string, b: string, d: string)
    ensures Join([a, b, d], '\n') == a + "\n" + b + "\n" + d
  {
    assert [a, b, d][1..] == [b, d];
    assert Join([b, d], '\n') == b + "\n" + d by {
      assert [b, d][1..] == [d];
    }
    assert a + "\n" + (b + "\n" + d) == a + "\n" + b + "\n" + d;
  }

  /** The printed actions, each on a line of its own: topic, rights and options behind colons. */
  function ActionText(codec: Codec, actions: seq<Action>): string {
    if actions == [] then ""
    else
      var a := actions[0];
      "\n" + a.topic + ":" + a.acl + ":" + (if a.options.Some? then codec.dumps(a.options.value) else "")
      + ActionText(codec, actions[1..])
  }

  /** The printed entry: scope, priority, members and role name on a line each, empty ones included, then the actions.
      */
  lemma PrintedEntry(codec: Codec, e: Entry, withMembers: bool)
    requires Printable(e)
    ensures var members := if withMembers && e.members.Some? then Join(e.members.value, ',') else "";
      Join(EntryLines(codec, e, withMembers), '\n') ==
        if e.rolename.Some? && e.rolename.value != ""
        then "\n" + e.priority + "\n" + members + "\n" + e.rolename.value
        else e.scope.value + "\n" + e.priority + "\n" + members + "\n" + ActionText(codec, e.actions.value)
  {
    var members := if withMembers then Join(MembersOf(e), ',') else "";
    assert !withMembers || e.members.Some? || members == "";
    if RefersToRole(e) {
      FourLines("", e.priority, members, e.rolename.value);
      NoScope(e.priority, members, e.rolename.value);
      assert EntryLines(codec, e, withMembers) == ["", e.priority, members, e.rolename.value];
    } else {
      FourLines(e.scope.value, e.priority, members, "");
      NoRole(e.scope.value + "\n" + e.priority + "\n" + members + "\n");
      JoinedActions(codec, [e.scope.value, e.priority, members, ""], e.actions.value);
    }
  }

  lemma NoScope(b: string, c: string, d: string)
    ensures "" + "\n" + b + "\n" + c + "\n" + d == "\n" + b + "\n" + c + "\n" + d
  {
    assert "" + "\n" == "\n";
  }

  lemma NoRole(s: string)
    ensures s + "" == s
  {
  }

  lemma FourLines(a: string, b: string, c: string, d: string)
    ensures Join([a, b, c, d], '\n') == a + "\n" + b + "\n" + c + "\n" + d
  {
    ThreeLines(a, b, c);
    JoinAppend([a, b, c], d, '\n');
    assert [a, b, c] + [d] == [a, b, c, d];
  }

  lemma {:induction false} JoinedActions(codec: Codec, lines: seq<string>, actions: seq<Action>)
    requires lines != []
    ensures Join(lines + ActionLines(codec, actions), '\n') == Join(lines, '\n') + ActionText(codec, actions)
    decreases actions
  {
    if actions == [] {
      assert lines + [] == lines;
    } else {
      var line := ActionLine(codec, actions[0]);
      JoinAppend(lines, line, '\n');
      JoinedActions(codec, lines + [line], actions[1..]);
      OneAction(codec, actions);
      LinesRegrouped(lines, line, ActionLines(codec, actions[1..]));
      TextRegrouped(Join(lines, '\n'), "\n" + line, ActionText(codec, actions[1..]));
      assert Join(lines + [line], '\n') == Join(lines, '\n') + ("\n" + line);
    }
  }

  lemma LinesRegrouped(lines: seq<string>, line: string, rest: seq<string>)
    ensures lines + ([line] + rest) == lines + [line] + rest
  {
  }

  lemma TextRegrouped(a: string, b: string, c: string)
    ensures (a + b) + c == a + (b + c)
  {
  }

  lemma OneAction(codec: Codec, actions: seq<Action>)
    requires actions != []
    ensures ActionText(codec, actions) == ("\n" + ActionLine(codec, actions[0])) + ActionText(codec, actions[1..])
  {
  }

  /** `text` is the printed form of `value`, entry by entry. */
  predicate PrintedAs(codec: Codec, value: seq<Entry>, text: seq<string>, withMembers: bool) {
    && |text| == |value|
    && forall i :: 0 <= i < |value| ==>
         Printable(value[i]) && text[i] == Join(EntryLines(codec, value[i], withMembers), '\n')
  }

  method ToText(codec: Codec, value: seq<Entry>, withMembers: bool) returns (r: Result<seq<string>, Error>)
    ensures r.Success? <==> forall e | e in value :: Printable(e)
    ensures r.Success? ==> PrintedAs(codec, value, r.value, withMembers)
  {
    var res := [];
    for i := 0 to |value|
      invariant PrintedAs(codec, value[..i], res, withMembers)
    {
      if !Printable(value[i]) {
        assert value[i] in value;
        return Failure(MissingKey);
      }
      var item := PrintEntry(codec, value[i], withMembers);
      res := res + [item];
    }
    assert value[..|value|] == value;
    r := Success(res);
  }

  // ----- parsing -----

  /** `members.remove("")`, when there is one. */
  function WithoutBlank(members: seq<string>): seq<string> {
    if members == [] then [] else if members[0] == "" then members[1..] else [members[0]] + WithoutBlank(members[1..])
  }

  function ParseAction(codec: Codec, line: string): Result<Action, Error> {
    var parts := SplitMax(line, ':', 2);
    if |parts| != 3 then Failure(TooFewParts)
    else if parts[2] == "" then Success(Action(parts[0], parts[1], Some(map[])))
    else match codec.loads(parts[2])
      case Failure(m) => Failure(BadJson(m))
      case Success(o) => Success(Action(parts[0], parts[1], Some(o)))
  }

  function Prepend<T>(a: seq<T>, r: Result<seq<T>, Error>): Result<seq<T>, Error> {
    match r case Failure(e) => Failure(e) case Success(b) => Success(a + b)
  }

  lemma PrependTwice<T>(a: seq<T>, b: seq<T>, r: Result<seq<T>, Error>)
    ensures Prepend(a + b, r) == Prepend(a, Prepend(b, r))
    ensures Prepend([], r) == r
  {
    if r.Success? {
      assert (a + b) + r.value == a + (b + r.value);
      assert [] + r.value == r.value;
    }
  }

  function ParseActions(codec: Codec, lines: seq<string>): Result<seq<Action>, Error> {
    if lines == [] then Success([])
    else if lines[0] == "" then ParseActions(codec, lines[1..])
    else match ParseAction(codec, lines[0])
      case Failure(e) => Failure(e)
      case Success(a) => Prepend([a], ParseActions(codec, lines[1..]))
  }

  function ParseEntry(codec: Codec, item: string, withMembers: bool): Result<Entry, Error> {
    var data := Split(item, '\n');
    if |data| < 4 then Failure(TooFewLines)
    else
      var members := if withMembers then Some(WithoutBlank(Split(data[2], ','))) else None;
      if data[3] != "" then Success(Entry(None, data[1], members, Some(data[3]), None))
      else match ParseActions(codec, data[4..])
        case Failure(e) => Failure(e)
        case Success(actions) => Success(Entry(Some(data[0]), data[1], members, None, Some(actions)))
  }

  function ParseAll(codec: Codec, value: seq<string>, withMembers: bool): Result<seq<Entry>, Error> {
    if value == [] then Success([])
    else match ParseEntry(codec, value[0], withMembers)
      case Failure(e) => Failure(e)
      case Success(entry) => Prepend([entry], ParseAll(codec, value[1..], withMembers))
  }

  /** The loop over the action lines. */
  method ReadActions(codec: Codec, lines: seq<string>) returns (r: Result<seq<Action>, Error>)
    ensures r == ParseActions(codec, lines)
  {
    var actions := [];
    var i := 0;
    PrependTwice<Action>([], [], ParseActions(codec, lines));
    assert lines[0..] == lines;
    while i < |lines|
      invariant 0 <= i <= |lines|
      invariant ParseActions(codec, lines) == Prepend(actions, ParseActions(codec, lines[i..]))
    {
      var line := lines[i];
      assert lines[i..][0] == line && lines[i..][1..] == lines[i + 1..];
      i := i + 1;
      if line == "" { continue; }
      var a := ParseAction(codec, line);
      if a.Failure? { return Failure(a.error); }
      PrependTwice(actions, [a.value], ParseActions(codec, lines[i..]));
      actions := actions + [a.value];
    }
    assert actions + [] == actions;
    r := Success(actions);
  }

  method ReadEntry(codec: Codec, item: string, withMembers: bool) returns (r: Result<Entry, Error>)
    ensures r == ParseEntry(codec, item, withMembers)
  {
    var data := Split(item, '\n');
    if |data| < 4 { return Failure(TooFewLines); }
    var members := if withMembers then Some(WithoutBlank(Split(data[2], ','))) else None;
    if data[3] != "" { return Success(Entry(None, data[1], members, Some(data[3]), None)); }
    var actions := ReadActions(codec, data[4..]);
    if actions.Failure? { return Failure(actions.error); }
    r := Success(Entry(Some(data[0]), data[1], members, None, Some(actions.value)));
  }

  /** `_convert_from_unicodestring` */
  method FromText(codec: Codec, value: seq<string>, withMembers: bool) returns (r: Result<seq<Entry>, Error>)
    ensures r == ParseAll(codec, value, withMembers)
  {
    var entries := [];
    PrependTwice<Entry>([], [], ParseAll(codec, value, withMembers));
    assert value[0..] == value;
    for i := 0 to |value|
      invariant ParseAll(codec, value, withMembers) == Prepend(entries, ParseAll(codec, value[i..], withMembers))
    {
      assert value[i..][0] == value[i] && value[i..][1..] == value[i + 1..];
      var e := ReadEntry(codec, value[i], withMembers);
      if e.Failure? { return Failure(e.error); }
      PrependTwice(entries, [e.value], ParseAll(codec, value[i + 1..], withMembers));
      entries := entries + [e.value];
    }
    assert entries + [] == entries;
    r := Success(entries);
  }

  // ----- round trip -----

  predicate OneLine(s: string) {
    '\n' !in s
  }

  predicate GoodAction(a: Action) {
    OneLine(a.topic) && OneLine(a.acl) && ':' !in a.topic && ':' !in a.acl
  }

  predicate GoodMember(m: string) {
    m != "" && OneLine(m) && ',' !in m
  }

  predicate GoodEntry(e: Entry) {
    && Printable(e) && OneLine(e.priority)
    && (forall m | m in MembersOf(e) :: GoodMember(m))
    && (if RefersToRole(e) then OneLine(e.rolename.value)
        else OneLine(e.scope.value) && forall a | a in e.actions.value :: GoodAction(a))
  }

  /** Missing options read back as {}. */
  function NormalAction(a: Action): Action {
    if a.options.None? then a.(options := Some(map[])) else a
  }

  function NormalActions(actions: seq<Action>): seq<Action> {
    if actions == [] then [] else [NormalAction(actions[0])] + NormalActions(actions[1..])
  }

  /** What an entry reads back as: only the keys of its kind, members always present in sets. */
  function Normal(e: Entry, withMembers: bool): Entry {
    var members := if withMembers then Some(MembersOf(e)) else None;
    if RefersToRole(e) then Entry(None, e.priority, members, e.rolename, None)
    else Entry(e.scope, e.priority, members, None,
               match e.actions { case None => None case Some(a) => Some(NormalActions(a)) })
  }

  function NormalAll(value: seq<Entry>, withMembers: bool): seq<Entry> {
    if value == [] then [] else [Normal(value[0], withMembers)] + NormalAll(value[1..], withMembers)
  }

  lemma ActionRoundTrip(codec: Codec, a: Action)
    requires Lawful(codec) && GoodAction(a)
    ensures OneLine(ActionLine(codec, a)) && ActionLine(codec, a) != ""
    ensures ParseAction(codec, ActionLine(codec, a)) == Success(NormalAction(a))
  {
    var d := match a.options { case Some(o) => codec.dumps(o) case None => "" };
    SplitThree(a.topic, a.acl, d, ':');
    if a.options.Some? {
      assert codec.loads(codec.dumps(a.options.value)) == Success(a.options.value);
    }
  }

  lemma {:induction false} ActionsRoundTrip(codec: Codec, actions: seq<Action>)
    requires Lawful(codec) && forall a | a in actions :: GoodAction(a)
    ensures forall l | l in ActionLines(codec, actions) :: OneLine(l)
    ensures ParseActions(codec, ActionLines(codec, actions)) == Success(NormalActions(actions))
    decreases actions
  {
    if actions != [] {
      assert actions[0] in actions && forall a | a in actions[1..] :: a in actions;
      ActionRoundTrip(codec, actions[0]);
      ActionsRoundTrip(codec, actions[1..]);
      assert ActionLines(codec, actions)[1..] == ActionLines(codec, actions[1..]);
    }
  }

  lemma {:induction false} JoinIsOneLine(members: seq<string>)
    requires forall m | m in members :: GoodMember(m)
    ensures OneLine(Join(members, ','))
    decreases members
  {
    if members != [] {
      assert members[0] in members;
      JoinIsOneLine(members[1..]);
    }
  }

  lemma {:induction false} NoBlank(members: seq<string>)
    requires "" !in members
    ensures WithoutBlank(members) == members
    decreases members
  {
    if members != [] {
      assert members[0] in members;
      NoBlank(members[1..]);
    }
  }

  lemma MembersRoundTrip(members: seq<string>)
    requires forall m | m in members :: GoodMember(m)
    ensures OneLine(Join(members, ',')) && WithoutBlank(Split(Join(members, ','), ',')) == members
  {
    JoinIsOneLine(members);
    if members == [] {
      assert Split("", ',') == [""];
    } else {
      assert forall m | m in members :: GoodMember(m) && m != "";
      SplitJoin(members, ',');
      NoBlank(members);
    }
  }

  lemma LinesAreLines(codec: Codec, e: Entry, withMembers: bool)
    requires Lawful(codec) && GoodEntry(e)
    ensures var lines := EntryLines(codec, e, withMembers);
      |lines| >= 4 && Split(Join(lines, '\n'), '\n') == lines
  {
    var lines := EntryLines(codec, e, withMembers);
    MembersRoundTrip(MembersOf(e));
    if !RefersToRole(e) {
      ActionsRoundTrip(codec, e.actions.value);
    }
    assert forall l | l in lines :: OneLine(l);
    SplitJoin(lines, '\n');
  }

  lemma EntryRoundTrip(codec: Codec, e: Entry, withMembers: bool)
    requires Lawful(codec) && GoodEntry(e)
    ensures ParseEntry(codec, Join(EntryLines(codec, e, withMembers), '\n'), withMembers)
         == Success(Normal(e, withMembers))
  {
    var lines := EntryLines(codec, e, withMembers);
    LinesAreLines(codec, e, withMembers);
    MembersRoundTrip(MembersOf(e));
    if !RefersToRole(e) {
      ActionsRoundTrip(codec, e.actions.value);
      assert lines[4..] == ActionLines(codec, e.actions.value);
    }
  }

  /** Parsing the printed form gives every well-formed list of entries back, normalised. */
  lemma {:induction false} TextRoundTrip(codec: Codec, value: seq<Entry>, text: seq<string>, withMembers: bool)
    requires Lawful(codec) && PrintedAs(codec, value, text, withMembers)
    requires forall e | e in value :: GoodEntry(e)
    ensures ParseAll(codec, text, withMembers) == Success(NormalAll(value, withMembers))
    decreases value
  {
    if value != [] {
      assert value[0] in value && forall e | e in value[1..] :: e in value;
      EntryRoundTrip(codec, value[0], withMembers);
      TextRoundTrip(codec, value[1..], text[1..], withMembers);
    }
  }

  /** Storing and loading. */
  method StoreAndLoad(codec: Codec, value: seq<Entry>, withMembers: bool) returns (r: Result<seq<Entry>, Error>)
    requires Lawful(codec) && forall e | e in value :: GoodEntry(e)
    ensures r == Success(NormalAll(value, withMembers))
  {
    var text := ToText(codec, value, withMembers);
    TextRoundTrip(codec, value, text.value, withMembers);
    r := FromText(codec, text.value, withMembers);
  }

  /** Loaded entries are their own normal form, so a second round changes nothing. */
  lemma {:induction false} NormalIsStable(value: seq<Entry>, withMembers: bool)
    requires forall e | e in value :: GoodEntry(e)
    ensures forall e | e in NormalAll(value, withMembers) :: GoodEntry(e)
    ensures NormalAll(NormalAll(value, withMembers), withMembers) == NormalAll(value, withMembers)
    decreases value
  {
    if value != [] {
      var e := value[0];
      assert e in value && forall x | x in value[1..] :: x in value;
      if !RefersToRole(e) {
        ActionsStable(e.actions.value);
      }
      NormalIsStable(value[1..], withMembers);
      var n := NormalAll(value, withMembers);
      assert n[1..] == NormalAll(value[1..], withMembers);
    }
  }

  lemma {:induction false} ActionsStable(actions: seq<Action>)
    requires forall a | a in actions :: GoodAction(a)
    ensures forall a | a in NormalActions(actions) :: GoodAction(a)
    ensures NormalActions(NormalActions(actions)) == NormalActions(actions)
    decreases actions
  {
    if actions != [] {
      assert actions[0] in actions && forall a | a in actions[1..] :: a in actions;
      ActionsStable(actions[1..]);
      assert NormalActions(actions)[1..] == NormalActions(actions[1..]);
    }
  }
}
