/** The life cycle of an object's extensions: `extend`, `retract` and `commit` of the object proxy. */
module Extensions {
  import opened Wrappers

  /** What the factory knows about an extension type. */
  datatype Kind = Kind(needs: seq<string>, methods: seq<string>)

  datatype Error = NotAllowed | AlreadyDefined | Depends(missing: string) | NotExtended | InUse | Forbidden | Invalid

  /** Extension objects are numbered; 0 is the base object. `stored` are the extensions the backends hold. */
  datatype Proxy = Proxy(
    extensions: map<string, Option<nat>>,
    initial: map<string, bool>,
    retractions: map<string, nat>,
    methodMap: map<string, nat>,
    methodTypes: map<string, string>,
    stored: set<string>,
    nextObject: nat)

  const BASE: nat := 0

  predicate IsActive(p: Proxy, e: string) {
    e in p.extensions && p.extensions[e].Some?
  }

  function Active(p: Proxy): set<string> {
    set e | e in p.extensions && p.extensions[e].Some?
  }

  // ----- what the operations do -----

  function FirstMissing(p: Proxy, needs: seq<string>): Option<string> {
    if needs == [] then None
    else if !IsActive(p, needs[0]) then Some(needs[0])
    else FirstMissing(p, needs[1..])
  }

  lemma {:induction false} NothingMissing(p: Proxy, needs: seq<string>)
    ensures FirstMissing(p, needs).None? <==> forall n | n in needs :: IsActive(p, n)
    ensures FirstMissing(p, needs).Some? ==>
              FirstMissing(p, needs).value in needs && !IsActive(p, FirstMissing(p, needs).value)
  {
    if needs != [] {
      NothingMissing(p, needs[1..]);
      assert forall n | n in needs :: n == needs[0] || n in needs[1..];
    }
  }

  function ExtendError(p: Proxy, types: map<string, Kind>, e: string, permitted: bool): Option<Error>
    requires p.extensions.Keys <= types.Keys
  {
    if e !in p.extensions then Some(NotAllowed)
    else if p.extensions[e].Some? then Some(AlreadyDefined)
    else if FirstMissing(p, types[e].needs).Some? then Some(Depends(FirstMissing(p, types[e].needs).value))
    else if !permitted then Some(Forbidden)
    else None
  }

  function RetractError(p: Proxy, types: map<string, Kind>, e: string, permitted: bool): Option<Error>
    requires p.extensions.Keys <= types.Keys
  {
    if e !in p.extensions then Some(NotAllowed)
    else if p.extensions[e].None? then Some(NotExtended)
    else if exists user :: user in Active(p) && e in types[user].needs then Some(InUse)
    else if !permitted then Some(Forbidden)
    else None
  }

  /** The object `extend` installs: the retracted one comes back, otherwise the factory makes a new one. */
  function Installed(p: Proxy, e: string): nat {
    if e in p.retractions then p.retractions[e] else p.nextObject
  }

  function Bound<V>(m: map<string, V>, methods: seq<string>, v: V): map<string, V> {
    m + map k | k in methods :: v
  }

  function Extended(p: Proxy, types: map<string, Kind>, e: string): Proxy
    requires e in types
  {
    var instance := Installed(p, e);
    p.(extensions := p.extensions[e := Some(instance)],
       retractions := p.retractions - {e},
       nextObject := if e in p.retractions then p.nextObject else p.nextObject + 1,
       methodMap := Bound(p.methodMap, types[e].methods, instance),
       methodTypes := Bound(p.methodTypes, types[e].methods, e))
  }

  function MethodsOf(p: Proxy, e: string): set<string> {
    set m | m in p.methodTypes && p.methodTypes[m] == e
  }

  function Retracted(p: Proxy, e: string): Proxy
    requires IsActive(p, e)
  {
    p.(extensions := p.extensions[e := None],
       retractions := p.retractions[e := p.extensions[e].value],
       methodMap := p.methodMap - MethodsOf(p, e),
       methodTypes := p.methodTypes - MethodsOf(p, e))
  }

  /** The retractions that `commit` carries out; the others it just forgets. */
  function Carried(p: Proxy): set<string> {
    set e | e in p.retractions && e in p.initial && p.initial[e]
  }

  /** Retractions are carried out before the checks, which may still refuse. */
  function Committed(p: Proxy, valid: bool): Proxy {
    p.(stored := p.stored - Carried(p) + (if valid then Active(p) else {}), retractions := map[])
  }

  datatype Op =
    | Extend(extension: string, permitted: bool)
    | Retract(extension: string, permitted: bool)
    | Commit(permitted: bool, valid: bool)

  function Apply(p: Proxy, types: map<string, Kind>, op: Op): (q: Proxy)
    requires p.extensions.Keys <= types.Keys
    ensures q.extensions.Keys == p.extensions.Keys && q.initial == p.initial
  {
    match op
    case Extend(e, permitted) => if ExtendError(p, types, e, permitted).None? then Extended(p, types, e) else p
    case Retract(e, permitted) => if RetractError(p, types, e, permitted).None? then Retracted(p, e) else p
    case Commit(permitted, valid) => if permitted then Committed(p, valid) else p
  }

  /** `extend` refuses an unknown extension, one that is active, one that misses something it needs, and one the user
      may not have, in that order. */
  lemma ExtendRefusals(p: Proxy, types: map<string, Kind>, e: string, permitted: bool)
    requires p.extensions.Keys <= types.Keys
    ensures var error := ExtendError(p, types, e, permitted);
      && (error == Some(NotAllowed) <==> e !in p.extensions)
      && (error == Some(AlreadyDefined) <==> e in p.extensions && p.extensions[e] != None)
      && (error.Some? && error.value.Depends? <==>
            && e in p.extensions && p.extensions[e] == None
            && exists n :: n in types[e].needs && !(n in p.extensions && p.extensions[n] != None))
      && (error.Some? && error.value.Depends? ==>
            && error.value.missing in types[e].needs
            && !(error.value.missing in p.extensions && p.extensions[error.value.missing] != None))
      && (error == Some(Forbidden) ==> !permitted) && (error == None ==> permitted)
      && (error == None || error == Some(Forbidden) <==>
            && e in p.extensions && p.extensions[e] == None
            && forall n :: n in types[e].needs ==> n in p.extensions && p.extensions[n] != None)
  {
    if e in p.extensions {
      NothingMissing(p, types[e].needs);
    }
  }

  /** `retract` refuses an unknown extension, one that is not active, one that another active extension needs, and one
      the user may not take away, in that order. */
  lemma RetractRefusals(p: Proxy, types: map<string, Kind>, e: string, permitted: bool)
    requires p.extensions.Keys <= types.Keys
    ensures var error := RetractError(p, types, e, permitted);
      && (error == Some(NotAllowed) <==> e !in p.extensions)
      && (error == Some(NotExtended) <==> e in p.extensions && p.extensions[e] == None)
      && (error == Some(InUse) <==>
            && e in p.extensions && p.extensions[e] != None
            && exists x :: x in p.extensions && p.extensions[x] != None && e in types[x].needs)
      && (error == Some(Forbidden) ==> !permitted) && (error == None ==> permitted)
      && (error == None || error == Some(Forbidden) <==>
            && e in p.extensions && p.extensions[e] != None
            && forall x :: x in p.extensions && p.extensions[x] != None ==> e !in types[x].needs)
  {
    assert forall x :: x in Active(p) <==> x in p.extensions && p.extensions[x] != None;
  }

  /** `extend` installs the retracted object, or else a new one, and binds every method of the extension to it. */
  lemma ExtendedHolds(p: Proxy, types: map<string, Kind>, e: string)
    requires e in types && e in p.extensions
    ensures var q, instance := Extended(p, types, e), if e in p.retractions then p.retractions[e] else p.nextObject;
      && q.extensions == p.extensions[e := Some(instance)] && q.retractions == p.retractions - {e}
      && q.initial == p.initial && q.stored == p.stored
      && q.nextObject == (if e in p.retractions then p.nextObject else p.nextObject + 1)
      && q.methodMap.Keys == p.methodMap.Keys + (set m | m in types[e].methods)
      && (forall m | m in types[e].methods :: m in q.methodMap && q.methodMap[m] == instance
                                              && m in q.methodTypes && q.methodTypes[m] == e)
      && (forall m | m in p.methodMap && m !in types[e].methods :: q.methodMap[m] == p.methodMap[m])
      && (forall m | m in p.methodTypes && m !in types[e].methods ::
            m in q.methodTypes && q.methodTypes[m] == p.methodTypes[m])
  {
  }

  /** `retract` keeps the object for later, and drops exactly the methods of the extension. */
  lemma RetractedHolds(p: Proxy, e: string)
    requires e in p.extensions && p.extensions[e] != None
    ensures var q := Retracted(p, e);
      && q.extensions == p.extensions[e := None] && q.retractions == p.retractions[e := p.extensions[e].value]
      && q.initial == p.initial && q.stored == p.stored && q.nextObject == p.nextObject
      && (forall m :: m in q.methodTypes <==> m in p.methodTypes && p.methodTypes[m] != e)
      && (forall m | m in q.methodTypes :: q.methodTypes[m] == p.methodTypes[m])
      && (forall m :: m in q.methodMap <==> m in p.methodMap && !(m in p.methodTypes && p.methodTypes[m] == e))
      && (forall m | m in q.methodMap :: q.methodMap[m] == p.methodMap[m])
  {
  }

  /** A commit takes out the pending retractions that were there at the start, and puts in what is active if the checks
      are passed. */
  lemma CommittedHolds(p: Proxy, valid: bool, e: string)
    ensures var q := Committed(p, valid);
      && (e in q.stored <==>
            || (valid && e in p.extensions && p.extensions[e] != None)
            || (e in p.stored && !(e in p.retractions && e in p.initial && p.initial[e])))
      && q == p.(stored := q.stored, retractions := map[])
  {
  }

  // ----- what every operation keeps -----

  /** An active extension finds everything it needs active, and is not waiting to be retracted. */
  predicate Closed(p: Proxy, types: map<string, Kind>) {
    && p.extensions.Keys == p.initial.Keys <= types.Keys
    && p.retractions.Keys <= p.extensions.Keys
    && (forall e | e in Active(p) :: e !in p.retractions)
    && (forall e, n | e in Active(p) && n in types[e].needs :: IsActive(p, n))
  }

  /** Every method is bound to the object its type names: the base or an active extension, never a retracted one. */
  predicate WellBound(p: Proxy, base: string) {
    && p.methodMap.Keys == p.methodTypes.Keys
    && base !in p.extensions
    && forall m | m in p.methodTypes ::
         if p.methodTypes[m] == base then p.methodMap[m] == BASE
         else IsActive(p, p.methodTypes[m]) && p.extensions[p.methodTypes[m]].value == p.methodMap[m]
  }

  lemma StepKeeps(p: Proxy, types: map<string, Kind>, base: string, op: Op)
    requires Closed(p, types) && WellBound(p, base)
    ensures Closed(Apply(p, types, op), types) && WellBound(Apply(p, types, op), base)
  {
    match op
    case Extend(e, permitted) =>
      if ExtendError(p, types, e, permitted).None? {
        ExtendKeeps(p, types, base, e);
      }
    case Retract(e, permitted) =>
      if RetractError(p, types, e, permitted).None? {
        RetractKeeps(p, types, base, e);
      }
    case Commit(permitted, valid) =>
      var q := Committed(p, valid);
      assert forall e :: IsActive(q, e) == IsActive(p, e);
      assert Active(q) == Active(p);
  }

  lemma ExtendKeeps(p: Proxy, types: map<string, Kind>, base: string, e: string)
    requires Closed(p, types) && WellBound(p, base) && ExtendError(p, types, e, true).None?
    ensures var q := Extended(p, types, e); Closed(q, types) && WellBound(q, base) && Active(q) == Active(p) + {e}
  {
    ExtendKeepsBindings(p, types, base, e);
    NothingMissing(p, types[e].needs);
    var q := Extended(p, types, e);
    assert forall a :: IsActive(q, a) <==> IsActive(p, a) || a == e;
  }

  lemma ExtendKeepsBindings(p: Proxy, types: map<string, Kind>, base: string, e: string)
    requires WellBound(p, base) && e in types && e in p.extensions && p.extensions[e].None?
    ensures WellBound(Extended(p, types, e), base)
  {
    var q := Extended(p, types, e);
    forall m | m in q.methodTypes
      ensures if q.methodTypes[m] == base then q.methodMap[m] == BASE
              else IsActive(q, q.methodTypes[m]) && q.extensions[q.methodTypes[m]].value == q.methodMap[m]
    {
      if m !in types[e].methods {
        assert q.methodTypes[m] == p.methodTypes[m] && q.methodMap[m] == p.methodMap[m];
      }
    }
  }

  lemma RetractKeeps(p: Proxy, types: map<string, Kind>, base: string, e: string)
    requires Closed(p, types) && WellBound(p, base) && RetractError(p, types, e, true).None?
    ensures var q := Retracted(p, e); Closed(q, types) && WellBound(q, base) && Active(q) == Active(p) - {e}
  {
    var q := Retracted(p, e);
    assert forall a :: IsActive(q, a) <==> IsActive(p, a) && a != e;
    assert forall m | m in q.methodTypes ::
        q.methodTypes[m] == p.methodTypes[m] && q.methodMap[m] == p.methodMap[m] && q.methodTypes[m] != e;
  }

  function Run(p: Proxy, types: map<string, Kind>, ops: seq<Op>): (q: Proxy)
    requires p.extensions.Keys <= types.Keys
    ensures q.extensions.Keys == p.extensions.Keys && q.initial == p.initial
    decreases |ops|
  {
    if ops == [] then p else Run(Apply(p, types, ops[0]), types, ops[1..])
  }

  /** Every run keeps the dependencies of the active extensions active and the pending retractions inactive. */
  lemma {:induction false} RunKeeps(p: Proxy, types: map<string, Kind>, base: string, ops: seq<Op>)
    requires Closed(p, types) && WellBound(p, base)
    ensures Closed(Run(p, types, ops), types) && WellBound(Run(p, types, ops), base)
    decreases |ops|
  {
    if ops != [] {
      StepKeeps(p, types, base, ops[0]);
      RunKeeps(Apply(p, types, ops[0]), types, base, ops[1..]);
    }
  }

  // ----- what the store holds -----

  /** Every stored extension is active or waiting to be retracted. */
  predicate InStep(p: Proxy) {
    forall e | e in p.stored :: IsActive(p, e) || e in p.retractions
  }

  /** Only extensions that were there when the object was loaded are stored. */
  predicate OnlyInitial(p: Proxy) {
    forall e | e in p.stored :: e in p.initial && p.initial[e]
  }

  /** A successful commit stores exactly the active extensions, if and only if every stored extension that is
      no longer active is a pending retraction of one that was there when the object was loaded. */
  lemma CommitStoresActiveIff(p: Proxy)
    requires forall e | e in Active(p) :: e !in p.retractions
    ensures Committed(p, true).stored == Active(p) <==>
            forall e | e in p.stored && !IsActive(p, e) :: e in p.retractions && e in p.initial && p.initial[e]
  {
    var after := Committed(p, true).stored;
    if after == Active(p) {
      forall e | e in p.stored && !IsActive(p, e)
        ensures e in p.retractions && e in p.initial && p.initial[e]
      {
        assert e !in after;
      }
    }
  }

  predicate Saves(op: Op) {
    op.Commit? && op.permitted && op.valid
  }

  /** Until the first successful commit, the store holds nothing but what it held at the start, and only what is
      active or pending. Refused commits, which already carry the retractions out, change nothing about that. */
  lemma {:induction false} UntilCommitted(p: Proxy, types: map<string, Kind>, base: string, ops: seq<Op>)
    requires Closed(p, types) && WellBound(p, base) && InStep(p) && OnlyInitial(p)
    requires forall op | op in ops :: !Saves(op)
    ensures var q := Run(p, types, ops); InStep(q) && OnlyInitial(q)
    decreases |ops|
  {
    if ops != [] {
      StepKeeps(p, types, base, ops[0]);
      StepInStep(p, types, ops[0]);
      UntilCommitted(Apply(p, types, ops[0]), types, base, ops[1..]);
    }
  }

  lemma StepInStep(p: Proxy, types: map<string, Kind>, op: Op)
    requires Closed(p, types) && InStep(p) && OnlyInitial(p) && !Saves(op)
    ensures InStep(Apply(p, types, op)) && OnlyInitial(Apply(p, types, op))
  {
  }

  /** However often the extensions were toggled, the first successful commit leaves the store with exactly the
      active ones. */
  lemma FirstCommitStoresActive(p: Proxy, types: map<string, Kind>, base: string, ops: seq<Op>)
    requires Closed(p, types) && WellBound(p, base) && p.retractions == map[]
    requires p.stored == Active(p) && forall e | e in p.initial :: p.initial[e] == IsActive(p, e)
    requires forall op | op in ops :: !Saves(op)
    ensures var q := Run(p, types, ops); Apply(q, types, Commit(true, true)).stored == Active(q)
  {
    UntilCommitted(p, types, base, ops);
    RunKeeps(p, types, base, ops);
    CommitStoresActiveIff(Run(p, types, ops));
  }

  /** After that one, a commit may leave an extension behind: any that was not there at the start can be added,
      saved, retracted and saved again, and is then still stored. */
  lemma SecondCommitLeavesExtensionBehind(p: Proxy, types: map<string, Kind>, base: string, e: string)
    requires Closed(p, types) && WellBound(p, base) && ExtendError(p, types, e, true).None? && !p.initial[e]
    ensures var q := Run(p, types, [Extend(e, true), Commit(true, true), Retract(e, true), Commit(true, true)]);
            e in q.stored && !IsActive(q, e)
  {
    var save, retract := Commit(true, true), Retract(e, true);
    var p1 := Extended(p, types, e);
    ExtendKeeps(p, types, base, e);
    NothingMissing(p, types[e].needs);
    var p2 := Committed(p1, true);
    assert e in Active(p1) && e in p2.stored;
    assert Active(p2) == Active(p) + {e};
    assert !IsActive(p, e) && e !in types[e].needs;
    assert forall user | user in Active(p) :: e !in types[user].needs;
    var p3 := Retracted(p2, e);
    assert RetractError(p2, types, e, true).None?;
    var p4 := Committed(p3, true);
    assert e !in Carried(p3);
    UnfoldFour(p, types, Extend(e, true), save, retract, save);
  }

  lemma UnfoldFour(p: Proxy, types: map<string, Kind>, a: Op, b: Op, c: Op, d: Op)
    requires p.extensions.Keys <= types.Keys
    ensures Run(p, types, [a, b, c, d]) == Apply(Apply(Apply(Apply(p, types, a), types, b), types, c), types, d)
  {
    assert [a, b, c, d][1..] == [b, c, d] && [b, c, d][1..] == [c, d] && [c, d][1..] == [d] && [d][1..] == [];
    var p1 := Apply(p, types, a);
    var p2 := Apply(p1, types, b);
    var p3 := Apply(p2, types, c);
    assert Run(p3, types, [d]) == Apply(p3, types, d);
    assert Run(p2, types, [c, d]) == Run(p3, types, [d]);
    assert Run(p1, types, [b, c, d]) == Run(p2, types, [c, d]);
  }

  // ----- what one operation undoes -----

  function Names(methods: seq<string>): set<string> {
    set m | m in methods
  }

  lemma BoundAndUnbound<V>(m: map<string, V>, methods: seq<string>, v: V)
    ensures Bound(m, methods, v) - Names(methods) == m <==> Names(methods) !! m.Keys
  {
    var back := Bound(m, methods, v) - Names(methods);
    assert forall k :: k in back <==> k in m && k !in methods;
    if k :| k in methods && k in m {
      assert k !in back && k in Names(methods);
    } else {
      assert forall k | k in m :: back[k] == m[k];
    }
  }

  /** Extending and retracting again gives back the method tables, if and only if the extension brings no method
      whose name is already taken: those are lost. */
  lemma ToggleRestoresMethodsIff(p: Proxy, types: map<string, Kind>, base: string, e: string)
    requires Closed(p, types) && WellBound(p, base) && ExtendError(p, types, e, true).None?
    ensures var q := Retracted(Extended(p, types, e), e);
            q.methodMap == p.methodMap && q.methodTypes == p.methodTypes <==>
            Names(types[e].methods) !! p.methodTypes.Keys
  {
    var x, methods := Extended(p, types, e), types[e].methods;
    assert MethodsOf(x, e) == Names(methods) by {
      assert forall m | m in p.methodTypes :: p.methodTypes[m] != e;
    }
    BoundAndUnbound(p.methodMap, methods, Installed(p, e));
    BoundAndUnbound(p.methodTypes, methods, e);
  }

  lemma UnboundAndBound<V>(m: map<string, V>, own: set<string>, methods: seq<string>, v: V)
    requires own <= m.Keys && forall k | k in own :: m[k] == v
    requires forall k | k in m && m[k] == v :: k in own
    ensures Bound(m - own, methods, v) == m <==> own == Names(methods)
  {
    var back := Bound(m - own, methods, v);
    assert forall k :: k in back <==> (k in m && k !in own) || k in methods;
    assert forall k | k in methods :: back[k] == v;
    assert forall k | k in own && k !in methods :: k in m && k !in back;
    if back == m {
      assert own == Names(methods);
    } else if own == Names(methods) {
      assert forall k | k in own :: k in methods;
      assert forall k | k in m :: k in back && back[k] == m[k];
      assert forall k | k in back :: k in m;
      assert false;
    }
  }

  /** An extension can be brought back right after it was retracted. */
  lemma RetractedCanReturn(p: Proxy, types: map<string, Kind>, base: string, e: string)
    requires Closed(p, types) && WellBound(p, base) && RetractError(p, types, e, true).None?
    ensures ExtendError(Retracted(p, e), types, e, true).None?
  {
    var r, needs := Retracted(p, e), types[e].needs;
    assert e in Active(p);
    NothingMissing(r, needs);
    assert forall n | n in needs :: IsActive(p, n) && n != e;
    assert forall n | n in needs :: IsActive(r, n);
  }

  /** Then the same object comes back. */
  lemma RetractThenExtend(p: Proxy, types: map<string, Kind>, e: string)
    requires Closed(p, types) && IsActive(p, e)
    ensures var x := Extended(Retracted(p, e), types, e);
            x.extensions == p.extensions && x.retractions == p.retractions
  {
    assert e in Active(p) && e !in p.retractions;
    assert p.extensions[e := None][e := p.extensions[e]] == p.extensions;
    assert p.retractions[e := p.extensions[e].value] - {e} == p.retractions;
  }

  /** And nothing at all has changed, if and only if the names of the extension's methods were all its own. */
  lemma RetractThenExtendIsIdentityIff(p: Proxy, types: map<string, Kind>, base: string, e: string)
    requires Closed(p, types) && WellBound(p, base) && RetractError(p, types, e, true).None?
    ensures Extended(Retracted(p, e), types, e) == p <==> MethodsOf(p, e) == Names(types[e].methods)
  {
    var instance, own, methods := p.extensions[e].value, MethodsOf(p, e), types[e].methods;
    RetractThenExtend(p, types, e);
    UnboundAndBound(p.methodTypes, own, methods, e);
    if own == Names(methods) {
      var back := Bound(p.methodMap - own, methods, instance);
      assert forall m | m in own :: p.methodMap[m] == instance && m in methods;
      assert forall m | m in methods :: m in Names(methods);
      assert back.Keys == p.methodMap.Keys;
      assert back == p.methodMap;
    }
  }

  // ----- the object -----

  lemma BoundStep<V>(m: map<string, V>, methods: seq<string>, i: nat, v: V)
    requires i < |methods|
    ensures Bound(m, methods[..i + 1], v) == Bound(m, methods[..i], v)[methods[i] := v]
  {
    assert methods[..i + 1] == methods[..i] + [methods[i]];
  }

  lemma DropStep<V>(m: map<string, V>, own: set<string>, todo: set<string>, k: string)
    requires k in todo
    ensures m - (own - (todo - {k})) == if k in own then m - (own - todo) - {k} else m - (own - todo)
  {
  }

  class ObjectProxy {
    const types: map<string, Kind>
    const base: string
    var extensions: map<string, Option<nat>>
    var initial: map<string, bool>
    var retractions: map<string, nat>
    var methodMap: map<string, nat>
    var methodTypes: map<string, string>
    var stored: set<string>
    var nextObject: nat

    function State(): Proxy
      reads this
    {
      Proxy(extensions, initial, retractions, methodMap, methodTypes, stored, nextObject)
    }

    ghost predicate Valid()
      reads this
    {
      Closed(State(), types) && WellBound(State(), base)
    }

    /** Opens an object that the backends hold with the extensions `loaded`, out of `available` ones. */
    constructor (types: map<string, Kind>, base: string, baseMethods: seq<string>, loaded: seq<string>,
                 available: set<string>)
      requires base !in available && available <= types.Keys && forall e | e in loaded :: e in available
      ensures this.types == types && this.base == base
      ensures Active(State()) == stored == (set e | e in loaded) && extensions.Keys == available
      ensures retractions == map[] && initial == map e | e in available :: e in loaded
      ensures WellBound(State(), base)
      ensures (forall e, n | e in loaded && n in types[e].needs :: n in loaded) ==> Valid()
    {
      this.types, this.base := types, base;
      extensions := map e | e in available :: None;
      initial := map e | e in available :: e in loaded;
      retractions, stored, nextObject := map[], (set e | e in loaded), 1;
      methodMap, methodTypes := map[], map[];
      new;
      Register(baseMethods, BASE, base);
      LoadAll(loaded);
      assert Active(State()) == set e | e in loaded;
    }

    method LoadAll(loaded: seq<string>)
      requires WellBound(State(), base) && extensions.Keys <= types.Keys && retractions == map[]
      requires forall e | e in loaded :: e in extensions
      requires forall e | e in extensions :: extensions[e].None?
      modifies `extensions, `retractions, `methodMap, `methodTypes, `nextObject
      ensures WellBound(State(), base) && extensions.Keys == old(extensions).Keys && retractions == map[]
      ensures forall e :: IsActive(State(), e) <==> e in loaded
    {
      var i := 0;
      while i < |loaded|
        invariant 0 <= i <= |loaded| && WellBound(State(), base)
        invariant extensions.Keys == old(extensions).Keys && retractions == map[]
        invariant forall e :: IsActive(State(), e) <==> e in loaded[..i]
      {
        var e := loaded[i];
        assert loaded[..i + 1] == loaded[..i] + [e];
        assert IsActive(State(), e) <==> extensions[e].Some?;
        if extensions[e].None? {
          ghost var before := State();
          ExtendKeepsBindings(before, types, base, e);
          Install(e);
          assert forall x :: IsActive(State(), x) <==> IsActive(before, x) || x == e;
        }
        i := i + 1;
      }
      assert loaded[..i] == loaded;
    }

    method Register(methods: seq<string>, instance: nat, owner: string)
      modifies `methodMap, `methodTypes
      ensures methodMap == Bound(old(methodMap), methods, instance)
      ensures methodTypes == Bound(old(methodTypes), methods, owner)
    {
      ghost var table, typeTable := methodMap, methodTypes;
      assert Bound(table, [], instance) == table && Bound(typeTable, [], owner) == typeTable;
      var i := 0;
      while i < |methods|
        invariant 0 <= i <= |methods|
        invariant methodMap == Bound(table, methods[..i], instance)
        invariant methodTypes == Bound(typeTable, methods[..i], owner)
      {
        BoundStep(table, methods, i, instance);
        BoundStep(typeTable, methods, i, owner);
        methodMap, methodTypes := methodMap[methods[i] := instance], methodTypes[methods[i] := owner];
        i := i + 1;
      }
      assert methods[..i] == methods;
    }

    /** The object comes out of the retractions, or is new. */
    method Install(e: string)
      requires e in extensions && e in types
      modifies `extensions, `retractions, `methodMap, `methodTypes, `nextObject
      ensures State() == Extended(old(State()), types, e)
    {
      if e in retractions {
        extensions := extensions[e := Some(retractions[e])];
        retractions := retractions - {e};
      } else {
        extensions := extensions[e := Some(nextObject)];
        nextObject := nextObject + 1;
      }
      Register(types[e].methods, extensions[e].value, e);
    }

    /** `permitted` is the answer of the ACL resolver. */
    method Extend(e: string, permitted: bool) returns (error: Option<Error>)
      requires Valid()
      modifies this
      ensures Valid() && State() == Apply(old(State()), types, Op.Extend(e, permitted))
      ensures error == ExtendError(old(State()), types, e, permitted)
    {
      StepKeeps(State(), types, base, Op.Extend(e, permitted));
      if e !in extensions { return Some(NotAllowed); }
      if extensions[e].Some? { return Some(AlreadyDefined); }
      var needs := types[e].needs;
      var i := 0;
      while i < |needs|
        invariant 0 <= i <= |needs| && FirstMissing(State(), needs) == FirstMissing(State(), needs[i..])
      {
        if needs[i] !in extensions || extensions[needs[i]].None? { return Some(Depends(needs[i])); }
        i := i + 1;
      }
      if !permitted { return Some(Forbidden); }
      Install(e);
      error := None;
    }

    method Retract(e: string, permitted: bool) returns (error: Option<Error>)
      requires Valid()
      modifies this
      ensures Valid() && State() == Apply(old(State()), types, Op.Retract(e, permitted))
      ensures error == RetractError(old(State()), types, e, permitted)
    {
      StepKeeps(State(), types, base, Op.Retract(e, permitted));
      if e !in extensions { return Some(NotAllowed); }
      if extensions[e].None? { return Some(NotExtended); }
      var used := IsUsed(e);
      if used { return Some(InUse); }
      if !permitted { return Some(Forbidden); }
      Unregister(e);
      retractions := retractions[e := extensions[e].value];
      extensions := extensions[e := None];
      assert State() == Retracted(old(State()), e);
      error := None;
    }

    method IsUsed(e: string) returns (used: bool)
      requires extensions.Keys <= types.Keys
      ensures used <==> exists user :: user in Active(State()) && e in types[user].needs
    {
      var users := extensions.Keys;
      while users != {}
        invariant users <= extensions.Keys
        invariant forall user | user in Active(State()) && e in types[user].needs :: user in users
        decreases |users|
      {
        var user :| user in users;
        users := users - {user};
        if extensions[user].Some? && e in types[user].needs {
          assert user in Active(State());
          return true;
        }
      }
      used := false;
    }

    method Unregister(e: string)
      modifies `methodMap, `methodTypes
      ensures methodMap == old(methodMap) - MethodsOf(old(State()), e)
      ensures methodTypes == old(methodTypes) - MethodsOf(old(State()), e)
    {
      var todo, typeTable := methodTypes.Keys, methodTypes;
      ghost var table, own := methodMap, MethodsOf(State(), e);
      while todo != {}
        invariant todo <= typeTable.Keys
        invariant methodMap == table - (own - todo) && methodTypes == typeTable - (own - todo)
        decreases |todo|
      {
        var m :| m in todo;
        DropStep(table, own, todo, m);
        DropStep(typeTable, own, todo, m);
        assert m in own <==> typeTable[m] == e;
        if typeTable[m] == e {
          methodMap, methodTypes := methodMap - {m}, methodTypes - {m};
        }
        todo := todo - {m};
      }
      assert own - todo == own;
    }

    /** `valid` says whether the properties pass their checks. */
    method Commit(permitted: bool, valid: bool) returns (error: Option<Error>)
      requires Valid()
      modifies this
      ensures Valid() && State() == Apply(old(State()), types, Op.Commit(permitted, valid))
      ensures error == if !permitted then Some(Forbidden) else if !valid then Some(Invalid) else None
    {
      StepKeeps(State(), types, base, Op.Commit(permitted, valid));
      if !permitted { return Some(Forbidden); }
      RetractPending();
      if valid {
        SaveExtensions();
      }
      assert Active(State()) == Active(old(State()));
      assert State() == Committed(old(State()), valid);
      error := if valid then None else Some(Invalid);
    }

    method RetractPending()
      requires retractions.Keys <= initial.Keys
      modifies `stored, `retractions
      ensures stored == old(stored) - Carried(old(State())) && retractions == map[]
    {
      ghost var carried, before := Carried(State()), stored;
      while retractions != map[]
        invariant retractions.Keys <= initial.Keys && stored == before - (carried - retractions.Keys)
        invariant forall e | e in retractions :: initial[e] <==> e in carried
        decreases |retractions|
      {
        var e :| e in retractions;
        if initial[e] {
          stored := stored - {e};
        }
        retractions := retractions - {e};
      }
    }

    method SaveExtensions()
      modifies `stored
      ensures stored == old(stored) + Active(State())
    {
      var todo := extensions.Keys;
      ghost var active, before := Active(State()), stored;
      while todo != {}
        invariant todo <= extensions.Keys && stored == before + (active - todo)
        decreases |todo|
      {
        var e :| e in todo;
        if extensions[e].Some? {
          stored := stored + {e};
        }
        todo := todo - {e};
      }
    }
  }
}
