/** The JSON backend: a file with one record per object type for every UUID. */
module JsonStore {
  import opened Names
  import opened Wrappers

  datatype Value = Name(dn: Dn) | Text(text: string)

  type Record = map<string, Value>

  type Store = map<string, map<string, Record>>

  datatype Error = RdnNotSpecified | NoUniqueDn | TargetExists(dn: Dn)

  // ----- what the file says -----

  function Look(s: Store, uuid: string, t: string): Option<Record> {
    if uuid in s && t in s[uuid] then Some(s[uuid][t]) else None
  }

  /** The value under the key "dn" in the record of `uuid` for type `t`, if there is one. */
  function NameAt(s: Store, uuid: string, t: string): Option<Value> {
    var r := Look(s, uuid, t);
    if r.Some? && "dn" in r.value then Some(r.value["dn"]) else None
  }

  /** The entry `uuid` is known by this name. */
  ghost predicate At(s: Store, uuid: string, dn: Dn) {
    exists t :: NameAt(s, uuid, t) == Some(Name(dn))
  }

  ghost predicate Taken(s: Store, dn: Dn) {
    exists uuid :: At(s, uuid, dn)
  }

  predicate RecordSound(r: Record) {
    && ("dn" in r <==> "parentDN" in r)
    && ("dn" in r ==> r["dn"].Name? && r["dn"].dn != [] && r["parentDN"] == Name(r["dn"].dn[1..]))
  }

  /** Every name ends in the name of the parent, an entry has one name, and no two entries share one. */
  ghost predicate Sound(s: Store) {
    && (forall uuid, t | Look(s, uuid, t).Some? :: RecordSound(Look(s, uuid, t).value))
    && (forall uuid, t1, t2 | NameAt(s, uuid, t1).Some? && NameAt(s, uuid, t2).Some? :: t1 == t2)
    && (forall u1, t1, u2, t2 | NameAt(s, u1, t1).Some? && NameAt(s, u1, t1) == NameAt(s, u2, t2) :: u1 == u2)
  }

  /** In a sound store, names and UUIDs determine each other. */
  lemma OneToOne(s: Store, u1: string, u2: string, d1: Dn, d2: Dn)
    requires Sound(s) && At(s, u1, d1) && At(s, u2, d2)
    ensures u1 == u2 <==> d1 == d2
  {
    var t1 :| NameAt(s, u1, t1) == Some(Name(d1));
    var t2 :| NameAt(s, u2, t2) == Some(Name(d2));
  }

  // ----- the operations -----

  /** Attribute data may carry any keys but the two that name the entry. */
  predicate Plain(data: Record) {
    "dn" !in data && "parentDN" !in data
  }

  ghost function FirstFree(s: Store, base: Dn, rdns: seq<string>): Option<Dn> {
    if rdns == [] then None
    else if !Taken(s, [rdns[0]] + base) then Some([rdns[0]] + base)
    else FirstFree(s, base, rdns[1..])
  }

  lemma {:induction false} FirstFreeIsFree(s: Store, base: Dn, rdns: seq<string>)
    ensures var d := FirstFree(s, base, rdns);
            && (d.None? <==> forall r | r in rdns :: Taken(s, [r] + base))
            && (d.Some? ==> d.value != [] && d.value[0] in rdns && d.value[1..] == base && !Taken(s, d.value))
  {
    if rdns != [] {
      FirstFreeIsFree(s, base, rdns[1..]);
      assert forall r | r in rdns :: r == rdns[0] || r in rdns[1..];
      assert ([rdns[0]] + base)[1..] == base;
    }
  }

  function NewRecord(dn: Dn, base: Dn, t: string, now: string, data: Record): Record {
    map["dn" := Name(dn), "type" := Text(t), "parentDN" := Name(base),
        "modifyTimestamp" := Text(now), "createTimestamp" := Text(now)] + data
  }

  /** `rdns` are the candidates built from the naming attributes, shortest first, or None without an 'rdn'. */
  ghost function Created(s: Store, uuid: string, t: string, base: Dn, rdns: Option<seq<string>>, data: Record,
                         now: string): Result<Store, Error>
  {
    if rdns.None? then Failure(RdnNotSpecified)
    else
      var dn := FirstFree(s, base, rdns.value);
      if dn.None? then Failure(NoUniqueDn) else Success(WithRecord(s, uuid, t, NewRecord(dn.value, base, t, now, data)))
  }

  function RecordsOf(s: Store, uuid: string): map<string, Record> {
    if uuid in s then s[uuid] else map[]
  }

  function WithRecord(s: Store, uuid: string, t: string, r: Record): Store {
    s[uuid := RecordsOf(s, uuid)[t := r]]
  }

  function Extended(s: Store, uuid: string, t: string, data: Record): Store {
    WithRecord(s, uuid, t, map["type" := Text(t)] + data)
  }

  function Retracted(s: Store, uuid: string, t: string): Store {
    if uuid in s && t in s[uuid] then s[uuid := s[uuid] - {t}] else s
  }

  function Updated(s: Store, uuid: string, t: string, data: Record): Store {
    var records := RecordsOf(s, uuid);
    WithRecord(s, uuid, t, (if t in records then records[t] else map["type" := Text(t)]) + data)
  }

  ghost function NamingType(s: Store, uuid: string): (t: Option<string>)
    ensures t.Some? ==> NameAt(s, uuid, t.value).Some?
    ensures t.None? ==> forall x :: NameAt(s, uuid, x).None?
  {
    if t :| NameAt(s, uuid, t).Some? then Some(t) else None
  }

  /** The name with the parent part replaced. */
  function Rebased(r: Record, base: Dn): Record
    requires RecordSound(r) && "dn" in r
  {
    r["dn" := Name([r["dn"].dn[0]] + base)]["parentDN" := Name(base)]
  }

  ghost function Moved(s: Store, uuid: string, base: Dn): Result<Store, Error>
    requires Sound(s)
  {
    var t := NamingType(s, uuid);
    if t.None? then Success(s)
    else
      var r := Rebased(s[uuid][t.value], base);
      if Taken(s, r["dn"].dn) then Failure(TargetExists(r["dn"].dn)) else Success(WithRecord(s, uuid, t.value, r))
  }

  // ----- what they keep -----

  lemma LookWith(s: Store, uuid: string, t: string, r: Record)
    ensures forall u, x ::
              Look(WithRecord(s, uuid, t, r), u, x) == if u == uuid && x == t then Some(r) else Look(s, u, x)
  {
  }

  /** One record may change as long as it names nothing, or its name is free elsewhere and the only one of its
      entry. */
  lemma WithRecordSound(s: Store, uuid: string, t: string, r: Record)
    requires Sound(s) && RecordSound(r)
    requires "dn" in r ==> forall x | x != t :: NameAt(s, uuid, x).None?
    requires "dn" in r ==> forall u, x | u != uuid :: NameAt(s, u, x) != Some(r["dn"])
    ensures Sound(WithRecord(s, uuid, t, r))
    ensures forall u, x :: NameAt(WithRecord(s, uuid, t, r), u, x) ==
              if u != uuid || x != t then NameAt(s, u, x) else if "dn" in r then Some(r["dn"]) else None
  {
    var q := WithRecord(s, uuid, t, r);
    LookWith(s, uuid, t, r);
    var name := if "dn" in r then Some(r["dn"]) else None;
    assert forall u, x :: NameAt(q, u, x) == if u == uuid && x == t then name else NameAt(s, u, x);
  }

  /** The condition is exact: a record may be written if and only if it is sound by itself, and, if it names the entry,
      the entry has no other name and no other entry has that one. */
  lemma WithRecordSoundIff(s: Store, uuid: string, t: string, r: Record)
    requires Sound(s)
    ensures Sound(WithRecord(s, uuid, t, r)) <==> Writable(s, uuid, t, r)
  {
    var q := WithRecord(s, uuid, t, r);
    LookWith(s, uuid, t, r);
    var name := if "dn" in r then Some(r["dn"]) else None;
    assert forall u, x :: NameAt(q, u, x) == if u == uuid && x == t then name else NameAt(s, u, x);
    if Sound(q) {
      assert RecordSound(Look(q, uuid, t).value) && NameAt(q, uuid, t) == name;
      forall u, x | "dn" in r && u != uuid
        ensures NameAt(s, u, x) != Some(r["dn"])
      {
        assert NameAt(q, u, x) == NameAt(s, u, x);
      }
      forall x | "dn" in r && x != t
        ensures NameAt(s, uuid, x).None?
      {
        assert NameAt(q, uuid, x) == NameAt(s, uuid, x);
      }
    }
    if Writable(s, uuid, t, r) {
      WithRecordSound(s, uuid, t, r);
    }
  }

  ghost predicate Writable(s: Store, uuid: string, t: string, r: Record) {
    && RecordSound(r)
    && ("dn" in r ==>
          && (forall x | x != t :: NameAt(s, uuid, x).None?)
          && (forall u, x | u != uuid :: NameAt(s, u, x) != Some(r["dn"])))
  }

  lemma FewerSound(s: Store, q: Store)
    requires Sound(s)
    requires forall u, x :: Look(q, u, x).None? || Look(q, u, x) == Look(s, u, x)
    ensures Sound(q)
  {
    assert forall u, x :: NameAt(q, u, x).None? || NameAt(q, u, x) == NameAt(s, u, x);
  }

  lemma FreeElsewhere(s: Store, dn: Dn)
    requires !Taken(s, dn)
    ensures forall u, x :: NameAt(s, u, x) != Some(Name(dn))
  {
    forall u, x
      ensures NameAt(s, u, x) != Some(Name(dn))
    {
      assert !At(s, u, dn);
    }
  }

  /** Creating gives a UUID that was not there the first free name, and changes nothing else. */
  lemma CreateKeeps(s: Store, uuid: string, t: string, base: Dn, rdns: Option<seq<string>>, data: Record, now: string)
    requires Sound(s) && uuid !in s && Plain(data)
    ensures var q := Created(s, uuid, t, base, rdns, data, now);
            && (q.Failure? <==> rdns.None? || forall r | r in rdns.value :: Taken(s, [r] + base))
            && (q.Success? ==>
                  && Sound(q.value)
                  && q.value - {uuid} == s
                  && exists r | r in rdns.value :: !Taken(s, [r] + base) && At(q.value, uuid, [r] + base))
  {
    if rdns.Some? {
      FirstFreeIsFree(s, base, rdns.value);
      var dn := FirstFree(s, base, rdns.value);
      if dn.Some? {
        var r := NewRecord(dn.value, base, t, now, data);
        assert r["dn"] == Name(dn.value) && r["parentDN"] == Name(base);
        FreeElsewhere(s, dn.value);
        WithRecordSound(s, uuid, t, r);
        assert NameAt(WithRecord(s, uuid, t, r), uuid, t) == Some(Name(dn.value));
        assert dn.value == [dn.value[0]] + base;
      }
    }
  }

  /** The candidate that is used is the first free one. */
  lemma {:induction false} FirstFreeIsFirst(s: Store, base: Dn, rdns: seq<string>, i: nat)
    requires i < |rdns| && !Taken(s, [rdns[i]] + base) && forall j :: 0 <= j < i ==> Taken(s, [rdns[j]] + base)
    ensures FirstFree(s, base, rdns) == Some([rdns[i]] + base)
    decreases rdns
  {
    if i > 0 {
      assert Taken(s, [rdns[0]] + base);
      FirstFreeIsFirst(s, base, rdns[1..], i - 1);
    }
  }

  /** The record of a created entry: the name, its parent, the type, the two times, and all data. */
  predicate HoldsNew(r: Record, dn: Dn, base: Dn, t: string, now: string, data: Record) {
    && r.Keys == data.Keys + {"dn", "type", "parentDN", "modifyTimestamp", "createTimestamp"}
    && (forall k | k in data :: r[k] == data[k])
    && ("dn" !in data ==> r["dn"] == Name(dn)) && ("parentDN" !in data ==> r["parentDN"] == Name(base))
    && ("type" !in data ==> r["type"] == Text(t))
    && ("modifyTimestamp" !in data ==> r["modifyTimestamp"] == Text(now))
    && ("createTimestamp" !in data ==> r["createTimestamp"] == Text(now))
  }

  /** Creating stores exactly one record, which holds the data, under the first free name. */
  lemma CreatedHolds(s: Store, uuid: string, t: string, base: Dn, rdns: seq<string>, data: Record, now: string, i: nat)
    requires uuid !in s && i < |rdns| && !Taken(s, [rdns[i]] + base)
    requires forall j :: 0 <= j < i ==> Taken(s, [rdns[j]] + base)
    ensures var q := Created(s, uuid, t, base, Some(rdns), data, now);
            && q.Success? && q.value.Keys == s.Keys + {uuid} && (forall u | u in s :: q.value[u] == s[u])
            && q.value[uuid].Keys == {t} && HoldsNew(q.value[uuid][t], [rdns[i]] + base, base, t, now, data)
  {
    FirstFreeIsFirst(s, base, rdns, i);
  }

  /** An extension writes exactly one record, which holds the data and the type. */
  lemma ExtendedHolds(s: Store, uuid: string, t: string, data: Record, u: string, x: string)
    ensures var q := Extended(s, uuid, t, data);
            && q.Keys == s.Keys + {uuid} && uuid in q && t in q[uuid]
            && q[uuid][t].Keys == data.Keys + {"type"} && (forall k | k in data :: q[uuid][t][k] == data[k])
            && ("type" !in data ==> q[uuid][t]["type"] == Text(t))
            && (u in s && x in s[u] && (u != uuid || x != t) ==> x in q[u] && q[u][x] == s[u][x])
            && (u in q && x in q[u] && (u != uuid || x != t) ==> u in s && x in s[u])
  {
  }

  /** An update sets exactly the keys it is given, in the record that was there or in a new one with the type. */
  lemma UpdatedHolds(s: Store, uuid: string, t: string, data: Record, u: string, x: string)
    ensures var q := Updated(s, uuid, t, data);
            && q.Keys == s.Keys + {uuid} && uuid in q && t in q[uuid]
            && (forall k | k in data :: k in q[uuid][t] && q[uuid][t][k] == data[k])
            && (uuid in s && t in s[uuid] ==>
                  && q[uuid][t].Keys == s[uuid][t].Keys + data.Keys
                  && forall k | k in s[uuid][t] && k !in data :: q[uuid][t][k] == s[uuid][t][k])
            && (!(uuid in s && t in s[uuid]) ==>
                  && q[uuid][t].Keys == {"type"} + data.Keys
                  && ("type" !in data ==> q[uuid][t]["type"] == Text(t)))
            && (u in s && x in s[u] && (u != uuid || x != t) ==> x in q[u] && q[u][x] == s[u][x])
            && (u in q && x in q[u] && (u != uuid || x != t) ==> u in s && x in s[u])
  {
  }

  /** An extension record names nothing and says what the data say; every other record stays. */
  lemma ExtendKeeps(s: Store, uuid: string, t: string, data: Record)
    requires Sound(s) && Plain(data)
    ensures var q := Extended(s, uuid, t, data);
            && Sound(q)
            && (forall u, x | u != uuid || x != t :: Look(q, u, x) == Look(s, u, x))
            && (forall u, x :: NameAt(q, u, x) == if u == uuid && x == t then None else NameAt(s, u, x))
            && Look(q, uuid, t).Some?
            && (forall k | k in data :: k in q[uuid][t] && q[uuid][t][k] == data[k])
  {
    LookWith(s, uuid, t, map["type" := Text(t)] + data);
    WithRecordSound(s, uuid, t, map["type" := Text(t)] + data);
  }

  /** An update changes no name. */
  lemma UpdateKeeps(s: Store, uuid: string, t: string, data: Record)
    requires Sound(s) && Plain(data)
    ensures Sound(Updated(s, uuid, t, data))
    ensures forall u, dn :: At(Updated(s, uuid, t, data), u, dn) <==> At(s, u, dn)
  {
    var was := Look(s, uuid, t);
    var r := (if was.Some? then was.value else map["type" := Text(t)]) + data;
    var q := Updated(s, uuid, t, data);
    assert q == WithRecord(s, uuid, t, r);
    assert NameAt(s, uuid, t) == if "dn" in r then Some(r["dn"]) else None;
    WithRecordSound(s, uuid, t, r);
    assert forall u, x :: NameAt(q, u, x) == NameAt(s, u, x);
  }

  lemma RetractKeeps(s: Store, uuid: string, t: string)
    requires Sound(s)
    ensures Sound(Retracted(s, uuid, t))
    ensures forall u, x :: Look(Retracted(s, uuid, t), u, x) == if u == uuid && x == t then None else Look(s, u, x)
  {
    FewerSound(s, Retracted(s, uuid, t));
  }

  lemma RemoveKeeps(s: Store, uuid: string)
    requires Sound(s)
    ensures Sound(s - {uuid})
    ensures forall u, x :: Look(s - {uuid}, u, x) == if u == uuid then None else Look(s, u, x)
  {
    FewerSound(s, s - {uuid});
  }

  /** A move gives the entry its own RDN under the new parent, unless that name is taken: moving an entry to
      where it is fails, because it finds itself there. */
  lemma MoveKeeps(s: Store, uuid: string, base: Dn, dn: Dn)
    requires Sound(s) && At(s, uuid, dn)
    ensures dn != []
    ensures var q := Moved(s, uuid, base);
            && q.Failure? == Taken(s, [dn[0]] + base)
            && (q.Failure? ==> q.error == TargetExists([dn[0]] + base))
            && (q.Success? ==> Sound(q.value) && At(q.value, uuid, [dn[0]] + base) && q.value - {uuid} == s - {uuid})
            && (base == dn[1..] ==> q.Failure?)
  {
    var t :| NameAt(s, uuid, t) == Some(Name(dn));
    assert NamingType(s, uuid) == Some(t) && Look(s, uuid, t).Some?;
    var r := Rebased(s[uuid][t], base);
    var q := WithRecord(s, uuid, t, r);
    var target := [dn[0]] + base;
    if base == dn[1..] {
      assert target == dn && At(s, uuid, dn);
    }
    if !Taken(s, target) {
      FreeElsewhere(s, target);
      assert target[1..] == base;
      WithRecordSound(s, uuid, t, r);
      assert NameAt(q, uuid, t) == Some(Name(target));
    }
  }

  // ----- what one operation undoes, and how two combine -----

  /** Retracting takes back an extension the entry did not have, and nothing else has changed then, if and only if
      the entry was there: extending an unknown UUID creates it, and retracting leaves it behind empty. */
  lemma RetractUndoesExtendIff(s: Store, uuid: string, t: string, data: Record)
    requires Look(s, uuid, t).None?
    ensures Retracted(Extended(s, uuid, t, data), uuid, t) == s <==> uuid in s
  {
    var q := Extended(s, uuid, t, data);
    assert q[uuid] - {t} == RecordsOf(s, uuid);
    if uuid in s {
      assert Retracted(q, uuid, t) == q[uuid := s[uuid]] == s;
    } else {
      assert uuid in Retracted(q, uuid, t);
    }
  }

  lemma WithRecordTwice(s: Store, uuid: string, t: string, r1: Record, r2: Record)
    ensures WithRecord(WithRecord(s, uuid, t, r1), uuid, t, r2) == WithRecord(s, uuid, t, r2)
  {
    var records := RecordsOf(s, uuid);
    assert records[t := r1][t := r2] == records[t := r2];
  }

  /** Two updates of one record are one with the later values on top. */
  lemma UpdatesCompose(s: Store, uuid: string, t: string, d1: Record, d2: Record)
    ensures Updated(Updated(s, uuid, t, d1), uuid, t, d2) == Updated(s, uuid, t, d1 + d2)
  {
    var r := if Look(s, uuid, t).Some? then s[uuid][t] else map["type" := Text(t)];
    assert (r + d1) + d2 == r + (d1 + d2);
    WithRecordTwice(s, uuid, t, r + d1, r + (d1 + d2));
  }

  lemma RebaseBack(r: Record, base: Dn)
    requires RecordSound(r) && "dn" in r
    ensures RecordSound(Rebased(r, base)) && Rebased(Rebased(r, base), r["dn"].dn[1..]) == r
  {
    var dn := r["dn"].dn;
    assert ([dn[0]] + base)[1..] == base && [dn[0]] + dn[1..] == dn;
  }

  /** An entry that was moved can be moved back, and then the file is what it was. */
  lemma MoveBackRestores(s: Store, uuid: string, base: Dn, dn: Dn)
    requires Sound(s) && At(s, uuid, dn) && dn != [] && Moved(s, uuid, base).Success?
    ensures Sound(Moved(s, uuid, base).value)
    ensures Moved(Moved(s, uuid, base).value, uuid, dn[1..]) == Success(s)
  {
    MoveKeeps(s, uuid, base, dn);
    var t :| NameAt(s, uuid, t) == Some(Name(dn));
    assert NamingType(s, uuid) == Some(t) && Look(s, uuid, t).Some?;
    var r := s[uuid][t];
    var q := WithRecord(s, uuid, t, Rebased(r, base));
    LookWith(s, uuid, t, Rebased(r, base));
    RebaseBack(r, base);
    assert [dn[0]] + dn[1..] == dn;
    forall u
      ensures !At(q, u, dn)
    {
      if x :| NameAt(q, u, x) == Some(Name(dn)) {
        NotAtOldName(s, uuid, t, base, dn, u, x);
      }
    }
    assert Look(q, uuid, t) == Some(Rebased(r, base)) && NameAt(q, uuid, t).Some?;
    assert NamingType(q, uuid) == Some(t);
    assert q[uuid][t := r] == s[uuid] && q[uuid := s[uuid]] == s;
  }

  lemma NotAtOldName(s: Store, uuid: string, t: string, base: Dn, dn: Dn, u: string, x: string)
    requires Sound(s) && NameAt(s, uuid, t) == Some(Name(dn)) && dn != [] && !Taken(s, [dn[0]] + base)
    ensures RecordSound(s[uuid][t])
    ensures NameAt(WithRecord(s, uuid, t, Rebased(s[uuid][t], base)), u, x) != Some(Name(dn))
  {
    assert Look(s, uuid, t).Some? && At(s, uuid, dn) && Taken(s, dn);
    var q, target := WithRecord(s, uuid, t, Rebased(s[uuid][t], base)), [dn[0]] + base;
    LookWith(s, uuid, t, Rebased(s[uuid][t], base));
    assert NameAt(q, u, x) == if u == uuid && x == t then Some(Name(target)) else NameAt(s, u, x);
    assert target != dn;
    if NameAt(s, u, x) == Some(Name(dn)) {
      assert u == uuid && x == t;
    }
  }

  datatype Op =
    | Create(uuid: string, t: string, base: Dn, rdns: Option<seq<string>>, data: Record, now: string)
    | Extend(uuid: string, t: string, data: Record)
    | Retract(uuid: string, t: string)
    | Update(uuid: string, t: string, data: Record)
    | Move(uuid: string, base: Dn)
    | Remove(uuid: string)

  ghost function Apply(s: Store, op: Op): Store
    requires Sound(s)
  {
    match op
    case Create(uuid, t, base, rdns, data, now) =>
      var q := Created(s, uuid, t, base, rdns, data, now);
      if q.Success? then q.value else s
    case Extend(uuid, t, data) => Extended(s, uuid, t, data)
    case Retract(uuid, t) => Retracted(s, uuid, t)
    case Update(uuid, t, data) => Updated(s, uuid, t, data)
    case Move(uuid, base) =>
      var q := Moved(s, uuid, base);
      if q.Success? then q.value else s
    case Remove(uuid) => s - {uuid}
  }

  /** New UUIDs are new, and the data leave the naming keys alone. */
  predicate Proper(s: Store, op: Op) {
    match op
    case Create(uuid, _, _, _, data, _) => uuid !in s && Plain(data)
    case Extend(_, _, data) => Plain(data)
    case Update(_, _, data) => Plain(data)
    case _ => true
  }

  lemma StepKeeps(s: Store, op: Op)
    requires Sound(s) && Proper(s, op)
    ensures Sound(Apply(s, op))
  {
    match op
    case Create(uuid, t, base, rdns, data, now) => CreateKeeps(s, uuid, t, base, rdns, data, now);
    case Extend(uuid, t, data) => ExtendKeeps(s, uuid, t, data);
    case Retract(uuid, t) => RetractKeeps(s, uuid, t);
    case Update(uuid, t, data) => UpdateKeeps(s, uuid, t, data);
    case Move(uuid, base) =>
      if NamingType(s, uuid).Some? {
        var t := NamingType(s, uuid).value;
        assert RecordSound(Look(s, uuid, t).value);
        var dn := NameAt(s, uuid, t).value.dn;
        assert At(s, uuid, dn);
        MoveKeeps(s, uuid, base, dn);
      }
    case Remove(uuid) => RemoveKeeps(s, uuid);
  }

  /** An update with any data keeps names consistent if and only if the record it makes is sound, and names its entry,
      if at all, in the one record and as no other entry is named. */
  lemma UpdateSoundIff(s: Store, uuid: string, t: string, data: Record)
    requires Sound(s)
    ensures var was := Look(s, uuid, t);
      var r := (if was.Some? then was.value else map["type" := Text(t)]) + data;
      Sound(Updated(s, uuid, t, data)) <==> Writable(s, uuid, t, r)
  {
    var was := Look(s, uuid, t);
    var r := (if was.Some? then was.value else map["type" := Text(t)]) + data;
    assert Updated(s, uuid, t, data) == WithRecord(s, uuid, t, r);
    WithRecordSoundIff(s, uuid, t, r);
  }

  lemma ExtendSoundIff(s: Store, uuid: string, t: string, data: Record)
    requires Sound(s)
    ensures Sound(Extended(s, uuid, t, data)) <==> Writable(s, uuid, t, map["type" := Text(t)] + data)
  {
    WithRecordSoundIff(s, uuid, t, map["type" := Text(t)] + data);
  }

  /** So data that carry the name of another entry, and its parent, always break the file. */
  lemma DataMustLeaveNamesAlone(s: Store, uuid: string, t: string, other: string, dn: Dn)
    requires Sound(s) && At(s, other, dn) && other != uuid && dn != []
    ensures !Sound(Updated(s, uuid, t, map["dn" := Name(dn), "parentDN" := Name(dn[1..])]))
  {
    var data := map["dn" := Name(dn), "parentDN" := Name(dn[1..])];
    var x :| NameAt(s, other, x) == Some(Name(dn));
    UpdateSoundIff(s, uuid, t, data);
  }

  ghost function Run(s: Store, ops: seq<Op>): (q: Store)
    requires Sound(s)
    decreases |ops|
  {
    if ops == [] || !Proper(s, ops[0]) then s
    else
      StepKeeps(s, ops[0]);
      Run(Apply(s, ops[0]), ops[1..])
  }

  /** After every run from the empty file, as long as its operations are proper, names end in the name of the
      parent and are unique. */
  lemma {:induction false} RunsAreSound(s: Store, ops: seq<Op>)
    requires Sound(s)
    ensures Sound(Run(s, ops))
    decreases |ops|
  {
    if ops != [] && Proper(s, ops[0]) {
      StepKeeps(s, ops[0]);
      RunsAreSound(Apply(s, ops[0]), ops[1..]);
    }
  }

  // ----- the backend -----

  /** Every operation loads the file, changes it and saves it. */
  class JSON {
    var file: Store

    constructor ()
      ensures file == map[] && Sound(file)
    {
      file := map[];
    }

    /** `dn2uuid`: the first entry found with the name, which is the only one. */
    method Dn2Uuid(dn: Dn) returns (uuid: Option<string>)
      requires Sound(file)
      ensures uuid.None? <==> !Taken(file, dn)
      ensures forall u :: uuid == Some(u) <==> At(file, u, dn)
    {
      var uuids := file.Keys;
      while uuids != {}
        invariant uuids <= file.Keys && forall u | At(file, u, dn) :: u in uuids
        decreases |uuids|
      {
        var u :| u in uuids;
        var found := HasName(u, dn);
        if found {
          forall v | At(file, v, dn)
            ensures v == u
          {
            OneToOne(file, u, v, dn, dn);
          }
          return Some(u);
        }
        uuids := uuids - {u};
      }
      uuid := None;
    }

    method HasName(uuid: string, dn: Dn) returns (found: bool)
      requires uuid in file
      ensures found <==> At(file, uuid, dn)
    {
      var types := file[uuid].Keys;
      while types != {}
        invariant types <= file[uuid].Keys && forall t | NameAt(file, uuid, t) == Some(Name(dn)) :: t in types
        decreases |types|
      {
        var t :| t in types;
        if NameAt(file, uuid, t) == Some(Name(dn)) { return true; }
        types := types - {t};
      }
      found := false;
    }

    /** The type whose record names the entry; there is at most one. */
    method FindNamingType(uuid: string) returns (t: Option<string>)
      requires Sound(file)
      ensures t == NamingType(file, uuid)
    {
      var types := if uuid in file then file[uuid].Keys else {};
      while types != {}
        invariant types <= if uuid in file then file[uuid].Keys else {}
        invariant forall x | NameAt(file, uuid, x).Some? :: x in types
        decreases |types|
      {
        var x :| x in types;
        if NameAt(file, uuid, x).Some? { return Some(x); }
        types := types - {x};
      }
      t := None;
    }

    /** `uuid2dn`. */
    method Uuid2Dn(uuid: string) returns (dn: Option<Dn>)
      requires Sound(file)
      ensures forall d :: dn == Some(d) <==> At(file, uuid, d)
    {
      var t := FindNamingType(uuid);
      if t.None? { return None; }
      assert RecordSound(Look(file, uuid, t.value).value);
      dn := Some(file[uuid][t.value]["dn"].dn);
      assert NameAt(file, uuid, t.value) == Some(Name(dn.value));
    }

    /** `exists` for a name. */
    method Exists(dn: Dn) returns (found: bool)
      requires Sound(file)
      ensures found <==> Taken(file, dn)
    {
      var uuid := Dn2Uuid(dn);
      found := uuid.Some?;
    }

    method GetUniqDn(base: Dn, rdns: seq<string>) returns (dn: Option<Dn>)
      requires Sound(file)
      ensures dn == FirstFree(file, base, rdns)
    {
      var i := 0;
      while i < |rdns|
        invariant 0 <= i <= |rdns| && FirstFree(file, base, rdns) == FirstFree(file, base, rdns[i..])
      {
        var taken := Exists([rdns[i]] + base);
        if !taken { return Some([rdns[i]] + base); }
        i := i + 1;
      }
      dn := None;
    }

    /** `uuid` is a new UUID, `now` the time of creation. */
    method Create(uuid: string, t: string, base: Dn, rdns: Option<seq<string>>, data: Record, now: string)
      returns (result: Result<string, Error>)
      requires Sound(file) && Proper(file, Op.Create(uuid, t, base, rdns, data, now))
      modifies this
      ensures Sound(file) && file == Apply(old(file), Op.Create(uuid, t, base, rdns, data, now))
      ensures var spec := Created(old(file), uuid, t, base, rdns, data, now);
              result == if spec.Failure? then Failure(spec.error) else Success(uuid)
    {
      StepKeeps(file, Op.Create(uuid, t, base, rdns, data, now));
      if rdns.None? { return Failure(RdnNotSpecified); }
      var dn := GetUniqDn(base, rdns.value);
      if dn.None? { return Failure(NoUniqueDn); }
      file := WithRecord(file, uuid, t, NewRecord(dn.value, base, t, now, data));
      result := Success(uuid);
    }

    method Extend(uuid: string, t: string, data: Record)
      requires Sound(file) && Plain(data)
      modifies this
      ensures Sound(file) && file == Apply(old(file), Op.Extend(uuid, t, data))
    {
      ExtendKeeps(file, uuid, t, data);
      file := Extended(file, uuid, t, data);
    }

    method Retract(uuid: string, t: string)
      requires Sound(file)
      modifies this
      ensures Sound(file) && file == Apply(old(file), Op.Retract(uuid, t))
    {
      RetractKeeps(file, uuid, t);
      file := Retracted(file, uuid, t);
    }

    method Update(uuid: string, t: string, data: Record)
      requires Sound(file) && Plain(data)
      modifies this
      ensures Sound(file) && file == Apply(old(file), Op.Update(uuid, t, data))
    {
      UpdateKeeps(file, uuid, t, data);
      file := Updated(file, uuid, t, data);
    }

    /** True if the entry was moved, false if there is none. */
    method Move(uuid: string, base: Dn) returns (result: Result<bool, Error>)
      requires Sound(file)
      modifies this
      ensures Sound(file) && file == Apply(old(file), Op.Move(uuid, base))
      ensures var spec := Moved(old(file), uuid, base);
              result == if spec.Failure? then Failure(spec.error) else Success(NamingType(old(file), uuid).Some?)
    {
      StepKeeps(file, Op.Move(uuid, base));
      var t := FindNamingType(uuid);
      if t.None? { return Success(false); }
      assert RecordSound(Look(file, uuid, t.value).value);
      var entry := Rebased(file[uuid][t.value], base);
      var taken := Exists(entry["dn"].dn);
      if taken { return Failure(TargetExists(entry["dn"].dn)); }
      file := WithRecord(file, uuid, t.value, entry);
      result := Success(true);
    }

    method Remove(uuid: string) returns (found: bool)
      requires Sound(file)
      modifies this
      ensures Sound(file) && file == Apply(old(file), Op.Remove(uuid))
      ensures found <==> uuid in old(file)
    {
      RemoveKeeps(file, uuid);
      found := uuid in file;
      file := file - {uuid};
    }
  }
}
