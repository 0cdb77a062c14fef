/** The relation backend: an attribute of one object that is really kept by others, such as the groups of a user,
    which are kept as the members of the groups. */
module Relations {
  import opened Wrappers

  /** An object of the foreign type: the values of its naming attribute and of its matching attribute. */
  datatype Foreign = Foreign(names: seq<string>, members: seq<string>)

  type Objects = map<string, Foreign>

  datatype Error = SourceObjectNotFound | EntryNotFound(name: string)

  // ----- lists -----

  /** The list without `x`, in the same order. */
  function Without(s: seq<string>, x: string): (r: seq<string>)
    ensures x !in r
  {
    if s == [] then [] else (if s[0] == x then [] else [s[0]]) + Without(s[1..], x)
  }

  lemma {:induction false} WithoutKeeps(s: seq<string>, x: string)
    ensures forall y | y != x :: y in Without(s, x) <==> y in s
    ensures x !in s ==> Without(s, x) == s
  {
    if s != [] {
      WithoutKeeps(s[1..], x);
      assert s == [s[0]] + s[1..];
    }
  }

  lemma {:induction false} WithoutAppended(s: seq<string>, x: string)
    ensures Without(s + [x], x) == Without(s, x)
  {
    if s == [] {
      assert ([x])[1..] == [];
    } else {
      assert (s + [x])[1..] == s[1..] + [x];
      WithoutAppended(s[1..], x);
    }
  }

  // ----- what load and update mean -----

  /** The naming attribute is single-valued and unique. */
  ghost predicate Named(f: Objects) {
    && (forall id | id in f :: |f[id].names| == 1)
    && (forall i, j | i in f && j in f && i != j :: f[i].names[0] != f[j].names[0])
  }

  /** Some object of this name lists `me`. */
  ghost predicate Related(f: Objects, me: string, name: string) {
    exists id :: id in f && me in f[id].members && name in f[id].names
  }

  predicate Removes(orig: seq<string>, value: seq<string>, name: string) {
    name in orig && name !in value
  }

  predicate Adds(orig: seq<string>, value: seq<string>, name: string) {
    name in value && name !in orig
  }

  function Rewritten(members: seq<string>, name: string, me: string, orig: seq<string>, value: seq<string>): seq<string>
  {
    if Removes(orig, value, name) then Without(members, me)
    else if Adds(orig, value, name) then members + [me]
    else members
  }

  /** The objects after the relation of `me` was changed from `orig` to `value`. */
  ghost function Written(f: Objects, me: string, orig: seq<string>, value: seq<string>): Objects
    requires Named(f)
  {
    map id | id in f :: f[id].(members := Rewritten(f[id].members, f[id].names[0], me, orig, value))
  }

  /** The name picks exactly one object. */
  ghost predicate Unambiguous(f: Objects, name: string) {
    exists id :: Owner(f, name, id)
  }

  ghost predicate Owner(f: Objects, name: string, id: string) {
    && id in f && name in f[id].names
    && forall other | other in f && name in f[other].names :: other == id
  }

  lemma WrittenAt(f: Objects, me: string, orig: seq<string>, value: seq<string>, id: string)
    requires Named(f) && id in f
    ensures Named(Written(f, me, orig, value))
    ensures var name, after := f[id].names[0], Written(f, me, orig, value)[id].members;
            && (me in after <==> Adds(orig, value, name) || (me in f[id].members && !Removes(orig, value, name)))
            && Without(after, me) == Without(f[id].members, me)
            && (!Adds(orig, value, name) && !Removes(orig, value, name) ==> after == f[id].members)
  {
    var members := f[id].members;
    WithoutAppended(members, me);
    WithoutKeeps(Without(members, me), me);
  }

  lemma RelatedAfter(f: Objects, me: string, orig: seq<string>, value: seq<string>, name: string)
    requires Named(f) && Unambiguous(f, name)
    ensures Related(Written(f, me, orig, value), me, name) <==>
            Adds(orig, value, name) || (Related(f, me, name) && !Removes(orig, value, name))
  {
    var id :| Owner(f, name, id);
    var after := Written(f, me, orig, value);
    WrittenAt(f, me, orig, value, id);
    assert f[id].names[0] == name;
    assert Related(f, me, name) <==> me in f[id].members;
    assert Related(after, me, name) <==> me in after[id].members;
  }

  /** Loading after an update gives exactly the new values, if and only if `orig` was up to date where it
      matters: nothing that is kept had vanished meanwhile, and nothing had appeared that is not wanted. */
  lemma PutGetIff(f: Objects, me: string, orig: seq<string>, value: seq<string>)
    requires Named(f) && forall name | name in orig + value :: Unambiguous(f, name)
    ensures (forall name :: Related(Written(f, me, orig, value), me, name) <==> name in value) <==>
            (forall name :: (name in orig && name in value ==> Related(f, me, name)) &&
                            (Related(f, me, name) && name !in orig ==> name in value))
  {
    forall name
      ensures Related(Written(f, me, orig, value), me, name) <==>
              Adds(orig, value, name) || (Related(f, me, name) && !Removes(orig, value, name))
    {
      if Unambiguous(f, name) {
        RelatedAfter(f, me, orig, value, name);
      } else {
        NobodyNamed(f, me, name);
        StillNobody(f, me, orig, value, name);
      }
    }
  }

  /** With unique names, a name that picks no object is nobody's. */
  lemma NobodyNamed(f: Objects, me: string, name: string)
    requires Named(f) && !Unambiguous(f, name)
    ensures !Related(f, me, name)
  {
    if Related(f, me, name) {
      var id :| id in f && me in f[id].members && name in f[id].names;
      assert Owner(f, name, id);
    }
  }

  lemma StillNobody(f: Objects, me: string, orig: seq<string>, value: seq<string>, name: string)
    requires Named(f) && !Unambiguous(f, name)
    ensures !Related(Written(f, me, orig, value), me, name)
  {
    var after := Written(f, me, orig, value);
    if Related(after, me, name) {
      var id :| id in after && me in after[id].members && name in after[id].names;
      assert after[id].names == f[id].names;
      assert Owner(f, name, id);
    }
  }

  /** When `orig` is what `load` returned, an update is read back exactly. */
  lemma PutGet(f: Objects, me: string, orig: seq<string>, value: seq<string>)
    requires Named(f) && forall name | name in value :: Unambiguous(f, name)
    requires forall name :: name in orig <==> Related(f, me, name)
    ensures forall name :: Related(Written(f, me, orig, value), me, name) <==> name in value
    ensures forall name | name in orig :: Unambiguous(f, name)
  {
    forall name | name in orig
      ensures Unambiguous(f, name)
    {
      if !Unambiguous(f, name) {
        NobodyNamed(f, me, name);
      }
    }
    PutGetIff(f, me, orig, value);
  }

  /** Nobody is listed twice who was not before, if and only if nobody is added who is already there. */
  lemma StaysSingleIff(f: Objects, me: string, orig: seq<string>, value: seq<string>, id: string)
    requires Named(f) && id in f && multiset(f[id].members)[me] <= 1
    ensures multiset(Written(f, me, orig, value)[id].members)[me] <= 1 <==>
            !(Adds(orig, value, f[id].names[0]) && me in f[id].members)
  {
    var members := f[id].members;
    assert me in Without(members, me) <==> multiset(Without(members, me))[me] > 0;
    assert multiset(members + [me]) == multiset(members) + multiset{me};
  }

  /** Writing back what was loaded changes nothing at all. */
  lemma GetPut(f: Objects, me: string, orig: seq<string>)
    requires Named(f)
    ensures Written(f, me, orig, orig) == f
  {
  }

  /** An update and the update back restore who is related, though not the order of the members. */
  lemma ThereAndBack(f: Objects, me: string, orig: seq<string>, value: seq<string>)
    requires Named(f) && forall name | name in value :: Unambiguous(f, name)
    requires forall name :: name in orig <==> Related(f, me, name)
    ensures Named(Written(f, me, orig, value))
    ensures forall name :: Related(Written(Written(f, me, orig, value), me, value, orig), me, name) <==>
                           Related(f, me, name)
    ensures forall id | id in f ::
              Without(Written(Written(f, me, orig, value), me, value, orig)[id].members, me)
                == Without(f[id].members, me)
  {
    PutGet(f, me, orig, value);
    var after := Written(f, me, orig, value);
    forall id | id in f
      ensures Without(Written(after, me, value, orig)[id].members, me) == Without(f[id].members, me)
    {
      WrittenAt(f, me, orig, value, id);
      WrittenAt(after, me, value, orig, id);
    }
    forall name | name in orig
      ensures Unambiguous(after, name)
    {
      var id :| Owner(f, name, id);
      assert Owner(after, name, id);
    }
    PutGet(after, me, value, orig);
  }

  // ----- the backend -----

  /** An opened foreign object: its own copy of the members, and whether they were set. */
  datatype Proxy = Proxy(id: string, members: seq<string>, changed: bool)

  class ObjectHandler {
    var objects: Objects

    constructor (objects: Objects)
      ensures this.objects == objects
    {
      this.objects := objects;
    }

    /** `me` is the object's own match value, if it has one. The order of the result is the index's. */
    method Load(me: Option<string>) returns (r: seq<string>)
      ensures me.None? ==> r == []
      ensures me.Some? ==> forall name :: name in r <==> Related(objects, me.value, name)
    {
      r := [];
      if me.None? { return; }
      var todo := objects.Keys;
      while todo != {}
        invariant todo <= objects.Keys
        invariant forall name :: name in r <==>
          exists id :: id in objects && id !in todo && me.value in objects[id].members && name in objects[id].names
        decreases |todo|
      {
        var id :| id in todo;
        ghost var before, was := r, todo;
        todo := todo - {id};
        if me.value in objects[id].members {
          r := r + objects[id].names;
        }
        forall name
          ensures name in r <==>
                  exists i :: i in objects && i !in todo && me.value in objects[i].members && name in objects[i].names
        {
          if name in r && name !in before {
            assert id in objects && id !in todo;
          }
        }
      }
    }

    method FindUnique(name: string) returns (id: Option<string>)
      ensures id.Some? <==> Unambiguous(objects, name)
      ensures id.Some? ==> Owner(objects, name, id.value)
    {
      var hits, todo: set<string> := {}, objects.Keys;
      while todo != {}
        invariant todo <= objects.Keys
        invariant hits == set i | i in objects && i !in todo && name in objects[i].names
        decreases |todo|
      {
        var i :| i in todo;
        todo := todo - {i};
        if name in objects[i].names {
          hits := hits + {i};
        }
      }
      OneHit(objects, name, hits);
      if |hits| != 1 { return None; }
      var i :| i in hits;
      id := Some(i);
    }

    /** `update`; `me` is the object's own match value, if it has one. */
    method Update(me: Option<string>, orig: seq<string>, value: seq<string>) returns (e: Option<Error>)
      modifies this
      ensures me.None? ==> e == Some(SourceObjectNotFound)
      ensures me.Some? ==> (e.None? <==> forall name | name in orig + value :: Unambiguous(old(objects), name))
      ensures me.Some? && e.Some? ==> e.value.EntryNotFound? && e.value.name in orig + value
                                      && !Unambiguous(old(objects), e.value.name)
      ensures e.Some? ==> objects == old(objects)
      ensures e.None? && Named(old(objects)) ==> objects == Written(old(objects), me.value, orig, value)
    {
      if me.None? { return Some(SourceObjectNotFound); }
      var proxies, missing := Open(orig + value);
      if missing.Some? { return Some(EntryNotFound(missing.value)); }
      proxies := Edit(proxies, me.value, orig, value);
      assert Edited(objects, proxies, me.value, orig, value);
      Commit(proxies);
      if Named(old(objects)) {
        NamedIsDistinct(old(objects), proxies, me.value, orig, value);
        WrittenByProxies(old(objects), objects, proxies, me.value, orig, value);
      }
      e := None;
    }

    /** `retract` and `remove` update to no value at all: whoever is named in `orig` lists the object no more. */
    method Retract(me: Option<string>, orig: seq<string>) returns (e: Option<Error>)
      modifies this
      ensures me.None? ==> e == Some(SourceObjectNotFound)
      ensures me.Some? ==> (e.None? <==> forall name | name in orig :: Unambiguous(old(objects), name))
      ensures me.Some? && e.Some? ==> e.value.EntryNotFound? && e.value.name in orig
                                      && !Unambiguous(old(objects), e.value.name)
      ensures e.Some? ==> objects == old(objects)
      ensures e.None? && Named(old(objects)) ==>
                && objects == Written(old(objects), me.value, orig, [])
                && forall name :: Related(objects, me.value, name) <==>
                                  Related(old(objects), me.value, name) && name !in orig
    {
      if me.Some? && Named(objects) {
        forall name
          ensures Related(Written(objects, me.value, orig, []), me.value, name) <==>
                  Related(objects, me.value, name) && name !in orig
        {
          if Unambiguous(objects, name) {
            RelatedAfter(objects, me.value, orig, [], name);
          } else {
            NobodyNamed(objects, me.value, name);
            StillNobody(objects, me.value, orig, [], name);
          }
        }
      }
      assert orig + [] == orig;
      e := Update(me, orig, []);
    }

    /** Opens the objects the names pick, or says which name picks none. */
    method Open(names: seq<string>) returns (proxies: map<string, Proxy>, missing: Option<string>)
      ensures missing.Some? ==> missing.value in names && !Unambiguous(objects, missing.value)
      ensures missing.None? ==> Opened(objects, proxies) && forall n :: n in proxies <==> n in names
    {
      proxies := map[];
      var i := 0;
      while i < |names|
        invariant 0 <= i <= |names| && Opened(objects, proxies)
        invariant forall n :: n in proxies <==> n in names[..i]
      {
        var id := FindUnique(names[i]);
        if id.None? { return proxies, Some(names[i]); }
        proxies := proxies[names[i] := Proxy(id.value, objects[id.value].members, false)];
        i := i + 1;
      }
      missing := None;
    }

    method Edit(started: map<string, Proxy>, me: string, orig: seq<string>, value: seq<string>)
      returns (proxies: map<string, Proxy>)
      requires forall n :: n in started <==> n in orig + value
      ensures proxies.Keys == started.Keys
      ensures forall n | n in started :: proxies[n] == EditedProxy(started[n], n, me, orig, value)
    {
      proxies := started;
      var todo := started.Keys;
      while todo != {}
        invariant todo <= started.Keys == proxies.Keys
        invariant forall n | n in started ::
            proxies[n] == if n in todo then started[n] else EditedProxy(started[n], n, me, orig, value)
        decreases |todo|
      {
        var n :| n in todo;
        todo := todo - {n};
        var p := started[n];
        if Removes(orig, value, n) {
          proxies := proxies[n := p.(members := Without(p.members, me), changed := true)];
        } else if Adds(orig, value, n) {
          proxies := proxies[n := p.(members := p.members + [me], changed := true)];
        }
      }
    }

    /** Saves the objects that were changed. */
    method Commit(proxies: map<string, Proxy>)
      requires forall n | n in proxies :: proxies[n].id in objects
      modifies this
      ensures objects.Keys == old(objects).Keys
      ensures forall id | id in objects :: objects[id].names == old(objects)[id].names
      ensures forall id | id in objects && Untouched(proxies, proxies.Keys, id) :: objects[id] == old(objects)[id]
      ensures Distinct(proxies) ==>
                forall n | n in proxies && proxies[n].changed :: objects[proxies[n].id].members == proxies[n].members
    {
      var todo := proxies.Keys;
      while todo != {}
        invariant todo <= proxies.Keys && objects.Keys == old(objects).Keys
        invariant forall id | id in objects ::
                    && objects[id].names == old(objects)[id].names
                    && (Untouched(proxies, proxies.Keys, id) ==> objects[id] == old(objects)[id])
        invariant Distinct(proxies) ==>
                    forall n | n in proxies && n !in todo && proxies[n].changed ::
                      objects[proxies[n].id].members == proxies[n].members
        decreases |todo|
      {
        var n :| n in todo;
        todo := todo - {n};
        var p := proxies[n];
        if p.changed {
          objects := objects[p.id := objects[p.id].(members := p.members)];
        }
      }
    }
  }

  lemma OneHit(f: Objects, name: string, hits: set<string>)
    requires forall i :: i in hits <==> i in f && name in f[i].names
    ensures |hits| == 1 <==> Unambiguous(f, name)
    ensures |hits| == 1 ==> forall i | i in hits :: Owner(f, name, i)
  {
    if Unambiguous(f, name) {
      var i :| Owner(f, name, i);
      assert hits == {i};
    }
    if |hits| == 1 {
      forall i | i in hits
        ensures Owner(f, name, i)
      {
        forall other | other in f && name in f[other].names
          ensures other == i
        {
          Single(hits, i, other);
        }
      }
      var i :| i in hits;
    }
  }

  lemma Single(s: set<string>, x: string, y: string)
    requires |s| == 1 && x in s && y in s
    ensures x == y
  {
    assert |s - {x}| == 0;
  }

  ghost predicate Opened(f: Objects, proxies: map<string, Proxy>) {
    forall n | n in proxies ::
      Owner(f, n, proxies[n].id) && proxies[n].members == f[proxies[n].id].members && !proxies[n].changed
  }

  function EditedProxy(p: Proxy, name: string, me: string, orig: seq<string>, value: seq<string>): Proxy {
    p.(members := Rewritten(p.members, name, me, orig, value),
       changed := p.changed || Removes(orig, value, name) || Adds(orig, value, name))
  }

  /** Different names opened different objects. */
  ghost predicate Distinct(proxies: map<string, Proxy>) {
    forall n, m | n in proxies && m in proxies && proxies[n].id == proxies[m].id :: n == m
  }

  /** None of the names changed the object. */
  ghost predicate Untouched(proxies: map<string, Proxy>, names: set<string>, id: string) {
    forall n | n in names && n in proxies && proxies[n].id == id :: !proxies[n].changed
  }

  ghost predicate Edited(f: Objects, proxies: map<string, Proxy>, me: string, orig: seq<string>, value: seq<string>) {
    && (forall n :: n in proxies <==> n in orig + value)
    && forall n | n in proxies ::
         && Owner(f, n, proxies[n].id)
         && proxies[n].members == Rewritten(f[proxies[n].id].members, n, me, orig, value)
         && proxies[n].changed == (Removes(orig, value, n) || Adds(orig, value, n))
  }

  lemma NamedIsDistinct(f: Objects, proxies: map<string, Proxy>, me: string, orig: seq<string>, value: seq<string>)
    requires Named(f) && Edited(f, proxies, me, orig, value)
    ensures Distinct(proxies)
    ensures forall n | n in proxies :: f[proxies[n].id].names[0] == n
  {
    forall n | n in proxies
      ensures f[proxies[n].id].names[0] == n
    {
      assert Owner(f, n, proxies[n].id);
    }
    forall n, m | n in proxies && m in proxies && proxies[n].id == proxies[m].id
      ensures n == m
    {
      assert f[proxies[n].id].names[0] == n;
    }
  }

  lemma WrittenByProxies(f: Objects, after: Objects, proxies: map<string, Proxy>, me: string,
                         orig: seq<string>, value: seq<string>)
    requires Named(f) && Edited(f, proxies, me, orig, value)
    requires after.Keys == f.Keys && forall id | id in f :: after[id].names == f[id].names
    requires forall id | id in f && Untouched(proxies, proxies.Keys, id) :: after[id] == f[id]
    requires forall n | n in proxies && proxies[n].changed :: after[proxies[n].id].members == proxies[n].members
    ensures after == Written(f, me, orig, value)
  {
    NamedIsDistinct(f, proxies, me, orig, value);
    forall id | id in f
      ensures after[id].members == Rewritten(f[id].members, f[id].names[0], me, orig, value)
    {
      WrittenByProxy(f, after, proxies, me, orig, value, id, f[id].names[0]);
    }
  }

  lemma WrittenByProxy(f: Objects, after: Objects, proxies: map<string, Proxy>, me: string,
                       orig: seq<string>, value: seq<string>, id: string, name: string)
    requires Named(f) && Edited(f, proxies, me, orig, value) && id in f && name == f[id].names[0] && id in after
    requires forall n | n in proxies :: f[proxies[n].id].names[0] == n
    requires Untouched(proxies, proxies.Keys, id) ==> after[id] == f[id]
    requires name in proxies && proxies[name].changed && proxies[name].id == id ==>
               after[id].members == proxies[name].members
    ensures after[id].members == Rewritten(f[id].members, name, me, orig, value)
  {
    if name in proxies {
      assert Owner(f, name, proxies[name].id) && proxies[name].id == id;
      assert !proxies[name].changed ==> Untouched(proxies, proxies.Keys, id);
    } else {
      assert Untouched(proxies, proxies.Keys, id);
      assert name !in orig + value;
    }
  }
}
