/** The object index: one row per UUID, and what happens to the rows below an object that was moved. */
module IndexMove {
  import opened Names
  import opened Wrappers

  /** The columns of an indexed object; `values` are its key-value pairs and its extensions. */
  datatype Row = Row(dn: Dn, parent: Dn, kind: string, values: multiset<(string, string)>)

  type Rows = map<string, Row>

  datatype Error = ObjectExists | ObjectNotFound

  // ----- names -----

  predicate EndsWith(d: Dn, tail: Dn) {
    |tail| <= |d| && d[|d| - |tail|..] == tail
  }

  /** The name with its last |source| RDNs exchanged for `target`. */
  function Rebase(d: Dn, source: Dn, target: Dn): Dn
    requires |source| <= |d|
  {
    d[..|d| - |source|] + target
  }

  lemma ParentEndsWith(d: Dn, tail: Dn)
    requires d != []
    ensures EndsWith(d[1..], tail) <==> EndsWith(d, tail) && d != tail
  {
    if |tail| < |d| {
      assert d[1..][|d| - 1 - |tail|..] == d[|d| - |tail|..];
    }
  }

  lemma RebaseParent(d: Dn, source: Dn, target: Dn)
    requires |source| < |d|
    ensures Rebase(d, source, target) != [] && Rebase(d, source, target)[1..] == Rebase(d[1..], source, target)
  {
  }

  lemma RebaseEndsWith(d: Dn, source: Dn, target: Dn)
    requires |source| <= |d|
    ensures EndsWith(Rebase(d, source, target), target)
    ensures Rebase(d, source, target) == target <==> |d| == |source|
  {
    var n := Rebase(d, source, target);
    assert n[|n| - |target|..] == target;
  }

  lemma RebaseInjective(d: Dn, e: Dn, source: Dn, target: Dn)
    requires EndsWith(d, source) && EndsWith(e, source)
    ensures Rebase(d, source, target) == Rebase(e, source, target) <==> d == e
  {
    if Rebase(d, source, target) == Rebase(e, source, target) {
      var n := Rebase(d, source, target);
      var k := |n| - |target|;
      assert n[..k] == d[..|d| - |source|] && n[..k] == e[..|e| - |source|];
      assert d == d[..|d| - |source|] + source && e == e[..|e| - |source|] + source;
    }
  }

  // ----- rows -----

  /** The parent column holds the tail of the name. */
  predicate RowSound(r: Row) {
    r.dn != [] && r.parent == r.dn[1..]
  }

  ghost predicate Sound(rows: Rows) {
    forall u | u in rows :: RowSound(rows[u])
  }

  ghost predicate Unique(rows: Rows) {
    forall u, v | u in rows && v in rows && u != v :: rows[u].dn != rows[v].dn
  }

  /** Strictly below `dn`. */
  predicate Below(r: Row, dn: Dn) {
    EndsWith(r.parent, dn)
  }

  /** The new name and parent of a row below the old name. */
  function Rename(r: Row, source: Dn, target: Dn): Row
    requires RowSound(r) && Below(r, source)
  {
    r.(dn := Rebase(r.dn, source, target), parent := Rebase(r.parent, source, target))
  }

  function RenamedRow(r: Row, source: Dn, target: Dn): Row
    requires RowSound(r)
  {
    if Below(r, source) then Rename(r, source, target) else r
  }

  function Renamed(rows: Rows, source: Dn, target: Dn): Rows
    requires forall u | u in rows :: RowSound(rows[u])
  {
    map u | u in rows :: RenamedRow(rows[u], source, target)
  }

  /** All rows but those in `res`, which lie below the old name, are renamed. */
  ghost predicate RenamedBut(saved: Rows, source: Dn, target: Dn, res: set<string>, rows: Rows)
    requires Sound(saved)
  {
    && rows.Keys == saved.Keys
    && (forall u | u in res :: u in saved && Below(saved[u], source))
    && forall u | u in saved :: rows[u] == if u in res then saved[u] else RenamedRow(saved[u], source, target)
  }

  lemma OneMoreRenamed(saved: Rows, source: Dn, target: Dn, res: set<string>, rows: Rows, u: string)
    requires Sound(saved) && RenamedBut(saved, source, target, res, rows) && u in res
    ensures u in saved && Below(saved[u], source)
    ensures RenamedBut(saved, source, target, res - {u}, rows[u := Rename(saved[u], source, target)])
  {
  }

  lemma NothingLeftToRename(saved: Rows, source: Dn, target: Dn, rows: Rows)
    requires Sound(saved) && RenamedBut(saved, source, target, {}, rows)
    ensures rows == Renamed(saved, source, target)
  {
  }

  /** The rows after `update` of the object `uuid`, which is now described by `current`. */
  function Updated(rows: Rows, uuid: string, current: Row): Rows
    requires uuid in rows && RowSound(current) && forall u | u in rows :: RowSound(rows[u])
  {
    var saved := rows[uuid := current];
    if current.dn == rows[uuid].dn then saved else Renamed(saved, rows[uuid].dn, current.dn)
  }

  /** Everything strictly below the old name keeps its relative path under the new one; every other row stays as
      it is; and every parent column still holds the tail of the name. */
  lemma SubtreeMoves(rows: Rows, uuid: string, current: Row, v: string)
    requires uuid in rows && RowSound(current) && Sound(rows) && v in rows && v != uuid
    requires current.dn != rows[uuid].dn
    ensures var q := Updated(rows, uuid, current);
            && q.Keys == rows.Keys
            && RowSound(q[v])
            && q[v].(dn := rows[v].dn, parent := rows[v].parent) == rows[v]
            && (forall p | p != [] && rows[v].dn == p + rows[uuid].dn :: q[v].dn == p + current.dn)
            && (!Below(rows[v], rows[uuid].dn) ==> q[v] == rows[v])
  {
    var q, d, source := Updated(rows, uuid, current), rows[v].dn, rows[uuid].dn;
    ParentEndsWith(d, source);
    if Below(rows[v], source) {
      RebaseParent(d, source, current.dn);
    }
    forall p | p != [] && d == p + source
      ensures q[v].dn == p + current.dn
    {
      assert d[|d| - |source|..] == source && d[..|d| - |source|] == p;
    }
  }

  /** The object itself gets its new row, if and only if it was not moved below itself. */
  lemma ObjectGetsItsRowIff(rows: Rows, uuid: string, current: Row)
    requires uuid in rows && RowSound(current) && Sound(rows)
    ensures var q := Updated(rows, uuid, current);
            && RowSound(q[uuid])
            && (q[uuid] == current <==> !Below(current, rows[uuid].dn) || current.dn == rows[uuid].dn)
  {
    var d, source := current.dn, rows[uuid].dn;
    ParentEndsWith(d, source);
    if Below(current, source) && d != source {
      RebaseParent(d, source, d);
      assert |Rebase(d, source, d)| > |d|;
    }
  }

  /** Strictly below: more RDNs in front of the same name. */
  ghost predicate Inside(d: Dn, name: Dn) {
    exists p :: p != [] && d == p + name
  }

  lemma BelowIsInside(r: Row, name: Dn)
    requires RowSound(r)
    ensures Below(r, name) <==> Inside(r.dn, name)
  {
    ParentEndsWith(r.dn, name);
    if Below(r, name) {
      assert r.dn == r.dn[..|r.dn| - |name|] + name;
    }
    if Inside(r.dn, name) {
      var p :| p != [] && r.dn == p + name;
      assert r.dn[|p|..] == name;
    }
  }

  /** The index after an update, row by row: the same objects, the new row for the object unless it was moved below
      itself, a new name for every other object strictly below the old one, and no change to anybody else. With an
      unchanged name there is nothing to rename. */
  ghost predicate HoldsAfterUpdate(rows: Rows, uuid: string, current: Row, q: Rows)
    requires uuid in rows
  {
    var source := rows[uuid].dn;
    && q.Keys == rows.Keys
    && (current.dn == source || !Inside(current.dn, source) ==> q[uuid] == current)
    && (current.dn == source ==> forall v :: v in rows && v != uuid ==> q[v] == rows[v])
    && (forall v :: v in rows && v != uuid && !Inside(rows[v].dn, source) ==> q[v] == rows[v])
    && (current.dn != source ==> forall v, p :: v in rows && v != uuid && p != [] && rows[v].dn == p + source ==>
          q[v] == rows[v].(dn := p + current.dn, parent := (p + current.dn)[1..]))
  }

  lemma UpdateHolds(rows: Rows, uuid: string, current: Row)
    requires uuid in rows && RowSound(current) && Sound(rows)
    ensures HoldsAfterUpdate(rows, uuid, current, Updated(rows, uuid, current))
  {
    var q, source := Updated(rows, uuid, current), rows[uuid].dn;
    ObjectGetsItsRowIff(rows, uuid, current);
    BelowIsInside(current, source);
    if current.dn != source {
      forall v | v in rows && v != uuid
        ensures !Inside(rows[v].dn, source) ==> q[v] == rows[v]
        ensures forall p :: p != [] && rows[v].dn == p + source ==>
                  q[v] == rows[v].(dn := p + current.dn, parent := (p + current.dn)[1..])
      {
        BelowIsInside(rows[v], source);
        SubtreeMoves(rows, uuid, current, v);
        forall p | p != [] && rows[v].dn == p + source
          ensures q[v] == rows[v].(dn := p + current.dn, parent := (p + current.dn)[1..])
        {
          assert q[v].dn == p + current.dn && q[v].parent == q[v].dn[1..];
          assert q[v].(dn := rows[v].dn, parent := rows[v].parent) == rows[v];
        }
      }
    }
  }

  lemma UpdateKeepsSound(rows: Rows, uuid: string, current: Row)
    requires uuid in rows && RowSound(current) && Sound(rows)
    ensures Sound(Updated(rows, uuid, current))
  {
    var q := Updated(rows, uuid, current);
    forall v | v in q
      ensures RowSound(q[v])
    {
      if v == uuid {
        ObjectGetsItsRowIff(rows, uuid, current);
      } else if current.dn != rows[uuid].dn {
        SubtreeMoves(rows, uuid, current, v);
      }
    }
  }

  /** Where a row of the moved subtree goes: the object itself or something below it. */
  predicate InSubtree(r: Row, dn: Dn) {
    EndsWith(r.dn, dn)
  }

  /** A row outside the subtree that already has the new name of a row inside. */
  predicate Clash(rows: Rows, source: Dn, target: Dn, inside: string, outside: string)
    requires inside in rows && outside in rows
  {
    && InSubtree(rows[inside], source) && !InSubtree(rows[outside], source)
    && rows[outside].dn == Rebase(rows[inside].dn, source, target)
  }

  /** The new name of every row, in one formula. */
  lemma NewName(rows: Rows, uuid: string, current: Row, v: string)
    requires uuid in rows && RowSound(current) && Sound(rows) && Unique(rows) && v in rows
    requires current.dn != rows[uuid].dn && !Below(current, rows[uuid].dn)
    ensures var source := rows[uuid].dn;
            Updated(rows, uuid, current)[v].dn
            == if InSubtree(rows[v], source) then Rebase(rows[v].dn, source, current.dn) else rows[v].dn
  {
    var source := rows[uuid].dn;
    if v != uuid {
      ParentEndsWith(rows[v].dn, source);
    } else {
      assert source[..0] + current.dn == current.dn;
    }
  }

  lemma SameNameIff(rows: Rows, uuid: string, current: Row, v: string, w: string)
    requires uuid in rows && RowSound(current) && Sound(rows) && Unique(rows)
    requires current.dn != rows[uuid].dn && !Below(current, rows[uuid].dn)
    requires v in rows && w in rows && v != w
    ensures var q, source, target := Updated(rows, uuid, current), rows[uuid].dn, current.dn;
            q[v].dn == q[w].dn <==> Clash(rows, source, target, v, w) || Clash(rows, source, target, w, v)
  {
    NewName(rows, uuid, current, v);
    NewName(rows, uuid, current, w);
    if InSubtree(rows[v], rows[uuid].dn) && InSubtree(rows[w], rows[uuid].dn) {
      RebaseInjective(rows[v].dn, rows[w].dn, rows[uuid].dn, current.dn);
    }
  }

  /** Names stay unique if and only if no row outside the moved subtree has the new name of a row inside it. */
  lemma StaysUniqueIff(rows: Rows, uuid: string, current: Row)
    requires uuid in rows && RowSound(current) && Sound(rows) && Unique(rows)
    requires current.dn != rows[uuid].dn && !Below(current, rows[uuid].dn)
    ensures Unique(Updated(rows, uuid, current)) <==>
            forall v, w | v in rows && w in rows :: !Clash(rows, rows[uuid].dn, current.dn, v, w)
  {
    var q, source, target := Updated(rows, uuid, current), rows[uuid].dn, current.dn;
    if Unique(q) {
      forall v, w | v in rows && w in rows
        ensures !Clash(rows, source, target, v, w)
      {
        if v != w {
          SameNameIff(rows, uuid, current, v, w);
        }
      }
    }
    if forall v, w | v in rows && w in rows :: !Clash(rows, source, target, v, w) {
      forall v, w | v in rows && w in rows && v != w
        ensures q[v].dn != q[w].dn
      {
        SameNameIff(rows, uuid, current, v, w);
      }
    }
  }

  /** In particular they stay unique if nothing outside the subtree lies at or below the new name. */
  lemma FreeSubtreeStaysUnique(rows: Rows, uuid: string, current: Row)
    requires uuid in rows && RowSound(current) && Sound(rows) && Unique(rows)
    requires current.dn != rows[uuid].dn && !Below(current, rows[uuid].dn)
    requires forall w | w in rows && InSubtree(rows[w], current.dn) :: InSubtree(rows[w], rows[uuid].dn)
    ensures Unique(Updated(rows, uuid, current))
  {
    forall v, w | v in rows && w in rows
      ensures !Clash(rows, rows[uuid].dn, current.dn, v, w)
    {
      if InSubtree(rows[v], rows[uuid].dn) {
        RebaseEndsWith(rows[v].dn, rows[uuid].dn, current.dn);
      }
    }
    StaysUniqueIff(rows, uuid, current);
  }

  /** Every row whose parent was in the index still finds it there, now under its new name. */
  lemma ParentsFollow(rows: Rows, uuid: string, current: Row, child: string, parent: string)
    requires uuid in rows && RowSound(current) && Sound(rows) && Unique(rows)
    requires current.dn != rows[uuid].dn && !Below(current, rows[uuid].dn)
    requires child in rows && parent in rows && child != uuid && rows[child].parent == rows[parent].dn
    ensures var q := Updated(rows, uuid, current); q[child].parent == q[parent].dn
  {
    NewName(rows, uuid, current, parent);
    SubtreeMoves(rows, uuid, current, child);
    NewName(rows, uuid, current, child);
    ParentEndsWith(rows[child].dn, rows[uuid].dn);
  }

  lemma RebaseBack(d: Dn, source: Dn, target: Dn)
    requires EndsWith(d, source)
    ensures EndsWith(Rebase(d, source, target), target) && Rebase(Rebase(d, source, target), target, source) == d
  {
    RebaseEndsWith(d, source, target);
    var n := Rebase(d, source, target);
    assert n[..|n| - |target|] == d[..|d| - |source|];
    assert d == d[..|d| - |source|] + source;
  }

  /** Moving the object back where it was. */
  function MovedAndBack(rows: Rows, uuid: string, current: Row): Rows
    requires uuid in rows && RowSound(current) && Sound(rows)
  {
    UpdateKeepsSound(rows, uuid, current);
    Updated(Updated(rows, uuid, current), uuid, rows[uuid])
  }

  /** What becomes of another row: it stays below the old name, or stays where it was, unless it lay below the
      name the object was moved to and is now carried along on the way back. */
  lemma RowMovedAndBack(rows: Rows, uuid: string, current: Row, v: string)
    requires uuid in rows && RowSound(current) && Sound(rows) && v in rows && v != uuid
    requires current.dn != rows[uuid].dn && !Below(current, rows[uuid].dn) && !Below(rows[uuid], current.dn)
    ensures MovedAndBack(rows, uuid, current)[v] == rows[v] <==>
            Below(rows[v], rows[uuid].dn) || !Below(rows[v], current.dn)
  {
    var r, source, target := rows[v], rows[uuid].dn, current.dn;
    UpdateKeepsSound(rows, uuid, current);
    assert Updated(rows, uuid, current)[uuid] == current;
    if Below(r, source) {
      ParentEndsWith(r.dn, source);
      RebaseBack(r.dn, source, target);
      RebaseBack(r.parent, source, target);
    } else if Below(r, target) {
      RebaseInjectiveTarget(r.parent, target, source);
    }
  }

  lemma RebaseInjectiveTarget(d: Dn, source: Dn, target: Dn)
    requires EndsWith(d, source) && source != target
    ensures Rebase(d, source, target) != d
  {
    var n := Rebase(d, source, target);
    if |source| == |target| {
      assert n[|d| - |source|..] == target && d[|d| - |source|..] == source;
    }
  }

  /** A move and the move back restore every row, if and only if nothing outside the subtree lay below the name
      the object was moved to. */
  lemma MoveBackRestoresIff(rows: Rows, uuid: string, current: Row)
    requires uuid in rows && RowSound(current) && Sound(rows)
    requires current.dn != rows[uuid].dn && !Below(current, rows[uuid].dn) && !Below(rows[uuid], current.dn)
    ensures MovedAndBack(rows, uuid, current) == rows <==>
            forall v | v in rows && v != uuid && Below(rows[v], current.dn) :: Below(rows[v], rows[uuid].dn)
  {
    var q := MovedAndBack(rows, uuid, current);
    UpdateKeepsSound(rows, uuid, current);
    assert q.Keys == rows.Keys && q[uuid] == rows[uuid];
    if q == rows {
      forall v | v in rows && v != uuid && Below(rows[v], current.dn)
        ensures Below(rows[v], rows[uuid].dn)
      {
        RowMovedAndBack(rows, uuid, current, v);
      }
    } else {
      var v :| v in rows && q[v] != rows[v];
      RowMovedAndBack(rows, uuid, current, v);
    }
  }

  // ----- the index -----

  class ObjectIndex {
    var rows: Rows

    constructor ()
      ensures rows == map[]
    {
      rows := map[];
    }

    predicate Exists(uuid: string)
      reads this
    {
      uuid in rows
    }

    /** `hosted` says whether the parent object may hold the new one. */
    method Insert(uuid: string, row: Row, skipBaseCheck: bool, hosted: bool) returns (e: Option<Error>)
      requires Sound(rows) && RowSound(row)
      modifies this
      ensures Sound(rows)
      ensures var fits := skipBaseCheck || ((exists u | u in old(rows) :: old(rows)[u].dn == row.parent) && hosted);
              && e == (if fits && uuid in old(rows) then Some(ObjectExists) else None)
              && rows == if fits && uuid !in old(rows) then old(rows)[uuid := row] else old(rows)
    {
      if !skipBaseCheck && (!(exists u | u in rows :: rows[u].dn == row.parent) || !hosted) { return None; }
      if uuid in rows { return Some(ObjectExists); }
      rows := rows[uuid := row];
      e := None;
    }

    method RemoveByUuid(uuid: string)
      requires Sound(rows)
      modifies this
      ensures Sound(rows) && rows == old(rows) - {uuid}
    {
      if Exists(uuid) {
        rows := rows - {uuid};
      }
    }

    method Update(uuid: string, current: Row) returns (e: Option<Error>)
      requires Sound(rows) && RowSound(current)
      modifies this
      ensures Sound(rows)
      ensures e == if uuid in old(rows) then None else Some(ObjectNotFound)
      ensures if uuid in old(rows) then HoldsAfterUpdate(old(rows), uuid, current, rows) else rows == old(rows)
      ensures uuid in old(rows) ==> rows == Updated(old(rows), uuid, current)
    {
      if uuid !in rows { return Some(ObjectNotFound); }
      UpdateHolds(rows, uuid, current);
      UpdateKeepsSound(rows, uuid, current);
      Replace(uuid, current);
      e := None;
    }

    /** Removes the rows of the object, saves the new ones, and renames what lies below. */
    method Replace(uuid: string, current: Row)
      requires Sound(rows) && RowSound(current) && uuid in rows
      modifies this
      ensures rows == Updated(old(rows), uuid, current)
    {
      var oldDn := rows[uuid].dn;
      RemoveByUuid(uuid);
      rows := rows[uuid := current];
      assert rows == old(rows)[uuid := current];
      if current.dn != oldDn {
        RenameBelow(oldDn, current.dn);
      }
    }

    method RenameBelow(oldDn: Dn, newDn: Dn)
      requires Sound(rows)
      modifies this
      ensures rows == Renamed(old(rows), oldDn, newDn)
    {
      var saved, res := rows, set u | u in rows && Below(rows[u], oldDn);
      while res != {}
        invariant RenamedBut(saved, oldDn, newDn, res, rows)
        decreases |res|
      {
        var u :| u in res;
        OneMoreRenamed(saved, oldDn, newDn, res, rows, u);
        rows := rows[u := Rename(saved[u], oldDn, newDn)];
        res := res - {u};
      }
      NothingLeftToRename(saved, oldDn, newDn, rows);
    }
  }
}
