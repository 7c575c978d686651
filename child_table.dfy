/** The `children` table as the repository sees it, once the SQLite session is replaced
    by a sequence of rows in insertion order, and the statements the repository runs
    against it: WHERE selections, the first-row lookups of its cursors, `replace` and
    `update`. A `Child` is what `childFrom` rebuilds from a row. */
module ChildTable {
  import opened Outcomes

  /** One entry of a record's change history, as `Child.changeLogs` computes it. */
  datatype History = History(field: string, from: string, to: string)

  /** A case record as `childFrom` builds it: its JSON text and its synced flag. */
  datatype Child = Child(json: string, synced: bool)

  /** A row of `children`: `id`, `child_json`, `synced`, `child_owner`, `created_at`,
      and the sync counterpart's `_id` and `_rev` (the internal id and revision). */
  datatype Row = Row(
    id: string,
    json: string,
    synced: bool,
    owner: string,
    createdAt: string,
    internalId: string,
    internalRev: string)

  /** What the repository asks of a record's JSON text; `Child` computes all of it and
      its rules are not part of this model. */
  datatype ChildJson = ChildJson(
    uniqueId: string -> string,                               // getUniqueId
    createdBy: string -> string,                              // getCreatedBy
    createdAt: string -> string,                              // getCreatedAt
    shortId: string -> string,                                // getShortId
    optString: (string, string) -> string,                    // optString(key)
    histories: string -> seq<History>,                        // opt(HISTORIES)
    changeLogs: (string, string, seq<History>) -> seq<History>, // changeLogs(existing, histories)
    putHistories: (string, seq<History>) -> string,           // put(HISTORIES, ...)
    setLastUpdatedAt: (string, string) -> string)             // setLastUpdatedAt(timestamp)

  function ChildFrom(row: Row): Child
  {
    Child(row.json, row.synced)
  }

  /** `toChildren`: one child per cursor row, in cursor order. */
  function Children(rows: seq<Row>): seq<Child>
  {
    seq(|rows|, k requires 0 <= k < |rows| => ChildFrom(rows[k]))
  }

  // The conditions of the repository's WHERE clauses.
  function OwnerIs(userName: string): Row -> bool { (r: Row) => r.owner == userName }
  function OwnerIsNot(userName: string): Row -> bool { (r: Row) => r.owner != userName }
  function IdIs(id: string): Row -> bool { (r: Row) => r.id == id }
  function IdIsNot(id: string): Row -> bool { (r: Row) => r.id != id }
  function InternalIdIs(internalId: string): Row -> bool { (r: Row) => r.internalId == internalId }
  function Unsynced(): Row -> bool { (r: Row) => !r.synced }
  function UnsyncedOwnedBy(userName: string): Row -> bool { (r: Row) => !r.synced && r.owner == userName }

  /** The rows a WHERE clause selects, in table order. */
  function Where(rows: seq<Row>, p: Row -> bool): seq<Row>
  {
    if rows == [] then []
    else Where(rows[..|rows| - 1], p) + (if p(rows[|rows| - 1]) then [rows[|rows| - 1]] else [])
  }

  /** The row a cursor's first `moveToNext` reaches: the first row the condition selects. */
  function Find(rows: seq<Row>, p: Row -> bool): (r: Option<Row>)
    ensures r.None? <==> forall k :: 0 <= k < |rows| ==> !p(rows[k])
    ensures r.Some? ==> exists k :: 0 <= k < |rows| && rows[k] == r.value && p(rows[k]) &&
                                    forall j :: 0 <= j < k ==> !p(rows[j])
  {
    if rows == [] then None
    else if p(rows[0]) then Some(rows[0])
    else
      var found := Find(rows[1..], p);
      assert forall k :: 0 < k < |rows| ==> rows[k] == rows[1..][k - 1];
      found
  }

  predicate HasId(rows: seq<Row>, id: string)
  {
    exists k :: 0 <= k < |rows| && rows[k].id == id
  }

  /** `id` is the table's key: no two rows share one. */
  predicate UniqueIds(rows: seq<Row>)
  {
    forall i, j :: 0 <= i < j < |rows| ==> rows[i].id != rows[j].id
  }

  /** A WHERE clause selects exactly the rows that satisfy it. */
  lemma {:induction false} WhereMembers(rows: seq<Row>, p: Row -> bool)
    ensures forall r :: r in Where(rows, p) <==> r in rows && p(r)
  {
    if rows != [] {
      var init := rows[..|rows| - 1];
      WhereMembers(init, p);
      assert rows == init + [rows[|rows| - 1]];
    }
  }

  /** A selection is no longer than the table, and empty exactly when no row qualifies. */
  lemma {:induction false} WhereBound(rows: seq<Row>, p: Row -> bool)
    ensures |Where(rows, p)| <= |rows|
    ensures |Where(rows, p)| == 0 <==> forall k :: 0 <= k < |rows| ==> !p(rows[k])
  {
    if rows != [] {
      var init := rows[..|rows| - 1];
      WhereBound(init, p);
      assert forall k :: 0 <= k < |init| ==> init[k] == rows[k];
    }
  }

  /** A condition and its negation split the table between them. */
  lemma {:induction false} WherePartition(rows: seq<Row>, p: Row -> bool, q: Row -> bool)
    requires forall r :: q(r) == !p(r)
    ensures |Where(rows, p)| + |Where(rows, q)| == |rows|
  {
    if rows != [] {
      WherePartition(rows[..|rows| - 1], p, q);
    }
  }

  /** Selecting by `p` and then by `q` is selecting by their conjunction. */
  lemma {:induction false} WhereWhere(rows: seq<Row>, p: Row -> bool, q: Row -> bool, both: Row -> bool)
    requires forall r :: both(r) == (p(r) && q(r))
    ensures Where(Where(rows, p), q) == Where(rows, both)
  {
    if rows != [] {
      var init := rows[..|rows| - 1];
      var last := rows[|rows| - 1];
      WhereWhere(init, p, q, both);
      var w := Where(init, p);
      if p(last) {
        assert Where(rows, p) == w + [last];
        assert (w + [last])[..|w|] == w;
        assert Where(w + [last], q) == Where(w, q) + (if q(last) then [last] else []);
      } else {
        assert Where(rows, p) == w;
      }
      assert Where(rows, both) == Where(init, both) + (if both(last) then [last] else []);
    }
  }

  /** A selection of a table with unique ids has unique ids. */
  lemma {:induction false} WhereUnique(rows: seq<Row>, p: Row -> bool)
    requires UniqueIds(rows)
    ensures UniqueIds(Where(rows, p))
  {
    if rows != [] {
      var init := rows[..|rows| - 1];
      var last := rows[|rows| - 1];
      assert UniqueIds(init);
      WhereUnique(init, p);
      WhereMembers(init, p);
      var w := Where(init, p);
      forall r | r in w ensures r.id != last.id {
        var k :| 0 <= k < |init| && init[k] == r;
      }
    }
  }

  /** With unique ids, a lookup by id finds the one row that has it. */
  lemma FindUnique(rows: seq<Row>, id: string, r: Row)
    requires UniqueIds(rows) && r in rows && r.id == id
    ensures Find(rows, IdIs(id)) == Some(r)
  {
    var i :| 0 <= i < |rows| && rows[i] == r;
    var found := Find(rows, IdIs(id));
    assert !(forall k :: 0 <= k < |rows| ==> !IdIs(id)(rows[k]));
    var k :| 0 <= k < |rows| && rows[k] == found.value && IdIs(id)(rows[k]);
    assert k == i;
  }

  /** `replace` (INSERT OR REPLACE keyed on id): the row with the same id, if any, goes
      and the new row is added last. */
  function Upsert(rows: seq<Row>, row: Row): seq<Row>
  {
    Where(rows, IdIsNot(row.id)) + [row]
  }

  /** After `replace`, a lookup of the written id finds the written row. */
  lemma UpsertThenFind(rows: seq<Row>, row: Row)
    ensures Find(Upsert(rows, row), IdIs(row.id)) == Some(row)
  {
    var kept := Where(rows, IdIsNot(row.id));
    WhereMembers(rows, IdIsNot(row.id));
    var after := Upsert(rows, row);
    assert after[|kept|] == row;
    assert forall j :: 0 <= j < |kept| ==> after[j] == kept[j] && kept[j] in kept;
  }

  /** `replace` keeps the ids unique. */
  lemma UpsertUnique(rows: seq<Row>, row: Row)
    requires UniqueIds(rows)
    ensures UniqueIds(Upsert(rows, row))
  {
    var kept := Where(rows, IdIsNot(row.id));
    WhereUnique(rows, IdIsNot(row.id));
    WhereMembers(rows, IdIsNot(row.id));
    var after := kept + [row];
    assert forall k :: 0 <= k < |kept| ==> kept[k] in kept && after[k] == kept[k];
  }

  /** `replace` leaves the lookups of every other id unchanged. */
  lemma UpsertKeepsOthers(rows: seq<Row>, row: Row, id: string)
    requires UniqueIds(rows) && id != row.id
    ensures Find(Upsert(rows, row), IdIs(id)) == Find(rows, IdIs(id))
  {
    var kept := Where(rows, IdIsNot(row.id));
    WhereMembers(rows, IdIsNot(row.id));
    var after := kept + [row];
    UpsertUnique(rows, row);
    var before := Find(rows, IdIs(id));
    if before.Some? {
      FindUnique(after, id, before.value);
    } else {
      forall k | 0 <= k < |after| ensures !IdIs(id)(after[k]) {
        if k < |kept| {
          assert after[k] in rows;
        }
      }
    }
  }

  /** With unique ids, at most one row has a given id. */
  lemma {:induction false} AtMostOneWithId(rows: seq<Row>, id: string)
    requires UniqueIds(rows)
    ensures |Where(rows, IdIs(id))| == if HasId(rows, id) then 1 else 0
  {
    if rows != [] {
      var init := rows[..|rows| - 1];
      var last := rows[|rows| - 1];
      assert UniqueIds(init);
      AtMostOneWithId(init, id);
      assert forall k :: 0 <= k < |init| ==> init[k] == rows[k];
      if last.id == id {
        assert !HasId(init, id);
      } else {
        assert HasId(rows, id) == HasId(init, id);
      }
    }
  }

  /** `replace` overwrites: the table grows by one row only when the id was new. */
  lemma UpsertSize(rows: seq<Row>, row: Row)
    requires UniqueIds(rows)
    ensures |Upsert(rows, row)| == if HasId(rows, row.id) then |rows| else |rows| + 1
  {
    WherePartition(rows, IdIs(row.id), IdIsNot(row.id));
    AtMostOneWithId(rows, row.id);
  }

  /** `update ... WHERE id = ?`: the selected rows get the new body, flag, internal id and
      revision; their id, owner and creation time, and every other row, stay. */
  function Patched(rows: seq<Row>, id: string, json: string, synced: bool,
                   internalId: string, internalRev: string): seq<Row>
  {
    seq(|rows|, k requires 0 <= k < |rows| =>
      if rows[k].id == id
      then rows[k].(json := json, synced := synced, internalId := internalId, internalRev := internalRev)
      else rows[k])
  }

  /** `getAllIdsAndRevs`: internal id to internal revision, a later row overwriting an
      earlier one with the same internal id. */
  function IdRevs(rows: seq<Row>): map<string, string>
  {
    if rows == [] then map[]
    else IdRevs(rows[..|rows| - 1])[rows[|rows| - 1].internalId := rows[|rows| - 1].internalRev]
  }

  /** Every internal id in the table is a key, mapped to the revision of the last row
      that carries it, and there are no other keys. */
  lemma {:induction false} IdRevsLast(rows: seq<Row>, key: string)
    ensures key in IdRevs(rows) <==> exists k :: 0 <= k < |rows| && rows[k].internalId == key
    ensures key in IdRevs(rows) ==>
              exists k :: 0 <= k < |rows| && rows[k].internalId == key &&
                          IdRevs(rows)[key] == rows[k].internalRev &&
                          forall j :: k < j < |rows| ==> rows[j].internalId != key
  {
    if rows != [] {
      var init := rows[..|rows| - 1];
      IdRevsLast(init, key);
      assert forall k :: 0 <= k < |init| ==> init[k] == rows[k];
    }
  }

  /** The internal ids of the given rows, in order. */
  function InternalIds(rows: seq<Row>): seq<string>
  {
    seq(|rows|, k requires 0 <= k < |rows| => rows[k].internalId)
  }

  /** What one lookup of `getAllWithInternalIds` contributes: the child of the first row
      with that internal id, or nothing when no row has it. */
  function Hit(rows: seq<Row>, internalId: string): (hit: seq<Child>)
    ensures |hit| <= 1
  {
    match Find(rows, InternalIdIs(internalId))
    case Some(r) => [ChildFrom(r)]
    case None => []
  }

  /** A lookup contributes nothing exactly when no row has the internal id. */
  lemma HitEmptyIff(rows: seq<Row>, internalId: string)
    ensures Hit(rows, internalId) == [] <==> forall k :: 0 <= k < |rows| ==> rows[k].internalId != internalId
  {
  }

  /** The results of `lookup` for each key, concatenated in key order. */
  function FlatLookup(lookup: string -> seq<Child>, keys: seq<string>): seq<Child>
  {
    if keys == [] then []
    else FlatLookup(lookup, keys[..|keys| - 1]) + lookup(keys[|keys| - 1])
  }

  lemma {:induction false} FlatLookupAppend(lookup: string -> seq<Child>, xs: seq<string>, ys: seq<string>)
    ensures FlatLookup(lookup, xs + ys) == FlatLookup(lookup, xs) + FlatLookup(lookup, ys)
    decreases |ys|
  {
    if ys == [] {
      assert xs + ys == xs;
    } else {
      var init, last := ys[..|ys| - 1], ys[|ys| - 1];
      FlatLookupAppend(lookup, xs, init);
      assert (xs + ys)[..|xs + ys| - 1] == xs + init;
      assert (xs + ys)[|xs + ys| - 1] == last;
    }
  }

  lemma FlatLookupSkip(lookup: string -> seq<Child>, xs: seq<string>, key: string, ys: seq<string>)
    requires lookup(key) == []
    ensures FlatLookup(lookup, xs + [key] + ys) == FlatLookup(lookup, xs + ys)
  {
    var one := [key];
    assert one[..0] == [];
    assert FlatLookup(lookup, one) == [];
    FlatLookupAppend(lookup, xs + one, ys);
    FlatLookupAppend(lookup, xs, one);
    FlatLookupAppend(lookup, xs, ys);
  }

  lemma {:induction false} FlatLookupLength(lookup: string -> seq<Child>, keys: seq<string>)
    requires forall key :: |lookup(key)| <= 1
    ensures |FlatLookup(lookup, keys)| <= |keys|
    ensures |FlatLookup(lookup, keys)| == |keys| <==> forall k :: 0 <= k < |keys| ==> lookup(keys[k]) != []
  {
    if keys != [] {
      var n := |keys|;
      var init := keys[..n - 1];
      FlatLookupLength(lookup, init);
      assert forall k :: 0 <= k < n - 1 ==> init[k] == keys[k];
    }
  }

  lemma {:induction false} FlatLookupAllPresent(lookup: string -> seq<Child>, keys: seq<string>, k: nat)
    requires forall key :: |lookup(key)| <= 1
    requires forall j :: 0 <= j < |keys| ==> lookup(keys[j]) != []
    requires k < |keys|
    ensures |FlatLookup(lookup, keys)| == |keys|
    ensures [FlatLookup(lookup, keys)[k]] == lookup(keys[k])
  {
    FlatLookupLength(lookup, keys);
    var n := |keys|;
    var init := keys[..n - 1];
    assert forall j :: 0 <= j < n - 1 ==> init[j] == keys[j];
    FlatLookupLength(lookup, init);
    if k < n - 1 {
      FlatLookupAllPresent(lookup, init, k);
    }
  }

  /** `Hit` as a function of the internal id alone. */
  function HitIn(rows: seq<Row>): string -> seq<Child>
  {
    (internalId: string) => Hit(rows, internalId)
  }

  /** `getAllWithInternalIds`: the hits of the internal ids, in request order. */
  function WithInternalIds(rows: seq<Row>, internalIds: seq<string>): seq<Child>
  {
    FlatLookup(HitIn(rows), internalIds)
  }

  /** Looking up two lists of internal ids one after the other is looking up both. */
  lemma WithInternalIdsAppend(rows: seq<Row>, xs: seq<string>, ys: seq<string>)
    ensures WithInternalIds(rows, xs + ys) == WithInternalIds(rows, xs) + WithInternalIds(rows, ys)
  {
    FlatLookupAppend(HitIn(rows), xs, ys);
  }

  /** An internal id no row has is skipped without a trace. */
  lemma SkipsMissingInternalId(rows: seq<Row>, xs: seq<string>, missing: string, ys: seq<string>)
    requires forall k :: 0 <= k < |rows| ==> rows[k].internalId != missing
    ensures WithInternalIds(rows, xs + [missing] + ys) == WithInternalIds(rows, xs + ys)
  {
    HitEmptyIff(rows, missing);
    FlatLookupSkip(HitIn(rows), xs, missing, ys);
  }

  /** Every `HitIn(rows)` result has at most one child. */
  lemma HitInAtMostOne(rows: seq<Row>)
    ensures forall key :: |HitIn(rows)(key)| <= 1
  {
    forall key ensures |HitIn(rows)(key)| <= 1 {
      assert HitIn(rows)(key) == Hit(rows, key);
    }
  }

  /** One child per internal id that some row has, none for the others: the result is
      never longer than the request, and exactly as long when every id is present. */
  lemma WithInternalIdsLength(rows: seq<Row>, internalIds: seq<string>)
    ensures |WithInternalIds(rows, internalIds)| <= |internalIds|
    ensures |WithInternalIds(rows, internalIds)| == |internalIds| <==>
              forall k :: 0 <= k < |internalIds| ==> Hit(rows, internalIds[k]) != []
  {
    HitInAtMostOne(rows);
    FlatLookupLength(HitIn(rows), internalIds);
  }

  /** When every internal id is present, child `k` is the hit of id `k`. */
  lemma WithInternalIdsAllPresent(rows: seq<Row>, internalIds: seq<string>, k: nat)
    requires forall j :: 0 <= j < |internalIds| ==> Hit(rows, internalIds[j]) != []
    requires k < |internalIds|
    ensures |WithInternalIds(rows, internalIds)| == |internalIds|
    ensures [WithInternalIds(rows, internalIds)[k]] == Hit(rows, internalIds[k])
  {
    HitInAtMostOne(rows);
    FlatLookupAllPresent(HitIn(rows), internalIds, k);
  }
}
