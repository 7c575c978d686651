/** `ChildRepository`: the record store over the `children` table. The database session
    is the field `rows`; the current user's name is fixed at construction, and whether
    that user is verified is passed to the search, as are the clock's timestamp, the
    row id `replace` reports, and SQLite's answer to the search's pre-filter. */
module Repository {
  import opened Outcomes
  import opened ChildTable
  import opened SearchQuery
  import opened SearchFilter
  import opened JavaSplit

  /** The rows SQLite returns for a query text against the table. */
  type QueryEngine = (seq<Row>, string) -> seq<Row>

  /** The `ContentValues` that `createOrUpdate` writes for a child (`populateInternalColumns`
      included). */
  function ValuesFor(model: ChildJson, child: Child): Row
  {
    Row(model.uniqueId(child.json), child.json, child.synced,
        model.createdBy(child.json), model.createdAt(child.json),
        model.optString(child.json, "_id"), model.optString(child.json, "_rev"))
  }

  /** `addHistory`'s effect on the JSON text: the change log against the stored version
      goes into the history field, unless it is empty. */
  function WithHistory(model: ChildJson, json: string, existingJson: string): string
  {
    var histories := model.changeLogs(json, existingJson, model.histories(existingJson));
    if |histories| > 0 then model.putHistories(json, histories) else json
  }

  /** `toChildren`: one child per cursor row, in cursor order. */
  method ToChildren(cursor: seq<Row>) returns (children: seq<Child>)
    ensures |children| == |cursor|
    ensures forall k :: 0 <= k < |cursor| ==> children[k] == ChildFrom(cursor[k])
  {
    children := [];
    var i := 0;
    while i < |cursor|
      invariant 0 <= i <= |cursor|
      invariant |children| == i
      invariant forall k :: 0 <= k < i ==> children[k] == ChildFrom(cursor[k])
    {
      children := children + [ChildFrom(cursor[i])];
      i := i + 1;
    }
  }

  class ChildRepository {
    const userName: string
    const model: ChildJson
    var rows: seq<Row>

    /** Every id names one row at most. */
    ghost predicate Valid()
      reads this
    {
      UniqueIds(rows)
    }

    constructor (userName: string, model: ChildJson, rows: seq<Row>)
      requires UniqueIds(rows)
      ensures Valid()
      ensures this.userName == userName && this.model == model && this.rows == rows
    {
      this.userName := userName;
      this.model := model;
      this.rows := rows;
    }

    /** `get`: the child of the first row with the id, or NullPointerException(id). */
    function Get(id: string): (r: Result<Child>)
      reads this
      ensures r.Ok? <==> HasId(rows, id)
      ensures r.Ok? ==> exists k :: 0 <= k < |rows| && rows[k].id == id && r.value == ChildFrom(rows[k]) &&
                                    forall j :: 0 <= j < k ==> rows[j].id != id
      ensures r.Fail? ==> r.error == NullPointer(id)
    {
      match Find(rows, IdIs(id))
      case Some(row) => Ok(ChildFrom(row))
      case None => Fail(NullPointer(id))
    }

    /** `exists`: whether some row has the id, a null id being looked up as "". */
    function Exists(childId: Option<string>): (b: bool)
      reads this
      ensures b <==> HasId(rows, if childId.None? then "" else childId.value)
    {
      Find(rows, IdIs(if childId.None? then "" else childId.value)).Some?
    }

    /** `size`: how many rows the current user owns. */
    function Size(): (n: nat)
      reads this
      ensures n <= |rows|
      ensures n == 0 <==> forall k :: 0 <= k < |rows| ==> rows[k].owner != userName
    {
      WhereBound(rows, OwnerIs(userName));
      |Where(rows, OwnerIs(userName))|
    }

    /** `getChildrenByOwner`: the children of the current user's rows. */
    method GetChildrenByOwner() returns (children: seq<Child>)
      ensures children == Children(Where(rows, OwnerIs(userName)))
    {
      children := ToChildren(Where(rows, OwnerIs(userName)));
    }

    /** `getRecordIdsByOwner`: the `_id` of each of the current user's rows, as many as
        `size` counts. */
    method GetRecordIdsByOwner() returns (ids: seq<string>)
      ensures ids == InternalIds(Where(rows, OwnerIs(userName)))
      ensures |ids| == Size()
    {
      var cursor := Where(rows, OwnerIs(userName));
      ids := [];
      var i := 0;
      while i < |cursor|
        invariant 0 <= i <= |cursor|
        invariant ids == InternalIds(cursor[..i])
      {
        ids := ids + [cursor[i].internalId];
        i := i + 1;
      }
      assert cursor[..i] == cursor;
    }

    /** `deleteChildrenByOwner`: the current user's rows go, every other row stays. */
    method DeleteChildrenByOwner()
      requires Valid()
      modifies this
      ensures Valid()
      ensures rows == Where(old(rows), OwnerIsNot(userName))
      ensures Size() == 0
      ensures |rows| == |old(rows)| - old(Size())
    {
      WhereUnique(rows, OwnerIsNot(userName));
      WherePartition(rows, OwnerIs(userName), OwnerIsNot(userName));
      rows := Where(rows, OwnerIsNot(userName));
      WhereMembers(rows, OwnerIs(userName));
      DeleteLeavesOthers(old(rows), userName);
    }

    /** `getMatchingChildren`: a null list of highlighted fields counts as empty; a search
        of whitespace only builds a query with an empty condition, which `rawQuery` rejects;
        otherwise the candidates are SQLite's rows for the pre-filter query, and the regular
        expression filter decides. */
    method GetMatchingChildren(searchString: string, highlightedFields: Option<seq<string>>,
                               userVerified: bool, engine: QueryEngine, matches: Matcher)
      returns (r: Result<seq<Child>>)
      ensures r.Fail? <==> searchString != "" && AllWhitespace(searchString)
      ensures r.Fail? ==> r.error == SqlSyntax(EmptyConditionSql(userVerified, userName))
      ensures var fields := if highlightedFields.None? then [] else highlightedFields.value;
              var candidates := engine(rows, SearchSql(searchString, userVerified, userName));
              r.Ok? ==> r.value == Criteria(model, matches, PatternSource(searchString), fields).Filtered(candidates)
    {
      var fields := if highlightedFields.None? then [] else highlightedFields.value;
      var query := BuildSqlQueryForSearch(searchString, userVerified, userName);
      EmptyConditionIff(searchString, userVerified, userName);
      if query == EmptyConditionSql(userVerified, userName) {
        return Fail(SqlSyntax(query));
      }
      var cursor := engine(rows, query);
      var children := FilterChildrenWithRegularExpression(cursor, searchString, fields, model, matches);
      r := Ok(children);
    }

    /** `addHistory`: the stored version is read back and the change log against it goes
        into the child's history field, unless the log is empty. */
    method AddHistory(child: Child) returns (updated: Child)
      requires HasId(rows, model.uniqueId(child.json))
      ensures updated.synced == child.synced
      ensures var existing := Get(model.uniqueId(child.json)).value;
              var histories := model.changeLogs(child.json, existing.json, model.histories(existing.json));
              (|histories| == 0 ==> updated == child) &&
              (|histories| > 0 ==> updated.json == model.putHistories(child.json, histories))
    {
      var existingChild := Get(model.uniqueId(child.json)).value;
      var existingHistories := model.histories(existingChild.json);
      var histories := model.changeLogs(child.json, existingChild.json, existingHistories);
      updated := child;
      if |histories| > 0 {
        updated := updated.(json := model.putHistories(child.json, histories));
      }
    }

    /** `createOrUpdate`: history is merged only when a row with the child's id exists,
        the last-updated time is set, then `replace` writes every column; a reported row
        id that is not positive raises IllegalArgumentException and nothing is written. */
    method CreateOrUpdate(child: Child, timestamp: string, replaceResult: int)
      returns (saved: Child, outcome: Outcome)
      requires Valid()
      modifies this
      ensures Valid()
      ensures saved.synced == child.synced
      ensures var id := model.uniqueId(child.json);
              saved.json == model.setLastUpdatedAt(
                if HasId(old(rows), id) then WithHistory(model, child.json, old(Get(id)).value.json)
                else child.json,
                timestamp)
      ensures replaceResult > 0 ==> outcome == Pass && rows == Upsert(old(rows), ValuesFor(model, saved))
      ensures replaceResult > 0 ==> Get(model.uniqueId(saved.json)) == Ok(saved)
      ensures replaceResult <= 0 ==> outcome == Raise(IllegalArgument(replaceResult)) && rows == old(rows)
    {
      saved := child;
      if Exists(Some(model.uniqueId(child.json))) {
        saved := AddHistory(saved);
      }
      saved := saved.(json := model.setLastUpdatedAt(saved.json, timestamp));
      var values := ValuesFor(model, saved);
      if replaceResult > 0 {
        UpsertThenFind(rows, values);
        UpsertUnique(rows, values);
        rows := Upsert(rows, values);
        outcome := Pass;
      } else {
        outcome := Raise(IllegalArgument(replaceResult));
      }
    }

    /** `update`: the row with the child's id gets the new body, synced flag, internal id
        and revision; its owner and creation time, and all other rows, are unchanged; no
        row is added when the id is absent. */
    method Update(child: Child)
      requires Valid()
      modifies this
      ensures Valid()
      ensures rows == Patched(old(rows), model.uniqueId(child.json), child.json, child.synced,
                              model.optString(child.json, "_id"), model.optString(child.json, "_rev"))
      ensures |rows| == |old(rows)|
      ensures forall k :: 0 <= k < |rows| ==>
                rows[k].id == old(rows)[k].id && rows[k].owner == old(rows)[k].owner &&
                rows[k].createdAt == old(rows)[k].createdAt
      ensures HasId(rows, model.uniqueId(child.json)) ==> Get(model.uniqueId(child.json)) == Ok(child)
    {
      var id := model.uniqueId(child.json);
      var internalId := model.optString(child.json, "_id");
      var internalRev := model.optString(child.json, "_rev");
      PatchedThenFind(rows, id, child.json, child.synced, internalId, internalRev);
      rows := Patched(rows, id, child.json, child.synced, internalId, internalRev);
    }

    /** `toBeSynced`: the children of all unsynced rows. */
    method ToBeSynced() returns (children: seq<Child>)
      ensures children == Children(Where(rows, Unsynced()))
    {
      children := ToChildren(Where(rows, Unsynced()));
    }

    /** `currentUsersUnsyncedRecords`: the children of the current user's unsynced rows. */
    method CurrentUsersUnsyncedRecords() returns (children: seq<Child>)
      ensures children == Children(Where(rows, UnsyncedOwnedBy(userName)))
    {
      children := ToChildren(Where(rows, UnsyncedOwnedBy(userName)));
    }

    /** `getAllIdsAndRevs`: internal id to internal revision over the whole table. */
    method GetAllIdsAndRevs() returns (idRevs: map<string, string>)
      ensures idRevs == IdRevs(rows)
    {
      idRevs := map[];
      var i := 0;
      while i < |rows|
        invariant 0 <= i <= |rows|
        invariant idRevs == IdRevs(rows[..i])
      {
        assert rows[..i + 1][..i] == rows[..i];
        idRevs := idRevs[rows[i].internalId := rows[i].internalRev];
        i := i + 1;
      }
      assert rows[..i] == rows;
    }

    /** `getChildrenByIds`: one child per id, in order; the first missing id fails the
        whole batch with its NullPointerException. */
    method GetChildrenByIds(listOfIds: seq<string>) returns (r: Result<seq<Child>>)
      ensures r.Ok? <==> forall k :: 0 <= k < |listOfIds| ==> HasId(rows, listOfIds[k])
      ensures r.Ok? ==> |r.value| == |listOfIds| &&
                        forall k :: 0 <= k < |listOfIds| ==> Get(listOfIds[k]) == Ok(r.value[k])
      ensures r.Fail? ==> exists k :: 0 <= k < |listOfIds| && !HasId(rows, listOfIds[k]) &&
                                      (forall j :: 0 <= j < k ==> HasId(rows, listOfIds[j])) &&
                                      r.error == NullPointer(listOfIds[k])
    {
      var children := [];
      var i := 0;
      while i < |listOfIds|
        invariant 0 <= i <= |listOfIds|
        invariant |children| == i
        invariant forall k :: 0 <= k < i ==> HasId(rows, listOfIds[k]) && Get(listOfIds[k]) == Ok(children[k])
      {
        var child := Get(listOfIds[i]);
        if child.Fail? {
          return Fail(child.error);
        }
        children := children + [child.value];
        i := i + 1;
      }
      r := Ok(children);
    }

    /** `getAllWithInternalIds`: for each internal id, the child of the first row with it;
        ids no row has are skipped. */
    method GetAllWithInternalIds(internalIds: seq<string>) returns (children: seq<Child>)
      ensures children == WithInternalIds(rows, internalIds)
    {
      children := [];
      var i := 0;
      while i < |internalIds|
        invariant 0 <= i <= |internalIds|
        invariant children == WithInternalIds(rows, internalIds[..i])
      {
        assert internalIds[..i + 1][..i] == internalIds[..i];
        var cursor := Find(rows, InternalIdIs(internalIds[i]));
        if cursor.Some? {
          children := children + [ChildFrom(cursor.value)];
        }
        i := i + 1;
      }
      assert internalIds[..i] == internalIds;
    }
  }

  /** Deleting by owner keeps exactly the rows of other owners, in order, and leaves none
      of the owner's. */
  lemma DeleteLeavesOthers(rows: seq<Row>, userName: string)
    ensures forall r :: r in Where(rows, OwnerIsNot(userName)) <==> r in rows && r.owner != userName
    ensures Where(Where(rows, OwnerIsNot(userName)), OwnerIs(userName)) == []
  {
    WhereMembers(rows, OwnerIsNot(userName));
    var kept := Where(rows, OwnerIsNot(userName));
    WhereBound(kept, OwnerIs(userName));
    assert forall k :: 0 <= k < |kept| ==> kept[k] in kept;
  }

  /** `update` leaves a table without the id as it was; with the id, a lookup afterwards
      reads back the new body and flag. */
  lemma PatchedThenFind(rows: seq<Row>, id: string, json: string, synced: bool,
                        internalId: string, internalRev: string)
    requires UniqueIds(rows)
    ensures var after := Patched(rows, id, json, synced, internalId, internalRev);
            UniqueIds(after) &&
            (!HasId(rows, id) ==> after == rows) &&
            (HasId(rows, id) ==> Find(after, IdIs(id)).Some? &&
                                 ChildFrom(Find(after, IdIs(id)).value) == Child(json, synced))
  {
    var after := Patched(rows, id, json, synced, internalId, internalRev);
    if HasId(rows, id) {
      var k :| 0 <= k < |rows| && rows[k].id == id;
      assert after[k] in after;
      FindUnique(after, id, after[k]);
    }
  }

  /** The current user's unsynced records are the unsynced records the user owns. */
  lemma UnsyncedScoping(rows: seq<Row>, userName: string)
    ensures Where(Where(rows, Unsynced()), OwnerIs(userName)) == Where(rows, UnsyncedOwnedBy(userName))
  {
    WhereWhere(rows, Unsynced(), OwnerIs(userName), UnsyncedOwnedBy(userName));
  }

  /** Write then read: after a successful `replace` the written id reads back the written
      child, every other id reads back what it did before, and the table grew only if the
      id was new. */
  lemma WriteThenRead(rows: seq<Row>, model: ChildJson, saved: Child, other: string)
    requires UniqueIds(rows)
    ensures var row := ValuesFor(model, saved);
            var after := Upsert(rows, row);
            UniqueIds(after) &&
            HasId(after, row.id) &&
            Find(after, IdIs(row.id)).Some? && ChildFrom(Find(after, IdIs(row.id)).value) == saved &&
            (other != row.id ==> Find(after, IdIs(other)) == Find(rows, IdIs(other))) &&
            |after| == (if HasId(rows, row.id) then |rows| else |rows| + 1)
  {
    var row := ValuesFor(model, saved);
    UpsertThenFind(rows, row);
    UpsertUnique(rows, row);
    UpsertSize(rows, row);
    if other != row.id {
      UpsertKeepsOthers(rows, row, other);
    }
  }
}
