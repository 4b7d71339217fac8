/**
 * `MissionStage`: one stage of a mission, with its storable lifecycle, its
 * verified mission setter, bulk select and finder.  Its select builds the
 * IN list with an assignment where an append was meant, so the listed-ids
 * branch never prepares.
 */
module MissionStages {
  import opened Wrappers
  import opened Exceptions
  import opened Store
  import Sql
  import Storable

  /** The stored columns of a `Mission_Stages` row, apart from its key. */
  datatype MissionStageRow = MissionStageRow(missionID: Ref, name: Option<string>, body: Option<string>,
                                             status: Option<string>)

  /** The columns of `new MissionStage()`: all null. */
  const BlankRow := MissionStageRow(None, None, None, None)

  /** `objs` are the entities the fetch loop builds from the rows at `keys`, in that order. */
  ghost predicate Loaded(objs: seq<MissionStage>, rows: map<Key, MissionStageRow>, keys: seq<Key>)
    reads objs
  {
    && |objs| == |keys|
    && forall i :: 0 <= i < |objs| ==>
         && keys[i] in rows
         && objs[i].id == Some(keys[i])
         && objs[i].Row() == rows[keys[i]]
         && !objs[i].markForDelete
  }

  /** A select's answer for the keys it fetched: null for none, else one entity per key. */
  ghost predicate Fetched(r: Option<seq<MissionStage>>, rows: map<Key, MissionStageRow>, keys: seq<Key>)
    reads if r.Some? then r.value else []
  {
    && (r.None? <==> keys == [])
    && (r.Some? ==> Loaded(r.value, rows, keys))
  }

  /**
   * The IN-list builder as written: the list starts as `,?` and every pass
   * assigns `,?` again instead of appending, while the type string grows as
   * it should.  The list is `,?` for every count, which `prepare` refuses.
   */
  method BuildStageInList(n: nat) returns (q: string, types: string)
    requires n >= 1
    ensures q == ",?" && types == Sql.IntTypes(n)
    ensures !Sql.Prepares(q)
  {
    types := "i";
    q := ",?";
    var i := 0;
    while i < n - 1
      invariant 0 <= i <= n - 1
      invariant q == ",?"
      invariant types == "i" + Sql.Repeat("i", i)
    {
      Sql.RepeatSnoc("i", i);
      types := types + "i";
      q := ",?";
      i := i + 1;
    }
    Sql.LeadingCommaNeverPrepares(q);
  }

  /**
   * The builder differs from the shared one for every count but agrees on
   * the type string, which binds `n` values with the shared list: the
   * defect is in the placeholder list alone.
   */
  lemma StageListDiffersOnlyInPlaceholders(n: nat)
    requires n >= 1
    ensures ",?" != Sql.Placeholders(n)
    ensures Sql.Prepares(Sql.Placeholders(n)) && !Sql.Prepares(",?")
    ensures Sql.Binds(Sql.Placeholders(n), Sql.IntTypes(n), n)
  {
    Sql.PlaceholdersPrepare(n);
    Sql.LeadingCommaNeverPrepares(",?");
    Sql.IntTypesLetters(n);
  }

  class MissionStage {
    var id: Ref
    var missionID: Ref
    var name: Option<string>
    var body: Option<string>
    var status: Option<string>
    /** The pending-delete flag of the storable lifecycle. */
    var markForDelete: bool

    constructor (id: Ref, missionID: Ref, name: Option<string>, body: Option<string>, status: Option<string>)
      ensures this.id == id && Row() == MissionStageRow(missionID, name, body, status)
      ensures !markForDelete
    {
      this.id := id;
      this.missionID := missionID;
      this.name := name;
      this.body := body;
      this.status := status;
      markForDelete := false;
    }

    /** The columns this entity writes to its row. */
    function Row(): MissionStageRow
      reads this
    {
      MissionStageRow(missionID, name, body, status)
    }

    /** `eql`: the id, the mission, the name, the body and the status all agree. */
    predicate Eql(other: MissionStage)
      reads this, other
      ensures Eql(other) <==> id == other.id && Row() == other.Row()
    {
      && id == other.id
      && missionID == other.missionID
      && name == other.name
      && body == other.body
      && status == other.status
    }

    /** What `eql(new MissionStage())` decides: no id and every column null. */
    predicate IsBlank()
      reads this
    {
      id.None? && Row() == BlankRow
    }

    /** `create`: refuses a blank entity before touching the store, otherwise inserts its row. */
    method Create(t: Table<MissionStageRow>) returns (o: Outcome)
      requires t.Valid()
      modifies t
      ensures t.Valid()
      ensures o == if IsBlank() then Fail(BlankObject) else Pass
      ensures o.Fail? ==> t.rows == old(t.rows) && t.lastInsertID == old(t.lastInsertID)
      ensures o.Pass? ==> && t.lastInsertID.Some? && t.lastInsertID.value !in old(t.rows)
                          && t.rows == old(t.rows)[t.lastInsertID.value := Row()]
    {
      var blank := new MissionStage(None, None, None, None, None);
      if Eql(blank) {
        o := Fail(BlankObject);
      } else {
        var key := t.Insert(Row());
        o := Pass;
      }
    }

    /** `update`: refuses a blank entity, otherwise overwrites the row with this id, if there is one. */
    method Update(t: Table<MissionStageRow>) returns (o: Outcome)
      requires t.Valid()
      modifies t`rows
      ensures t.Valid()
      ensures o == if IsBlank() then Fail(BlankObject) else Pass
      ensures t.rows == if o.Pass? && id.Some? && id.value in old(t.rows) then old(t.rows)[id.value := Row()] else old(t.rows)
    {
      var blank := new MissionStage(None, None, None, None, None);
      if Eql(blank) {
        o := Fail(BlankObject);
      } else {
        t.UpdateWhere(id, Row());
        o := Pass;
      }
    }

    /** `delete`: removes the row with this id and clears the id. */
    method Delete(t: Table<MissionStageRow>)
      requires t.Valid()
      modifies this`id, t`rows
      ensures t.Valid()
      ensures id == None
      ensures t.rows == if old(id).Some? then old(t.rows) - {old(id).value} else old(t.rows)
    {
      t.DeleteWhere(id);
      id := None;
    }

    /** `toggleDelete`: flips the pending-delete flag and nothing else. */
    method ToggleDelete()
      modifies this`markForDelete
      ensures markForDelete == !old(markForDelete)
    {
      if markForDelete {
        markForDelete := false;
      } else {
        markForDelete := true;
      }
    }

    /** `commit`: dispatches on the flag and the id; after an insert the id is the store's new key. */
    method Commit(t: Table<MissionStageRow>) returns (o: Outcome)
      requires t.Valid()
      modifies this`id, t
      ensures t.Valid()
      ensures markForDelete == old(markForDelete) && Row() == old(Row())
      ensures Storable.Committed(markForDelete, old(id), Row(), old(IsBlank()), old(t.rows), o, id, t.rows)
    {
      match Storable.Dispatch(markForDelete, id)
      case Delete =>
        Delete(t);
        o := Pass;
      case Update =>
        o := Update(t);
      case Insert =>
        o := Create(t);
        if o.Pass? {
          id := t.lastInsertID;
        }
      case Skip =>
        o := Pass;
    }

    /** `setMissionID`: with `verify`, only an existing mission is accepted; otherwise any value. */
    method SetMissionID(missionID: Ref, verify: bool, missionExists: Ref -> bool) returns (o: Outcome)
      modifies this`missionID
      ensures o == if verify && !missionExists(missionID) then Fail(InvalidMission) else Pass
      ensures this.missionID == if o.Pass? then missionID else old(this.missionID)
    {
      if verify {
        if missionExists(missionID) {
          this.missionID := missionID;
          o := Pass;
        } else {
          o := Fail(InvalidMission);
        }
      } else {
        this.missionID := missionID;
        o := Pass;
      }
    }

    /** One fetched row as a new entity: a fresh instance given the row's id and columns. */
    static method FromRow(k: Key, row: MissionStageRow) returns (x: MissionStage)
      ensures fresh(x) && x.id == Some(k) && x.Row() == row && !x.markForDelete
    {
      x := new MissionStage(Some(k), row.missionID, row.name, row.body, row.status);
    }

    /** The `while fetch` loop: one newly constructed entity per fetched key, carrying that row's id and columns. */
    static method FetchAll(t: Table<MissionStageRow>, keys: seq<Key>) returns (objs: seq<MissionStage>)
      requires forall k :: k in keys ==> k in t.rows
      ensures Loaded(objs, t.rows, keys)
      ensures forall i :: 0 <= i < |objs| ==> fresh(objs[i])
    {
      objs := [];
      var i := 0;
      while i < |keys|
        invariant 0 <= i <= |keys|
        invariant Loaded(objs, t.rows, keys[..i])
        invariant forall j :: 0 <= j < |objs| ==> fresh(objs[j])
      {
        var x := FromRow(keys[i], t.rows[keys[i]]);
        objs := objs + [x];
        i := i + 1;
      }
      assert keys[..i] == keys;
    }

    /**
     * `select(ids)`: a non-array argument gives null; a non-empty list always
     * throws QueryStatementException, because its IN list does not prepare;
     * the empty list fetches every row, or gives null when there is none.
     */
    static method Select(t: Table<MissionStageRow>, ids: Option<seq<int>>) returns (r: Result<Option<seq<MissionStage>>>)
      requires t.Valid()
      ensures r.Ok? && r.value.Some? ==> forall i :: 0 <= i < |r.value.value| ==> fresh(r.value.value[i])
      ensures ids.None? ==> r == Ok(None)
      ensures ids.Some? && ids.value != [] ==> r == Err(QueryStatement)
      ensures ids == Some([]) ==> r.Ok? && Fetched(r.value, t.rows, t.AllKeys())
    {
      if ids.Some? && |ids.value| > 0 {
        var q, types := BuildStageInList(|ids.value|);
        var prepared := t.SelectIn(q, types, ids.value);
        r := Err(prepared.error);
      } else if ids.Some? {
        var keys := t.AllKeys();
        var objs := FetchAll(t, keys);
        r := Ok(if |objs| > 0 then Some(objs) else None);
      } else {
        r := Ok(None);
      }
    }

    /** `getByMissionID`: null when the mission has no stage, otherwise exactly the ids of its stages. */
    static method GetByMissionID(t: Table<MissionStageRow>, missionID: Ref) returns (r: Option<seq<Key>>)
      requires t.Valid()
      ensures r.None? <==> forall k :: k in t.rows ==> !Sql.SqlEq(t.rows[k].missionID, missionID)
      ensures r.Some? ==> forall k :: k in r.value <==> k in t.rows && Sql.SqlEq(t.rows[k].missionID, missionID)
    {
      r := t.FindWhere((k: Key, row: MissionStageRow) => Sql.SqlEq(row.missionID, missionID));
    }
  }

  /**
   * Where the round trip breaks: committing a non-blank `MissionStage` whose
   * flag is clear stores its row under its id, yet `select([id])` throws
   * QueryStatementException, because its IN list never prepares.
   */
  method CommitThenSelect(x: MissionStage, t: Table<MissionStageRow>) returns (o: Outcome, r: Result<Option<seq<MissionStage>>>)
    requires t.Valid() && !x.markForDelete && !x.IsBlank()
    modifies x`id, t
    ensures o == Pass && x.id.Some?
    ensures old(x.id).None? || old(x.id).value in old(t.rows) ==> x.id.value in t.rows && t.rows[x.id.value] == x.Row()
    ensures old(x.id).Some? && old(x.id).value !in old(t.rows) ==> x.id.value !in t.rows
    ensures r == Err(QueryStatement)
  {
    o := x.Commit(t);
    r := MissionStage.Select(t, Some([x.id.value]));
  }
}
