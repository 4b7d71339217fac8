/**
 * `MissionUserView`: a user's role on a mission, with its storable
 * lifecycle, its verified setters, its bulk select and its two finders,
 * whose fetch loops collect something other than the ids.
 */
module MissionUserViews {
  import opened Wrappers
  import opened Exceptions
  import opened Store
  import Sql
  import Storable

  /** The stored columns of a `Mission_User_Views` row, apart from its key. */
  datatype MissionUserViewRow = MissionUserViewRow(userID: Ref, missionID: Ref, role: Option<string>)

  /** The columns of `new MissionUserView()`: all null. */
  const BlankRow := MissionUserViewRow(None, None, None)

  /**
   * The PHP values the finders' `$input` array can hold: an integer id, or
   * an array of values.
   */
  datatype PhpValue = Int(i: int) | Array(items: seq<PhpValue>)

  /** `objs` are the entities the fetch loop builds from the rows at `keys`, in that order. */
  ghost predicate Loaded(objs: seq<MissionUserView>, rows: map<Key, MissionUserViewRow>, keys: seq<Key>)
    reads objs
  {
    && |objs| == |keys|
    && forall i :: 0 <= i < |objs| ==>
         && keys[i] in rows
         && objs[i].id == Some(keys[i])
         && objs[i].Row() == rows[keys[i]]
         && !objs[i].markForDelete
  }

  /** A select's answer for the keys it fetched: null for none, else one entity per key. */
  ghost predicate Fetched(r: Option<seq<MissionUserView>>, rows: map<Key, MissionUserViewRow>, keys: seq<Key>)
    reads if r.Some? then r.value else []
  {
    && (r.None? <==> keys == [])
    && (r.Some? ==> Loaded(r.value, rows, keys))
  }

  /** `WHERE UserID = ?` */
  function ByUser(userID: Ref): (Key, MissionUserViewRow) -> bool
  {
    (k: Key, row: MissionUserViewRow) => Sql.SqlEq(row.userID, userID)
  }

  /** `WHERE MissionID = ?` */
  function ByMission(missionID: Ref): (Key, MissionUserViewRow) -> bool
  {
    (k: Key, row: MissionUserViewRow) => Sql.SqlEq(row.missionID, missionID)
  }

  /**
   * The finders' fetch loop as written: each fetched row appends the array
   * `$input` itself, as it stands, instead of the fetched id.  The result has
   * one entry per fetched row, and entry `i` is the array of the `i` entries
   * before it, so no entry is an id.
   */
  method CollectInput(fetched: seq<Key>) returns (input: seq<PhpValue>)
    ensures |input| == |fetched|
    ensures forall i :: 0 <= i < |input| ==> input[i] == Array(input[..i])
    ensures forall i :: 0 <= i < |input| ==> !input[i].Int?
  {
    input := [];
    var i := 0;
    while i < |fetched|
      invariant 0 <= i <= |fetched|
      invariant |input| == i
      invariant forall j :: 0 <= j < i ==> input[j] == Array(input[..j])
    {
      var input' := input + [Array(input)];
      assert forall j :: 0 <= j < i ==> input'[..j] == input[..j];
      assert input'[..i] == input;
      input := input';
      i := i + 1;
    }
  }

  class MissionUserView {
    var id: Ref
    var userID: Ref
    var missionID: Ref
    var role: Option<string>
    /** The pending-delete flag of the storable lifecycle. */
    var markForDelete: bool

    constructor (id: Ref, userID: Ref, missionID: Ref, role: Option<string>)
      ensures this.id == id && Row() == MissionUserViewRow(userID, missionID, role)
      ensures !markForDelete
    {
      this.id := id;
      this.userID := userID;
      this.missionID := missionID;
      this.role := role;
      markForDelete := false;
    }

    /** The columns this entity writes to its row. */
    function Row(): MissionUserViewRow
      reads this
    {
      MissionUserViewRow(userID, missionID, role)
    }

    /** `eql`: the id, the user, the mission and the role all agree. */
    predicate Eql(other: MissionUserView)
      reads this, other
      ensures Eql(other) <==> id == other.id && Row() == other.Row()
    {
      id == other.id && userID == other.userID && missionID == other.missionID && role == other.role
    }

    /** What `eql(new MissionUserView())` decides: no id and every column null. */
    predicate IsBlank()
      reads this
    {
      id.None? && Row() == BlankRow
    }

    /** `create`: refuses a blank entity before touching the store, otherwise inserts its row. */
    method Create(t: Table<MissionUserViewRow>) returns (o: Outcome)
      requires t.Valid()
      modifies t
      ensures t.Valid()
      ensures o == if IsBlank() then Fail(BlankObject) else Pass
      ensures o.Fail? ==> t.rows == old(t.rows) && t.lastInsertID == old(t.lastInsertID)
      ensures o.Pass? ==> && t.lastInsertID.Some? && t.lastInsertID.value !in old(t.rows)
                          && t.rows == old(t.rows)[t.lastInsertID.value := Row()]
    {
      var blank := new MissionUserView(None, None, None, None);
      if Eql(blank) {
        o := Fail(BlankObject);
      } else {
        var key := t.Insert(Row());
        o := Pass;
      }
    }

    /** `update`: refuses a blank entity, otherwise overwrites the row with this id, if there is one. */
    method Update(t: Table<MissionUserViewRow>) returns (o: Outcome)
      requires t.Valid()
      modifies t`rows
      ensures t.Valid()
      ensures o == if IsBlank() then Fail(BlankObject) else Pass
      ensures t.rows == if o.Pass? && id.Some? && id.value in old(t.rows) then old(t.rows)[id.value := Row()] else old(t.rows)
    {
      var blank := new MissionUserView(None, None, None, None);
      if Eql(blank) {
        o := Fail(BlankObject);
      } else {
        t.UpdateWhere(id, Row());
        o := Pass;
      }
    }

    /** `delete`: removes the row with this id and clears the id. */
    method Delete(t: Table<MissionUserViewRow>)
      requires t.Valid()
      modifies this`id, t`rows
      ensures t.Valid()
      ensures id == None
      ensures t.rows == if old(id).Some? then old(t.rows) - {old(id).value} else old(t.rows)
    {
      t.DeleteWhere(id);
      id := None;
    }

    /** `toggleDelete`: flips the pending-delete flag and nothing else. */
    method ToggleDelete()
      modifies this`markForDelete
      ensures markForDelete == !old(markForDelete)
    {
      if markForDelete {
        markForDelete := false;
      } else {
        markForDelete := true;
      }
    }

    /** `commit`: dispatches on the flag and the id; after an insert the id is the store's new key. */
    method Commit(t: Table<MissionUserViewRow>) returns (o: Outcome)
      requires t.Valid()
      modifies this`id, t
      ensures t.Valid()
      ensures markForDelete == old(markForDelete) && Row() == old(Row())
      ensures Storable.Committed(markForDelete, old(id), Row(), old(IsBlank()), old(t.rows), o, id, t.rows)
    {
      match Storable.Dispatch(markForDelete, id)
      case Delete =>
        Delete(t);
        o := Pass;
      case Update =>
        o := Update(t);
      case Insert =>
        o := Create(t);
        if o.Pass? {
          id := t.lastInsertID;
        }
      case Skip =>
        o := Pass;
    }

    /** `setUserID`: with `verify`, only an existing user is accepted; otherwise any value. */
    method SetUserID(userID: Ref, verify: bool, userExists: Ref -> bool) returns (o: Outcome)
      modifies this`userID
      ensures o == if verify && !userExists(userID) then Fail(InvalidUser) else Pass
      ensures this.userID == if o.Pass? then userID else old(this.userID)
    {
      if verify {
        if userExists(userID) {
          this.userID := userID;
          o := Pass;
        } else {
          o := Fail(InvalidUser);
        }
      } else {
        this.userID := userID;
        o := Pass;
      }
    }

    /** `setMissionID`: with `verify`, only an existing mission is accepted; otherwise any value. */
    method SetMissionID(missionID: Ref, verify: bool, missionExists: Ref -> bool) returns (o: Outcome)
      modifies this`missionID
      ensures o == if verify && !missionExists(missionID) then Fail(InvalidMission) else Pass
      ensures this.missionID == if o.Pass? then missionID else old(this.missionID)
    {
      if verify {
        if missionExists(missionID) {
          this.missionID := missionID;
          o := Pass;
        } else {
          o := Fail(InvalidMission);
        }
      } else {
        this.missionID := missionID;
        o := Pass;
      }
    }

    /** One fetched row as a new entity: a fresh instance given the row's id and columns. */
    static method FromRow(k: Key, row: MissionUserViewRow) returns (x: MissionUserView)
      ensures fresh(x) && x.id == Some(k) && x.Row() == row && !x.markForDelete
    {
      x := new MissionUserView(Some(k), row.userID, row.missionID, row.role);
    }

    /** The fetch loop of the listed-ids branch: all four columns are bound and copied. */
    static method FetchAll(t: Table<MissionUserViewRow>, keys: seq<Key>) returns (objs: seq<MissionUserView>)
      requires forall k :: k in keys ==> k in t.rows
      ensures Loaded(objs, t.rows, keys)
      ensures forall i :: 0 <= i < |objs| ==> fresh(objs[i])
    {
      objs := [];
      var i := 0;
      while i < |keys|
        invariant 0 <= i <= |keys|
        invariant Loaded(objs, t.rows, keys[..i])
        invariant forall j :: 0 <= j < |objs| ==> fresh(objs[j])
      {
        var x := FromRow(keys[i], t.rows[keys[i]]);
        objs := objs + [x];
        i := i + 1;
      }
      assert keys[..i] == keys;
    }

    /**
     * `select(ids)`: a non-array argument gives null; a non-empty list
     * fetches the rows whose key is listed, or gives null when none is
     * stored.  The empty list selects four columns but hands `bind_result`
     * only three variables, which mysqli refuses before any row is fetched.
     */
    static method Select(t: Table<MissionUserViewRow>, ids: Option<seq<int>>) returns (r: Result<Option<seq<MissionUserView>>>)
      requires t.Valid()
      ensures r.Ok? && r.value.Some? ==> forall i :: 0 <= i < |r.value.value| ==> fresh(r.value.value[i])
      ensures ids.None? ==> r == Ok(None)
      ensures ids.Some? && ids.value != [] ==> r.Ok? && Fetched(r.value, t.rows, t.KeysIn(ids.value))
      ensures ids == Some([]) ==> r == Err(BindMismatch)
    {
      if ids.Some? && |ids.value| > 0 {
        var q, types := Sql.BuildInList(|ids.value|);
        var keys := t.SelectIn(q, types, ids.value).value;
        var objs := FetchAll(t, keys);
        r := Ok(if |objs| > 0 then Some(objs) else None);
      } else if ids.Some? {
        // four columns selected, three result variables bound: `bind_result` refuses
        r := Err(BindMismatch);
      } else {
        r := Ok(None);
      }
    }

    /**
     * `getByUserID`: null when the user has no view; otherwise what is
     * handed to `get` has one entry per view of the user, and none of those
     * entries is a view id.
     */
    static method GetByUserID(t: Table<MissionUserViewRow>, userID: Ref) returns (r: Option<seq<PhpValue>>)
      requires t.Valid()
      ensures r.None? <==> forall k :: k in t.rows ==> !Sql.SqlEq(t.rows[k].userID, userID)
      ensures r.Some? ==> |r.value| == |t.KeysWhere(ByUser(userID))|
      ensures r.Some? ==> forall i :: 0 <= i < |r.value| ==> !r.value[i].Int?
    {
      var fetched := t.KeysWhere(ByUser(userID));
      var input := CollectInput(fetched);
      if |input| > 0 {
        assert fetched[0] in fetched;
        r := Some(input);
      } else {
        r := None;
      }
    }

    /**
     * `getByMissionID`: null when the mission has no view; otherwise what is
     * handed to `get` has one entry per view of the mission, and none of
     * those entries is a view id.
     */
    static method GetByMissionID(t: Table<MissionUserViewRow>, missionID: Ref) returns (r: Option<seq<PhpValue>>)
      requires t.Valid()
      ensures r.None? <==> forall k :: k in t.rows ==> !Sql.SqlEq(t.rows[k].missionID, missionID)
      ensures r.Some? ==> |r.value| == |t.KeysWhere(ByMission(missionID))|
      ensures r.Some? ==> forall i :: 0 <= i < |r.value| ==> !r.value[i].Int?
    {
      var fetched := t.KeysWhere(ByMission(missionID));
      var input := CollectInput(fetched);
      if |input| > 0 {
        assert fetched[0] in fetched;
        r := Some(input);
      } else {
        r := None;
      }
    }
  }

  /**
   * The data layer's round trip: committing a non-blank `MissionUserView` whose
   * flag is clear stores its row under its id, and `select([id])` then gives
   * exactly one new entity equal to it.  An update of an id whose row has
   * gone stores nothing, so the select then finds nothing.
   */
  method CommitThenSelect(x: MissionUserView, t: Table<MissionUserViewRow>) returns (o: Outcome, r: Result<Option<seq<MissionUserView>>>)
    requires t.Valid() && !x.markForDelete && !x.IsBlank()
    modifies x`id, t
    ensures o == Pass && x.id.Some?
    ensures old(x.id).None? || old(x.id).value in old(t.rows) ==> x.id.value in t.rows && t.rows[x.id.value] == x.Row()
    ensures old(x.id).Some? && old(x.id).value !in old(t.rows) ==> x.id.value !in t.rows
    ensures old(x.id).None? || old(x.id).value in old(t.rows) ==>
              && r.Ok? && r.value.Some? && |r.value.value| == 1
              && fresh(r.value.value[0]) && r.value.value[0].Eql(x)
    ensures old(x.id).Some? && old(x.id).value !in old(t.rows) ==> r == Ok(None)
  {
    o := x.Commit(t);
    var k := x.id.value;
    t.KeysInOne(k);
    r := MissionUserView.Select(t, Some([k]));
  }

  /**
   * The other half of the round trip: after a delete-commit of a
   * `MissionUserView` with an id, the row at that id is gone and `select([old id])`
   * finds nothing.
   */
  method DeleteThenSelect(x: MissionUserView, t: Table<MissionUserViewRow>) returns (o: Outcome, r: Result<Option<seq<MissionUserView>>>)
    requires t.Valid() && x.markForDelete && x.id.Some?
    modifies x`id, t
    ensures o == Pass && x.id == None && old(x.id).value !in t.rows
    ensures r == Ok(None)
  {
    var k := x.id.value;
    o := x.Commit(t);
    t.KeysInOne(k);
    r := MissionUserView.Select(t, Some([k]));
  }
}
