/**
 * `UserMission`: a user's enrolment on a mission, with its storable
 * lifecycle, its unverified setters, bulk select and finders.  Its select
 * runs the IN-list loop once too often, so the listed-ids branch prepares a
 * statement with one placeholder more than it binds.
 */
module UserMissions {
  import opened Wrappers
  import opened Exceptions
  import opened Store
  import Sql
  import Storable

  /** The stored columns of a `User_Missions` row, apart from its key. */
  datatype UserMissionRow = UserMissionRow(userID: Ref, missionID: Ref)

  /** The columns of `new UserMission()`: both null. */
  const BlankRow := UserMissionRow(None, None)

  /** `objs` are the entities the fetch loop builds from the rows at `keys`, in that order. */
  ghost predicate Loaded(objs: seq<UserMission>, rows: map<Key, UserMissionRow>, keys: seq<Key>)
    reads objs
  {
    && |objs| == |keys|
    && forall i :: 0 <= i < |objs| ==>
         && keys[i] in rows
         && objs[i].id == Some(keys[i])
         && objs[i].Row() == rows[keys[i]]
         && !objs[i].markForDelete
  }

  /** A select's answer for the keys it fetched: null for none, else one entity per key. */
  ghost predicate Fetched(r: Option<seq<UserMission>>, rows: map<Key, UserMissionRow>, keys: seq<Key>)
    reads if r.Some? then r.value else []
  {
    && (r.None? <==> keys == [])
    && (r.Some? ==> Loaded(r.value, rows, keys))
  }

  /**
   * The IN-list builder as written: it starts from `?` and `i` like the
   * shared one, but its loop runs once per id instead of once per further
   * id, so `n` ids get `n + 1` placeholders and `n + 1` type letters.  The
   * list prepares, but it never binds the `n` values.
   */
  method BuildMissionInList(n: nat) returns (q: string, types: string)
    requires n >= 1
    ensures q == Sql.Placeholders(n + 1) && types == Sql.IntTypes(n + 1)
    ensures Sql.Prepares(q) && !Sql.Binds(q, types, n)
  {
    types := "i";
    q := "?";
    var i := 0;
    while i < n
      invariant 0 <= i <= n
      invariant q == "?" + Sql.Repeat(",?", i)
      invariant types == "i" + Sql.Repeat("i", i)
    {
      Sql.RepeatSnoc(",?", i);
      Sql.RepeatSnoc("i", i);
      types := types + "i";
      q := q + ",?";
      i := i + 1;
    }
    Sql.PlaceholdersPrepare(n + 1);
    Sql.PlaceholdersInjective(n + 1, n);
  }

  class UserMission {
    var id: Ref
    var userID: Ref
    var missionID: Ref
    /** The pending-delete flag of the storable lifecycle. */
    var markForDelete: bool

    constructor (id: Ref, userID: Ref, missionID: Ref)
      ensures this.id == id && Row() == UserMissionRow(userID, missionID)
      ensures !markForDelete
    {
      this.id := id;
      this.userID := userID;
      this.missionID := missionID;
      markForDelete := false;
    }

    /** The columns this entity writes to its row. */
    function Row(): UserMissionRow
      reads this
    {
      UserMissionRow(userID, missionID)
    }

    /** `eql`: the id, the user and the mission all agree. */
    predicate Eql(other: UserMission)
      reads this, other
      ensures Eql(other) <==> id == other.id && Row() == other.Row()
    {
      id == other.id && userID == other.userID && missionID == other.missionID
    }

    /** What `eql(new UserMission())` decides: no id, no user, no mission. */
    predicate IsBlank()
      reads this
    {
      id.None? && Row() == BlankRow
    }

    /** `create`: refuses a blank entity before touching the store, otherwise inserts its row. */
    method Create(t: Table<UserMissionRow>) returns (o: Outcome)
      requires t.Valid()
      modifies t
      ensures t.Valid()
      ensures o == if IsBlank() then Fail(BlankObject) else Pass
      ensures o.Fail? ==> t.rows == old(t.rows) && t.lastInsertID == old(t.lastInsertID)
      ensures o.Pass? ==> && t.lastInsertID.Some? && t.lastInsertID.value !in old(t.rows)
                          && t.rows == old(t.rows)[t.lastInsertID.value := Row()]
    {
      var blank := new UserMission(None, None, None);
      if Eql(blank) {
        o := Fail(BlankObject);
      } else {
        var key := t.Insert(Row());
        o := Pass;
      }
    }

    /** `update`: refuses a blank entity, otherwise overwrites the row with this id, if there is one. */
    method Update(t: Table<UserMissionRow>) returns (o: Outcome)
      requires t.Valid()
      modifies t`rows
      ensures t.Valid()
      ensures o == if IsBlank() then Fail(BlankObject) else Pass
      ensures t.rows == if o.Pass? && id.Some? && id.value in old(t.rows) then old(t.rows)[id.value := Row()] else old(t.rows)
    {
      var blank := new UserMission(None, None, None);
      if Eql(blank) {
        o := Fail(BlankObject);
      } else {
        t.UpdateWhere(id, Row());
        o := Pass;
      }
    }

    /** `delete`: removes the row with this id and clears the id. */
    method Delete(t: Table<UserMissionRow>)
      requires t.Valid()
      modifies this`id, t`rows
      ensures t.Valid()
      ensures id == None
      ensures t.rows == if old(id).Some? then old(t.rows) - {old(id).value} else old(t.rows)
    {
      t.DeleteWhere(id);
      id := None;
    }

    /** `toggleDelete`: flips the pending-delete flag and nothing else. */
    method ToggleDelete()
      modifies this`markForDelete
      ensures markForDelete == !old(markForDelete)
    {
      if markForDelete {
        markForDelete := false;
      } else {
        markForDelete := true;
      }
    }

    /** `commit`: dispatches on the flag and the id; after an insert the id is the store's new key. */
    method Commit(t: Table<UserMissionRow>) returns (o: Outcome)
      requires t.Valid()
      modifies this`id, t
      ensures t.Valid()
      ensures markForDelete == old(markForDelete) && Row() == old(Row())
      ensures Storable.Committed(markForDelete, old(id), Row(), old(IsBlank()), old(t.rows), o, id, t.rows)
    {
      match Storable.Dispatch(markForDelete, id)
      case Delete =>
        Delete(t);
        o := Pass;
      case Update =>
        o := Update(t);
      case Insert =>
        o := Create(t);
        if o.Pass? {
          id := t.lastInsertID;
        }
      case Skip =>
        o := Pass;
    }

    /** `setUserID`: no check at all; the user is stored as given. */
    method SetUserID(userID: Ref)
      modifies this`userID
      ensures this.userID == userID
    {
      this.userID := userID;
    }

    /** `setMissionID`: no check at all; the mission is stored as given. */
    method SetMissionID(missionID: Ref)
      modifies this`missionID
      ensures this.missionID == missionID
    {
      this.missionID := missionID;
    }

    /** One fetched row as a new entity: a fresh instance given the row's id and columns. */
    static method FromRow(k: Key, row: UserMissionRow) returns (x: UserMission)
      ensures fresh(x) && x.id == Some(k) && x.Row() == row && !x.markForDelete
    {
      x := new UserMission(Some(k), row.userID, row.missionID);
    }

    /** The `while fetch` loop: one newly constructed entity per fetched key, carrying that row's id and columns. */
    static method FetchAll(t: Table<UserMissionRow>, keys: seq<Key>) returns (objs: seq<UserMission>)
      requires forall k :: k in keys ==> k in t.rows
      ensures Loaded(objs, t.rows, keys)
      ensures forall i :: 0 <= i < |objs| ==> fresh(objs[i])
    {
      objs := [];
      var i := 0;
      while i < |keys|
        invariant 0 <= i <= |keys|
        invariant Loaded(objs, t.rows, keys[..i])
        invariant forall j :: 0 <= j < |objs| ==> fresh(objs[j])
      {
        var x := FromRow(keys[i], t.rows[keys[i]]);
        objs := objs + [x];
        i := i + 1;
      }
      assert keys[..i] == keys;
    }

    /**
     * `select(ids)`: a non-array argument gives null; a non-empty list always
     * fails at `bind_param`, because the statement it prepares has one
     * placeholder more than there are ids; the empty list fetches every row,
     * or gives null when there is none.
     */
    static method Select(t: Table<UserMissionRow>, ids: Option<seq<int>>) returns (r: Result<Option<seq<UserMission>>>)
      requires t.Valid()
      ensures r.Ok? && r.value.Some? ==> forall i :: 0 <= i < |r.value.value| ==> fresh(r.value.value[i])
      ensures ids.None? ==> r == Ok(None)
      ensures ids.Some? && ids.value != [] ==> r == Err(BindMismatch)
      ensures ids == Some([]) ==> r.Ok? && Fetched(r.value, t.rows, t.AllKeys())
    {
      if ids.Some? && |ids.value| > 0 {
        var q, types := BuildMissionInList(|ids.value|);
        var bound := t.SelectIn(q, types, ids.value);
        r := Err(bound.error);
      } else if ids.Some? {
        var keys := t.AllKeys();
        var objs := FetchAll(t, keys);
        r := Ok(if |objs| > 0 then Some(objs) else None);
      } else {
        r := Ok(None);
      }
    }

    /** `getByUserID`: null when the user is on no mission, otherwise exactly the ids of their rows. */
    static method GetByUserID(t: Table<UserMissionRow>, userID: Ref) returns (r: Option<seq<Key>>)
      requires t.Valid()
      ensures r.None? <==> forall k :: k in t.rows ==> !Sql.SqlEq(t.rows[k].userID, userID)
      ensures r.Some? ==> forall k :: k in r.value <==> k in t.rows && Sql.SqlEq(t.rows[k].userID, userID)
    {
      r := t.FindWhere((k: Key, row: UserMissionRow) => Sql.SqlEq(row.userID, userID));
    }

    /** `getByMissionID`: null when nobody is on the mission, otherwise exactly the ids of its rows. */
    static method GetByMissionID(t: Table<UserMissionRow>, missionID: Ref) returns (r: Option<seq<Key>>)
      requires t.Valid()
      ensures r.None? <==> forall k :: k in t.rows ==> !Sql.SqlEq(t.rows[k].missionID, missionID)
      ensures r.Some? ==> forall k :: k in r.value <==> k in t.rows && Sql.SqlEq(t.rows[k].missionID, missionID)
    {
      r := t.FindWhere((k: Key, row: UserMissionRow) => Sql.SqlEq(row.missionID, missionID));
    }
  }

  /**
   * Where the round trip breaks: committing a non-blank `UserMission` whose
   * flag is clear stores its row under its id, yet `select([id])` fails to
   * bind, because its IN list has one placeholder more than there are ids.
   */
  method CommitThenSelect(x: UserMission, t: Table<UserMissionRow>) returns (o: Outcome, r: Result<Option<seq<UserMission>>>)
    requires t.Valid() && !x.markForDelete && !x.IsBlank()
    modifies x`id, t
    ensures o == Pass && x.id.Some?
    ensures old(x.id).None? || old(x.id).value in old(t.rows) ==> x.id.value in t.rows && t.rows[x.id.value] == x.Row()
    ensures old(x.id).Some? && old(x.id).value !in old(t.rows) ==> x.id.value !in t.rows
    ensures r == Err(BindMismatch)
  {
    o := x.Commit(t);
    r := UserMission.Select(t, Some([x.id.value]));
  }
}
