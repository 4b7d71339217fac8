/**
 * `UserRank`: the assignment of a rank to a user, with its storable
 * lifecycle, its verified setters, bulk select and finders.
 */
module UserRanks {
  import opened Wrappers
  import opened Exceptions
  import opened Store
  import Sql
  import Storable

  /** The stored columns of a `User_Ranks` row, apart from its key. */
  datatype UserRankRow = UserRankRow(userID: Ref, rankID: Ref)

  /** The columns of `new UserRank()`: both null. */
  const BlankRow := UserRankRow(None, None)

  /** `objs` are the entities the fetch loop builds from the rows at `keys`, in that order. */
  ghost predicate Loaded(objs: seq<UserRank>, rows: map<Key, UserRankRow>, keys: seq<Key>)
    reads objs
  {
    && |objs| == |keys|
    && forall i :: 0 <= i < |objs| ==>
         && keys[i] in rows
         && objs[i].id == Some(keys[i])
         && objs[i].Row() == rows[keys[i]]
         && !objs[i].markForDelete
  }

  /** A select's answer for the keys it fetched: null for none, else one entity per key. */
  ghost predicate Fetched(r: Option<seq<UserRank>>, rows: map<Key, UserRankRow>, keys: seq<Key>)
    reads if r.Some? then r.value else []
  {
    && (r.None? <==> keys == [])
    && (r.Some? ==> Loaded(r.value, rows, keys))
  }

  class UserRank {
    var id: Ref
    var userID: Ref
    var rankID: Ref
    /** The pending-delete flag of the storable lifecycle. */
    var markForDelete: bool

    /**
     * The constructor accepts an id, a user and a rank but stores none of
     * them: every constructed user rank is blank, whatever it was given.
     */
    constructor (id: Ref, userID: Ref, rankID: Ref)
      ensures IsBlank()
      ensures !markForDelete
    {
      this.id := None;
      this.userID := None;
      this.rankID := None;
      markForDelete := false;
    }

    /** The columns this entity writes to its row. */
    function Row(): UserRankRow
      reads this
    {
      UserRankRow(userID, rankID)
    }

    /**
     * `eql`: the class test only checks that both class names are non-empty,
     * so what decides is the id, the user and the rank.
     */
    predicate Eql(other: UserRank)
      reads this, other
      ensures Eql(other) <==> id == other.id && Row() == other.Row()
    {
      id == other.id && userID == other.userID && rankID == other.rankID
    }

    /** What `eql(new UserRank())` decides: no id, no user, no rank. */
    predicate IsBlank()
      reads this
    {
      id.None? && Row() == BlankRow
    }

    /** `create`: refuses a blank entity before touching the store, otherwise inserts its row. */
    method Create(t: Table<UserRankRow>) returns (o: Outcome)
      requires t.Valid()
      modifies t
      ensures t.Valid()
      ensures o == if IsBlank() then Fail(BlankObject) else Pass
      ensures o.Fail? ==> t.rows == old(t.rows) && t.lastInsertID == old(t.lastInsertID)
      ensures o.Pass? ==> && t.lastInsertID.Some? && t.lastInsertID.value !in old(t.rows)
                          && t.rows == old(t.rows)[t.lastInsertID.value := Row()]
    {
      var blank := new UserRank(None, None, None);
      if Eql(blank) {
        o := Fail(BlankObject);
      } else {
        var key := t.Insert(Row());
        o := Pass;
      }
    }

    /** `update`: refuses a blank entity, otherwise overwrites the row with this id, if there is one. */
    method Update(t: Table<UserRankRow>) returns (o: Outcome)
      requires t.Valid()
      modifies t`rows
      ensures t.Valid()
      ensures o == if IsBlank() then Fail(BlankObject) else Pass
      ensures t.rows == if o.Pass? && id.Some? && id.value in old(t.rows) then old(t.rows)[id.value := Row()] else old(t.rows)
    {
      var blank := new UserRank(None, None, None);
      if Eql(blank) {
        o := Fail(BlankObject);
      } else {
        t.UpdateWhere(id, Row());
        o := Pass;
      }
    }

    /** `delete`: removes the row with this id and clears the id. */
    method Delete(t: Table<UserRankRow>)
      requires t.Valid()
      modifies this`id, t`rows
      ensures t.Valid()
      ensures id == None
      ensures t.rows == if old(id).Some? then old(t.rows) - {old(id).value} else old(t.rows)
    {
      t.DeleteWhere(id);
      id := None;
    }

    /** `toggleDelete`: flips the pending-delete flag and nothing else. */
    method ToggleDelete()
      modifies this`markForDelete
      ensures markForDelete == !old(markForDelete)
    {
      if markForDelete {
        markForDelete := false;
      } else {
        markForDelete := true;
      }
    }

    /** `commit`: dispatches on the flag and the id; after an insert the id is the store's new key. */
    method Commit(t: Table<UserRankRow>) returns (o: Outcome)
      requires t.Valid()
      modifies this`id, t
      ensures t.Valid()
      ensures markForDelete == old(markForDelete) && Row() == old(Row())
      ensures Storable.Committed(markForDelete, old(id), Row(), old(IsBlank()), old(t.rows), o, id, t.rows)
    {
      match Storable.Dispatch(markForDelete, id)
      case Delete =>
        Delete(t);
        o := Pass;
      case Update =>
        o := Update(t);
      case Insert =>
        o := Create(t);
        if o.Pass? {
          id := t.lastInsertID;
        }
      case Skip =>
        o := Pass;
    }

    /** `setUserID`: with `verify`, only an existing user is accepted; otherwise any value. */
    method SetUserID(userID: Ref, verify: bool, userExists: Ref -> bool) returns (o: Outcome)
      modifies this`userID
      ensures o == if verify && !userExists(userID) then Fail(InvalidUser) else Pass
      ensures this.userID == if o.Pass? then userID else old(this.userID)
    {
      if verify {
        if userExists(userID) {
          this.userID := userID;
          o := Pass;
        } else {
          o := Fail(InvalidUser);
        }
      } else {
        this.userID := userID;
        o := Pass;
      }
    }

    /** `setRankID`: with `verify`, only an existing rank is accepted; otherwise any value. */
    method SetRankID(rankID: Ref, verify: bool, rankExists: Ref -> bool) returns (o: Outcome)
      modifies this`rankID
      ensures o == if verify && !rankExists(rankID) then Fail(InvalidRank) else Pass
      ensures this.rankID == if o.Pass? then rankID else old(this.rankID)
    {
      if verify {
        if rankExists(rankID) {
          this.rankID := rankID;
          o := Pass;
        } else {
          o := Fail(InvalidRank);
        }
      } else {
        this.rankID := rankID;
        o := Pass;
      }
    }

    /** One fetched row as a new entity: a fresh instance given the row's id and columns. */
    static method FromRow(k: Key, row: UserRankRow) returns (x: UserRank)
      ensures fresh(x) && x.id == Some(k) && x.Row() == row && !x.markForDelete
    {
      x := new UserRank(None, None, None);
      x.id := Some(k);
      x.userID := row.userID;
      x.rankID := row.rankID;
    }

    /** The `while fetch` loop: one newly constructed entity per fetched key, carrying that row's id and columns. */
    static method FetchAll(t: Table<UserRankRow>, keys: seq<Key>) returns (objs: seq<UserRank>)
      requires forall k :: k in keys ==> k in t.rows
      ensures Loaded(objs, t.rows, keys)
      ensures forall i :: 0 <= i < |objs| ==> fresh(objs[i])
    {
      objs := [];
      var i := 0;
      while i < |keys|
        invariant 0 <= i <= |keys|
        invariant Loaded(objs, t.rows, keys[..i])
        invariant forall j :: 0 <= j < |objs| ==> fresh(objs[j])
      {
        var x := FromRow(keys[i], t.rows[keys[i]]);
        objs := objs + [x];
        i := i + 1;
      }
      assert keys[..i] == keys;
    }

    /**
     * `select(ids)`: a non-array argument gives null; a non-empty list
     * fetches the rows whose key is listed and the empty list fetches every
     * row; either way the answer is null when nothing was fetched.
     */
    static method Select(t: Table<UserRankRow>, ids: Option<seq<int>>) returns (r: Result<Option<seq<UserRank>>>)
      requires t.Valid()
      ensures r.Ok? && r.value.Some? ==> forall i :: 0 <= i < |r.value.value| ==> fresh(r.value.value[i])
      ensures ids.None? ==> r == Ok(None)
      ensures ids.Some? && ids.value != [] ==> r.Ok? && Fetched(r.value, t.rows, t.KeysIn(ids.value))
      ensures ids == Some([]) ==> r.Ok? && Fetched(r.value, t.rows, t.AllKeys())
    {
      if ids.Some? && |ids.value| > 0 {
        var q, types := Sql.BuildInList(|ids.value|);
        var keys := t.SelectIn(q, types, ids.value).value;
        var objs := FetchAll(t, keys);
        r := Ok(if |objs| > 0 then Some(objs) else None);
      } else if ids.Some? {
        var keys := t.AllKeys();
        var objs := FetchAll(t, keys);
        r := Ok(if |objs| > 0 then Some(objs) else None);
      } else {
        r := Ok(None);
      }
    }

    /** `getByUserID`: null when the user holds no rank, otherwise exactly the ids of their rows. */
    static method GetByUserID(t: Table<UserRankRow>, userID: Ref) returns (r: Option<seq<Key>>)
      requires t.Valid()
      ensures r.None? <==> forall k :: k in t.rows ==> !Sql.SqlEq(t.rows[k].userID, userID)
      ensures r.Some? ==> forall k :: k in r.value <==> k in t.rows && Sql.SqlEq(t.rows[k].userID, userID)
    {
      r := t.FindWhere((k: Key, row: UserRankRow) => Sql.SqlEq(row.userID, userID));
    }

    /** `getByRankID`: null when nobody holds the rank, otherwise exactly the ids of its rows. */
    static method GetByRankID(t: Table<UserRankRow>, rankID: Ref) returns (r: Option<seq<Key>>)
      requires t.Valid()
      ensures r.None? <==> forall k :: k in t.rows ==> !Sql.SqlEq(t.rows[k].rankID, rankID)
      ensures r.Some? ==> forall k :: k in r.value <==> k in t.rows && Sql.SqlEq(t.rows[k].rankID, rankID)
    {
      r := t.FindWhere((k: Key, row: UserRankRow) => Sql.SqlEq(row.rankID, rankID));
    }
  }

  /**
   * A user rank straight from the constructor can never be stored: whatever
   * arguments it was given, its first `commit` is an insert that throws
   * BlankObjectException and leaves the table and the id as they were.
   */
  method ConstructedRankNeverStores(t: Table<UserRankRow>, id: Ref, userID: Ref, rankID: Ref) returns (o: Outcome)
    requires t.Valid()
    modifies t
    ensures o == Fail(BlankObject)
    ensures t.rows == old(t.rows)
  {
    var ur := new UserRank(id, userID, rankID);
    o := ur.Commit(t);
  }

  /**
   * The data layer's round trip: committing a non-blank `UserRank` whose
   * flag is clear stores its row under its id, and `select([id])` then gives
   * exactly one new entity equal to it.  An update of an id whose row has
   * gone stores nothing, so the select then finds nothing.
   */
  method CommitThenSelect(x: UserRank, t: Table<UserRankRow>) returns (o: Outcome, r: Result<Option<seq<UserRank>>>)
    requires t.Valid() && !x.markForDelete && !x.IsBlank()
    modifies x`id, t
    ensures o == Pass && x.id.Some?
    ensures old(x.id).None? || old(x.id).value in old(t.rows) ==> x.id.value in t.rows && t.rows[x.id.value] == x.Row()
    ensures old(x.id).Some? && old(x.id).value !in old(t.rows) ==> x.id.value !in t.rows
    ensures old(x.id).None? || old(x.id).value in old(t.rows) ==>
              && r.Ok? && r.value.Some? && |r.value.value| == 1
              && fresh(r.value.value[0]) && r.value.value[0].Eql(x)
    ensures old(x.id).Some? && old(x.id).value !in old(t.rows) ==> r == Ok(None)
  {
    o := x.Commit(t);
    var k := x.id.value;
    t.KeysInOne(k);
    r := UserRank.Select(t, Some([k]));
  }

  /**
   * The other half of the round trip: after a delete-commit of a
   * `UserRank` with an id, the row at that id is gone and `select([old id])`
   * finds nothing.
   */
  method DeleteThenSelect(x: UserRank, t: Table<UserRankRow>) returns (o: Outcome, r: Result<Option<seq<UserRank>>>)
    requires t.Valid() && x.markForDelete && x.id.Some?
    modifies x`id, t
    ensures o == Pass && x.id == None && old(x.id).value !in t.rows
    ensures r == Ok(None)
  {
    var k := x.id.value;
    o := x.Commit(t);
    t.KeysInOne(k);
    r := UserRank.Select(t, Some([k]));
  }
}
