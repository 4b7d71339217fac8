/**
 * `Intelligence`: an intelligence report with its storable lifecycle, its
 * verified setters, bulk select and finders, and the access resolver that
 * shows it to, or hides it from, users and groups.
 */
module Intelligences {
  import opened Wrappers
  import opened Exceptions
  import opened Store
  import opened Access
  import Sql
  import Storable

  /** The stored columns of an `Intelligence` row, apart from its key. */
  datatype IntelligenceRow = IntelligenceRow(
    authorID: Ref,
    intelligenceTypeID: Ref,
    subject: Option<string>,
    body: Option<string>,
    timestamp: Option<int>,
    public: Option<bool>)

  /** The columns of `new Intelligence()`: all null. */
  const BlankRow := IntelligenceRow(None, None, None, None, None, None)

  /** `objs` are the entities the fetch loop builds from the rows at `keys`, in that order. */
  ghost predicate Loaded(objs: seq<Intelligence>, rows: map<Key, IntelligenceRow>, keys: seq<Key>)
    reads objs
  {
    && |objs| == |keys|
    && forall i :: 0 <= i < |objs| ==>
         && keys[i] in rows
         && objs[i].id == Some(keys[i])
         && objs[i].Row() == rows[keys[i]]
         && !objs[i].markForDelete
  }

  /** A select's answer for the keys it fetched: null for none, else one entity per key. */
  ghost predicate Fetched(r: Option<seq<Intelligence>>, rows: map<Key, IntelligenceRow>, keys: seq<Key>)
    reads if r.Some? then r.value else []
  {
    && (r.None? <==> keys == [])
    && (r.Some? ==> Loaded(r.value, rows, keys))
  }

  class Intelligence {
    var id: Ref
    var authorID: Ref
    var intelligenceTypeID: Ref
    var subject: Option<string>
    var body: Option<string>
    var timestamp: Option<int>
    var public: Option<bool>
    /** The pending-delete flag of the storable lifecycle. */
    var markForDelete: bool

    /** Every argument is stored except the timestamp, which the constructor never assigns. */
    constructor (id: Ref, authorID: Ref, intelligenceTypeID: Ref, subject: Option<string>,
                 body: Option<string>, timestamp: Option<int>, public: Option<bool>)
      ensures this.id == id
      ensures Row() == IntelligenceRow(authorID, intelligenceTypeID, subject, body, None, public)
      ensures !markForDelete
    {
      this.id := id;
      this.authorID := authorID;
      this.intelligenceTypeID := intelligenceTypeID;
      this.subject := subject;
      this.body := body;
      this.timestamp := None;
      this.public := public;
      markForDelete := false;
    }

    /** The columns this entity writes to its row. */
    function Row(): IntelligenceRow
      reads this
    {
      IntelligenceRow(authorID, intelligenceTypeID, subject, body, timestamp, public)
    }

    /** `eql`: the id and all six columns agree. */
    predicate Eql(other: Intelligence)
      reads this, other
      ensures Eql(other) <==> id == other.id && Row() == other.Row()
    {
      && id == other.id
      && authorID == other.authorID
      && intelligenceTypeID == other.intelligenceTypeID
      && subject == other.subject
      && body == other.body
      && timestamp == other.timestamp
      && public == other.public
    }

    /** What `eql(new Intelligence())` decides: no id and every column null. */
    predicate IsBlank()
      reads this
    {
      id.None? && Row() == BlankRow
    }

    /** `create`: refuses a blank entity before touching the store, otherwise inserts its row. */
    method Create(t: Table<IntelligenceRow>) returns (o: Outcome)
      requires t.Valid()
      modifies t
      ensures t.Valid()
      ensures o == if IsBlank() then Fail(BlankObject) else Pass
      ensures o.Fail? ==> t.rows == old(t.rows) && t.lastInsertID == old(t.lastInsertID)
      ensures o.Pass? ==> && t.lastInsertID.Some? && t.lastInsertID.value !in old(t.rows)
                          && t.rows == old(t.rows)[t.lastInsertID.value := Row()]
    {
      var blank := new Intelligence(None, None, None, None, None, None, None);
      if Eql(blank) {
        o := Fail(BlankObject);
      } else {
        var key := t.Insert(Row());
        o := Pass;
      }
    }

    /** `update`: refuses a blank entity, otherwise overwrites the row with this id, if there is one. */
    method Update(t: Table<IntelligenceRow>) returns (o: Outcome)
      requires t.Valid()
      modifies t`rows
      ensures t.Valid()
      ensures o == if IsBlank() then Fail(BlankObject) else Pass
      ensures t.rows == if o.Pass? && id.Some? && id.value in old(t.rows) then old(t.rows)[id.value := Row()] else old(t.rows)
    {
      var blank := new Intelligence(None, None, None, None, None, None, None);
      if Eql(blank) {
        o := Fail(BlankObject);
      } else {
        t.UpdateWhere(id, Row());
        o := Pass;
      }
    }

    /** `delete`: removes the row with this id and clears the id. */
    method Delete(t: Table<IntelligenceRow>)
      requires t.Valid()
      modifies this`id, t`rows
      ensures t.Valid()
      ensures id == None
      ensures t.rows == if old(id).Some? then old(t.rows) - {old(id).value} else old(t.rows)
    {
      t.DeleteWhere(id);
      id := None;
    }

    /** `toggleDelete`: flips the pending-delete flag and nothing else. */
    method ToggleDelete()
      modifies this`markForDelete
      ensures markForDelete == !old(markForDelete)
    {
      if markForDelete {
        markForDelete := false;
      } else {
        markForDelete := true;
      }
    }

    /** `commit`: dispatches on the flag and the id; after an insert the id is the store's new key. */
    method Commit(t: Table<IntelligenceRow>) returns (o: Outcome)
      requires t.Valid()
      modifies this`id, t
      ensures t.Valid()
      ensures markForDelete == old(markForDelete) && Row() == old(Row())
      ensures Storable.Committed(markForDelete, old(id), Row(), old(IsBlank()), old(t.rows), o, id, t.rows)
    {
      match Storable.Dispatch(markForDelete, id)
      case Delete =>
        Delete(t);
        o := Pass;
      case Update =>
        o := Update(t);
      case Insert =>
        o := Create(t);
        if o.Pass? {
          id := t.lastInsertID;
        }
      case Skip =>
        o := Pass;
    }

    /** `setAuthorID`: with `verify`, only an existing user is accepted; otherwise any value. */
    method SetAuthorID(authorID: Ref, verify: bool, userExists: Ref -> bool) returns (o: Outcome)
      modifies this`authorID
      ensures o == if verify && !userExists(authorID) then Fail(InvalidUser) else Pass
      ensures this.authorID == if o.Pass? then authorID else old(this.authorID)
    {
      if verify {
        if userExists(authorID) {
          this.authorID := authorID;
          o := Pass;
        } else {
          o := Fail(InvalidUser);
        }
      } else {
        this.authorID := authorID;
        o := Pass;
      }
    }

    /** `setIntelligenceTypeID`: with `verify`, only an existing intelligence type is accepted. */
    method SetIntelligenceTypeID(intelligenceTypeID: Ref, verify: bool, typeExists: Ref -> bool) returns (o: Outcome)
      modifies this`intelligenceTypeID
      ensures o == if verify && !typeExists(intelligenceTypeID) then Fail(InvalidIntelligenceType) else Pass
      ensures this.intelligenceTypeID == if o.Pass? then intelligenceTypeID else old(this.intelligenceTypeID)
    {
      if verify {
        if typeExists(intelligenceTypeID) {
          this.intelligenceTypeID := intelligenceTypeID;
          o := Pass;
        } else {
          o := Fail(InvalidIntelligenceType);
        }
      } else {
        this.intelligenceTypeID := intelligenceTypeID;
        o := Pass;
      }
    }

    // The access resolver

    /**
     * `userCanSee(u)`: among the views `getByUserID(u)` fetches, one is for
     * this intelligence, i.e. a view row grants this intelligence to `u`.
     */
    function UserCanSee(u: Key, views: Table<UserView>): (b: bool)
      requires views.Valid()
      reads this, views
      ensures b <==> UserGrant(views.rows, id, u)
    {
      var fetched := views.KeysWhere((k: Key, v: UserView) => v.userID == u);
      assert forall i :: 0 <= i < |fetched| ==> fetched[i] in fetched;
      assert UserGrant(views.rows, id, u) ==> exists i :: 0 <= i < |fetched| && views.rows[fetched[i]].intelligenceID == id by {
        if UserGrant(views.rows, id, u) {
          var k :| k in views.rows && views.rows[k] == UserView(id, u);
          assert k in fetched;
        }
      }
      exists i :: 0 <= i < |fetched| && views.rows[fetched[i]].intelligenceID == id
    }

    /**
     * `groupCanSee(g)`: among the views `getByGroupID(g)` fetches, one has
     * group `g`.  The intelligence is never looked at, so this holds as soon
     * as `g` has a view row for any intelligence.
     */
    function GroupCanSee(g: Key, gviews: Table<GroupView>): (b: bool)
      requires gviews.Valid()
      reads gviews
      ensures b <==> GroupHasAnyGrant(gviews.rows, g)
    {
      var fetched := gviews.KeysWhere((k: Key, v: GroupView) => v.groupID == g);
      assert forall i :: 0 <= i < |fetched| ==> fetched[i] in fetched;
      assert GroupHasAnyGrant(gviews.rows, g) ==> exists i :: 0 <= i < |fetched| && gviews.rows[fetched[i]].groupID == g by {
        if GroupHasAnyGrant(gviews.rows, g) {
          var k :| k in gviews.rows && gviews.rows[k].groupID == g;
          assert k in fetched;
        }
      }
      exists i :: 0 <= i < |fetched| && gviews.rows[fetched[i]].groupID == g
    }

    /**
     * `showToUser(u)`: a duplicate grant is refused first, then an unknown
     * user; otherwise exactly one view row (this intelligence, `u`) is
     * committed under a fresh key, after which `u` can see it.
     */
    method ShowToUser(u: Key, views: Table<UserView>, userExists: Ref -> bool) returns (o: Outcome)
      requires views.Valid()
      modifies views
      ensures views.Valid()
      ensures o == if old(UserCanSee(u, views)) then Fail(DuplicateEntry)
                   else if !userExists(Some(u)) then Fail(InvalidUser)
                   else Pass
      ensures o.Fail? ==> views.rows == old(views.rows)
      ensures o.Pass? ==> && views.lastInsertID.Some? && views.lastInsertID.value !in old(views.rows)
                          && views.rows == old(views.rows)[views.lastInsertID.value := UserView(id, u)]
      ensures o.Pass? ==> UserCanSee(u, views)
    {
      if UserCanSee(u, views) {
        o := Fail(DuplicateEntry);
      } else if userExists(Some(u)) {
        // new IntelligenceUserView(); setIntelligenceID; setUserID; commit(): a non-blank view is inserted
        var key := views.Insert(UserView(id, u));
        ShowGrants(old(views.rows), key, id, u);
        o := Pass;
      } else {
        o := Fail(InvalidUser);
      }
    }

    /**
     * `hideFromUser(u)`: refused unless `u` can see this intelligence;
     * otherwise every view `getByIntelligenceID` fetches whose user is `u`
     * is toggled for deletion and committed, so exactly those rows go.
     */
    method HideFromUser(u: Key, views: Table<UserView>) returns (o: Outcome)
      requires views.Valid()
      modifies views`rows
      ensures views.Valid()
      ensures o == if old(UserCanSee(u, views)) then Pass else Fail(MissingPrerequisite)
      ensures o.Fail? ==> views.rows == old(views.rows)
      ensures o.Pass? ==> views.rows == WithoutUserViews(old(views.rows), id, u)
    {
      if !UserCanSee(u, views) {
        o := Fail(MissingPrerequisite);
        return;
      }
      var intel := id;
      var fetched := views.KeysWhere((k: Key, v: UserView) => Sql.SqlEq(v.intelligenceID, intel));
      ghost var before := views.rows;
      var hit := (v: UserView) => v.userID == u;
      views.DeleteEach(fetched, hit);
      DroppedUserViews(before, fetched, intel, u, hit);
      o := Pass;
    }

    /**
     * `showToGroup(g)`: refused when the group test already holds (for any
     * intelligence), then for an unknown group; otherwise one view row
     * (this intelligence, `g`) is committed under a fresh key.
     */
    method ShowToGroup(g: Key, gviews: Table<GroupView>, groupExists: Ref -> bool) returns (o: Outcome)
      requires gviews.Valid()
      modifies gviews
      ensures gviews.Valid()
      ensures o == if old(GroupCanSee(g, gviews)) then Fail(DuplicateEntry)
                   else if !groupExists(Some(g)) then Fail(InvalidGroup)
                   else Pass
      ensures o.Fail? ==> gviews.rows == old(gviews.rows)
      ensures o.Pass? ==> && gviews.lastInsertID.Some? && gviews.lastInsertID.value !in old(gviews.rows)
                          && gviews.rows == old(gviews.rows)[gviews.lastInsertID.value := GroupView(id, g)]
      ensures o.Pass? ==> GroupCanSee(g, gviews)
    {
      if GroupCanSee(g, gviews) {
        o := Fail(DuplicateEntry);
      } else if groupExists(Some(g)) {
        var key := gviews.Insert(GroupView(id, g));
        assert gviews.rows[key].groupID == g;
        o := Pass;
      } else {
        o := Fail(InvalidGroup);
      }
    }

    /**
     * `hideFromGroup(g)`: refused unless the group test holds; otherwise the
     * views of this intelligence whose group is `g` are deleted, which may be
     * none at all when the test held because of another intelligence.
     */
    method HideFromGroup(g: Key, gviews: Table<GroupView>) returns (o: Outcome)
      requires gviews.Valid()
      modifies gviews`rows
      ensures gviews.Valid()
      ensures o == if old(GroupCanSee(g, gviews)) then Pass else Fail(MissingPrerequisite)
      ensures o.Fail? ==> gviews.rows == old(gviews.rows)
      ensures o.Pass? ==> gviews.rows == WithoutGroupViews(old(gviews.rows), id, g)
    {
      if !GroupCanSee(g, gviews) {
        o := Fail(MissingPrerequisite);
        return;
      }
      var intel := id;
      var fetched := gviews.KeysWhere((k: Key, v: GroupView) => Sql.SqlEq(v.intelligenceID, intel));
      ghost var before := gviews.rows;
      var hit := (v: GroupView) => v.groupID == g;
      gviews.DeleteEach(fetched, hit);
      DroppedGroupViews(before, fetched, intel, g, hit);
      o := Pass;
    }

    /**
     * `userHasAccess(userID)`: a direct grant answers true at once; otherwise
     * the guard throws InvalidUserException only for a null argument, and the
     * answer is whether one of the user's groups passes the group test.
     */
    method UserHasAccess(userID: Ref, views: Table<UserView>, gviews: Table<GroupView>,
                         groupsOf: Key -> seq<Key>) returns (r: Result<bool>)
      requires views.Valid() && gviews.Valid()
      ensures userID.None? ==> r == Err(InvalidUser)
      ensures userID.Some? ==> r == Ok(HasAccess(views.rows, gviews.rows, id, userID.value, groupsOf(userID.value)))
    {
      // userCanSee(null) finds no view: `UserID = NULL` matches no row
      if userID.Some? && UserCanSee(userID.value, views) {
        return Ok(true);
      }
      if userID.None? {
        return Err(InvalidUser);
      }
      var groups := groupsOf(userID.value);
      var i := 0;
      while i < |groups|
        invariant 0 <= i <= |groups|
        invariant forall j :: 0 <= j < i ==> !GroupHasAnyGrant(gviews.rows, groups[j])
      {
        if GroupCanSee(groups[i], gviews) {
          return Ok(true);
        }
        i := i + 1;
      }
      r := Ok(false);
    }

    // Statics: bulk select and the two-step finders

    /** One fetched row as a new entity: a fresh instance given the row's id and columns. */
    static method FromRow(k: Key, row: IntelligenceRow) returns (x: Intelligence)
      ensures fresh(x) && x.id == Some(k) && x.Row() == row && !x.markForDelete
    {
      x := new Intelligence(Some(k), row.authorID, row.intelligenceTypeID, row.subject, row.body, None, row.public);
      x.timestamp := row.timestamp;
    }

    /** The `while fetch` loop: one newly constructed entity per fetched key, carrying that row's id and columns. */
    static method FetchAll(t: Table<IntelligenceRow>, keys: seq<Key>) returns (objs: seq<Intelligence>)
      requires forall k :: k in keys ==> k in t.rows
      ensures Loaded(objs, t.rows, keys)
      ensures forall i :: 0 <= i < |objs| ==> fresh(objs[i])
    {
      objs := [];
      var i := 0;
      while i < |keys|
        invariant 0 <= i <= |keys|
        invariant Loaded(objs, t.rows, keys[..i])
        invariant forall j :: 0 <= j < |objs| ==> fresh(objs[j])
      {
        var x := FromRow(keys[i], t.rows[keys[i]]);
        objs := objs + [x];
        i := i + 1;
      }
      assert keys[..i] == keys;
    }

    /**
     * `select(ids)`: a non-array argument gives null; a non-empty list
     * fetches the rows whose key is listed and the empty list fetches every
     * row; either way the answer is null when nothing was fetched.
     */
    static method Select(t: Table<IntelligenceRow>, ids: Option<seq<int>>) returns (r: Result<Option<seq<Intelligence>>>)
      requires t.Valid()
      ensures r.Ok? && r.value.Some? ==> forall i :: 0 <= i < |r.value.value| ==> fresh(r.value.value[i])
      ensures ids.None? ==> r == Ok(None)
      ensures ids.Some? && ids.value != [] ==> r.Ok? && Fetched(r.value, t.rows, t.KeysIn(ids.value))
      ensures ids == Some([]) ==> r.Ok? && Fetched(r.value, t.rows, t.AllKeys())
    {
      if ids.Some? && |ids.value| > 0 {
        var q, types := Sql.BuildInList(|ids.value|);
        // the list binds, so the statement prepares and QueryStatementException is not thrown
        var keys := t.SelectIn(q, types, ids.value).value;
        var objs := FetchAll(t, keys);
        r := Ok(if |objs| > 0 then Some(objs) else None);
      } else if ids.Some? {
        var keys := t.AllKeys();
        var objs := FetchAll(t, keys);
        r := Ok(if |objs| > 0 then Some(objs) else None);
      } else {
        r := Ok(None);
      }
    }

    /** `getByAuthorID`: null when no row has this author, otherwise exactly their ids. */
    static method GetByAuthorID(t: Table<IntelligenceRow>, authorID: Ref) returns (r: Option<seq<Key>>)
      requires t.Valid()
      ensures r.None? <==> forall k :: k in t.rows ==> !Sql.SqlEq(t.rows[k].authorID, authorID)
      ensures r.Some? ==> forall k :: k in r.value <==> k in t.rows && Sql.SqlEq(t.rows[k].authorID, authorID)
    {
      r := t.FindWhere((k: Key, row: IntelligenceRow) => Sql.SqlEq(row.authorID, authorID));
    }

    /** `getByIntelligenceTypeID`: null when no row has this type, otherwise exactly their ids. */
    static method GetByIntelligenceTypeID(t: Table<IntelligenceRow>, intelligenceTypeID: Ref) returns (r: Option<seq<Key>>)
      requires t.Valid()
      ensures r.None? <==> forall k :: k in t.rows ==> !Sql.SqlEq(t.rows[k].intelligenceTypeID, intelligenceTypeID)
      ensures r.Some? ==> forall k :: k in r.value <==> k in t.rows && Sql.SqlEq(t.rows[k].intelligenceTypeID, intelligenceTypeID)
    {
      r := t.FindWhere((k: Key, row: IntelligenceRow) => Sql.SqlEq(row.intelligenceTypeID, intelligenceTypeID));
    }

    /** `getByPublic`: null when no row has this visibility, otherwise exactly their ids. */
    static method GetByPublic(t: Table<IntelligenceRow>, public: bool) returns (r: Option<seq<Key>>)
      requires t.Valid()
      ensures r.None? <==> forall k :: k in t.rows ==> t.rows[k].public != Some(public)
      ensures r.Some? ==> forall k :: k in r.value <==> k in t.rows && t.rows[k].public == Some(public)
    {
      r := t.FindWhere((k: Key, row: IntelligenceRow) => Sql.SqlEq(row.public, Some(public)));
    }
  }

  /**
   * The data layer's round trip: committing a non-blank `Intelligence` whose
   * flag is clear stores its row under its id, and `select([id])` then gives
   * exactly one new entity equal to it.  An update of an id whose row has
   * gone stores nothing, so the select then finds nothing.
   */
  method CommitThenSelect(x: Intelligence, t: Table<IntelligenceRow>) returns (o: Outcome, r: Result<Option<seq<Intelligence>>>)
    requires t.Valid() && !x.markForDelete && !x.IsBlank()
    modifies x`id, t
    ensures o == Pass && x.id.Some?
    ensures old(x.id).None? || old(x.id).value in old(t.rows) ==> x.id.value in t.rows && t.rows[x.id.value] == x.Row()
    ensures old(x.id).Some? && old(x.id).value !in old(t.rows) ==> x.id.value !in t.rows
    ensures old(x.id).None? || old(x.id).value in old(t.rows) ==>
              && r.Ok? && r.value.Some? && |r.value.value| == 1
              && fresh(r.value.value[0]) && r.value.value[0].Eql(x)
    ensures old(x.id).Some? && old(x.id).value !in old(t.rows) ==> r == Ok(None)
  {
    o := x.Commit(t);
    var k := x.id.value;
    t.KeysInOne(k);
    r := Intelligence.Select(t, Some([k]));
  }

  /**
   * The other half of the round trip: after a delete-commit of a
   * `Intelligence` with an id, the row at that id is gone and `select([old id])`
   * finds nothing.
   */
  method DeleteThenSelect(x: Intelligence, t: Table<IntelligenceRow>) returns (o: Outcome, r: Result<Option<seq<Intelligence>>>)
    requires t.Valid() && x.markForDelete && x.id.Some?
    modifies x`id, t
    ensures o == Pass && x.id == None && old(x.id).value !in t.rows
    ensures r == Ok(None)
  {
    var k := x.id.value;
    o := x.Commit(t);
    t.KeysInOne(k);
    r := Intelligence.Select(t, Some([k]));
  }
}
