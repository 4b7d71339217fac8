/**
 * End-to-end runs of the model on fresh tables: the storable lifecycle of
 * one intelligence report, the usage the repository's integration tests
 * exercise, and the access resolver letting a group grant leak across
 * intelligence reports.
 */
module Scenarios {
  import opened Wrappers
  import opened Exceptions
  import opened Store
  import opened Access
  import opened Intelligences

  /**
   * One report through the whole lifecycle: its first commit inserts it,
   * toggle and commit delete it, a further commit changes nothing, and
   * toggling back makes the next commit insert it again.
   */
  method LifecycleScenario() returns (firstID: Ref, idAfterDelete: Ref, idAfterNoop: Ref, secondID: Ref)
    ensures firstID.Some? && idAfterDelete == None && idAfterNoop == None && secondID.Some?
  {
    var t := new Table<IntelligenceRow>();
    var x := new Intelligence(None, Some(1), Some(2), Some("subject"), Some("body"), Some(7), Some(true));
    assert x.Row().timestamp == None;
    var o := x.Commit(t);
    firstID := x.id;
    assert t.rows == map[firstID.value := x.Row()];

    x.ToggleDelete();
    o := x.Commit(t);
    idAfterDelete := x.id;
    assert t.rows == map[];

    o := x.Commit(t);
    idAfterNoop := x.id;
    assert t.rows == map[];

    x.ToggleDelete();
    o := x.Commit(t);
    secondID := x.id;
    assert t.rows == map[secondID.value := x.Row()];
  }

  /**
   * The usage the integration tests exercise: a blank instance equals a
   * blank, storing it throws, and `delete` clears the id and removes the row.
   */
  method BlankAndDeleteScenario() returns (blankEql: bool, blankCommit: Outcome, idAfterDelete: Ref, rowsAfterDelete: map<Key, IntelligenceRow>)
    ensures blankEql && blankCommit == Fail(BlankObject)
    ensures idAfterDelete == None && rowsAfterDelete == map[]
  {
    var t := new Table<IntelligenceRow>();
    var blank := new Intelligence(None, None, None, None, None, None, None);
    var other := new Intelligence(None, None, None, None, None, None, None);
    blankEql := blank.Eql(other);
    blankCommit := blank.Commit(t);

    var a := new Intelligence(None, Some(1), None, Some("a"), None, None, Some(false));
    var o := a.Commit(t);
    assert t.rows == map[a.id.value := a.Row()];
    a.Delete(t);
    idAfterDelete := a.id;
    rowsAfterDelete := t.rows;
  }

  /** `select([])` on a table of two rows returns both, in key order. */
  method SelectAllScenario() returns (all: Result<Option<seq<Intelligence>>>)
    ensures all.Ok? && all.value.Some? && |all.value.value| == 2
  {
    var t := new Table<IntelligenceRow>();
    var ka := t.Insert(IntelligenceRow(Some(1), None, Some("a"), None, None, Some(false)));
    var kb := t.Insert(IntelligenceRow(Some(2), None, Some("b"), None, None, Some(true)));
    assert t.rows.Keys == {ka, kb};
    var keys := t.AllKeys();
    assert forall k :: k in keys ==> k == ka || k == kb;
    if ka < kb {
      AscendingPair(keys, ka, kb);
    } else {
      AscendingPair(keys, kb, ka);
    }
    assert |keys| == 2;
    all := Intelligence.Select(t, Some([]));
  }

  /** An ascending list holding two given keys and nothing else is exactly those two. */
  lemma AscendingPair(keys: seq<Key>, lo: Key, hi: Key)
    requires Ascending(keys) && lo < hi && lo in keys && hi in keys
    requires forall k :: k in keys ==> k == lo || k == hi
    ensures keys == [lo, hi]
  {
    var i :| 0 <= i < |keys| && keys[i] == lo;
    var j :| 0 <= j < |keys| && keys[j] == hi;
    forall m | 0 <= m < |keys| ensures (keys[m] == lo && m == i) || (keys[m] == hi && m == j) {
      assert keys[m] in keys;
    }
    assert keys[0] == lo;
    assert keys[|keys| - 1] == hi;
    assert keys[1] == hi;
  }

  /**
   * Report 1 is shown to group 5; report 2 is shown to nobody.  A member of
   * group 5 nevertheless has access to report 2, and report 2 cannot be
   * shown to group 5 because the duplicate test already holds.
   */
  method GroupLeakScenario() returns (access: Result<bool>, show: Outcome)
    ensures access == Ok(true)
    ensures show == Fail(DuplicateEntry)
  {
    var views := new Table<UserView>();
    var gviews := new Table<GroupView>();
    var shown := new Intelligence(Some(1), Some(9), None, Some("shown"), None, None, Some(false));
    var hidden := new Intelligence(Some(2), Some(9), None, Some("hidden"), None, None, Some(false));
    var o := shown.ShowToGroup(5, gviews, g => true);
    assert o == Pass;
    assert !GroupGrant(gviews.rows, Some(2), 5) && !UserGrant(views.rows, Some(2), 7);
    assert GroupHasAnyGrant(gviews.rows, 5) by {
      assert gviews.rows[gviews.lastInsertID.value].groupID == 5;
    }
    var groupsOf: Key -> seq<Key> := u => [5];
    assert groupsOf(7)[0] == 5;
    access := hidden.UserHasAccess(Some(7), views, gviews, groupsOf);
    show := hidden.ShowToGroup(5, gviews, g => true);
  }

  /**
   * A direct grant and its revocation, with no group grants anywhere: user 7
   * has no access to report 1, has it once shown the report, cannot be shown
   * it a second time, and has no access again once it is hidden.
   */
  method DirectGrantScenario() returns (before: Result<bool>, afterShow: Result<bool>, again: Outcome, afterHide: Result<bool>)
    ensures before == Ok(false) && afterShow == Ok(true)
    ensures again == Fail(DuplicateEntry) && afterHide == Ok(false)
  {
    var views := new Table<UserView>();
    var gviews := new Table<GroupView>();
    var report := new Intelligence(Some(1), Some(9), None, Some("ops update"), Some("body"), None, Some(false));
    var groupsOf: Key -> seq<Key> := u => [3];
    assert !GroupHasAnyGrant(gviews.rows, 3);
    assert !UserGrant(views.rows, Some(1), 7);
    before := report.UserHasAccess(Some(7), views, gviews, groupsOf);
    assert before == Ok(false);

    var o := report.ShowToUser(7, views, u => true);
    assert o == Pass && report.UserCanSee(7, views);
    afterShow := report.UserHasAccess(Some(7), views, gviews, groupsOf);
    again := report.ShowToUser(7, views, u => true);
    assert again == Fail(DuplicateEntry);

    ghost var shown := views.rows;
    o := report.HideFromUser(7, views);
    assert views.rows == WithoutUserViews(shown, Some(1), 7);
    HideRevokes(shown, 1, 7);
    assert !UserGrant(views.rows, Some(1), 7);
    afterHide := report.UserHasAccess(Some(7), views, gviews, groupsOf);
  }
}

