/**
 * The two grant relations the Intelligence access resolver works over:
 * IntelligenceUserView rows (this intelligence is shown to this user) and
 * IntelligenceGroupView rows (shown to this group), each stored in its own
 * table keyed by the view's id.  The grant classes themselves are not part
 * of this model; their rows and their `WHERE col = ?` finders are.
 */
module Access {
  import opened Wrappers
  import opened Store
  import Sql

  /** A row of `IntelligenceUserView`. */
  datatype UserView = UserView(intelligenceID: Ref, userID: Key)

  /** A row of `IntelligenceGroupView`. */
  datatype GroupView = GroupView(intelligenceID: Ref, groupID: Key)

  /** Some user-view row shows intelligence `intel` to user `u`. */
  ghost predicate UserGrant(views: map<Key, UserView>, intel: Ref, u: Key)
  {
    exists k :: k in views && views[k] == UserView(intel, u)
  }

  /** Some group-view row names group `g`, whatever intelligence it is for. */
  ghost predicate GroupHasAnyGrant(gviews: map<Key, GroupView>, g: Key)
  {
    exists k :: k in gviews && gviews[k].groupID == g
  }

  /** Some group-view row shows intelligence `intel` to group `g`. */
  ghost predicate GroupGrant(gviews: map<Key, GroupView>, intel: Ref, g: Key)
  {
    exists k :: k in gviews && gviews[k] == GroupView(intel, g)
  }

  /**
   * The access `userHasAccess` computes for user `u`, a member of `groups`:
   * a direct grant, or one of its groups passing the group test (which, as
   * written, looks at the group only).
   */
  ghost predicate HasAccess(views: map<Key, UserView>, gviews: map<Key, GroupView>, intel: Ref, u: Key, groups: seq<Key>)
  {
    UserGrant(views, intel, u) || exists i :: 0 <= i < |groups| && GroupHasAnyGrant(gviews, groups[i])
  }

  /** The user-view table after `hideFromUser(u)`: every row for this intelligence and `u` is gone. */
  ghost function WithoutUserViews(views: map<Key, UserView>, intel: Ref, u: Key): map<Key, UserView>
  {
    map k | k in views && !(Sql.SqlEq(views[k].intelligenceID, intel) && views[k].userID == u) :: views[k]
  }

  /** The group-view table after `hideFromGroup(g)`: every row for this intelligence and `g` is gone. */
  ghost function WithoutGroupViews(gviews: map<Key, GroupView>, intel: Ref, g: Key): map<Key, GroupView>
  {
    map k | k in gviews && !(Sql.SqlEq(gviews[k].intelligenceID, intel) && gviews[k].groupID == g) :: gviews[k]
  }

  /**
   * Deleting, among the views the intelligence finder fetched, those whose
   * user is `u` leaves exactly the table `hideFromUser` promises.
   */
  lemma DroppedUserViews(views: map<Key, UserView>, fetched: seq<Key>, intel: Ref, u: Key, hit: UserView -> bool)
    requires forall k :: k in fetched <==> k in views && Sql.SqlEq(views[k].intelligenceID, intel)
    requires forall v :: hit(v) == (v.userID == u)
    ensures Dropped(views, fetched, hit) == WithoutUserViews(views, intel, u)
  {
  }

  /**
   * Deleting, among the views the intelligence finder fetched, those whose
   * group is `g` leaves exactly the table `hideFromGroup` promises.
   */
  lemma DroppedGroupViews(gviews: map<Key, GroupView>, fetched: seq<Key>, intel: Ref, g: Key, hit: GroupView -> bool)
    requires forall k :: k in fetched <==> k in gviews && Sql.SqlEq(gviews[k].intelligenceID, intel)
    requires forall v :: hit(v) == (v.groupID == g)
    ensures Dropped(gviews, fetched, hit) == WithoutGroupViews(gviews, intel, g)
  {
  }

  /** Inserting a view row under a fresh key grants it and keeps every grant there was. */
  lemma ShowGrants(views: map<Key, UserView>, k: Key, intel: Ref, u: Key)
    requires k !in views
    ensures UserGrant(views[k := UserView(intel, u)], intel, u)
    ensures forall i, v :: UserGrant(views, i, v) ==> UserGrant(views[k := UserView(intel, u)], i, v)
  {
    var views' := views[k := UserView(intel, u)];
    assert views'[k] == UserView(intel, u);
    forall i, v | UserGrant(views, i, v) ensures UserGrant(views', i, v) {
      var j :| j in views && views[j] == UserView(i, v);
      assert views'[j] == views[j];
    }
  }

  /**
   * Hiding from `u` an intelligence that has an id revokes the direct grant,
   * and grants of every other user are exactly as before.
   */
  lemma HideRevokes(views: map<Key, UserView>, intel: Key, u: Key)
    ensures !UserGrant(WithoutUserViews(views, Some(intel), u), Some(intel), u)
    ensures forall i, v :: v != u ==> (UserGrant(WithoutUserViews(views, Some(intel), u), i, v) <==> UserGrant(views, i, v))
  {
    var w := WithoutUserViews(views, Some(intel), u);
    forall i, v | v != u && UserGrant(views, i, v) ensures UserGrant(w, i, v) {
      var j :| j in views && views[j] == UserView(i, v);
      assert j in w;
    }
  }

  /**
   * An intelligence without an id keeps its grants: no row's intelligence
   * column equals NULL in SQL, so the finder `hideFromUser` uses sees none.
   */
  lemma HideWithoutIdKeepsViews(views: map<Key, UserView>, u: Key)
    ensures WithoutUserViews(views, None, u) == views
  {
  }

  /**
   * The group test ignores the intelligence: a grant of group `g` for one
   * intelligence makes the test true for every other, though that other
   * intelligence was never shown to `g`.
   */
  lemma GroupTestIgnoresIntelligence()
    ensures var gviews := map[1 := GroupView(Some(2), 5)];
            GroupHasAnyGrant(gviews, 5) && !GroupGrant(gviews, Some(1), 5)
  {
    var gviews := map[1 := GroupView(Some(2), 5)];
    assert gviews[1].groupID == 5;
  }

  /**
   * Hiding from a group that passes the group test only because of another
   * intelligence's grant succeeds and removes nothing.
   */
  lemma HideFromGroupMayRemoveNothing(gviews: map<Key, GroupView>, intel: Ref, g: Key)
    requires !GroupGrant(gviews, intel, g)
    ensures WithoutGroupViews(gviews, intel, g) == gviews
  {
    assert forall k :: k in gviews && Sql.SqlEq(gviews[k].intelligenceID, intel) && gviews[k].groupID == g
                       ==> gviews[k] == GroupView(intel, g);
  }

  /** A group grant reaches every member: it gives access with no direct user grant at all. */
  lemma GroupGrantGivesMembersAccess(views: map<Key, UserView>, gviews: map<Key, GroupView>, intel: Ref, u: Key,
                                     groups: seq<Key>, i: nat)
    requires i < |groups| && GroupGrant(gviews, intel, groups[i])
    ensures HasAccess(views, gviews, intel, u, groups)
  {
    var k :| k in gviews && gviews[k] == GroupView(intel, groups[i]);
    assert gviews[k].groupID == groups[i];
  }
}
