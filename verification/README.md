# Alliance management console: the entity lifecycle and the intelligence access resolver, in Dafny

This project models the persistence core of the Alliance management console,
a PHP web application. It covers three parts:

- **The storable lifecycle** (`classes/Storable.php`). This is the trait every
  entity class mixes in. It holds a pending-delete flag, `toggleDelete`, and
  `commit`, which hands over to the class's `create`, `update` or `delete`
  depending on the flag and the id. After an insert, `commit` writes the
  store's new key back into the id.
- **The per-entity CRUD pattern**, as five entity classes repeat it:
  `Intelligence`, `UserRank`, `MissionUserView`, `MissionStage` and
  `UserMission`. Each one has:
  - a blank-object guard, built on `eql` against a freshly constructed
    instance;
  - `delete`, which clears the id;
  - setters that optionally verify the referenced entity exists;
  - a bulk `select(ids)`: a non-empty list fetches those rows, the empty list
    fetches every row, and the answer is null when nothing was fetched;
  - two-step `getBy*` finders;
  - the loops that build the `IN (?,?,...)` placeholder list and its
    `bind_param` type string.
- **The access resolver of `Intelligence`**. `userCanSee`, `groupCanSee`,
  `showToUser`/`hideFromUser`, `showToGroup`/`hideFromGroup` and
  `userHasAccess` work over two grant relations: user-view rows and
  group-view rows.

The database is one abstract table per entity kind (`Store.Table`). A table
holds a map from positive key to row, an auto-increment counter that always
gives a key not in use, and the connection's last-insert id. Every prepared
statement the classes issue becomes a method or function of that table. The
entity classes are Dafny classes whose fields the methods update in place.
Each method's contract states the entity's new fields and the table's new
rows in terms of the old ones. `Storable.Committed` states once, for all five
classes, what `commit` does to the triple (id, table, outcome).

Exceptions become values:
- `Outcome` (`Pass` or `Fail(error)`) for calls that return nothing;
- `Result` for calls that return something.

Each exception class the core throws has one `Error` constructor. There is
one more, `BindMismatch`: mysqli refusing a binding of the wrong length. That
is `bind_param` with a parameter list whose length differs from the
placeholder count, or `bind_result` with a variable count that differs from
the column count. The model follows PHP 8, which throws in both cases.

Collaborators are parameters:
- existence checks: `userExists`, `groupExists`, `rankExists`, `missionExists`
  and the intelligence-type check;
- group membership: `groupsOf`.

Module layout:

| file | module | what |
|---|---|---|
| wrappers.dfy | Wrappers | `Option`, for PHP's nullable values |
| exceptions.dfy | Exceptions | `Error`, `Outcome`, `Result` |
| sql.dfy | Sql | NULL-aware `col = ?`, placeholder lists, type strings, the IN-list builder |
| store.dfy | Store | keys, references, `Table` |
| storable.dfy | Storable | `commit`'s dispatch and its effect, with lemmas about commit sequences |
| access.dfy | Access | the grant rows and relations the resolver works over, with lemmas |
| intelligence.dfy | Intelligences | `Intelligence`: lifecycle, setters, select, finders, access resolver |
| user_rank.dfy | UserRanks | `UserRank` |
| mission_user_view.dfy | MissionUserViews | `MissionUserView` |
| mission_stage.dfy | MissionStages | `MissionStage` and its as-written IN-list builder |
| user_mission.dfy | UserMissions | `UserMission` and its as-written IN-list builder |
| scenarios.dfy | Scenarios | end-to-end runs of the model on fresh tables |

## Behaviour as written

The model follows the code as written. Where the code does something other
than what the code evidently intends, a lemma or a contract says so outright:

- **The group test ignores the intelligence.** `groupCanSee` filters the group
  views by group and then re-checks only the group
  (`classes/Intelligence.php:169-182`). It is therefore true as soon as the
  group has a view of any intelligence. See:
  - `Intelligences.Intelligence.GroupCanSee` and
    `Access.GroupTestIgnoresIntelligence`;
  - `Access.HideFromGroupMayRemoveNothing`: `hideFromGroup` can succeed and
    remove nothing;
  - `Scenarios.GroupLeakScenario`: a group member reaches a report never shown
    to anyone, and the report cannot be shown to that group.

  The user-side twin `userCanSee` re-checks the view's intelligence against
  `$this->_id` (`classes/Intelligence.php:131`). The group re-check at
  `classes/Intelligence.php:176` compares only the group. The model follows
  the code.
- **`commit` never resets the delete flag** (`classes/Storable.php:17-34`).
  After a delete-commit the id is null and the flag is still set, so further
  commits do nothing (`Storable.DeleteCommitIsSticky`). Toggling back makes
  the next commit insert the row again (`Storable.ReinsertAfterDelete`).
- **The `UserRank` constructor drops its arguments**
  (`classes/UserRank.php:18-23`). Every constructed user rank is blank
  (`UserRanks.UserRank.constructor`), so storing one as constructed always
  throws BlankObjectException (`UserRanks.ConstructedRankNeverStores`).
- **`MissionStage::select` assigns `',?'` where it should append**
  (`classes/MissionStage.php:146-153`). The placeholder list is `,?` for every
  count, and `prepare` refuses it. `MissionStages.BuildStageInList` and
  `MissionStages.StageListDiffersOnlyInPlaceholders` show this, so
  `MissionStages.MissionStage.Select` on a non-empty list always throws
  QueryStatementException.
- **Commit, then select, round trip.** For `Intelligence`, `UserRank` and
  `MissionUserView`, committing a non-blank entity and then selecting its id
  gives exactly one new entity equal to it. After a delete-commit, selecting
  the old id gives null. See `Intelligences.CommitThenSelect` and
  `Intelligences.DeleteThenSelect`, and the same pair in `UserRanks` and
  `MissionUserViews`. For `MissionStage` and `UserMission` the committed row
  is stored, but selecting its id fails (`MissionStages.CommitThenSelect`,
  `UserMissions.CommitThenSelect`).
- **`UserMission::select` runs its loop once too often**
  (`classes/UserMission.php:119-122`). For `n` ids it gets `n + 1`
  placeholders and `n + 1` type letters (`UserMissions.BuildMissionInList`).
  The statement prepares, but binding `n` values fails, so
  `UserMissions.UserMission.Select` on a non-empty list always ends in
  `BindMismatch`.
- **`MissionUserView`'s select-all branch binds three result variables to
  four columns** (`classes/MissionUserView.php:182-184`). mysqli refuses that
  `bind_result` before any row is fetched, so
  `MissionUserViews.MissionUserView.Select` on the empty list always ends in
  `BindMismatch`.
- **`MissionUserView`'s finders append `$input` to itself instead of the
  fetched id** (`classes/MissionUserView.php:217`, `238`). What they hand to
  `get` has one entry per matching row, and no entry is an id
  (`MissionUserViews.CollectInput`).
- **`userHasAccess` guards `$userID`, not the user it looked up**
  (`classes/Intelligence.php:188-193`). Only a null argument throws
  InvalidUserException. The exception text "No user exists with id"
  (`classes/Intelligence.php:190`) shows that an unknown user is meant to
  throw.
- **`Intelligence`'s constructor never stores its timestamp argument**
  (`classes/Intelligence.php:26-34`).

Modelling choices:
- Ids are positive keys and nullable fields are `Option` values.
- PHP `==` between two fields is equality of `Option`s.
- A `WHERE col = ?` comparison never matches NULL (`Sql.SqlEq`).
- Fetch loops return rows in ascending key order.

## Model

| member | source | states |
|---|---|---|
| Store.Table.Insert | classes/Intelligence.php:41-44 | the row is stored under a key not in use before, no other row changes, and that key becomes the last-insert id |
| Store.Table.UpdateWhere | classes/Intelligence.php:57-60 | only the row whose key is the id is overwritten; a null or absent id changes nothing |
| Store.Table.DeleteWhere | classes/Intelligence.php:69-72 | exactly the row whose key is the id is removed; a null id removes nothing |
| Store.Table.DeleteEach | classes/Intelligence.php:112-117 | the toggle-and-commit loop over fetched rows deletes exactly the listed rows the test selects and leaves every other row as it was |
| Store.Table.KeysWhere | classes/Intelligence.php:360-367 | the fetched keys are exactly those of the rows meeting the condition, each once, ascending |
| Store.Table.AllKeys | classes/Intelligence.php:328-331 | a query without WHERE fetches every key once, ascending, and nothing exactly when the table is empty |
| Store.Table.KeysIn | classes/Intelligence.php:299-303 | `WHERE id IN (...)` fetches exactly the stored keys that are listed; unknown ids are silently omitted |
| Store.Table.KeysInOne | classes/Intelligence.php:299-303 | `WHERE id IN (k)` fetches exactly `k` when its row is stored, and nothing otherwise |
| Store.Table.SelectIn | classes/Intelligence.php:299-324 | QueryStatementException exactly when the list does not prepare, a bind failure exactly when it prepares but does not bind the ids, and otherwise the keys listed |
| Store.Table.FindWhere | classes/Intelligence.php:359-374 | a finder's first step gives null exactly when no row matches, otherwise exactly the matching ids, ascending |
| Sql.BuildInList | classes/Intelligence.php:289-297 | for n ids the loop builds `?` followed by n - 1 copies of `,?` and n letters `i`, which bind exactly n values |
| Sql.IntTypesLetters | classes/UserRank.php:136-144 | the type string for n ids has n letters, all `i` |
| Sql.PlaceholdersShape | classes/UserRank.php:137-144 | the list for n ids has n question marks and n - 1 commas, so length 2n - 1 |
| Sql.PlaceholdersInjective | classes/UserMission.php:119-122 | lists for different counts differ, so a list binds one count only |
| Sql.PlaceholdersPrepare | classes/MissionUserView.php:147-156 | every well-formed list prepares, and the statement expects exactly its count of values |
| Sql.LeadingCommaNeverPrepares | classes/MissionStage.php:146-155 | a list starting with a comma never prepares |
| Storable.Dispatch | classes/Storable.php:17-34 | commit does nothing exactly when the flag is set and the id is null; otherwise it deletes exactly when the flag is set |
| Storable.DeleteCommitIsSticky | classes/Storable.php:19-25 | after a delete-commit the row is gone and the id null, and a further commit with the flag still set changes nothing |
| Storable.ReinsertAfterDelete | classes/Storable.php:8-33 | after a delete-commit and a toggle back, the next commit inserts the row again under a key not in use |
| Storable.CommitTwiceIsCommitOnce | classes/Storable.php:22-33 | committing an unchanged non-blank entity twice leaves id and table as one commit does |
| Access.ShowGrants | classes/Intelligence.php:98-103 | a view row inserted under a fresh key grants its user and keeps every earlier grant |
| Access.HideRevokes | classes/Intelligence.php:109-118 | hiding revokes the user's direct grant and leaves every other user's grants exactly as they were |
| Access.HideWithoutIdKeepsViews | classes/Intelligence.php:111-113 | for an intelligence with a null id, hiding deletes nothing, because `IntelligenceID = NULL` matches no row |
| Access.GroupTestIgnoresIntelligence | classes/Intelligence.php:169-182 | a grant of group 5 for intelligence 2 passes the group test for intelligence 1, which was never shown to group 5 |
| Access.HideFromGroupMayRemoveNothing | classes/Intelligence.php:154-163 | when this intelligence has no grant for the group, hiding from it removes nothing |
| Access.GroupGrantGivesMembersAccess | classes/Intelligence.php:193-197 | a grant to any of a user's groups gives that user access with no direct grant |
| Intelligences.Intelligence.constructor | classes/Intelligence.php:26-34 | every argument is stored except the timestamp, which stays null; the delete flag starts clear |
| Intelligences.Intelligence.Eql | classes/Intelligence.php:80-92 | true exactly when the id and all six columns agree |
| Intelligences.Intelligence.Create | classes/Intelligence.php:36-50 | a blank entity throws BlankObjectException with the table untouched; otherwise its row is inserted under a fresh key |
| Intelligences.Intelligence.Update | classes/Intelligence.php:52-66 | a blank entity throws BlankObjectException; otherwise only the row at its id is overwritten |
| Intelligences.Intelligence.Delete | classes/Intelligence.php:68-78 | the row at the id is removed and the id becomes null |
| Intelligences.Intelligence.ToggleDelete | classes/Storable.php:8-15 | the flag is negated and nothing else changes, so two toggles restore it |
| Intelligences.Intelligence.Commit | classes/Storable.php:17-34 | id, table and outcome change as `Storable.Committed` prescribes for the flag and id; the flag and the fields stay as they were |
| Intelligences.Intelligence.SetAuthorID | classes/Intelligence.php:237-249 | with verify, an unknown user throws InvalidUserException and the field is unchanged; otherwise the value is stored |
| Intelligences.Intelligence.SetIntelligenceTypeID | classes/Intelligence.php:251-264 | with verify, an unknown type throws InvalidIntelligenceTypeException and the field is unchanged; otherwise the value is stored |
| Intelligences.Intelligence.UserCanSee | classes/Intelligence.php:124-137 | true exactly when some user-view row pairs this intelligence with the user |
| Intelligences.Intelligence.GroupCanSee | classes/Intelligence.php:169-182 | true exactly when some group-view row names the group, whatever its intelligence |
| Intelligences.Intelligence.ShowToUser | classes/Intelligence.php:94-107 | the duplicate test first, then the user check; on success exactly one row (this intelligence, user) is added and the user can then see it |
| Intelligences.Intelligence.HideFromUser | classes/Intelligence.php:109-122 | MissingPrerequisiteException unless the user can see it; otherwise exactly this intelligence's rows for the user are deleted |
| Intelligences.Intelligence.ShowToGroup | classes/Intelligence.php:139-152 | the group test first, then the group check; on success exactly one row (this intelligence, group) is added |
| Intelligences.Intelligence.HideFromGroup | classes/Intelligence.php:154-167 | MissingPrerequisiteException unless the group test holds; otherwise exactly this intelligence's rows for the group are deleted |
| Intelligences.Intelligence.UserHasAccess | classes/Intelligence.php:184-201 | a null user throws InvalidUserException; otherwise the answer is a direct grant or some group of the user passing the group test |
| Intelligences.Intelligence.FetchAll | classes/Intelligence.php:302-313 | one fresh entity per fetched key, in order, carrying that row's id and columns, flag clear |
| Intelligences.Intelligence.Select | classes/Intelligence.php:284-357 | non-array gives null; a non-empty list gives the listed rows and the empty list every row, as new entities, or null when none was fetched |
| Intelligences.Intelligence.GetByAuthorID | classes/Intelligence.php:359-379 | null exactly when no row has the author, otherwise exactly the ids of those rows |
| Intelligences.Intelligence.GetByIntelligenceTypeID | classes/Intelligence.php:381-401 | null exactly when no row has the type, otherwise exactly the ids of those rows |
| Intelligences.Intelligence.GetByPublic | classes/Intelligence.php:403-423 | null exactly when no row has that visibility, otherwise exactly the ids of those rows |
| UserRanks.UserRank.constructor | classes/UserRank.php:18-23 | whatever the arguments, the new user rank is blank and its flag clear |
| UserRanks.UserRank.Eql | classes/UserRank.php:69-81 | true exactly when id, user and rank agree |
| UserRanks.UserRank.Create | classes/UserRank.php:25-39 | a blank entity throws BlankObjectException with the table untouched; otherwise its row is inserted under a fresh key |
| UserRanks.UserRank.Update | classes/UserRank.php:41-55 | a blank entity throws BlankObjectException; otherwise only the row at its id is overwritten |
| UserRanks.UserRank.Delete | classes/UserRank.php:57-67 | the row at the id is removed and the id becomes null |
| UserRanks.UserRank.ToggleDelete | classes/Storable.php:8-15 | the flag is negated and nothing else changes |
| UserRanks.UserRank.Commit | classes/Storable.php:17-34 | id, table and outcome change as `Storable.Committed` prescribes; flag and fields unchanged |
| UserRanks.UserRank.SetUserID | classes/UserRank.php:101-113 | with verify, an unknown user throws InvalidUserException and the field is unchanged; otherwise the value is stored |
| UserRanks.UserRank.SetRankID | classes/UserRank.php:115-127 | with verify, an unknown rank throws InvalidRankException and the field is unchanged; otherwise the value is stored |
| UserRanks.UserRank.FetchAll | classes/UserRank.php:149-156 | one fresh entity per fetched key, in order, carrying that row's id and columns |
| UserRanks.UserRank.Select | classes/UserRank.php:131-196 | non-array gives null; a non-empty list gives the listed rows and the empty list every row, as new entities, or null when none was fetched |
| UserRanks.UserRank.GetByUserID | classes/UserRank.php:198-218 | null exactly when no row has the user, otherwise exactly the ids of those rows |
| UserRanks.UserRank.GetByRankID | classes/UserRank.php:220-240 | null exactly when no row has the rank, otherwise exactly the ids of those rows |
| UserRanks.ConstructedRankNeverStores | classes/UserRank.php:18-28 | committing a user rank as constructed, whatever its id, user and rank arguments (null or not), throws BlankObjectException and leaves the table unchanged |
| MissionUserViews.CollectInput | classes/MissionUserView.php:215-218 | the collected list has one entry per fetched row; entry i is the array of the entries before it, never an id |
| MissionUserViews.MissionUserView.constructor | classes/MissionUserView.php:19-25 | all four arguments are stored; the flag starts clear |
| MissionUserViews.MissionUserView.Eql | classes/MissionUserView.php:71-83 | true exactly when id, user, mission and role agree |
| MissionUserViews.MissionUserView.Create | classes/MissionUserView.php:27-41 | a blank entity throws BlankObjectException with the table untouched; otherwise its row is inserted under a fresh key |
| MissionUserViews.MissionUserView.Update | classes/MissionUserView.php:43-57 | a blank entity throws BlankObjectException; otherwise only the row at its id is overwritten |
| MissionUserViews.MissionUserView.Delete | classes/MissionUserView.php:59-69 | the row at the id is removed and the id becomes null |
| MissionUserViews.MissionUserView.ToggleDelete | classes/Storable.php:8-15 | the flag is negated and nothing else changes |
| MissionUserViews.MissionUserView.Commit | classes/Storable.php:17-34 | id, table and outcome change as `Storable.Committed` prescribes; flag and fields unchanged |
| MissionUserViews.MissionUserView.SetUserID | classes/MissionUserView.php:107-119 | with verify, an unknown user throws InvalidUserException and the field is unchanged; otherwise the value is stored |
| MissionUserViews.MissionUserView.SetMissionID | classes/MissionUserView.php:121-133 | with verify, an unknown mission throws InvalidMissionException and the field is unchanged; otherwise the value is stored |
| MissionUserViews.MissionUserView.FetchAll | classes/MissionUserView.php:159-167 | one fresh entity per fetched key, in order, with all four columns of its row |
| MissionUserViews.MissionUserView.Select | classes/MissionUserView.php:141-208 | non-array gives null; a non-empty list gives the listed rows as new entities, or null when none was fetched; the empty list always fails at `bind_result` |
| MissionUserViews.MissionUserView.GetByUserID | classes/MissionUserView.php:210-229 | null exactly when no row has the user; otherwise one entry per such row, none of them an id |
| MissionUserViews.MissionUserView.GetByMissionID | classes/MissionUserView.php:231-250 | null exactly when no row has the mission; otherwise one entry per such row, none of them an id |
| MissionStages.BuildStageInList | classes/MissionStage.php:145-153 | for every count the list is `,?`, which never prepares, while the type string has one `i` per id |
| MissionStages.StageListDiffersOnlyInPlaceholders | classes/MissionStage.php:146-152 | `,?` is no placeholder list for any count and never prepares, while the shared list prepares and binds the same type string |
| MissionStages.MissionStage.constructor | classes/MissionStage.php:19-26 | all five arguments are stored; the flag starts clear |
| MissionStages.MissionStage.Eql | classes/MissionStage.php:72-84 | true exactly when id, mission, name, body and status agree |
| MissionStages.MissionStage.Create | classes/MissionStage.php:28-42 | a blank entity throws BlankObjectException with the table untouched; otherwise its row is inserted under a fresh key |
| MissionStages.MissionStage.Update | classes/MissionStage.php:44-58 | a blank entity throws BlankObjectException; otherwise only the row at its id is overwritten |
| MissionStages.MissionStage.Delete | classes/MissionStage.php:60-70 | the row at the id is removed and the id becomes null |
| MissionStages.MissionStage.ToggleDelete | classes/Storable.php:8-15 | the flag is negated and nothing else changes |
| MissionStages.MissionStage.Commit | classes/Storable.php:17-34 | id, table and outcome change as `Storable.Committed` prescribes; flag and fields unchanged |
| MissionStages.MissionStage.SetMissionID | classes/MissionStage.php:112-124 | with verify, an unknown mission throws InvalidMissionException and the field is unchanged; otherwise the value is stored |
| MissionStages.MissionStage.FetchAll | classes/MissionStage.php:185-193 | one fresh entity per fetched key, in order, carrying that row's id and columns |
| MissionStages.MissionStage.Select | classes/MissionStage.php:140-209 | non-array gives null; a non-empty list always throws QueryStatementException; the empty list gives every row as new entities, or null for an empty table |
| MissionStages.MissionStage.GetByMissionID | classes/MissionStage.php:211-230 | null exactly when no row has the mission, otherwise exactly the ids of those rows |
| UserMissions.BuildMissionInList | classes/UserMission.php:114-122 | for n ids the list has n + 1 placeholders and the type string n + 1 letters: it prepares but never binds n values |
| UserMissions.UserMission.constructor | classes/UserMission.php:16-21 | all three arguments are stored; the flag starts clear |
| UserMissions.UserMission.Eql | classes/UserMission.php:67-79 | true exactly when id, user and mission agree |
| UserMissions.UserMission.Create | classes/UserMission.php:23-37 | a blank entity throws BlankObjectException with the table untouched; otherwise its row is inserted under a fresh key |
| UserMissions.UserMission.Update | classes/UserMission.php:39-53 | a blank entity throws BlankObjectException; otherwise only the row at its id is overwritten |
| UserMissions.UserMission.Delete | classes/UserMission.php:55-65 | the row at the id is removed and the id becomes null |
| UserMissions.UserMission.ToggleDelete | classes/Storable.php:8-15 | the flag is negated and nothing else changes |
| UserMissions.UserMission.Commit | classes/Storable.php:17-34 | id, table and outcome change as `Storable.Committed` prescribes; flag and fields unchanged |
| UserMissions.UserMission.SetUserID | classes/UserMission.php:99-101 | the user is stored as given, without any check |
| UserMissions.UserMission.SetMissionID | classes/UserMission.php:103-105 | the mission is stored as given, without any check |
| UserMissions.UserMission.FetchAll | classes/UserMission.php:152-158 | one fresh entity per fetched key, in order, carrying that row's id and columns |
| UserMissions.UserMission.Select | classes/UserMission.php:109-174 | non-array gives null; a non-empty list always fails to bind; the empty list gives every row as new entities, or null for an empty table |
| UserMissions.UserMission.GetByUserID | classes/UserMission.php:176-196 | null exactly when no row has the user, otherwise exactly the ids of those rows |
| UserMissions.UserMission.GetByMissionID | classes/UserMission.php:198-218 | null exactly when no row has the mission, otherwise exactly the ids of those rows |
| Intelligences.CommitThenSelect | classes/Intelligence.php:284-324 | after a passing commit of a non-blank intelligence, its row is stored under its id and `select([id])` gives exactly one new entity equal to it |
| Intelligences.DeleteThenSelect | classes/Intelligence.php:68-78 | after a delete-commit, the row at the old id is gone and `select([old id])` gives null |
| UserRanks.CommitThenSelect | classes/UserRank.php:131-160 | after a passing commit of a non-blank user rank, `select([id])` gives exactly one new entity equal to it |
| UserRanks.DeleteThenSelect | classes/UserRank.php:57-67 | after a delete-commit, the row at the old id is gone and `select([old id])` gives null |
| MissionUserViews.CommitThenSelect | classes/MissionUserView.php:141-176 | after a passing commit of a non-blank view, `select([id])` gives exactly one new entity equal to it |
| MissionUserViews.DeleteThenSelect | classes/MissionUserView.php:59-69 | after a delete-commit, the row at the old id is gone and `select([old id])` gives null |
| MissionStages.CommitThenSelect | classes/MissionStage.php:140-160 | the committed stage's row is stored under its id, yet `select([id])` throws QueryStatementException |
| UserMissions.CommitThenSelect | classes/UserMission.php:109-130 | the committed entity's row is stored under its id, yet `select([id])` fails to bind |
| Scenarios.LifecycleScenario | classes/Storable.php:8-33 | insert, delete, a commit that does nothing, and a re-insert: the id is set, cleared, stays cleared and is set again |
| Scenarios.BlankAndDeleteScenario | tests/GroupPrivilegeTest.php:92-105 | a blank equals a blank and committing it throws BlankObjectException; deleting a stored entity clears its id and empties the table |
| Scenarios.SelectAllScenario | tests/GroupPrivilegeTest.php:346-349 | `select([])` on a table of two rows returns two entities |
| Scenarios.GroupLeakScenario | classes/Intelligence.php:139-201 | a member of a group shown report 1 has access to report 2, and report 2 cannot be shown to that group |
| Scenarios.DirectGrantScenario | classes/Intelligence.php:94-137 | no access, access after `showToUser`, DuplicateEntryException on a second show, and no access after `hideFromUser` |

## Left out

- Connection handling, and `prepare` failing on a statement whose text is
  constant. The connection, `prepare`, `bind_param`, `execute`, `fetch` and
  `close` are one abstract table per entity kind. A prepare failure, which
  throws QueryStatementException, is modelled only where the class builds the
  statement text itself: the IN list of `select`.
- The database-type switch in `commit` (MySQLi `insert_id` vs SQLite
  `lastInsertRowID()`). One of the two is assumed, and the table's
  last-insert id stands for both.
- UserMissions.UserMission.Select: the bind failure for `n + 1` type letters
  and `n` values is modelled as the `BindMismatch` error. Older PHP runtimes
  only warn there; the statement then runs unbound and the select returns null.
- MissionUserViews.MissionUserView.Select: the select-all branch's
  `bind_result` mismatch is modelled as the `BindMismatch` error, as PHP 8
  throws it. PHP 7 only warns there and binds nothing, so every fetched
  entity would have a null id, user, mission and role. That outcome is not
  modelled.
- `Database::toNumeric` and `Database::toBoolean`: the public flag is stored
  as a boolean.
- PHP loose equality (`null == 0 == '' == false`, an id of 0 read as null).
  Ids are positive keys, fields are `Option` values, and `==` is exact
  equality.
- UserRanks.UserRank.Eql: the class-name test that is only truthy cannot be
  expressed in a typed model, because both operands are user ranks.
- Intelligences.Intelligence.Update: the statement calls `exeucte`
  (`classes/Intelligence.php:59`), a fatal undefined-method error in PHP. The
  model performs the update as if `execute` had been called.
- UserMissions.UserMission.GetByUserID and
  UserMissions.UserMission.GetByMissionID: the call to the undefined
  `bind_results` is fatal in PHP. The model runs the finder as if
  `bind_result` had been called.
- Intelligences.Intelligence.UserHasAccess: calling `getGroups()` on a user
  `User::select` did not find is fatal in PHP. `groupsOf` is a total function
  parameter.
- `Getable::get`: the finders return the list they hand to `get`. `Getable`
  is not part of this model.
- `IntelligenceUserView`, `IntelligenceGroupView`, `User`, `Group`, `Rank`,
  `Mission` and `IntelligenceType` are not part of this model. Their
  existence checks and group membership are parameters. The two view classes
  are their rows, with `WHERE col = ?` finders.
- `intelligenceExists` and its `is_numeric` type check: not a part of the
  lifecycle or the resolver.
- Plain getters, `setID` and the unchecked setters of scalar fields (subject,
  body, timestamp, public, role, name, status). `FetchAll` assigns the fields
  directly where the source calls them.
- The race between two concurrent `showToUser` calls: each request is
  single-threaded and the model is sequential.
- Exception message texts.
