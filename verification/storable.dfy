/**
 * The `Storable` trait every entity class mixes in: a pending-delete flag,
 * `toggleDelete`, and `commit`, which dispatches on the flag and the id to
 * the class's own `create`, `update` or `delete`.  Dafny has no mixins here,
 * so each entity class carries its own `ToggleDelete` and `Commit`; this
 * module holds what they share: the dispatch and the effect `commit` has
 * on the triple (id, table, outcome).
 */
module Storable {
  import opened Wrappers
  import opened Exceptions
  import opened Store

  /** The primitive `commit` hands over to, or none when no branch matches. */
  datatype Action = Insert | Update | Delete | Skip

  function Dispatch(markForDelete: bool, id: Ref): (a: Action)
    ensures a == Skip <==> markForDelete && id.None?
    ensures a != Skip ==> (a == Delete <==> markForDelete)
  {
    if markForDelete && id.Some? then Delete
    else if !markForDelete && id.Some? then Update
    else if !markForDelete && id.None? then Insert
    else Skip
  }

  /**
   * What `commit` does to an entity whose flag is `markForDelete`, whose id
   * is `id`, whose stored fields are `row` and which is `blank` (it `eql`s a
   * fresh default instance), given the table `rows` before the call: it
   * returns `o`, leaves the entity with id `id'` and the table with `rows'`.
   * - delete: the row goes and the id becomes null;
   * - update: the row at the id is overwritten, the id stays;
   * - insert: a blank entity throws BlankObjectException with nothing
   *   changed; otherwise the row is stored under a key not in use before and
   *   that key becomes the id;
   * - flag set and no id: nothing happens.
   */
  ghost predicate Committed<R>(markForDelete: bool, id: Ref, row: R, blank: bool,
                               rows: map<Key, R>, o: Outcome, id': Ref, rows': map<Key, R>)
  {
    match Dispatch(markForDelete, id)
    case Delete =>
      o == Pass && id' == None && rows' == rows - {id.value}
    case Update =>
      if blank then o == Fail(BlankObject) && id' == id && rows' == rows
      else o == Pass && id' == id && rows' == (if id.value in rows then rows[id.value := row] else rows)
    case Insert =>
      if blank then o == Fail(BlankObject) && id' == None && rows' == rows
      else o == Pass && id'.Some? && id'.value !in rows && rows' == rows[id'.value := row]
    case Skip =>
      o == Pass && id' == id && rows' == rows
  }

  /**
   * `commit` never resets the flag: after a delete-commit the id is null and
   * the flag still set, so every further `commit` changes nothing until
   * `toggleDelete` is called again.
   */
  lemma DeleteCommitIsSticky<R>(k: Key, row: R, blank: bool, rows: map<Key, R>, o: Outcome, id': Ref, rows': map<Key, R>,
                                blank2: bool, o2: Outcome, id2: Ref, rows2: map<Key, R>)
    requires Committed(true, Some(k), row, blank, rows, o, id', rows')
    requires Committed(true, id', row, blank2, rows', o2, id2, rows2)
    ensures o == Pass && id' == None && k !in rows'
    ensures o2 == Pass && id2 == None && rows2 == rows'
  {
  }

  /**
   * Once deleted, an entity that is toggled back is treated as new: the next
   * `commit` stores its row again, under a key different from every key then
   * in use.
   */
  lemma ReinsertAfterDelete<R>(k: Key, row: R, rows: map<Key, R>, o: Outcome, id': Ref, rows': map<Key, R>,
                               o2: Outcome, id2: Ref, rows2: map<Key, R>)
    requires Committed(true, Some(k), row, false, rows, o, id', rows')
    requires Committed(false, id', row, false, rows', o2, id2, rows2)
    ensures Dispatch(false, id') == Insert
    ensures o2 == Pass && id2.Some? && id2.value !in rows' && rows2 == rows'[id2.value := row]
  {
  }

  /**
   * Committing an unchanged, non-blank entity twice is the same as committing
   * it once: the second commit is an update that rewrites the row with itself.
   */
  lemma CommitTwiceIsCommitOnce<R>(id: Ref, row: R, rows: map<Key, R>, id1: Ref, rows1: map<Key, R>,
                                   o2: Outcome, id2: Ref, rows2: map<Key, R>)
    requires Committed(false, id, row, false, rows, Pass, id1, rows1)
    requires Committed(false, id1, row, false, rows1, o2, id2, rows2)
    requires id.Some? ==> id.value in rows
    ensures o2 == Pass && id2 == id1 && rows2 == rows1
  {
    assert id1.Some?;
    assert rows1[id1.value] == row;
    assert rows1[id1.value := row] == rows1;
  }
}
