/**
 * The relational store behind every entity class, reduced to one abstract
 * table per entity kind: a map from primary key to row, an auto-increment
 * allocator and the connection's last-inserted id.  The statements the
 * classes prepare become the methods and functions of `Table`.
 */
module Store {
  import opened Wrappers
  import opened Exceptions
  import Sql

  /** Primary keys are positive (auto-increment starts at 1). */
  type Key = k: nat | k >= 1 witness 1

  /** A nullable id or foreign reference. */
  type Ref = Option<Key>

  /** Whether `s` lists keys in strictly ascending order (so each key once). */
  ghost predicate Ascending(s: seq<Key>)
  {
    forall i, j :: 0 <= i < j < |s| ==> s[i] < s[j]
  }

  /** The first two entries of a sequence of two or more are entries of it. */
  lemma LeadingPair<T>(s: seq<T>)
    ensures |s| >= 2 ==> s[0] in s && s[1] in s
  {
  }

  /** The rows left once every row at a key listed in `ks` that `hit` selects has been deleted. */
  ghost function Dropped<R>(rows: map<Key, R>, ks: seq<Key>, hit: R -> bool): map<Key, R>
  {
    map k | k in rows && !(k in ks && hit(rows[k])) :: rows[k]
  }

  /** Visiting one more key `k` deletes its row exactly when `hit` selects it. */
  lemma DroppedStep<R>(rows: map<Key, R>, ks: seq<Key>, k: Key, hit: R -> bool)
    requires k in rows && k !in ks
    ensures k in Dropped(rows, ks, hit) && Dropped(rows, ks, hit)[k] == rows[k]
    ensures Dropped(rows, ks + [k], hit) == if hit(rows[k]) then Dropped(rows, ks, hit) - {k} else Dropped(rows, ks, hit)
  {
  }

  class Table<R> {
    /** The rows, by primary key. */
    var rows: map<Key, R>
    /** The auto-increment counter: the key the next insert gets. */
    var next: Key
    /** What `insert_id` / `lastInsertRowID()` report: the key of the last insert. */
    var lastInsertID: Ref

    /** Every key in use lies below the counter, so the counter's key is fresh. */
    ghost predicate Valid()
      reads this
    {
      forall k :: k in rows ==> k < next
    }

    constructor ()
      ensures Valid() && rows == map[] && lastInsertID == None
    {
      rows := map[];
      next := 1;
      lastInsertID := None;
    }

    /** `INSERT INTO ... VALUES (...)`: the row gets a key not in use before. */
    method Insert(r: R) returns (key: Key)
      requires Valid()
      modifies this
      ensures Valid()
      ensures key !in old(rows) && rows == old(rows)[key := r]
      ensures lastInsertID == Some(key)
    {
      key := next;
      rows := rows[key := r];
      next := next + 1;
      lastInsertID := Some(key);
    }

    /** `UPDATE ... WHERE id = ?`: overwrites the row with that key, if any. */
    method UpdateWhere(id: Ref, r: R)
      requires Valid()
      modifies this`rows
      ensures Valid()
      ensures rows == if id.Some? && id.value in old(rows) then old(rows)[id.value := r] else old(rows)
    {
      if id.Some? && id.value in rows {
        rows := rows[id.value := r];
      }
    }

    /** `DELETE FROM ... WHERE id = ?`: removes the row with that key, if any. */
    method DeleteWhere(id: Ref)
      requires Valid()
      modifies this`rows
      ensures Valid()
      ensures rows == if id.Some? then old(rows) - {id.value} else old(rows)
    {
      if id.Some? {
        rows := rows - {id.value};
      }
    }

    /**
     * The `toggleDelete(); commit()` loop over fetched rows: each listed row
     * that `hit` selects is deleted by its key, the others are left alone.
     */
    method DeleteEach(ks: seq<Key>, hit: R -> bool)
      requires Valid()
      requires Ascending(ks) && forall k :: k in ks ==> k in rows
      modifies this`rows
      ensures Valid()
      ensures rows == Dropped(old(rows), ks, hit)
    {
      ghost var before := rows;
      var i := 0;
      while i < |ks|
        invariant 0 <= i <= |ks|
        invariant Valid()
        invariant rows == Dropped(before, ks[..i], hit)
      {
        var k := ks[i];
        assert ks[..i + 1] == ks[..i] + [k];
        assert k !in ks[..i];
        DroppedStep(before, ks[..i], k, hit);
        if hit(rows[k]) {
          DeleteWhere(Some(k));
        }
        i := i + 1;
      }
      assert ks[..i] == ks;
    }

    /** The keys below `n` of the rows satisfying `p`, in ascending order: one scan of the table. */
    function KeysBelow(n: nat, p: (Key, R) -> bool): (r: seq<Key>)
      reads this
      ensures forall k :: k in r <==> k in rows && k < n && p(k, rows[k])
      ensures Ascending(r)
      decreases n
    {
      if n <= 1 then []
      else
        var k: Key := n - 1;
        var below := KeysBelow(n - 1, p);
        assert forall x :: x in below ==> x < k;
        assert forall i :: 0 <= i < |below| ==> below[i] in below;
        below + (if k in rows && p(k, rows[k]) then [k] else [])
    }

    /** `SELECT id FROM ... WHERE p`: the keys of exactly the rows satisfying `p`, ascending. */
    function KeysWhere(p: (Key, R) -> bool): (r: seq<Key>)
      requires Valid()
      reads this
      ensures forall k :: k in r <==> k in rows && p(k, rows[k])
      ensures Ascending(r)
    {
      KeysBelow(next, p)
    }

    /** `SELECT ... FROM ...` without a WHERE clause: every key, ascending. */
    function AllKeys(): (r: seq<Key>)
      requires Valid()
      reads this
      ensures forall k :: k in r <==> k in rows
      ensures Ascending(r)
      ensures r == [] <==> rows == map[]
    {
      var r := KeysWhere((k: Key, row: R) => true);
      assert rows != map[] ==> r != [] by {
        if rows != map[] {
          var k :| k in rows;
          assert k in r;
        }
      }
      assert r != [] ==> rows != map[] by {
        if r != [] {
          assert r[0] in r;
        }
      }
      r
    }

    /** The keys of the rows whose key is listed in `ids`, ascending. */
    function KeysIn(ids: seq<int>): (r: seq<Key>)
      requires Valid()
      reads this
      ensures forall k :: k in r <==> k in rows && k in ids
      ensures Ascending(r)
    {
      KeysWhere((k: Key, row: R) => k in ids)
    }

    /** `WHERE id IN (k)` for one key fetches that key when it is stored, and nothing otherwise. */
    lemma KeysInOne(k: Key)
      requires Valid()
      ensures KeysIn([k]) == if k in rows then [k] else []
    {
      var r := KeysIn([k]);
      LeadingPair(r);
      assert |r| <= 1;
      if k in rows {
        assert k in r;
      }
    }

    /**
     * `SELECT ... WHERE id IN (q)` with types string `types`, bound to `ids`:
     * `prepare` refuses a malformed placeholder list (QueryStatementException),
     * `bind_param` a type string or value list of the wrong length; otherwise
     * the keys of the rows whose key is listed.
     */
    function SelectIn(q: string, types: string, ids: seq<int>): (r: Result<seq<Key>>)
      requires Valid()
      reads this
      ensures r == Err(QueryStatement) <==> !Sql.Prepares(q)
      ensures r == Err(BindMismatch) <==> Sql.Prepares(q) && !Sql.Binds(q, types, |ids|)
      ensures r.Ok? <==> Sql.Binds(q, types, |ids|)
      ensures r.Ok? ==> r.value == KeysIn(ids)
    {
      if Sql.Binds(q, types, |ids|) then
        Sql.BindsPrepares(q, types, |ids|);
        Ok(KeysIn(ids))
      else if !Sql.Prepares(q) then Err(QueryStatement)
      else Err(BindMismatch)
    }

    /**
     * The two-step finder pattern's first step and its `while fetch` loop:
     * `SELECT id FROM ... WHERE p`, appending each fetched id to `$input`;
     * null when nothing matched, otherwise the list handed to `get`.
     */
    method FindWhere(p: (Key, R) -> bool) returns (r: Option<seq<Key>>)
      requires Valid()
      ensures r.None? <==> forall k :: k in rows ==> !p(k, rows[k])
      ensures r.Some? ==> Ascending(r.value) && forall k :: k in r.value <==> k in rows && p(k, rows[k])
    {
      var fetched := KeysWhere(p);
      var input: seq<Key> := [];
      var i := 0;
      while i < |fetched|
        invariant 0 <= i <= |fetched|
        invariant input == fetched[..i]
      {
        input := input + [fetched[i]];
        i := i + 1;
      }
      assert input == fetched;
      if |input| > 0 {
        assert input[0] in fetched;
        r := Some(input);
      } else {
        r := None;
      }
    }
  }
}
