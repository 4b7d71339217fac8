/**
 * The pieces of SQL text that the entity classes build themselves: the
 * placeholder list of a `WHERE ... IN (...)` clause and the matching type
 * string for `bind_param`, plus the meaning of a `col = ?` comparison.
 */
module Sql {
  import opened Wrappers

  /** `col = ?` in a WHERE clause: a NULL on either side never matches. */
  predicate SqlEq<T(==)>(col: Option<T>, v: Option<T>)
  {
    col.Some? && col == v
  }

  /** `s` written `n` times. */
  function Repeat(s: string, n: nat): string
  {
    if n == 0 then "" else s + Repeat(s, n - 1)
  }

  /** `?,?,...,?` with `n` question marks: the IN list for `n` bound ids. */
  function Placeholders(n: nat): string
    requires n >= 1
  {
    "?" + Repeat(",?", n - 1)
  }

  /** The `bind_param` type string for `n` integer parameters. */
  function IntTypes(n: nat): string
  {
    Repeat("i", n)
  }

  /** Number of occurrences of `c` in `s`. */
  function Count(c: char, s: string): nat
  {
    if s == [] then 0 else (if s[0] == c then 1 else 0) + Count(c, s[1..])
  }

  /** `prepare` accepts `... IN (q)` only when `q` is a well-formed placeholder list. */
  predicate Prepares(q: string)
  {
    Count('?', q) >= 1 && q == Placeholders(Count('?', q))
  }

  /**
   * The store runs `... IN (q)` with type string `types` and `n` bound values
   * only when `q` is a well-formed list of exactly `n` placeholders and
   * `types` holds one valid type letter per value.
   */
  predicate Binds(q: string, types: string, n: nat)
  {
    && n >= 1
    && q == Placeholders(n)
    && |types| == n
    && forall i :: 0 <= i < |types| ==> types[i] in "idsb"
  }

  lemma {:induction false} CountAppend(c: char, a: string, b: string)
    ensures Count(c, a + b) == Count(c, a) + Count(c, b)
  {
    if a != [] {
      assert (a + b)[1..] == a[1..] + b;
      CountAppend(c, a[1..], b);
    } else {
      assert a + b == b;
    }
  }

  lemma {:induction false} RepeatSnoc(s: string, n: nat)
    ensures Repeat(s, n) + s == Repeat(s, n + 1)
  {
    if n > 0 {
      RepeatSnoc(s, n - 1);
    }
  }

  lemma {:induction false} RepeatLength(s: string, n: nat)
    ensures |Repeat(s, n)| == n * |s|
  {
    if n > 0 {
      RepeatLength(s, n - 1);
    }
  }

  lemma {:induction false} RepeatCount(c: char, s: string, n: nat)
    ensures Count(c, Repeat(s, n)) == n * Count(c, s)
  {
    if n > 0 {
      CountAppend(c, s, Repeat(s, n - 1));
      RepeatCount(c, s, n - 1);
    }
  }

  /** Every letter of the type string is `i`. */
  lemma {:induction false} IntTypesLetters(n: nat)
    ensures |IntTypes(n)| == n
    ensures forall i :: 0 <= i < n ==> IntTypes(n)[i] == 'i'
  {
    RepeatLength("i", n);
    if n > 0 {
      IntTypesLetters(n - 1);
      assert IntTypes(n) == "i" + IntTypes(n - 1);
    }
  }

  /**
   * The placeholder list for `n` ids has exactly `n` question marks separated
   * by `n - 1` commas, so its length is `2n - 1`.
   */
  lemma PlaceholdersShape(n: nat)
    requires n >= 1
    ensures Count('?', Placeholders(n)) == n
    ensures Count(',', Placeholders(n)) == n - 1
    ensures |Placeholders(n)| == 2 * n - 1
  {
    CountAppend('?', "?", Repeat(",?", n - 1));
    CountAppend(',', "?", Repeat(",?", n - 1));
    RepeatCount('?', ",?", n - 1);
    RepeatCount(',', ",?", n - 1);
    RepeatLength(",?", n - 1);
  }

  /** Placeholder lists for different counts differ: a list binds one count only. */
  lemma PlaceholdersInjective(m: nat, n: nat)
    requires m >= 1 && n >= 1 && m != n
    ensures Placeholders(m) != Placeholders(n)
  {
    PlaceholdersShape(m);
    PlaceholdersShape(n);
  }

  /** Every placeholder list prepares, and the statement then expects exactly its count of values. */
  lemma PlaceholdersPrepare(n: nat)
    requires n >= 1
    ensures Prepares(Placeholders(n)) && Count('?', Placeholders(n)) == n
  {
    PlaceholdersShape(n);
  }

  /** A list that binds is one that prepares. */
  lemma BindsPrepares(q: string, types: string, n: nat)
    requires Binds(q, types, n)
    ensures Prepares(q)
  {
    PlaceholdersPrepare(n);
  }

  /** A list that starts with a comma is no placeholder list at all: `prepare` refuses it. */
  lemma LeadingCommaNeverPrepares(q: string)
    requires |q| > 0 && q[0] == ','
    ensures !Prepares(q)
  {
    if Count('?', q) >= 1 {
      assert Placeholders(Count('?', q))[0] == '?';
    }
  }

  /**
   * The IN-list builder shared by Intelligence, UserRank and MissionUserView:
   * start from `?` and `i`, then append `,?` and `i` once per further id.
   */
  method BuildInList(n: nat) returns (q: string, types: string)
    requires n >= 1
    ensures q == Placeholders(n) && types == IntTypes(n)
    ensures Binds(q, types, n)
  {
    types := "i";
    q := "?";
    var i := 0;
    while i < n - 1
      invariant 0 <= i <= n - 1
      invariant q == "?" + Repeat(",?", i)
      invariant types == "i" + Repeat("i", i)
    {
      RepeatSnoc(",?", i);
      RepeatSnoc("i", i);
      types := types + "i";
      q := q + ",?";
      i := i + 1;
    }
    IntTypesLetters(n);
  }
}
