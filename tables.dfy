/** Sequence-level semantics of the SQL statements both stores are built from.
    A table snapshot is a `seq` of rows in rowid (insertion) order; a WHERE clause is a
    predicate on one row and a SET clause a function from the old row to the new one. */
module Tables {

  /** `SELECT * WHERE p`, without ORDER BY: the matching rows, in table order. */
  function Select<T(!new)>(s: seq<T>, p: T -> bool): (r: seq<T>)
    ensures |r| <= |s|
    ensures forall x :: x in r <==> x in s && p(x)
    decreases |s|
  {
    if s == [] then []
    else
      assert s == [s[0]] + s[1..];
      (if p(s[0]) then [s[0]] else []) + Select(s[1..], p)
  }

  /** The `rowcount` of a statement whose WHERE clause is `p`. */
  function RowCount<T(!new)>(s: seq<T>, p: T -> bool): (n: nat)
    ensures n <= |s|
    ensures n == 0 <==> forall x :: x in s ==> !p(x)
  {
    var r := Select(s, p);
    assert r != [] ==> r[0] in r;
    |r|
  }

  /** `UPDATE SET f WHERE p`: every matching row is replaced by `f` of it, in place. */
  function Update<T>(s: seq<T>, p: T -> bool, f: T -> T): (r: seq<T>)
    ensures |r| == |s|
    ensures forall i :: 0 <= i < |s| ==> r[i] == if p(s[i]) then f(s[i]) else s[i]
    decreases |s|
  {
    if s == [] then []
    else [if p(s[0]) then f(s[0]) else s[0]] + Update(s[1..], p, f)
  }

  /** `DELETE WHERE p`: the rows that do not match, in table order. */
  function Delete<T(!new)>(s: seq<T>, p: T -> bool): (r: seq<T>)
    ensures forall x :: x in r <==> x in s && !p(x)
    ensures |r| + RowCount(s, p) == |s|
  {
    SelectSplit(s, p);
    Select(s, Not(p))
  }

  /** The negation of a WHERE clause. */
  function Not<T>(p: T -> bool): T -> bool {
    x => !p(x)
  }

  /** A column projection applied to every row, in order. */
  function Map<A, B>(f: A -> B, s: seq<A>): (r: seq<B>)
    ensures |r| == |s|
    ensures forall i :: 0 <= i < |s| ==> r[i] == f(s[i])
    decreases |s|
  {
    if s == [] then [] else [f(s[0])] + Map(f, s[1..])
  }

  /** No two rows share a key: a UNIQUE or PRIMARY KEY constraint. */
  ghost predicate DistinctBy<T, K>(s: seq<T>, key: T -> K) {
    forall i, j :: 0 <= i < j < |s| ==> key(s[i]) != key(s[j])
  }

  /** Rows sorted ascending by an integer column (`ORDER BY key ASC`). */
  ghost predicate SortedBy<T>(s: seq<T>, key: T -> int) {
    forall i, j :: 0 <= i < j < |s| ==> key(s[i]) <= key(s[j])
  }

  /** An UPDATE whose WHERE clause matches no row leaves the table as it was. */
  lemma UpdateUnmatched<T>(s: seq<T>, p: T -> bool, f: T -> T)
    requires forall i :: 0 <= i < |s| ==> !p(s[i])
    ensures Update(s, p, f) == s
  {
  }

  /** After an UPDATE whose SET clause falsifies its own WHERE clause, running the same
      statement again matches no row. */
  lemma UpdateSelfDisabling<T(!new)>(s: seq<T>, p: T -> bool, f: T -> T)
    requires forall i :: 0 <= i < |s| ==> p(s[i]) ==> !p(f(s[i]))
    ensures RowCount(Update(s, p, f), p) == 0
  {
    var r := Update(s, p, f);
    forall x | x in r ensures !p(x) {
      var i :| 0 <= i < |r| && r[i] == x;
    }
  }

  /** Every row goes to exactly one side of a WHERE clause. */
  lemma {:induction false} SelectSplit<T(!new)>(s: seq<T>, p: T -> bool)
    ensures |Select(s, p)| + |Select(s, Not(p))| == |s|
    decreases |s|
  {
    if s != [] {
      SelectSplit(s[1..], p);
    }
  }

  /** A WHERE clause that every row satisfies selects the whole table. */
  lemma {:induction false} SelectEverything<T(!new)>(s: seq<T>, p: T -> bool)
    requires forall x :: x in s ==> p(x)
    ensures Select(s, p) == s
    decreases |s|
  {
    if s != [] {
      assert s[0] in s;
      forall x | x in s[1..] ensures p(x) { assert x in s; }
      SelectEverything(s[1..], p);
      assert s == [s[0]] + s[1..];
    }
  }

  /** SELECT distributes over appending rows. */
  lemma {:induction false} SelectAppend<T(!new)>(a: seq<T>, b: seq<T>, p: T -> bool)
    ensures Select(a + b, p) == Select(a, p) + Select(b, p)
    decreases |a|
  {
    if a != [] {
      assert (a + b)[0] == a[0];
      assert (a + b)[1..] == a[1..] + b;
      SelectAppend(a[1..], b, p);
      assert Select(a + b, p) == (if p(a[0]) then [a[0]] else []) + Select(a[1..] + b, p);
    } else {
      assert a + b == b;
    }
  }

  /** Deleting keeps a unique key unique. */
  lemma {:induction false} SelectKeepsDistinct<T(!new), K>(s: seq<T>, p: T -> bool, key: T -> K)
    requires DistinctBy(s, key)
    ensures DistinctBy(Select(s, p), key)
    decreases |s|
  {
    if s != [] {
      DistinctUncons(s, key);
      SelectKeepsDistinct(s[1..], p, key);
      if p(s[0]) {
        DistinctCons(s[0], Select(s[1..], p), key);
      }
    }
  }

  lemma DistinctUncons<T, K>(s: seq<T>, key: T -> K)
    requires s != [] && DistinctBy(s, key)
    ensures DistinctBy(s[1..], key)
    ensures forall y :: y in s[1..] ==> key(s[0]) != key(y)
  {
    forall i, j | 0 <= i < j < |s[1..]| ensures key(s[1..][i]) != key(s[1..][j]) {
      assert s[1..][i] == s[i + 1] && s[1..][j] == s[j + 1];
    }
    forall y | y in s[1..] ensures key(s[0]) != key(y) {
      var j :| 0 <= j < |s[1..]| && s[1..][j] == y;
      assert s[j + 1] == y;
    }
  }

  lemma DistinctCons<T, K>(x: T, s: seq<T>, key: T -> K)
    requires DistinctBy(s, key)
    requires forall y :: y in s ==> key(x) != key(y)
    ensures DistinctBy([x] + s, key)
  {
    var r := [x] + s;
    forall i, j | 0 <= i < j < |r| ensures key(r[i]) != key(r[j]) {
      assert r[j] == s[j - 1];
      if i == 0 {
        assert s[j - 1] in s;
      } else {
        assert r[i] == s[i - 1];
      }
    }
  }

  /** An UPDATE that never changes a row's key keeps the key unique. */
  lemma UpdateKeepsDistinct<T, K>(s: seq<T>, p: T -> bool, f: T -> T, key: T -> K)
    requires DistinctBy(s, key)
    requires forall i :: 0 <= i < |s| ==> key(f(s[i])) == key(s[i])
    ensures DistinctBy(Update(s, p, f), key)
  {
    var r := Update(s, p, f);
    forall i, j | 0 <= i < j < |r| ensures key(r[i]) != key(r[j]) {
      assert key(r[i]) == key(s[i]) && key(r[j]) == key(s[j]);
    }
  }

  /** Projecting two permutations of one another gives permutations of one another. */
  lemma {:induction false} MapPermutation<A, B>(f: A -> B, s: seq<A>, t: seq<A>)
    requires multiset(s) == multiset(t)
    ensures multiset(Map(f, s)) == multiset(Map(f, t))
    decreases |s|
  {
    if s == [] {
      assert t == [] by { assert |t| == |multiset(t)|; }
    } else {
      var k := RemovePosition(s[0], s, t);
      MapPermutation(f, s[1..], t[..k] + t[k + 1..]);
      MapWithout(f, t, k);
      assert Map(f, s) == [f(s[0])] + Map(f, s[1..]);
    }
  }

  /** The projection of `t` is the projection of row `k` plus the projection of the other rows. */
  lemma MapWithout<A, B>(f: A -> B, t: seq<A>, k: nat)
    requires k < |t|
    ensures multiset(Map(f, t)) == multiset{f(t[k])} + multiset(Map(f, t[..k] + t[k + 1..]))
  {
    MapAppend(f, t[..k], t[k..]);
    assert t[..k] + t[k..] == t;
    MapAppend(f, [t[k]], t[k + 1..]);
    assert [t[k]] + t[k + 1..] == t[k..];
    MapAppend(f, t[..k], t[k + 1..]);
  }

  /** Where the first row of `s` sits in a permutation `t` of `s`, and what is left of `t` without it. */
  lemma RemovePosition<A>(x: A, s: seq<A>, t: seq<A>) returns (k: nat)
    requires s != [] && x == s[0] && multiset(s) == multiset(t)
    ensures k < |t| && t[k] == x
    ensures multiset(s[1..]) == multiset(t[..k] + t[k + 1..])
  {
    assert s == [x] + s[1..];
    assert x in multiset(t);
    k :| 0 <= k < |t| && t[k] == x;
    assert t == t[..k] + [x] + t[k + 1..];
    assert multiset(t) == multiset(t[..k]) + multiset{x} + multiset(t[k + 1..]);
    assert multiset(t[..k] + t[k + 1..]) == multiset(t[..k]) + multiset(t[k + 1..]);
    assert multiset(s) == multiset{x} + multiset(s[1..]);
    forall y ensures multiset(s[1..])[y] == multiset(t[..k] + t[k + 1..])[y] {
      assert multiset(s)[y] == multiset{x}[y] + multiset(s[1..])[y];
    }
  }

  /** The values of a projection are the projections of the rows. */
  lemma MapMembers<A, B>(f: A -> B, s: seq<A>)
    ensures forall y :: y in Map(f, s) <==> exists x :: x in s && y == f(x)
  {
    var r := Map(f, s);
    forall y | y in r ensures exists x :: x in s && y == f(x) {
      var i :| 0 <= i < |r| && r[i] == y;
      assert s[i] in s;
    }
    forall y, x | x in s && y == f(x) ensures y in r {
      var i :| 0 <= i < |s| && s[i] == x;
      assert r[i] == y;
    }
  }

  lemma MapAppend<A, B>(f: A -> B, a: seq<A>, b: seq<A>)
    ensures Map(f, a + b) == Map(f, a) + Map(f, b)
  {
    var l, r := Map(f, a + b), Map(f, a) + Map(f, b);
    assert |l| == |r|;
    forall i | 0 <= i < |l| ensures l[i] == r[i] {
      if i < |a| { assert (a + b)[i] == a[i]; } else { assert (a + b)[i] == b[i - |a|]; }
    }
  }

  /** Inserts `x` into a sorted sequence before the first row with a key not smaller than its own. */
  function InsertBy<T>(x: T, s: seq<T>, key: T -> int): (r: seq<T>)
    requires SortedBy(s, key)
    ensures SortedBy(r, key)
    ensures multiset(r) == multiset(s) + multiset{x}
    ensures forall y :: y in r ==> y == x || y in s
    decreases |s|
  {
    if s == [] then [x]
    else if key(x) <= key(s[0]) then [x] + s
    else
      var rest := InsertBy(x, s[1..], key);
      assert s == [s[0]] + s[1..];
      assert forall y :: y in rest ==> key(s[0]) <= key(y);
      [s[0]] + rest
  }

  /** `ORDER BY key ASC`: a sorted permutation of the rows. Rows with equal keys keep their
      table order, which is one of the orders SQLite may produce. */
  function SortBy<T>(s: seq<T>, key: T -> int): (r: seq<T>)
    ensures SortedBy(r, key)
    ensures multiset(r) == multiset(s)
    decreases |s|
  {
    if s == [] then []
    else
      assert s == [s[0]] + s[1..];
      InsertBy(s[0], SortBy(s[1..], key), key)
  }
}
