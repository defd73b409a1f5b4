/** What the handlers' SELECT statements do to a table, on sequences of rows in rowid order:
    `.get` takes the first matching row, `.all` keeps the matching rows, `COUNT(*)` counts them
    and `ORDER BY` sorts them by a key. */
module Queries {
  import opened Text

  /** Index of the first row satisfying p: what `.get()` returns for a query without ORDER BY. */
  function FindFirst<T>(rows: seq<T>, p: T -> bool): (r: Option<nat>)
    ensures r.Some? ==> r.value < |rows| && p(rows[r.value]) && forall j :: 0 <= j < r.value ==> !p(rows[j])
    ensures r.None? <==> forall j :: 0 <= j < |rows| ==> !p(rows[j])
  {
    if rows == [] then None
    else if p(rows[0]) then Some(0)
    else
      var r := FindFirst(rows[1..], p);
      assert forall j :: 1 <= j < |rows| ==> rows[j] == rows[1..][j - 1];
      if r.None? then None else Some(r.value + 1)
  }

  /** Two tables of one length whose rows agree, row by row, on the condition find the same
      first row. */
  lemma FindFirstAgrees<T>(a: seq<T>, p: T -> bool, b: seq<T>, q: T -> bool)
    requires |a| == |b| && forall i :: 0 <= i < |a| ==> p(a[i]) == q(b[i])
    ensures FindFirst(a, p) == FindFirst(b, q)
  {
    var x, y := FindFirst(a, p), FindFirst(b, q);
    if x.Some? && y.Some? {
      assert !(x.value < y.value) && !(y.value < x.value);
    }
  }

  /** The rows satisfying p, in table order. */
  function Filter<T>(rows: seq<T>, p: T -> bool): (r: seq<T>)
    ensures |r| <= |rows|
  {
    if rows == [] then []
    else (if p(rows[0]) then [rows[0]] else []) + Filter(rows[1..], p)
  }

  /** A row is kept exactly when it is in the table and satisfies p. */
  lemma {:induction false} FilterMembers<T>(rows: seq<T>, p: T -> bool, x: T)
    ensures x in Filter(rows, p) <==> x in rows && p(x)
  {
    if rows != [] {
      FilterMembers(rows[1..], p, x);
      assert rows == [rows[0]] + rows[1..];
    }
  }

  /** The rows satisfying p, in table order: appending a row appends it to the result exactly
      when it satisfies p. */
  lemma {:induction false} FilterAppend<T>(rows: seq<T>, x: T, p: T -> bool)
    ensures Filter(rows + [x], p) == Filter(rows, p) + (if p(x) then [x] else [])
  {
    if rows != [] {
      assert (rows + [x])[1..] == rows[1..] + [x];
      FilterAppend(rows[1..], x, p);
    }
  }

  /** A filter every row passes keeps them all, in order. */
  lemma {:induction false} FilterKeepsAll<T>(rows: seq<T>, p: T -> bool)
    requires forall i :: 0 <= i < |rows| ==> p(rows[i])
    ensures Filter(rows, p) == rows
  {
    if rows != [] {
      FilterKeepsAll(rows[1..], p);
    }
  }

  /** `SELECT COUNT(*) ... WHERE p`. */
  function Count<T>(rows: seq<T>, p: T -> bool): (n: nat)
    ensures n <= |rows|
  {
    |Filter(rows, p)|
  }

  lemma CountAppend<T>(rows: seq<T>, x: T, p: T -> bool)
    ensures Count(rows + [x], p) == Count(rows, p) + (if p(x) then 1 else 0)
  {
    FilterAppend(rows, x, p);
  }

  /** Rows in ascending order of key. */
  predicate SortedBy<T>(rows: seq<T>, key: T -> int) {
    forall i, j :: 0 <= i < j < |rows| ==> key(rows[i]) <= key(rows[j])
  }

  /** Where x goes in a sorted sequence: before the first row whose key is not below x's. */
  function InsertAt<T>(x: T, rows: seq<T>, key: T -> int): (k: nat)
    ensures k <= |rows|
  {
    var f := FindFirst(rows, y => key(x) <= key(y));
    if f.None? then |rows| else f.value
  }

  /** x placed at its position in a sorted sequence. */
  function Insert<T>(x: T, rows: seq<T>, key: T -> int): (r: seq<T>)
    ensures |r| == |rows| + 1
  {
    var k := InsertAt(x, rows, key);
    rows[..k] + [x] + rows[k..]
  }

  lemma InsertSorted<T>(x: T, rows: seq<T>, key: T -> int)
    requires SortedBy(rows, key)
    ensures SortedBy(Insert(x, rows, key), key)
    ensures multiset(Insert(x, rows, key)) == multiset(rows) + multiset{x}
  {
    var k := InsertAt(x, rows, key);
    var r := Insert(x, rows, key);
    assert forall i :: 0 <= i < k ==> key(rows[i]) < key(x);
    assert forall i :: k <= i < |rows| ==> key(x) <= key(rows[i]) by {
      if k < |rows| {
        assert key(x) <= key(rows[k]);
      }
    }
    forall i, j | 0 <= i < j < |r| ensures key(r[i]) <= key(r[j]) {
      var ki := if i < k then key(rows[i]) else if i == k then key(x) else key(rows[i - 1]);
      var kj := if j < k then key(rows[j]) else if j == k then key(x) else key(rows[j - 1]);
      assert key(r[i]) == ki && key(r[j]) == kj;
      if i < k && j > k {
        assert key(rows[i]) <= key(rows[j - 1]);
      }
    }
    calc {
      multiset(r);
      multiset(rows[..k]) + multiset{x} + multiset(rows[k..]);
      { assert rows == rows[..k] + rows[k..]; }
      multiset(rows) + multiset{x};
    }
  }

  /** `ORDER BY key`: a permutation of the rows in ascending key order.  Rows with equal keys
      keep their table order here; SQLite does not promise any order among them. */
  function SortBy<T>(rows: seq<T>, key: T -> int): (r: seq<T>)
    ensures SortedBy(r, key) && multiset(r) == multiset(rows) && |r| == |rows|
  {
    if rows == [] then []
    else
      var tail := SortBy(rows[1..], key);
      InsertSorted(rows[0], tail, key);
      assert rows == [rows[0]] + rows[1..];
      Insert(rows[0], tail, key)
  }

  /** A sorted permutation holds the same rows. */
  lemma SortByMembers<T(!new)>(rows: seq<T>, key: T -> int)
    ensures forall x :: x in SortBy(rows, key) <==> x in rows
  {
    var r := SortBy(rows, key);
    forall x ensures x in r <==> x in rows {
      assert x in r <==> x in multiset(r);
      assert x in rows <==> x in multiset(rows);
    }
  }

  /** A column every row holds a different value in, as an INTEGER PRIMARY KEY. */
  predicate UniqueKeys<T>(rows: seq<T>, id: T -> int) {
    forall i, j :: 0 <= i < j < |rows| ==> id(rows[i]) != id(rows[j])
  }

  /** With unique keys, the row a key lookup finds is the one row holding that key. */
  lemma FindByKey<T>(rows: seq<T>, id: T -> int, k: nat)
    requires UniqueKeys(rows, id) && k < |rows|
    ensures FindFirst(rows, r => id(r) == id(rows[k])) == Some(k)
  {
  }

  /** The definition of `UPDATE t SET ... WHERE id = ?`: every row whose key the bound value
      designates is rewritten by f, the others are kept.  What it means for a table with unique
      keys is `UpdateOneRow`. */
  function UpdateRows<T>(rows: seq<T>, key: Option<int>, id: T -> int, f: T -> T): (r: seq<T>)
    ensures |r| == |rows|
    ensures forall i :: 0 <= i < |rows| ==> r[i] == if key == Some(id(rows[i])) then f(rows[i]) else rows[i]
  {
    seq(|rows|, i requires 0 <= i < |rows| => if key == Some(id(rows[i])) then f(rows[i]) else rows[i])
  }

  /** With unique keys, the statement rewrites exactly the row holding the key. */
  lemma UpdateOneRow<T>(rows: seq<T>, k: nat, id: T -> int, f: T -> T)
    requires UniqueKeys(rows, id) && k < |rows|
    ensures UpdateRows(rows, Some(id(rows[k])), id, f) == rows[k := f(rows[k])]
  {
    var r := UpdateRows(rows, Some(id(rows[k])), id, f);
    forall i | 0 <= i < |rows| && i != k ensures r[i] == rows[i] {
      assert id(rows[i]) != id(rows[k]);
    }
  }
}
