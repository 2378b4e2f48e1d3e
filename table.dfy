/** Relational tables as sequences of rows with auto-increment ids, and the
    SQL statements the controllers issue, with SQL's meaning: a `WHERE`
    filter, `UPDATE ... WHERE` that rewrites every matching row and reports
    how many it affected, `DELETE ... WHERE`, `INSERT` with a fresh id, and
    `ORDER BY ... DESC`. */
module Table {
  import opened Wrappers

  datatype Row<T> = Row(id: nat, rec: T)

  /** Auto-increment ids: appended rows carry increasing ids. */
  predicate IdsAscending<T(!new)>(t: seq<Row<T>>) {
    forall i, j :: 0 <= i < j < |t| ==> t[i].id < t[j].id
  }

  predicate IdsBelow<T(!new)>(t: seq<Row<T>>, next: nat) {
    forall i :: 0 <= i < |t| ==> t[i].id < next
  }

  predicate HasId<T(!new)>(t: seq<Row<T>>, id: int) {
    exists i :: 0 <= i < |t| && t[i].id == id
  }

  /** `SELECT * FROM t WHERE p`, in table order. */
  function Select<T(!new)>(t: seq<Row<T>>, p: Row<T> -> bool): (r: seq<Row<T>>)
    ensures |r| <= |t|
    ensures forall x :: x in r <==> x in t && p(x)
  {
    if t == [] then []
    else if p(t[0]) then [t[0]] + Select(t[1..], p)
    else Select(t[1..], p)
  }

  /** Filtering a table with one more row appended. */
  lemma {:induction false} SelectAppend<T(!new)>(t: seq<Row<T>>, x: Row<T>, p: Row<T> -> bool)
    ensures Select(t + [x], p) == Select(t, p) + (if p(x) then [x] else [])
  {
    if t == [] {
      assert t + [x] == [x];
    } else {
      assert (t + [x])[1..] == t[1..] + [x];
      SelectAppend(t[1..], x, p);
    }
  }

  /** The filter `WHERE id = ?`. */
  function IdIs<T>(id: int): Row<T> -> bool {
    (x: Row<T>) => x.id == id
  }

  /** The row with that id, as the join `ON x.id = ?` finds it. */
  function FindById<T(==,!new)>(t: seq<Row<T>>, id: int): (r: Option<Row<T>>)
    ensures r.Some? ==> r.value in t && r.value.id == id
    ensures r.None? <==> !HasId(t, id)
  {
    Find(t, IdIs(id))
  }

  /** The number of rows a statement filtered by `p` affects. */
  function Count<T(!new)>(t: seq<Row<T>>, p: Row<T> -> bool): (n: nat)
    ensures n == 0 <==> forall i :: 0 <= i < |t| ==> !p(t[i])
    ensures n <= |t|
  {
    var r := Select(t, p);
    assert r != [] ==> r[0] in t;
    assert forall i :: 0 <= i < |t| && p(t[i]) ==> t[i] in r;
    |r|
  }

  /** The first row that matches, as `rows[0]` of a query result. */
  function Find<T(==,!new)>(t: seq<Row<T>>, p: Row<T> -> bool): (r: Option<Row<T>>)
    ensures r.None? <==> forall i :: 0 <= i < |t| ==> !p(t[i])
    ensures r.Some? ==> exists i :: (0 <= i < |t| && t[i] == r.value && p(r.value)
                        && forall j :: 0 <= j < i ==> !p(t[j]))
  {
    if t == [] then None
    else if p(t[0]) then Some(t[0])
    else
      var r := Find(t[1..], p);
      if r.Some? then
        var i :| 0 <= i < |t[1..]| && t[1..][i] == r.value && p(r.value)
                 && forall j :: 0 <= j < i ==> !p(t[1..][j]);
        assert t[i + 1] == r.value;
        r
      else r
  }

  /** `UPDATE t SET ... WHERE p`: every matching row gets `f` applied to its
      columns; ids and every other row stay as they were. */
  function Update<T(!new)>(t: seq<Row<T>>, p: Row<T> -> bool, f: T -> T): (r: seq<Row<T>>)
    ensures |r| == |t|
    ensures forall i :: 0 <= i < |t| ==> r[i] == (if p(t[i]) then Row(t[i].id, f(t[i].rec)) else t[i])
  {
    if t == [] then []
    else [if p(t[0]) then Row(t[0].id, f(t[0].rec)) else t[0]] + Update(t[1..], p, f)
  }

  /** `DELETE FROM t WHERE p`: the rows that do not match, in order. */
  function Delete<T(!new)>(t: seq<Row<T>>, p: Row<T> -> bool): (r: seq<Row<T>>)
    ensures forall x :: x in r <==> x in t && !p(x)
    ensures |r| == |t| - Count(t, p)
  {
    if t == [] then []
    else if p(t[0]) then Delete(t[1..], p)
    else [t[0]] + Delete(t[1..], p)
  }

  /** `INSERT INTO t VALUES (...)` with the next auto-increment id. */
  function Insert<T(!new)>(t: seq<Row<T>>, next: nat, rec: T): (r: seq<Row<T>>)
    ensures |r| == |t| + 1 && r[..|t|] == t && r[|t|] == Row(next, rec)
  {
    t + [Row(next, rec)]
  }

  /** A multi-row `INSERT ... VALUES ?`: the records get consecutive ids
      from `next` on, in order. */
  function InsertAll<T(!new)>(t: seq<Row<T>>, next: nat, recs: seq<T>): (r: seq<Row<T>>)
    ensures |r| == |t| + |recs| && r[..|t|] == t
    ensures forall k :: 0 <= k < |recs| ==> r[|t| + k] == Row(next + k, recs[k])
  {
    if recs == [] then t
    else
      var n := |recs|;
      var prior := InsertAll(t, next, recs[..n - 1]);
      assert prior[..|t|] == t;
      Insert(prior, next + n - 1, recs[n - 1])
  }

  lemma InsertAllAscending<T(!new)>(t: seq<Row<T>>, next: nat, recs: seq<T>)
    requires IdsAscending(t) && IdsBelow(t, next)
    ensures IdsAscending(InsertAll(t, next, recs)) && IdsBelow(InsertAll(t, next, recs), next + |recs|)
  {
    var r := InsertAll(t, next, recs);
    forall i, j | 0 <= i < j < |r| ensures r[i].id < r[j].id {
      if j >= |t| {
        assert r[j] == Row(next + (j - |t|), recs[j - |t|]);
        if i >= |t| {
          assert r[i] == Row(next + (i - |t|), recs[i - |t|]);
        } else {
          assert r[i] == t[i];
        }
      } else {
        assert r[i] == t[i] && r[j] == t[j];
      }
    }
    forall i | 0 <= i < |r| ensures r[i].id < next + |recs| {
      if i >= |t| {
        assert r[i] == Row(next + (i - |t|), recs[i - |t|]);
      } else {
        assert r[i] == t[i];
      }
    }
  }

  lemma {:induction false} SelectAscending<T(!new)>(t: seq<Row<T>>, p: Row<T> -> bool)
    requires IdsAscending(t)
    ensures IdsAscending(Select(t, p))
    ensures forall x :: x in Select(t, p) ==> x.id >= (if t == [] then 0 else t[0].id)
  {
    if t != [] {
      SelectAscending(t[1..], p);
    }
  }

  lemma {:induction false} DeleteAscending<T(!new)>(t: seq<Row<T>>, p: Row<T> -> bool)
    requires IdsAscending(t)
    ensures IdsAscending(Delete(t, p))
    ensures forall x :: x in Delete(t, p) ==> x.id >= (if t == [] then 0 else t[0].id)
  {
    if t != [] {
      DeleteAscending(t[1..], p);
    }
  }

  lemma UpdateAscending<T(!new)>(t: seq<Row<T>>, p: Row<T> -> bool, f: T -> T)
    requires IdsAscending(t)
    ensures IdsAscending(Update(t, p, f))
  {
  }

  lemma UpdateBelow<T(!new)>(t: seq<Row<T>>, p: Row<T> -> bool, f: T -> T, next: nat)
    requires IdsBelow(t, next)
    ensures IdsBelow(Update(t, p, f), next)
  {
  }

  lemma DeleteBelow<T(!new)>(t: seq<Row<T>>, p: Row<T> -> bool, next: nat)
    requires IdsBelow(t, next)
    ensures IdsBelow(Delete(t, p), next)
  {
    var r := Delete(t, p);
    forall i | 0 <= i < |r| ensures r[i].id < next {
      assert r[i] in r;
    }
  }

  lemma InsertAscending<T(!new)>(t: seq<Row<T>>, next: nat, rec: T)
    requires IdsAscending(t) && IdsBelow(t, next)
    ensures IdsAscending(Insert(t, next, rec)) && IdsBelow(Insert(t, next, rec), next + 1)
  {
  }

  /** With ascending ids, a row id identifies at most one row. */
  lemma AscendingIdsUnique<T(!new)>(t: seq<Row<T>>, i: int, j: int)
    requires IdsAscending(t) && 0 <= i < |t| && 0 <= j < |t| && t[i].id == t[j].id
    ensures i == j
  {
  }

  /** An update filtered on the row id touches at most that one row. */
  lemma UpdateById<T(!new)>(t: seq<Row<T>>, id: nat, p: Row<T> -> bool, f: T -> T)
    requires IdsAscending(t)
    requires forall x :: p(x) ==> x.id == id
    ensures Count(t, p) <= 1
  {
    var r := Select(t, p);
    if |r| > 1 {
      assert r[0] in t && r[1] in t;
      var i :| 0 <= i < |t| && t[i] == r[0];
      var j :| 0 <= j < |t| && t[j] == r[1];
      AscendingIdsUnique(t, i, j);
      SelectAscending(t, p);
      assert false;
    }
  }

  predicate SortedDesc<T(!new)>(s: seq<T>, key: T -> int) {
    forall i, j :: 0 <= i < j < |s| ==> key(s[i]) >= key(s[j])
  }

  function InsertDesc<T(!new)>(x: T, s: seq<T>, key: T -> int): (r: seq<T>)
    requires SortedDesc(s, key)
    ensures SortedDesc(r, key)
    ensures multiset(r) == multiset(s) + multiset{x}
    ensures |r| == |s| + 1
  {
    if s == [] then [x]
    else if key(x) >= key(s[0]) then [x] + s
    else
      var t := InsertDesc(x, s[1..], key);
      assert s == [s[0]] + s[1..];
      HeadBoundsPermutation(s, x, t, key);
      SortedDescCons(s[0], t, key);
      [s[0]] + t
  }

  /** The head of a descending sequence bounds every element of a
      permutation of its tail with one smaller element added. */
  lemma HeadBoundsPermutation<T(!new)>(s: seq<T>, x: T, t: seq<T>, key: T -> int)
    requires s != [] && SortedDesc(s, key) && key(x) < key(s[0])
    requires multiset(t) == multiset(s[1..]) + multiset{x}
    ensures forall j :: 0 <= j < |t| ==> key(s[0]) >= key(t[j])
  {
    forall j | 0 <= j < |t| ensures key(s[0]) >= key(t[j]) {
      assert t[j] in multiset(t);
      if t[j] != x {
        assert t[j] in multiset(s[1..]);
        var k :| 0 <= k < |s[1..]| && s[1..][k] == t[j];
        assert s[k + 1] == t[j];
      }
    }
  }

  /** A bound on a descending sequence may be put in front of it. */
  lemma SortedDescCons<T(!new)>(h: T, t: seq<T>, key: T -> int)
    requires SortedDesc(t, key) && forall j :: 0 <= j < |t| ==> key(h) >= key(t[j])
    ensures SortedDesc([h] + t, key)
  {
    var r := [h] + t;
    forall i, j | 0 <= i < j < |r| ensures key(r[i]) >= key(r[j]) {
      assert r[j] == t[j - 1];
      if i > 0 {
        assert r[i] == t[i - 1];
      }
    }
  }

  /** `ORDER BY key DESC`: a permutation of the rows, largest key first. */
  function SortDesc<T(!new)>(s: seq<T>, key: T -> int): (r: seq<T>)
    ensures SortedDesc(r, key)
    ensures multiset(r) == multiset(s)
    ensures |r| == |s|
  {
    if s == [] then []
    else
      assert s == [s[0]] + s[1..];
      InsertDesc(s[0], SortDesc(s[1..], key), key)
  }
}
