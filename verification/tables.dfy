/**
 * An SQLite table as the scripts see it: rows in rowid order, each with the
 * `INTEGER PRIMARY KEY AUTOINCREMENT` id, and the id the next INSERT receives.
 */
module Tables {
  import opened Wrappers

  datatype Row<R> = Row(id: nat, val: R)

  datatype Table<R> = Table(rows: seq<Row<R>>, nextId: nat)

  /** Ids are positive, strictly increasing in rowid order and below `nextId`. */
  predicate Valid<R>(t: Table<R>) {
    && t.nextId >= 1
    && (forall i :: 0 <= i < |t.rows| ==> 1 <= t.rows[i].id < t.nextId)
    && (forall i, j :: 0 <= i < j < |t.rows| ==> t.rows[i].id < t.rows[j].id)
  }

  function Empty<R>(): (t: Table<R>)
    ensures Valid(t) && |t.rows| == 0
  {
    Table([], 1)
  }

  /** The id is the primary key: two rows of a valid table with the same id are the same row. */
  lemma IdsIdentify<R>(t: Table<R>, x: Row<R>, y: Row<R>)
    requires Valid(t) && x in t.rows && y in t.rows && x.id == y.id
    ensures x == y
  {
    var i :| 0 <= i < |t.rows| && t.rows[i] == x;
    var j :| 0 <= j < |t.rows| && t.rows[j] == y;
    if i < j || j < i {
      assert false;
    }
  }

  predicate HasId<R>(t: Table<R>, id: int) {
    exists i :: 0 <= i < |t.rows| && t.rows[i].id == id
  }

  /** `INSERT`: a new row with a fresh id at the end; the id is `cursor.lastrowid`. */
  function Insert<R>(t: Table<R>, v: R): (r: (Table<R>, nat))
    requires Valid(t)
    ensures Valid(r.0)
    ensures !HasId(t, r.1) && r.1 >= 1
    ensures |r.0.rows| == |t.rows| + 1 && r.0.rows[|t.rows|] == Row(r.1, v)
    ensures r.0.rows[..|t.rows|] == t.rows
  {
    (Table(t.rows + [Row(t.nextId, v)], t.nextId + 1), t.nextId)
  }

  /** The position of the first row (in rowid order) satisfying `p`: what `fetchone()` returns. */
  function FirstIndex<R>(rows: seq<Row<R>>, p: Row<R> -> bool): (r: Option<nat>)
    ensures r.Some? ==> r.value < |rows| && p(rows[r.value])
    ensures r.Some? ==> forall i :: 0 <= i < r.value ==> !p(rows[i])
    ensures r.None? <==> forall i :: 0 <= i < |rows| ==> !p(rows[i])
  {
    if |rows| == 0 then None
    else if p(rows[0]) then Some(0)
    else
      match FirstIndex(rows[1..], p)
      case None => None
      case Some(k) => Some(k + 1)
  }

  /** All rows whose value satisfies `p`, in rowid order (a `SELECT … WHERE`). */
  function Select<R(!new)>(rows: seq<Row<R>>, p: Row<R> -> bool): (r: seq<Row<R>>)
    ensures forall x :: x in r <==> x in rows && p(x)
    ensures |r| <= |rows|
  {
    if |rows| == 0 then []
    else if p(rows[0]) then [rows[0]] + Select(rows[1..], p)
    else Select(rows[1..], p)
  }

  /** Number of rows whose value satisfies `p`. */
  function Count<R(!new)>(rows: seq<Row<R>>, p: Row<R> -> bool): nat {
    |Select(rows, p)|
  }

  lemma {:induction false} SelectNone<R(!new)>(rows: seq<Row<R>>, p: Row<R> -> bool)
    requires forall i :: 0 <= i < |rows| ==> !p(rows[i])
    ensures Select(rows, p) == []
  {
    if |rows| > 0 {
      SelectNone(rows[1..], p);
    }
  }

  lemma {:induction false} SelectEvery<R(!new)>(rows: seq<Row<R>>, p: Row<R> -> bool)
    requires forall i :: 0 <= i < |rows| ==> p(rows[i])
    ensures Select(rows, p) == rows
  {
    if |rows| > 0 {
      SelectEvery(rows[1..], p);
      assert rows == [rows[0]] + rows[1..];
    }
  }

  /** `DELETE FROM t` with a condition every row meets leaves the table empty. */
  lemma DeleteEverything<R(!new)>(t: Table<R>, p: Row<R> -> bool)
    requires Valid(t)
    requires forall i :: 0 <= i < |t.rows| ==> p(t.rows[i])
    ensures DeleteWhere(t, p).0.rows == [] && DeleteWhere(t, p).1 == |t.rows|
  {
    SelectEvery(t.rows, p);
  }

  /** A condition only the `k`-th row meets selects exactly that row. */
  lemma {:induction false} SelectSingle<R(!new)>(rows: seq<Row<R>>, p: Row<R> -> bool, k: nat)
    requires k < |rows| && p(rows[k])
    requires forall i :: 0 <= i < |rows| && i != k ==> !p(rows[i])
    ensures Select(rows, p) == [rows[k]]
  {
    if k == 0 {
      SelectNone(rows[1..], p);
    } else {
      SelectSingle(rows[1..], p, k - 1);
    }
  }

  lemma {:induction false} SelectSubsequence<R(!new)>(rows: seq<Row<R>>, p: Row<R> -> bool)
    requires forall i, j :: 0 <= i < j < |rows| ==> rows[i].id < rows[j].id
    ensures forall i, j :: 0 <= i < j < |Select(rows, p)| ==> Select(rows, p)[i].id < Select(rows, p)[j].id
  {
    if |rows| > 0 {
      SelectSubsequence(rows[1..], p);
      var tail := Select(rows[1..], p);
      forall x | x in tail ensures rows[0].id < x.id {
        var k :| 0 <= k < |rows[1..]| && rows[1..][k] == x;
        assert rows[k + 1] == x;
      }
    }
  }

  /** `DELETE … WHERE p`: the kept rows and `cursor.rowcount`. */
  function DeleteWhere<R(!new)>(t: Table<R>, p: Row<R> -> bool): (r: (Table<R>, nat))
    requires Valid(t)
    ensures Valid(r.0)
    ensures forall x :: x in r.0.rows <==> x in t.rows && !p(x)
    ensures r.1 == Count(t.rows, p) && r.1 == |t.rows| - |r.0.rows|
    ensures r.1 == 0 ==> r.0 == t
    ensures r.0.nextId == t.nextId
  {
    var kept := Select(t.rows, (x: Row<R>) => !p(x));
    SelectSubsequence(t.rows, (x: Row<R>) => !p(x));
    CountSplit(t.rows, p);
    if |kept| == |t.rows| then
      SelectAll(t.rows, (x: Row<R>) => !p(x));
      (t, 0)
    else
      assert forall i :: 0 <= i < |kept| ==> kept[i] in t.rows;
      (Table(kept, t.nextId), |t.rows| - |kept|)
  }

  lemma {:induction false} CountSplit<R(!new)>(rows: seq<Row<R>>, p: Row<R> -> bool)
    ensures |Select(rows, p)| + |Select(rows, (x: Row<R>) => !p(x))| == |rows|
  {
    if |rows| > 0 {
      CountSplit(rows[1..], p);
    }
  }

  lemma {:induction false} SelectAll<R(!new)>(rows: seq<Row<R>>, p: Row<R> -> bool)
    requires |Select(rows, p)| == |rows|
    ensures Select(rows, p) == rows
  {
    if |rows| > 0 {
      SelectAll(rows[1..], p);
      assert rows == [rows[0]] + rows[1..];
    }
  }

  /** `UPDATE … SET … WHERE p`: `f` rewrites each matching row; the count is `cursor.rowcount`. */
  function UpdateWhere<R(!new)>(t: Table<R>, p: Row<R> -> bool, f: R -> R): (r: (Table<R>, nat))
    requires Valid(t)
    ensures Valid(r.0) && r.0.nextId == t.nextId && |r.0.rows| == |t.rows|
    ensures forall i :: 0 <= i < |t.rows| ==> r.0.rows[i].id == t.rows[i].id
    ensures forall i :: 0 <= i < |t.rows| && p(t.rows[i]) ==> r.0.rows[i].val == f(t.rows[i].val)
    ensures forall i :: 0 <= i < |t.rows| && !p(t.rows[i]) ==> r.0.rows[i] == t.rows[i]
    ensures r.1 == Count(t.rows, p)
    ensures r.1 == 0 ==> r.0 == t
  {
    var rows := MapWhere(t.rows, p, f);
    if Count(t.rows, p) == 0 then
      NoneSelected(t.rows, p);
      (t, 0)
    else
      (Table(rows, t.nextId), Count(t.rows, p))
  }

  lemma NoneSelected<R(!new)>(rows: seq<Row<R>>, p: Row<R> -> bool)
    requires Count(rows, p) == 0
    ensures forall i :: 0 <= i < |rows| ==> !p(rows[i])
  {
    forall i | 0 <= i < |rows| ensures !p(rows[i]) {
      assert rows[i] in rows;
    }
  }

  function MapWhere<R>(rows: seq<Row<R>>, p: Row<R> -> bool, f: R -> R): (r: seq<Row<R>>)
    ensures |r| == |rows|
    ensures forall i :: 0 <= i < |rows| ==> r[i] == if p(rows[i]) then Row(rows[i].id, f(rows[i].val)) else rows[i]
  {
    if |rows| == 0 then []
    else [if p(rows[0]) then Row(rows[0].id, f(rows[0].val)) else rows[0]] + MapWhere(rows[1..], p, f)
  }

  // ---------------------------------------------------------------------------
  // UNIQUE constraints
  // ---------------------------------------------------------------------------

  /** A UNIQUE constraint on `key`: no two rows share a key. */
  ghost predicate UniqueOn<R, K>(t: Table<R>, key: R -> K) {
    forall i, j :: 0 <= i < j < |t.rows| ==> key(t.rows[i].val) != key(t.rows[j].val)
  }

  /** Under a UNIQUE constraint, the row holding a key is the first (and only) one that does. */
  lemma UniqueFirst<R, K>(t: Table<R>, key: R -> K, k: K, i: nat)
    requires UniqueOn(t, key)
    requires i < |t.rows| && key(t.rows[i].val) == k
    ensures FirstIndex(t.rows, (x: Row<R>) => key(x.val) == k) == Some(i)
  {
  }

  /** Some row already holds this key (the constraint an INSERT would violate). */
  predicate KeyTaken<R, K(==)>(rows: seq<Row<R>>, key: R -> K, k: K) {
    exists i :: 0 <= i < |rows| && key(rows[i].val) == k
  }

  lemma InsertKeepsUnique<R, K>(t: Table<R>, v: R, key: R -> K)
    requires Valid(t) && UniqueOn(t, key)
    requires !KeyTaken(t.rows, key, key(v))
    ensures UniqueOn(Insert(t, v).0, key)
  {
    var r := Insert(t, v).0;
    assert r.rows == t.rows + [Row(t.nextId, v)];
  }

  /** A change that keeps every row's key keeps the keys unique. */
  lemma SameKeysKeepUnique<R, K>(t: Table<R>, u: Table<R>, key: R -> K)
    requires UniqueOn(t, key) && |u.rows| == |t.rows|
    requires forall i :: 0 <= i < |t.rows| ==> key(u.rows[i].val) == key(t.rows[i].val)
    ensures UniqueOn(u, key)
  {
  }

  lemma DeleteKeepsUnique<R(!new), K>(t: Table<R>, p: Row<R> -> bool, key: R -> K)
    requires Valid(t) && UniqueOn(t, key)
    ensures UniqueOn(DeleteWhere(t, p).0, key)
  {
    var r := DeleteWhere(t, p).0;
    forall i, j | 0 <= i < j < |r.rows| ensures key(r.rows[i].val) != key(r.rows[j].val) {
      assert r.rows[i] in t.rows && r.rows[j] in t.rows;
      var a :| 0 <= a < |t.rows| && t.rows[a] == r.rows[i];
      var b :| 0 <= b < |t.rows| && t.rows[b] == r.rows[j];
      assert a != b;
    }
  }

  /** `WHERE id = ?` */
  function IdIs<R>(id: int): Row<R> -> bool {
    (x: Row<R>) => x.id == id
  }

  /** Another row than the one with this id already holds the key. */
  predicate TakenByOther<R, K(==)>(rows: seq<Row<R>>, id: int, key: R -> K, k: K) {
    exists j :: 0 <= j < |rows| && rows[j].id != id && key(rows[j].val) == k
  }

  /**
   * Rewriting the row with a given id keeps a key unique when the row's new key
   * is held by no other row.
   */
  lemma UpdateByIdKeepsUnique<R(!new), K>(t: Table<R>, id: int, f: R -> R, key: R -> K)
    requires Valid(t) && UniqueOn(t, key)
    requires forall i :: 0 <= i < |t.rows| && t.rows[i].id == id ==> !TakenByOther(t.rows, id, key, key(f(t.rows[i].val)))
    ensures UniqueOn(UpdateWhere(t, IdIs(id), f).0, key)
  {
    var r := UpdateWhere(t, IdIs(id), f).0;
    forall i, j | 0 <= i < j < |r.rows| ensures key(r.rows[i].val) != key(r.rows[j].val) {
      if t.rows[i].id == id {
        assert t.rows[j].id != id;
        assert r.rows[j] == t.rows[j];
      } else if t.rows[j].id == id {
        assert r.rows[i] == t.rows[i];
      } else {
        assert r.rows[i] == t.rows[i] && r.rows[j] == t.rows[j];
      }
    }
  }

  /** Under a unique key, no row other than the one with this id holds that row's key. */
  lemma OwnKeyNotTaken<R, K>(t: Table<R>, key: R -> K, id: int)
    requires Valid(t) && UniqueOn(t, key)
    ensures forall i :: 0 <= i < |t.rows| && t.rows[i].id == id ==> !TakenByOther(t.rows, id, key, key(t.rows[i].val))
  {
    forall i, j | 0 <= i < |t.rows| && t.rows[i].id == id && 0 <= j < |t.rows| && t.rows[j].id != id
      ensures key(t.rows[j].val) != key(t.rows[i].val)
    {
      if i < j {
        assert key(t.rows[i].val) != key(t.rows[j].val);
      } else {
        assert key(t.rows[j].val) != key(t.rows[i].val);
      }
    }
  }

  /** `cursor.rowcount` of a statement `WHERE id = ?` is positive exactly when the id exists. */
  lemma CountId<R(!new)>(t: Table<R>, id: int)
    ensures Count(t.rows, IdIs(id)) > 0 <==> HasId(t, id)
  {
    if HasId(t, id) {
      var i :| 0 <= i < |t.rows| && t.rows[i].id == id;
      assert t.rows[i] in Select(t.rows, IdIs(id));
    }
    if Count(t.rows, IdIs(id)) > 0 {
      var x := Select(t.rows, IdIs(id))[0];
      assert x in Select(t.rows, IdIs(id));
    }
  }

  /** `SELECT ... WHERE id = ?` then `fetchone()`. */
  function ById<R>(t: Table<R>, id: int): (r: Option<Row<R>>)
    ensures r.Some? ==> r.value in t.rows && r.value.id == id
    ensures r.None? <==> !HasId(t, id)
  {
    match FirstIndex(t.rows, IdIs(id))
    case Some(k) => Some(t.rows[k])
    case None => None
  }
}
