/** A relational table as the sequence of its rows in insertion (rowid)
    order, with the handful of statements the repositories issue against it:
    a point lookup, INSERT, DELETE ... WHERE and UPDATE ... WHERE. A column
    is a projection `key: R -> string` from a row to one of its text fields. */
module Tables {
  import opened Outcomes

  /** Every value column `key` takes in `t`. */
  function Column<R(==)>(t: seq<R>, key: R -> string): set<string>
  {
    set x | x in t :: key(x)
  }

  /** No two rows of `t` agree on column `key`: what a PRIMARY KEY or UNIQUE
      constraint guarantees. */
  predicate Unique<R(==)>(t: seq<R>, key: R -> string)
  {
    forall i, j :: 0 <= i < |t| && 0 <= j < |t| && i != j ==> key(t[i]) != key(t[j])
  }

  /** Position of the first row whose column `key` equals `v`, or `|t|` when
      no row does: the order a full scan in rowid order meets the rows. */
  function IndexOf<R(==)>(t: seq<R>, key: R -> string, v: string): (i: nat)
    ensures i <= |t|
    ensures i < |t| ==> key(t[i]) == v
    ensures forall j :: 0 <= j < i ==> key(t[j]) != v
    ensures i == |t| <==> v !in Column(t, key)
    decreases |t|
  {
    if |t| == 0 then 0
    else if key(t[0]) == v then 0
    else 1 + IndexOf(t[1..], key, v)
  }

  /** `SELECT ... WHERE key = v` read with `QueryRow`: the first matching row,
      or nothing. Under a uniqueness constraint it is THE matching row. */
  function Lookup<R(==)>(t: seq<R>, key: R -> string, v: string): (r: Option<R>)
    ensures r.None? <==> v !in Column(t, key)
    ensures r.Some? ==> r.value in t && key(r.value) == v
    ensures Unique(t, key) ==> forall j :: 0 <= j < |t| && key(t[j]) == v ==> r == Some(t[j])
  {
    var i := IndexOf(t, key, v);
    if i < |t| then Some(t[i]) else None
  }

  /** The rows of `t` that satisfy `p`, in table order. */
  function Filter<R(==)>(t: seq<R>, p: R -> bool): (u: seq<R>)
    ensures |u| <= |t|
    ensures forall x :: x in u ==> x in t && p(x)
    ensures forall x :: x in t && p(x) ==> x in u
  {
    if |t| == 0 then []
    else if p(t[0]) then [t[0]] + Filter(t[1..], p)
    else Filter(t[1..], p)
  }

  /** The row predicate `key(x) != v`. */
  function KeyIsNot<R>(key: R -> string, v: string): R -> bool
  {
    (x: R) => key(x) != v
  }

  /** The row predicate `key(x) == v`. */
  function KeyIs<R>(key: R -> string, v: string): R -> bool
  {
    (x: R) => key(x) == v
  }

  /** `DELETE FROM t WHERE key = v`. */
  function Without<R(==)>(t: seq<R>, key: R -> string, v: string): (u: seq<R>)
    ensures forall x :: x in u ==> x in t && key(x) != v
    ensures forall x :: x in t && key(x) != v ==> x in u
    ensures Column(u, key) == Column(t, key) - {v}
  {
    Filter(t, KeyIsNot(key, v))
  }

  /** Removing the element at position `i`, keeping the others in order. */
  function RemoveAt<R>(t: seq<R>, i: nat): (u: seq<R>)
    requires i < |t|
    ensures |u| == |t| - 1
    ensures forall j :: 0 <= j < i ==> u[j] == t[j]
    ensures forall j :: i <= j < |u| ==> u[j] == t[j + 1]
  {
    t[..i] + t[i + 1..]
  }

  /** `SELECT ... WHERE key = v` read with `Query`: every matching row. */
  function Matching<R(==)>(t: seq<R>, key: R -> string, v: string): (u: seq<R>)
    ensures forall x :: x in u ==> x in t && key(x) == v
    ensures forall x :: x in t && key(x) == v ==> x in u
  {
    Filter(t, KeyIs(key, v))
  }

  /** `UPDATE t SET <every other column> WHERE key = key(row)`: each row that
      agrees with `row` on `key` becomes `row`, in place. */
  function Replace<R(==)>(t: seq<R>, key: R -> string, row: R): (u: seq<R>)
    ensures |u| == |t|
    ensures forall i :: 0 <= i < |t| ==> u[i] == (if key(t[i]) == key(row) then row else t[i])
  {
    seq(|t|, i requires 0 <= i < |t| => if key(t[i]) == key(row) then row else t[i])
  }

  /** Prepending a row keeps a column unique exactly when the row's value is
      new to the rest. */
  lemma {:induction false} UniqueCons<R>(x: R, u: seq<R>, key: R -> string)
    ensures Unique([x] + u, key) <==> Unique(u, key) && key(x) !in Column(u, key)
  {
    var t := [x] + u;
    if Unique(t, key) {
      forall i, j | 0 <= i < |u| && 0 <= j < |u| && i != j
        ensures key(u[i]) != key(u[j])
      {
        assert u[i] == t[i + 1] && u[j] == t[j + 1];
      }
      forall y | y in u
        ensures key(y) != key(x)
      {
        var k :| 0 <= k < |u| && u[k] == y;
        assert t[k + 1] == y && t[0] == x;
      }
    }
    if Unique(u, key) && key(x) !in Column(u, key) {
      forall i, j | 0 <= i < |t| && 0 <= j < |t| && i != j
        ensures key(t[i]) != key(t[j])
      {
        if i == 0 {
          assert t[j] == u[j - 1] && t[j] in u;
        } else if j == 0 {
          assert t[i] == u[i - 1] && t[i] in u;
        } else {
          assert t[i] == u[i - 1] && t[j] == u[j - 1];
        }
      }
    }
  }

  /** DELETE, or any other filter, never breaks a uniqueness constraint. */
  lemma {:induction false} FilterKeepsUnique<R>(t: seq<R>, p: R -> bool, key: R -> string)
    requires Unique(t, key)
    ensures Unique(Filter(t, p), key)
  {
    if |t| > 0 {
      assert t == [t[0]] + t[1..];
      UniqueCons(t[0], t[1..], key);
      FilterKeepsUnique(t[1..], p, key);
      var rest := Filter(t[1..], p);
      if p(t[0]) {
        assert Column(rest, key) <= Column(t[1..], key);
        UniqueCons(t[0], rest, key);
      }
    }
  }

  /** INSERT of a row whose value is new keeps the column unique and adds
      exactly that value. */
  lemma AppendKeepsUnique<R>(t: seq<R>, key: R -> string, row: R)
    requires Unique(t, key)
    requires key(row) !in Column(t, key)
    ensures Unique(t + [row], key)
    ensures Column(t + [row], key) == Column(t, key) + {key(row)}
  {
  }

  /** UPDATE by primary key keeps another column `other` unique when no
      row with a different key already holds the new row's value. With
      `other == key` it says UPDATE keeps the primary key unique. */
  lemma ReplaceKeepsUnique<R>(t: seq<R>, key: R -> string, other: R -> string, row: R)
    requires Unique(t, key) && Unique(t, other)
    requires forall x :: x in t && key(x) != key(row) ==> other(x) != other(row)
    ensures Unique(Replace(t, key, row), other)
  {
  }

  /** A filter every row passes keeps the whole table. */
  lemma {:induction false} FilterAll<R>(t: seq<R>, p: R -> bool)
    requires forall x :: x in t ==> p(x)
    ensures Filter(t, p) == t
  {
    if |t| > 0 {
      assert forall x :: x in t[1..] ==> x in t;
      FilterAll(t[1..], p);
      assert t == [t[0]] + t[1..];
    }
  }

  /** Under a uniqueness constraint, `DELETE ... WHERE key = v` removes
      exactly the one matching row and keeps the others in order. */
  lemma {:induction false} WithoutUniqueRemovesOne<R>(t: seq<R>, key: R -> string, v: string)
    requires Unique(t, key)
    requires v in Column(t, key)
    ensures Without(t, key, v) == RemoveAt(t, IndexOf(t, key, v))
    ensures |Without(t, key, v)| == |t| - 1
  {
    assert t == [t[0]] + t[1..];
    UniqueCons(t[0], t[1..], key);
    if key(t[0]) == v {
      FilterAll(t[1..], KeyIsNot(key, v));
      assert t[1..] == RemoveAt(t, 0);
    } else {
      assert v in Column(t[1..], key) by {
        var x :| x in t && key(x) == v;
        assert x != t[0];
        assert x in t[1..];
      }
      WithoutUniqueRemovesOne(t[1..], key, v);
      var i := IndexOf(t[1..], key, v);
      assert IndexOf(t, key, v) == i + 1;
      assert [t[0]] + RemoveAt(t[1..], i) == RemoveAt(t, i + 1);
    }
  }

  /** Appending a row does not move the first match of a value the table
      already holds; a value it does not hold is first met at the new row,
      if at all. */
  lemma IndexOfAppend<R>(t: seq<R>, key: R -> string, row: R, v: string)
    ensures v in Column(t, key) ==> IndexOf(t + [row], key, v) == IndexOf(t, key, v)
    ensures v !in Column(t, key) && key(row) == v ==> IndexOf(t + [row], key, v) == |t|
  {
    var u := t + [row];
    assert forall k :: 0 <= k < |t| ==> u[k] == t[k];
    assert u[|t|] == row;
  }
}
