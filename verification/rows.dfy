/** Relational building blocks over tables held as sequences of rows:
    `SELECT view FROM rows WHERE keep`, the first row a lookup returns, and
    the reversal that turns a table stored in ascending id order into an
    `ORDER BY id DESC` listing. */
module Rows {
  import opened Wrappers

  /** Every earlier row stands in relation `before` to every later one. */
  ghost predicate Sorted<T>(rows: seq<T>, before: (T, T) -> bool) {
    forall i, j :: 0 <= i < j < |rows| ==> before(rows[i], rows[j])
  }

  /** Strictly ascending `key` order. */
  ghost predicate Ascending<T>(rows: seq<T>, key: T -> int) {
    forall i, j :: 0 <= i < j < |rows| ==> key(rows[i]) < key(rows[j])
  }

  /** Strictly descending `key` order. */
  ghost predicate Descending<T>(rows: seq<T>, key: T -> int) {
    forall i, j :: 0 <= i < j < |rows| ==> key(rows[i]) > key(rows[j])
  }

  /** The first row that `p` accepts, as `result[0] if result else None`
      returns it from a query that scans the table in storage order. */
  function First<T>(rows: seq<T>, p: T -> bool): (r: Option<T>)
    ensures r.Some? ==> r.value in rows && p(r.value)
    ensures r.None? <==> forall t :: t in rows ==> !p(t)
    ensures r.Some? ==> exists i :: 0 <= i < |rows| && rows[i] == r.value && forall j :: 0 <= j < i ==> !p(rows[j])
  {
    if |rows| == 0 then None
    else if p(rows[0]) then Some(rows[0])
    else
      var r := First(rows[1..], p);
      assert forall t :: t in rows ==> t == rows[0] || t in rows[1..];
      assert forall i :: 0 <= i < |rows[1..]| ==> rows[1..][i] == rows[i + 1];
      r
  }

  /** When at most one row can match, the lookup returns that row. */
  lemma {:induction false} FirstIsOnly<T>(rows: seq<T>, p: T -> bool, t: T)
    requires forall i, j :: 0 <= i < j < |rows| && p(rows[i]) ==> !p(rows[j])
    requires t in rows && p(t)
    ensures First(rows, p) == Some(t)
  {
    if rows[0] != t {
      var k :| 0 <= k < |rows| && rows[k] == t;
      assert k > 0;
      assert !p(rows[0]);
      assert rows[1..][k - 1] == t;
      FirstIsOnly(rows[1..], p, t);
    }
  }

  /** Two tests that agree on every row find the same first row. */
  lemma {:induction false} FirstAgrees<T>(rows: seq<T>, p: T -> bool, q: T -> bool)
    requires forall t :: t in rows ==> p(t) == q(t)
    ensures First(rows, p) == First(rows, q)
  {
    if |rows| > 0 {
      assert forall t :: t in rows[1..] ==> t in rows;
      FirstAgrees(rows[1..], p, q);
    }
  }

  /** Appending a row cannot change a match found earlier, and when nothing
      matched before, the appended row is found if it matches. */
  lemma {:induction false} FirstOfAppend<T>(rows: seq<T>, x: T, p: T -> bool)
    ensures First(rows + [x], p) == (if First(rows, p).Some? || !p(x) then First(rows, p) else Some(x))
  {
    if |rows| > 0 {
      assert (rows + [x])[0] == rows[0];
      assert (rows + [x])[1..] == rows[1..] + [x];
      FirstOfAppend(rows[1..], x, p);
    }
  }

  /** Position of the first row whose `key` is `x`, as a scan in storage
      order finds it; |rows| when there is none. */
  function IndexBy<T, K(==)>(rows: seq<T>, key: T -> K, x: K): (k: nat)
    ensures k <= |rows|
    ensures k < |rows| ==> key(rows[k]) == x
    ensures forall j :: 0 <= j < k ==> key(rows[j]) != x
  {
    if |rows| == 0 then 0
    else if key(rows[0]) == x then 0
    else 1 + IndexBy(rows[1..], key, x)
  }

  /** Appending a row moves no earlier match, and a new key is found at the
      appended row or not at all. */
  lemma {:induction false} IndexByOfAppend<T, K>(rows: seq<T>, t: T, key: T -> K, x: K)
    ensures IndexBy(rows + [t], key, x)
         == if IndexBy(rows, key, x) < |rows| || key(t) == x then IndexBy(rows, key, x) else |rows| + 1
  {
    if |rows| > 0 {
      assert (rows + [t])[1..] == rows[1..] + [t];
      IndexByOfAppend(rows[1..], t, key, x);
    }
  }

  /** The rows that `keep` accepts, each projected through `view`, in the
      order the rows appear. */
  function Select<T, V>(rows: seq<T>, keep: T -> bool, view: T -> V): (r: seq<V>)
    ensures |r| <= |rows|
    ensures forall t :: t in rows && keep(t) ==> view(t) in r
    ensures forall v :: v in r ==> exists t :: t in rows && keep(t) && v == view(t)
  {
    if |rows| == 0 then []
    else
      var rest := Select(rows[1..], keep, view);
      assert forall t :: t in rows ==> t == rows[0] || t in rows[1..];
      (if keep(rows[0]) then [view(rows[0])] else []) + rest
  }

  /** Selecting from two tables one after the other is selecting from each. */
  lemma {:induction false} SelectConcat<T, V>(a: seq<T>, b: seq<T>, keep: T -> bool, view: T -> V)
    ensures Select(a + b, keep, view) == Select(a, keep, view) + Select(b, keep, view)
  {
    if |a| > 0 {
      assert (a + b)[0] == a[0];
      assert (a + b)[1..] == a[1..] + b;
      SelectConcat(a[1..], b, keep, view);
    } else {
      assert a + b == b;
    }
  }

  /** Nothing is selected when no row is kept. */
  lemma {:induction false} SelectNone<T, V>(rows: seq<T>, keep: T -> bool, view: T -> V)
    requires forall t :: t in rows ==> !keep(t)
    ensures Select(rows, keep, view) == []
  {
    if |rows| > 0 {
      assert forall t :: t in rows[1..] ==> t in rows;
      SelectNone(rows[1..], keep, view);
    }
  }

  /** A sequence with no members is empty. */
  lemma NoMembers<T>(s: seq<T>)
    requires forall x :: x !in s
    ensures s == []
  {
    if |s| > 0 {
      HeadIsMember(s);
      assert false;
    }
  }

  /** The first element of a non-empty sequence is one of its members. */
  lemma HeadIsMember<T>(s: seq<T>)
    requires |s| > 0
    ensures s[0] in s
  {
  }

  /** Two selections that agree on which rows they keep and on how they show
      them give the same result. */
  lemma {:induction false} SelectAgrees<T, V>(rows: seq<T>, keep: T -> bool, view: T -> V, keep': T -> bool, view': T -> V)
    requires forall t :: t in rows ==> keep(t) == keep'(t) && (keep(t) ==> view(t) == view'(t))
    ensures Select(rows, keep, view) == Select(rows, keep', view')
  {
    if |rows| > 0 {
      assert forall t :: t in rows[1..] ==> t in rows;
      SelectAgrees(rows[1..], keep, view, keep', view');
    }
  }

  /** `DELETE FROM rows WHERE NOT keep`: the rows that `keep` accepts, in order. */
  function Where<T(!new)>(rows: seq<T>, keep: T -> bool): (r: seq<T>)
    ensures forall t :: t in r <==> t in rows && keep(t)
    ensures |r| <= |rows|
  {
    Select(rows, keep, (t: T) => t)
  }

  /** Selecting keeps the rows in their relative order: a projection that
      carries `before` over to `vbefore` yields a `vbefore`-sorted result. */
  lemma {:induction false} SelectKeepsOrder<T, V>(rows: seq<T>, keep: T -> bool, view: T -> V,
                                                 before: (T, T) -> bool, vbefore: (V, V) -> bool)
    requires forall s, t :: before(s, t) ==> vbefore(view(s), view(t))
    requires Sorted(rows, before)
    ensures Sorted(Select(rows, keep, view), vbefore)
  {
    if |rows| > 0 {
      var rest := Select(rows[1..], keep, view);
      assert Sorted(rows[1..], before) by {
        forall i, j | 0 <= i < j < |rows[1..]|
          ensures before(rows[1..][i], rows[1..][j])
        {
          assert rows[1..][i] == rows[i + 1] && rows[1..][j] == rows[j + 1];
        }
      }
      SelectKeepsOrder(rows[1..], keep, view, before, vbefore);
      forall v | v in rest
        ensures vbefore(view(rows[0]), v)
      {
        var t :| t in rows[1..] && keep(t) && v == view(t);
        var k :| 0 <= k < |rows[1..]| && rows[1..][k] == t;
        assert rows[k + 1] == t;
      }
      var head := if keep(rows[0]) then [view(rows[0])] else [];
      var r := head + rest;
      forall i, j | 0 <= i < j < |r|
        ensures vbefore(r[i], r[j])
      {
        if i < |head| {
          assert r[j] == rest[j - |head|];
          assert r[j] in rest;
        } else {
          assert r[i] == rest[i - |head|] && r[j] == rest[j - |head|];
        }
      }
    }
  }

  /** Deleting rows keeps the survivors in their relative order. */
  lemma WhereKeepsSorted<T(!new)>(rows: seq<T>, keep: T -> bool, before: (T, T) -> bool)
    requires Sorted(rows, before)
    ensures Sorted(Where(rows, keep), before)
  {
    SelectKeepsOrder(rows, keep, (t: T) => t, before, before);
  }

  /** Deleting rows keeps the survivors in ascending key order. */
  lemma WhereKeepsAscending<T(!new)>(rows: seq<T>, keep: T -> bool, key: T -> int)
    requires Ascending(rows, key)
    ensures Ascending(Where(rows, keep), key)
  {
    var before := (s: T, t: T) => key(s) < key(t);
    assert Sorted(rows, before);
    WhereKeepsSorted(rows, keep, before);
    assert Sorted(Where(rows, keep), before);
  }

  /** The rows of `s` back to front. */
  function Reverse<T>(s: seq<T>): (r: seq<T>)
    ensures |r| == |s|
    ensures forall i :: 0 <= i < |s| ==> r[i] == s[|s| - 1 - i]
  {
    if |s| == 0 then [] else Reverse(s[1..]) + [s[0]]
  }

  /** Reversal keeps exactly the same rows. */
  lemma ReverseSameRows<T>(s: seq<T>)
    ensures forall x :: x in Reverse(s) <==> x in s
  {
    var r := Reverse(s);
    forall x | x in s ensures x in r {
      var i :| 0 <= i < |s| && s[i] == x;
      assert r[|s| - 1 - i] == x;
    }
  }

  /** A table stored in ascending key order, read back to front, is in
      descending key order. */
  lemma ReverseOfAscending<T>(s: seq<T>, key: T -> int)
    requires Ascending(s, key)
    ensures Descending(Reverse(s), key)
  {
    var r := Reverse(s);
    forall i, j | 0 <= i < j < |r|
      ensures key(r[i]) > key(r[j])
    {
      assert r[i] == s[|s| - 1 - i] && r[j] == s[|s| - 1 - j];
    }
  }

  /** `SELECT view FROM rows WHERE keep ORDER BY key DESC` on a table that is
      stored in ascending key order: the table is scanned back to front. */
  function NewestFirst<T(!new), V>(rows: seq<T>, keep: T -> bool, view: T -> V,
                                   key: T -> int, vkey: V -> int): (r: seq<V>)
    requires forall t :: vkey(view(t)) == key(t)
    ensures |r| <= |rows|
    ensures forall t :: t in rows && keep(t) ==> view(t) in r
    ensures forall v :: v in r ==> exists t :: t in rows && keep(t) && v == view(t)
    ensures Ascending(rows, key) ==> Descending(r, vkey)
  {
    ReverseSameRows(rows);
    NewestFirstOrdered(rows, keep, view, key, vkey);
    Select(Reverse(rows), keep, view)
  }

  lemma NewestFirstOrdered<T, V>(rows: seq<T>, keep: T -> bool, view: T -> V,
                                 key: T -> int, vkey: V -> int)
    requires forall t :: vkey(view(t)) == key(t)
    ensures Ascending(rows, key) ==> Descending(Select(Reverse(rows), keep, view), vkey)
  {
    if Ascending(rows, key) {
      ReverseOfAscending(rows, key);
      var before := (s: T, t: T) => key(s) > key(t);
      var vbefore := (v: V, w: V) => vkey(v) > vkey(w);
      assert Sorted(Reverse(rows), before);
      SelectKeepsOrder(Reverse(rows), keep, view, before, vbefore);
      var r := Select(Reverse(rows), keep, view);
      assert Sorted(r, vbefore);
      assert forall i, j :: 0 <= i < j < |r| ==> vbefore(r[i], r[j]);
    }
  }
}
