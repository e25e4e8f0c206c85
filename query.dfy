/**
 * The SQL the handlers issue, read as operations on in-memory tables: a table
 * is a map from the auto-increment primary key to the row, a `SELECT` scans it
 * in key order, a `WHERE` is a filter and an `ORDER BY` a sort.
 */
module Query {
  import opened Wrappers

  /** Every key of the table was handed out before `next` (auto-increment). */
  ghost predicate KeysBelow<R>(m: map<nat, R>, next: nat) {
    forall k :: k in m ==> k < next
  }

  /** The rows with key below `n`, in ascending key order. */
  function Rows<R(==)>(m: map<nat, R>, n: nat): (r: seq<R>)
    ensures forall i :: 0 <= i < |r| ==> r[i] in m.Values
  {
    if n == 0 then []
    else Rows(m, n - 1) + (if n - 1 in m then [m[n - 1]] else [])
  }

  /** A scan up to the auto-increment counter sees every row. */
  lemma {:induction false} RowsComplete<R>(m: map<nat, R>, n: nat)
    requires KeysBelow(m, n)
    ensures forall x :: x in Rows(m, n) <==> x in m.Values
  {
    forall x | x in m.Values ensures x in Rows(m, n) {
      var k :| k in m && m[k] == x;
      RowsContain(m, n, k);
    }
  }

  lemma {:induction false} RowsContain<R>(m: map<nat, R>, n: nat, k: nat)
    requires k in m && k < n
    ensures m[k] in Rows(m, n)
  {
    if k < n - 1 {
      RowsContain(m, n - 1, k);
    }
  }

  /** `WHERE p`: the rows satisfying `p`, order kept. */
  function Filter<T(==,!new)>(s: seq<T>, p: T -> bool): (r: seq<T>)
    ensures forall i :: 0 <= i < |r| ==> r[i] in s && p(r[i])
    ensures forall i :: 0 <= i < |s| && p(s[i]) ==> s[i] in r
    ensures multiset(r) <= multiset(s)
    ensures forall x :: multiset(r)[x] == if p(x) then multiset(s)[x] else 0
  {
    if s == [] then []
    else
      assert s == [s[0]] + s[1..];
      (if p(s[0]) then [s[0]] else []) + Filter(s[1..], p)
  }

  // ---------------------------------------------------------------------------
  // Each row once
  // ---------------------------------------------------------------------------

  /** Every row carries its own key in the column `id` reads. */
  ghost predicate Keyed<R>(m: map<nat, R>, id: R -> nat) {
    forall k :: k in m ==> id(m[k]) == k
  }

  /** No two elements share an id: each row is listed once. */
  ghost predicate UniqueBy<T>(s: seq<T>, id: T -> nat) {
    forall i, j :: 0 <= i < j < |s| ==> id(s[i]) != id(s[j])
  }

  /** On a table whose rows carry their keys, a scan lists the ids strictly ascending, so each row once. */
  lemma {:induction false} RowsUnique<R>(m: map<nat, R>, n: nat, id: R -> nat)
    requires Keyed(m, id)
    ensures forall i :: 0 <= i < |Rows(m, n)| ==> id(Rows(m, n)[i]) < n
    ensures forall i, j :: 0 <= i < j < |Rows(m, n)| ==> id(Rows(m, n)[i]) < id(Rows(m, n)[j])
    ensures UniqueBy(Rows(m, n), id)
  {
    if n > 0 {
      RowsUnique(m, n - 1, id);
      var front := Rows(m, n - 1);
      var r := Rows(m, n);
      if n - 1 in m {
        assert r == front + [m[n - 1]];
        assert id(r[|front|]) == n - 1;
        assert forall i :: 0 <= i < |front| ==> r[i] == front[i];
      } else {
        assert r == front;
      }
    }
  }

  /** Without its first element a sequence keeps unique ids, none of them the first one's. */
  lemma UniqueTail<T>(s: seq<T>, id: T -> nat)
    requires UniqueBy(s, id) && s != []
    ensures UniqueBy(s[1..], id)
    ensures forall x :: x in s[1..] ==> id(x) != id(s[0])
  {
    var t := s[1..];
    forall i, j | 0 <= i < j < |t| ensures id(t[i]) != id(t[j]) {
      assert t[i] == s[i + 1] && t[j] == s[j + 1];
    }
    forall x | x in t ensures id(x) != id(s[0]) {
      var k :| 0 <= k < |t| && t[k] == x;
      assert s[k + 1] == x;
    }
  }

  /** With unique ids no element occurs twice. */
  lemma {:induction false} UniqueOnce<T>(s: seq<T>, id: T -> nat)
    requires UniqueBy(s, id)
    ensures forall x :: multiset(s)[x] <= 1
  {
    if s != [] {
      var t := s[1..];
      UniqueTail(s, id);
      UniqueOnce(t, id);
      assert s == [s[0]] + t;
      assert multiset(s) == multiset{s[0]} + multiset(t);
      assert s[0] !in t;
    }
  }

  /** Dropping or reordering rows, as a WHERE or an ORDER BY does, keeps each id at most once. */
  lemma UniqueSub<T>(s: seq<T>, t: seq<T>, id: T -> nat)
    requires UniqueBy(s, id) && multiset(t) <= multiset(s)
    ensures UniqueBy(t, id)
  {
    UniqueOnce(s, id);
    forall i, j | 0 <= i < j < |t| ensures id(t[i]) != id(t[j]) {
      if t[i] == t[j] {
        CountedTwice(t, i, j);
        assert false;
      } else {
        assert t[i] in multiset(s) && t[j] in multiset(s);
        var p :| 0 <= p < |s| && s[p] == t[i];
        var q :| 0 <= q < |s| && s[q] == t[j];
        assert p != q;
      }
    }
  }

  /** An element at two positions occurs at least twice. */
  lemma CountedTwice<T>(t: seq<T>, i: nat, j: nat)
    requires i < j < |t| && t[i] == t[j]
    ensures multiset(t)[t[i]] >= 2
  {
    assert t == t[..j] + t[j..];
    assert t[i] in t[..j];
    assert t[j..][0] == t[j];
  }

  /**
   * The first row of an unordered `SELECT ... WHERE p`, taken as the one with
   * the smallest key in [lo, hi); None when no row matches.
   */
  function FirstKey<R(==)>(m: map<nat, R>, p: R -> bool, lo: nat, hi: nat): (r: Option<nat>)
    ensures r.Some? ==> lo <= r.value < hi && r.value in m && p(m[r.value])
    ensures r.Some? ==> forall k :: lo <= k < r.value && k in m ==> !p(m[k])
    ensures r.None? ==> forall k :: lo <= k < hi && k in m ==> !p(m[k])
    decreases hi - lo
  {
    if lo >= hi then None
    else if lo in m && p(m[lo]) then Some(lo)
    else FirstKey(m, p, lo + 1, hi)
  }

  // ---------------------------------------------------------------------------
  // ORDER BY
  // ---------------------------------------------------------------------------

  /** Ascending by `key`; `ORDER BY c DESC` is ascending by the negated column. */
  predicate SortedBy<T>(s: seq<T>, key: T -> int) {
    forall i, j :: 0 <= i < j < |s| ==> key(s[i]) <= key(s[j])
  }

  function Insert<T(==)>(x: T, s: seq<T>, key: T -> int): (r: seq<T>)
    ensures multiset(r) == multiset(s) + multiset{x}
  {
    if s == [] then [x]
    else if key(x) <= key(s[0]) then [x] + s
    else
      assert s == [s[0]] + s[1..];
      [s[0]] + Insert(x, s[1..], key)
  }

  lemma {:induction false} InsertSorted<T>(x: T, s: seq<T>, key: T -> int)
    requires SortedBy(s, key)
    ensures SortedBy(Insert(x, s, key), key)
  {
    if s != [] && key(x) > key(s[0]) {
      var tail := s[1..];
      assert SortedBy(tail, key) by {
        forall i, j | 0 <= i < j < |tail| ensures key(tail[i]) <= key(tail[j]) {
          assert tail[i] == s[i + 1] && tail[j] == s[j + 1];
        }
      }
      assert forall i :: 0 <= i < |tail| ==> key(s[0]) <= key(tail[i]) by {
        forall i | 0 <= i < |tail| ensures key(s[0]) <= key(tail[i]) {
          assert tail[i] == s[i + 1];
        }
      }
      var t := Insert(x, tail, key);
      InsertSorted(x, tail, key);
      InsertAbove(x, tail, key, key(s[0]));
      var r := Insert(x, s, key);
      assert r == [s[0]] + t;
      forall i, j | 0 <= i < j < |r| ensures key(r[i]) <= key(r[j]) {
        assert r[j] == t[j - 1];
        if i > 0 {
          assert r[i] == t[i - 1];
        }
      }
    }
  }

  /** Inserting keeps a lower bound that holds of the element and the sequence. */
  lemma {:induction false} InsertAbove<T>(x: T, s: seq<T>, key: T -> int, b: int)
    requires b <= key(x)
    requires forall i :: 0 <= i < |s| ==> b <= key(s[i])
    ensures forall i :: 0 <= i < |Insert(x, s, key)| ==> b <= key(Insert(x, s, key)[i])
  {
    if s != [] && key(x) > key(s[0]) {
      InsertAbove(x, s[1..], key, b);
      var t := Insert(x, s[1..], key);
      assert Insert(x, s, key) == [s[0]] + t;
    }
  }

  /** `ORDER BY key`: an insertion sort, a permutation of its input. */
  function SortByKey<T(==)>(s: seq<T>, key: T -> int): (r: seq<T>)
    ensures multiset(r) == multiset(s)
  {
    if s == [] then []
    else
      assert s == [s[0]] + s[1..];
      Insert(s[0], SortByKey(s[1..], key), key)
  }

  lemma {:induction false} SortByKeySorted<T>(s: seq<T>, key: T -> int)
    ensures SortedBy(SortByKey(s, key), key)
  {
    if s != [] {
      SortByKeySorted(s[1..], key);
      InsertSorted(s[0], SortByKey(s[1..], key), key);
    }
  }

  /** Sorting keeps exactly the rows it was given. */
  lemma SortByKeyMembers<T>(s: seq<T>, key: T -> int)
    ensures forall x :: x in SortByKey(s, key) <==> x in s
  {
    var r := SortByKey(s, key);
    forall x ensures x in r <==> x in s {
      assert x in r <==> x in multiset(r);
      assert x in s <==> x in multiset(s);
    }
  }
}
