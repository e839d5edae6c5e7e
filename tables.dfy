/** The query primitives of the relational store, on a table held as a sequence of rows:
    `.eq(column, value)` selection, `.delete().eq(column, value)`, `.single()` /
    `.maybeSingle()`, and `.order(column, { ascending: false })`. */
module Tables {
  import opened Wrappers

  /** No two rows of `s` agree on `key`: a unique index on that column. */
  ghost predicate UniqueBy<T, K>(s: seq<T>, key: T -> K) {
    forall i, j :: 0 <= i < j < |s| ==> key(s[i]) != key(s[j])
  }

  /** `.select().eq(column, k)`: the rows whose `key` is `k`, in table order. */
  function Select<T(!new), K(==)>(s: seq<T>, key: T -> K, k: K): (r: seq<T>)
    ensures |r| <= |s|
    ensures forall x :: x in r <==> x in s && key(x) == k
  {
    if s == [] then []
    else if key(s[0]) == k then [s[0]] + Select(s[1..], key, k)
    else Select(s[1..], key, k)
  }

  /** `.delete().eq(column, k)`: the table without the rows whose `key` is `k`. */
  function Reject<T(!new), K(==)>(s: seq<T>, key: T -> K, k: K): (r: seq<T>)
    ensures |r| <= |s|
    ensures forall x :: x in r <==> x in s && key(x) != k
  {
    if s == [] then []
    else if key(s[0]) == k then Reject(s[1..], key, k)
    else [s[0]] + Reject(s[1..], key, k)
  }

  /** `.single()` and `.maybeSingle()`: the row when there is exactly one, and no row
      (an error, or null) otherwise. */
  function Single<T>(s: seq<T>): (r: Option<T>)
    ensures r.Some? <==> |s| == 1
    ensures r.Some? ==> r.value == s[0]
  {
    if |s| == 1 then Some(s[0]) else None
  }

  /** `.eq(column, k).single()`. */
  function Lookup<T(!new), K(==)>(s: seq<T>, key: T -> K, k: K): (r: Option<T>)
    ensures r.Some? ==> r.value in s && key(r.value) == k
  {
    Single(Select(s, key, k))
  }

  /** On a uniquely keyed table the selection holds at most the one matching row. */
  lemma {:induction false} SelectUnique<T(!new), K>(s: seq<T>, key: T -> K, k: K)
    requires UniqueBy(s, key)
    ensures |Select(s, key, k)| <= 1
  {
    if s != [] {
      assert UniqueBy(s[1..], key) by {
        forall i, j | 0 <= i < j < |s[1..]| ensures key(s[1..][i]) != key(s[1..][j]) {
          assert key(s[i + 1]) != key(s[j + 1]);
        }
      }
      SelectUnique(s[1..], key, k);
      if key(s[0]) == k {
        forall y | y in s[1..] ensures key(y) != k {
          var j :| 0 <= j < |s[1..]| && s[1..][j] == y;
          assert key(s[0]) != key(s[j + 1]);
        }
        SelectAbsent(s[1..], key, k);
      }
    }
  }

  /** Selecting a key no row carries gives no row. */
  lemma {:induction false} SelectAbsent<T(!new), K>(s: seq<T>, key: T -> K, k: K)
    requires forall x :: x in s ==> key(x) != k
    ensures Select(s, key, k) == []
  {
    if s != [] {
      SelectAbsent(s[1..], key, k);
    }
  }

  /** On a uniquely keyed table, a lookup finds a row exactly when one carries the key. */
  lemma LookupUnique<T(!new), K>(s: seq<T>, key: T -> K, k: K)
    requires UniqueBy(s, key)
    ensures Lookup(s, key, k).Some? <==> exists i :: 0 <= i < |s| && key(s[i]) == k
    ensures forall i :: 0 <= i < |s| && key(s[i]) == k ==> Lookup(s, key, k) == Some(s[i])
  {
    SelectUnique(s, key, k);
    var r := Select(s, key, k);
    forall i | 0 <= i < |s| && key(s[i]) == k ensures Lookup(s, key, k) == Some(s[i]) {
      assert s[i] in r;
    }
    if r != [] {
      assert r[0] in s;
    }
  }

  /** Two uniquely keyed tables holding the same rows with key `k` give the same lookup
      for `k`: what happens to rows with other keys does not matter. */
  lemma LookupAgrees<T(!new), K>(s: seq<T>, t: seq<T>, key: T -> K, k: K)
    requires UniqueBy(s, key) && UniqueBy(t, key)
    requires forall x :: key(x) == k ==> (x in s <==> x in t)
    ensures Lookup(s, key, k) == Lookup(t, key, k)
  {
    LookupUnique(s, key, k);
    LookupUnique(t, key, k);
    forall j | 0 <= j < |t| && key(t[j]) == k ensures exists i :: 0 <= i < |s| && key(s[i]) == k {
      var i :| 0 <= i < |s| && s[i] == t[j];
    }
    if i :| 0 <= i < |s| && key(s[i]) == k {
      var j :| 0 <= j < |t| && t[j] == s[i];
    }
  }

  /** Unique keys survive deleting rows. */
  lemma {:induction false} RejectKeepsUnique<T(!new), K, J>(s: seq<T>, key: T -> K, k: K, index: T -> J)
    requires UniqueBy(s, index)
    ensures UniqueBy(Reject(s, key, k), index)
  {
    if s != [] {
      assert UniqueBy(s[1..], index) by {
        forall i, j | 0 <= i < j < |s[1..]| ensures index(s[1..][i]) != index(s[1..][j]) {
          assert index(s[i + 1]) != index(s[j + 1]);
        }
      }
      RejectKeepsUnique(s[1..], key, k, index);
      var rest := Reject(s[1..], key, k);
      if key(s[0]) != k {
        forall y | y in rest ensures index(y) != index(s[0]) {
          var j :| 0 <= j < |s[1..]| && s[1..][j] == y;
          assert index(s[0]) != index(s[j + 1]);
        }
        PrependKeepsUnique(s[0], rest, index);
      }
    }
  }

  lemma PrependKeepsUnique<T, J>(x: T, s: seq<T>, index: T -> J)
    requires UniqueBy(s, index)
    requires forall y :: y in s ==> index(y) != index(x)
    ensures UniqueBy([x] + s, index)
  {
    var t := [x] + s;
    forall i, j | 0 <= i < j < |t| ensures index(t[i]) != index(t[j]) {
      assert t[j] == s[j - 1];
      if i > 0 {
        assert t[i] == s[i - 1];
      }
    }
  }

  /** Inserting a row whose key no row has keeps the keys unique. */
  lemma AppendKeepsUnique<T, J>(s: seq<T>, x: T, index: T -> J)
    requires UniqueBy(s, index)
    requires forall y :: y in s ==> index(y) != index(x)
    ensures UniqueBy(s + [x], index)
  {
    var t := s + [x];
    forall i, j | 0 <= i < j < |t| ensures index(t[i]) != index(t[j]) {
      assert t[i] == s[i];
      if j < |s| {
        assert t[j] == s[j];
      }
    }
  }

  /** On a uniquely keyed table, deleting by key removes exactly one row when one carries it. */
  lemma {:induction false} RejectUniqueSize<T(!new), K>(s: seq<T>, key: T -> K, k: K)
    requires UniqueBy(s, key)
    requires exists i :: 0 <= i < |s| && key(s[i]) == k
    ensures |Reject(s, key, k)| == |s| - 1
  {
    assert UniqueBy(s[1..], key) by {
      forall i, j | 0 <= i < j < |s[1..]| ensures key(s[1..][i]) != key(s[1..][j]) {
        assert key(s[i + 1]) != key(s[j + 1]);
      }
    }
    if key(s[0]) == k {
      RejectAbsent(s[1..], key, k);
    } else {
      var i :| 0 <= i < |s| && key(s[i]) == k;
      assert key(s[1..][i - 1]) == k;
      RejectUniqueSize(s[1..], key, k);
    }
  }

  /** Deleting by a key no row carries changes nothing. */
  lemma {:induction false} RejectAbsent<T(!new), K>(s: seq<T>, key: T -> K, k: K)
    requires forall x :: x in s ==> key(x) != k
    ensures Reject(s, key, k) == s
  {
    if s != [] {
      RejectAbsent(s[1..], key, k);
    }
  }

  /** `s` is ordered by `rank`, largest first. */
  ghost predicate SortedDescBy<T>(s: seq<T>, rank: T -> int) {
    forall i, j :: 0 <= i < j < |s| ==> rank(s[i]) >= rank(s[j])
  }

  /** The head of an ordered sequence ranks at least as high as every row in it. */
  lemma HeadRanksHighest<T>(s: seq<T>, rank: T -> int)
    requires SortedDescBy(s, rank) && s != []
    ensures forall y :: y in multiset(s) ==> rank(s[0]) >= rank(y)
  {
    forall y | y in multiset(s) ensures rank(s[0]) >= rank(y) {
      var j :| 0 <= j < |s| && s[j] == y;
      if j > 0 {
        assert rank(s[0]) >= rank(s[j]);
      }
    }
  }

  /** A row ranking at least as high as every row of an ordered sequence can go in front. */
  lemma SortedCons<T>(x: T, s: seq<T>, rank: T -> int)
    requires SortedDescBy(s, rank)
    requires forall y :: y in multiset(s) ==> rank(x) >= rank(y)
    ensures SortedDescBy([x] + s, rank)
  {
    forall i, j | 0 <= i < j < |[x] + s| ensures rank(([x] + s)[i]) >= rank(([x] + s)[j]) {
      assert ([x] + s)[j] == s[j - 1];
      assert s[j - 1] in multiset(s);
      if i > 0 {
        assert ([x] + s)[i] == s[i - 1];
      }
    }
  }

  /** Puts `x` in front of the first row of `s` that ranks no higher. */
  function InsertDescBy<T>(x: T, s: seq<T>, rank: T -> int): (r: seq<T>)
    ensures multiset(r) == multiset(s) + multiset{x}
    ensures SortedDescBy(s, rank) ==> SortedDescBy(r, rank)
  {
    if s == [] || rank(x) >= rank(s[0]) then
      assert SortedDescBy(s, rank) ==> SortedDescBy([x] + s, rank) by {
        if SortedDescBy(s, rank) && s != [] {
          HeadRanksHighest(s, rank);
          SortedCons(x, s, rank);
        }
      }
      [x] + s
    else
      var rest := InsertDescBy(x, s[1..], rank);
      assert s == [s[0]] + s[1..];
      assert SortedDescBy(s, rank) ==> SortedDescBy([s[0]] + rest, rank) by {
        if SortedDescBy(s, rank) {
          HeadRanksHighest(s, rank);
          assert SortedDescBy(s[1..], rank);
          assert multiset(rest) == multiset(s[1..]) + multiset{x};
          assert multiset(s) == multiset{s[0]} + multiset(s[1..]);
          SortedCons(s[0], rest, rank);
        }
      }
      [s[0]] + rest
  }

  /** `.order(column, { ascending: false })`: the rows reordered, largest `rank` first.
      Rows of equal rank keep their table order, one of the orders the store may return. */
  function SortDescBy<T>(s: seq<T>, rank: T -> int): (r: seq<T>)
    ensures multiset(r) == multiset(s)
    ensures SortedDescBy(r, rank)
  {
    if s == [] then []
    else
      assert s == [s[0]] + s[1..];
      InsertDescBy(s[0], SortDescBy(s[1..], rank), rank)
  }
}
