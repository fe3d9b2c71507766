/**
 * Python's `sorted()` on strings and on records keyed by a string: code
 * point order, stable for equal keys.
 */
module Sorting {
  import opened Strings

  /** Strictly ascending: `sorted()` of distinct strings. */
  predicate Increasing(xs: seq<string>)
  {
    forall i, j :: 0 <= i < j < |xs| ==> Below(xs[i], xs[j])
  }

  /** Ascending by key, equal keys allowed. */
  predicate SortedBy<T>(xs: seq<T>, key: T -> string)
  {
    forall i, j :: 0 <= i < j < |xs| ==> BelowEq(key(xs[i]), key(xs[j]))
  }

  lemma BelowEqTransitive(a: string, b: string, c: string)
    requires BelowEq(a, b) && BelowEq(b, c)
    ensures BelowEq(a, c)
  {
    if a != b && b != c {
      BelowTransitive(a, b, c);
    }
  }

  /** A non-empty set of strings has a least element. */
  lemma {:induction false} MinExists(s: set<string>)
    requires s != {}
    ensures exists m :: m in s && forall y :: y in s ==> BelowEq(m, y)
    decreases |s|
  {
    var x :| x in s;
    if s != {x} {
      MinExists(s - {x});
      var m :| m in s - {x} && forall y :: y in s - {x} ==> BelowEq(m, y);
      BelowTotal(x, m);
      if Below(x, m) {
        forall y | y in s ensures BelowEq(x, y) {
          if y != x { BelowEqTransitive(x, m, y); }
        }
      } else {
        assert forall y :: y in s ==> BelowEq(m, y);
      }
    } else {
      assert forall y :: y in s ==> y == x;
    }
  }

  /** `sorted(s)` for a set of strings: repeatedly takes the least remaining element. */
  method SortedElements(s: set<string>) returns (r: seq<string>)
    ensures Increasing(r)
    ensures forall x :: x in r <==> x in s
    ensures |r| == |s|
  {
    var rest := s;
    r := [];
    while rest != {}
      invariant rest <= s
      invariant Increasing(r)
      invariant forall x :: x in s <==> x in r || x in rest
      invariant forall i, y :: 0 <= i < |r| && y in rest ==> Below(r[i], y)
      invariant |r| + |rest| == |s|
      decreases |rest|
    {
      MinExists(rest);
      var m :| m in rest && forall y :: y in rest ==> BelowEq(m, y);
      forall y | y in rest - {m} ensures Below(m, y) {
        assert BelowEq(m, y) && m != y;
      }
      r := r + [m];
      rest := rest - {m};
    }
  }

  /** Inserts `x` after every element whose key is not above its own. */
  function InsertBy<T>(x: T, xs: seq<T>, key: T -> string): (r: seq<T>)
    ensures multiset(r) == multiset(xs) + multiset{x}
  {
    if xs == [] then [x]
    else if Below(key(x), key(xs[0])) then [x] + xs
    else
      assert xs == [xs[0]] + xs[1..];
      [xs[0]] + InsertBy(x, xs[1..], key)
  }

  lemma {:induction false} InsertBySorted<T>(x: T, xs: seq<T>, key: T -> string)
    requires SortedBy(xs, key)
    ensures SortedBy(InsertBy(x, xs, key), key)
  {
    if xs != [] {
      var r := InsertBy(x, xs, key);
      if Below(key(x), key(xs[0])) {
        forall i, j | 0 <= i < j < |r| ensures BelowEq(key(r[i]), key(r[j])) {
          if i == 0 {
            assert r[j] == xs[j - 1];
            BelowEqTransitive(key(x), key(xs[0]), key(xs[j - 1]));
          } else {
            assert r[i] == xs[i - 1] && r[j] == xs[j - 1];
          }
        }
      } else {
        var tail := InsertBy(x, xs[1..], key);
        InsertBySorted(x, xs[1..], key);
        BelowTotal(key(x), key(xs[0]));
        assert r == [xs[0]] + tail;
        forall j | 0 <= j < |tail| ensures BelowEq(key(xs[0]), key(tail[j])) {
          assert tail[j] in multiset(tail);
          if tail[j] != x {
            assert tail[j] in xs[1..];
            var k :| 0 <= k < |xs[1..]| && xs[1..][k] == tail[j];
            assert xs[k + 1] == tail[j];
          }
        }
        forall i, j | 0 <= i < j < |r| ensures BelowEq(key(r[i]), key(r[j])) {
          if i == 0 {
            assert r[j] == tail[j - 1];
          } else {
            assert r[i] == tail[i - 1] && r[j] == tail[j - 1];
          }
        }
      }
    }
  }

  /** `sorted(xs, key=key)`: insertion sort, each element placed after the equal keys before it. */
  function SortBy<T>(xs: seq<T>, key: T -> string): (r: seq<T>)
    ensures SortedBy(r, key)
    ensures multiset(r) == multiset(xs)
  {
    if xs == [] then []
    else
      var init := xs[..|xs| - 1];
      var s := SortBy(init, key);
      InsertBySorted(xs[|xs| - 1], s, key);
      assert xs == init + [xs[|xs| - 1]];
      InsertBy(xs[|xs| - 1], s, key)
  }

  // Stability

  /** The elements of `xs` whose key is `k`, in their order in `xs`. */
  function WithKey<T>(xs: seq<T>, key: T -> string, k: string): seq<T>
  {
    if xs == [] then [] else (if key(xs[0]) == k then [xs[0]] else []) + WithKey(xs[1..], key, k)
  }

  lemma {:induction false} WithKeyAppend<T>(a: seq<T>, b: seq<T>, key: T -> string, k: string)
    ensures WithKey(a + b, key, k) == WithKey(a, key, k) + WithKey(b, key, k)
    decreases |a|
  {
    if a != [] {
      assert (a + b)[0] == a[0] && (a + b)[1..] == a[1..] + b;
      WithKeyAppend(a[1..], b, key, k);
    } else {
      assert a + b == b;
    }
  }

  lemma {:induction false} WithKeyNone<T>(xs: seq<T>, key: T -> string, k: string)
    requires forall i :: 0 <= i < |xs| ==> key(xs[i]) != k
    ensures WithKey(xs, key, k) == []
    decreases |xs|
  {
    if xs != [] {
      assert forall i :: 0 <= i < |xs[1..]| ==> xs[1..][i] == xs[i + 1];
      WithKeyNone(xs[1..], key, k);
    }
  }

  lemma SortedTail<T>(xs: seq<T>, key: T -> string)
    requires xs != [] && SortedBy(xs, key)
    ensures SortedBy(xs[1..], key)
  {
    forall i, j | 0 <= i < j < |xs[1..]| ensures BelowEq(key(xs[1..][i]), key(xs[1..][j])) {
      assert xs[1..][i] == xs[i + 1] && xs[1..][j] == xs[j + 1];
    }
  }

  /** An element keyed below the head of a sorted list shares its key with none of it. */
  lemma BelowAll<T>(x: T, xs: seq<T>, key: T -> string)
    requires xs != [] && SortedBy(xs, key) && Below(key(x), key(xs[0]))
    ensures forall i :: 0 <= i < |xs| ==> key(xs[i]) != key(x)
  {
    forall i | 0 <= i < |xs| ensures key(xs[i]) != key(x) {
      if key(xs[i]) != key(xs[0]) {
        BelowTransitive(key(x), key(xs[0]), key(xs[i]));
      }
      BelowIrreflexive(key(x));
    }
  }

  lemma WithKeyLast<T>(xs: seq<T>, key: T -> string, k: string)
    requires xs != []
    ensures WithKey(xs, key, k) == WithKey(xs[..|xs| - 1], key, k) + (if key(xs[|xs| - 1]) == k then [xs[|xs| - 1]] else [])
  {
    assert xs == xs[..|xs| - 1] + [xs[|xs| - 1]];
    WithKeyAppend(xs[..|xs| - 1], [xs[|xs| - 1]], key, k);
  }

  /** An element keyed below the head of a sorted list comes after none with its key. */
  lemma FrontStable<T>(x: T, xs: seq<T>, key: T -> string, k: string)
    requires xs != [] && SortedBy(xs, key) && Below(key(x), key(xs[0]))
    ensures WithKey([x] + xs, key, k) == WithKey(xs, key, k) + (if key(x) == k then [x] else [])
  {
    WithKeyAppend([x], xs, key, k);
    if key(x) == k {
      BelowAll(x, xs, key);
      WithKeyNone(xs, key, k);
    }
  }

  /** Putting the same element in front of two lists keeps what their keyed elements differ by. */
  lemma ConsStable<T>(y: T, rest: seq<T>, tail: seq<T>, tag: seq<T>, key: T -> string, k: string)
    requires WithKey(rest, key, k) == WithKey(tail, key, k) + tag
    ensures WithKey([y] + rest, key, k) == WithKey([y] + tail, key, k) + tag
  {
    WithKeyAppend([y], rest, key, k);
    WithKeyAppend([y], tail, key, k);
  }

  /** Inserting into a sorted list puts `x` after every element with its key. */
  lemma {:induction false} InsertByStable<T>(x: T, xs: seq<T>, key: T -> string, k: string)
    requires SortedBy(xs, key)
    ensures WithKey(InsertBy(x, xs, key), key, k) == WithKey(xs, key, k) + (if key(x) == k then [x] else [])
    decreases |xs|
  {
    if xs == [] {
      assert InsertBy(x, xs, key) == [x];
    } else if Below(key(x), key(xs[0])) {
      assert InsertBy(x, xs, key) == [x] + xs;
      FrontStable(x, xs, key, k);
    } else {
      var rest := InsertBy(x, xs[1..], key);
      assert InsertBy(x, xs, key) == [xs[0]] + rest;
      SortedTail(xs, key);
      InsertByStable(x, xs[1..], key, k);
      ConsStable(xs[0], rest, xs[1..], if key(x) == k then [x] else [], key, k);
      assert [xs[0]] + xs[1..] == xs;
    }
  }

  /** `sorted` is stable: the elements sharing a key keep their input order. */
  lemma {:induction false} SortByStable<T>(xs: seq<T>, key: T -> string, k: string)
    ensures WithKey(SortBy(xs, key), key, k) == WithKey(xs, key, k)
    decreases |xs|
  {
    if xs != [] {
      var init, last := xs[..|xs| - 1], xs[|xs| - 1];
      var sorted := SortBy(init, key);
      assert SortBy(xs, key) == InsertBy(last, sorted, key);
      SortByStable(init, key, k);
      InsertByStable(last, sorted, key, k);
      WithKeyLast(xs, key, k);
    }
  }
}
