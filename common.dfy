/** Small building blocks shared by the scoring engine: an optional value,
    distinctness, sums and means over reals, and the stable descending sort
    that Python's `list.sort(key=..., reverse=True)` performs. */
module Common {

  datatype Option<+T> = None | Some(value: T) {
    function GetOr(default: T): T {
      match this
      case Some(v) => v
      case None => default
    }
  }

  function Min(a: real, b: real): (r: real)
    ensures r <= a && r <= b
    ensures r == a || r == b
  {
    if a <= b then a else b
  }

  /** No element occurs twice. */
  ghost predicate Distinct<T>(s: seq<T>) {
    forall i, j :: 0 <= i < j < |s| ==> s[i] != s[j]
  }

  /** The set of elements of a sequence (Python's `set(s)` / `frozenset(s)`). */
  function Members<T>(s: seq<T>): set<T> {
    set x | x in s
  }

  lemma {:induction false} DistinctMembersCard<T>(s: seq<T>)
    requires Distinct(s)
    ensures |Members(s)| == |s|
  {
    if s != [] {
      var init := s[..|s| - 1];
      assert Distinct(init);
      DistinctMembersCard(init);
      assert Members(s) == Members(init) + {s[|s| - 1]};
      assert s[|s| - 1] !in Members(init);
    }
  }

  lemma {:induction false} MembersCardBound<T>(s: seq<T>)
    ensures |Members(s)| <= |s|
  {
    if s != [] {
      var init := s[..|s| - 1];
      MembersCardBound(init);
      assert Members(s) == Members(init) + {s[|s| - 1]};
    }
  }

  /** A non-empty set has a member to pick. */
  lemma NonEmptyHasMember(s: set<int>)
    requires s != {}
    ensures exists x :: x in s
  {
    if forall x :: x !in s {
      assert false;
    }
  }

  lemma SubsetCard<T>(a: set<T>, b: set<T>)
    requires a <= b
    ensures |a| <= |b|
  {
    assert b == a + (b - a);
    assert a * (b - a) == {};
  }

  function Sum(s: seq<real>): real {
    if s == [] then 0.0 else Sum(s[..|s| - 1]) + s[|s| - 1]
  }

  function SumNat(s: seq<nat>): nat {
    if s == [] then 0 else SumNat(s[..|s| - 1]) + s[|s| - 1]
  }

  /** numpy's `mean` of a non-empty list. */
  function Mean(s: seq<real>): real
    requires |s| > 0
  {
    Sum(s) / |s| as real
  }

  lemma {:induction false} SumAppend(a: seq<real>, b: seq<real>)
    ensures Sum(a + b) == Sum(a) + Sum(b)
  {
    if b != [] {
      assert (a + b)[..|a + b| - 1] == a + b[..|b| - 1];
      SumAppend(a, b[..|b| - 1]);
    } else {
      assert a + b == a;
    }
  }

  lemma {:induction false} SumNatAppend(a: seq<nat>, b: seq<nat>)
    ensures SumNat(a + b) == SumNat(a) + SumNat(b)
  {
    if b != [] {
      assert (a + b)[..|a + b| - 1] == a + b[..|b| - 1];
      SumNatAppend(a, b[..|b| - 1]);
    } else {
      assert a + b == a;
    }
  }

  // ---------------------------------------------------------------------
  // Stable descending sort by a real-valued key
  // ---------------------------------------------------------------------

  ghost predicate SortedDesc<T>(s: seq<T>, key: T -> real) {
    forall i, j :: 0 <= i < j < |s| ==> key(s[i]) >= key(s[j])
  }

  /** Inserts `x` after every element whose key is at least `key(x)`. */
  function InsertDesc<T>(x: T, s: seq<T>, key: T -> real): (r: seq<T>)
    ensures |r| == |s| + 1
  {
    if s == [] then [x]
    else if key(s[0]) >= key(x) then [s[0]] + InsertDesc(x, s[1..], key)
    else [x] + s
  }

  /** Inserting adds exactly `x` to the elements. */
  lemma {:induction false} InsertDescMultiset<T>(x: T, s: seq<T>, key: T -> real)
    ensures multiset(InsertDesc(x, s, key)) == multiset(s) + multiset{x}
  {
    if s != [] && key(s[0]) >= key(x) {
      InsertDescMultiset(x, s[1..], key);
      assert s == [s[0]] + s[1..];
    }
  }

  lemma {:induction false} InsertDescSorted<T>(x: T, s: seq<T>, key: T -> real)
    requires SortedDesc(s, key)
    ensures SortedDesc(InsertDesc(x, s, key), key)
    decreases |s|, 1
  {
    if s != [] && key(s[0]) >= key(x) {
      SortedBehind(x, s, key);
    } else if s != [] {
      SortedAhead(x, s, key);
    }
  }

  lemma {:induction false} SortedBehind<T>(x: T, s: seq<T>, key: T -> real)
    requires SortedDesc(s, key) && s != [] && key(s[0]) >= key(x)
    ensures SortedDesc(InsertDesc(x, s, key), key)
    decreases |s|, 0
  {
    var rest := InsertDesc(x, s[1..], key);
    assert SortedDesc(s[1..], key);
    InsertDescSorted(x, s[1..], key);
    InsertDescBounded(x, s[1..], key, key(s[0]));
    var r := [s[0]] + rest;
    assert InsertDesc(x, s, key) == r;
    forall i, j | 0 <= i < j < |r| ensures key(r[i]) >= key(r[j]) {
      assert r[j] == rest[j - 1];
      if i > 0 {
        assert r[i] == rest[i - 1];
      }
    }
  }

  lemma SortedAhead<T>(x: T, s: seq<T>, key: T -> real)
    requires SortedDesc(s, key) && s != [] && key(s[0]) < key(x)
    ensures SortedDesc(InsertDesc(x, s, key), key)
  {
    var r := [x] + s;
    assert InsertDesc(x, s, key) == r;
    forall i, j | 0 <= i < j < |r| ensures key(r[i]) >= key(r[j]) {
      assert r[j] == s[j - 1];
      if i > 0 {
        assert r[i] == s[i - 1];
      } else {
        assert key(s[0]) >= key(s[j - 1]);
      }
    }
  }

  /** Inserting below a bound stays below it. */
  lemma {:induction false} InsertDescBounded<T>(x: T, s: seq<T>, key: T -> real, b: real)
    requires key(x) <= b
    requires forall i :: 0 <= i < |s| ==> key(s[i]) <= b
    ensures forall j :: 0 <= j < |InsertDesc(x, s, key)| ==> key(InsertDesc(x, s, key)[j]) <= b
  {
    if s != [] && key(s[0]) >= key(x) {
      var rest := InsertDesc(x, s[1..], key);
      InsertDescBounded(x, s[1..], key, b);
      var r := [s[0]] + rest;
      assert InsertDesc(x, s, key) == r;
      forall j | 0 < j < |r| ensures key(r[j]) <= b {
        assert r[j] == rest[j - 1];
      }
    } else if s != [] {
      var r := [x] + s;
      assert InsertDesc(x, s, key) == r;
      forall j | 0 < j < |r| ensures key(r[j]) <= b {
        assert r[j] == s[j - 1];
      }
    }
  }

  /** `sorted(s, key=key, reverse=True)`: Python's sort is stable, so this is
      the insertion sort that keeps equal keys in input order. */
  function SortDesc<T>(s: seq<T>, key: T -> real): (r: seq<T>)
    ensures |r| == |s|
    ensures multiset(r) == multiset(s)
    ensures SortedDesc(r, key)
  {
    if s == [] then []
    else
      var init := s[..|s| - 1];
      assert s == init + [s[|s| - 1]];
      InsertDescSorted(s[|s| - 1], SortDesc(init, key), key);
      InsertDescMultiset(s[|s| - 1], SortDesc(init, key), key);
      InsertDesc(s[|s| - 1], SortDesc(init, key), key)
  }

  /** The elements of `s` whose key is exactly `k`, in order. */
  function WithKey<T>(s: seq<T>, key: T -> real, k: real): seq<T> {
    if s == [] then []
    else (if key(s[0]) == k then [s[0]] else []) + WithKey(s[1..], key, k)
  }

  lemma {:induction false} WithKeyAppend<T>(a: seq<T>, b: seq<T>, key: T -> real, k: real)
    ensures WithKey(a + b, key, k) == WithKey(a, key, k) + WithKey(b, key, k)
  {
    if a != [] {
      assert (a + b)[1..] == a[1..] + b;
      WithKeyAppend(a[1..], b, key, k);
    } else {
      assert a + b == b;
    }
  }

  /** Taking the elements with key `k` from a sequence with a known head. */
  lemma WithKeyCons<T>(x: T, s: seq<T>, key: T -> real, k: real)
    ensures WithKey([x] + s, key, k) == (if key(x) == k then [x] else []) + WithKey(s, key, k)
  {
    assert ([x] + s)[0] == x;
    assert ([x] + s)[1..] == s;
  }
  /** Inserting `x` adds it to the elements with its key, after those
      already there. */
  lemma {:induction false} InsertDescWithKey<T>(x: T, s: seq<T>, key: T -> real, k: real)
    requires SortedDesc(s, key)
    ensures WithKey(InsertDesc(x, s, key), key, k)
         == WithKey(s, key, k) + (if key(x) == k then [x] else [])
    decreases |s|, 1
  {
    if s == [] {
      WithKeyCons(x, [], key, k);
    } else if key(s[0]) >= key(x) {
      InsertBehind(x, s, key, k);
    } else {
      InsertAhead(x, s, key, k);
    }
  }

  lemma {:induction false} InsertBehind<T>(x: T, s: seq<T>, key: T -> real, k: real)
    requires SortedDesc(s, key) && s != [] && key(s[0]) >= key(x)
    ensures WithKey(InsertDesc(x, s, key), key, k)
         == WithKey(s, key, k) + (if key(x) == k then [x] else [])
    decreases |s|, 0
  {
    var rest := InsertDesc(x, s[1..], key);
    var h := if key(s[0]) == k then [s[0]] else [];
    var t := if key(x) == k then [x] else [];
    var tail := WithKey(s[1..], key, k);
    assert InsertDesc(x, s, key) == [s[0]] + rest;
    assert SortedDesc(s[1..], key);
    InsertDescWithKey(x, s[1..], key, k);
    assert WithKey(rest, key, k) == tail + t;
    WithKeyCons(s[0], rest, key, k);
    assert WithKey(InsertDesc(x, s, key), key, k) == h + (tail + t);
    assert WithKey(s, key, k) == h + tail;
    ConcatAssoc(h, tail, t);
  }

  lemma InsertAhead<T>(x: T, s: seq<T>, key: T -> real, k: real)
    requires SortedDesc(s, key) && s != [] && key(s[0]) < key(x)
    ensures WithKey(InsertDesc(x, s, key), key, k)
         == WithKey(s, key, k) + (if key(x) == k then [x] else [])
  {
    assert InsertDesc(x, s, key) == [x] + s;
    WithKeyCons(x, s, key, k);
    if key(x) == k {
      WithKeyNone(s, key, k);
    }
  }

  lemma ConcatAssoc<T>(a: seq<T>, b: seq<T>, c: seq<T>)
    ensures a + (b + c) == (a + b) + c
  {
  }

  lemma {:induction false} WithKeyNone<T>(s: seq<T>, key: T -> real, k: real)
    requires forall i :: 0 <= i < |s| ==> key(s[i]) < k
    ensures WithKey(s, key, k) == []
  {
    if s != [] {
      WithKeyNone(s[1..], key, k);
    }
  }

  /** Stability: among elements with equal keys, the sorted output keeps the
      input order. */
  lemma {:induction false} SortDescStable<T>(s: seq<T>, key: T -> real, k: real)
    ensures WithKey(SortDesc(s, key), key, k) == WithKey(s, key, k)
  {
    if s != [] {
      var init := s[..|s| - 1];
      var x := s[|s| - 1];
      var t := if key(x) == k then [x] else [];
      SortDescStable(init, key, k);
      assert SortDesc(s, key) == InsertDesc(x, SortDesc(init, key), key);
      InsertDescWithKey(x, SortDesc(init, key), key, k);
      assert WithKey(SortDesc(s, key), key, k) == WithKey(init, key, k) + t;
      SplitLast(s);
      WithKeySnoc(init, x, key, k);
    }
  }

  lemma WithKeySnoc<T>(a: seq<T>, x: T, key: T -> real, k: real)
    ensures WithKey(a + [x], key, k) == WithKey(a, key, k) + (if key(x) == k then [x] else [])
  {
    WithKeyAppend(a, [x], key, k);
    assert [x][1..] == [];
  }

  /** Without repeats, the last element is not among the others. */
  lemma DistinctSnoc<T>(s: seq<T>)
    requires Distinct(s) && s != []
    ensures Distinct(s[..|s| - 1]) && s[|s| - 1] !in s[..|s| - 1]
  {
    var init := s[..|s| - 1];
    assert forall k :: 0 <= k < |init| ==> init[k] == s[k] != s[|s| - 1];
  }

  /** Taking one more element appends it. */
  lemma TakeSnoc<T>(s: seq<T>, i: int)
    requires 0 <= i < |s|
    ensures s[..i + 1] == s[..i] + [s[i]]
    ensures s[..i + 1][..i] == s[..i]
  {
  }

  /** Dropping the last element of `a + b`, for a non-empty `b`. */
  lemma ConcatInit<T>(a: seq<T>, b: seq<T>)
    requires b != []
    ensures (a + b)[..|a + b| - 1] == a + b[..|b| - 1]
    ensures (a + b)[|a + b| - 1] == b[|b| - 1]
  {
  }

  lemma SplitLast<T>(s: seq<T>)
    requires s != []
    ensures s == s[..|s| - 1] + [s[|s| - 1]]
  {
  }

  /** Python's `s[:n]`, which for a negative `n` drops `-n` elements from the end. */
  function SliceTo<T>(s: seq<T>, n: int): (r: seq<T>)
    ensures n >= 0 ==> |r| == (if n <= |s| then n else |s|)
    ensures n < 0 ==> |r| == (if |s| + n >= 0 then |s| + n else 0)
    ensures r == s[..|r|]
  {
    if n >= 0 then (if n <= |s| then s[..n] else s)
    else (if |s| + n >= 0 then s[..|s| + n] else [])
  }

  // Real arithmetic the solver does not find unaided.

  lemma PosMul(x: real, y: real)
    requires x > 0.0 && y > 0.0
    ensures x * y > 0.0
  {
  }

  lemma SquareStrict(a: real, b: real)
    requires 0.0 <= a < b
    ensures a * a < b * b
  {
    assert b * b - a * a == (b - a) * (b + a);
    PosMul(b - a, b + a);
  }

  lemma SquareMono(a: real, b: real)
    requires 0.0 <= a <= b
    ensures a * a <= b * b
  {
    if a < b {
      SquareStrict(a, b);
    }
  }

  lemma NonNegFactor(x: real, n: real)
    requires n > 0.0 && x * n >= 0.0
    ensures x >= 0.0
  {
    if x < 0.0 {
      PosMul(-x, n);
      assert false;
    }
  }

  lemma DivAtMost(a: real, n: real, m: real)
    requires n > 0.0 && a <= n * m
    ensures a / n <= m
  {
    var q := a / n;
    assert q * n == a;
    assert (m - q) * n == m * n - a;
    NonNegFactor(m - q, n);
  }

  /** Multiplying by a non-negative number keeps a weak order. */
  lemma MulLe(a: real, x: real, y: real)
    requires a >= 0.0 && x <= y
    ensures a * x <= a * y
  {
    assert a * y - a * x == a * (y - x);
    if a > 0.0 && x < y {
      PosMul(a, y - x);
    }
  }

  /** Dividing a non-negative number by a larger one gives less. */
  lemma DivLe(c: real, m: real, n: real)
    requires c >= 0.0 && 0.0 < m <= n
    ensures c / n <= c / m
  {
    var qn := c / n;
    var qm := c / m;
    assert qn * n == c && qm * m == c;
    NonNegFactor(qn, n);
    MulLe(qn, m, n);
    ScaleLess(qm, qn, m);
  }

  /** The share a / (a + b) of two counts lies in [0, 1]; it is 1 exactly
      when b is 0 and 0 exactly when a is 0. */
  lemma ShareBounds(a: nat, b: nat)
    requires a + b > 0
    ensures var r := a as real / (a + b) as real;
      && 0.0 <= r <= 1.0
      && (r == 1.0 <==> b == 0)
      && (r == 0.0 <==> a == 0)
  {
    var t := (a + b) as real;
    var r := a as real / t;
    assert r * t == a as real;
    NonNegFactor(r, t);
    DivAtMost(a as real, t, 1.0);
    if b == 0 {
      assert t == a as real;
    }
    if r == 1.0 {
      assert a as real == t;
    }
  }

  /** Multiplying both sides by a positive number keeps a strict order. */
  lemma ScaleLess(a: real, b: real, n: real)
    requires n > 0.0
    ensures a < b <==> a * n < b * n
  {
    assert (b - a) * n == b * n - a * n;
    if a < b {
      PosMul(b - a, n);
    } else {
      assert (a - b) * n == a * n - b * n;
      NonNegFactor(a - b, n);
    }
  }
}
