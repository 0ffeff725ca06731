/** The Kotlin list operations behind the list merges and the chapter list:
    bucket concatenation, `distinctBy` (first occurrence wins) and the stable
    `sortedByDescending`, each with the properties the callers rely on. */
module Collections {

  /** `b0 + b1 + ...`: the buckets concatenated in the order given. */
  function Flatten<T>(buckets: seq<seq<T>>): seq<T>
  {
    if buckets == [] then [] else buckets[0] + Flatten(buckets[1..])
  }

  /** Sequence algebra, stated apart so that proofs about functions with rich contracts
      need not rediscover it. */
  lemma Regroup<T>(h: seq<T>, x: seq<T>, y: seq<T>)
    ensures h + (x + y) == (h + x) + y
  {
  }

  lemma SplitFirst<T>(a: seq<T>, b: seq<T>)
    requires a != []
    ensures a == [a[0]] + a[1..]
    ensures a + b == [a[0]] + (a[1..] + b)
  {
  }

  lemma FlattenTwo<T>(a: seq<T>, b: seq<T>)
    ensures Flatten([a, b]) == a + b
  {
    assert [b][1..] == [];
    assert Flatten([b]) == b + Flatten([]);
    assert [a, b][1..] == [b];
  }

  lemma FlattenThree<T>(a: seq<T>, b: seq<T>, c: seq<T>)
    ensures Flatten([a, b, c]) == a + b + c
  {
    assert [a, b, c][1..] == [b, c];
    FlattenTwo(b, c);
  }

  /** Concatenating buckets is associative: flattening two lists of buckets one after
      the other is flattening each and concatenating the results. */
  lemma {:induction false} FlattenAppend<T>(a: seq<seq<T>>, b: seq<seq<T>>)
    ensures Flatten(a + b) == Flatten(a) + Flatten(b)
  {
    if a == [] {
      assert a + b == b;
    } else {
      assert (a + b)[0] == a[0];
      assert (a + b)[1..] == a[1..] + b;
      FlattenAppend(a[1..], b);
      Regroup(a[0], Flatten(a[1..]), Flatten(b));
    }
  }

  // ---------------------------------------------------------------------------
  // distinctBy

  /** The set of keys that occur in `s`. */
  ghost function KeysOf<T, K>(s: seq<T>, key: T -> K): set<K>
  {
    set x | x in s :: key(x)
  }

  /** No two elements of `s` share a key. */
  ghost predicate DistinctKeys<T, K>(s: seq<T>, key: T -> K)
  {
    forall i, j :: 0 <= i < j < |s| ==> key(s[i]) != key(s[j])
  }

  /** `x` is the first element of `xs` that carries its key. */
  ghost predicate IsFirstOccurrence<T, K>(xs: seq<T>, key: T -> K, x: T)
  {
    exists j :: 0 <= j < |xs| && xs[j] == x && forall k :: 0 <= k < j ==> key(xs[k]) != key(x)
  }

  /** The walk of Kotlin's `distinctBy`: an element is kept when its key is not yet in
      `seen`, and its key is then added to `seen`. */
  function DistinctFrom<T, K(==)>(xs: seq<T>, key: T -> K, seen: set<K>): (r: seq<T>)
    ensures forall i :: 0 <= i < |r| ==> key(r[i]) !in seen
    ensures DistinctKeys(r, key)
    ensures KeysOf(r, key) == KeysOf(xs, key) - seen
    ensures |r| <= |xs|
  {
    if xs == [] then []
    else
      var x := xs[0];
      var rest := xs[1..];
      assert xs == [x] + rest;
      assert KeysOf(xs, key) == {key(x)} + KeysOf(rest, key);
      if key(x) in seen then DistinctFrom(rest, key, seen)
      else
        var tail := DistinctFrom(rest, key, seen + {key(x)});
        assert KeysOf([x] + tail, key) == {key(x)} + KeysOf(tail, key);
        [x] + tail
  }

  /** Kotlin's `distinctBy(key)`: no key twice, every key of the input kept. */
  function DistinctBy<T, K(==)>(xs: seq<T>, key: T -> K): (r: seq<T>)
    ensures DistinctKeys(r, key)
    ensures KeysOf(r, key) == KeysOf(xs, key)
    ensures |r| <= |xs|
  {
    var r := DistinctFrom(xs, key, {});
    assert KeysOf(xs, key) - {} == KeysOf(xs, key);
    r
  }

  /** Every element kept by the walk is the first occurrence of its key. */
  lemma {:induction false} DistinctFromFirstOccurrence<T, K>(xs: seq<T>, key: T -> K, seen: set<K>)
    ensures forall i :: 0 <= i < |DistinctFrom(xs, key, seen)| ==>
      IsFirstOccurrence(xs, key, DistinctFrom(xs, key, seen)[i])
  {
    if xs != [] {
      var x, rest := xs[0], xs[1..];
      var seen' := if key(x) in seen then seen else seen + {key(x)};
      var tail := DistinctFrom(rest, key, seen');
      DistinctFromFirstOccurrence(rest, key, seen');
      forall i | 0 <= i < |tail|
        ensures IsFirstOccurrence(xs, key, tail[i])
      {
        var j :| 0 <= j < |rest| && rest[j] == tail[i] && forall k :: 0 <= k < j ==> key(rest[k]) != key(tail[i]);
        assert key(tail[i]) !in seen';
        assert xs[j + 1] == tail[i];
        forall k | 0 <= k < j + 1
          ensures key(xs[k]) != key(tail[i])
        {
          if k > 0 { assert xs[k] == rest[k - 1]; }
        }
      }
      if key(x) !in seen {
        assert IsFirstOccurrence(xs, key, x) by { assert xs[0] == x; }
        assert DistinctFrom(xs, key, seen) == [x] + tail;
      }
    }
  }

  /** Walking `xs + ys` is walking `xs`, then walking `ys` with the keys of `xs` seen. */
  lemma {:induction false} DistinctFromAppend<T, K>(xs: seq<T>, ys: seq<T>, key: T -> K, seen: set<K>)
    ensures DistinctFrom(xs + ys, key, seen) ==
      DistinctFrom(xs, key, seen) + DistinctFrom(ys, key, seen + KeysOf(xs, key))
  {
    if xs == [] {
      assert xs + ys == ys;
      assert KeysOf(xs, key) == {};
      assert seen + KeysOf(xs, key) == seen;
    } else {
      var x, rest := xs[0], xs[1..];
      assert (xs + ys)[0] == x;
      assert (xs + ys)[1..] == rest + ys;
      assert xs == [x] + rest;
      assert KeysOf(xs, key) == {key(x)} + KeysOf(rest, key);
      var seen' := if key(x) in seen then seen else seen + {key(x)};
      DistinctFromAppend(rest, ys, key, seen');
      assert seen' + KeysOf(rest, key) == seen + KeysOf(xs, key);
    }
  }

  /** A walk over elements whose keys were all seen keeps nothing. */
  lemma {:induction false} DistinctFromAllSeen<T, K>(ys: seq<T>, key: T -> K, seen: set<K>)
    requires KeysOf(ys, key) <= seen
    ensures DistinctFrom(ys, key, seen) == []
  {
    if ys != [] {
      assert ys == [ys[0]] + ys[1..];
      assert KeysOf(ys[1..], key) <= KeysOf(ys, key);
      DistinctFromAllSeen(ys[1..], key, seen);
    }
  }

  /** A bucket whose keys all occurred in earlier buckets contributes nothing: in
      particular `distinctBy` over a list repeated twice keeps only the first copy. */
  lemma DistinctByRepeated<T, K>(xs: seq<T>, ys: seq<T>, key: T -> K)
    requires KeysOf(ys, key) <= KeysOf(xs, key)
    ensures DistinctBy(xs + ys, key) == DistinctBy(xs, key)
  {
    DistinctFromAppend(xs, ys, key, {});
    assert {} + KeysOf(xs, key) == KeysOf(xs, key);
    DistinctFromAllSeen(ys, key, KeysOf(xs, key));
  }

  /** A bucket whose keys all appeared in the bucket before it leaves the merged list
      unchanged, element for element. */
  lemma MergeRepeated<T, K>(xs: seq<T>, ys: seq<T>, key: T -> K, sortKey: T -> real)
    requires KeysOf(ys, key) <= KeysOf(xs, key)
    ensures Merge([xs, ys], key, sortKey) == Merge([xs, []], key, sortKey)
  {
    FlattenTwo(xs, ys);
    FlattenTwo(xs, []);
    DistinctByRepeated(xs, ys, key);
    assert xs + [] == xs;
  }

  // ---------------------------------------------------------------------------
  // sortedByDescending

  ghost predicate SortedDesc<T>(s: seq<T>, sortKey: T -> real)
  {
    forall i, j :: 0 <= i < j < |s| ==> sortKey(s[i]) >= sortKey(s[j])
  }

  /** The elements of `s` whose sort key is `k`, in their order in `s`. */
  function WithSortKey<T>(s: seq<T>, sortKey: T -> real, k: real): seq<T>
  {
    if s == [] then []
    else (if sortKey(s[0]) == k then [s[0]] else []) + WithSortKey(s[1..], sortKey, k)
  }

  lemma {:induction false} WithSortKeyMembers<T>(s: seq<T>, sortKey: T -> real, k: real)
    ensures forall y :: y in WithSortKey(s, sortKey, k) <==> y in s && sortKey(y) == k
  {
    if s != [] {
      WithSortKeyMembers(s[1..], sortKey, k);
      assert s == [s[0]] + s[1..];
    }
  }

  /** Stability: among elements with equal sort key, `r` keeps the order they have in `s`. */
  ghost predicate StableFor<T>(r: seq<T>, s: seq<T>, sortKey: T -> real)
  {
    forall k :: WithSortKey(r, sortKey, k) == WithSortKey(s, sortKey, k)
  }

  lemma {:induction false} WithSortKeyAppend<T>(a: seq<T>, b: seq<T>, sortKey: T -> real, k: real)
    ensures WithSortKey(a + b, sortKey, k) == WithSortKey(a, sortKey, k) + WithSortKey(b, sortKey, k)
  {
    if a == [] {
      assert a + b == b;
    } else {
      var h := if sortKey(a[0]) == k then [a[0]] else [];
      assert (a + b)[0] == a[0];
      assert (a + b)[1..] == a[1..] + b;
      WithSortKeyAppend(a[1..], b, sortKey, k);
      var x, y := WithSortKey(a[1..], sortKey, k), WithSortKey(b, sortKey, k);
      assert WithSortKey(a + b, sortKey, k) == h + (x + y);
      assert h + (x + y) == (h + x) + y;
    }
  }

  /** Inserts `x` after every element whose key is at least `x`'s, so that an element
      inserted later goes after the equal ones already there. */
  function InsertDesc<T>(x: T, s: seq<T>, sortKey: T -> real): (r: seq<T>)
    requires SortedDesc(s, sortKey)
    ensures SortedDesc(r, sortKey)
    ensures |r| == |s| + 1 && (r[0] == x || (s != [] && r[0] == s[0]))
  {
    if s == [] then [x]
    else if sortKey(s[0]) >= sortKey(x) then
      var tail := InsertDesc(x, s[1..], sortKey);
      assert sortKey(s[0]) >= sortKey(tail[0]) by {
        if tail[0] != x { assert tail[0] == s[1]; }
      }
      [s[0]] + tail
    else
      [x] + s
  }

  /** Inserting adds exactly the inserted element. */
  lemma {:induction false} InsertDescPermutation<T>(x: T, s: seq<T>, sortKey: T -> real)
    requires SortedDesc(s, sortKey)
    ensures multiset(InsertDesc(x, s, sortKey)) == multiset(s) + multiset{x}
  {
    if s != [] && sortKey(s[0]) >= sortKey(x) {
      InsertDescPermutation(x, s[1..], sortKey);
      assert s == [s[0]] + s[1..];
    }
  }

  /** Kotlin's `sortedByDescending(sortKey)`: a stable sort, largest key first. */
  function SortedByDescending<T>(xs: seq<T>, sortKey: T -> real): (r: seq<T>)
    ensures SortedDesc(r, sortKey)
    ensures multiset(r) == multiset(xs)
  {
    if xs == [] then []
    else
      var init := xs[..|xs| - 1];
      assert xs == init + [xs[|xs| - 1]];
      InsertDescPermutation(xs[|xs| - 1], SortedByDescending(init, sortKey), sortKey);
      InsertDesc(xs[|xs| - 1], SortedByDescending(init, sortKey), sortKey)
  }

  /** No element of a descending list whose head is below `k` has key `k`. */
  lemma {:induction false} BelowHeadNoKey<T>(s: seq<T>, sortKey: T -> real, k: real)
    requires s != [] && SortedDesc(s, sortKey) && sortKey(s[0]) < k
    ensures WithSortKey(s, sortKey, k) == []
  {
    if |s| > 1 {
      assert sortKey(s[1]) <= sortKey(s[0]);
      BelowHeadNoKey(s[1..], sortKey, k);
    }
  }

  lemma {:induction false} InsertDescStable<T>(x: T, s: seq<T>, sortKey: T -> real, k: real)
    requires SortedDesc(s, sortKey)
    ensures WithSortKey(InsertDesc(x, s, sortKey), sortKey, k) ==
      WithSortKey(s, sortKey, k) + WithSortKey([x], sortKey, k)
    decreases |s|, 1
  {
    if s == [] {
      assert [x] == [] + [x];
    } else if sortKey(s[0]) >= sortKey(x) {
      InsertDescStableBehind(x, s, sortKey, k);
    } else {
      InsertDescStableFront(x, s, sortKey, k);
    }
  }

  lemma {:induction false} InsertDescStableBehind<T>(x: T, s: seq<T>, sortKey: T -> real, k: real)
    requires SortedDesc(s, sortKey) && s != [] && sortKey(s[0]) >= sortKey(x)
    ensures WithSortKey(InsertDesc(x, s, sortKey), sortKey, k) ==
      WithSortKey(s, sortKey, k) + WithSortKey([x], sortKey, k)
    decreases |s|, 0
  {
    var head, rest := [s[0]], s[1..];
    assert SortedDesc(rest, sortKey) by { InsertDescBehind(x, s, sortKey); }
    var tail := InsertDesc(x, rest, sortKey);
    var h, r, t := WithSortKey(head, sortKey, k), WithSortKey(rest, sortKey, k), WithSortKey([x], sortKey, k);
    assert WithSortKey(InsertDesc(x, s, sortKey), sortKey, k) == h + WithSortKey(tail, sortKey, k) by {
      InsertDescBehind(x, s, sortKey);
      WithSortKeyAppend(head, tail, sortKey, k);
    }
    assert WithSortKey(tail, sortKey, k) == r + t by { InsertDescStable(x, rest, sortKey, k); }
    assert WithSortKey(s, sortKey, k) == h + r by {
      assert head + rest == s;
      WithSortKeyAppend(head, rest, sortKey, k);
    }
    assert h + (r + t) == (h + r) + t;
  }

  lemma InsertDescBehind<T>(x: T, s: seq<T>, sortKey: T -> real)
    requires SortedDesc(s, sortKey) && s != [] && sortKey(s[0]) >= sortKey(x)
    ensures SortedDesc(s[1..], sortKey)
    ensures InsertDesc(x, s, sortKey) == [s[0]] + InsertDesc(x, s[1..], sortKey)
  {
  }

  lemma InsertDescStableFront<T>(x: T, s: seq<T>, sortKey: T -> real, k: real)
    requires SortedDesc(s, sortKey) && s != [] && sortKey(s[0]) < sortKey(x)
    ensures WithSortKey(InsertDesc(x, s, sortKey), sortKey, k) ==
      WithSortKey(s, sortKey, k) + WithSortKey([x], sortKey, k)
  {
    assert InsertDesc(x, s, sortKey) == [x] + s;
    WithSortKeyAppend([x], s, sortKey, k);
    if sortKey(x) == k {
      BelowHeadNoKey(s, sortKey, k);
    }
  }

  /** The sort is stable: elements with equal keys keep their input order. */
  lemma {:induction false} SortedByDescendingStable<T>(xs: seq<T>, sortKey: T -> real)
    ensures StableFor(SortedByDescending(xs, sortKey), xs, sortKey)
  {
    if xs != [] {
      var init, last := xs[..|xs| - 1], xs[|xs| - 1];
      assert xs == init + [last];
      SortedByDescendingStable(init, sortKey);
      forall k
        ensures WithSortKey(SortedByDescending(xs, sortKey), sortKey, k) == WithSortKey(xs, sortKey, k)
      {
        InsertDescStable(last, SortedByDescending(init, sortKey), sortKey, k);
        WithSortKeyAppend(init, [last], sortKey, k);
      }
    }
  }

  /** If, among the elements of `s` with sort key `k`, those satisfying `first` all come
      before those that do not, then so it is between any two positions of `s`. */
  lemma {:induction false} GroupOrder<T>(s: seq<T>, sortKey: T -> real, k: real, first: T -> bool,
                                         a: seq<T>, b: seq<T>, i: nat, j: nat)
    requires WithSortKey(s, sortKey, k) == a + b
    requires forall y :: y in a ==> first(y)
    requires forall y :: y in b ==> !first(y)
    requires i < |s| && j < |s|
    requires sortKey(s[i]) == k && sortKey(s[j]) == k
    requires first(s[j]) && !first(s[i])
    ensures j < i
  {
    var x, rest := s[0], s[1..];
    if sortKey(x) == k {
      assert WithSortKey(s, sortKey, k) == [x] + WithSortKey(rest, sortKey, k);
      if a == [] {
        WithSortKeyMembers(s, sortKey, k);
        assert false;
      } else {
        assert (a + b)[0] == a[0];
        assert x == a[0];
        assert ([x] + WithSortKey(rest, sortKey, k))[1..] == WithSortKey(rest, sortKey, k);
        assert (a + b)[1..] == a[1..] + b;
        assert WithSortKey(rest, sortKey, k) == a[1..] + b;
        if i == 0 {
          assert false;
        } else if j > 0 {
          assert s[i] == rest[i - 1] && s[j] == rest[j - 1];
          GroupOrder(rest, sortKey, k, first, a[1..], b, i - 1, j - 1);
        }
      }
    } else {
      assert WithSortKey(s, sortKey, k) == WithSortKey(rest, sortKey, k);
      assert s[i] == rest[i - 1] && s[j] == rest[j - 1];
      GroupOrder(rest, sortKey, k, first, a, b, i - 1, j - 1);
    }
  }

  // ---------------------------------------------------------------------------
  // The aggregation merge

  /** Concatenate the buckets, keep the first entry of every dedup key, then sort
      stably by `sortKey`, largest first. */
  function Merge<T, K(==)>(buckets: seq<seq<T>>, key: T -> K, sortKey: T -> real): (r: seq<T>)
    ensures DistinctKeys(r, key)
    ensures forall i :: 0 <= i < |r| ==> IsFirstOccurrence(Flatten(buckets), key, r[i])
    ensures KeysOf(r, key) == KeysOf(Flatten(buckets), key)
    ensures SortedDesc(r, sortKey)
    ensures multiset(r) == multiset(DistinctBy(Flatten(buckets), key))
    ensures StableFor(r, DistinctBy(Flatten(buckets), key), sortKey)
  {
    var d := DistinctBy(Flatten(buckets), key);
    SortedByDescendingStable(d, sortKey);
    SortedDistinctFacts(Flatten(buckets), key, sortKey);
    SortedByDescending(d, sortKey)
  }

  /** Sorting the result of `distinctBy` keeps its dedup facts. */
  lemma SortedDistinctFacts<T, K>(all: seq<T>, key: T -> K, sortKey: T -> real)
    ensures var r := SortedByDescending(DistinctBy(all, key), sortKey);
      && DistinctKeys(r, key)
      && (forall i :: 0 <= i < |r| ==> IsFirstOccurrence(all, key, r[i]))
      && KeysOf(r, key) == KeysOf(all, key)
  {
    var d := DistinctBy(all, key);
    var r := SortedByDescending(d, sortKey);
    DistinctFromFirstOccurrence(all, key, {});
    PermutationKeepsKeys(d, r, key);
    forall i | 0 <= i < |r|
      ensures IsFirstOccurrence(all, key, r[i])
    {
      assert r[i] in multiset(r);
      assert r[i] in multiset(d);
      var p :| 0 <= p < |d| && d[p] == r[i];
    }
  }

  /** A permutation of a list has the same elements and keys and, when the list has no
      two equal keys, neither has the permutation. */
  lemma PermutationKeepsKeys<T, K>(d: seq<T>, r: seq<T>, key: T -> K)
    requires multiset(r) == multiset(d)
    ensures forall y :: y in r <==> y in d
    ensures KeysOf(r, key) == KeysOf(d, key)
    ensures DistinctKeys(d, key) ==> DistinctKeys(r, key)
  {
    assert forall y :: y in r <==> y in multiset(r);
    assert forall y :: y in d <==> y in multiset(d);
    if DistinctKeys(d, key) {
      forall i, j | 0 <= i < j < |r|
        ensures key(r[i]) != key(r[j])
      {
        if key(r[i]) == key(r[j]) {
          assert r[i] in d && r[j] in d;
          var p :| 0 <= p < |d| && d[p] == r[i];
          var q :| 0 <= q < |d| && d[q] == r[j];
          if p == q {
            TwiceCounted(r, i, j);
            AtMostOnce(d, key, r[i]);
          }
        }
      }
    }
  }

  /** An element found at two positions is counted at least twice. */
  lemma TwiceCounted<T>(r: seq<T>, i: nat, j: nat)
    requires i < j < |r| && r[i] == r[j]
    ensures multiset(r)[r[i]] >= 2
  {
    assert r == r[..j] + r[j..];
    assert r[i] in r[..j];
    assert r[j] == r[j..][0];
  }

  /** With distinct keys, no element occurs twice. */
  lemma {:induction false} AtMostOnce<T, K>(d: seq<T>, key: T -> K, x: T)
    requires DistinctKeys(d, key)
    ensures multiset(d)[x] <= 1
  {
    if d != [] {
      assert d == [d[0]] + d[1..];
      assert DistinctKeys(d[1..], key);
      AtMostOnce(d[1..], key, x);
    }
  }
}
