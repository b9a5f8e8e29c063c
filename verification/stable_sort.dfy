/**
 A stable sort of a sequence by an integer key, as JavaScript's
 `Array.prototype.sort` performs it with a numeric comparator
 `(a, b) => key(a) - key(b)` (ECMAScript 2019 and later require the sort to be
 stable). The sort is written as an insertion sort that places each element
 after every already-sorted element whose key is not greater than its own;
 `SortIsStable` and `StableSortIsUnique` show that its output is the only
 sequence that is ordered by the key and keeps elements of equal key in their
 original order, so it is the output of any stable sort.
 */
module StableSort {

  /** `xs` is non-decreasing by `key`. */
  predicate SortedBy<T>(xs: seq<T>, key: T -> int) {
    forall i, j | 0 <= i < j < |xs| :: key(xs[i]) <= key(xs[j])
  }

  /** The elements of `xs` whose key is `k`, in their order in `xs`. */
  function KeyRun<T>(xs: seq<T>, key: T -> int, k: int): seq<T>
    decreases |xs|
  {
    if |xs| == 0 then []
    else KeyRun(xs[..|xs| - 1], key, k) + (if key(xs[|xs| - 1]) == k then [xs[|xs| - 1]] else [])
  }

  /** How many elements of `xs` have a key strictly greater than `t`. */
  function CountAbove<T>(xs: seq<T>, key: T -> int, t: int): nat
    decreases |xs|
  {
    if |xs| == 0 then 0
    else CountAbove(xs[..|xs| - 1], key, t) + (if key(xs[|xs| - 1]) > t then 1 else 0)
  }

  /** `ys` keeps the elements of each key in the order they have in `xs`. */
  ghost predicate KeepsEqualKeyOrder<T>(xs: seq<T>, ys: seq<T>, key: T -> int) {
    forall k :: KeyRun(ys, key, k) == KeyRun(xs, key, k)
  }

  /** The length of the leading run of `ys` whose keys do not exceed `key(x)`:
      the position at which a stable insertion puts `x`. */
  function InsertPos<T>(ys: seq<T>, x: T, key: T -> int): (p: nat)
    ensures p <= |ys|
    ensures forall i | 0 <= i < p :: key(ys[i]) <= key(x)
    ensures p < |ys| ==> key(ys[p]) > key(x)
    decreases |ys|
  {
    if |ys| == 0 || key(ys[0]) > key(x) then 0
    else 1 + InsertPos(ys[1..], x, key)
  }

  /** Inserts `x` into `ys` behind every leading element whose key is not greater. */
  function Insert<T>(ys: seq<T>, x: T, key: T -> int): seq<T> {
    var p := InsertPos(ys, x, key);
    ys[..p] + [x] + ys[p..]
  }

  /** Stable insertion sort, ascending by `key`. */
  function Sort<T>(xs: seq<T>, key: T -> int): (r: seq<T>)
    ensures |r| == |xs|
    ensures multiset(r) == multiset(xs)
    ensures SortedBy(r, key)
    decreases |xs|
  {
    if |xs| == 0 then []
    else
      var init := xs[..|xs| - 1];
      var last := xs[|xs| - 1];
      var ys := Sort(init, key);
      InsertLast(xs, ys, key);
      Insert(ys, last, key)
  }

  /** Inserting the last element of `xs` into a sorted arrangement of the others
      gives a sorted arrangement of `xs`. */
  lemma InsertLast<T>(xs: seq<T>, ys: seq<T>, key: T -> int)
    requires |xs| > 0 && SortedBy(ys, key)
    requires multiset(ys) == multiset(xs[..|xs| - 1])
    ensures var r := Insert(ys, xs[|xs| - 1], key);
      |r| == |xs| && multiset(r) == multiset(xs) && SortedBy(r, key)
  {
    var init, last := xs[..|xs| - 1], xs[|xs| - 1];
    InsertKeepsOrder(ys, last, key);
    assert xs == init + [last];
    var r := Insert(ys, last, key);
    assert |r| == |multiset(r)| == |multiset(xs)| == |xs|;
  }

  /** `a + [x] + b` is sorted when both parts are sorted and `x` separates them. */
  lemma SortedAround<T>(a: seq<T>, x: T, b: seq<T>, key: T -> int)
    requires SortedBy(a, key) && SortedBy(b, key)
    requires forall i | 0 <= i < |a| :: key(a[i]) <= key(x)
    requires forall i | 0 <= i < |b| :: key(x) < key(b[i])
    ensures SortedBy(a + [x] + b, key)
  {
    var r := a + [x] + b;
    forall i, j | 0 <= i < j < |r|
      ensures key(r[i]) <= key(r[j])
    {
      if j < |a| {
        assert r[i] == a[i] && r[j] == a[j];
      } else if i > |a| {
        assert r[i] == b[i - |a| - 1] && r[j] == b[j - |a| - 1];
      } else if i == |a| {
        assert r[i] == x && r[j] == b[j - |a| - 1];
      } else if j == |a| {
        assert r[i] == a[i] && r[j] == x;
      } else {
        assert r[i] == a[i] && r[j] == b[j - |a| - 1];
      }
    }
  }

  /** Position `p` splits `ys` into keys not above `t` and keys above `t`. */
  predicate SplitsAt<T>(ys: seq<T>, key: T -> int, t: int, p: nat) {
    && p <= |ys|
    && (forall i | 0 <= i < p :: key(ys[i]) <= t)
    && (forall i | p <= i < |ys| :: key(ys[i]) > t)
  }

  /** In a sorted sequence the insertion point of `x` splits it at `key(x)`. */
  lemma InsertTailAbove<T>(ys: seq<T>, x: T, key: T -> int)
    requires SortedBy(ys, key)
    ensures SplitsAt(ys, key, key(x), InsertPos(ys, x, key))
  {
    var p := InsertPos(ys, x, key);
    forall i | p <= i < |ys|
      ensures key(ys[i]) > key(x)
    {
      assert key(ys[p]) <= key(ys[i]);
    }
  }

  /** Insertion into a sorted sequence gives a sorted permutation. */
  lemma InsertKeepsOrder<T>(ys: seq<T>, x: T, key: T -> int)
    requires SortedBy(ys, key)
    ensures SortedBy(Insert(ys, x, key), key)
    ensures multiset(Insert(ys, x, key)) == multiset(ys) + multiset{x}
  {
    var p := InsertPos(ys, x, key);
    InsertTailAbove(ys, x, key);
    SortedSlices(ys, key, p);
    var a, b := ys[..p], ys[p..];
    forall i | 0 <= i < |b|
      ensures key(x) < key(b[i])
    {
      assert b[i] == ys[p + i];
    }
    SortedAround(a, x, b, key);
    SplitMultiset(ys, x, p);
  }

  /** Both parts of a sorted sequence are sorted. */
  lemma SortedSlices<T>(ys: seq<T>, key: T -> int, p: nat)
    requires SortedBy(ys, key) && p <= |ys|
    ensures SortedBy(ys[..p], key) && SortedBy(ys[p..], key)
  {
    var b := ys[p..];
    forall i, j | 0 <= i < j < |b|
      ensures key(b[i]) <= key(b[j])
    {
      assert b[i] == ys[p + i] && b[j] == ys[p + j];
    }
  }

  /** Putting `x` anywhere adds it to the multiset. */
  lemma SplitMultiset<T>(ys: seq<T>, x: T, p: nat)
    requires p <= |ys|
    ensures multiset(ys[..p] + [x] + ys[p..]) == multiset(ys) + multiset{x}
  {
    assert ys == ys[..p] + ys[p..];
  }

  /** `KeyRun` distributes over concatenation. */
  lemma {:induction false} KeyRunAppend<T>(a: seq<T>, b: seq<T>, key: T -> int, k: int)
    ensures KeyRun(a + b, key, k) == KeyRun(a, key, k) + KeyRun(b, key, k)
    decreases |b|
  {
    if |b| == 0 {
      assert a + b == a;
    } else {
      var b' := b[..|b| - 1];
      assert (a + b)[..|a + b| - 1] == a + b';
      KeyRunAppend(a, b', key, k);
    }
  }

  /** A sequence with no element of key `k` has an empty run for `k`. */
  lemma {:induction false} KeyRunAbsent<T>(xs: seq<T>, key: T -> int, k: int)
    requires forall i | 0 <= i < |xs| :: key(xs[i]) != k
    ensures KeyRun(xs, key, k) == []
    decreases |xs|
  {
    if |xs| > 0 {
      KeyRunAbsent(xs[..|xs| - 1], key, k);
    }
  }

  /** Every element of a run is an element of the sequence with that key. */
  lemma {:induction false} KeyRunMembers<T>(xs: seq<T>, key: T -> int, k: int, e: T)
    requires e in KeyRun(xs, key, k)
    ensures e in xs && key(e) == k
    decreases |xs|
  {
    var init := xs[..|xs| - 1];
    if e in KeyRun(init, key, k) {
      KeyRunMembers(init, key, k, e);
    }
  }

  /** `CountAbove` distributes over concatenation. */
  lemma {:induction false} CountAboveAppend<T>(a: seq<T>, b: seq<T>, key: T -> int, t: int)
    ensures CountAbove(a + b, key, t) == CountAbove(a, key, t) + CountAbove(b, key, t)
    decreases |b|
  {
    if |b| == 0 {
      assert a + b == a;
    } else {
      var b' := b[..|b| - 1];
      assert (a + b)[..|a + b| - 1] == a + b';
      CountAboveAppend(a, b', key, t);
    }
  }

  /** `CountAbove` counts every element when all keys exceed `t`. */
  lemma {:induction false} CountAboveAll<T>(xs: seq<T>, key: T -> int, t: int)
    requires forall i | 0 <= i < |xs| :: key(xs[i]) > t
    ensures CountAbove(xs, key, t) == |xs|
    decreases |xs|
  {
    if |xs| > 0 {
      CountAboveAll(xs[..|xs| - 1], key, t);
    }
  }

  /** `CountAbove` counts nothing when no key exceeds `t`. */
  lemma {:induction false} CountAboveNone<T>(xs: seq<T>, key: T -> int, t: int)
    requires forall i | 0 <= i < |xs| :: key(xs[i]) <= t
    ensures CountAbove(xs, key, t) == 0
    decreases |xs|
  {
    if |xs| > 0 {
      CountAboveNone(xs[..|xs| - 1], key, t);
    }
  }

  /** `CountAbove` never exceeds the length. */
  lemma {:induction false} CountAboveBound<T>(xs: seq<T>, key: T -> int, t: int)
    ensures CountAbove(xs, key, t) <= |xs|
    decreases |xs|
  {
    if |xs| > 0 {
      CountAboveBound(xs[..|xs| - 1], key, t);
    }
  }

  /** One step of the sort: the last element is inserted into the sorted prefix. */
  lemma SortStep<T>(init: seq<T>, x: T, key: T -> int)
    ensures var ys := Sort(init, key);
      var p := InsertPos(ys, x, key);
      Sort(init + [x], key) == ys[..p] + [x] + ys[p..]
  {
    assert (init + [x])[..|init|] == init;
  }

  /** `CountAbove` of a sequence split around one element. */
  lemma CountAboveAround<T>(a: seq<T>, x: T, b: seq<T>, key: T -> int, t: int)
    ensures CountAbove(a + [x] + b, key, t)
      == CountAbove(a, key, t) + (if key(x) > t then 1 else 0) + CountAbove(b, key, t)
  {
    CountAboveAppend(a + [x], b, key, t);
    CountAboveAppend(a, [x], key, t);
    assert [x][..0] == [];
  }

  /** `KeyRun` of a sequence split around one element. */
  lemma KeyRunAround<T>(a: seq<T>, x: T, b: seq<T>, key: T -> int, k: int)
    ensures KeyRun(a + [x] + b, key, k)
      == KeyRun(a, key, k) + (if key(x) == k then [x] else []) + KeyRun(b, key, k)
  {
    KeyRunAppend(a + [x], b, key, k);
    KeyRunAppend(a, [x], key, k);
    assert [x][..0] == [];
  }

  /** Insertion adds `x` to the count of elements above `t` and nothing else. */
  lemma InsertCountAbove<T>(ys: seq<T>, x: T, key: T -> int, t: int)
    ensures CountAbove(Insert(ys, x, key), key, t)
      == CountAbove(ys, key, t) + (if key(x) > t then 1 else 0)
  {
    var p := InsertPos(ys, x, key);
    var lo, hi := ys[..p], ys[p..];
    CountAboveAround(lo, x, hi, key, t);
    CountAboveAppend(lo, hi, key, t);
    assert lo + hi == ys;
  }

  /** Sorting does not change how many elements lie above a threshold. */
  lemma {:induction false} SortKeepsCountAbove<T>(xs: seq<T>, key: T -> int, t: int)
    ensures CountAbove(Sort(xs, key), key, t) == CountAbove(xs, key, t)
    decreases |xs|
  {
    if |xs| > 0 {
      var init, x := xs[..|xs| - 1], xs[|xs| - 1];
      var ys := Sort(init, key);
      assert Sort(xs, key) == Insert(ys, x, key);
      SortKeepsCountAbove(init, key, t);
      InsertCountAbove(ys, x, key, t);
    }
  }

  /** Behind a split point lie exactly the elements whose key exceeds the threshold. */
  lemma SplitCountsAbove<T>(ys: seq<T>, key: T -> int, t: int, p: nat)
    requires SplitsAt(ys, key, t, p)
    ensures |ys| - p == CountAbove(ys, key, t)
  {
    var lo, hi := ys[..p], ys[p..];
    assert forall i | 0 <= i < |hi| :: hi[i] == ys[p + i];
    CountAboveNone(lo, key, t);
    CountAboveAll(hi, key, t);
    CountAboveAppend(lo, hi, key, t);
    assert lo + hi == ys;
  }

  /** In a sorted sequence, the elements behind the insertion point of `x` are exactly
      those whose key exceeds `key(x)`. */
  lemma InsertPosCountsAbove<T>(ys: seq<T>, x: T, key: T -> int)
    requires SortedBy(ys, key)
    ensures |ys| - InsertPos(ys, x, key) == CountAbove(ys, key, key(x))
  {
    InsertTailAbove(ys, x, key);
    SplitCountsAbove(ys, key, key(x), InsertPos(ys, x, key));
  }

  /** Where a stable sort puts the last element: after every element whose key is not
      greater, so exactly `CountAbove(init, key, key(x))` elements follow it. */
  lemma SortLastPlacement<T>(init: seq<T>, x: T, key: T -> int)
    ensures var p := InsertPos(Sort(init, key), x, key);
      && Sort(init + [x], key) == Sort(init, key)[..p] + [x] + Sort(init, key)[p..]
      && |init| - p == CountAbove(init, key, key(x))
  {
    SortStep(init, x, key);
    InsertPosCountsAbove(Sort(init, key), x, key);
    SortKeepsCountAbove(init, key, key(x));
  }

  /** Putting `x` at a point that splits `ys` at `key(x)` appends it to the run of its
      own key and leaves the other runs alone. */
  lemma SplitKeyRun<T>(ys: seq<T>, x: T, key: T -> int, p: nat, k: int)
    requires SplitsAt(ys, key, key(x), p)
    ensures KeyRun(ys[..p] + [x] + ys[p..], key, k)
      == KeyRun(ys, key, k) + (if key(x) == k then [x] else [])
  {
    var lo, hi := ys[..p], ys[p..];
    KeyRunAround(lo, x, hi, key, k);
    KeyRunAppend(lo, hi, key, k);
    assert lo + hi == ys;
    if key(x) == k {
      assert forall i | 0 <= i < |hi| :: hi[i] == ys[p + i];
      KeyRunAbsent(hi, key, k);
      calc {
        KeyRun(lo + [x] + hi, key, k);
        KeyRun(lo, key, k) + [x] + [];
        KeyRun(lo, key, k) + [] + [x];
        KeyRun(ys, key, k) + [x];
      }
    } else {
      calc {
        KeyRun(lo + [x] + hi, key, k);
        KeyRun(lo, key, k) + [] + KeyRun(hi, key, k);
        KeyRun(ys, key, k) + [];
      }
    }
  }

  /** Stable insertion appends `x` to the run of its own key and leaves the other
      runs alone. */
  lemma InsertKeyRun<T>(ys: seq<T>, x: T, key: T -> int, k: int)
    requires SortedBy(ys, key)
    ensures KeyRun(Insert(ys, x, key), key, k)
      == KeyRun(ys, key, k) + (if key(x) == k then [x] else [])
  {
    InsertTailAbove(ys, x, key);
    SplitKeyRun(ys, x, key, InsertPos(ys, x, key), k);
  }

  /** The last element survives a cut that keeps the top `m` of the sorted sequence
      exactly when fewer than `m` earlier elements have a strictly greater key. */
  lemma SortTailKeepsLastIff<T>(init: seq<T>, x: T, key: T -> int, m: nat)
    requires x !in init
    requires m <= |init| + 1
    ensures var sorted := Sort(init + [x], key);
      x in sorted[|sorted| - m..] <==> CountAbove(init, key, key(x)) < m
  {
    var ys := Sort(init, key);
    SortLastPlacement(init, x, key);
    assert x !in ys by {
      assert multiset(ys) == multiset(init);
      assert x !in multiset(init);
    }
    InTailIff(ys, x, InsertPos(ys, x, key), m);
  }

  /** An element absent from `ys` and put at position `p` is among the last `m`
      exactly when at most `m - 1` elements follow it. */
  lemma InTailIff<T>(ys: seq<T>, x: T, p: nat, m: nat)
    requires x !in ys && p <= |ys| && m <= |ys| + 1
    ensures var r := ys[..p] + [x] + ys[p..];
      x in r[|r| - m..] <==> |ys| - p < m
  {
    var r := ys[..p] + [x] + ys[p..];
    var cut := |r| - m;
    if p >= cut {
      assert r[cut..][p - cut] == x;
    } else {
      forall j | 0 <= j < |r[cut..]|
        ensures r[cut..][j] != x
      {
        assert r[cut..][j] == ys[cut + j - 1];
      }
    }
  }

  /** The sort keeps elements of equal key in their original order. */
  lemma {:induction false} SortIsStable<T>(xs: seq<T>, key: T -> int)
    ensures KeepsEqualKeyOrder(xs, Sort(xs, key), key)
    decreases |xs|
  {
    if |xs| > 0 {
      var init, x := xs[..|xs| - 1], xs[|xs| - 1];
      var ys := Sort(init, key);
      assert Sort(xs, key) == Insert(ys, x, key);
      SortIsStable(init, key);
      forall k
        ensures KeyRun(Sort(xs, key), key, k) == KeyRun(xs, key, k)
      {
        InsertKeyRun(ys, x, key, k);
      }
    }
  }

  /** The run of the last element's key is never empty. */
  lemma LastKeyRunNonEmpty<T>(xs: seq<T>, key: T -> int)
    ensures |xs| > 0 ==> KeyRun(xs, key, key(xs[|xs| - 1])) != []
  {
  }

  /** Two non-empty sequences ordered by the key whose runs of equal key agree end
      with the same element. */
  lemma LastsAgree<T>(a: seq<T>, b: seq<T>, key: T -> int)
    requires |a| > 0 && |b| > 0
    requires SortedBy(a, key) && SortedBy(b, key)
    requires KeepsEqualKeyOrder(a, b, key)
    ensures a[|a| - 1] == b[|b| - 1]
  {
    var la, lb := a[|a| - 1], b[|b| - 1];
    var ra := KeyRun(a, key, key(la));
    assert ra == KeyRun(a[..|a| - 1], key, key(la)) + [la];
    KeyRunMembers(b, key, key(la), ra[|ra| - 1]);
    var rb := KeyRun(b, key, key(lb));
    assert rb == KeyRun(b[..|b| - 1], key, key(lb)) + [lb];
    KeyRunMembers(a, key, key(lb), rb[|rb| - 1]);
    assert key(la) == key(lb);
  }

  /** Dropping a shared last element keeps the runs of equal key in agreement. */
  lemma PrefixRunsAgree<T>(a: seq<T>, b: seq<T>, key: T -> int)
    requires |a| > 0 && |b| > 0 && a[|a| - 1] == b[|b| - 1]
    requires KeepsEqualKeyOrder(a, b, key)
    ensures KeepsEqualKeyOrder(a[..|a| - 1], b[..|b| - 1], key)
  {
    var a', b' := a[..|a| - 1], b[..|b| - 1];
    var last := a[|a| - 1];
    forall k
      ensures KeyRun(b', key, k) == KeyRun(a', key, k)
    {
      var ra', rb' := KeyRun(a', key, k), KeyRun(b', key, k);
      if k == key(last) {
        assert KeyRun(a, key, k) == ra' + [last];
        assert KeyRun(b, key, k) == rb' + [last];
        assert ra' == (ra' + [last])[..|ra'|];
        assert rb' == (rb' + [last])[..|rb'|];
      } else {
        assert KeyRun(a, key, k) == ra';
        assert KeyRun(b, key, k) == rb';
      }
    }
  }

  /** Two sequences ordered by the key whose runs of equal key agree are equal. */
  lemma {:induction false} SortedRunsDetermine<T>(a: seq<T>, b: seq<T>, key: T -> int)
    requires SortedBy(a, key) && SortedBy(b, key)
    requires KeepsEqualKeyOrder(a, b, key)
    ensures a == b
    decreases |a| + |b|
  {
    if |a| == 0 && |b| == 0 {
    } else if |a| == 0 {
      LastKeyRunNonEmpty(b, key);
      assert false;
    } else if |b| == 0 {
      LastKeyRunNonEmpty(a, key);
      assert false;
    } else {
      var a', b' := a[..|a| - 1], b[..|b| - 1];
      LastsAgree(a, b, key);
      PrefixRunsAgree(a, b, key);
      SortedRunsDetermine(a', b', key);
      assert a == a' + [a[|a| - 1]] && b == b' + [b[|b| - 1]];
    }
  }

  /** Any arrangement of `xs` that is ordered by the key and keeps equal-key elements in
      their original order is the output of `Sort`. */
  lemma StableSortIsUnique<T>(xs: seq<T>, ys: seq<T>, key: T -> int)
    requires SortedBy(ys, key)
    requires KeepsEqualKeyOrder(xs, ys, key)
    ensures ys == Sort(xs, key)
  {
    SortIsStable(xs, key);
    SortedRunsDetermine(ys, Sort(xs, key), key);
  }
}
