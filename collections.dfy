/** The array helpers of function/utils.js: shuffle, chunk, unique, flatten,
    groupBy and clamp. JavaScript arrays are sequences here, except for the
    array that `shuffle` permutes in place. */
module Collections {

  import opened Arith

  // ---------------------------------------------------------------------
  // shuffle: Fisher-Yates, in place, with the random draws injected
  // ---------------------------------------------------------------------

  /** The random draws of one `shuffle` call: `picks[i]` is the index `j`
      drawn while the loop counter is `i`, which `Math.floor(Math.random() *
      (i + 1))` keeps in `0..i`. The loop never runs with counter 0, so
      `picks[0]` is never read. */
  predicate ValidPicks(picks: seq<nat>, n: nat) {
    |picks| == n && forall i :: 0 <= i < n ==> picks[i] <= i
  }

  function Swap<T>(s: seq<T>, i: nat, j: nat): (r: seq<T>)
    requires i < |s| && j < |s|
    ensures |r| == |s| && r[i] == s[j] && r[j] == s[i]
    ensures forall m :: 0 <= m < |s| && m != i && m != j ==> r[m] == s[m]
  {
    s[i := s[j]][j := s[i]]
  }

  lemma SwapPermutes<T>(s: seq<T>, i: nat, j: nat)
    requires i < |s| && j < |s|
    ensures multiset(Swap(s, i, j)) == multiset(s)
  {
    var t := s[i := s[j]];
    assert multiset(t) == multiset(s) - multiset{s[i]} + multiset{s[j]};
  }

  /** What the loop does from counter `i` down to 1, starting from the
      array `a`: swap `a[i]` with `a[picks[i]]`, then go on with `i - 1`. */
  function ShuffleFrom<T>(a: seq<T>, picks: seq<nat>, i: nat): (r: seq<T>)
    requires ValidPicks(picks, |a|) && i < |a|
    ensures |r| == |a|
    decreases i
  {
    if i == 0 then a else ShuffleFrom(Swap(a, i, picks[i]), picks, i - 1)
  }

  /** What `shuffle` leaves in the array for the draws `picks`. */
  function Shuffled<T>(s: seq<T>, picks: seq<nat>): seq<T>
    requires ValidPicks(picks, |s|)
  {
    if |s| == 0 then s else ShuffleFrom(s, picks, |s| - 1)
  }

  method Shuffle<T>(a: array<T>, picks: seq<nat>)
    requires ValidPicks(picks, a.Length)
    modifies a
    ensures a[..] == Shuffled(old(a[..]), picks)
    ensures multiset(a[..]) == multiset(old(a[..]))
  {
    var i := a.Length - 1;
    while i > 0
      invariant -1 <= i < a.Length
      invariant a.Length > 0 ==> 0 <= i && ShuffleFrom(a[..], picks, i) == Shuffled(old(a[..]), picks)
      invariant a.Length == 0 ==> a[..] == old(a[..])
    {
      var j := picks[i];
      ghost var before := a[..];
      a[i], a[j] := a[j], a[i];
      assert a[..] == Swap(before, i, j);
      i := i - 1;
    }
    ShuffledIsPermutation(old(a[..]), picks);
  }

  lemma {:induction false} ShuffleFromPermutes<T>(a: seq<T>, picks: seq<nat>, i: nat)
    requires ValidPicks(picks, |a|) && i < |a|
    ensures multiset(ShuffleFrom(a, picks, i)) == multiset(a)
    decreases i
  {
    if i > 0 {
      SwapPermutes(a, i, picks[i]);
      ShuffleFromPermutes(Swap(a, i, picks[i]), picks, i - 1);
    }
  }

  /** Whatever the draws, the shuffled array is a permutation of the input. */
  lemma ShuffledIsPermutation<T>(s: seq<T>, picks: seq<nat>)
    requires ValidPicks(picks, |s|)
    ensures |Shuffled(s, picks)| == |s|
    ensures multiset(Shuffled(s, picks)) == multiset(s)
  {
    if |s| > 0 {
      ShuffleFromPermutes(s, picks, |s| - 1);
    }
  }

  /** Positions above the loop counter are never touched again: their
      elements are final. */
  lemma {:induction false} ShuffleSettles<T>(a: seq<T>, picks: seq<nat>, i: nat, k: nat)
    requires ValidPicks(picks, |a|) && i < k < |a|
    ensures ShuffleFrom(a, picks, i)[k] == a[k]
    decreases i
  {
    if i > 0 {
      ShuffleSettles(Swap(a, i, picks[i]), picks, i - 1, k);
    }
  }

  /** The last element of the result is the one the first draw selects. */
  lemma LastIsFirstDraw<T>(s: seq<T>, picks: seq<nat>)
    requires ValidPicks(picks, |s|) && |s| >= 2
    ensures Shuffled(s, picks)[|s| - 1] == s[picks[|s| - 1]]
  {
    var n := |s|;
    ShuffleSettles(Swap(s, n - 1, picks[n - 1]), picks, n - 2, n - 1);
  }

  /** Drawing `j == i` at every step is the identity. */
  lemma {:induction false} ShuffleNoSwaps<T>(a: seq<T>, picks: seq<nat>, i: nat)
    requires ValidPicks(picks, |a|) && i < |a|
    requires forall k :: 0 <= k < |a| ==> picks[k] == k
    ensures ShuffleFrom(a, picks, i) == a
    decreases i
  {
    if i > 0 {
      assert Swap(a, i, picks[i]) == a;
      ShuffleNoSwaps(a, picks, i - 1);
    }
  }

  // ---------------------------------------------------------------------
  // chunk
  // ---------------------------------------------------------------------

  /** Concatenation of a sequence of sequences. */
  function Concat<T>(ss: seq<seq<T>>): seq<T> {
    if |ss| == 0 then [] else Concat(ss[..|ss| - 1]) + ss[|ss| - 1]
  }

  lemma ConcatSnoc<T>(ss: seq<seq<T>>, x: seq<T>)
    ensures Concat(ss + [x]) == Concat(ss) + x
  {
    assert (ss + [x])[..|ss|] == ss;
  }

  lemma DivOfBracket(x: nat, size: nat, q: nat)
    requires size > 0 && q * size <= x < q * size + size
    ensures x / size == q
  {
    var d, m := x / size, x % size;
    assert x == d * size + m && 0 <= m < size;
    if d < q {
      MulMonotone(d + 1, q, size);
    } else if q < d {
      MulMonotone(q + 1, d, size);
    }
  }

  /** `chunk(arr, size)`: slices of `size` elements, the last one possibly
      shorter. A non-positive size makes the loop run forever on a non-empty
      array and gives `[]` on an empty one. */
  method Chunk<T>(s: seq<T>, size: nat) returns (res: seq<seq<T>>)
    requires size > 0
    ensures Concat(res) == s
    ensures forall k :: 0 <= k < |res| - 1 ==> |res[k]| == size
    ensures |res| > 0 ==> 0 < |res[|res| - 1]| <= size
    ensures |res| == (|s| + size - 1) / size
  {
    res := [];
    var i := 0;
    while i < |s|
      invariant i == Covered(|res|, size)
      invariant 0 < i ==> i - size < |s|
      invariant Concat(res) == s[..Min(i, |s|)]
      invariant forall k :: 0 <= k < |res| ==> |res[k]| == size || (k == |res| - 1 && i >= |s|)
      invariant |res| > 0 ==> 0 < |res[|res| - 1]| <= size
    {
      var piece := s[i..Min(i + size, |s|)];
      assert s[..Min(i + size, |s|)] == s[..i] + piece;
      ConcatSnoc(res, piece);
      res := res + [piece];
      i := i + size;
    }
    ChunkCount(|s|, size, |res|);
  }

  /** How many items `count` slices of `size` items start past: the loop
      counter after `count` iterations. */
  function Covered(count: nat, size: nat): nat {
    if count == 0 then 0 else Covered(count - 1, size) + size
  }

  lemma {:induction false} CoveredIsProduct(count: nat, size: nat)
    ensures Covered(count, size) == count * size
  {
    if count > 0 {
      CoveredIsProduct(count - 1, size);
    }
  }

  /** The number of slices: the least count whose slices cover n items. */
  lemma ChunkCount(n: nat, size: nat, count: nat)
    requires size > 0 && n <= Covered(count, size) && (count > 0 ==> Covered(count, size) - size < n)
    ensures count == (n + size - 1) / size
  {
    CoveredIsProduct(count, size);
    if count > 0 {
      DivOfBracket(n + size - 1, size, count);
    }
  }

  // ---------------------------------------------------------------------
  // unique
  // ---------------------------------------------------------------------

  predicate NoDuplicates<T(==)>(s: seq<T>) {
    forall i, j :: 0 <= i < j < |s| ==> s[i] != s[j]
  }

  /** `Array.from(new Set(arr))`: each element once, where it first occurs,
      as a Set remembers insertion order. */
  function Unique<T(==)>(s: seq<T>): (r: seq<T>)
    ensures NoDuplicates(r)
    ensures forall i :: 0 <= i < |r| ==> r[i] in s
    ensures forall i :: 0 <= i < |s| ==> s[i] in r
    ensures |r| <= |s|
  {
    if |s| == 0 then []
    else
      var seen := Unique(s[..|s| - 1]);
      var x := s[|s| - 1];
      if x in seen then seen else seen + [x]
  }

  /** Index of the first occurrence of `x` in `s`. */
  function FirstIndex<T(==)>(s: seq<T>, x: T): (i: nat)
    requires x in s
    ensures i < |s| && s[i] == x && x !in s[..i]
  {
    if s[0] == x then 0 else 1 + FirstIndex(s[1..], x)
  }

  lemma FirstIndexExtend<T>(s: seq<T>, y: T, x: T)
    requires x in s
    ensures FirstIndex(s + [y], x) == FirstIndex(s, x)
  {
    var i, i' := FirstIndex(s, x), FirstIndex(s + [y], x);
    assert (s + [y])[i] == x;
    assert i' <= i;
    assert s[i'] == x;
  }

  /** The elements of `unique(arr)` come in the order of their first
      occurrence in `arr`. */
  lemma {:induction false} UniqueKeepsFirstOccurrenceOrder<T>(s: seq<T>)
    ensures forall i, j :: 0 <= i < j < |Unique(s)| ==>
      FirstIndex(s, Unique(s)[i]) < FirstIndex(s, Unique(s)[j])
  {
    if |s| > 0 {
      var t, x := s[..|s| - 1], s[|s| - 1];
      assert s == t + [x];
      UniqueKeepsFirstOccurrenceOrder(t);
      var seen := Unique(t);
      forall y | y in seen ensures FirstIndex(s, y) == FirstIndex(t, y) {
        FirstIndexExtend(t, x, y);
      }
      if x !in seen {
        assert FirstIndex(s, x) == |t|;
        assert Unique(s) == seen + [x];
      }
    }
  }

  /** A sequence without duplicates is its own `unique`. */
  lemma {:induction false} UniqueOfDistinct<T>(s: seq<T>)
    requires NoDuplicates(s)
    ensures Unique(s) == s
  {
    if |s| > 0 {
      var t := s[..|s| - 1];
      UniqueOfDistinct(t);
      assert s[|s| - 1] !in t;
      assert s == t + [s[|s| - 1]];
    }
  }

  /** Applying `unique` twice changes nothing. */
  lemma UniqueIdempotent<T>(s: seq<T>)
    ensures Unique(Unique(s)) == Unique(s)
  {
    UniqueOfDistinct(Unique(s));
  }

  lemma UniqueExample()
    ensures Unique([1, 1, 2]) == [1, 2]
  {
    assert [1, 1, 2][..2] == [1, 1];
    assert [1, 1][..1] == [1];
  }

  // ---------------------------------------------------------------------
  // flatten
  // ---------------------------------------------------------------------

  /** An element of a JavaScript array that `flatten` inspects: a non-array
      value, or a nested array. */
  datatype Item<T> = Leaf(value: T) | Arr(items: seq<Item<T>>)

  /** Number of non-array values at any depth. */
  function LeafCount<T>(xs: seq<Item<T>>): nat
    decreases xs
  {
    if |xs| == 0 then 0
    else LeafCount(xs[..|xs| - 1]) + match xs[|xs| - 1] {
      case Leaf(_) => 1
      case Arr(ys) => LeafCount(ys)
    }
  }

  /** `v` occurs as a non-array value somewhere in `xs`. */
  predicate HasLeaf<T(==)>(xs: seq<Item<T>>, v: T)
    decreases xs
  {
    exists i :: 0 <= i < |xs| && (xs[i] == Leaf(v) || (xs[i].Arr? && HasLeaf(xs[i].items, v)))
  }

  /** `flatten(arr)`: a left fold that appends each value, or the flattening
      of each nested array, to the result. */
  function Flatten<T>(xs: seq<Item<T>>): (r: seq<T>)
    ensures |r| == LeafCount(xs)
    decreases xs
  {
    if |xs| == 0 then []
    else Flatten(xs[..|xs| - 1]) + match xs[|xs| - 1] {
      case Leaf(v) => [v]
      case Arr(ys) => Flatten(ys)
    }
  }

  /** Flattening respects concatenation: the leaves come out left to right. */
  lemma {:induction false} FlattenAppend<T>(xs: seq<Item<T>>, ys: seq<Item<T>>)
    ensures Flatten(xs + ys) == Flatten(xs) + Flatten(ys)
    decreases |ys|
  {
    if |ys| > 0 {
      var zs := xs + ys;
      assert zs[..|zs| - 1] == xs + ys[..|ys| - 1];
      assert zs[|zs| - 1] == ys[|ys| - 1];
      FlattenAppend(xs, ys[..|ys| - 1]);
      var tail := match ys[|ys| - 1] {
        case Leaf(v) => [v]
        case Arr(items) => Flatten(items)
      };
      assert Flatten(ys) == Flatten(ys[..|ys| - 1]) + tail;
      assert Flatten(zs) == Flatten(zs[..|zs| - 1]) + tail;
    } else {
      assert xs + ys == xs;
    }
  }

  /** A nested array contributes exactly its own flattening. */
  lemma FlattenSingletons<T>(v: T, ys: seq<Item<T>>)
    ensures Flatten([Leaf(v)]) == [v]
    ensures Flatten([Arr(ys)]) == Flatten(ys)
  {
    assert [Leaf(v)][..0] == [];
    assert [Arr(ys)][..0] == [];
  }

  /** The values of the result are exactly the non-array values of the input. */
  lemma {:induction false} FlattenMembers<T>(xs: seq<Item<T>>, v: T)
    ensures v in Flatten(xs) <==> HasLeaf(xs, v)
    decreases xs
  {
    if |xs| > 0 {
      var init, last := xs[..|xs| - 1], xs[|xs| - 1];
      FlattenMembers(init, v);
      if last.Arr? {
        FlattenMembers(last.items, v);
      }
      if HasLeaf(xs, v) {
        var i :| 0 <= i < |xs| && (xs[i] == Leaf(v) || (xs[i].Arr? && HasLeaf(xs[i].items, v)));
        if i < |xs| - 1 {
          assert init[i] == xs[i];
        }
      }
      if HasLeaf(init, v) {
        var i :| 0 <= i < |init| && (init[i] == Leaf(v) || (init[i].Arr? && HasLeaf(init[i].items, v)));
        assert xs[i] == init[i];
      }
    }
  }

  lemma FlattenExample()
    ensures Flatten([Leaf(1), Arr([Leaf(2), Arr([Leaf(3), Leaf(4)])]), Leaf(5)]) == [1, 2, 3, 4, 5]
  {
    var inner := [Leaf(3), Leaf(4)];
    var mid := [Leaf(2), Arr(inner)];
    FlattenAppend([Leaf(3)], [Leaf(4)]);
    FlattenSingletons(3, []);
    FlattenSingletons(4, []);
    assert inner == [Leaf(3)] + [Leaf(4)];
    FlattenAppend([Leaf(2)], [Arr(inner)]);
    FlattenSingletons(2, inner);
    assert mid == [Leaf(2)] + [Arr(inner)];
    var top := [Leaf(1), Arr(mid), Leaf(5)];
    FlattenAppend([Leaf(1)], [Arr(mid)]);
    FlattenAppend([Leaf(1), Arr(mid)], [Leaf(5)]);
    FlattenSingletons(1, mid);
    FlattenSingletons(5, mid);
    assert [Leaf(1), Arr(mid)] == [Leaf(1)] + [Arr(mid)];
    assert top == [Leaf(1), Arr(mid)] + [Leaf(5)];
  }

  // ---------------------------------------------------------------------
  // groupBy (the key-function variant)
  // ---------------------------------------------------------------------

  /** The items of `s` whose key is `k`, in their original order. */
  function Select<T, K(==)>(s: seq<T>, key: T -> K, k: K): (r: seq<T>)
    ensures |r| <= |s|
    ensures forall i :: 0 <= i < |r| ==> r[i] in s && key(r[i]) == k
  {
    if |s| == 0 then []
    else
      var rest := Select(s[..|s| - 1], key, k);
      if key(s[|s| - 1]) == k then rest + [s[|s| - 1]] else rest
  }

  /** The keys of the items of s. */
  function Keys<T, K>(s: seq<T>, key: T -> K): set<K> {
    set i | 0 <= i < |s| :: key(s[i])
  }

  /** `groupBy(arr, fn)`: one bucket per key, each holding the items with
      that key in array order. */
  method GroupBy<T, K(==)>(s: seq<T>, key: T -> K) returns (groups: map<K, seq<T>>)
    ensures groups.Keys == Keys(s, key)
    ensures forall k :: k in groups ==> groups[k] == Select(s, key, k) && groups[k] != []
  {
    groups := map[];
    var i := 0;
    while i < |s|
      invariant 0 <= i <= |s|
      invariant groups.Keys == Keys(s[..i], key)
      invariant forall k :: k in groups ==> groups[k] == Select(s[..i], key, k) && groups[k] != []
      invariant forall k :: k !in groups ==> Select(s[..i], key, k) == []
    {
      var item := s[i];
      var k := key(item);
      var bucket := if k in groups then groups[k] else [];
      ghost var before, prefix := groups, s[..i];
      groups := groups[k := bucket + [item]];
      assert s[..i + 1] == prefix + [item];
      KeysSnoc(prefix, item, key);
      forall k' | k' in groups
        ensures groups[k'] == Select(s[..i + 1], key, k') && groups[k'] != []
      {
        SelectSnoc(prefix, item, key, k');
        if k' == k {
          assert bucket == Select(prefix, key, k);
        } else {
          assert groups[k'] == before[k'];
        }
      }
      forall k' | k' !in groups ensures Select(s[..i + 1], key, k') == [] {
        assert k' != k && k' !in before;
        SelectSnoc(prefix, item, key, k');
      }
      i := i + 1;
    }
    assert s[..i] == s;
  }

  lemma SelectSnoc<T, K>(s: seq<T>, x: T, key: T -> K, k: K)
    ensures Select(s + [x], key, k) == if key(x) == k then Select(s, key, k) + [x] else Select(s, key, k)
  {
    assert (s + [x])[..|s|] == s;
  }

  lemma KeysSnoc<T, K>(s: seq<T>, x: T, key: T -> K)
    ensures Keys(s + [x], key) == Keys(s, key) + {key(x)}
  {
    var t := s + [x];
    forall y | y in Keys(t, key) ensures y in Keys(s, key) + {key(x)} {
      var i :| 0 <= i < |t| && key(t[i]) == y;
      if i < |s| {
        assert t[i] == s[i];
      }
    }
    forall y | y in Keys(s, key) ensures y in Keys(t, key) {
      var i :| 0 <= i < |s| && key(s[i]) == y;
      assert t[i] == s[i];
    }
    assert key(t[|s|]) == key(x);
  }

  /** Grouping a concatenation groups each part and appends: the order of
      the items inside a bucket is their order in the array. */
  lemma {:induction false} SelectAppend<T, K>(s: seq<T>, t: seq<T>, key: T -> K, k: K)
    ensures Select(s + t, key, k) == Select(s, key, k) + Select(t, key, k)
    decreases |t|
  {
    if |t| > 0 {
      var st := s + t;
      assert st[..|st| - 1] == s + t[..|t| - 1];
      assert st[|st| - 1] == t[|t| - 1];
      SelectAppend(s, t[..|t| - 1], key, k);
      var tail := if key(t[|t| - 1]) == k then [t[|t| - 1]] else [];
      assert Select(t, key, k) == Select(t[..|t| - 1], key, k) + tail;
      assert Select(st, key, k) == Select(st[..|st| - 1], key, k) + tail;
    } else {
      assert s + t == s;
    }
  }

  /** Every item lands in the bucket of its own key. */
  lemma {:induction false} SelectCovers<T, K>(s: seq<T>, key: T -> K, i: nat)
    requires i < |s|
    ensures s[i] in Select(s, key, key(s[i]))
  {
    var x := s[i];
    SelectAppend(s[..i], [x] + s[i + 1..], key, key(x));
    SelectAppend([x], s[i + 1..], key, key(x));
    assert s == s[..i] + ([x] + s[i + 1..]);
    assert [x][..0] == [];
  }

  // ---------------------------------------------------------------------
  // clamp
  // ---------------------------------------------------------------------

  /** `Math.min(Math.max(v, a), b)`. When the bounds are crossed (a > b) the
      upper bound wins. */
  function Clamp(v: int, lo: int, hi: int): (r: int)
    ensures r <= hi
    ensures lo <= hi ==> lo <= r
    ensures lo <= v <= hi ==> r == v
    ensures r == v || r == lo || r == hi
    ensures lo > hi ==> r == hi
    ensures lo <= hi && v <= lo ==> r == lo
    ensures v >= hi ==> r == hi
  {
    Min(Max(v, lo), hi)
  }

  lemma ClampIdempotent(v: int, lo: int, hi: int)
    ensures Clamp(Clamp(v, lo, hi), lo, hi) == Clamp(v, lo, hi)
  {
  }
}
