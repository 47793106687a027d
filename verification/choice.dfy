/** List utilities shared by both scheduling engines: the order-preserving
    filter of `stream().filter(...)`, the stable sort of `List.sort`, and a
    model of `Collections.shuffle` in which the random outcome is an explicit
    sequence of picks. */
module Choice {

  /** `xs.stream().filter(p).collect(toList())`: the elements satisfying `p`, in order. */
  function Filter<T(!new)>(xs: seq<T>, p: T -> bool): (r: seq<T>)
    ensures |r| <= |xs|
    ensures forall x :: x in r <==> x in xs && p(x)
    ensures multiset(r) <= multiset(xs)
  {
    if xs == [] then []
    else
      assert xs == [xs[0]] + xs[1..];
      (if p(xs[0]) then [xs[0]] else []) + Filter(xs[1..], p)
  }

  /** The blocks one after another, as a loop that appends each block's items. */
  function Concat<T>(blocks: seq<seq<T>>): seq<T> {
    if blocks == [] then [] else blocks[0] + Concat(blocks[1..])
  }

  /** When every block has `n` items, item `i` of block `k` sits at `k * n + i`. */
  lemma {:induction false} ConcatAt<T>(blocks: seq<seq<T>>, n: nat, k: nat, i: nat)
    requires forall j :: 0 <= j < |blocks| ==> |blocks[j]| == n
    requires k < |blocks| && i < n
    ensures |Concat(blocks)| == |blocks| * n
    ensures 0 <= k * n + i < |Concat(blocks)| && Concat(blocks)[k * n + i] == blocks[k][i]
  {
    ConcatLength(blocks, n);
    if k > 0 {
      ConcatAt(blocks[1..], n, k - 1, i);
      assert k * n + i == n + ((k - 1) * n + i);
    }
  }

  lemma {:induction false} ConcatLength<T>(blocks: seq<seq<T>>, n: nat)
    requires forall j :: 0 <= j < |blocks| ==> |blocks[j]| == n
    ensures |Concat(blocks)| == |blocks| * n
  {
    if blocks != [] {
      ConcatLength(blocks[1..], n);
      assert |blocks| * n == n + (|blocks| - 1) * n;
    }
  }

  // ---------------------------------------------------------------------------
  // Collections.shuffle
  // ---------------------------------------------------------------------------

  /** The index chosen from a list of `n` elements by the next pick; a pick
      out of range, or no pick left, chooses the first element. */
  function PickIndex(picks: seq<nat>, n: nat): (k: nat)
    requires n > 0
    ensures k < n
  {
    if picks != [] && picks[0] < n then picks[0] else 0
  }

  function RestPicks(picks: seq<nat>): seq<nat> {
    if picks == [] then [] else picks[1..]
  }

  /** `Collections.shuffle(xs)` with its random outcome given by `picks`: the
      next pick chooses, among the elements not yet placed, the one that comes next. */
  function Shuffle<T>(xs: seq<T>, picks: seq<nat>): (r: seq<T>)
    ensures |r| == |xs|
    ensures multiset(r) == multiset(xs)
    decreases |xs|
  {
    if xs == [] then []
    else
      var k := PickIndex(picks, |xs|);
      assert xs == xs[..k] + [xs[k]] + xs[k + 1..];
      [xs[k]] + Shuffle(xs[..k] + xs[k + 1..], RestPicks(picks))
  }

  /** The first element of the shuffle is the one the first pick chooses. */
  lemma ShuffleHead<T>(xs: seq<T>, picks: seq<nat>)
    requires xs != []
    ensures Shuffle(xs, picks)[0] == xs[PickIndex(picks, |xs|)]
  {
  }

  /** Shuffling neither adds nor loses elements. */
  lemma ShuffleMembers<T>(xs: seq<T>, picks: seq<nat>)
    ensures forall x :: x in Shuffle(xs, picks) <==> x in xs
  {
    var r := Shuffle(xs, picks);
    forall x ensures x in r <==> x in xs {
      assert x in r <==> x in multiset(r);
      assert x in xs <==> x in multiset(xs);
    }
  }

  lemma MultisetWithout<T>(xs: seq<T>, k: nat)
    requires k < |xs|
    ensures multiset(xs[..k] + xs[k + 1..]) == multiset(xs) - multiset{xs[k]}
  {
    assert xs == xs[..k] + [xs[k]] + xs[k + 1..];
  }

  /** Two sequences with the same elements counted with multiplicity have the same members. */
  lemma SameMembers<T>(a: seq<T>, b: seq<T>)
    requires multiset(a) == multiset(b)
    ensures forall x :: x in a <==> x in b
  {
    forall x ensures x in a <==> x in b {
      assert x in a <==> x in multiset(a);
      assert x in b <==> x in multiset(b);
    }
  }

  /** No element occurs twice. */
  predicate Distinct<T(==)>(xs: seq<T>) {
    forall a, b :: 0 <= a < b < |xs| ==> xs[a] != xs[b]
  }

  lemma {:induction false} DistinctMultiplicity<T>(xs: seq<T>, x: T)
    requires Distinct(xs)
    ensures multiset(xs)[x] <= 1
  {
    if xs != [] {
      assert xs == [xs[0]] + xs[1..];
      DistinctMultiplicity(xs[1..], x);
      if x == xs[0] {
        assert x !in xs[1..];
      }
    }
  }

  /** Shuffling a list without repetitions gives a list without repetitions. */
  lemma ShuffleDistinct<T>(xs: seq<T>, picks: seq<nat>)
    requires Distinct(xs)
    ensures Distinct(Shuffle(xs, picks))
  {
    var r := Shuffle(xs, picks);
    forall a, b | 0 <= a < b < |r| ensures r[a] != r[b] {
      DistinctMultiplicity(xs, r[a]);
      RepeatMultiplicity(r, a, b);
    }
  }

  /** An element found at two positions occurs at least twice. */
  lemma RepeatMultiplicity<T>(r: seq<T>, a: nat, b: nat)
    requires a < b < |r|
    ensures r[a] == r[b] ==> multiset(r)[r[a]] >= 2
  {
    assert r == r[..b] + [r[b]] + r[b + 1..];
    assert r[..b][a] == r[a];
  }

  /** Unfolding one step of the shuffle with a pick chosen in range. */
  lemma ShuffleStep<T>(xs: seq<T>, k: nat, picks: seq<nat>, p: seq<T>)
    requires k < |xs| && |p| > 0 && xs[k] == p[0]
    requires Shuffle(xs[..k] + xs[k + 1..], picks) == p[1..]
    ensures Shuffle(xs, [k] + picks) == p
  {
    assert PickIndex([k] + picks, |xs|) == k;
    assert RestPicks([k] + picks) == picks;
    assert p == [p[0]] + p[1..];
  }

  /** The first index of `xs` holding `x`. */
  function IndexOf<T(==)>(xs: seq<T>, x: T): (k: nat)
    requires x in xs
    ensures k < |xs| && xs[k] == x
    ensures forall j :: 0 <= j < k ==> xs[j] != x
  {
    if xs[0] == x then 0 else 1 + IndexOf(xs[1..], x)
  }

  /** Removing the same element from two rearrangements of each other leaves
      rearrangements of each other. */
  lemma RemoveMatching<T>(xs: seq<T>, k: nat, p: seq<T>)
    requires k < |xs| && |p| > 0 && xs[k] == p[0]
    requires multiset(p) == multiset(xs)
    ensures multiset(p[1..]) == multiset(xs[..k] + xs[k + 1..])
  {
    MultisetWithout(xs, k);
    assert p == [p[0]] + p[1..];
  }

  /** Every rearrangement of `xs` is the outcome of some picks, so a model that
      takes the picks as a parameter covers every outcome of the shuffle. */
  lemma {:induction false} ShuffleReachesEveryPermutation<T>(xs: seq<T>, p: seq<T>)
    returns (picks: seq<nat>)
    requires multiset(p) == multiset(xs)
    ensures Shuffle(xs, picks) == p
    decreases |xs|
  {
    if xs == [] {
      assert |p| == |multiset(p)| == 0;
      picks := [];
    } else {
      assert |p| == |multiset(p)| == |xs|;
      assert p[0] in multiset(xs);
      var k := IndexOf(xs, p[0]);
      RemoveMatching(xs, k, p);
      var tailPicks := ShuffleReachesEveryPermutation(xs[..k] + xs[k + 1..], p[1..]);
      ShuffleStep(xs, k, tailPicks, p);
      picks := [k] + tailPicks;
    }
  }

  // ---------------------------------------------------------------------------
  // List.sort(Comparator.comparing(key)): a stable ascending sort
  // ---------------------------------------------------------------------------

  predicate SortedBy<T>(xs: seq<T>, key: T -> int) {
    forall i, j :: 0 <= i < j < |xs| ==> key(xs[i]) <= key(xs[j])
  }

  /** Puts `x` in front of the first element whose key is not smaller, so that
      `x` stays ahead of the elements with an equal key. */
  function Insert<T>(x: T, ys: seq<T>, key: T -> int): seq<T> {
    if ys == [] || key(x) <= key(ys[0]) then [x] + ys
    else [ys[0]] + Insert(x, ys[1..], key)
  }

  /** Insertion adds exactly `x`. */
  lemma {:induction false} InsertPermutes<T>(x: T, ys: seq<T>, key: T -> int)
    ensures |Insert(x, ys, key)| == |ys| + 1
    ensures multiset(Insert(x, ys, key)) == multiset(ys) + multiset{x}
  {
    if ys != [] && key(x) > key(ys[0]) {
      InsertPermutes(x, ys[1..], key);
      assert ys == [ys[0]] + ys[1..];
    }
  }

  /** Inserting an element no smaller than `b` among elements no smaller
      than `b` keeps every element no smaller than `b`. */
  lemma {:induction false} InsertBound<T>(x: T, ys: seq<T>, key: T -> int, b: int)
    requires b <= key(x)
    requires forall j :: 0 <= j < |ys| ==> b <= key(ys[j])
    ensures forall j :: 0 <= j < |Insert(x, ys, key)| ==> b <= key(Insert(x, ys, key)[j])
  {
    if ys != [] && key(x) > key(ys[0]) {
      var tail := Insert(x, ys[1..], key);
      InsertBound(x, ys[1..], key, b);
      assert Insert(x, ys, key) == [ys[0]] + tail;
    }
  }

  lemma {:induction false} InsertKeepsSorted<T>(x: T, ys: seq<T>, key: T -> int)
    requires SortedBy(ys, key)
    ensures SortedBy(Insert(x, ys, key), key)
  {
    if ys != [] && key(x) > key(ys[0]) {
      var tail := Insert(x, ys[1..], key);
      assert SortedBy(ys[1..], key);
      InsertKeepsSorted(x, ys[1..], key);
      InsertBound(x, ys[1..], key, key(ys[0]));
      var r := [ys[0]] + tail;
      assert Insert(x, ys, key) == r;
      forall i, j | 0 <= i < j < |r| ensures key(r[i]) <= key(r[j]) {
        assert r[j] == tail[j - 1];
        if i > 0 {
          assert r[i] == tail[i - 1];
        }
      }
    }
  }

  /** The elements of `xs` whose key is `v`, in their order in `xs`. A sort
      is stable when it keeps every such class as it found it. */
  function WithKey<T>(xs: seq<T>, key: T -> int, v: int): seq<T> {
    if xs == [] then [] else (if key(xs[0]) == v then [xs[0]] else []) + WithKey(xs[1..], key, v)
  }

  /** `x` goes in behind nothing of its own key: it heads its class, and
      every other class is left as it was. */
  lemma {:induction false} InsertWithKey<T>(x: T, ys: seq<T>, key: T -> int, v: int)
    ensures WithKey(Insert(x, ys, key), key, v) == (if key(x) == v then [x] else []) + WithKey(ys, key, v)
  {
    var r := Insert(x, ys, key);
    if ys == [] || key(x) <= key(ys[0]) {
      assert r[0] == x && r[1..] == ys;
    } else {
      var tail := Insert(x, ys[1..], key);
      assert r[0] == ys[0] && r[1..] == tail;
      InsertWithKey(x, ys[1..], key, v);
    }
  }

  /** Insertion sort by `key`; stable like Java's `List.sort`. */
  function SortBy<T>(xs: seq<T>, key: T -> int): seq<T> {
    if xs == [] then [] else Insert(xs[0], SortBy(xs[1..], key), key)
  }

  /** The sort is a permutation of its input, in ascending key order, and
      stable: the elements of each key keep their input order. */
  lemma {:induction false} SortBySpec<T>(xs: seq<T>, key: T -> int)
    ensures |SortBy(xs, key)| == |xs|
    ensures multiset(SortBy(xs, key)) == multiset(xs)
    ensures SortedBy(SortBy(xs, key), key)
    ensures forall v :: WithKey(SortBy(xs, key), key, v) == WithKey(xs, key, v)
  {
    if xs != [] {
      SortBySpec(xs[1..], key);
      InsertPermutes(xs[0], SortBy(xs[1..], key), key);
      InsertKeepsSorted(xs[0], SortBy(xs[1..], key), key);
      assert xs == [xs[0]] + xs[1..];
    }
    forall v ensures WithKey(SortBy(xs, key), key, v) == WithKey(xs, key, v) {
      SortByStable(xs, key, v);
    }
  }

  lemma {:induction false} SortByStable<T>(xs: seq<T>, key: T -> int, v: int)
    ensures WithKey(SortBy(xs, key), key, v) == WithKey(xs, key, v)
  {
    if xs != [] {
      SortByStable(xs[1..], key, v);
      InsertWithKey(xs[0], SortBy(xs[1..], key), key, v);
    }
  }
}
