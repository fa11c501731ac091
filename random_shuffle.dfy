/**
 * random.seed() and random.shuffle() as the data processor uses them.
 *
 * The shuffle is the Fisher-Yates loop of CPython's random.shuffle: for i
 * from n-1 down to 1, draw j uniformly from [0, i] and swap positions i and j.
 * The draws come from a generator whose state the caller seeds; the Mersenne
 * Twister itself is replaced by a fixed stand-in step function. StepsPermutes
 * and StepsGather are proved for an arbitrary valid draw sequence, so they do
 * not depend on which generator produces the draws; Shuffled, SeededPermutation
 * and ShuffledIsGather are stated for the stand-in's draws DrawsFrom(FixedSeed, n).
 */
module RandomShuffle {
  import opened PyBuiltins

  /** The seed train_test_split passes to random.seed. */
  const FixedSeed: nat := 42

  const StateModulus: nat := 0x8000_0000

  /** Stand-in for one step of the generator. */
  function NextState(state: nat): (s: nat)
    ensures s < StateModulus
  {
    (state * 1103515245 + 12345) % StateModulus
  }

  /** The generator state after k draws. */
  function Advance(state: nat, k: nat): nat
  {
    if k == 0 then state else NextState(Advance(state, k - 1))
  }

  lemma AdvanceOnce(state: nat, k: nat)
    ensures Advance(state, k + 1) == NextState(Advance(state, k))
  {
  }

  /** The process-wide pseudo-random generator, as an object with mutable state. */
  class Random {
    var state: nat

    constructor (seed: nat)
      ensures state == seed
    {
      state := seed;
    }

    /** random.seed(seed) */
    method Seed(seed: nat)
      modifies this
      ensures state == seed
    {
      state := seed;
    }

    /** The draw behind random.shuffle's step: an integer in [0, bound). */
    method RandBelow(bound: nat) returns (j: nat)
      requires bound > 0
      modifies this
      ensures state == NextState(old(state))
      ensures j == state % bound && j < bound
    {
      state := NextState(state);
      j := state % bound;
    }
  }

  // ---------------------------------------------------------------------------
  // Draw sequences and the Fisher-Yates loop as a function
  // ---------------------------------------------------------------------------

  /** d[i] is the partner drawn for position i; it never exceeds i. */
  predicate ValidDraws(d: seq<nat>)
  {
    forall i :: 0 <= i < |d| ==> d[i] <= i
  }

  /** The draws a shuffle of n elements takes from a generator in the given
      state, indexed by position: entries n-1 down to 1 are the n-1 draws the
      loop makes, in that order. Entry 0 is a placeholder that is never drawn:
      it is always 0, and Steps never reads it. */
  function DrawsFrom(state: nat, n: nat): (d: seq<nat>)
    ensures |d| == n && ValidDraws(d)
    decreases n
  {
    if n == 0 then []
    else
      var next := NextState(state);
      DrawsFrom(next, n - 1) + [next % n]
  }

  /** Exchanging two positions of a list. */
  function Swap<T>(s: seq<T>, i: nat, j: nat): (r: seq<T>)
    requires i < |s| && j < |s|
    ensures |r| == |s| && multiset(r) == multiset(s)
  {
    s[i := s[j]][j := s[i]]
  }

  /** The Fisher-Yates steps for positions i-1 down to 1. */
  function Steps<T>(s: seq<T>, d: seq<nat>, i: nat): (r: seq<T>)
    requires |d| == |s| && ValidDraws(d) && i <= |s|
    ensures |r| == |s|
    decreases i
  {
    if i <= 1 then s else Steps(Swap(s, i - 1, d[i - 1]), d, i - 1)
  }

  /** The steps only exchange elements: the result holds the same elements,
      each as often as the input. */
  lemma {:induction false} StepsPermutes<T>(s: seq<T>, d: seq<nat>, i: nat)
    requires |d| == |s| && ValidDraws(d) && i <= |s|
    ensures multiset(Steps(s, d, i)) == multiset(s)
    decreases i
  {
    if i > 1 {
      StepsPermutes(Swap(s, i - 1, d[i - 1]), d, i - 1);
    }
  }

  /** The order random.shuffle leaves a list in right after random.seed(FixedSeed):
      it depends on nothing but the list itself. */
  function Shuffled<T>(s: seq<T>): (r: seq<T>)
    ensures |r| == |s| && multiset(r) == multiset(s)
  {
    StepsPermutes(s, DrawsFrom(FixedSeed, |s|), |s|);
    Steps(s, DrawsFrom(FixedSeed, |s|), |s|)
  }

  /** One draw of the shuffle: the draw for the last open position comes from
      the next generator state, and the rest is left to that state. */
  lemma DrawStep(d: seq<nat>, state: nat, i: nat)
    requires 0 < i <= |d|
    requires d[..i] == DrawsFrom(state, i)
    ensures d[i - 1] == NextState(state) % i
    ensures d[..i - 1] == DrawsFrom(NextState(state), i - 1)
  {
    assert d[..i][i - 1] == d[i - 1];
    assert d[..i - 1] == d[..i][..i - 1];
  }

  /** One step of the loop, exchanging two array cells in place. */
  method SwapInPlace<T>(a: array<T>, i: nat, j: nat)
    requires i < a.Length && j < a.Length
    modifies a
    ensures a[..] == Swap(old(a[..]), i, j)
  {
    a[i], a[j] := a[j], a[i];
  }

  /** The generator side of the shuffle loop before the turn for position i-1:
      it has made the draws for positions i and above, and the draws for the
      positions below i are still to come from its current state. */
  ghost predicate DrawsInvariant(start: nat, n: nat, state: nat, i: nat)
  {
    i <= n
    && DrawsFrom(start, n)[..i] == DrawsFrom(state, i)
    && state == Advance(start, n - i)
  }

  /** One draw keeps the generator side of the loop invariant, and the draw
      is the one recorded for position i-1. */
  lemma DrawsAdvance(start: nat, n: nat, state: nat, i: nat)
    requires DrawsInvariant(start, n, state, i) && 0 < i
    ensures DrawsFrom(start, n)[i - 1] == NextState(state) % i
    ensures DrawsInvariant(start, n, NextState(state), i - 1)
  {
    DrawStep(DrawsFrom(start, n), state, i);
    AdvanceOnce(start, n - i);
  }

  /** The list side of the shuffle loop: the steps still to take, for
      positions i-1 down to 1, lead to the shuffled list. */
  ghost predicate StepsInvariant<T>(original: seq<T>, d: seq<nat>, current: seq<T>, i: nat)
  {
    |d| == |original| == |current| && ValidDraws(d) && i <= |d|
    && Steps(current, d, i) == Steps(original, d, |d|)
  }

  /** Swapping position i-1 with its recorded draw keeps the list side. */
  lemma StepsAdvance<T>(original: seq<T>, d: seq<nat>, current: seq<T>, i: nat, j: nat)
    requires StepsInvariant(original, d, current, i) && 1 < i && j == d[i - 1]
    ensures StepsInvariant(original, d, Swap(current, i - 1, j), i - 1)
  {
  }

  /** Before the first turn both sides of the loop invariant hold. */
  lemma ShuffleStart<T>(original: seq<T>, start: nat)
    ensures DrawsInvariant(start, |original|, start, |original|)
    ensures StepsInvariant(original, DrawsFrom(start, |original|), original, |original|)
  {
    var d := DrawsFrom(start, |original|);
    assert d[..|original|] == d;
  }

  /** When the loop stops, the list is the shuffled one and the generator has
      made one draw per position above 0. */
  lemma ShuffleDone<T>(original: seq<T>, start: nat, state: nat, current: seq<T>, i: nat)
    requires |original| > 0 ==> 1 <= i
    requires i <= 1
    requires DrawsInvariant(start, |original|, state, i)
    requires StepsInvariant(original, DrawsFrom(start, |original|), current, i)
    ensures current == Steps(original, DrawsFrom(start, |original|), |original|)
    ensures state == Advance(start, if |original| == 0 then 0 else |original| - 1)
  {
  }

  /** random.shuffle(a) after the generator has been seeded: Fisher-Yates in place. */
  method ShuffleInPlace<T>(a: array<T>, rng: Random)
    modifies a, rng
    ensures a[..] == Steps(old(a[..]), DrawsFrom(old(rng.state), a.Length), a.Length)
    ensures rng.state == Advance(old(rng.state), if a.Length == 0 then 0 else a.Length - 1)
  {
    ghost var start := rng.state;
    ghost var original := a[..];
    ghost var d := DrawsFrom(start, a.Length);
    var i: nat := a.Length;
    ShuffleStart(original, start);
    while i > 1
      invariant a.Length > 0 ==> 1 <= i
      invariant DrawsInvariant(start, a.Length, rng.state, i)
      invariant StepsInvariant(original, d, a[..], i)
    {
      DrawsAdvance(start, a.Length, rng.state, i);
      var j := rng.RandBelow(i);
      StepsAdvance(original, d, a[..], i, j);
      SwapInPlace(a, i - 1, j);
      i := i - 1;
    }
    ShuffleDone(original, start, rng.state, a[..], i);
  }

  // ---------------------------------------------------------------------------
  // Permutations of the index range
  // ---------------------------------------------------------------------------

  /** [0, 1, ..., n-1] */
  function Range(n: nat): (r: seq<nat>)
    ensures |r| == n
    ensures forall k :: 0 <= k < n ==> r[k] == k
  {
    seq(n, k requires 0 <= k < n => k as nat)
  }

  /** p lists every index below n exactly once. */
  ghost predicate IsPermutation(p: seq<nat>, n: nat)
  {
    multiset(p) == multiset(Range(n))
  }

  /** Every entry of the index list p is a valid position below m. */
  predicate IndicesBelow(p: seq<nat>, m: nat)
  {
    forall k :: 0 <= k < |p| ==> p[k] < m
  }

  /** The list whose k-th element is s[p[k]]. */
  function Gather<T>(s: seq<T>, p: seq<nat>): (r: seq<T>)
    requires IndicesBelow(p, |s|)
    ensures |r| == |p|
    ensures forall k :: 0 <= k < |p| ==> r[k] == s[p[k]]
  {
    seq(|p|, k requires 0 <= k < |p| => s[p[k]])
  }

  lemma {:induction false} DistinctOccursOnce<T>(s: seq<T>, v: T)
    requires NoDuplicates(s)
    ensures multiset(s)[v] <= 1
  {
    if s != [] {
      assert s == [s[0]] + s[1..];
      DistinctOccursOnce(s[1..], v);
      if s[0] == v {
        assert v !in s[1..];
      }
    }
  }

  lemma RepeatOccursTwice<T>(s: seq<T>, a: nat, b: nat)
    requires a < b < |s| && s[a] == s[b]
    ensures multiset(s)[s[a]] >= 2
  {
    assert s == s[..b] + [s[b]] + s[b + 1..];
    assert s[a] in multiset(s[..b]);
  }

  /** What a permutation of the index range looks like position by position:
      n entries, each below n, no two alike. */
  lemma PermutationIndices(p: seq<nat>, n: nat)
    requires IsPermutation(p, n)
    ensures |p| == n
    ensures forall k :: 0 <= k < |p| ==> p[k] < n
    ensures NoDuplicates(p)
  {
    assert |p| == |multiset(p)| == |multiset(Range(n))| == n;
    forall k | 0 <= k < |p| ensures p[k] < n {
      assert p[k] in multiset(Range(n));
    }
    forall a, b | 0 <= a < b < |p| ensures p[a] != p[b] {
      if p[a] == p[b] {
        RepeatOccursTwice(p, a, b);
        DistinctOccursOnce(Range(n), p[a]);
        assert false;
      }
    }
  }

  /** The permutation of 0..n-1 the seeded shuffle applies to any list of length n. */
  function SeededPermutation(n: nat): (p: seq<nat>)
    ensures IsPermutation(p, n)
    ensures |p| == n
    ensures IndicesBelow(p, n)
    ensures NoDuplicates(p)
  {
    var p := Shuffled(Range(n));
    PermutationIndices(p, n);
    p
  }

  lemma GatherSwap<T>(s: seq<T>, p: seq<nat>, i: nat, j: nat)
    requires IndicesBelow(p, |s|)
    requires i < |p| && j < |p|
    ensures IndicesBelow(Swap(p, i, j), |s|)
    ensures Gather(s, Swap(p, i, j)) == Swap(Gather(s, p), i, j)
  {
  }

  /** Reordering an index list keeps every index below the same bound. */
  lemma ReorderedBelow(p: seq<nat>, q: seq<nat>, m: nat)
    requires multiset(q) == multiset(p)
    requires IndicesBelow(p, m)
    ensures IndicesBelow(q, m)
  {
    forall k | 0 <= k < |q| ensures q[k] < m {
      assert q[k] in multiset(p);
    }
  }

  /** Shuffling a gathered list is gathering by the shuffled index list. */
  lemma {:induction false} StepsGather<T>(s: seq<T>, p: seq<nat>, d: seq<nat>, i: nat)
    requires |d| == |p| && ValidDraws(d) && i <= |p|
    requires IndicesBelow(p, |s|)
    ensures IndicesBelow(Steps(p, d, i), |s|)
    ensures Steps(Gather(s, p), d, i) == Gather(s, Steps(p, d, i))
    decreases i
  {
    StepsPermutes(p, d, i);
    ReorderedBelow(p, Steps(p, d, i), |s|);
    if i > 1 {
      var q := Swap(p, i - 1, d[i - 1]);
      GatherSwap(s, p, i - 1, d[i - 1]);
      StepsGather(s, q, d, i - 1);
      calc {
        Steps(Gather(s, p), d, i);
        Steps(Swap(Gather(s, p), i - 1, d[i - 1]), d, i - 1);
        Steps(Gather(s, q), d, i - 1);
        Gather(s, Steps(q, d, i - 1));
        Gather(s, Steps(p, d, i));
      }
    }
  }

  /** The seeded shuffle moves whole elements along one fixed permutation of
      the positions, the same for every list of the same length. */
  lemma ShuffledIsGather<T>(s: seq<T>)
    ensures Shuffled(s) == Gather(s, SeededPermutation(|s|))
  {
    var n := |s|;
    var d := DrawsFrom(FixedSeed, n);
    assert Gather(s, Range(n)) == s;
    StepsGather(s, Range(n), d, n);
  }

  /** The set of entries of a list. */
  function Elements<T>(s: seq<T>): set<T>
  {
    set x | x in s
  }

  /** Two separate stretches of a list without repeats share no entry. */
  lemma DisjointStretches(p: seq<nat>, i: nat, j: nat, k: nat, l: nat)
    requires i <= j <= k <= l <= |p|
    requires NoDuplicates(p)
    ensures Elements(p[i..j]) !! Elements(p[k..l])
  {
    forall v | v in Elements(p[i..j]) ensures v !in Elements(p[k..l]) {
      var x :| i <= x < j && p[x] == v;
      assert forall y :: k <= y < l ==> p[y] != p[x];
    }
  }

  /** Cutting a permutation of 0..n-1 at a <= b gives three pieces that are
      pairwise disjoint and together hold every index below n. */
  lemma PermutationPieces(p: seq<nat>, n: nat, a: nat, b: nat)
    requires IsPermutation(p, n)
    requires a <= b <= n
    ensures |p| == n
    ensures Elements(p[..a]) + Elements(p[a..b]) + Elements(p[b..]) == Elements(Range(n))
    ensures Elements(p[..a]) !! Elements(p[a..b])
    ensures Elements(p[a..b]) !! Elements(p[b..])
    ensures Elements(p[..a]) !! Elements(p[b..])
  {
    PermutationIndices(p, n);
    assert p[..a] == p[0..a] && p[b..] == p[b..n];
    DisjointStretches(p, 0, a, a, b);
    DisjointStretches(p, a, b, b, n);
    DisjointStretches(p, 0, a, b, n);
    assert p == p[..a] + p[a..b] + p[b..];
    assert Elements(p) == Elements(p[..a]) + Elements(p[a..b]) + Elements(p[b..]);
    forall v | v in Elements(p) ensures v in Elements(Range(n)) {
      assert v in multiset(Range(n));
    }
    forall v | v in Elements(Range(n)) ensures v in Elements(p) {
      assert v in multiset(p);
    }
  }
}
