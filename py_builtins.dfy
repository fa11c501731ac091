/**
 * The Python built-ins the data processor leans on, stated over exact
 * mathematical values: round() on a number, zip() of two lists and its
 * inverse, slicing with Python's bound normalisation, and list.count().
 */
module PyBuiltins {

  function Min(a: int, b: int): int { if a <= b then a else b }

  // ---------------------------------------------------------------------------
  // round()
  // ---------------------------------------------------------------------------

  /** round(x) with no digits argument: the nearest integer; a tie goes to the
      even neighbour ("banker's rounding"). */
  function Round(x: real): (r: int)
    ensures x - 0.5 <= r as real <= x + 0.5
    ensures (r as real - x == 0.5 || x - r as real == 0.5) ==> r % 2 == 0
  {
    var f := x.Floor;
    var frac := x - f as real;
    if frac < 0.5 then f
    else if frac > 0.5 then f + 1
    else if f % 2 == 0 then f
    else f + 1
  }

  /** The two properties in Round's contract pin the result down: no other
      integer is within one half of x and even on a tie. */
  lemma RoundUnique(x: real, r: int)
    requires x - 0.5 <= r as real <= x + 0.5
    requires (r as real - x == 0.5 || x - r as real == 0.5) ==> r % 2 == 0
    ensures r == Round(x)
  {
  }

  /** Rounding never reverses the order of two numbers. */
  lemma RoundMonotone(x: real, y: real)
    requires x <= y
    ensures Round(x) <= Round(y)
  {
  }

  /** A number in [0, n] rounds to an integer in [0, n]. */
  lemma RoundWithin(x: real, n: nat)
    requires 0.0 <= x <= n as real
    ensures 0 <= Round(x) <= n
  {
    RoundMonotone(0.0, x);
    RoundMonotone(x, n as real);
    RoundUnique(0.0, 0);
    RoundUnique(n as real, n);
  }

  /** ratio * n for a whole number n, written as n-fold addition so that the
      proofs about cut points stay in linear arithmetic. */
  function Scaled(ratio: real, n: nat): (r: real)
    ensures 0.0 <= ratio ==> 0.0 <= r
    ensures ratio <= 1.0 ==> r <= n as real
  {
    if n == 0 then 0.0 else Scaled(ratio, n - 1) + ratio
  }

  /** Scaled is the product it stands for. */
  lemma {:induction false} ScaledIsProduct(ratio: real, n: nat)
    ensures Scaled(ratio, n) == ratio * n as real
  {
    if n > 0 {
      ScaledIsProduct(ratio, n - 1);
      assert ratio * n as real == ratio * (n - 1) as real + ratio;
    }
  }

  /** Scaling by n is additive in the ratio. */
  lemma {:induction false} ScaledAdditive(a: real, b: real, n: nat)
    ensures Scaled(a + b, n) == Scaled(a, n) + Scaled(b, n)
  {
    if n > 0 {
      ScaledAdditive(a, b, n - 1);
    }
  }

  // ---------------------------------------------------------------------------
  // zip() and zip(*pairs)
  // ---------------------------------------------------------------------------

  /** list(zip(a, b)): pairs up positions, stopping at the shorter list. */
  function Zip<A, B>(a: seq<A>, b: seq<B>): (r: seq<(A, B)>)
    ensures |r| == Min(|a|, |b|)
    ensures forall k :: 0 <= k < |r| ==> r[k] == (a[k], b[k])
  {
    seq(Min(|a|, |b|), k requires 0 <= k < Min(|a|, |b|) => (a[k], b[k]))
  }

  /** The first components of a list of pairs. */
  function Firsts<A, B>(ps: seq<(A, B)>): (r: seq<A>)
    ensures |r| == |ps|
    ensures forall k :: 0 <= k < |r| ==> r[k] == ps[k].0
  {
    seq(|ps|, k requires 0 <= k < |ps| => ps[k].0)
  }

  /** The second components of a list of pairs. */
  function Seconds<A, B>(ps: seq<(A, B)>): (r: seq<B>)
    ensures |r| == |ps|
    ensures forall k :: 0 <= k < |r| ==> r[k] == ps[k].1
  {
    seq(|ps|, k requires 0 <= k < |ps| => ps[k].1)
  }

  /** Unzipping a zip gives back both inputs, cut to the shorter length. */
  lemma UnzipZip<A, B>(a: seq<A>, b: seq<B>)
    ensures Firsts(Zip(a, b)) == a[..Min(|a|, |b|)]
    ensures Seconds(Zip(a, b)) == b[..Min(|a|, |b|)]
  {
  }

  /** Zipping the unzipped halves gives back the list of pairs. */
  lemma ZipUnzip<A, B>(ps: seq<(A, B)>)
    ensures Zip(Firsts(ps), Seconds(ps)) == ps
  {
  }

  // ---------------------------------------------------------------------------
  // Slicing
  // ---------------------------------------------------------------------------

  /** How a slice bound i is resolved against a list of length len: a negative
      bound counts from the end, then the bound is clamped into [0, len]. */
  function SliceBound(i: int, len: nat): (k: nat)
    ensures k <= len
    ensures 0 <= i <= len ==> k == i
    ensures i > len ==> k == len
  {
    if i < 0 then (if i + len < 0 then 0 else i + len)
    else if i > len then len
    else i
  }

  /** s[lo:hi] in Python: empty when the resolved bounds cross. */
  function Slice<T>(s: seq<T>, lo: int, hi: int): (r: seq<T>)
    ensures |r| <= |s|
    ensures 0 <= lo <= hi <= |s| ==> r == s[lo..hi]
  {
    var a, b := SliceBound(lo, |s|), SliceBound(hi, |s|);
    if a < b then s[a..b] else []
  }

  /** Slicing the two halves of a list of pairs at the same bounds and zipping
      them back gives the same slice of the pairs: slicing never breaks a pair. */
  lemma SliceKeepsPairs<A, B>(ps: seq<(A, B)>, lo: int, hi: int)
    ensures |Slice(Firsts(ps), lo, hi)| == |Slice(Seconds(ps), lo, hi)|
    ensures Zip(Slice(Firsts(ps), lo, hi), Slice(Seconds(ps), lo, hi)) == Slice(ps, lo, hi)
  {
    var a, b := SliceBound(lo, |ps|), SliceBound(hi, |ps|);
    if a < b {
      assert Slice(Firsts(ps), lo, hi) == Firsts(ps)[a..b];
      assert Slice(Seconds(ps), lo, hi) == Seconds(ps)[a..b];
    }
  }

  // ---------------------------------------------------------------------------
  // list.count()
  // ---------------------------------------------------------------------------

  /** s.count(v): how many positions of s hold v. */
  function Count<T(==)>(s: seq<T>, v: T): (c: nat)
    ensures c <= |s|
    ensures c == multiset(s)[v]
  {
    if s == [] then 0
    else
      assert s == [s[0]] + s[1..];
      (if s[0] == v then 1 else 0) + Count(s[1..], v)
  }

  /** A list whose elements are pairwise different. */
  predicate NoDuplicates<T(==)>(s: seq<T>)
  {
    forall a, b :: 0 <= a < b < |s| ==> s[a] != s[b]
  }
}
