/**
 * The sequence logic of the DataProcessor class in iris_module.py:
 * train_test_split, the row loop of read_csv, and the values behind
 * disp_label_counts and disp_selected_label_data (without their printing).
 */
module DataProcessor {
  import opened Wrappers
  import opened PyBuiltins
  import opened RandomShuffle

  // ===========================================================================
  // train_test_split
  // ===========================================================================

  datatype SplitError =
    | InvalidProportions  // train_size + val_size + test_size is not exactly 1
    | NothingToUnpack     // no pair to split: `X, y = zip(*[])` cannot unpack

  /** The six lists train_test_split returns. */
  datatype Subsets<F, L> = Subsets(
    xTrain: seq<F>, xVal: seq<F>, xTest: seq<F>,
    yTrain: seq<L>, yVal: seq<L>, yTest: seq<L>)

  /** The ratios train_test_split accepts and the partition lemmas cover:
      none negative, adding up to exactly 1. */
  predicate ValidRatios(trainSize: real, valSize: real, testSize: real)
  {
    0.0 <= trainSize && 0.0 <= valSize && 0.0 <= testSize
    && trainSize + valSize + testSize == 1.0
  }

  /** The pairs train_test_split slices: zip(X, y) in the order the seeded
      shuffle leaves it. */
  function ShuffledPairs<F, L>(X: seq<F>, y: seq<L>): (ps: seq<(F, L)>)
    ensures |ps| == Min(|X|, |y|)
    ensures multiset(ps) == multiset(Zip(X, y))
  {
    Shuffled(Zip(X, y))
  }

  /** train_test_split(X, y, train_size, val_size, test_size) as a value. */
  function Split<F, L>(X: seq<F>, y: seq<L>, trainSize: real, valSize: real, testSize: real)
    : (r: Result<Subsets<F, L>, SplitError>)
    ensures r == Failure(InvalidProportions) <==> trainSize + valSize + testSize != 1.0
    ensures r == Failure(NothingToUnpack)
        <==> trainSize + valSize + testSize == 1.0 && Min(|X|, |y|) == 0
  {
    if trainSize + valSize + testSize != 1.0 then Failure(InvalidProportions)
    else
      var combined := ShuffledPairs(X, y);
      if |combined| == 0 then Failure(NothingToUnpack)
      else
        var xs, ys := Firsts(combined), Seconds(combined);
        var trainIdx := Round(Scaled(trainSize, |ys|));
        var valIdx := Round(Scaled(trainSize + valSize, |ys|));
        Success(Subsets(
          Slice(xs, 0, trainIdx), Slice(xs, trainIdx, valIdx), Slice(xs, valIdx, |xs|),
          Slice(ys, 0, trainIdx), Slice(ys, trainIdx, valIdx), Slice(ys, valIdx, |ys|)))
  }

  /** train_test_split as the source runs it: validate, seed the process-wide
      generator, shuffle the zipped pairs in place, unzip, cut and slice. */
  method TrainTestSplit<F, L>(rng: Random, X: seq<F>, y: seq<L>,
                              trainSize: real, valSize: real, testSize: real)
    returns (r: Result<Subsets<F, L>, SplitError>)
    modifies rng
    ensures r == Split(X, y, trainSize, valSize, testSize)
    ensures r == Failure(InvalidProportions) ==> rng.state == old(rng.state)
    ensures r != Failure(InvalidProportions)
        ==> rng.state == Advance(FixedSeed, if Min(|X|, |y|) == 0 then 0 else Min(|X|, |y|) - 1)
  {
    if trainSize + valSize + testSize != 1.0 {
      return Failure(InvalidProportions);
    }
    rng.Seed(FixedSeed);
    var pairs := Zip(X, y);
    var combined := new (F, L)[|pairs|](k requires 0 <= k < |pairs| => pairs[k]);
    assert combined[..] == pairs;
    ShuffleInPlace(combined, rng);
    if combined.Length == 0 {
      return Failure(NothingToUnpack);
    }
    var xs, ys := Firsts(combined[..]), Seconds(combined[..]);
    var n := |ys|;
    var trainIdx := Round(Scaled(trainSize, n));
    var valIdx := Round(Scaled(trainSize + valSize, n));
    r := Success(Subsets(
      Slice(xs, 0, trainIdx), Slice(xs, trainIdx, valIdx), Slice(xs, valIdx, |xs|),
      Slice(ys, 0, trainIdx), Slice(ys, trainIdx, valIdx), Slice(ys, valIdx, |ys|)));
  }

  /** Whatever the ratios, each subset's features and labels have equal length
      and every position holds a pair (X[i], y[i]) of the input. */
  lemma SplitKeepsPairs<F, L>(X: seq<F>, y: seq<L>, trainSize: real, valSize: real, testSize: real)
    requires Split(X, y, trainSize, valSize, testSize).Success?
    ensures var s := Split(X, y, trainSize, valSize, testSize).value;
      && |s.xTrain| == |s.yTrain| && |s.xVal| == |s.yVal| && |s.xTest| == |s.yTest|
      && (forall k :: 0 <= k < |s.xTrain| ==> (s.xTrain[k], s.yTrain[k]) in Zip(X, y))
      && (forall k :: 0 <= k < |s.xVal| ==> (s.xVal[k], s.yVal[k]) in Zip(X, y))
      && (forall k :: 0 <= k < |s.xTest| ==> (s.xTest[k], s.yTest[k]) in Zip(X, y))
  {
    var s := Split(X, y, trainSize, valSize, testSize).value;
    var combined := ShuffledPairs(X, y);
    var n := |combined|;
    var trainIdx := Round(Scaled(trainSize, n));
    var valIdx := Round(Scaled(trainSize + valSize, n));
    SliceKeepsPairs(combined, 0, trainIdx);
    SliceKeepsPairs(combined, trainIdx, valIdx);
    SliceKeepsPairs(combined, valIdx, n);
    assert n == |Seconds(combined)|;
    forall i | 0 <= i < n ensures combined[i] in Zip(X, y) {
      assert combined[i] in multiset(Zip(X, y));
    }
    SlicesStayIn(combined, Zip(X, y));
  }

  /** Every entry of a slice of ps is an entry of ps, so it stays in any
      list holding all of ps. */
  lemma SlicesStayIn<T>(ps: seq<T>, pool: seq<T>)
    requires forall i :: 0 <= i < |ps| ==> ps[i] in pool
    ensures forall lo: int, hi: int, k :: 0 <= k < |Slice(ps, lo, hi)| ==> Slice(ps, lo, hi)[k] in pool
  {
    forall lo: int, hi: int, k | 0 <= k < |Slice(ps, lo, hi)|
      ensures Slice(ps, lo, hi)[k] in pool
    {
      var a := SliceBound(lo, |ps|);
      assert Slice(ps, lo, hi)[k] == ps[a + k];
    }
  }

  /** With valid ratios the cut points are ordered inside the data. */
  lemma CutsOrdered(trainSize: real, valSize: real, testSize: real, n: nat)
    requires ValidRatios(trainSize, valSize, testSize)
    ensures 0 <= Round(Scaled(trainSize, n)) <= Round(Scaled(trainSize + valSize, n)) <= n
  {
    var t, tv := Scaled(trainSize, n), Scaled(trainSize + valSize, n);
    ScaledAdditive(trainSize, valSize, n);
    ScaledAdditive(trainSize + valSize, testSize, n);
    ScaledAdditive(valSize, 0.0, n);
    ScaledAdditive(testSize, 0.0, n);
    ScaledIsProduct(1.0, n);
    RoundWithin(t, n);
    RoundWithin(tv, n);
    RoundMonotone(t, tv);
  }

  /** Cutting a list of pairs at a <= b: slicing its two halves at the cut
      points and zipping them back gives the three consecutive pieces, which
      together hold every pair exactly as often as the list does. */
  lemma ThreeWayCut<F, L>(ps: seq<(F, L)>, a: int, b: int)
    requires 0 <= a <= b <= |ps|
    ensures Zip(Slice(Firsts(ps), 0, a), Slice(Seconds(ps), 0, a)) == ps[..a]
    ensures Zip(Slice(Firsts(ps), a, b), Slice(Seconds(ps), a, b)) == ps[a..b]
    ensures Zip(Slice(Firsts(ps), b, |ps|), Slice(Seconds(ps), b, |ps|)) == ps[b..]
    ensures Slice(Firsts(ps), 0, a) + Slice(Firsts(ps), a, b) + Slice(Firsts(ps), b, |ps|)
         == Firsts(ps)
    ensures Slice(Seconds(ps), 0, a) + Slice(Seconds(ps), a, b) + Slice(Seconds(ps), b, |ps|)
         == Seconds(ps)
    ensures multiset(ps[..a] + ps[a..b] + ps[b..]) == multiset(ps)
  {
    var xs, ys := Firsts(ps), Seconds(ps);
    assert xs == xs[..a] + xs[a..b] + xs[b..];
    assert ys == ys[..a] + ys[a..b] + ys[b..];
    assert ps == ps[..a] + ps[a..b] + ps[b..];
    SliceKeepsPairs(ps, 0, a);
    SliceKeepsPairs(ps, a, b);
    SliceKeepsPairs(ps, b, |ps|);
  }

  /** The heart of the split: with valid ratios and at least one pair, the
      three subsets are consecutive pieces of the shuffled pairs, cut where
      round() puts the two cut points. */
  lemma SplitCutsShuffledPairs<F, L>(X: seq<F>, y: seq<L>, trainSize: real, valSize: real, testSize: real)
    requires ValidRatios(trainSize, valSize, testSize)
    requires Min(|X|, |y|) > 0
    ensures Split(X, y, trainSize, valSize, testSize).Success?
    ensures var s := Split(X, y, trainSize, valSize, testSize).value;
      var ps := ShuffledPairs(X, y);
      var a := Round(Scaled(trainSize, |ps|));
      var b := Round(Scaled(trainSize + valSize, |ps|));
      && 0 <= a <= b <= |ps|
      && Zip(s.xTrain, s.yTrain) == ps[..a]
      && Zip(s.xVal, s.yVal) == ps[a..b]
      && Zip(s.xTest, s.yTest) == ps[b..]
      && s.xTrain + s.xVal + s.xTest == Firsts(ps)
      && s.yTrain + s.yVal + s.yTest == Seconds(ps)
  {
    var ps := ShuffledPairs(X, y);
    var n := |ps|;
    var a := Round(Scaled(trainSize, n));
    var b := Round(Scaled(trainSize + valSize, n));
    CutsOrdered(trainSize, valSize, testSize, n);
    ThreeWayCut(ps, a, b);
  }

  /** Size law: |train| = round(train_size * n), |val| = round((train_size +
      val_size) * n) - |train|, |test| = n - round((train_size + val_size) * n),
      where n = min(len(X), len(y)) because zip stops at the shorter list. */
  lemma SplitSizes<F, L>(X: seq<F>, y: seq<L>, trainSize: real, valSize: real, testSize: real)
    requires ValidRatios(trainSize, valSize, testSize)
    requires Min(|X|, |y|) > 0
    ensures Split(X, y, trainSize, valSize, testSize).Success?
    ensures var s := Split(X, y, trainSize, valSize, testSize).value;
      var n := Min(|X|, |y|);
      var a := Round(Scaled(trainSize, n));
      var b := Round(Scaled(trainSize + valSize, n));
      && |s.xTrain| == |s.yTrain| == a
      && |s.xVal| == |s.yVal| == b - a
      && |s.xTest| == |s.yTest| == n - b
  {
    SplitCutsShuffledPairs(X, y, trainSize, valSize, testSize);
  }

  /** Exact partition: the three subsets, read in order, hold every pair of
      zip(X, y) exactly as often as the input does; nothing is duplicated or
      dropped. */
  lemma SplitIsPartition<F, L>(X: seq<F>, y: seq<L>, trainSize: real, valSize: real, testSize: real)
    requires ValidRatios(trainSize, valSize, testSize)
    requires Min(|X|, |y|) > 0
    ensures Split(X, y, trainSize, valSize, testSize).Success?
    ensures var s := Split(X, y, trainSize, valSize, testSize).value;
      multiset(Zip(s.xTrain, s.yTrain) + Zip(s.xVal, s.yVal) + Zip(s.xTest, s.yTest))
        == multiset(Zip(X, y))
  {
    SplitCutsShuffledPairs(X, y, trainSize, valSize, testSize);
    var ps := ShuffledPairs(X, y);
    var n := |ps|;
    ThreeWayCut(ps, Round(Scaled(trainSize, n)), Round(Scaled(trainSize + valSize, n)));
  }

  /** Determinism: the outputs are the inputs reordered by one permutation of
      0..n-1 that depends on n alone (the seed is fixed), applied to features
      and labels alike, so a repeated call, or a call on other data of the same
      size, moves the same positions to the same places. */
  lemma SplitIsSeededGather<F, L>(X: seq<F>, y: seq<L>, trainSize: real, valSize: real, testSize: real)
    requires ValidRatios(trainSize, valSize, testSize)
    requires Min(|X|, |y|) > 0
    ensures Split(X, y, trainSize, valSize, testSize).Success?
    ensures var s := Split(X, y, trainSize, valSize, testSize).value;
      var n := Min(|X|, |y|);
      && s.xTrain + s.xVal + s.xTest == Gather(X[..n], SeededPermutation(n))
      && s.yTrain + s.yVal + s.yTest == Gather(y[..n], SeededPermutation(n))
  {
    SplitCutsShuffledPairs(X, y, trainSize, valSize, testSize);
    var n := Min(|X|, |y|);
    var p := SeededPermutation(n);
    ShuffledIsGather(Zip(X, y));
    var ps := ShuffledPairs(X, y);
    assert ps == Gather(Zip(X, y), p);
    assert Firsts(ps) == Gather(X[..n], p);
    assert Seconds(ps) == Gather(y[..n], p);
  }

  /** The index view of the partition: the positions the seeded permutation
      sends to train, validation and test are pairwise disjoint and together
      are exactly {0, ..., n-1}. */
  lemma CutsPartitionIndices(n: nat, a: nat, b: nat)
    requires a <= b <= n
    ensures var p := SeededPermutation(n);
      && Elements(p[..a]) + Elements(p[a..b]) + Elements(p[b..]) == Elements(Range(n))
      && Elements(p[..a]) !! Elements(p[a..b])
      && Elements(p[a..b]) !! Elements(p[b..])
      && Elements(p[..a]) !! Elements(p[b..])
  {
    PermutationPieces(SeededPermutation(n), n, a, b);
  }

  /** Ten observations with ratios (0.6, 0.1, 0.3) give train_idx = 6 and
      val_idx = 7: six, one and three observations, wherever the shuffle puts
      them. */
  lemma SplitTenObservations<F, L>(X: seq<F>, y: seq<L>)
    requires |X| == 10 && |y| == 10
    ensures Split(X, y, 0.6, 0.1, 0.3).Success?
    ensures var s := Split(X, y, 0.6, 0.1, 0.3).value;
      |s.xTrain| == 6 && |s.xVal| == 1 && |s.xTest| == 3
  {
    SplitSizes(X, y, 0.6, 0.1, 0.3);
    TenCutPoints();
  }

  /** round(0.6 * 10) = 6 and round(0.7 * 10) = 7. */
  lemma TenCutPoints()
    ensures Round(Scaled(0.6, 10)) == 6 && Round(Scaled(0.6 + 0.1, 10)) == 7
  {
    ScaledIsProduct(0.6, 10);
    ScaledIsProduct(0.7, 10);
    RoundUnique(6.0, 6);
    RoundUnique(7.0, 7);
  }

  /** The ratios main() passes on the 150 rows of iris.data: 0.75 * 150 = 112.5
      is a tie and rounds to the even 112, so the validation set gets 22 rows
      and the test set 38. */
  lemma SplitIrisDefaults<F, L>(X: seq<F>, y: seq<L>)
    requires |X| == 150 && |y| == 150
    ensures Split(X, y, 0.6, 0.15, 0.25).Success?
    ensures var s := Split(X, y, 0.6, 0.15, 0.25).value;
      |s.xTrain| == 90 && |s.xVal| == 22 && |s.xTest| == 38
  {
    SplitSizes(X, y, 0.6, 0.15, 0.25);
    IrisCutPoints();
  }

  /** round(0.6 * 150) = 90 and round(0.75 * 150) = round(112.5) = 112. */
  lemma IrisCutPoints()
    ensures Round(Scaled(0.6, 150)) == 90 && Round(Scaled(0.6 + 0.15, 150)) == 112
  {
    ScaledIsProduct(0.6, 150);
    ScaledIsProduct(0.75, 150);
    assert Scaled(0.6, 150) == 90.0 && Scaled(0.6 + 0.15, 150) == 112.5;
    RoundUnique(90.0, 90);
    RoundUnique(112.5, 112);
  }

  // ===========================================================================
  // read_csv: the loop over the rows csv.reader yields
  // ===========================================================================

  datatype ReadError =
    | NoHeaderRow  // header requested but the file has no row: next(reader) raises

  /** The three lists read_csv returns: X, y and col_names. */
  datatype Table = Table(x: seq<seq<string>>, y: seq<string>, colNames: seq<string>)

  /** row[:4]: the feature fields. */
  function FeatureFields(row: seq<string>): (r: seq<string>)
    ensures |r| == Min(|row|, 4) && r == row[..|r|]
  {
    Slice(row, 0, 4)
  }

  /** row[4:]: everything after the features, so that row[:4] + row[4:] is
      the whole row again. */
  function LabelFields(row: seq<string>): (r: seq<string>)
    ensures FeatureFields(row) + r == row
  {
    Slice(row, 4, |row|)
  }

  /** The rows the loop does not skip, in order. */
  function NonEmptyRows(rows: seq<seq<string>>): (r: seq<seq<string>>)
    ensures |r| == |rows| - Count(rows, [])
    ensures multiset(r) == multiset(rows)[[] := 0]
    ensures forall k :: 0 <= k < |r| ==> r[k] != [] && r[k] in rows
    ensures IsSubsequence(r, rows)
  {
    if rows == [] then []
    else
      var init, last := rows[..|rows| - 1], rows[|rows| - 1];
      var kept := NonEmptyRows(init);
      KeepOneMore(init, last, kept);
      assert rows == init + [last];
      kept + (if last == [] then [] else [last])
  }

  /** The step of NonEmptyRows: if kept holds the non-empty rows of init,
      adding a row keeps it when it is non-empty. */
  lemma KeepOneMore(init: seq<seq<string>>, last: seq<string>, kept: seq<seq<string>>)
    requires |kept| == |init| - Count(init, [])
    requires multiset(kept) == multiset(init)[[] := 0]
    requires forall k :: 0 <= k < |kept| ==> kept[k] != [] && kept[k] in init
    requires IsSubsequence(kept, init)
    ensures var rows, r := init + [last], kept + (if last == [] then [] else [last]);
      && |r| == |rows| - Count(rows, [])
      && multiset(r) == multiset(rows)[[] := 0]
      && (forall k :: 0 <= k < |r| ==> r[k] != [] && r[k] in rows)
      && IsSubsequence(r, rows)
  {
    var rows, r := init + [last], kept + (if last == [] then [] else [last]);
    SubsequenceExtend(kept, init, last);
    assert kept + [] == kept;
    assert multiset(rows) == multiset(init) + multiset{last};
    forall k | 0 <= k < |r| ensures r[k] != [] && r[k] in rows {
      if k < |kept| {
        assert r[k] == kept[k];
      }
    }
  }

  /** Number of fields beyond the fourth, summed over the rows. */
  function ExtraFields(rows: seq<seq<string>>): nat
  {
    if rows == [] then 0
    else
      var last := rows[|rows| - 1];
      ExtraFields(rows[..|rows| - 1]) + (if |last| > 4 then |last| - 4 else 0)
  }

  /** X as the loop builds it: one row[:4] per non-empty row. */
  function Features(rows: seq<seq<string>>): (x: seq<seq<string>>)
    ensures |x| == |NonEmptyRows(rows)|
    ensures forall k :: 0 <= k < |x| ==> x[k] == FeatureFields(NonEmptyRows(rows)[k])
  {
    if rows == [] then []
    else
      var last := rows[|rows| - 1];
      Features(rows[..|rows| - 1]) + (if last == [] then [] else [FeatureFields(last)])
  }

  /** The row[4:] of each of the given rows, concatenated in order. */
  function ConcatLabelFields(kept: seq<seq<string>>): seq<string>
  {
    if kept == [] then []
    else ConcatLabelFields(kept[..|kept| - 1]) + LabelFields(kept[|kept| - 1])
  }

  /** Adding one row to the end adds its row[4:] to the end. */
  lemma ConcatOneMore(kept: seq<seq<string>>, row: seq<string>)
    ensures ConcatLabelFields(kept + [row]) == ConcatLabelFields(kept) + LabelFields(row)
  {
    assert (kept + [row])[..|kept|] == kept;
  }

  /** y as the loop builds it: the row[4:] of every non-empty row, concatenated. */
  function Labels(rows: seq<seq<string>>): (y: seq<string>)
    ensures |y| == ExtraFields(rows)
  {
    if rows == [] then []
    else
      var last := rows[|rows| - 1];
      Labels(rows[..|rows| - 1]) + (if last == [] then [] else LabelFields(last))
  }

  /** y is the row[4:] of the kept rows concatenated in order, as X is their
      row[:4] in order. */
  lemma {:induction false} LabelsConcatenate(rows: seq<seq<string>>)
    ensures Labels(rows) == ConcatLabelFields(NonEmptyRows(rows))
  {
    if rows != [] {
      var init, last := rows[..|rows| - 1], rows[|rows| - 1];
      LabelsConcatenate(init);
      var kept := NonEmptyRows(init);
      if last == [] {
        assert NonEmptyRows(rows) == kept;
      } else {
        assert NonEmptyRows(rows) == kept + [last];
        ConcatOneMore(kept, last);
      }
    }
  }

  /** One more row read: X and y grow by what row i contributes. */
  lemma ReadOneMore(rows: seq<seq<string>>, i: nat)
    requires i < |rows|
    ensures Features(rows[..i + 1])
         == Features(rows[..i]) + (if rows[i] == [] then [] else [FeatureFields(rows[i])])
    ensures Labels(rows[..i + 1])
         == Labels(rows[..i]) + (if rows[i] == [] then [] else LabelFields(rows[i]))
  {
    assert rows[..i + 1][..i] == rows[..i];
  }

  /** What holds before each turn of the read_csv loop: X and y are what the
      first i rows contribute. */
  ghost predicate ReadSoFar(rows: seq<seq<string>>, i: nat, X: seq<seq<string>>, y: seq<string>)
  {
    i <= |rows| && X == Features(rows[..i]) && y == Labels(rows[..i])
  }

  /** One turn of the loop keeps its invariant: an empty row changes nothing,
      any other row appends row[:4] to X and extends y with row[4:]. */
  lemma ReadStep(rows: seq<seq<string>>, i: nat, X: seq<seq<string>>, y: seq<string>)
    requires ReadSoFar(rows, i, X, y) && i < |rows|
    ensures rows[i] == [] ==> ReadSoFar(rows, i + 1, X, y)
    ensures rows[i] != [] ==> ReadSoFar(rows, i + 1, X + [FeatureFields(rows[i])], y + LabelFields(rows[i]))
  {
    ReadOneMore(rows, i);
  }

  /** The loop starts from empty lists and ends with every row read. */
  lemma ReadBounds(rows: seq<seq<string>>, X: seq<seq<string>>, y: seq<string>)
    ensures ReadSoFar(rows, 0, [], [])
    ensures ReadSoFar(rows, |rows|, X, y) ==> X == Features(rows) && y == Labels(rows)
  {
    assert rows[..0] == [];
    assert rows[..|rows|] == rows;
  }

  /** The for-loop of read_csv: skip empty rows, append row[:4] to X and
      extend y with row[4:]. */
  method CollectRows(rows: seq<seq<string>>) returns (X: seq<seq<string>>, y: seq<string>)
    ensures X == Features(rows)
    ensures y == Labels(rows)
  {
    X, y := [], [];
    ReadBounds(rows, X, y);
    var i: nat := 0;
    while i < |rows|
      invariant ReadSoFar(rows, i, X, y)
    {
      var row := rows[i];
      ReadStep(rows, i, X, y);
      if |row| != 0 {
        X := X + [FeatureFields(row)];
        y := y + LabelFields(row);
      }
      i := i + 1;
    }
    ReadBounds(rows, X, y);
  }

  /** read_csv(header) on the rows csv.reader yields: with a header, the first
      row becomes col_names and is not data. */
  method ReadRows(rows: seq<seq<string>>, header: bool) returns (r: Result<Table, ReadError>)
    ensures header && rows == [] ==> r == Failure(NoHeaderRow)
    ensures !header ==> r == Success(Table(Features(rows), Labels(rows), []))
    ensures header && rows != [] ==> r == Success(Table(Features(rows[1..]), Labels(rows[1..]), rows[0]))
  {
    if !header {
      var X, y := CollectRows(rows);
      return Success(Table(X, y, []));
    }
    if |rows| == 0 {
      return Failure(NoHeaderRow);
    }
    var colNames := rows[0];
    var X, y := CollectRows(rows[1..]);
    r := Success(Table(X, y, colNames));
  }

  /** When every row is empty or has exactly five fields, X and y line up:
      the k-th label is the fifth field of the k-th kept row. */
  lemma FiveFieldRowsAlign(rows: seq<seq<string>>)
    requires forall k :: 0 <= k < |rows| ==> |rows[k]| == 0 || |rows[k]| == 5
    ensures |Features(rows)| == |Labels(rows)|
    ensures forall k :: 0 <= k < |Labels(rows)| ==>
      Labels(rows)[k] == NonEmptyRows(rows)[k][4] && Features(rows)[k] == NonEmptyRows(rows)[k][..4]
  {
    var kept := NonEmptyRows(rows);
    forall k | 0 <= k < |kept| ensures |kept[k]| == 5 {
      assert kept[k] in rows && kept[k] != [];
    }
    LabelsConcatenate(rows);
    FiveFieldLabels(kept);
  }

  /** Over rows of exactly five fields, the concatenated row[4:] holds one
      entry per row, the row's fifth field. */
  lemma {:induction false} FiveFieldLabels(kept: seq<seq<string>>)
    requires forall k :: 0 <= k < |kept| ==> |kept[k]| == 5
    ensures |ConcatLabelFields(kept)| == |kept|
    ensures forall k :: 0 <= k < |kept| ==> ConcatLabelFields(kept)[k] == kept[k][4]
  {
    if kept != [] {
      var init, last := kept[..|kept| - 1], kept[|kept| - 1];
      FiveFieldLabels(init);
      assert LabelFields(last) == [last[4]];
      var c := ConcatLabelFields(init);
      assert ConcatLabelFields(kept) == c + [last[4]];
      forall k | 0 <= k < |kept| ensures ConcatLabelFields(kept)[k] == kept[k][4] {
        if k < |init| {
          assert kept[k] == init[k];
        }
      }
    }
  }

  /** With every non-empty row at least five fields wide, y has at least one
      entry per kept row, and exactly one per kept row only when every
      non-empty row has exactly five fields. */
  lemma {:induction false} ExtraFieldsCoverRows(rows: seq<seq<string>>)
    requires forall k :: 0 <= k < |rows| ==> rows[k] == [] || |rows[k]| >= 5
    ensures ExtraFields(rows) >= |rows| - Count(rows, [])
    ensures ExtraFields(rows) == |rows| - Count(rows, []) ==>
      forall k :: 0 <= k < |rows| ==> rows[k] == [] || |rows[k]| == 5
  {
    if rows != [] {
      var init, last := rows[..|rows| - 1], rows[|rows| - 1];
      assert rows == init + [last];
      assert multiset(rows) == multiset(init) + multiset{last};
      assert forall k :: 0 <= k < |init| ==> init[k] == rows[k];
      ExtraFieldsCoverRows(init);
      if ExtraFields(rows) == |rows| - Count(rows, []) {
        forall k | 0 <= k < |rows| ensures rows[k] == [] || |rows[k]| == 5 {
          if k < |init| {
            assert rows[k] == init[k];
          }
        }
      }
    }
  }

  /** The converse of FiveFieldRowsAlign for rows that are empty or at least
      five fields wide: X and y have equal length only when every non-empty
      row has exactly five fields. */
  lemma AlignedOnlyWithFiveFields(rows: seq<seq<string>>)
    requires forall k :: 0 <= k < |rows| ==> rows[k] == [] || |rows[k]| >= 5
    requires |Features(rows)| == |Labels(rows)|
    ensures forall k :: 0 <= k < |rows| ==> rows[k] == [] || |rows[k]| == 5
  {
    ExtraFieldsCoverRows(rows);
  }

  /** Without the five-field lower bound, equal lengths say nothing: a
      four-field row contributes no label and a six-field row two, so X and
      y have two entries each, and y's first entry is the second row's fifth
      field. */
  lemma ShortAndLongRowsDrift()
    ensures var rows := [["a", "b", "c", "d"], ["e", "f", "g", "h", "i", "j"]];
      |Features(rows)| == |Labels(rows)| == 2 && Labels(rows) == ["i", "j"]
  {
    var rows := [["a", "b", "c", "d"], ["e", "f", "g", "h", "i", "j"]];
    assert rows[..1] == [["a", "b", "c", "d"]];
    assert rows[..1][..0] == [];
  }

  // ===========================================================================
  // disp_label_counts: each distinct label with its number of occurrences
  // ===========================================================================

  /** The distinct labels of y, each once (in order of first appearance). */
  function Distinct<L(==)>(y: seq<L>): (d: seq<L>)
    ensures NoDuplicates(d)
    ensures forall k :: 0 <= k < |d| ==> d[k] in y
    ensures forall k :: 0 <= k < |y| ==> y[k] in d
  {
    if y == [] then []
    else
      var d := Distinct(y[..|y| - 1]);
      var last := y[|y| - 1];
      assert y == y[..|y| - 1] + [last];
      if last in d then d else d + [last]
  }

  /** [(label, y.count(label)) for label in labels] */
  function CountLabels<L(==)>(y: seq<L>, labels: seq<L>): (r: seq<(L, nat)>)
    ensures |r| == |labels|
    ensures forall k :: 0 <= k < |r| ==> r[k] == (labels[k], Count(y, labels[k]))
  {
    if labels == [] then []
    else [(labels[0], Count(y, labels[0]))] + CountLabels(y, labels[1..])
  }

  /** What disp_label_counts prints: every distinct label of y once, with its
      exact number of occurrences, which is never zero. Python enumerates the
      labels in set order, which it does not specify; this model fixes one
      order, and CountsSumToLength holds for every order. */
  function LabelCounts<L(==)>(y: seq<L>): (r: seq<(L, nat)>)
    ensures NoDuplicates(Firsts(r))
    ensures forall k :: 0 <= k < |r| ==> r[k].0 in y
    ensures forall k :: 0 <= k < |y| ==> y[k] in Firsts(r)
    ensures forall k :: 0 <= k < |r| ==> r[k].1 == Count(y, r[k].0) && r[k].1 >= 1
  {
    var labels := Distinct(y);
    var r := CountLabels(y, labels);
    assert Firsts(r) == labels;
    r
  }

  /** The sum of the counts in a label summary. */
  function TotalCount<L>(r: seq<(L, nat)>): nat
  {
    if r == [] then 0 else r[0].1 + TotalCount(r[1..])
  }

  lemma {:induction false} TotalCountFirst<L>(y: seq<L>, labels: seq<L>)
    requires y != []
    ensures TotalCount(CountLabels(y, labels))
         == Count(labels, y[0]) + TotalCount(CountLabels(y[1..], labels))
  {
    if labels != [] {
      TotalCountFirst(y, labels[1..]);
      assert CountLabels(y, labels)[1..] == CountLabels(y, labels[1..]);
      assert CountLabels(y[1..], labels)[1..] == CountLabels(y[1..], labels[1..]);
    }
  }

  /** For any enumeration of the distinct labels, in any order, the counts add
      up to the length of y. */
  lemma {:induction false} CountsSumToLength<L>(y: seq<L>, labels: seq<L>)
    requires NoDuplicates(labels)
    requires forall k :: 0 <= k < |y| ==> y[k] in labels
    ensures TotalCount(CountLabels(y, labels)) == |y|
  {
    if y == [] {
      ZeroCounts(labels);
    } else {
      TotalCountFirst(y, labels);
      CountsSumToLength(y[1..], labels);
      DistinctOccursOnce(labels, y[0]);
      assert y[0] in multiset(labels);
    }
  }

  lemma {:induction false} ZeroCounts<L>(labels: seq<L>)
    ensures TotalCount(CountLabels([], labels)) == 0
  {
    if labels != [] {
      ZeroCounts(labels[1..]);
      assert CountLabels([], labels)[1..] == CountLabels([], labels[1..]);
    }
  }

  /** The counts disp_label_counts prints add up to len(y). */
  lemma LabelCountsSum<L>(y: seq<L>)
    ensures TotalCount(LabelCounts(y)) == |y|
  {
    CountsSumToLength(y, Distinct(y));
  }

  // ===========================================================================
  // disp_selected_label_data: the pairs of zip(y, X) with the selected label
  // ===========================================================================

  /** r can be obtained from s by deleting entries. */
  predicate IsSubsequence<T(==)>(r: seq<T>, s: seq<T>)
    decreases |s|
  {
    r == [] || (s != [] && ((r[0] == s[0] && IsSubsequence(r[1..], s[1..])) || IsSubsequence(r, s[1..])))
  }

  /** A subsequence stays one when an entry is appended to the list, whether
      or not the entry is kept. */
  lemma {:induction false} SubsequenceExtend<T>(r: seq<T>, s: seq<T>, x: T)
    requires IsSubsequence(r, s)
    ensures IsSubsequence(r, s + [x]) && IsSubsequence(r + [x], s + [x])
    decreases |s|
  {
    if s == [] {
      assert r == [];
      assert (r + [x])[1..] == [];
    } else {
      assert (s + [x])[0] == s[0] && (s + [x])[1..] == s[1..] + [x];
      if r == [] {
        SubsequenceExtend(r, s[1..], x);
      } else {
        assert (r + [x])[0] == r[0] && (r + [x])[1..] == r[1..] + [x];
        if r[0] == s[0] && IsSubsequence(r[1..], s[1..]) {
          SubsequenceExtend(r[1..], s[1..], x);
        } else {
          SubsequenceExtend(r, s[1..], x);
        }
      }
    }
  }

  /** [i for i in ps if i[0] == selected] */
  function SelectLabel<L(==), F>(ps: seq<(L, F)>, selected: L): (r: seq<(L, F)>)
    ensures forall k :: 0 <= k < |r| ==> r[k].0 == selected
    ensures |r| == Count(Firsts(ps), selected)
    ensures IsSubsequence(r, ps)
  {
    if ps == [] then []
    else
      assert Firsts(ps)[1..] == Firsts(ps[1..]);
      var rest := SelectLabel(ps[1..], selected);
      if ps[0].0 == selected then
        assert ([ps[0]] + rest)[1..] == rest;
        [ps[0]] + rest
      else rest
  }

  /** What disp_selected_label_data prints: the (label, features) pairs of
      zip(y, X) whose label is the selected one, in their original order, and
      all of them. */
  function SelectedLabelData<F, L(==)>(X: seq<F>, y: seq<L>, selected: L): (r: seq<(L, F)>)
    ensures forall k :: 0 <= k < |r| ==> r[k].0 == selected
    ensures |r| == Count(y[..Min(|y|, |X|)], selected)
    ensures IsSubsequence(r, Zip(y, X))
  {
    UnzipZip(y, X);
    SelectLabel(Zip(y, X), selected)
  }

  lemma {:induction false} SubsequenceBound<L, F>(r: seq<(L, F)>, ps: seq<(L, F)>, selected: L)
    requires IsSubsequence(r, ps)
    requires forall k :: 0 <= k < |r| ==> r[k].0 == selected
    ensures |r| <= Count(Firsts(ps), selected)
    decreases |ps|
  {
    if r != [] {
      assert Firsts(ps)[1..] == Firsts(ps[1..]);
      if r[0] == ps[0] && IsSubsequence(r[1..], ps[1..]) {
        SubsequenceBound(r[1..], ps[1..], selected);
      } else {
        SubsequenceBound(r, ps[1..], selected);
      }
    }
  }

  /** The filter is the only in-order selection of matching pairs that misses
      none: any subsequence of ps whose labels are all the selected one and
      that has as many entries as ps has matches is SelectLabel(ps, selected). */
  lemma {:induction false} SelectionIsUnique<L, F>(r: seq<(L, F)>, ps: seq<(L, F)>, selected: L)
    requires IsSubsequence(r, ps)
    requires forall k :: 0 <= k < |r| ==> r[k].0 == selected
    requires |r| == Count(Firsts(ps), selected)
    ensures r == SelectLabel(ps, selected)
    decreases |ps|
  {
    if r == [] {
      assert |SelectLabel(ps, selected)| == 0;
    } else {
      assert Firsts(ps)[1..] == Firsts(ps[1..]);
      if ps[0].0 == selected {
        if !(r[0] == ps[0] && IsSubsequence(r[1..], ps[1..])) {
          SubsequenceBound(r, ps[1..], selected);
          assert false;
        }
        SelectionIsUnique(r[1..], ps[1..], selected);
        assert r == [ps[0]] + r[1..];
      } else {
        SelectionIsUnique(r, ps[1..], selected);
      }
    }
  }

  /** The number of rows disp_selected_label_data prints for a label equals the
      count disp_label_counts prints for it, when every label has a feature row. */
  lemma SelectionMatchesCount<F, L>(X: seq<F>, y: seq<L>, k: nat)
    requires |y| <= |X|
    requires k < |LabelCounts(y)|
    ensures |SelectedLabelData(X, y, LabelCounts(y)[k].0)| == LabelCounts(y)[k].1
  {
    assert y[..Min(|y|, |X|)] == y;
  }
}
