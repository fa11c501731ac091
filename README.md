# Iris data processor: verified model of its sequence logic

`iris_module.py` downloads the Iris data set, reads it into Python lists,
splits it into training, validation and test sets, prints summaries and
writes the pieces back to CSV files. This project models the parts of
`DataProcessor` that compute something, and proves what they promise:

- `train_test_split` checks that the three ratios add up to exactly 1.
  It then calls `random.seed(42)`, zips X with y, shuffles the pairs in place
  and unzips them. It computes the two cut points with `round` and slices
  both lists at them.
- the row loop of `read_csv` puts an optional header row in `col_names`,
  skips empty rows, appends `row[:4]` to X and extends y with `row[4:]`.
- `disp_label_counts` pairs every distinct label with `y.count(label)`.
- `disp_selected_label_data` keeps the pairs of `zip(y, X)` whose label is the
  selected one.

Modules:

- `Wrappers`: the `Result` type used for the error paths.
- `PyBuiltins`: the Python built-ins these functions rely on, over exact values.
  - `round` with ties to even.
  - `zip` and `zip(*pairs)`.
  - slicing with Python's normalisation of negative and out-of-range bounds.
  - `list.count`.
- `RandomShuffle`: the process-wide generator as a `Random` class with mutable
  state. The Fisher-Yates loop of `random.shuffle` appears twice: as an in-place
  method over an array, and as the function `Steps` that specifies it. The
  permutation of `0..n-1` that the seeded shuffle applies is `SeededPermutation`.
- `DataProcessor`: the four operations and their lemmas.
  - `train_test_split` is a specification function `Split` plus the method
    `TrainTestSplit`, which follows the source statement by statement.
  - the `read_csv` loop is the method `CollectRows`. It is proved against the
    functions `Features` and `Labels`.
  - the two display helpers are the functions `LabelCounts` and
    `SelectedLabelData`, without their printing.

Three behaviours of the code are easy to expect otherwise, and the model follows the code in each:

- No shape check. Inputs of different lengths are not rejected. `zip` silently
  cuts the longer one, so every size law uses `n = min(len(X), len(y))`.
- The ratio error carries no sum. The source raises `ValueError` with a fixed
  message, modelled as `InvalidProportions` without the actual sum.
- Empty input fails. With valid ratios and no pair at all, `X, y = zip(*[])`
  cannot unpack, so the call raises. This is the error `NothingToUnpack`.

## Model

| member | source | states |
|---|---|---|
| PyBuiltins.Round | iris_module.py:111-112 | round(x) is within one half of x, and on a tie it is the even neighbour |
| PyBuiltins.Scaled | iris_module.py:111-112 | the n-fold sum standing for `ratio * len(y)` is non-negative for a non-negative ratio and at most n for a ratio of at most 1; `ScaledIsProduct` proves it equals the product |
| PyBuiltins.ScaledIsProduct | iris_module.py:111-112 | the n-fold sum used for `ratio * len(y)` equals the product |
| PyBuiltins.ScaledAdditive | iris_module.py:112 | scaling `(train_size + val_size) * n` distributes over the sum |
| PyBuiltins.Zip | iris_module.py:107 | zip pairs positions k of both lists and stops at the shorter one |
| PyBuiltins.Firsts | iris_module.py:109 | the first unzipped list keeps each pair's first component, position by position |
| PyBuiltins.Seconds | iris_module.py:109 | the second unzipped list keeps each pair's second component, position by position |
| PyBuiltins.Slice | iris_module.py:114-115 | a slice is never longer than the list, and with in-range bounds it is exactly s[lo..hi] |
| PyBuiltins.SliceKeepsPairs | iris_module.py:114-115 | slicing both unzipped halves at the same bounds and zipping them back gives the same slice of the pairs |
| PyBuiltins.Count | iris_module.py:123 | y.count(v) is the multiplicity of v in y, at most len(y) |
| RandomShuffle.Random.Seed | iris_module.py:106 | random.seed(42) sets the generator state to the seed |
| RandomShuffle.Random.RandBelow | iris_module.py:108 | each draw advances the generator by one step and yields an integer below the bound |
| RandomShuffle.DrawsFrom | iris_module.py:108 | the draws a shuffle of n elements takes, indexed by position: entries n-1 down to 1 are the n-1 draws of the loop, the one for position i at most i; entry 0 is a placeholder that is never drawn, always 0 and never read by `Steps` |
| RandomShuffle.Swap | iris_module.py:108 | exchanging two positions, as the shuffle's `x[i], x[j] = x[j], x[i]` does, keeps the length and every element with its multiplicity |
| RandomShuffle.Steps | iris_module.py:108 | the Fisher-Yates steps for positions i-1 down to 1 over a recorded draw list keep the length; what they do to the elements is stated by `StepsPermutes` and `StepsGather` |
| RandomShuffle.StepsPermutes | iris_module.py:108 | the Fisher-Yates swaps keep every element with its multiplicity |
| RandomShuffle.Shuffled | iris_module.py:106-108 | the seeded shuffle keeps the length and the multiset of the list |
| RandomShuffle.SwapInPlace | iris_module.py:108 | one turn of the in-place loop leaves the array equal to `Swap` of its old contents |
| RandomShuffle.ShuffleInPlace | iris_module.py:108 | the in-place Fisher-Yates loop leaves the array equal to `Steps` over the draws, and the generator advanced by one draw per position above 0 |
| RandomShuffle.SeededPermutation | iris_module.py:106-108 | the order the seeded shuffle applies is a permutation of 0..n-1: n distinct entries, each below n |
| RandomShuffle.StepsGather | iris_module.py:108 | shuffling a list read through an index list equals reading it through the shuffled index list |
| RandomShuffle.ShuffledIsGather | iris_module.py:106-108 | the seeded shuffle of any list is that list reordered by SeededPermutation(len), so the order depends on the length alone |
| RandomShuffle.PermutationPieces | iris_module.py:114 | the three stretches of a permutation of 0..n-1 are pairwise disjoint and together hold exactly 0..n-1 |
| DataProcessor.ShuffledPairs | iris_module.py:107-108 | the shuffled pairs are min(len(X), len(y)) long and hold the pairs of zip(X, y) with their multiplicities |
| DataProcessor.Split | iris_module.py:102-117 | the ratio error occurs if and only if the sum is not exactly 1; the unpack error occurs if and only if the sum is 1 and there is no pair |
| DataProcessor.TrainTestSplit | iris_module.py:102-117 | seeding, in-place shuffling, unzipping and slicing give exactly Split's result, whatever the generator's earlier state; a call rejected for its ratios leaves the generator untouched, and every other call leaves it seeded with 42 and advanced by n-1 draws (none when n = 0), n = min(len(X), len(y)) |
| DataProcessor.SplitKeepsPairs | iris_module.py:107-115 | for any ratios, each subset's features and labels have equal length, and every position holds an input pair (X[i], y[i]) |
| DataProcessor.CutsOrdered | iris_module.py:111-112 | with valid ratios, 0 <= train_idx <= val_idx <= n |
| DataProcessor.ThreeWayCut | iris_module.py:114-115 | cutting both halves of a pair list at a <= b and zipping gives its three consecutive pieces; the halves are restored when the pieces are put back together, and the pieces hold every pair as often as the list |
| DataProcessor.SplitCutsShuffledPairs | iris_module.py:107-115 | with valid ratios and n >= 1, the three subsets are the consecutive pieces [..a], [a..b], [b..] of the shuffled pairs, a and b being the rounded cut points |
| DataProcessor.SplitSizes | iris_module.py:107-115 | size law: len(train) = round(train_size*n), len(val) = round((train_size+val_size)*n) - len(train), len(test) = n - round((train_size+val_size)*n), with n = min(len(X), len(y)) |
| DataProcessor.SplitIsPartition | iris_module.py:107-115 | train ++ val ++ test holds every pair of zip(X, y) exactly as often as the input: nothing duplicated or dropped |
| DataProcessor.SplitIsSeededGather | iris_module.py:106-115 | X_train ++ X_val ++ X_test and y_train ++ y_val ++ y_test are X and y reordered by the same permutation SeededPermutation(n), fixed by n alone |
| DataProcessor.CutsPartitionIndices | iris_module.py:106-115 | the input positions sent to train, validation and test are pairwise disjoint and together are exactly 0..n-1 |
| DataProcessor.TenCutPoints | iris_module.py:111-112 | round(0.6 * 10) = 6 and round(0.7 * 10) = 7 |
| DataProcessor.SplitTenObservations | iris_module.py:111-115 | ten observations with ratios 0.6 / 0.1 / 0.3 give subsets of 6, 1 and 3 |
| DataProcessor.IrisCutPoints | iris_module.py:111-112 | round(0.6 * 150) = 90, and round(112.5) = 112 because the tie goes to the even neighbour |
| DataProcessor.SplitIrisDefaults | iris_module.py:149-150 | the ratios main() passes (0.6, 0.15, 0.25) on 150 rows give subsets of 90, 22 and 38 |
| DataProcessor.FeatureFields | iris_module.py:78 | row[:4] is the first min(len(row), 4) fields of the row |
| DataProcessor.LabelFields | iris_module.py:79 | row[4:] is what follows row[:4]: the two put back together are the whole row |
| DataProcessor.NonEmptyRows | iris_module.py:76-77 | the rows the loop keeps: every non-empty row exactly as often as it occurs in the input and no empty row, so as many as the rows minus the empty ones, in their original order (a subsequence of the rows) |
| DataProcessor.Features | iris_module.py:76-78 | X holds exactly one row[:4] per non-empty row, in order |
| DataProcessor.Labels | iris_module.py:76-79 | y has exactly sum(max(0, len(row) - 4)) entries |
| DataProcessor.LabelsConcatenate | iris_module.py:76-79 | y is the row[4:] of every kept row, concatenated in the order of the rows, as X is their row[:4] in order |
| DataProcessor.ReadOneMore | iris_module.py:76-79 | reading one more row extends X by row[:4] and y by row[4:] exactly when the row is non-empty |
| DataProcessor.CollectRows | iris_module.py:76-79 | the append/extend loop builds exactly Features(rows) and Labels(rows) |
| DataProcessor.ReadRows | iris_module.py:73-79 | with a header the first row becomes col_names and is not data, and a file with no row fails; without a header every row is data and col_names stays empty |
| DataProcessor.FiveFieldRowsAlign | iris_module.py:76-79 | when every row is empty or has five fields, X and y have equal length and the k-th label is the fifth field of the k-th kept row |
| DataProcessor.FiveFieldLabels | iris_module.py:79 | over rows of exactly five fields, the concatenated row[4:] has one entry per row, the row's fifth field |
| DataProcessor.ExtraFieldsCoverRows | iris_module.py:76-79 | when every non-empty row has at least five fields, y has at least one entry per kept row, and exactly one per kept row only if every non-empty row has exactly five |
| DataProcessor.AlignedOnlyWithFiveFields | iris_module.py:76-79 | the converse of FiveFieldRowsAlign: for rows that are empty or at least five fields wide, X and y have equal length only when every non-empty row has exactly five fields |
| DataProcessor.ShortAndLongRowsDrift | iris_module.py:76-79 | without that lower bound equal lengths do not mean alignment: a four-field row and a six-field row give two entries in X and in y, and y's first label comes from the second row |
| DataProcessor.Distinct | iris_module.py:121 | list(set(y)) holds each label of y exactly once and nothing else |
| DataProcessor.CountLabels | iris_module.py:123 | the comprehension pairs each enumerated label with y.count(label) |
| DataProcessor.LabelCounts | iris_module.py:121-123 | each distinct label of y appears exactly once, with its exact number of occurrences, which is at least 1 |
| DataProcessor.TotalCountFirst | iris_module.py:123 | removing the first entry of y lowers the sum of the counts by the number of times that label is enumerated |
| DataProcessor.CountsSumToLength | iris_module.py:121-123 | for any duplicate-free enumeration covering the labels, in any order, the counts sum to len(y) |
| DataProcessor.ZeroCounts | iris_module.py:123 | over an empty list the counts of any enumeration of labels sum to 0 |
| DataProcessor.LabelCountsSum | iris_module.py:121-123 | the counts disp_label_counts prints sum to len(y) |
| DataProcessor.SelectLabel | iris_module.py:129 | the filter keeps, in order, only pairs with the selected label, and as many as there are |
| DataProcessor.SelectedLabelData | iris_module.py:127-129 | over zip(y, X): every kept pair has the selected label, the kept pairs form a subsequence, and their number is the label's count in y cut to the zipped length |
| DataProcessor.SubsequenceBound | iris_module.py:129 | no in-order selection of matching pairs has more entries than the label's count |
| DataProcessor.SelectionIsUnique | iris_module.py:127-129 | only one in-order selection of matching pairs omits none, and it is the filter's output |
| DataProcessor.SelectionMatchesCount | iris_module.py:121-129 | when every label has a feature row, disp_selected_label_data prints as many rows for a label as disp_label_counts reports |

## Left out

- `fetch_data` is not part of this model. It downloads the archive and unpacks it, which is network and file I/O.
- The module-level `os.makedirs` and path constants are not part of this model. They are filesystem setup.
- File opening and `csv.reader` in `read_csv` are not modelled. The model takes the rows as already split into fields, `seq<seq<string>>`.
- `DataSaver.save_as_csv` and `main` are not modelled. They are file writing and pipeline glue. The one fact about `main` that is kept is the split of its 150 rows, in `SplitIrisDefaults`.
- All printing is left out, and so are `show_labels` and `disp_data_slice`. Those two only print.
- The Mersenne Twister is not modelled. A fixed linear congruential step stands in for it, and `random.seed(42)` sets its state to 42.
  - The shuffle's draws come from that stand-in, so the concrete order is not CPython's.
  - The shuffle's own properties are stated for every valid draw sequence: `StepsPermutes` and `StepsGather` quantify over the draws. The properties of `Split` are stated for the draws of the stand-in, and their proofs use only these two lemmas and the fact that the draws are valid.
  - How `_randbelow` turns random bits into a bounded integer is also replaced, by a remainder.
- Ratios are exact `real`s, not IEEE-754 doubles.
  - The sum test and `ratio * len(y)` are exact here.
  - Binary floating point can accept or reject a sum differently, and a product can land on the other side of a rounding tie.
  - `ratio * n` is written as n-fold addition (`Scaled`). `ScaledIsProduct` proves that it equals the product.
- Split: negative or larger-than-one ratios are modelled with Python's slice normalisation, and `SplitKeepsPairs` covers them. The partition, size and determinism lemmas require each ratio to be non-negative and the sum to be 1, because out-of-range cut points make the slices overlap.
- The default arguments are not modelled, and every argument is passed explicitly. The defaults are `train_size=0.7, val_size=0.1, test_size=0.2` for `train_test_split`, `header=False` for `read_csv`, and `selected_label="Iris-setosa"` for `disp_selected_label_data`.
- The process-wide generator is passed in explicitly as a `Random` object instead of being global state.
- LabelCounts: Python enumerates the labels in set order, which it leaves unspecified. The model fixes first-appearance order. Every property of the counts is stated for the fixed order. `CountsSumToLength` holds for any order.
- `TrainTestSplit` returns sequences where the source returns tuples, and `SelectedLabelData` returns the pairs instead of printing them.
