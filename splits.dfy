/**
 * Train/test splits of the loaded data: the cutoff ("shifted") split by
 * target value, and the semi-supervised variant of the random split that
 * hides part of the training labels behind a sentinel.
 *
 * The shuffled 50/50 split and the random draws are inputs here: the split
 * arrives as its four parts, the draws as the sequence the seeded generator
 * would produce (one value in [0, 1) per training row).
 */
module Splits {
  import opened Masks

  type Row = seq<real>
  type Matrix = seq<Row>

  /** The label written in place of a hidden training target. */
  const Sentinel: real := -1.0

  // ---------------------------------------------------------------------------
  // Cutoff split
  // ---------------------------------------------------------------------------

  /** The four parts in the order returned: `(X_train, X_test, y_test, y_train)`. */
  type ShiftedParts = (Matrix, Matrix, seq<real>, seq<real>)

  /**
   * `get_xy_shifted(cut=35)`: `mask = y < cut`, then `X[mask]`, `X[~mask]`, `y[~mask]`, `y[mask]`.
   * Element 0 holds the rows below the cutoff and element 3 their targets;
   * element 1 holds the other rows and element 2 their targets.
   */
  function GetXYShifted(X: Matrix, y: seq<real>, cut: real := 35.0): (r: ShiftedParts)
    requires |X| == |y|
    ensures |r.0| == |r.3| && |r.1| == |r.2|
    ensures |r.0| + |r.1| == |y|
    ensures forall v :: v in r.3 ==> v < cut
    ensures forall v :: v in r.2 ==> cut <= v
    ensures multiset(r.3) + multiset(r.2) == multiset(y)
  {
    var mask := LessThan(y, cut);
    CountComplement(mask);
    CutoffValues(y, cut);
    SelectPartition(y, mask);
    (Select(X, mask), Select(X, Not(mask)), Select(y, Not(mask)), Select(y, mask))
  }

  /** Selection by `y < cut` keeps only targets below the cutoff, and its negation only the rest. */
  lemma CutoffValues(y: seq<real>, cut: real)
    ensures forall v :: v in Select(y, LessThan(y, cut)) ==> v < cut
    ensures forall v :: v in Select(y, Not(LessThan(y, cut))) ==> cut <= v
  {
    var mask := LessThan(y, cut);
    forall v | v in Select(y, mask)
      ensures v < cut
    {
      SelectMembership(y, mask, v);
    }
    forall v | v in Select(y, Not(mask))
      ensures cut <= v
    {
      SelectMembership(y, Not(mask), v);
    }
  }

  /**
   * The parts are order-preserving and row-aligned: `below` lists, in
   * increasing order, exactly the rows whose target is below the cutoff, and
   * the k-th row of element 0 and the k-th target of element 3 both come from
   * row `below[k]`; likewise `rest` for elements 1 and 2.
   */
  lemma ShiftedAligned(X: Matrix, y: seq<real>, cut: real)
    requires |X| == |y|
    ensures var below, rest := TrueIndices(LessThan(y, cut)), TrueIndices(Not(LessThan(y, cut)));
      (forall i :: 0 <= i < |y| ==> (i in below <==> y[i] < cut) && (i in rest <==> cut <= y[i])) &&
      (forall j, k :: 0 <= j < k < |below| ==> below[j] < below[k]) &&
      (forall j, k :: 0 <= j < k < |rest| ==> rest[j] < rest[k])
    ensures var r, below, rest := GetXYShifted(X, y, cut), TrueIndices(LessThan(y, cut)), TrueIndices(Not(LessThan(y, cut)));
      |r.0| == |below| && |r.1| == |rest| &&
      (forall k :: 0 <= k < |below| ==> below[k] < |y| && r.0[k] == X[below[k]] && r.3[k] == y[below[k]]) &&
      (forall k :: 0 <= k < |rest| ==> rest[k] < |y| && r.1[k] == X[rest[k]] && r.2[k] == y[rest[k]])
  {
    var mask := LessThan(y, cut);
    var below, rest := TrueIndices(mask), TrueIndices(Not(mask));
    forall i | 0 <= i < |y|
      ensures (i in below <==> y[i] < cut) && (i in rest <==> cut <= y[i])
    {
      if y[i] < cut {
        TrueIndicesComplete(mask, i);
      } else {
        TrueIndicesComplete(Not(mask), i);
      }
    }
    forall k | 0 <= k < |below|
      ensures Select(X, mask)[k] == X[below[k]] && Select(y, mask)[k] == y[below[k]]
    {
      SelectAt(X, mask, k);
      SelectAt(y, mask, k);
    }
    forall k | 0 <= k < |rest|
      ensures Select(X, Not(mask))[k] == X[rest[k]] && Select(y, Not(mask))[k] == y[rest[k]]
    {
      SelectAt(X, Not(mask), k);
      SelectAt(y, Not(mask), k);
    }
  }

  /**
   * The return order pairs element 2 (targets at or above the cutoff) with
   * element 1, not with element 0: with cut 35 and targets [10, 40, 35, 20]
   * element 2 is [40, 35] and element 3 is [10, 20]. The cutoff is the
   * default one.
   */
  lemma ShiftedExample()
    ensures GetXYShifted([[1.0], [2.0], [3.0], [4.0]], [10.0, 40.0, 35.0, 20.0])
         == ([[1.0], [4.0]], [[2.0], [3.0]], [40.0, 35.0], [10.0, 20.0])
  {
    var X: Matrix := [[1.0], [2.0], [3.0], [4.0]];
    var y := [10.0, 40.0, 35.0, 20.0];
    var below := LessThan(y, 35.0);
    assert below == [true, false, false, true];
    assert Not(below) == [false, true, true, false];
    var above := Not(below);
    SelectFour(X, below);
    assert Pick(X, below, 0) == [[1.0]] && Pick(X, below, 1) == [];
    assert Pick(X, below, 2) == [] && Pick(X, below, 3) == [[4.0]];
    assert [[1.0]] + [] + [] + [[4.0]] == [[1.0], [4.0]];
    SelectFour(X, above);
    assert Pick(X, above, 0) == [] && Pick(X, above, 1) == [[2.0]];
    assert Pick(X, above, 2) == [[3.0]] && Pick(X, above, 3) == [];
    assert [] + [[2.0]] + [[3.0]] + [] == [[2.0], [3.0]];
    SelectFour(y, above);
    assert Pick(y, above, 0) == [] && Pick(y, above, 1) == [40.0];
    assert Pick(y, above, 2) == [35.0] && Pick(y, above, 3) == [];
    assert [] + [40.0] + [35.0] + [] == [40.0, 35.0];
    SelectFour(y, below);
    assert Pick(y, below, 0) == [10.0] && Pick(y, below, 1) == [];
    assert Pick(y, below, 2) == [] && Pick(y, below, 3) == [20.0];
    assert [10.0] + [] + [] + [20.0] == [10.0, 20.0];
  }

  /** Selection from four elements, unfolded. */
  lemma SelectFour<T>(s: seq<T>, m: seq<bool>)
    requires |s| == |m| == 4
    ensures Select(s, m) == Pick(s, m, 0) + Pick(s, m, 1) + Pick(s, m, 2) + Pick(s, m, 3)
  {
    var p0, p1, p2, p3 := Pick(s, m, 0), Pick(s, m, 1), Pick(s, m, 2), Pick(s, m, 3);
    assert s[..3][..2] == s[..2] && m[..3][..2] == m[..2];
    assert s[..2][..1] == s[..1] && m[..2][..1] == m[..1];
    assert s[..1][..0] == [] && m[..1][..0] == [];
    assert Select(s[..1], m[..1]) == p0;
    assert Select(s[..2], m[..2]) == p0 + p1;
    assert Select(s[..3], m[..3]) == p0 + p1 + p2;
    assert Select(s, m) == p0 + p1 + p2 + p3;
  }

  function Pick<T>(s: seq<T>, m: seq<bool>, i: nat): seq<T>
    requires |s| == |m| && i < |s|
  {
    if m[i] then [s[i]] else []
  }

  // ---------------------------------------------------------------------------
  // Semi-supervised label masking
  // ---------------------------------------------------------------------------

  /**
   * The training targets with every position whose draw is below
   * `missingRate` replaced by the sentinel:
   * `y_train_semi[rng.rand(len(y_train)) < missing_rate] = -1`.
   */
  function Masked(yTrain: seq<real>, draws: seq<real>, missingRate: real): (r: seq<real>)
    requires |draws| == |yTrain|
    ensures |r| == |yTrain|
  {
    Assign(yTrain, LessThan(draws, missingRate), Sentinel)
  }

  /**
   * Each masked label is the sentinel exactly where the draw fell below the
   * rate, and the original label everywhere else.
   */
  lemma MaskedAt(yTrain: seq<real>, draws: seq<real>, missingRate: real, i: nat)
    requires |draws| == |yTrain| && i < |yTrain|
    ensures draws[i] < missingRate ==> Masked(yTrain, draws, missingRate)[i] == Sentinel
    ensures missingRate <= draws[i] ==> Masked(yTrain, draws, missingRate)[i] == yTrain[i]
  {
  }

  predicate IsDraws(draws: seq<real>) {
    forall i :: 0 <= i < |draws| ==> 0.0 <= draws[i] < 1.0
  }

  /** A rate of 1 or more hides every label. */
  lemma MaskAllAtFullRate(yTrain: seq<real>, draws: seq<real>, missingRate: real)
    requires |draws| == |yTrain| && IsDraws(draws) && 1.0 <= missingRate
    ensures forall i :: 0 <= i < |yTrain| ==> Masked(yTrain, draws, missingRate)[i] == Sentinel
  {
  }

  /** A rate of 0 or less hides nothing. */
  lemma MaskNoneAtZeroRate(yTrain: seq<real>, draws: seq<real>, missingRate: real)
    requires |draws| == |yTrain| && IsDraws(draws) && missingRate <= 0.0
    ensures Masked(yTrain, draws, missingRate) == yTrain
  {
  }

  /** Raising the rate hides every label that a lower rate hid, and more can only be hidden. */
  lemma MaskedMonotone(yTrain: seq<real>, draws: seq<real>, low: real, high: real, i: nat)
    requires |draws| == |yTrain| && low <= high && i < |yTrain|
    ensures Masked(yTrain, draws, low)[i] == Sentinel ==> Masked(yTrain, draws, high)[i] == Sentinel
    ensures Masked(yTrain, draws, high)[i] != Masked(yTrain, draws, low)[i] ==>
      Masked(yTrain, draws, high)[i] == Sentinel && low <= draws[i] < high
  {
  }

  /**
   * `y_train_semi = np.copy(y_train)` followed by the masked assignment,
   * done one position at a time on the copy; the original stays as it was.
   */
  method MaskLabels(yTrain: array<real>, draws: seq<real>, missingRate: real) returns (ySemi: array<real>)
    requires |draws| == yTrain.Length
    ensures fresh(ySemi)
    ensures ySemi[..] == Masked(yTrain[..], draws, missingRate)
    ensures yTrain[..] == old(yTrain[..])
  {
    var unlabeled := LessThan(draws, missingRate);
    ySemi := new real[yTrain.Length];
    forall i | 0 <= i < yTrain.Length {
      ySemi[i] := yTrain[i];
    }
    var i := 0;
    while i < ySemi.Length
      invariant 0 <= i <= ySemi.Length == yTrain.Length
      invariant forall k :: 0 <= k < i ==> ySemi[k] == (if unlabeled[k] then Sentinel else yTrain[k])
      invariant forall k :: i <= k < ySemi.Length ==> ySemi[k] == yTrain[k]
    {
      if unlabeled[i] {
        ySemi[i] := Sentinel;
      }
      i := i + 1;
    }
  }

  /**
   * The two shapes `get_xy_split` returns: the plain 4-tuple
   * `(X_train, X_test, y_train, y_test)`, or the 5-tuple
   * `(X_train, X_test, y_train_semi, y_test, y_train)`.
   */
  datatype SplitResult =
    | Plain(xTrain: Matrix, xTest: Matrix, yTrain: array<real>, yTest: array<real>)
    | SemiSupervised(xTrain: Matrix, xTest: Matrix, yTrainSemi: array<real>, yTest: array<real>, yTrainOriginal: array<real>)

  /**
   * `get_xy_split(missing_rate)` after the shuffled split: a rate of exactly
   * 0 returns the split as it is; any other rate adds a masked copy of the
   * training targets and carries the untouched original as the fifth part.
   */
  method GetXYSplit(xTrain: Matrix, xTest: Matrix, yTrain: array<real>, yTest: array<real>,
                    draws: seq<real>, missingRate: real := 0.0) returns (r: SplitResult)
    requires missingRate != 0.0 ==> |draws| == yTrain.Length
    ensures missingRate == 0.0 ==> r == Plain(xTrain, xTest, yTrain, yTest)
    ensures missingRate != 0.0 ==>
      r.SemiSupervised? && r.xTrain == xTrain && r.xTest == xTest && r.yTest == yTest &&
      r.yTrainOriginal == yTrain && fresh(r.yTrainSemi) &&
      r.yTrainSemi[..] == Masked(yTrain[..], draws, missingRate)
    ensures yTrain[..] == old(yTrain[..])
  {
    if missingRate == 0.0 {
      r := Plain(xTrain, xTest, yTrain, yTest);
    } else {
      var ySemi := MaskLabels(yTrain, draws, missingRate);
      r := SemiSupervised(xTrain, xTest, ySemi, yTest, yTrain);
    }
  }
}
