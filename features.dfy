/**
 * Loading the soil-moisture table: the hyperspectral band columns are the
 * columns whose header is made only of decimal digits; the target is the
 * "soil_moisture" column. The table arrives already parsed: its header
 * (without the index column) and its rows of cells.
 */
module Features {
  import opened Masks

  const TargetColumn: string := "soil_moisture"

  predicate IsDecimalDigit(c: char) {
    '0' <= c <= '9'
  }

  /** `name.isdigit()`: non-empty and every character a decimal digit. */
  predicate IsBandName(name: string) {
    |name| > 0 && forall i :: 0 <= i < |name| ==> IsDecimalDigit(name[i])
  }

  /** `[col for col in columns if col.isdigit()]` */
  function SelectFeatures(columns: seq<string>): (features: seq<string>)
    ensures |features| <= |columns|
    ensures forall f :: f in features ==> IsBandName(f)
  {
    if |columns| == 0 then []
    else (if IsBandName(columns[0]) then [columns[0]] else []) + SelectFeatures(columns[1..])
  }

  /** The mask `columns.str.isdigit()` that picks the band columns out of a row. */
  function BandMask(columns: seq<string>): (m: seq<bool>)
    ensures |m| == |columns|
  {
    seq(|columns|, i requires 0 <= i < |columns| => IsBandName(columns[i]))
  }

  /** The comprehension agrees with selecting the header by the band mask. */
  lemma {:induction false} FeaturesAreMaskSelection(columns: seq<string>)
    ensures SelectFeatures(columns) == Select(columns, BandMask(columns))
  {
    if |columns| > 0 {
      var rest := columns[1..];
      FeaturesAreMaskSelection(rest);
      assert columns == [columns[0]] + rest;
      assert BandMask(columns) == [IsBandName(columns[0])] + BandMask(rest);
      SelectAppend([columns[0]], [IsBandName(columns[0])], rest, BandMask(rest));
      assert Select([columns[0]], [IsBandName(columns[0])])
          == (if IsBandName(columns[0]) then [columns[0]] else []);
    }
  }

  /** A column is a feature exactly when it is a column whose name is all digits. */
  lemma {:induction false} FeatureMembership(columns: seq<string>, name: string)
    ensures name in SelectFeatures(columns) <==> name in columns && IsBandName(name)
  {
    if |columns| > 0 {
      FeatureMembership(columns[1..], name);
      assert columns == [columns[0]] + columns[1..];
    }
  }

  /**
   * The features keep the header's order: the k-th feature is the column at
   * the k-th band position, and those positions increase.
   */
  lemma FeatureOrder(columns: seq<string>, k: nat)
    requires k < |SelectFeatures(columns)|
    ensures |TrueIndices(BandMask(columns))| == |SelectFeatures(columns)|
    ensures TrueIndices(BandMask(columns))[k] < |columns|
    ensures SelectFeatures(columns)[k] == columns[TrueIndices(BandMask(columns))[k]]
  {
    FeaturesAreMaskSelection(columns);
    SelectAt(columns, BandMask(columns), k);
  }

  /** Selecting features of a concatenated header selects each part in turn. */
  lemma {:induction false} FeaturesAppend(a: seq<string>, b: seq<string>)
    ensures SelectFeatures(a + b) == SelectFeatures(a) + SelectFeatures(b)
  {
    if |a| > 0 {
      FeaturesAppend(a[1..], b);
      assert (a + b)[1..] == a[1..] + b;
    } else {
      assert a + b == b;
    }
  }

  /** When the target column is present the features are a strict subset of the columns. */
  lemma {:induction false} TargetIsNotAFeature(columns: seq<string>)
    requires TargetColumn in columns
    ensures TargetColumn !in SelectFeatures(columns)
    ensures |SelectFeatures(columns)| < |columns|
  {
    FeatureMembership(columns, TargetColumn);
    if columns[0] == TargetColumn {
      assert !IsDecimalDigit(TargetColumn[0]);
    } else {
      TargetIsNotAFeature(columns[1..]);
    }
  }

  /** Names that are empty or carry any non-digit character are not bands. */
  lemma FeatureExamples()
    ensures SelectFeatures(["454", "soil_moisture", "", "45.5", "-3", "455"]) == ["454", "455"]
  {
    assert IsBandName("454") && IsBandName("455");
    assert !IsDecimalDigit("soil_moisture"[0]);
    assert !IsDecimalDigit("45.5"[2]);
    assert !IsDecimalDigit("-3"[0]);
  }

  /** A parsed table: header names (index column already removed) and rows of cells. */
  datatype Table<T> = Table(columns: seq<string>, rows: seq<seq<T>>)

  /** Every row has one cell per column, as in a data frame. */
  predicate Rectangular<T>(t: Table<T>) {
    forall k :: 0 <= k < |t.rows| ==> |t.rows[k]| == |t.columns|
  }

  /** The feature matrix `X` (rows by band columns) and the target vector `y`. */
  datatype Dataset<T> = Dataset(X: seq<seq<T>>, y: seq<T>)

  datatype LoadResult<T> = Loaded(data: Dataset<T>) | MissingColumn(name: string)

  /** The position of the first column called `name`, if any. */
  function ColumnIndex(columns: seq<string>, name: string): (i: nat)
    requires name in columns
    ensures i < |columns| && columns[i] == name
    ensures forall j :: 0 <= j < i ==> columns[j] != name
  {
    if columns[0] == name then 0 else 1 + ColumnIndex(columns[1..], name)
  }

  /** `X = df[features].values` and `y = df["soil_moisture"].values`. */
  function GetXY<T>(t: Table<T>): (r: LoadResult<T>)
    requires Rectangular(t)
    ensures r.MissingColumn? <==> TargetColumn !in t.columns
    ensures r.MissingColumn? ==> r.name == TargetColumn
    ensures r.Loaded? ==> |r.data.X| == |r.data.y| == |t.rows|
    ensures r.Loaded? ==> forall k :: 0 <= k < |r.data.X| ==> |r.data.X[k]| == |SelectFeatures(t.columns)|
  {
    if TargetColumn !in t.columns then MissingColumn(TargetColumn)
    else
      var mask := BandMask(t.columns);
      var target := ColumnIndex(t.columns, TargetColumn);
      FeaturesAreMaskSelection(t.columns);
      Loaded(Dataset(
        seq(|t.rows|, k requires 0 <= k < |t.rows| => Select(t.rows[k], mask)),
        seq(|t.rows|, k requires 0 <= k < |t.rows| => t.rows[k][target])))
  }

  /**
   * Each cell of the feature matrix is the cell of the same row under the
   * column named by the matching feature; each target is the row's cell under
   * "soil_moisture".
   */
  lemma GetXYCells<T>(t: Table<T>, k: nat, j: nat)
    requires Rectangular(t) && GetXY(t).Loaded?
    requires k < |t.rows| && j < |SelectFeatures(t.columns)|
    ensures |TrueIndices(BandMask(t.columns))| == |SelectFeatures(t.columns)|
    ensures var c := TrueIndices(BandMask(t.columns))[j];
      c < |t.columns| && t.columns[c] == SelectFeatures(t.columns)[j] &&
      GetXY(t).data.X[k][j] == t.rows[k][c]
    ensures GetXY(t).data.y[k] == t.rows[k][ColumnIndex(t.columns, TargetColumn)]
  {
    FeatureOrder(t.columns, j);
    FeaturesAreMaskSelection(t.columns);
    SelectAt(t.rows[k], BandMask(t.columns), j);
  }
}
