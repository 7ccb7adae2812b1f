# Soil-moisture data preparation and results table, modelled in Dafny

This project models the deterministic core of `notebooks/utils.py` from the
hyperspectral soil-moisture regression experiments:

- **Band-column selection** (`get_xy`): the feature columns are the columns
  whose header is made only of decimal digits, in header order; the feature
  matrix takes those columns of every row, the target vector the
  `soil_moisture` column (module `Features`, `features.dfy`).
- **Boolean masks** (`masks.dfy`, module `Masks`): NumPy's `v < c`, `~m`,
  `s[m]` and `s[m] = x`, which both splits are written in.
- **Cutoff ("shifted") split** (`get_xy_shifted`): `mask = y < cut` splits
  the row-aligned `X` and `y`; the parts come back in the literal order
  `(X_train, X_test, y_test, y_train)` (module `Splits`, `splits.dfy`).
- **Semi-supervised masking** (`get_xy_split`): a rate of exactly `0.0`
  returns the shuffled split unchanged; any other rate copies the training
  targets, overwrites with `-1` every position whose random draw is below
  the rate, and returns the masked copy together with the untouched
  original (module `Splits`).
- **LaTeX results table** (`write_results_to_latex_table`): the document is
  the sequence of lines written, 12 fixed lines, one row per model in index
  order, 5 fixed lines (module `LatexTable`, `latex.dfy`).

The shuffled split, the random draws and the number printing are inputs:
`GetXYSplit` receives the four parts of the shuffled split and the draws
(one value in [0, 1) per training row); `WriteResultsToLatexTable` receives
`fixed(x, d)`, the text of `x` with `d` digits after the point.

Two details of the code that the model keeps:

- Band columns are chosen by `str.isdigit` (line 15). The commented-out
  `int(col)` loop (lines 16-21) would also have accepted `"-3"` or `"+7"`;
  the live code does not, and neither does the model.
- `Indexable` asks every key to be at least as long as `results["model"]`,
  because lines 76-82 only index positions below `len(results["model"])`.

The source's default arguments are kept as Dafny default parameter values:
`cut := 35.0` for `GetXYShifted` (line 49), `missingRate := 0.0` for
`GetXYSplit` (line 29) and `filename := "results"` for
`WriteResultsToLatexTable` (line 61).

## Model

| member | source | states |
|---|---|---|
| `Features.SelectFeatures` | notebooks/utils.py:15 | every selected column name is a band name (non-empty, all digits), and there are no more features than columns |
| `Features.FeaturesAreMaskSelection` | notebooks/utils.py:15 | the list comprehension equals selecting the header by the mask `name.isdigit()` |
| `Features.FeatureMembership` | notebooks/utils.py:15 | a name is a feature if and only if it is a column and is made only of digits (so empty names and names with any other character are excluded) |
| `Features.FeatureOrder` | notebooks/utils.py:15 | the k-th feature is the header entry at the k-th band position, and those positions increase: header order is kept |
| `Features.FeaturesAppend` | notebooks/utils.py:15 | selecting from a concatenated header selects from each part in turn |
| `Features.TargetIsNotAFeature` | notebooks/utils.py:15-24 | when the `soil_moisture` column exists it is not a feature, so the features are a strict subset of the columns |
| `Features.FeatureExamples` | notebooks/utils.py:15 | on a concrete header, only `"454"` and `"455"` are kept; `""`, `"45.5"`, `"-3"` and `"soil_moisture"` are dropped |
| `Features.GetXY` | notebooks/utils.py:23-26 | a missing `soil_moisture` column is an error and its presence is success; on success `X` and `y` have one entry per table row and every row of `X` has one cell per feature |
| `Features.GetXYCells` | notebooks/utils.py:23-24 | cell (k, j) of `X` is row k's cell under the column named by feature j, and `y[k]` is row k's cell under the first `soil_moisture` column |
| `Masks.TrueIndices` | notebooks/utils.py:52-56 | the masked positions are in range, all masked, and strictly increasing |
| `Masks.Select` | notebooks/utils.py:53-56 | `s[m]` has one element per masked position |
| `Masks.TrueIndicesComplete` | notebooks/utils.py:52-56 | every masked position is listed |
| `Masks.SelectAt` | notebooks/utils.py:53-56 | the k-th selected element is the element at the k-th masked position |
| `Masks.SelectPartition` | notebooks/utils.py:52-56 | `s[m]` and `s[~m]` together hold every element of `s` exactly once (as multisets) |
| `Masks.CountComplement` | notebooks/utils.py:52-56 | a mask and its negation select `len(s)` positions between them |
| `Masks.SelectAppend` | notebooks/utils.py:53-56 | selection distributes over concatenation of aligned pieces |
| `Masks.SelectMembership` | notebooks/utils.py:53-56 | an element is selected if and only if it sits at some masked position |
| `Splits.GetXYShifted` | notebooks/utils.py:49-58 | the cutoff defaults to 35; X and y parts are pairwise the same length and their lengths sum to `len(y)`; every target of element 3 is below the cutoff and every target of element 2 is at or above it; the two target parts together are a permutation of `y` |
| `Splits.CutoffValues` | notebooks/utils.py:52-56 | `y[y < cut]` holds only values below `cut`, `y[~(y < cut)]` only values at or above it |
| `Splits.ShiftedAligned` | notebooks/utils.py:52-56 | the below-cutoff positions are exactly those with `y[i] < cut`, in increasing order, and row k of element 0 and target k of element 3 both come from the k-th such position (likewise elements 1 and 2 for the other positions) |
| `Splits.ShiftedExample` | notebooks/utils.py:49-58 | the default cutoff (35) on targets `[10, 40, 35, 20]` gives element 2 = `[40, 35]` and element 3 = `[10, 20]`, with the matching rows in elements 0 and 1 |
| `Splits.MaskedAt` | notebooks/utils.py:42-44 | the masked label is `-1` where the draw is below the rate and the original label elsewhere |
| `Splits.MaskAllAtFullRate` | notebooks/utils.py:42-44 | with draws in [0, 1) and a rate of at least 1 every label is `-1` |
| `Splits.MaskNoneAtZeroRate` | notebooks/utils.py:42-44 | with draws in [0, 1) and a rate of at most 0 the labels are unchanged |
| `Splits.MaskedMonotone` | notebooks/utils.py:42-44 | a higher rate hides every label a lower rate hid, and the labels that differ are hidden only under the higher rate, at positions whose draw lies between the two rates |
| `Splits.MaskLabels` | notebooks/utils.py:42-44 | returns a fresh array equal to the masked training targets; the original array is unchanged |
| `Splits.GetXYSplit` | notebooks/utils.py:29-46 | the rate defaults to 0; a rate of exactly 0 returns the split's four parts as they are; any other rate returns five parts: the split's parts with a fresh masked copy of the training targets third and the original training-target array fifth, which is left unchanged |
| `LatexTable.PadRight` | notebooks/utils.py:77 | `{model:10}`: the name, left-aligned, followed by spaces up to width 10, never cut |
| `LatexTable.Rows` | notebooks/utils.py:76-82 | one line per model, line i being the row of model i |
| `LatexTable.WriteResultsToLatexTable` | notebooks/utils.py:61-87 | writes to `results/<filename>.tex`, the name defaulting to `results`; the lines written are the preamble, the rows and the footer, one `write` each |
| `LatexTable.DocumentLayout` | notebooks/utils.py:63-87 | the document is 12 fixed lines, then exactly `len(model)` data rows in index order, then 5 fixed lines |
| `LatexTable.RowCells` | notebooks/utils.py:77-82 | a data row splits at `&` into exactly the five cells of the `lSSSl` tabular: padded name, `r2[i]*100` to one decimal, MAE to two, RMSE to one, the note |

## Left out

- Fetching the CSV over HTTPS and parsing it (notebooks/utils.py:11-12): network I/O and a library; the model starts from the parsed header and rows (`Table`).
- `Features.GetXY`: assumes a rectangular table (a data frame always is); duplicate header names, which the CSV reader renames, are not modelled.
- `Features.SelectFeatures`: narrows `str.isdigit` to the ASCII digits `'0'..'9'`; Python also accepts other Unicode digits (such as `'²'` or Arabic-Indic digits).
- The shuffled 50/50 split (notebooks/utils.py:33-34) is foreign code; its four parts are inputs to `GetXYSplit`, so the model does not state that train and test partition the rows.
- The seeded generator (notebooks/utils.py:41-42) is not modelled; its draws are an input sequence, one per training row.
- `Splits.GetXYShifted`: targets are exact reals; a NaN target, which `y < cut` sends to the second part, has no counterpart.
- Float printing (`{:.1f}`, `{:.2f}`) and the rounding of `r2*100` (notebooks/utils.py:77-82): the numbers are printed by the parameter `fixed`, and `r2*100` is exact.
- Opening and writing the file (notebooks/utils.py:63): only the path and the written lines are modelled; a missing `results/` directory is not.
- `plot_regression_results` (notebooks/utils.py:98-128): plotting, global figure state and a PDF write.
- The commented-out `pdflatex` call and clean-up (notebooks/utils.py:88-95): dead code.
- Entries of `results["model"]` and `results["potential"]` are taken to be strings; other types would be formatted differently.
