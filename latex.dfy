/**
 * The results table written as a LaTeX document. The document is the
 * sequence of strings handed to `write`, one line each: a fixed preamble
 * ending with the table header, one row per model in index order, and a
 * fixed footer.
 *
 * Number printing is the parameter `fixed`: `fixed(x, d)` is `x` printed
 * with `d` digits after the decimal point (`{:.1f}` is `fixed(x, 1)`).
 */
module LatexTable {

  /** The results mapping: one sequence per key, aligned by model position. */
  datatype Results = Results(
    model: seq<string>,
    r2: seq<real>,
    mae: seq<real>,
    rmse: seq<real>,
    potential: seq<string>)

  /** Every key can be indexed at every model position. */
  predicate Indexable(res: Results) {
    |res.model| <= |res.r2| && |res.model| <= |res.mae| &&
    |res.model| <= |res.rmse| && |res.model| <= |res.potential|
  }

  /** From `\documentclass` through `\midrule`. */
  const Preamble: seq<string> := [
    "\\documentclass{article}\n",
    "\\usepackage{booktabs}\n",
    "\\usepackage{multirow}\n",
    "\\usepackage{siunitx}\n",
    "\\begin{document}\n",
    "\\begin{table}\n",
    "\t\\centering\n",
    "\t\\caption{Regression results for soil moisture.}\n",
    "\t\\begin{tabular}{lSSSl}\n",
    "\t\t\\toprule\n",
    "\t\t Model &{$R^2$ in $\\%$} &{MAE} &{RMSE} & {Potential}\\\\\n",
    "\t\t\\midrule\n"
  ]

  /** From `\bottomrule` through `\end{document}`. */
  const Footer: seq<string> := [
    "\t\t\\bottomrule\n",
    "\t\\end{tabular}\n",
    "\t\\label{tab:supervised_results}\n",
    "\\end{table}\n",
    "\\end{document}\n"
  ]

  /** The field width of the model name (`{model:10}`). */
  const ModelWidth: nat := 10

  function Max(a: nat, b: nat): nat {
    if a < b then b else a
  }

  /** `format(s, "10")` for a string: left-aligned, padded with spaces to the width, never cut. */
  function PadRight(s: string, width: nat): (r: string)
    ensures |r| == Max(|s|, width)
    ensures r[..|s|] == s
    ensures forall i :: |s| <= i < |r| ==> r[i] == ' '
  {
    if width <= |s| then s else s + seq(width - |s|, _ => ' ')
  }

  /** The data row of model `i`, with R² shown as a percentage. */
  function Row(res: Results, i: nat, fixed: (real, nat) -> string): string
    requires Indexable(res) && i < |res.model|
  {
    "\t\t" + PadRight(res.model[i], ModelWidth)
    + " & " + fixed(res.r2[i] * 100.0, 1)
    + " & " + fixed(res.mae[i], 2)
    + " & " + fixed(res.rmse[i], 1)
    + " & " + res.potential[i] + "\\\\\n"
  }

  /** The rows of the first `n` models, in index order. */
  function Rows(res: Results, fixed: (real, nat) -> string, n: nat): (rows: seq<string>)
    requires Indexable(res) && n <= |res.model|
    ensures |rows| == n
    ensures forall i :: 0 <= i < n ==> rows[i] == Row(res, i, fixed)
  {
    if n == 0 then [] else Rows(res, fixed, n - 1) + [Row(res, n - 1, fixed)]
  }

  /** The whole document. */
  function Document(res: Results, fixed: (real, nat) -> string): seq<string>
    requires Indexable(res)
  {
    Preamble + Rows(res, fixed, |res.model|) + Footer
  }

  /**
   * `write_results_to_latex_table(results, filename="results")`: the file it writes
   * and the lines written to it, one `write` at a time.
   */
  method WriteResultsToLatexTable(res: Results, filename: string := "results", fixed: (real, nat) -> string)
    returns (path: string, lines: seq<string>)
    requires Indexable(res)
    ensures path == "results/" + filename + ".tex"
    ensures lines == Document(res, fixed)
  {
    path := "results/" + filename + ".tex";
    lines := Preamble;
    var i := 0;
    while i < |res.model|
      invariant 0 <= i <= |res.model|
      invariant lines == Preamble + Rows(res, fixed, i)
    {
      lines := lines + [Row(res, i, fixed)];
      i := i + 1;
    }
    lines := lines + Footer;
  }

  /**
   * Twelve fixed lines, then exactly one row per model in index order, then
   * five fixed lines.
   */
  lemma DocumentLayout(res: Results, fixed: (real, nat) -> string)
    requires Indexable(res)
    ensures |Preamble| == 12 && |Footer| == 5
    ensures |Document(res, fixed)| == 12 + |res.model| + 5
    ensures Document(res, fixed)[..12] == Preamble
    ensures Document(res, fixed)[12 + |res.model|..] == Footer
    ensures forall i :: 0 <= i < |res.model| ==> Document(res, fixed)[12 + i] == Row(res, i, fixed)
  {
  }

  // ---------------------------------------------------------------------------
  // Cells of a tabular line
  // ---------------------------------------------------------------------------

  /** The pieces of `s` between occurrences of `sep`; there is always at least one. */
  function SplitOn(s: string, sep: char): (cells: seq<string>)
    ensures |cells| >= 1
  {
    if |s| == 0 then [""]
    else
      var rest := SplitOn(s[1..], sep);
      if s[0] == sep then [""] + rest else [[s[0]] + rest[0]] + rest[1..]
  }

  /** A string without the separator is a single cell. */
  lemma {:induction false} SplitOnNone(a: string, sep: char)
    requires sep !in a
    ensures SplitOn(a, sep) == [a]
  {
    if |a| > 0 {
      SplitOnNone(a[1..], sep);
      assert a == [a[0]] + a[1..];
    }
  }

  /** A separator-free piece followed by the separator is the first cell. */
  lemma {:induction false} SplitOnCell(a: string, sep: char, b: string)
    requires sep !in a
    ensures SplitOn(a + [sep] + b, sep) == [a] + SplitOn(b, sep)
  {
    var s := a + [sep] + b;
    if |a| == 0 {
      assert s[0] == sep && s[1..] == b;
    } else {
      assert s[0] == a[0] && s[1..] == a[1..] + [sep] + b;
      SplitOnCell(a[1..], sep, b);
      assert [a[0]] + a[1..] == a;
    }
  }

  /** Formatted numbers never contain the column separator `&`. */
  ghost predicate PlainNumbers(fixed: (real, nat) -> string) {
    forall x: real, d: nat :: '&' !in fixed(x, d)
  }

  lemma PlainNumber(fixed: (real, nat) -> string, x: real, d: nat)
    requires PlainNumbers(fixed)
    ensures '&' !in fixed(x, d)
  {
  }

  /**
   * When the model name and the note carry no `&`, a data row has exactly
   * the five cells of the `lSSSl` tabular: the padded name, R² times 100 to
   * one decimal, MAE to two, RMSE to one, and the note ending the row.
   */
  lemma RowCells(res: Results, i: nat, fixed: (real, nat) -> string)
    requires Indexable(res) && i < |res.model|
    requires '&' !in res.model[i] && '&' !in res.potential[i] && PlainNumbers(fixed)
    ensures SplitOn(Row(res, i, fixed), '&') == [
      "\t\t" + PadRight(res.model[i], ModelWidth) + " ",
      " " + fixed(res.r2[i] * 100.0, 1) + " ",
      " " + fixed(res.mae[i], 2) + " ",
      " " + fixed(res.rmse[i], 1) + " ",
      " " + res.potential[i] + "\\\\\n"]
  {
    var padded := PadRight(res.model[i], ModelWidth);
    var c0 := "\t\t" + padded + " ";
    var c1 := " " + fixed(res.r2[i] * 100.0, 1) + " ";
    var c2 := " " + fixed(res.mae[i], 2) + " ";
    var c3 := " " + fixed(res.rmse[i], 1) + " ";
    var c4 := " " + res.potential[i] + "\\\\\n";
    PlainNumber(fixed, res.r2[i] * 100.0, 1);
    PlainNumber(fixed, res.mae[i], 2);
    PlainNumber(fixed, res.rmse[i], 1);
    assert Row(res, i, fixed) == c0 + "&" + (c1 + "&" + (c2 + "&" + (c3 + "&" + c4)));
    SplitOnNone(c4, '&');
    SplitOnCell(c3, '&', c4);
    SplitOnCell(c2, '&', c3 + "&" + c4);
    SplitOnCell(c1, '&', c2 + "&" + (c3 + "&" + c4));
    SplitOnCell(c0, '&', c1 + "&" + (c2 + "&" + (c3 + "&" + c4)));
  }
}
