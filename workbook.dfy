/** The parts of writing the spreadsheet that are decided by the converters
    themselves rather than by pandas/openpyxl: which path the workbook gets
    and how wide each column is made. The sheet is taken as the grid of cell
    texts that `DataFrame.to_excel` lays out (a header row, then one row per
    record). */
module Workbook {
  import opened TextUtil

  /** A finished conversion: the workbook path and the sheet written. */
  datatype Conversion = Conversion(path: string, sheet: seq<seq<string>>)

  /** Widest a column is ever made. */
  const MaxWidth: nat := 50

  /** Every row has as many cells as the header. */
  predicate Rectangular(sheet: seq<seq<string>>)
  {
    |sheet| >= 1 && forall r :: 0 <= r < |sheet| ==> |sheet[r]| == |sheet[0]|
  }

  /** The length of the longest text in column `c` of `rows`, 0 when there
      are no rows. */
  function LongestCell(rows: seq<seq<string>>, c: nat): (m: nat)
    requires forall r :: 0 <= r < |rows| ==> c < |rows[r]|
    ensures forall r :: 0 <= r < |rows| ==> |rows[r][c]| <= m
    ensures rows != [] ==> exists r :: 0 <= r < |rows| && m == |rows[r][c]|
    decreases |rows|
  {
    if rows == [] then 0
    else
      var init := LongestCell(rows[..|rows| - 1], c);
      assert forall r :: 0 <= r < |rows| - 1 ==> rows[..|rows| - 1][r] == rows[r];
      if |rows[|rows| - 1][c]| > init then |rows[|rows| - 1][c]| else init
  }

  /** The width a column gets: its longest text plus 2, capped at 50. */
  function ColumnWidth(longest: nat): nat
  {
    if longest + 2 < MaxWidth then longest + 2 else MaxWidth
  }

  /** The column-width pass after writing: for each column, the longest cell
      text (header included) plus 2, capped at 50. */
  method AdjustColumnWidths(sheet: seq<seq<string>>) returns (widths: seq<nat>)
    requires Rectangular(sheet)
    ensures |widths| == |sheet[0]|
    ensures forall c :: 0 <= c < |widths| ==> widths[c] == ColumnWidth(LongestCell(sheet, c))
    ensures forall c :: 0 <= c < |widths| ==> widths[c] <= MaxWidth
    ensures forall c, r :: 0 <= c < |widths| && 0 <= r < |sheet| ==>
      |sheet[r][c]| + 2 <= widths[c] || widths[c] == MaxWidth
    ensures forall c :: 0 <= c < |widths| ==>
      exists r :: 0 <= r < |sheet| && widths[c] == ColumnWidth(|sheet[r][c]|)
  {
    widths := [];
    var c := 0;
    while c < |sheet[0]|
      invariant 0 <= c <= |sheet[0]| && |widths| == c
      invariant forall k :: 0 <= k < c ==> widths[k] == ColumnWidth(LongestCell(sheet, k))
    {
      var maxLength := 0;
      var r := 0;
      while r < |sheet|
        invariant 0 <= r <= |sheet|
        invariant maxLength == LongestCell(sheet[..r], c)
      {
        assert sheet[..r + 1][..r] == sheet[..r];
        if |sheet[r][c]| > maxLength {
          maxLength := |sheet[r][c]|;
        }
        r := r + 1;
      }
      assert sheet[..r] == sheet;
      widths := widths + [ColumnWidth(maxLength)];
      c := c + 1;
    }
  }

  /** A column is capped at 50 exactly when some text in it is at least 48
      characters long; otherwise it is as wide as its longest text plus 2. */
  lemma ColumnWidthCapped(sheet: seq<seq<string>>, c: nat)
    requires Rectangular(sheet) && c < |sheet[0]|
    ensures ColumnWidth(LongestCell(sheet, c)) == MaxWidth <==>
      exists r :: 0 <= r < |sheet| && |sheet[r][c]| + 2 >= MaxWidth
    ensures ColumnWidth(LongestCell(sheet, c)) < MaxWidth ==>
      forall r :: 0 <= r < |sheet| ==> |sheet[r][c]| + 2 <= ColumnWidth(LongestCell(sheet, c))
  {
  }

  /** The workbook path the PDF converters write: with a month label every
      ".pdf" is removed and ".xlsx" appended; without one every ".pdf" is
      replaced by ".xlsx". */
  function ExcelPathForPdf(pdfPath: string, month: string): string
  {
    if month != "" then ReplaceAll(pdfPath, ".pdf", "") + ".xlsx"
    else ReplaceAll(pdfPath, ".pdf", ".xlsx")
  }

  /** When ".pdf" occurs in the path only as its suffix, both rules give the
      same workbook path: the suffix becomes ".xlsx". */
  lemma ExcelPathForPdfSuffix(base: string, month: string)
    requires forall i :: 0 <= i < |base| ==> !OccursAt(base + ".pdf", ".pdf", i)
    ensures ExcelPathForPdf(base + ".pdf", month) == base + ".xlsx"
  {
    ReplaceSuffixOnly(base, ".pdf", "");
    ReplaceSuffixOnly(base, ".pdf", ".xlsx");
  }

  /** A path without ".pdf" gets ".xlsx" appended with a month label, but is
      returned unchanged without one, so the workbook would be written over
      the downloaded file itself. */
  lemma ExcelPathForPdfWithoutSuffix(path: string, month: string)
    requires forall i :: 0 <= i <= |path| ==> !OccursAt(path, ".pdf", i)
    ensures ExcelPathForPdf(path, month) == if month != "" then path + ".xlsx" else path
  {
    ReplaceAbsent(path, ".pdf", "");
    ReplaceAbsent(path, ".pdf", ".xlsx");
  }
}
