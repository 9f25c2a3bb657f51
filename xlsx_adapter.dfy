// process_xlsx: every worksheet of the workbook is masked in place, cell by
// cell, by the column policy of its first row.
module XlsxAdapter {
  import Wrappers
  import opened PyText
  import opened MaskSettings
  import opened Detection
  import opened HeaderPolicy
  import opened CellRedactor

  /** The ImportError raised when openpyxl is not installed. */
  datatype XlsxError = OpenpyxlMissing

  /** A worksheet's cells, row by row, as values. */
  type Grid = seq<seq<Value>>

  /** The value of the header cell above column `j` (row 1 of the sheet);
      an absent cell reads as None. */
  function HeaderAt(g: Grid, j: nat): Value {
    if |g| > 0 && j < |g[0]| then g[0][j] else None
  }

  /** `masked_cols` of a sheet, counted from 0. */
  function MaskedColumns(g: Grid, width: nat): (cols: set<nat>)
    ensures forall j: nat :: j in cols <==> j < width && ShouldMaskHeader(HeaderAt(g, j))
  {
    set j: nat | j < width && ShouldMaskHeader(HeaderAt(g, j))
  }

  /** `truncate_cols` of a sheet, counted from 0. */
  function TruncatedColumns(g: Grid, width: nat): (cols: set<nat>)
    ensures forall j: nat :: j in cols <==> j < width && ShouldTruncateHeader(HeaderAt(g, j))
  {
    set j: nat | j < width && ShouldTruncateHeader(HeaderAt(g, j))
  }

  /** One data cell: mask_value in a masked column, mask_by_ner elsewhere;
      then, in a truncate column and only if the value is truthy, truncate. */
  function XlsxCell(d: Detectors, masked: bool, truncated: bool, v: Value): (r: Value)
    ensures masked && !v.None? && !IsBlank(Shown(v)) ==> r == Str(MaskMarker)
    ensures masked && (v.None? || IsBlank(Shown(v))) && !(truncated && Truthy(v)) ==> r == v
    ensures !masked && !truncated ==> r == NerMasked(d, v)
    ensures v.None? ==> r == None
    ensures truncated && r.Str? ==> |r.s| <= MaxTextLength
  {
    var w := if masked then MaskValue(v) else NerMasked(d, v);
    if truncated && Truthy(w) then Truncate(w) else w
  }

  /** The sheet after masking: the first row as it is, every other cell
      masked by the policy of its column. */
  function MaskedSheet(d: Detectors, g: Grid, width: nat): (out: Grid)
    ensures |out| == |g|
    ensures |g| > 0 ==> out[0] == g[0]
    ensures forall i :: 0 < i < |g| ==> |out[i]| == |g[i]|
  {
    var masked := MaskedColumns(g, width);
    var truncated := TruncatedColumns(g, width);
    seq(|g|, i requires 0 <= i < |g| =>
      if i == 0 then g[0]
      else seq(|g[i]|, j requires 0 <= j < |g[i]| => XlsxCell(d, j in masked, j in truncated, g[i][j])))
  }

  /** The cells of `ws` as a grid. */
  ghost function Cells(ws: array2<Value>): (g: Grid)
    reads ws
    ensures |g| == ws.Length0
    ensures forall i :: 0 <= i < |g| ==> |g[i]| == ws.Length1
  {
    seq(ws.Length0, i requires 0 <= i < ws.Length0 reads ws =>
      seq(ws.Length1, j requires 0 <= j < ws.Length1 reads ws => ws[i, j]))
  }

  /** The body of the cell loop of process_xlsx. */
  method MaskXlsxCell(d: Detectors, masked: bool, truncated: bool, v: Value) returns (w: Value)
    ensures w == XlsxCell(d, masked, truncated, v)
  {
    if masked {
      w := MaskValue(v);
    } else {
      w := MaskByNer(d, v);
    }
    if truncated && Truthy(w) {
      w := Truncate(w);
    }
  }

  /** Scanning one more header cell adds at most that column. */
  lemma ColumnsStep(g: Grid, col: nat)
    ensures MaskedColumns(g, col + 1)
         == MaskedColumns(g, col) + (if ShouldMaskHeader(HeaderAt(g, col)) then {col} else {})
    ensures TruncatedColumns(g, col + 1)
         == TruncatedColumns(g, col) + (if ShouldTruncateHeader(HeaderAt(g, col)) then {col} else {})
  {
  }

  /** The header scan of process_xlsx: which columns to mask and to cut. */
  method ScanHeader(ws: array2<Value>) returns (maskedCols: set<nat>, truncateCols: set<nat>)
    ensures maskedCols == MaskedColumns(Cells(ws), ws.Length1)
    ensures truncateCols == TruncatedColumns(Cells(ws), ws.Length1)
  {
    ghost var g := Cells(ws);
    maskedCols := {};
    truncateCols := {};
    var col := 0;
    while col < ws.Length1
      invariant 0 <= col <= ws.Length1
      invariant maskedCols == MaskedColumns(g, col)
      invariant truncateCols == TruncatedColumns(g, col)
    {
      var headerVal := if ws.Length0 > 0 then ws[0, col] else None;
      assert headerVal == HeaderAt(g, col);
      ColumnsStep(g, col);
      if ShouldMaskHeader(headerVal) {
        maskedCols := maskedCols + {col};
      }
      if ShouldTruncateHeader(headerVal) {
        truncateCols := truncateCols + {col};
      }
      col := col + 1;
    }
  }

  /** What cell (i, j) of a sheet with cells `g` becomes. */
  function SheetCell(d: Detectors, g: Grid, masked: set<nat>, truncated: set<nat>, i: nat, j: nat): Value
    requires i < |g| && j < |g[i]|
  {
    if i == 0 then g[0][j] else XlsxCell(d, j in masked, j in truncated, g[i][j])
  }

  /** The cell loop of process_xlsx over one row `r`: the first row is
      skipped, every cell of another row replaced by its masked value. */
  method MaskSheetRow(d: Detectors, ws: array2<Value>, r: nat, masked: set<nat>, truncated: set<nat>)
    requires r < ws.Length0
    modifies ws
    ensures forall j :: 0 <= j < ws.Length1 ==>
      ws[r, j] == if r == 0 then old(ws[r, j]) else XlsxCell(d, j in masked, j in truncated, old(ws[r, j]))
    ensures forall i, j :: 0 <= i < ws.Length0 && i != r && 0 <= j < ws.Length1 ==> ws[i, j] == old(ws[i, j])
  {
    var c := 0;
    while c < ws.Length1
      invariant 0 <= c <= ws.Length1
      invariant forall j :: 0 <= j < c ==>
        ws[r, j] == if r == 0 then old(ws[r, j]) else XlsxCell(d, j in masked, j in truncated, old(ws[r, j]))
      invariant forall i, j :: 0 <= i < ws.Length0 && 0 <= j < ws.Length1 && (i != r || j >= c) ==>
        ws[i, j] == old(ws[i, j])
    {
      if r == 0 {
        c := c + 1;
        continue;
      }
      var w := MaskXlsxCell(d, c in masked, c in truncated, ws[r, c]);
      ws[r, c] := w;
      c := c + 1;
    }
  }

  /** One worksheet of process_xlsx: the header scan, then every cell below
      the first row replaced by its masked value. */
  method MaskSheet(d: Detectors, ws: array2<Value>)
    modifies ws
    ensures Cells(ws) == MaskedSheet(d, old(Cells(ws)), ws.Length1)
  {
    ghost var g := Cells(ws);
    var maskedCols, truncateCols := ScanHeader(ws);
    var r := 0;
    while r < ws.Length0
      invariant 0 <= r <= ws.Length0
      invariant forall i, j :: 0 <= i < r && 0 <= j < ws.Length1 ==>
        ws[i, j] == SheetCell(d, g, maskedCols, truncateCols, i, j)
      invariant forall i, j :: r <= i < ws.Length0 && 0 <= j < ws.Length1 ==> ws[i, j] == g[i][j]
    {
      MaskSheetRow(d, ws, r, maskedCols, truncateCols);
      r := r + 1;
    }
    CellsAreMaskedSheet(d, ws, g, maskedCols, truncateCols);
  }

  /** Cell-wise agreement with SheetCell is agreement with MaskedSheet. */
  lemma CellsAreMaskedSheet(d: Detectors, ws: array2<Value>, g: Grid, masked: set<nat>, truncated: set<nat>)
    requires |g| == ws.Length0 && forall i :: 0 <= i < |g| ==> |g[i]| == ws.Length1
    requires masked == MaskedColumns(g, ws.Length1) && truncated == TruncatedColumns(g, ws.Length1)
    requires forall i, j :: 0 <= i < ws.Length0 && 0 <= j < ws.Length1 ==>
      ws[i, j] == SheetCell(d, g, masked, truncated, i, j)
    ensures Cells(ws) == MaskedSheet(d, g, ws.Length1)
  {
    var out := MaskedSheet(d, g, ws.Length1);
    forall i | 0 <= i < ws.Length0 ensures Cells(ws)[i] == out[i] {
      assert forall j :: 0 <= j < ws.Length1 ==> Cells(ws)[i][j] == out[i][j];
    }
  }

  /** Distinct worksheets of one workbook. */
  ghost predicate Distinct(sheets: seq<array2<Value>>) {
    forall i, j :: 0 <= i < j < |sheets| ==> sheets[i] != sheets[j]
  }

  /** process_xlsx: without openpyxl nothing is touched and ImportError is
      raised; otherwise every worksheet is masked in place. */
  method ProcessXlsx(d: Detectors, openpyxlAvailable: bool, sheets: seq<array2<Value>>)
    returns (r: Wrappers.Result<(), XlsxError>)
    requires Distinct(sheets)
    modifies set k | 0 <= k < |sheets| :: sheets[k]
    ensures !openpyxlAvailable ==> r == Wrappers.Err(OpenpyxlMissing)
    ensures openpyxlAvailable ==> r == Wrappers.Ok(())
    ensures forall k :: 0 <= k < |sheets| ==>
      Cells(sheets[k]) == if openpyxlAvailable
        then MaskedSheet(d, old(Cells(sheets[k])), sheets[k].Length1)
        else old(Cells(sheets[k]))
  {
    if !openpyxlAvailable {
      return Wrappers.Err(OpenpyxlMissing);
    }
    var k := 0;
    while k < |sheets|
      invariant 0 <= k <= |sheets|
      invariant forall m :: 0 <= m < k ==>
        Cells(sheets[m]) == MaskedSheet(d, old(Cells(sheets[m])), sheets[m].Length1)
      invariant forall m :: k <= m < |sheets| ==> Cells(sheets[m]) == old(Cells(sheets[m]))
    {
      label before:
      MaskSheet(d, sheets[k]);
      forall m | 0 <= m < |sheets| && m != k
        ensures Cells(sheets[m]) == old@before(Cells(sheets[m]))
      {
        assert sheets[m] != sheets[k];
      }
      k := k + 1;
    }
    return Wrappers.Ok(());
  }

  // ---------------------------------------------------------------------
  // Properties

  /** Every truncate column of a sheet is also one of its mask columns. */
  lemma TruncatedColumnsAreMasked(g: Grid, width: nat)
    ensures TruncatedColumns(g, width) <= MaskedColumns(g, width)
  {
    forall j: nat | j in TruncatedColumns(g, width) ensures j in MaskedColumns(g, width) {
      TruncateImpliesMask(HeaderAt(g, j));
    }
  }

  /** The header row is never changed, and the sheet keeps its shape. */
  lemma HeaderRowKept(d: Detectors, g: Grid, width: nat)
    requires |g| > 0
    ensures MaskedSheet(d, g, width)[0] == g[0]
    ensures |MaskedSheet(d, g, width)| == |g|
  {
  }

  /** In a column whose header names personal data, every data cell that is
      not empty becomes the marker, whatever its type. */
  lemma MaskedColumnHidesValues(d: Detectors, g: Grid, width: nat, i: nat, j: nat)
    requires 0 < i < |g| && j < |g[i]| && j < width && ShouldMaskHeader(HeaderAt(g, j))
    requires !g[i][j].None? && !IsBlank(Shown(g[i][j]))
    ensures MaskedSheet(d, g, width)[i][j] == Str(MaskMarker)
  {
  }

  /** An empty cell stays empty everywhere. */
  lemma EmptyCellsStayEmpty(d: Detectors, g: Grid, width: nat, i: nat, j: nat)
    requires 0 < i < |g| && j < |g[i]| && g[i][j].None?
    ensures MaskedSheet(d, g, width)[i][j] == None
  {
  }

  /** A memo column is masked whole, since every truncate keyword is also a
      mask keyword: a non-blank cell comes out as the marker, an empty or
      blank one as it was or cut, and none longer than MAX_TEXT_LENGTH. */
  lemma MemoColumnIsMasked(d: Detectors, g: Grid, width: nat, i: nat, j: nat)
    requires 0 < i < |g| && j < |g[i]| && j < width && ShouldTruncateHeader(HeaderAt(g, j))
    ensures !g[i][j].None? && !IsBlank(Shown(g[i][j])) ==> MaskedSheet(d, g, width)[i][j] == Str(MaskMarker)
    ensures g[i][j].None? || IsBlank(Shown(g[i][j])) ==>
              MaskedSheet(d, g, width)[i][j] == g[i][j] || MaskedSheet(d, g, width)[i][j] == Truncate(g[i][j])
    ensures MaskedSheet(d, g, width)[i][j].Str? ==> |MaskedSheet(d, g, width)[i][j].s| <= MaxTextLength
  {
    TruncateImpliesMask(HeaderAt(g, j));
  }
}
