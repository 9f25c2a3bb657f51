// process_csv: read the file with the first encoding that works, mask every
// data row by the column policy of the header row, and write the rows back
// in the encoding they were read with.
module CsvAdapter {
  import opened Wrappers
  import opened PyText
  import opened MaskSettings
  import opened Detection
  import opened HeaderPolicy
  import opened CellRedactor

  /** The encodings the file is tried with. */
  datatype Encoding = Utf8Sig | Cp932 | ShiftJis | Utf8

  /** The order in which they are tried. */
  const Encodings: seq<Encoding> := [Utf8Sig, Cp932, ShiftJis, Utf8]

  type Row = seq<string>
  type Table = seq<Row>

  /** What is written: the masked rows, in the encoding that read the file. */
  datatype Output = Output(encoding: Encoding, rows: Table)

  /** The ValueError raised when no rows could be read. */
  datatype CsvError = ReadFailed

  /** The first of `encs` with which the file reads, with the rows read. The
      reader is `read`: `None` where opening or decoding raises. */
  function FirstRead(read: Encoding -> Option<Table>, encs: seq<Encoding>): Option<(Encoding, Table)>
    decreases |encs|
  {
    if |encs| == 0 then Option.None
    else if read(encs[0]).Some? then Some((encs[0], read(encs[0]).value))
    else FirstRead(read, encs[1..])
  }

  /** Column `i` of the header names personal data. */
  predicate MaskColumn(header: Row, i: nat) {
    i < |header| && ShouldMaskHeader(Str(header[i]))
  }

  /** Column `i` of the header is a free-text column to shorten. */
  predicate TruncateColumn(header: Row, i: nat) {
    i < |header| && ShouldTruncateHeader(Str(header[i]))
  }

  /** One data cell: a masked column becomes the marker unless blank, any
      other column goes through mask_by_ner; a truncate column is then cut. */
  function CsvCell(d: Detectors, masked: bool, truncated: bool, val: string): (r: string)
    ensures masked && !IsBlank(val) ==> r == MaskMarker
    ensures masked && IsBlank(val) ==> IsBlank(r) && r <= val
    ensures masked && !truncated && IsBlank(val) ==> r == val
    ensures !masked && !truncated ==> r == NerMasked(d, Str(val)).s
    ensures truncated ==> |r| <= MaxTextLength
  {
    StripEmptyIffBlank(val);
    var v := if masked then (if Strip(val) != "" then MaskMarker else val) else NerMasked(d, Str(val)).s;
    if truncated then Truncate(Str(v)).s else v
  }

  /** A data row masked by the column sets of the header, cell by cell;
      what each cell becomes is stated by MaskRowByPolicy below. */
  function MaskRow(d: Detectors, maskedCols: set<nat>, truncateCols: set<nat>, row: Row): Row
  {
    seq(|row|, i requires 0 <= i < |row| => CsvCell(d, i in maskedCols, i in truncateCols, row[i]))
  }

  /** Each cell of a masked row by the policy of its column: a non-blank cell
      of a mask column becomes the marker, a blank one stays blank (and is
      kept as it is outside truncate columns), a cell of any other column
      goes through mask_by_ner, and a truncate column is never longer than
      MAX_TEXT_LENGTH. */
  lemma MaskRowByPolicy(d: Detectors, maskedCols: set<nat>, truncateCols: set<nat>, row: Row, i: nat)
    requires i < |row|
    ensures i in maskedCols && !IsBlank(row[i]) ==> MaskRow(d, maskedCols, truncateCols, row)[i] == MaskMarker
    ensures i in maskedCols && IsBlank(row[i]) ==>
      IsBlank(MaskRow(d, maskedCols, truncateCols, row)[i]) && MaskRow(d, maskedCols, truncateCols, row)[i] <= row[i]
    ensures i in maskedCols && i !in truncateCols && IsBlank(row[i]) ==> MaskRow(d, maskedCols, truncateCols, row)[i] == row[i]
    ensures i !in maskedCols && i !in truncateCols ==> MaskRow(d, maskedCols, truncateCols, row)[i] == NerMasked(d, Str(row[i])).s
    ensures i in truncateCols ==> |MaskRow(d, maskedCols, truncateCols, row)[i]| <= MaxTextLength
  {
  }

  /** The header row as it is, then every data row masked; the table keeps
      its shape. */
  function MaskRows(d: Detectors, rows: Table): (r: Table)
    requires |rows| > 0
    ensures |r| == |rows| && r[0] == rows[0]
    ensures forall k :: 0 < k < |rows| ==> r[k] == MaskRow(d, MaskedCols(rows[0]), TruncatedCols(rows[0]), rows[k])
    ensures forall k :: 0 <= k < |rows| ==> |r[k]| == |rows[k]|
  {
    [rows[0]] + seq(|rows| - 1, k requires 0 <= k < |rows| - 1 => MaskRow(d, MaskedCols(rows[0]), TruncatedCols(rows[0]), rows[k + 1]))
  }

  /** What process_csv writes, or the error it raises when no rows were read. */
  function ProcessCsvSpec(d: Detectors, read: Encoding -> Option<Table>): Result<Output, CsvError> {
    match FirstRead(read, Encodings)
    case None => Err(ReadFailed)
    case Some((enc, rows)) => if |rows| == 0 then Err(ReadFailed) else Ok(Output(enc, MaskRows(d, rows)))
  }

  /** The columns whose header names personal data (`masked_cols`). */
  function MaskedCols(header: Row): (cols: set<nat>)
    ensures forall i: nat :: i in cols <==> MaskColumn(header, i)
  {
    set i: nat | i < |header| && ShouldMaskHeader(Str(header[i]))
  }

  /** The free-text columns (`truncate_cols`). */
  function TruncatedCols(header: Row): (cols: set<nat>)
    ensures forall i: nat :: i in cols <==> TruncateColumn(header, i)
  {
    set i: nat | i < |header| && ShouldTruncateHeader(Str(header[i]))
  }

  /** The encoding loop of process_csv: each encoding in turn, stopping at
      the first that reads. */
  method ReadWithFallback(read: Encoding -> Option<Table>) returns (found: Option<(Encoding, Table)>)
    ensures found == FirstRead(read, Encodings)
  {
    found := Option.None;
    var k := 0;
    while k < |Encodings|
      invariant 0 <= k <= |Encodings|
      invariant FirstRead(read, Encodings) == FirstRead(read, Encodings[k..])
    {
      var attempt := read(Encodings[k]);
      if attempt.Some? {
        found := Some((Encodings[k], attempt.value));
        break;
      }
      assert Encodings[k..][1..] == Encodings[k + 1..];
      k := k + 1;
    }
  }

  /** The body of the cell loop of process_csv. */
  method MaskCsvCell(d: Detectors, masked: bool, truncated: bool, val: string) returns (v: string)
    ensures v == CsvCell(d, masked, truncated, val)
  {
    if masked {
      v := if Strip(val) != "" then MaskMarker else val;
    } else {
      var nv := MaskByNer(d, Str(val));
      v := nv.s;
    }
    if truncated {
      v := Truncate(Str(v)).s;
    }
  }

  /** The cell loop of process_csv for one data row. */
  method MaskDataRow(d: Detectors, maskedCols: set<nat>, truncateCols: set<nat>, row: Row)
    returns (newRow: Row)
    ensures newRow == MaskRow(d, maskedCols, truncateCols, row)
  {
    newRow := [];
    var i := 0;
    while i < |row|
      invariant 0 <= i <= |row| && |newRow| == i
      invariant CellsDone(d, maskedCols, truncateCols, row, newRow)
    {
      var v := MaskCsvCell(d, i in maskedCols, i in truncateCols, row[i]);
      AppendCell(d, maskedCols, truncateCols, row, newRow, v);
      newRow := newRow + [v];
      i := i + 1;
    }
    CellsMakeRow(d, maskedCols, truncateCols, row, newRow);
  }

  /** The first |cells| cells of `row`, masked. */
  ghost predicate CellsDone(d: Detectors, maskedCols: set<nat>, truncateCols: set<nat>, row: Row, cells: Row) {
    |cells| <= |row| &&
    forall j :: 0 <= j < |cells| ==> cells[j] == CsvCell(d, j in maskedCols, j in truncateCols, row[j])
  }

  /** One more masked cell extends the masked prefix. */
  lemma AppendCell(d: Detectors, maskedCols: set<nat>, truncateCols: set<nat>, row: Row, cells: Row, v: string)
    requires CellsDone(d, maskedCols, truncateCols, row, cells) && |cells| < |row|
    requires v == CsvCell(d, |cells| in maskedCols, |cells| in truncateCols, row[|cells|])
    ensures CellsDone(d, maskedCols, truncateCols, row, cells + [v])
  {
  }

  /** A row whose every cell is the masked cell is the masked row. */
  lemma CellsMakeRow(d: Detectors, maskedCols: set<nat>, truncateCols: set<nat>, row: Row, cells: Row)
    requires CellsDone(d, maskedCols, truncateCols, row, cells) && |cells| == |row|
    ensures cells == MaskRow(d, maskedCols, truncateCols, row)
  {
  }

  /** process_csv: read with the encoding fallback, fail on no rows, keep the
      header row and mask every data row. */
  method ProcessCsv(d: Detectors, read: Encoding -> Option<Table>) returns (r: Result<Output, CsvError>)
    ensures r == ProcessCsvSpec(d, read)
  {
    var found := ReadWithFallback(read);
    if found.None? || |found.value.1| == 0 {
      return Err(ReadFailed);
    }
    var used := found.value.0;
    var rows := found.value.1;
    var header := rows[0];
    var maskedCols := MaskedCols(header);
    var truncateCols := TruncatedCols(header);
    var result := MaskDataRows(d, maskedCols, truncateCols, rows);
    RowsMakeTable(d, rows, result);
    return Ok(Output(used, result));
  }

  /** The row loop of process_csv: the header row kept, every data row
      masked by the given column sets. */
  method MaskDataRows(d: Detectors, maskedCols: set<nat>, truncateCols: set<nat>, rows: Table)
    returns (result: Table)
    requires |rows| > 0
    ensures |result| == |rows| && result[0] == rows[0]
    ensures forall j :: 1 <= j < |rows| ==> result[j] == MaskRow(d, maskedCols, truncateCols, rows[j])
  {
    result := [rows[0]];
    var idx := 1;
    while idx < |rows|
      invariant 1 <= idx <= |rows|
      invariant |result| == idx && result[0] == rows[0]
      invariant forall j :: 1 <= j < idx ==> result[j] == MaskRow(d, maskedCols, truncateCols, rows[j])
    {
      var newRow := MaskDataRow(d, maskedCols, truncateCols, rows[idx]);
      result := result + [newRow];
      idx := idx + 1;
    }
  }

  /** The header row followed by every data row masked is the masked table. */
  lemma RowsMakeTable(d: Detectors, rows: Table, result: Table)
    requires |rows| > 0 && |result| == |rows| && result[0] == rows[0]
    requires forall j :: 1 <= j < |rows| ==>
      result[j] == MaskRow(d, MaskedCols(rows[0]), TruncatedCols(rows[0]), rows[j])
    ensures result == MaskRows(d, rows)
  {
  }

  // ---------------------------------------------------------------------
  // Properties

  /** The fallback picks the first encoding that reads, and fails only when
      none does. */
  lemma {:induction false} FirstReadIsFirst(read: Encoding -> Option<Table>, encs: seq<Encoding>)
    ensures FirstRead(read, encs).None? <==> forall i :: 0 <= i < |encs| ==> read(encs[i]).None?
    ensures FirstRead(read, encs).Some? ==>
      exists i :: 0 <= i < |encs| && encs[i] == FirstRead(read, encs).value.0
        && read(encs[i]) == Some(FirstRead(read, encs).value.1)
        && forall j :: 0 <= j < i ==> read(encs[j]).None?
    decreases |encs|
  {
    if |encs| > 0 && read(encs[0]).None? {
      FirstReadIsFirst(read, encs[1..]);
      if FirstRead(read, encs).Some? {
        var i :| 0 <= i < |encs[1..]| && encs[1..][i] == FirstRead(read, encs).value.0
          && read(encs[1..][i]) == Some(FirstRead(read, encs).value.1)
          && forall j :: 0 <= j < i ==> read(encs[1..][j]).None?;
        assert encs[i + 1] == encs[1..][i];
        forall j | 0 <= j < i + 1 ensures read(encs[j]).None? {
          if j > 0 {
            assert encs[j] == encs[1..][j - 1];
          }
        }
      }
    } else if |encs| > 0 {
      assert encs[0] == FirstRead(read, encs).value.0;
    }
  }

  /** process_csv succeeds exactly when some encoding reads the file and the
      first one that does yields at least one row; the output is then written
      in that encoding. */
  lemma ProcessCsvEncoding(d: Detectors, read: Encoding -> Option<Table>)
    ensures ProcessCsvSpec(d, read).Ok? <==>
      exists i :: 0 <= i < |Encodings| && (forall j :: 0 <= j < i ==> read(Encodings[j]).None?)
        && read(Encodings[i]).Some? && |read(Encodings[i]).value| > 0
    ensures ProcessCsvSpec(d, read).Ok? ==>
      exists i :: 0 <= i < |Encodings| && (forall j :: 0 <= j < i ==> read(Encodings[j]).None?)
        && ProcessCsvSpec(d, read).value.encoding == Encodings[i]
        && read(Encodings[i]).Some? && |read(Encodings[i]).value| > 0
        && ProcessCsvSpec(d, read).value.rows == MaskRows(d, read(Encodings[i]).value)
  {
    FirstReadIsFirst(read, Encodings);
    var first := FirstRead(read, Encodings);
    forall i | 0 <= i < |Encodings| && (forall j :: 0 <= j < i ==> read(Encodings[j]).None?)
        && read(Encodings[i]).Some?
      ensures first == Some((Encodings[i], read(Encodings[i]).value))
    {
      var k :| 0 <= k < |Encodings| && Encodings[k] == first.value.0
        && read(Encodings[k]) == Some(first.value.1)
        && forall j :: 0 <= j < k ==> read(Encodings[j]).None?;
      assert k == i;
    }
  }

  /** In a column whose header names personal data, every non-blank data cell
      becomes the marker and every blank one stays blank. */
  lemma MaskedColumnsHideValues(d: Detectors, rows: Table, k: nat, i: nat)
    requires 0 < k < |rows| && i < |rows[k]| && MaskColumn(rows[0], i)
    ensures !IsBlank(rows[k][i]) ==> MaskRows(d, rows)[k][i] == MaskMarker
    ensures IsBlank(rows[k][i]) ==> IsBlank(MaskRows(d, rows)[k][i])
    ensures !TruncateColumn(rows[0], i) && IsBlank(rows[k][i]) ==> MaskRows(d, rows)[k][i] == rows[k][i]
  {
  }

  /** A cell beyond the end of the header row has no column policy: it goes
      through mask_by_ner and is never cut. */
  lemma CellsBeyondHeaderUseEntities(d: Detectors, rows: Table, k: nat, i: nat)
    requires 0 < k < |rows| && |rows[0]| <= i < |rows[k]|
    ensures MaskRows(d, rows)[k][i] == NerMasked(d, Str(rows[k][i])).s
  {
  }

  /** Every truncate column is also a mask column. */
  lemma TruncatedColsAreMasked(header: Row)
    ensures TruncatedCols(header) <= MaskedCols(header)
  {
    forall i: nat | i in TruncatedCols(header) ensures i in MaskedCols(header) {
      TruncateImpliesMask(Str(header[i]));
    }
  }

  /** Every truncate keyword is also a mask keyword, so a memo column is
      masked whole: its data cells come out as the marker or blank, and at
      most MAX_TEXT_LENGTH characters long. */
  lemma MemoColumnsAreMasked(d: Detectors, rows: Table, k: nat, i: nat)
    requires 0 < k < |rows| && i < |rows[k]| && TruncateColumn(rows[0], i)
    ensures MaskRows(d, rows)[k][i] == MaskMarker || IsBlank(MaskRows(d, rows)[k][i])
    ensures |MaskRows(d, rows)[k][i]| <= MaxTextLength
  {
    TruncateImpliesMask(Str(rows[0][i]));
  }
}
