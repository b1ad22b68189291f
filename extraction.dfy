/** Row extraction of the PDF export: from the decoded sheet and the two column
    names typed by the user, the ordered list of label/value pairs to encode. */
module RowExtraction {

  /** One row of the first sheet, as the spreadsheet decoder delivers it. */
  type Row = seq<string>

  /** One QR code to generate (the source's `{label, value}`; `label` is a keyword here). */
  datatype QRData = QRData(caption: string, value: string)

  /** What extraction yields: one of its two early returns, or the list. */
  datatype Extraction =
    | TooFewRows                    // fewer than a header row plus one data row
    | ColumnNotFound                // a column name matches no header cell
    | Extracted(list: seq<QRData>)

  /** The first position in the header row that holds `name`, or -1 (indexOf). */
  function IndexOf(headers: Row, name: string): (r: int)
    ensures -1 <= r < |headers|
    ensures r == -1 <==> name !in headers
    ensures 0 <= r ==> headers[r] == name && forall j :: 0 <= j < r ==> headers[j] != name
  {
    if |headers| == 0 then -1
    else if headers[0] == name then 0
    else
      var k := IndexOf(headers[1..], name);
      if k == -1 then -1 else k + 1
  }

  /** `row[i] || ""`: a cell past the end of a short row reads as empty. */
  function Cell(row: Row, i: nat): (s: string)
    ensures s == "" <==> i >= |row| || row[i] == ""
    ensures s != "" ==> i < |row| && s == row[i]
  {
    if i < |row| then row[i] else ""
  }

  /** The pair read from one data row: each field is the row's cell in its column, or ""
      when the row is too short to have that column. */
  function ToEntry(row: Row, labelIndex: nat, qrIndex: nat): (e: QRData)
    ensures labelIndex < |row| ==> e.caption == row[labelIndex]
    ensures labelIndex >= |row| ==> e.caption == ""
    ensures qrIndex < |row| ==> e.value == row[qrIndex]
    ensures qrIndex >= |row| ==> e.value == ""
  {
    QRData(Cell(row, labelIndex), Cell(row, qrIndex))
  }

  /** The `map` over the data rows: one pair per row, in row order. */
  function MapRows(rows: seq<Row>, labelIndex: nat, qrIndex: nat): (entries: seq<QRData>)
    ensures |entries| == |rows|
    ensures forall k :: 0 <= k < |rows| ==>
              (entries[k].value == "" <==> qrIndex >= |rows[k]| || rows[k][qrIndex] == "")
  {
    seq(|rows|, k requires 0 <= k < |rows| => ToEntry(rows[k], labelIndex, qrIndex))
  }

  /** The `filter` that drops pairs whose value is empty: it keeps every pair with a
      value, and only those. */
  function KeepNonEmpty(entries: seq<QRData>): (kept: seq<QRData>)
    ensures |kept| <= |entries|
    ensures forall e :: e in kept ==> e in entries && e.value != ""
    ensures forall e :: e in entries && e.value != "" ==> e in kept
  {
    if entries == [] then []
    else (if entries[0].value != "" then [entries[0]] else []) + KeepNonEmpty(entries[1..])
  }

  /** The whole extraction step of the export, with both early returns. */
  function Extract(fileData: seq<Row>, labelField: string, qrField: string): (r: Extraction)
    ensures r == TooFewRows <==> |fileData| < 2
    ensures r == ColumnNotFound <==>
              |fileData| >= 2 && (labelField !in fileData[0] || qrField !in fileData[0])
    ensures r.Extracted? ==> forall e :: e in r.list ==> e.value != ""
  {
    if |fileData| < 2 then TooFewRows
    else
      var headers := fileData[0];
      var labelIndex := IndexOf(headers, labelField);
      var qrIndex := IndexOf(headers, qrField);
      if labelIndex == -1 || qrIndex == -1 then ColumnNotFound
      else
        Extracted(KeepNonEmpty(MapRows(fileData[1..], labelIndex, qrIndex)))
  }

  // ---------------------------------------------------------------------------
  // Reference descriptions of the filter

  /** The positions, from `start` on, of the pairs whose value is not empty, in order. */
  function Kept(entries: seq<QRData>, start: nat): seq<nat>
    decreases |entries| - start
  {
    if start >= |entries| then []
    else (if entries[start].value != "" then [start] else []) + Kept(entries, start + 1)
  }

  /** The number of pairs whose value is empty. */
  function CountEmpty(entries: seq<QRData>): nat {
    if entries == [] then 0
    else (if entries[0].value == "" then 1 else 0) + CountEmpty(entries[1..])
  }

  /** The number of data rows whose cell in column `qrIndex` resolves to "". */
  function EmptyValueRows(rows: seq<Row>, qrIndex: nat): nat {
    if rows == [] then 0
    else (if Cell(rows[0], qrIndex) == "" then 1 else 0) + EmptyValueRows(rows[1..], qrIndex)
  }

  /** The kept positions from `start` on lie in start..|entries| - 1, strictly increasing. */
  lemma {:induction false} KeptPositions(entries: seq<QRData>, start: nat)
    requires start <= |entries|
    ensures forall j :: 0 <= j < |Kept(entries, start)| ==> start <= Kept(entries, start)[j] < |entries|
    ensures forall i, j :: 0 <= i < j < |Kept(entries, start)| ==> Kept(entries, start)[i] < Kept(entries, start)[j]
    decreases |entries| - start
  {
    if start < |entries| {
      KeptPositions(entries, start + 1);
    }
  }

  /** A position from `start` on is kept exactly when its value is not empty. */
  lemma {:induction false} KeptExactly(entries: seq<QRData>, start: nat)
    requires start <= |entries|
    ensures forall k :: start <= k < |entries| ==> (entries[k].value != "" <==> k in Kept(entries, start))
    decreases |entries| - start
  {
    if start < |entries| {
      KeptExactly(entries, start + 1);
      KeptPositions(entries, start + 1);
      var head: seq<nat> := if entries[start].value != "" then [start] else [];
      var rest := Kept(entries, start + 1);
      assert Kept(entries, start) == head + rest;
      forall k | start <= k < |entries|
        ensures entries[k].value != "" <==> k in head + rest
      {
        if k == start {
          assert k !in rest;
        } else {
          assert k !in head;
          assert entries[k].value != "" <==> k in rest;
        }
      }
    }
  }

  /** The filter keeps as many pairs from entries[start..] as there are kept positions. */
  lemma {:induction false} KeptCount(entries: seq<QRData>, start: nat)
    requires start <= |entries|
    ensures |KeepNonEmpty(entries[start..])| == |Kept(entries, start)|
    decreases |entries| - start
  {
    if start < |entries| {
      KeptCount(entries, start + 1);
      assert entries[start..][1..] == entries[start + 1..];
    }
  }

  /** The filter's output on entries[start..] is the input read at the kept positions. */
  lemma {:induction false} KeptPicks(entries: seq<QRData>, start: nat)
    requires start <= |entries|
    ensures |KeepNonEmpty(entries[start..])| == |Kept(entries, start)|
    ensures forall j :: 0 <= j < |Kept(entries, start)| ==>
              Kept(entries, start)[j] < |entries| && KeepNonEmpty(entries[start..])[j] == entries[Kept(entries, start)[j]]
    decreases |entries| - start
  {
    KeptCount(entries, start);
    if start < |entries| {
      KeptPicks(entries, start + 1);
      assert entries[start..][1..] == entries[start + 1..];
      var first: seq<QRData> := if entries[start].value != "" then [entries[start]] else [];
      var head: seq<nat> := if entries[start].value != "" then [start] else [];
      var out := KeepNonEmpty(entries[start + 1..]);
      var rest := Kept(entries, start + 1);
      assert KeepNonEmpty(entries[start..]) == first + out;
      assert Kept(entries, start) == head + rest;
      forall j | 0 <= j < |head| + |rest|
        ensures (head + rest)[j] < |entries| && (first + out)[j] == entries[(head + rest)[j]]
      {
        if j >= |head| {
          assert (head + rest)[j] == rest[j - |head|];
          assert (first + out)[j] == out[j - |head|];
        }
      }
    }
  }

  /** The filter keeps exactly the pairs with a non-empty value, in their original order:
      the output is the input read at the strictly increasing positions `Kept`, and a
      position is among them exactly when its value is not empty. */
  lemma KeepNonEmptySelects(entries: seq<QRData>)
    ensures var out, kept := KeepNonEmpty(entries), Kept(entries, 0);
      && |out| == |kept|
      && (forall j :: 0 <= j < |kept| ==> kept[j] < |entries| && out[j] == entries[kept[j]])
      && (forall i, j :: 0 <= i < j < |kept| ==> kept[i] < kept[j])
      && (forall k :: 0 <= k < |entries| ==> (entries[k].value != "" <==> k in kept))
  {
    assert entries[0..] == entries;
    KeptPicks(entries, 0);
    KeptPositions(entries, 0);
    KeptExactly(entries, 0);
  }

  /** The filter drops exactly the pairs with an empty value. */
  lemma {:induction false} KeepNonEmptyLength(entries: seq<QRData>)
    ensures |KeepNonEmpty(entries)| == |entries| - CountEmpty(entries)
  {
    if entries != [] {
      KeepNonEmptyLength(entries[1..]);
    }
  }

  /** Mapping rows to pairs neither reorders nor changes which values are empty. */
  lemma {:induction false} MapRowsCountEmpty(rows: seq<Row>, labelIndex: nat, qrIndex: nat)
    ensures CountEmpty(MapRows(rows, labelIndex, qrIndex)) == EmptyValueRows(rows, qrIndex)
  {
    if rows != [] {
      assert MapRows(rows, labelIndex, qrIndex)[1..] == MapRows(rows[1..], labelIndex, qrIndex);
      MapRowsCountEmpty(rows[1..], labelIndex, qrIndex);
    }
  }

  /** When both columns exist, the list holds exactly the data rows (the header excluded)
      whose value cell resolves to a non-empty string, in their order, each read from the
      first header cell matching each name, a missing cell reading as ""; its length is the
      number of data rows less those with an empty value. */
  lemma ExtractSelectsRows(fileData: seq<Row>, labelField: string, qrField: string,
                           labelIndex: nat, qrIndex: nat)
    requires |fileData| >= 2
    requires labelIndex < |fileData[0]| && fileData[0][labelIndex] == labelField
    requires forall j :: 0 <= j < labelIndex ==> fileData[0][j] != labelField
    requires qrIndex < |fileData[0]| && fileData[0][qrIndex] == qrField
    requires forall j :: 0 <= j < qrIndex ==> fileData[0][j] != qrField
    ensures Extract(fileData, labelField, qrField).Extracted?
    ensures var list, kept := Extract(fileData, labelField, qrField).list,
                              Kept(MapRows(fileData[1..], labelIndex, qrIndex), 0);
      && |list| == |kept|
      && (forall j :: 0 <= j < |kept| ==>
            kept[j] < |fileData| - 1 && list[j] == ToEntry(fileData[1 + kept[j]], labelIndex, qrIndex))
      && (forall i, j :: 0 <= i < j < |kept| ==> kept[i] < kept[j])
      && (forall k :: 0 <= k < |fileData| - 1 ==> (Cell(fileData[1 + k], qrIndex) != "" <==> k in kept))
      && |list| == |fileData| - 1 - EmptyValueRows(fileData[1..], qrIndex)
  {
    var headers := fileData[0];
    FirstMatchIsIndexOf(headers, labelField, labelIndex);
    FirstMatchIsIndexOf(headers, qrField, qrIndex);
    var entries := MapRows(fileData[1..], labelIndex, qrIndex);
    KeepNonEmptySelects(entries);
    KeepNonEmptyLength(entries);
    MapRowsCountEmpty(fileData[1..], labelIndex, qrIndex);
  }

  /** A position holding the name with no earlier occurrence is what indexOf returns. */
  lemma FirstMatchIsIndexOf(headers: Row, name: string, i: nat)
    requires i < |headers| && headers[i] == name
    requires forall j :: 0 <= j < i ==> headers[j] != name
    ensures IndexOf(headers, name) == i
  {
  }

  /** The example of a four-row sheet: the row with an empty code is dropped. */
  lemma ExtractExample()
    ensures Extract([["Name", "Code"], ["A", "123"], ["B", ""], ["C", "456"]], "Name", "Code")
         == Extracted([QRData("A", "123"), QRData("C", "456")])
  {
    var sheet := [["Name", "Code"], ["A", "123"], ["B", ""], ["C", "456"]];
    FirstMatchIsIndexOf(sheet[0], "Name", 0);
    FirstMatchIsIndexOf(sheet[0], "Code", 1);
    var entries := [QRData("A", "123"), QRData("B", ""), QRData("C", "456")];
    assert MapRows(sheet[1..], 0, 1) == entries by {
      assert sheet[1..] == [["A", "123"], ["B", ""], ["C", "456"]];
    }
    assert KeepNonEmpty(entries) == [QRData("A", "123"), QRData("C", "456")] by {
      assert entries[1..] == [QRData("B", ""), QRData("C", "456")];
      assert entries[1..][1..] == [QRData("C", "456")];
      assert entries[1..][1..][1..] == [];
    }
  }
}
