/** The uploader component's export action: its state (the decoded sheet, the two column
    names and the list of QR codes shown on screen) and the action that extracts the list,
    replaces the list shown, and lays the glyphs out into a PDF. */
module Uploader {
  import opened RowExtraction
  import opened GridLayout

  datatype Option<T> = None | Some(value: T)

  /** Whether each entry's glyph renders, when `renders(v)` says whether the QR encoder
      accepts the payload v: one answer per entry, depending on its payload alone, so two
      entries with the same payload both render or both fail. */
  function GlyphResults(qrList: seq<QRData>, renders: string -> bool): (ok: seq<bool>)
    ensures |ok| == |qrList|
    ensures forall i :: 0 <= i < |qrList| ==> ok[i] == renders(qrList[i].value)
    ensures forall i, j :: 0 <= i < |qrList| && 0 <= j < |qrList| && qrList[i].value == qrList[j].value ==>
              ok[i] == ok[j]
  {
    seq(|qrList|, i requires 0 <= i < |qrList| => renders(qrList[i].value))
  }

  class ExcelQRCodeUploader {
    /** The first sheet as rows of strings, as decoded on upload. */
    var fileData: seq<Row>
    /** The column name typed for the captions. */
    var labelField: string
    /** The column name typed for the payloads. */
    var qrField: string
    /** The list of QR codes shown on screen. */
    var qrData: seq<QRData>

    /** The component's initial state: nothing uploaded, nothing typed, nothing shown. */
    constructor ()
      ensures fileData == [] && labelField == "" && qrField == "" && qrData == []
    {
      fileData := [];
      labelField := "";
      qrField := "";
      qrData := [];
    }

    /** The export action. With fewer than two rows, or a column name that no header cell
        holds, it returns before touching anything. Otherwise it replaces the list shown by
        the extracted list; it creates a PDF only when that list is not empty. The PDF
        draws exactly the entries whose glyph renders, in order, without overlap. */
    method ExportToPdf(renders: string -> bool, pageHeight: real) returns (saved: Option<Document>)
      modifies this`qrData
      ensures match Extract(fileData, labelField, qrField)
        case Extracted(list) =>
          && qrData == list
          && (saved.Some? <==> list != [])
          && (saved.Some? ==>
                var glyphOk := GlyphResults(list, renders);
                var final := LayoutPrefix(list, glyphOk, pageHeight, |list|);
                && saved.value == Document(final.cursor.page + 1, final.placed)
                && Drawn(saved.value.placements) == Successful(list, glyphOk)
                && NoOverlap(saved.value.placements))
        case _ => qrData == old(qrData) && saved == None
    {
      var extraction := Extract(fileData, labelField, qrField);
      if !extraction.Extracted? {
        return None;
      }
      var qrList := extraction.list;
      qrData := qrList;
      if |qrList| == 0 {
        return None;
      }
      var doc := RenderGrid(qrList, GlyphResults(qrList, renders), pageHeight);
      return Some(doc);
    }
  }

  /** A mistyped column name after a successful export: the first export, of a sheet with
      at least one code, saves the document of the codes whose glyph renders and shows the
      codes; after the QR column name is changed to one that no header cell holds, the
      second export returns early, saves nothing, and the codes already shown stay on
      screen. */
  method MistypedColumnKeepsResults(sheet: seq<Row>, labelField: string, qrField: string,
                                    mistyped: string, renders: string -> bool, pageHeight: real)
    returns (first: Option<Document>, second: Option<Document>, shown: seq<QRData>)
    requires Extract(sheet, labelField, qrField).Extracted?
    requires Extract(sheet, labelField, qrField).list != []
    requires mistyped !in sheet[0]
    ensures var list := Extract(sheet, labelField, qrField).list;
      && first.Some?
      && Drawn(first.value.placements) == Successful(list, GlyphResults(list, renders))
    ensures second == None
    ensures shown == Extract(sheet, labelField, qrField).list
  {
    var u := new ExcelQRCodeUploader();
    u.fileData := sheet;
    u.labelField, u.qrField := labelField, qrField;
    first := u.ExportToPdf(renders, pageHeight);
    u.qrField := mistyped;
    second := u.ExportToPdf(renders, pageHeight);
    shown := u.qrData;
  }
}
