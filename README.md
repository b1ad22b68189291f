# QR code sheet exporter: extraction and grid layout

This project models the export action of the `ExcelQRCodeUploader` component of a small
browser tool. The user uploads a spreadsheet and types two column names, one for captions
and one for QR payloads. The action `exportToPDF` does three things:

1. **Row extraction** (`extraction.dfy`, module `RowExtraction`). Pure functions over the
   sheet, a `seq<seq<string>>`. Nothing happens with fewer than two rows. Each column is
   found by its first matching header cell (`indexOf`), and the action stops if either
   column is missing. A cell past the end of a short row reads as `""`. Rows whose value
   is empty are dropped. The order of the rows is kept.
2. **Grid and pagination layout** (`layout.dfy`, module `GridLayout`). The source's
   `for` loop becomes the method `RenderGrid`, which mutates the cursor `x`, `y`,
   `rowCount` and a page counter. It is proved against `LayoutPrefix`, a left fold of the
   one-iteration function `Step`. Rules the model follows:
   - Glyphs are 30 units wide. They sit 36 units apart along a row, starting at (18, 20).
   - A row wraps after the fifth glyph, or after the entry at the last index of the list.
   - A new page starts once y exceeds `pageHeight - 6 - 30`. The cursor then moves to
     (6, 6).
   - An entry whose glyph fails to render is skipped by `continue`. It draws nothing and
     moves nothing.
   - Each caption is centred at (x + 15, y + 29.5).
3. **Component state** (`uploader.dfy`, module `Uploader`). The class
   `ExcelQRCodeUploader` holds the component's state: `fileData`, `labelField`, `qrField`
   and `qrData`. Its method `ExportToPdf`:
   - leaves `qrData` alone on the two early returns;
   - otherwise replaces `qrData` with the extracted list;
   - makes a document only when that list is non-empty.

The PDF library is represented by what it is asked to draw. That is a sequence of
`Placement` records: page, glyph position, caption position, caption and payload. The
library also contributes the page count, which starts at one page. Whether a glyph renders
is an input. It is a `seq<bool>` per entry for `RenderGrid`, and a predicate on the
payload for `ExportToPdf`. The page height is a `real` parameter.

The model keeps these details of the code, although a plainer grid design would differ:
- On a page break the cursor goes to (margin, margin) = (6, 6), not to the first page's
  origin (18, 20). The row wrap after that returns x to 18, so:
  - the first row of every later page starts at x = 6;
  - every other row starts at x = 18.
- The trailing wrap is tied to the last index of the list, not to the last successful
  glyph. When the last entry's glyph fails, no wrap happens.
- The trailing wrap can push y past the limit. The saved document then ends with an empty
  page (`TrailingBlankPage`).
- A missing column aborts with one condition. Nothing says which of the two names was
  missing.

## Model

| member | source | states |
|---|---|---|
| `RowExtraction.IndexOf` | src/ExcelQRCodeUploader.tsx:52-54 | The result is -1 exactly when the name is not in the header row. Otherwise it is a position holding the name with no earlier occurrence, i.e. the first match. |
| `RowExtraction.FirstMatchIsIndexOf` | src/ExcelQRCodeUploader.tsx:53-54 | A position holding the name, with no earlier occurrence, is the one the lookup returns. |
| `RowExtraction.Cell` | src/ExcelQRCodeUploader.tsx:62-63 | A cell read with an empty fallback is empty exactly when the row is too short or its cell is ""; a non-empty result is the row's own cell. |
| `RowExtraction.ToEntry` | src/ExcelQRCodeUploader.tsx:61-63 | The pair's caption is the row's cell in the label column, and its value the cell in the QR column; a column past the end of the row reads as "". |
| `RowExtraction.MapRows` | src/ExcelQRCodeUploader.tsx:61-63 | One pair per data row, in row order. A pair's value is empty exactly when its row is too short for the QR column or has "" there. |
| `RowExtraction.KeepNonEmpty` | src/ExcelQRCodeUploader.tsx:64 | The filter never grows the list. Every kept pair comes from the input and has a non-empty value, and every input pair with a non-empty value is kept. |
| `RowExtraction.Extract` | src/ExcelQRCodeUploader.tsx:47-64 | Fewer than two rows ⇔ the "too few rows" outcome. With two or more rows, either name missing from the header row ⇔ the "column not found" outcome. Every extracted value is non-empty. |
| `RowExtraction.KeepNonEmptySelects` | src/ExcelQRCodeUploader.tsx:64 | The filter's output reads the input at strictly increasing positions, in order. A position is among them exactly when its value is non-empty. |
| `RowExtraction.KeepNonEmptyLength` | src/ExcelQRCodeUploader.tsx:64 | The output length is the input length minus the number of empty values. |
| `RowExtraction.MapRowsCountEmpty` | src/ExcelQRCodeUploader.tsx:61-63 | Mapping rows to pairs leaves the number of empty values equal to the number of data rows whose value cell (reading a missing cell as "") is empty. |
| `RowExtraction.ExtractSelectsRows` | src/ExcelQRCodeUploader.tsx:52-64 | With both columns present, the list is exactly the data rows (header excluded) with a non-empty value cell, in original order. Each cell is read from the first matching column, a short row giving "". The length is the data-row count minus the rows whose value is empty. |
| `RowExtraction.ExtractExample` | src/ExcelQRCodeUploader.tsx:47-64 | The sheet [[Name, Code], [A, 123], [B, ""], [C, 456]] yields [{A, 123}, {C, 456}]. |
| `GridLayout.Place` | src/ExcelQRCodeUploader.tsx:94-100 | The glyph goes at the cursor on the current page and carries the entry's caption and payload. The caption is centred horizontally on the 30-wide glyph, with its baseline 0.5 above the glyph's bottom edge. |
| `GridLayout.Advance` | src/ExcelQRCodeUploader.tsx:107-121 | Either the page stays, or the cursor goes to (6, 6) with `rowCount` 0 on the next page. It keeps the cursor well formed. On the same page, the new cursor is a full pitch past the glyph in reading order. Away from the last index, the new cursor is on the slot after the glyph (`Follows`). At the last index the row always wraps, and the page breaks exactly when the wrapped y, y + 36, exceeds `pageHeight - 36`. |
| `GridLayout.Step` | src/ExcelQRCodeUploader.tsx:87-121 | One iteration appends exactly one placement when the glyph renders and nothing otherwise, keeping the earlier placements. The drawn entries grow by this entry exactly when it renders. A failed glyph leaves the whole state as it was. |
| `GridLayout.LayoutPrefix` | src/ExcelQRCodeUploader.tsx:81-122 | After k iterations, at most k glyphs are drawn, and the cursor is well formed: `rowCount` in 0..4 and x at its row's start plus 36 per glyph in the row. |
| `GridLayout.RenderGrid` | src/ExcelQRCodeUploader.tsx:73-122 | The loop draws exactly what the fold `LayoutPrefix` draws and has one page more than its final page index. It draws the entries whose glyph renders, in input order. Its placements never overlap on a page. Every caption is centred under its glyph, at x + 15 with baseline y + 29.5. An empty list gives one empty page. At the top of every iteration `rowCount` is in 0..4. |
| `GridLayout.StepInv` | src/ExcelQRCodeUploader.tsx:87-122 | One iteration, successful or skipped, keeps four things: the cursor's shape, every glyph behind the cursor, same-page glyphs in reading order a pitch apart, and x within 6..162. |
| `GridLayout.LayoutPrefixInvariant` | src/ExcelQRCodeUploader.tsx:81-122 | After any number of iterations: the cursor is well formed; pages never decrease; glyphs on one page are in reading order and at least 36 apart in x on a row or in y across rows, so none overlap; every glyph lies between x = 6 and x = 192. |
| `GridLayout.SuccessfulSnoc` | src/ExcelQRCodeUploader.tsx:90-105 | Extending the list by one entry extends the successful entries by that entry exactly when its glyph renders. |
| `GridLayout.LayoutDrawsSuccessful` | src/ExcelQRCodeUploader.tsx:90-105 | After k iterations the drawn entries are exactly the first k entries whose glyph renders, in order. A failed glyph emits nothing. |
| `GridLayout.CaptionsCentred` | src/ExcelQRCodeUploader.tsx:96-100 | After any number of iterations, every placement drawn has its caption at x + 15, centred under the 30-wide glyph, with its baseline at y + 29.5. |
| `GridLayout.CursorFollowsLast` | src/ExcelQRCodeUploader.tsx:81-121 | Before anything is drawn, the cursor is at (18, 20) on page 0. Until the last index has drawn a glyph, the cursor rests on the slot after the last glyph drawn. |
| `GridLayout.FirstGlyphAtStart` | src/ExcelQRCodeUploader.tsx:79-83 | The first glyph drawn, whichever entry it is, is at (18, 20) on page 0. |
| `GridLayout.LayoutSuccession` | src/ExcelQRCodeUploader.tsx:107-121 | Each later glyph is on the slot after the previous one, decided by that glyph's slot in its row. After slots 1 to 4 it goes 36 further right on the same row; after the fifth slot (x = its row's start + 144), to x = 18 one row lower. In either case, when that y exceeds `pageHeight - 36`, it goes to (6, 6) on the next page instead. |
| `GridLayout.FirstRowCursor` | src/ExcelQRCodeUploader.tsx:81-114 | On a page at least 56 high, before the last index and while fewer than five glyphs are drawn, the cursor is at x = 18 + 36·count, y = 20 on page 0, with `rowCount` equal to the count. |
| `GridLayout.FirstRowPositions` | src/ExcelQRCodeUploader.tsx:74-83 | On a page at least 56 high, the first five glyphs sit on page 0 at y = 20 and x = 18, 54, 90, 126, 162. |
| `GridLayout.GlyphsAboveBottomMargin` | src/ExcelQRCodeUploader.tsx:116-121 | On a page at least 56 high, the cursor never rests past the page-break line. Every glyph's bottom edge stays at least the margin (6) above the page's end. |
| `GridLayout.TrailingWrap` | src/ExcelQRCodeUploader.tsx:110-121 | If the last entry's glyph renders, the loop ends with `rowCount` 0: either at x = 18 one row lower on the same page, or at (6, 6) on the next page. The next page is taken exactly when the previous cursor's y + 36 exceeds `pageHeight - 36`. If it fails, the loop ends exactly where the previous entry left it, with no wrap. |
| `GridLayout.FiveInOneRow` | src/ExcelQRCodeUploader.tsx:74-114 | Five entries on a page 297 high: one row on page 0 at x = 18, 54, 90, 126, 162 and y = 20. The forced wrap leaves the cursor at (18, 56) on page 0. |
| `GridLayout.ThirdGlyphFails` | src/ExcelQRCodeUploader.tsx:90-108 | If the third of five glyphs fails, four entries are drawn, in order, in the first four slots of the row. |
| `GridLayout.TrailingBlankPage` | src/ExcelQRCodeUploader.tsx:110-121 | On a page 60 high, five rendered glyphs leave a trailing empty second page. If the fifth fails instead, the document keeps one page. |
| `Uploader.GlyphResults` | src/ExcelQRCodeUploader.tsx:91 | One answer per entry: whether the encoder accepts that entry's payload. Two entries with the same payload both render or both fail. |
| `Uploader.ExcelQRCodeUploader.constructor` | src/ExcelQRCodeUploader.tsx:15-19 | The state starts with no sheet, no column names typed and no codes shown. |
| `Uploader.ExcelQRCodeUploader.ExportToPdf` | src/ExcelQRCodeUploader.tsx:46-124 | Too few rows or a missing column: `qrData` is untouched and no document is made. Otherwise `qrData` becomes the extracted list. A document is made exactly when that list is non-empty. It draws what the layout fold draws, i.e. the entries whose glyph renders, in order and without overlap. |
| `Uploader.MistypedColumnKeepsResults` | src/ExcelQRCodeUploader.tsx:56-66 | For any sheet whose export yields at least one code: the first export saves a document drawing exactly the codes whose glyph renders. Changing the QR column to a name no header cell holds then makes the second export save nothing, and the codes from the first export stay on screen. |

## Left out

- File upload and spreadsheet decoding (`FileReader`, `XLSX.read`, `sheet_to_json`, and
  the reset after a decode error at src/ExcelQRCodeUploader.tsx:22-44) are library I/O.
  The decoded sheet is simply the field `fileData`, and it is assumed to hold strings only.
  A numeric cell that the decoder leaves as a number is not modelled.
- QR rasterisation (`QRCode.toCanvas`, `toDataURL`, lines 91-92 and 126-136) is a foreign
  library. It becomes a success/failure input; the image itself is represented by the
  payload it encodes.
- jsPDF's drawing calls are represented only by the placement records and the page count:
  `addImage`, `text` with centre alignment, `addPage`, `setFontSize(5)` (line 85) and
  `save("qrcodes.pdf")` (line 123). The font size and the file name are not modelled.
  `pdf.internal.pageSize.height` is the `pageHeight` parameter.
- The jsPDF calls inside the `try` block (`addImage` and `text`, lines 99-100) are taken
  never to throw. A glyph is then either drawn with its caption or, when QR generation
  fails, skipped as a whole; a partial draw followed by `continue` is not modelled.
- The console diagnostics (lines 48, 57, 69, 103) are output only and are not modelled.
- React hooks, rendering, the canvas ref array and the button-enable test (lines 14-20,
  138-180) are UI. Only the four pieces of state that the export reads or writes are
  modelled.
- The `await` in the loop is strictly sequential and is modelled as an ordinary loop, with
  no concurrency. Overlapping exports started from the UI are out of scope.
- Determinism of the layout (the same inputs give the same document) needs no lemma.
  `RenderGrid`'s result is pinned to the function `LayoutPrefix`.
- src/main.tsx only mounts the component and is not part of this model.
