/** Grid and pagination layout of the PDF export: each QR code whose glyph renders is
    placed on a grid of five per row, 36 units apart, and a new page is started when
    the cursor runs past the bottom margin. jsPDF is represented only by what it is
    asked to draw (the placements) and by how many pages it holds. */
module GridLayout {
  import opened RowExtraction

  const QrCodeSize: int := 30
  const Margin: int := 6
  const MaxCodesPerRow: int := 5
  /** Vertical offset of a caption's baseline from the glyph's bottom edge. */
  const LabelHeight: real := -0.5
  const A4XStart: int := 18
  const A4YStart: int := 20
  /** The distance from one glyph to the next, along a row and from row to row. */
  const Pitch: int := QrCodeSize + Margin

  /** The loop's mutable state: `x`, `y`, `rowCount`, and the index of jsPDF's current page. */
  datatype Cursor = Cursor(x: int, y: int, rowCount: int, page: nat)

  /** The state before the first entry, on the page a new jsPDF document starts with. */
  const Start: Cursor := Cursor(A4XStart, A4YStart, 0, 0)

  /** One glyph drawn by `addImage` at (x, y) on a page, with its caption drawn by `text`,
      centred at (labelX, labelY). `value` is the payload the glyph encodes. */
  datatype Placement = Placement(page: nat, x: int, y: int, labelX: real, labelY: real,
                                 caption: string, value: string)

  /** The document saved at the end: its number of pages and what was drawn on them. */
  datatype Document = Document(pageCount: nat, placements: seq<Placement>)

  /** The state of the layout after some entries: the cursor and what has been drawn so far. */
  datatype Layout = Layout(cursor: Cursor, placed: seq<Placement>)

  /** The page-break test: y leaves less than a glyph and a margin before the page's end. */
  predicate NeedsNewPage(y: int, pageHeight: real) {
    y as real > pageHeight - Margin as real - QrCodeSize as real
  }

  /** What is drawn for `e` at the cursor: the glyph at the cursor, the caption centred
      below it. */
  function Place(c: Cursor, e: QRData): (p: Placement)
    ensures p.page == c.page && p.x == c.x && p.y == c.y
    ensures p.caption == e.caption && p.value == e.value
    ensures p.labelX - p.x as real == (p.x + QrCodeSize) as real - p.labelX
    ensures p.labelY == (p.y + QrCodeSize) as real - 0.5
  {
    Placement(c.page, c.x, c.y,
              c.x as real + QrCodeSize as real / 2.0,
              (c.y + QrCodeSize) as real + LabelHeight,
              e.caption, e.value)
  }

  /** The cursor after a glyph is placed: advance, wrap the row after the fifth glyph or
      after the last index of the list, then break the page if y is past the limit. The
      page either stays, with the cursor a full pitch further in reading order, or is
      followed by a new one, with the cursor at (6, 6); away from the last index, the cursor
      goes to the slot that `Follows` the glyph just placed. */
  function Advance(c: Cursor, isLast: bool, pageHeight: real): (r: Cursor)
    ensures r.page == c.page || r == Cursor(Margin, Margin, 0, c.page + 1)
    ensures WellFormed(c) ==> WellFormed(r)
    ensures WellFormed(c) && r.page == c.page ==> Precedes(c.x, c.y, r.x, r.y)
    ensures WellFormed(c) && !isLast ==> Follows(c.page, c.x, c.y, r.page, r.x, r.y, pageHeight)
    ensures isLast ==> r.rowCount == 0 && (r.page == c.page ==> r.x == A4XStart && r.y == c.y + Pitch)
    ensures isLast ==> (r.page == c.page + 1 <==> NeedsNewPage(c.y + Pitch, pageHeight))
  {
    var x, rowCount := c.x + Pitch, c.rowCount + 1;
    var wrapped :=
      if rowCount >= MaxCodesPerRow || isLast then Cursor(A4XStart, c.y + Pitch, 0, c.page)
      else Cursor(x, c.y, rowCount, c.page);
    if NeedsNewPage(wrapped.y, pageHeight) then Cursor(Margin, Margin, 0, c.page + 1)
    else wrapped
  }

  /** One iteration of the loop: an entry whose glyph fails to render is skipped
      (`continue`), leaving everything as it was. */
  function Step(l: Layout, e: QRData, ok: bool, isLast: bool, pageHeight: real): (r: Layout)
    ensures |r.placed| == |l.placed| + (if ok then 1 else 0)
    ensures r.placed[..|l.placed|] == l.placed
    ensures Drawn(r.placed) == Drawn(l.placed) + (if ok then [e] else [])
    ensures !ok ==> r == l
  {
    if !ok then l
    else Layout(Advance(l.cursor, isLast, pageHeight), l.placed + [Place(l.cursor, e)])
  }

  /** The layout after the first k iterations of the loop. `glyphOk[i]` says whether
      the glyph of `qrList[i]` renders. */
  function LayoutPrefix(qrList: seq<QRData>, glyphOk: seq<bool>, pageHeight: real, k: nat): (r: Layout)
    requires k <= |qrList| == |glyphOk|
    ensures |r.placed| <= k
    ensures WellFormed(r.cursor)
  {
    if k == 0 then Layout(Start, [])
    else
      Step(LayoutPrefix(qrList, glyphOk, pageHeight, k - 1),
           qrList[k - 1], glyphOk[k - 1], k - 1 == |qrList| - 1, pageHeight)
  }

  /** The entries whose glyph renders, in list order. */
  function Successful(qrList: seq<QRData>, glyphOk: seq<bool>): seq<QRData>
    requires |qrList| == |glyphOk|
  {
    if qrList == [] then []
    else (if glyphOk[0] then [qrList[0]] else []) + Successful(qrList[1..], glyphOk[1..])
  }

  /** The entries that the placements draw, in drawing order. */
  function Drawn(placed: seq<Placement>): seq<QRData> {
    seq(|placed|, i requires 0 <= i < |placed| => QRData(placed[i].caption, placed[i].value))
  }

  // ---------------------------------------------------------------------------
  // The layout loop

  /** The loop of the export, over a non-empty or empty list: draws the entries whose
      glyph renders and returns the document as it is saved. */
  method RenderGrid(qrList: seq<QRData>, glyphOk: seq<bool>, pageHeight: real) returns (doc: Document)
    requires |glyphOk| == |qrList|
    ensures var final := LayoutPrefix(qrList, glyphOk, pageHeight, |qrList|);
      doc.placements == final.placed && doc.pageCount == final.cursor.page + 1
    ensures Drawn(doc.placements) == Successful(qrList, glyphOk)
    ensures NoOverlap(doc.placements)
    ensures forall i :: 0 <= i < |doc.placements| ==> CaptionCentred(doc.placements[i])
    ensures qrList == [] ==> doc == Document(1, [])
  {
    var x, y, rowCount := A4XStart, A4YStart, 0;
    var page: nat := 0;
    var placements: seq<Placement> := [];
    for index := 0 to |qrList|
      invariant Layout(Cursor(x, y, rowCount, page), placements)
             == LayoutPrefix(qrList, glyphOk, pageHeight, index)
      invariant 0 <= rowCount < MaxCodesPerRow
    {
      ghost var before := Layout(Cursor(x, y, rowCount, page), placements);
      var entry := qrList[index];
      if !glyphOk[index] {
        continue;
      }
      var labelX := x as real + QrCodeSize as real / 2.0;
      var labelY := (y + QrCodeSize) as real + LabelHeight;
      placements := placements + [Placement(page, x, y, labelX, labelY, entry.caption, entry.value)];

      x := x + QrCodeSize + Margin;
      rowCount := rowCount + 1;

      if rowCount >= MaxCodesPerRow || index == |qrList| - 1 {
        x := A4XStart;
        y := y + QrCodeSize + Margin;
        rowCount := 0;
      }

      if y as real > pageHeight - Margin as real - QrCodeSize as real {
        page := page + 1;
        x := Margin;
        y := Margin;
        rowCount := 0;
      }
      assert Layout(Cursor(x, y, rowCount, page), placements)
          == Step(before, entry, true, index == |qrList| - 1, pageHeight);
    }
    doc := Document(page + 1, placements);
    LayoutPrefixInvariant(qrList, glyphOk, pageHeight, |qrList|);
    LayoutDrawsSuccessful(qrList, glyphOk, pageHeight, |qrList|);
    CaptionsCentred(qrList, glyphOk, pageHeight, |qrList|);
    assert qrList[..|qrList|] == qrList && glyphOk[..|glyphOk|] == glyphOk;
  }

  // ---------------------------------------------------------------------------
  // Invariants of the layout

  /** The glyph at (x0, y0) lies wholly before position (x1, y1) in reading order: a full pitch above it, or on
      the same row a full pitch to its left. */
  predicate Precedes(x0: int, y0: int, x1: int, y1: int) {
    y0 + Pitch <= y1 || (y0 == y1 && x0 + Pitch <= x1)
  }

  /** The x at which the row at height y starts: the only row starting at x = 6 is the
      first one after a page break, at y = 6; every other row starts at x = 18. */
  function RowStart(y: int): int {
    if y == Margin then Margin else A4XStart
  }

  /** The cursor's shape at the top of every iteration: fewer than five glyphs in the current
      row, and x is the row's start plus one pitch per glyph already in it. */
  predicate WellFormed(c: Cursor) {
    && 0 <= c.rowCount < MaxCodesPerRow
    && c.y >= Margin
    && c.x == RowStart(c.y) + Pitch * c.rowCount
  }

  /** Every placement is on an earlier page than the cursor, or before it on the same page. */
  predicate BehindCursor(placed: seq<Placement>, c: Cursor) {
    forall i :: 0 <= i < |placed| ==>
      placed[i].page <= c.page &&
      (placed[i].page == c.page ==> Precedes(placed[i].x, placed[i].y, c.x, c.y))
  }

  /** Pages never decrease, and on one page the glyphs come in reading order at least a
      pitch apart, so that no two glyphs of a page overlap. */
  predicate NoOverlap(placed: seq<Placement>) {
    forall i, j :: 0 <= i < j < |placed| ==>
      placed[i].page <= placed[j].page &&
      (placed[i].page == placed[j].page ==>
         Precedes(placed[i].x, placed[i].y, placed[j].x, placed[j].y))
  }

  /** Every glyph lies between the left margin and x = 192. */
  predicate WithinColumns(placed: seq<Placement>) {
    forall i :: 0 <= i < |placed| ==>
      Margin <= placed[i].x &&
      placed[i].x + QrCodeSize <= A4XStart + (MaxCodesPerRow - 1) * Pitch + QrCodeSize
  }

  predicate Inv(l: Layout) {
    WellFormed(l.cursor) && BehindCursor(l.placed, l.cursor) && NoOverlap(l.placed) &&
    WithinColumns(l.placed)
  }

  /** One iteration keeps the invariant. */
  lemma StepInv(l: Layout, e: QRData, ok: bool, isLast: bool, pageHeight: real)
    requires Inv(l)
    ensures Inv(Step(l, e, ok, isLast, pageHeight))
  {
    if ok {
      var c := l.cursor;
      var c' := Advance(c, isLast, pageHeight);
      var placed' := l.placed + [Place(c, e)];
      forall i | 0 <= i < |placed'|
        ensures placed'[i].page <= c'.page &&
                (placed'[i].page == c'.page ==> Precedes(placed'[i].x, placed'[i].y, c'.x, c'.y))
      {
        if i < |l.placed| {
          assert placed'[i] == l.placed[i];
        }
      }
      forall i, j | 0 <= i < j < |placed'|
        ensures placed'[i].page <= placed'[j].page &&
                (placed'[i].page == placed'[j].page ==>
                   Precedes(placed'[i].x, placed'[i].y, placed'[j].x, placed'[j].y))
      {
        assert placed'[i] == l.placed[i];
        if j < |l.placed| {
          assert placed'[j] == l.placed[j];
        }
      }
    }
  }

  /** At the top of every iteration the cursor is well formed (in particular `rowCount` is
      in 0..4), and what was drawn so far lies behind it, in reading order, pairwise apart
      and within the columns. */
  lemma {:induction false} LayoutPrefixInvariant(qrList: seq<QRData>, glyphOk: seq<bool>,
                                                 pageHeight: real, k: nat)
    requires k <= |qrList| == |glyphOk|
    ensures Inv(LayoutPrefix(qrList, glyphOk, pageHeight, k))
  {
    if k > 0 {
      LayoutPrefixInvariant(qrList, glyphOk, pageHeight, k - 1);
      StepInv(LayoutPrefix(qrList, glyphOk, pageHeight, k - 1),
              qrList[k - 1], glyphOk[k - 1], k - 1 == |qrList| - 1, pageHeight);
    }
  }

  /** Filtering one more entry appends it exactly when its glyph renders. */
  lemma {:induction false} SuccessfulSnoc(qrList: seq<QRData>, glyphOk: seq<bool>, e: QRData, ok: bool)
    requires |qrList| == |glyphOk|
    ensures Successful(qrList + [e], glyphOk + [ok]) == Successful(qrList, glyphOk) + (if ok then [e] else [])
  {
    if qrList != [] {
      assert (qrList + [e])[1..] == qrList[1..] + [e];
      assert (glyphOk + [ok])[1..] == glyphOk[1..] + [ok];
      SuccessfulSnoc(qrList[1..], glyphOk[1..], e, ok);
    } else {
      assert qrList + [e] == [e] && glyphOk + [ok] == [ok];
    }
  }

  /** What is drawn is exactly the entries whose glyph renders, in input order: a failed glyph
      emits nothing. */
  lemma {:induction false} LayoutDrawsSuccessful(qrList: seq<QRData>, glyphOk: seq<bool>,
                                                 pageHeight: real, k: nat)
    requires k <= |qrList| == |glyphOk|
    ensures Drawn(LayoutPrefix(qrList, glyphOk, pageHeight, k).placed) == Successful(qrList[..k], glyphOk[..k])
  {
    if k > 0 {
      LayoutDrawsSuccessful(qrList, glyphOk, pageHeight, k - 1);
      assert qrList[..k] == qrList[..k - 1] + [qrList[k - 1]];
      assert glyphOk[..k] == glyphOk[..k - 1] + [glyphOk[k - 1]];
      SuccessfulSnoc(qrList[..k - 1], glyphOk[..k - 1], qrList[k - 1], glyphOk[k - 1]);
      var before := LayoutPrefix(qrList, glyphOk, pageHeight, k - 1).placed;
      if glyphOk[k - 1] {
        var p := Place(LayoutPrefix(qrList, glyphOk, pageHeight, k - 1).cursor, qrList[k - 1]);
        assert Drawn(before + [p]) == Drawn(before) + [qrList[k - 1]];
      }
    } else {
      assert qrList[..0] == [];
    }
  }

  /** The caption of a placement is centred under its glyph: at x + 15, with its baseline
      half a point above the glyph's lower edge, at y + 29.5. */
  predicate CaptionCentred(p: Placement) {
    p.labelX == p.x as real + 15.0 && p.labelY == p.y as real + 29.5
  }

  /** Every placement the loop has drawn after k iterations has its caption centred under
      its glyph. */
  lemma {:induction false} CaptionsCentred(qrList: seq<QRData>, glyphOk: seq<bool>,
                                           pageHeight: real, k: nat)
    requires k <= |qrList| == |glyphOk|
    ensures forall i :: 0 <= i < |LayoutPrefix(qrList, glyphOk, pageHeight, k).placed| ==>
              CaptionCentred(LayoutPrefix(qrList, glyphOk, pageHeight, k).placed[i])
  {
    if k > 0 {
      CaptionsCentred(qrList, glyphOk, pageHeight, k - 1);
      var l := LayoutPrefix(qrList, glyphOk, pageHeight, k - 1);
      if glyphOk[k - 1] {
        var p := Place(l.cursor, qrList[k - 1]);
        assert LayoutPrefix(qrList, glyphOk, pageHeight, k).placed == l.placed + [p];
        forall i | 0 <= i < |l.placed| + 1
          ensures CaptionCentred((l.placed + [p])[i])
        {
          if i < |l.placed| {
            assert (l.placed + [p])[i] == l.placed[i];
          } else {
            assert (l.placed + [p])[i] == p;
          }
        }
      }
    }
  }

  // ---------------------------------------------------------------------------
  // Where each glyph goes relative to the previous one

  /** The slot (page, x, y) is the one after a glyph at (page0, x0, y0), where the glyph's
      slot in its row is told by x0. After the fifth slot the row wraps to x = 18, a pitch
      lower; otherwise the next slot is a pitch to the right on the same row. Either way,
      if that slot's y is past the page-break line, it is (6, 6) on the next page instead. */
  predicate Follows(page0: nat, x0: int, y0: int, page: nat, x: int, y: int, pageHeight: real) {
    var lastInRow := x0 == RowStart(y0) + Pitch * (MaxCodesPerRow - 1);
    var nextY := if lastInRow then y0 + Pitch else y0;
    if NeedsNewPage(nextY, pageHeight) then page == page0 + 1 && x == Margin && y == Margin
    else if lastInRow then page == page0 && x == A4XStart && y == nextY
    else page == page0 && x == x0 + Pitch && y == y0
  }

  /** Before the last index has been handled, the cursor rests on the slot after the last
      glyph drawn; before any glyph is drawn, it rests at the start. */
  lemma {:induction false} CursorFollowsLast(qrList: seq<QRData>, glyphOk: seq<bool>,
                                             pageHeight: real, k: nat)
    requires k <= |qrList| == |glyphOk|
    ensures var l := LayoutPrefix(qrList, glyphOk, pageHeight, k);
      l.placed == [] ==> l.cursor == Start
    ensures var l := LayoutPrefix(qrList, glyphOk, pageHeight, k);
      l.placed != [] && (k < |qrList| || !glyphOk[k - 1]) ==>
        var last := l.placed[|l.placed| - 1];
        Follows(last.page, last.x, last.y, l.cursor.page, l.cursor.x, l.cursor.y, pageHeight)
  {
    if k > 0 {
      CursorFollowsLast(qrList, glyphOk, pageHeight, k - 1);
      var l := LayoutPrefix(qrList, glyphOk, pageHeight, k - 1);
      if glyphOk[k - 1] {
        var l' := LayoutPrefix(qrList, glyphOk, pageHeight, k);
        assert l'.placed[|l'.placed| - 1] == Place(l.cursor, qrList[k - 1]);
      }
    }
  }

  /** The first glyph drawn goes to (18, 20) on the first page. */
  lemma {:induction false} FirstGlyphAtStart(qrList: seq<QRData>, glyphOk: seq<bool>,
                                             pageHeight: real, k: nat)
    requires k <= |qrList| == |glyphOk|
    ensures var placed := LayoutPrefix(qrList, glyphOk, pageHeight, k).placed;
      |placed| > 0 ==> placed[0].page == 0 && placed[0].x == A4XStart && placed[0].y == A4YStart
  {
    if k > 0 {
      FirstGlyphAtStart(qrList, glyphOk, pageHeight, k - 1);
      CursorFollowsLast(qrList, glyphOk, pageHeight, k - 1);
      var l := LayoutPrefix(qrList, glyphOk, pageHeight, k - 1);
      if glyphOk[k - 1] && l.placed != [] {
        assert LayoutPrefix(qrList, glyphOk, pageHeight, k).placed[0] == l.placed[0];
      }
    }
  }

  /** Each glyph after the first goes to the slot that follows the one drawn before it. */
  lemma {:induction false} LayoutSuccession(qrList: seq<QRData>, glyphOk: seq<bool>,
                                            pageHeight: real, k: nat)
    requires k <= |qrList| == |glyphOk|
    ensures var placed := LayoutPrefix(qrList, glyphOk, pageHeight, k).placed;
      forall i :: 0 < i < |placed| ==>
        Follows(placed[i - 1].page, placed[i - 1].x, placed[i - 1].y,
                placed[i].page, placed[i].x, placed[i].y, pageHeight)
  {
    if k > 0 {
      LayoutSuccession(qrList, glyphOk, pageHeight, k - 1);
      CursorFollowsLast(qrList, glyphOk, pageHeight, k - 1);
      var l := LayoutPrefix(qrList, glyphOk, pageHeight, k - 1);
      if glyphOk[k - 1] {
        var placed' := l.placed + [Place(l.cursor, qrList[k - 1])];
        forall i | 0 < i < |placed'|
          ensures Follows(placed'[i - 1].page, placed'[i - 1].x, placed'[i - 1].y,
                          placed'[i].page, placed'[i].x, placed'[i].y, pageHeight)
        {
          if i < |l.placed| {
            assert placed'[i - 1] == l.placed[i - 1] && placed'[i] == l.placed[i];
          } else {
            assert placed'[i - 1] == l.placed[|l.placed| - 1];
            assert placed'[i] == Place(l.cursor, qrList[k - 1]);
          }
        }
      }
    }
  }

  /** On a page at least 56 high, until the first row is full and before the last index is
      handled, the cursor is on the first row of the first page, one slot per glyph drawn. */
  lemma {:induction false} FirstRowCursor(qrList: seq<QRData>, glyphOk: seq<bool>,
                                          pageHeight: real, k: nat)
    requires k <= |qrList| == |glyphOk|
    requires pageHeight >= 56.0
    ensures var l := LayoutPrefix(qrList, glyphOk, pageHeight, k);
      k < |qrList| && |l.placed| < MaxCodesPerRow ==>
        l.cursor == Cursor(A4XStart + Pitch * |l.placed|, A4YStart, |l.placed|, 0)
  {
    if k > 0 {
      FirstRowCursor(qrList, glyphOk, pageHeight, k - 1);
    }
  }

  /** On a page at least 56 high, the first five glyphs fill the first row of the first
      page at y = 20 and x = 18, 54, 90, 126, 162. */
  lemma {:induction false} FirstRowPositions(qrList: seq<QRData>, glyphOk: seq<bool>,
                                             pageHeight: real, k: nat)
    requires k <= |qrList| == |glyphOk|
    requires pageHeight >= 56.0
    ensures var l := LayoutPrefix(qrList, glyphOk, pageHeight, k);
      forall j :: 0 <= j < |l.placed| && j < MaxCodesPerRow ==>
        l.placed[j].page == 0 && l.placed[j].y == A4YStart && l.placed[j].x == A4XStart + Pitch * j
  {
    if k > 0 {
      FirstRowPositions(qrList, glyphOk, pageHeight, k - 1);
      FirstRowCursor(qrList, glyphOk, pageHeight, k - 1);
      var l := LayoutPrefix(qrList, glyphOk, pageHeight, k - 1);
      if glyphOk[k - 1] {
        var placed' := l.placed + [Place(l.cursor, qrList[k - 1])];
        forall j | 0 <= j < |placed'| && j < MaxCodesPerRow
          ensures placed'[j].page == 0 && placed'[j].y == A4YStart && placed'[j].x == A4XStart + Pitch * j
        {
          if j < |l.placed| {
            assert placed'[j] == l.placed[j];
          } else {
            assert placed'[j] == Place(l.cursor, qrList[k - 1]);
          }
        }
      }
    }
  }

  /** On a page at least 56 high, every glyph ends at least a margin above the bottom edge
      of its page: the cursor never stays below the page-break line. */
  lemma {:induction false} GlyphsAboveBottomMargin(qrList: seq<QRData>, glyphOk: seq<bool>,
                                                   pageHeight: real, k: nat)
    requires k <= |qrList| == |glyphOk|
    requires pageHeight >= 56.0
    ensures var l := LayoutPrefix(qrList, glyphOk, pageHeight, k);
      && !NeedsNewPage(l.cursor.y, pageHeight)
      && forall i :: 0 <= i < |l.placed| ==>
           (l.placed[i].y + QrCodeSize) as real <= pageHeight - Margin as real
  {
    if k > 0 {
      GlyphsAboveBottomMargin(qrList, glyphOk, pageHeight, k - 1);
      var l := LayoutPrefix(qrList, glyphOk, pageHeight, k - 1);
      if glyphOk[k - 1] {
        var placed' := l.placed + [Place(l.cursor, qrList[k - 1])];
        forall i | 0 <= i < |placed'|
          ensures (placed'[i].y + QrCodeSize) as real <= pageHeight - Margin as real
        {
          if i < |l.placed| {
            assert placed'[i] == l.placed[i];
          }
        }
      }
    }
  }

  /** The trailing wrap on the last index: when the last entry's glyph renders, the loop
      ends at the start of a fresh row (or of a fresh page); when it fails, the wrap does
      not happen and the loop ends where the previous entry left it. */
  lemma TrailingWrap(qrList: seq<QRData>, glyphOk: seq<bool>, pageHeight: real)
    requires |qrList| == |glyphOk| > 0
    ensures var n := |qrList|;
      var before, after := LayoutPrefix(qrList, glyphOk, pageHeight, n - 1).cursor,
                           LayoutPrefix(qrList, glyphOk, pageHeight, n).cursor;
      && (glyphOk[n - 1] ==>
            after.rowCount == 0 &&
            ((after.page == before.page && after.x == A4XStart && after.y == before.y + Pitch) ||
             (after.page == before.page + 1 && after.x == Margin && after.y == Margin)))
      && (glyphOk[n - 1] ==> (after.page == before.page + 1 <==> NeedsNewPage(before.y + Pitch, pageHeight)))
      && (!glyphOk[n - 1] ==> after == before)
  {
  }

  // ---------------------------------------------------------------------------
  // Worked examples

  /** Five entries on an A4 page: one row on page 0 at x = 18, 54, 90, 126, 162, then the
      forced wrap, and no second page. */
  lemma FiveInOneRow(e0: QRData, e1: QRData, e2: QRData, e3: QRData, e4: QRData)
    ensures var l := LayoutPrefix([e0, e1, e2, e3, e4], [true, true, true, true, true], 297.0, 5);
      && |l.placed| == 5
      && (forall j :: 0 <= j < 5 ==> l.placed[j].page == 0 && l.placed[j].y == 20 && l.placed[j].x == 18 + 36 * j)
      && l.cursor == Cursor(18, 56, 0, 0)
  {
    var qrList, glyphOk := [e0, e1, e2, e3, e4], [true, true, true, true, true];
    assert LayoutPrefix(qrList, glyphOk, 297.0, 1).cursor == Cursor(54, 20, 1, 0);
    assert LayoutPrefix(qrList, glyphOk, 297.0, 2).cursor == Cursor(90, 20, 2, 0);
    assert LayoutPrefix(qrList, glyphOk, 297.0, 3).cursor == Cursor(126, 20, 3, 0);
    assert LayoutPrefix(qrList, glyphOk, 297.0, 4).cursor == Cursor(162, 20, 4, 0);
    assert |LayoutPrefix(qrList, glyphOk, 297.0, 4).placed| == 4;
    FirstRowPositions(qrList, glyphOk, 297.0, 5);
  }

  /** A glyph failure on the third of five entries: four glyphs, in order, filling the first
      four slots of the row. */
  lemma ThirdGlyphFails(e0: QRData, e1: QRData, e2: QRData, e3: QRData, e4: QRData)
    ensures var l := LayoutPrefix([e0, e1, e2, e3, e4], [true, true, false, true, true], 297.0, 5);
      && Drawn(l.placed) == [e0, e1, e3, e4]
      && (forall j :: 0 <= j < 4 ==> l.placed[j].page == 0 && l.placed[j].y == 20 && l.placed[j].x == 18 + 36 * j)
  {
    var qrList, glyphOk := [e0, e1, e2, e3, e4], [true, true, false, true, true];
    FirstRowPositions(qrList, glyphOk, 297.0, 5);
    LayoutDrawsSuccessful(qrList, glyphOk, 297.0, 5);
    assert qrList[..5] == qrList && glyphOk[..5] == glyphOk;
    assert qrList[4..] == [e4] && glyphOk[4..] == [true];
    assert Successful(qrList[4..], glyphOk[4..]) == [e4];
    assert qrList[3..][1..] == qrList[4..] && glyphOk[3..][1..] == glyphOk[4..];
    assert Successful(qrList[3..], glyphOk[3..]) == [e3, e4];
    assert qrList[2..][1..] == qrList[3..] && glyphOk[2..][1..] == glyphOk[3..];
    assert qrList[1..][1..] == qrList[2..] && glyphOk[1..][1..] == glyphOk[2..];
    assert Successful(qrList[1..], glyphOk[1..]) == [e1, e3, e4];
  }

  /** On a page 60 high, five glyphs fit in one row, but the trailing wrap pushes y past the
      limit and the saved document ends with an empty second page; if the fifth glyph fails
      instead, no wrap happens and the document keeps a single page. */
  lemma TrailingBlankPage(e0: QRData, e1: QRData, e2: QRData, e3: QRData, e4: QRData)
    ensures var l := LayoutPrefix([e0, e1, e2, e3, e4], [true, true, true, true, true], 60.0, 5);
      && |l.placed| == 5 && (forall j :: 0 <= j < 5 ==> l.placed[j].page == 0) && l.cursor.page == 1
    ensures var l := LayoutPrefix([e0, e1, e2, e3, e4], [true, true, true, true, false], 60.0, 5);
      && |l.placed| == 4 && l.cursor.page == 0
  {
    var qrList, all, lastFails := [e0, e1, e2, e3, e4], [true, true, true, true, true], [true, true, true, true, false];
    assert LayoutPrefix(qrList, all, 60.0, 1).cursor == Cursor(54, 20, 1, 0);
    assert |LayoutPrefix(qrList, all, 60.0, 1).placed| == 1;
    assert LayoutPrefix(qrList, all, 60.0, 2).cursor == Cursor(90, 20, 2, 0);
    assert |LayoutPrefix(qrList, all, 60.0, 2).placed| == 2;
    assert LayoutPrefix(qrList, all, 60.0, 3).cursor == Cursor(126, 20, 3, 0);
    assert |LayoutPrefix(qrList, all, 60.0, 3).placed| == 3;
    assert LayoutPrefix(qrList, all, 60.0, 4).cursor == Cursor(162, 20, 4, 0);
    assert |LayoutPrefix(qrList, all, 60.0, 4).placed| == 4;
    FirstRowPositions(qrList, all, 60.0, 5);
    assert LayoutPrefix(qrList, lastFails, 60.0, 1).cursor == Cursor(54, 20, 1, 0);
    assert LayoutPrefix(qrList, lastFails, 60.0, 2).cursor == Cursor(90, 20, 2, 0);
    assert LayoutPrefix(qrList, lastFails, 60.0, 3).cursor == Cursor(126, 20, 3, 0);
    assert LayoutPrefix(qrList, lastFails, 60.0, 4).cursor == Cursor(162, 20, 4, 0);
    assert |LayoutPrefix(qrList, lastFails, 60.0, 4).placed| == 4;
  }
}
