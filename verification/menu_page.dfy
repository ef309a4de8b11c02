/** `MenuPage`: one navigable page of the menu, and the rendering of its
    selection marker.

    Selectable items form a flat list indexed by `line`. They are laid out
    down the rows from `firstline` to the bottom of a display that the page
    code takes to have exactly four rows; when a column of rows is full the
    list continues in the next column group, `xshift` characters to the
    right. The marker of the selected line is the single character `~`, and
    it is erased by writing a blank over it.
 */
module MenuPages {

  import opened CInt
  import opened Screens

  /** The page layout assumes a four-row display, whatever the screen's
      configured height. */
  const DISPLAY_ROWS: int := 4

  const BLANK: char := ' '
  const MARKER: char := '~'

  /** The `int8_t` fields of a page and the `Screen` it draws on. */
  datatype MenuPage = MenuPage(line: Int8, items: Int8, xshift: Int8, firstline: Int8, screen: Screen)

  /** How many items one column group holds: the rows below `firstline`. */
  function RowsPerColumn(firstline: int): int
  {
    DISPLAY_ROWS - firstline
  }

  /** Screen column of the marker of `line` (C integer division). */
  function MarkerColumn(line: int, xshift: int, firstline: int): int
    requires firstline != DISPLAY_ROWS
  {
    Quot(line, RowsPerColumn(firstline)) * xshift
  }

  /** Screen row of the marker of `line` (C integer remainder). */
  function MarkerRow(line: int, firstline: int): int
    requires firstline != DISPLAY_ROWS
  {
    firstline + Rem(line, RowsPerColumn(firstline))
  }

  /** Buffer offset of the marker of the page's current line. */
  function MarkerOffset(p: MenuPage): int
    requires p.firstline != DISPLAY_ROWS
  {
    MarkerRow(p.line, p.firstline) * p.screen.cols + MarkerColumn(p.line, p.xshift, p.firstline)
  }

  /** What drawing the marker demands: when there are items, the layout
      divisor `4 - firstline` is not zero and the computed cell lies inside
      the screen buffer. With no items nothing is computed or written. */
  predicate CanDrawMarker(p: MenuPage)
  {
    p.items > 0 ==>
      p.firstline != DISPLAY_ROWS && p.screen.Valid() &&
      0 <= MarkerOffset(p) < |p.screen.buffer|
  }

  /** Shared body of `emptyline` and `fillline`: move the cursor to the
      marker cell of the current line and print the one-character string
      `[ch]` there. */
  function DrawAtLine(p: MenuPage, ch: char): (r: MenuPage)
    requires CanDrawMarker(p)
    ensures p.items <= 0 ==> r == p
    ensures p.items > 0 ==>
              r.line == p.line && r.items == p.items && r.xshift == p.xshift &&
              r.firstline == p.firstline &&
              r.screen.rows == p.screen.rows && r.screen.cols == p.screen.cols &&
              r.screen.Valid() &&
              r.screen.cursor == MarkerOffset(p) + 1 &&
              r.screen.buffer == p.screen.buffer[MarkerOffset(p) := ch]
  {
    if p.items > 0 then
      var s := SetCursorAt(p.screen, MarkerColumn(p.line, p.xshift, p.firstline),
                           MarkerRow(p.line, p.firstline));
      var s' := PrintText(s, [ch]);
      assert s'.buffer == p.screen.buffer[MarkerOffset(p) := ch];
      p.(screen := s')
    else
      p
  }

  /** `emptyline()`: erase the marker of the current line. */
  function EmptyLine(p: MenuPage): (r: MenuPage)
    requires CanDrawMarker(p)
    ensures p.items <= 0 ==> r == p
    ensures p.items > 0 ==>
              r == p.(screen := r.screen) && r.screen.Valid() &&
              r.screen.rows == p.screen.rows && r.screen.cols == p.screen.cols &&
              |r.screen.buffer| == |p.screen.buffer| &&
              r.screen.buffer[MarkerOffset(p)] == BLANK &&
              r.screen.cursor == MarkerOffset(p) + 1 &&
              (forall i :: 0 <= i < |p.screen.buffer| && i != MarkerOffset(p) ==>
                 r.screen.buffer[i] == p.screen.buffer[i])
  {
    DrawAtLine(p, BLANK)
  }

  /** `fillline()`: draw the marker of the current line. */
  function FillLine(p: MenuPage): (r: MenuPage)
    requires CanDrawMarker(p)
    ensures p.items <= 0 ==> r == p
    ensures p.items > 0 ==>
              r == p.(screen := r.screen) && r.screen.Valid() &&
              r.screen.rows == p.screen.rows && r.screen.cols == p.screen.cols &&
              |r.screen.buffer| == |p.screen.buffer| &&
              r.screen.buffer[MarkerOffset(p)] == MARKER &&
              r.screen.cursor == MarkerOffset(p) + 1 &&
              (forall i :: 0 <= i < |p.screen.buffer| && i != MarkerOffset(p) ==>
                 r.screen.buffer[i] == p.screen.buffer[i])
  {
    DrawAtLine(p, MARKER)
  }

  /** For a line that exists (non-negative) and a usable `firstline`, the
      marker sits in the usable rows, in column group `line / (4 - firstline)`;
      there the C operators agree with the mathematical ones. */
  lemma {:induction false} MarkerInUsableRows(line: int, xshift: int, firstline: int)
    requires firstline < DISPLAY_ROWS && 0 <= line
    ensures firstline <= MarkerRow(line, firstline) < DISPLAY_ROWS
    ensures MarkerColumn(line, xshift, firstline) == (line / RowsPerColumn(firstline)) * xshift
    ensures MarkerRow(line, firstline) == firstline + line % RowsPerColumn(firstline)
  {
  }

  /** With a non-zero column shift, different lines get different marker
      (column, row) pairs. Distinct pairs may still share a buffer cell when a
      column lies outside the grid; see `MarkerOffsetInjective`. */
  lemma {:induction false} MarkerLayoutInjective(l1: int, l2: int, xshift: int, firstline: int)
    requires firstline != DISPLAY_ROWS && xshift != 0
    requires MarkerColumn(l1, xshift, firstline) == MarkerColumn(l2, xshift, firstline)
    requires MarkerRow(l1, firstline) == MarkerRow(l2, firstline)
    ensures l1 == l2
  {
    var b := RowsPerColumn(firstline);
    var q1, q2 := Quot(l1, b), Quot(l2, b);
    assert (q1 - q2) * xshift == 0;
    assert q1 == q2;
    QuotRemDetermine(l1, l2, b);
  }

  /** When the marker columns of two lines lie inside the screen's width and
      the column shift is not zero, the two lines' markers are written to the
      same buffer cell only if they are the same line. */
  lemma {:induction false} MarkerOffsetInjective(p1: MenuPage, p2: MenuPage)
    requires p1.firstline == p2.firstline && p1.xshift == p2.xshift && p1.screen.cols == p2.screen.cols
    requires p1.firstline != DISPLAY_ROWS && p1.xshift != 0
    requires 0 <= MarkerColumn(p1.line, p1.xshift, p1.firstline) < p1.screen.cols
    requires 0 <= MarkerColumn(p2.line, p2.xshift, p2.firstline) < p2.screen.cols
    requires MarkerOffset(p1) == MarkerOffset(p2)
    ensures p1.line == p2.line
  {
    var cols := p1.screen.cols;
    var c1, c2 := MarkerColumn(p1.line, p1.xshift, p1.firstline), MarkerColumn(p2.line, p2.xshift, p2.firstline);
    var r1, r2 := MarkerRow(p1.line, p1.firstline), MarkerRow(p2.line, p2.firstline);
    DivModUnique(MarkerOffset(p1), cols, r1, c1);
    DivModUnique(MarkerOffset(p2), cols, r2, c2);
    MarkerLayoutInjective(p1.line, p2.line, p1.xshift, p1.firstline);
  }

  /** Conversely, with no column shift the column groups overlap: line
      `l` and line `l + (4 - firstline)` share a marker cell. */
  lemma {:induction false} ZeroShiftOverlaps(l: int, firstline: int)
    requires firstline < DISPLAY_ROWS && 0 <= l
    ensures MarkerColumn(l, 0, firstline) == MarkerColumn(l + RowsPerColumn(firstline), 0, firstline)
    ensures MarkerRow(l, firstline) == MarkerRow(l + RowsPerColumn(firstline), firstline)
  {
    var b := RowsPerColumn(firstline);
    MarkerInUsableRows(l, 0, firstline);
    MarkerInUsableRows(l + b, 0, firstline);
    DivModUnique(l + b, b, l / b + 1, l % b);
  }

  /** C's truncating remainder is negative for a negative line, so the
      marker of line `-k` (for `0 < k < 4 - firstline`) lands `k` rows
      above `firstline`, in column 0. */
  lemma {:induction false} NegativeLineAboveFirstLine(line: int, xshift: int, firstline: int)
    requires firstline < DISPLAY_ROWS && -RowsPerColumn(firstline) < line < 0
    ensures MarkerColumn(line, xshift, firstline) == 0
    ensures MarkerRow(line, firstline) == firstline + line
    ensures MarkerRow(line, firstline) < firstline
  {
  }

  /** Erasing after drawing gives the same page as erasing alone: both
      address the same cell, so the marker leaves no trace. */
  lemma {:induction false} EmptyAfterFill(p: MenuPage)
    requires CanDrawMarker(p)
    ensures CanDrawMarker(FillLine(p))
    ensures EmptyLine(FillLine(p)) == EmptyLine(p)
  {
  }

  /** Drawing the marker twice is drawing it once. */
  lemma {:induction false} FillLineIdempotent(p: MenuPage)
    requires CanDrawMarker(p)
    ensures CanDrawMarker(FillLine(p))
    ensures FillLine(FillLine(p)) == FillLine(p)
  {
  }
}
