/** The part of Marlin's `Screen` character buffer that the menu code uses.

    A `Screen` is a shadow of an LCD character grid: one flat, row-major
    buffer of `rows * cols` characters and a cursor. In the source the
    cursor is a raw `char*` into the buffer; here it is an offset into
    `buffer`, and like the pointer it may be set to any value. Only a
    write through the cursor needs it to address a real cell.
 */
module Screens {

  import CInt

  datatype Screen = Screen(rows: nat, cols: nat, buffer: seq<char>, cursor: int)
  {
    /** The buffer holds exactly one cell per grid position. */
    predicate Valid()
    {
      |buffer| == rows * cols
    }

    /** `count` characters starting at the cursor all land inside the buffer. */
    predicate FitsAtCursor(count: nat)
    {
      0 <= cursor && cursor + count <= |buffer|
    }
  }

  /** `getCursor()`: the raw cursor, for a caller that wants to restore it
      later. Restoring the value it returns gives back the very same screen. */
  function GetCursor(s: Screen): (p: int)
    ensures SetCursor(s, p) == s
  {
    s.cursor
  }

  /** `setCursor(char*)`: put back a cursor obtained from `GetCursor`. */
  function SetCursor(s: Screen, p: int): (r: Screen)
    ensures r.cursor == p
    ensures r.rows == s.rows && r.cols == s.cols && r.buffer == s.buffer
    ensures s.Valid() ==> r.Valid()
  {
    s.(cursor := p)
  }

  /** `setCursor(col, row)`: address the cell at `col` of `row`, row-major.
      No range check or clipping is applied. */
  function SetCursorAt(s: Screen, col: int, row: int): (r: Screen)
    ensures r.rows == s.rows && r.cols == s.cols && r.buffer == s.buffer
    ensures s.Valid() ==> r.Valid()
  {
    SetCursor(s, row * s.cols + col)
  }

  /** Row-major addressing is faithful: a cell inside the grid gets a cursor
      inside the buffer, from which its column and row can be read back. */
  lemma {:induction false} CellAddressRoundTrip(s: Screen, col: int, row: int)
    requires s.Valid()
    requires 0 <= col < s.cols && 0 <= row < s.rows
    ensures var r := SetCursorAt(s, col, row);
            0 <= r.cursor < |r.buffer| &&
            r.cursor / s.cols == row && r.cursor % s.cols == col
  {
    var n := row * s.cols + col;
    CInt.DivModUnique(n, s.cols, row, col);
    CInt.MulAtLeast(s.rows - row, s.cols);
    assert (s.rows - row) * s.cols == s.rows * s.cols - row * s.cols;
  }

  /** `print(char)`: write one character at the cursor and step past it. */
  function PrintChar(s: Screen, ch: char): (r: Screen)
    requires s.Valid() && s.FitsAtCursor(1)
    ensures r.Valid() && r.rows == s.rows && r.cols == s.cols
    ensures r.cursor == s.cursor + 1
    ensures |r.buffer| == |s.buffer| && r.buffer[s.cursor] == ch
    ensures forall i :: 0 <= i < |s.buffer| && i != s.cursor ==> r.buffer[i] == s.buffer[i]
  {
    s.(buffer := s.buffer[s.cursor := ch], cursor := s.cursor + 1)
  }

  /** `print(char*)`: write `text` character by character from the cursor on. */
  function PrintText(s: Screen, text: seq<char>): (r: Screen)
    requires s.Valid() && s.FitsAtCursor(|text|)
    ensures r.Valid() && r.rows == s.rows && r.cols == s.cols
    ensures r.cursor == s.cursor + |text|
    ensures r.buffer == s.buffer[..s.cursor] + text + s.buffer[s.cursor + |text|..]
    decreases |text|
  {
    if text == [] then
      s
    else
      PrintText(PrintChar(s, text[0]), text[1..])
  }

  /** Writing a one-character string is writing that character. */
  lemma {:induction false} PrintOneCharText(s: Screen, ch: char)
    requires s.Valid() && s.FitsAtCursor(1)
    ensures PrintText(s, [ch]) == PrintChar(s, ch)
  {
  }

  /** Saving the cursor and restoring it gives back the screen unchanged, and
      a restored cursor reads back as the value that was restored. */
  lemma {:induction false} CursorSaveRestore(s: Screen, p: int)
    ensures SetCursor(s, GetCursor(s)) == s
    ensures GetCursor(SetCursor(s, p)) == p
    ensures SetCursor(s, p).buffer == s.buffer
  {
  }

  /** Drawing between a save and a restore leaves the cursor where it was
      and only the drawn cells changed. */
  lemma {:induction false} DrawBetweenSaveRestore(s: Screen, col: int, row: int, text: seq<char>)
    requires s.Valid() && SetCursorAt(s, col, row).FitsAtCursor(|text|)
    ensures var saved := GetCursor(s);
            var r := SetCursor(PrintText(SetCursorAt(s, col, row), text), saved);
            r.cursor == s.cursor && r.Valid() &&
            forall i :: 0 <= i < |s.buffer| && !(row * s.cols + col <= i < row * s.cols + col + |text|) ==>
              r.buffer[i] == s.buffer[i]
  {
  }
}
