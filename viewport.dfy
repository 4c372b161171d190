/** The cursor and the window onto the document: cursor moves with their
    column clamp, and the scroll rule that keeps the cursor in the window. */
module Viewport {
  import opened Rows
  import opened Keys

  /** Cursor position: `cx` is a byte index into row `cy`. */
  datatype Cursor = Cursor(cx: nat, cy: nat)

  /** Length of row `y`, or 0 on the line past the last row. */
  function RowLen(rows: seq<Row>, y: nat): nat
  {
    if y < |rows| then |rows[y].chars| else 0
  }

  /** The cursor is on a row of the document or on the line just past it, and
      not past the end of its row. */
  predicate InDocument(c: Cursor, rows: seq<Row>)
  {
    c.cy <= |rows| && c.cx <= RowLen(rows, c.cy)
  }

  /** editorScroll on one axis: the new offset of a window of `extent` cells,
      at offset `off`, that must show position `pos`. */
  function ScrollTo(off: nat, pos: nat, extent: int): (r: nat)
    ensures extent >= 1 ==> r <= pos < r + extent
    ensures off <= pos < off + extent ==> r == off
  {
    var top := if pos < off then pos else off;
    if pos >= top + extent then pos - extent + 1 else top
  }

  /** editorScroll moves the window only as far as it must: no other offset
      that shows the position lies closer to the old one. */
  lemma ScrollMinimal(off: nat, pos: nat, extent: int, o: int)
    requires extent >= 1 && o <= pos < o + extent
    ensures var r := ScrollTo(off, pos, extent);
      (if r >= off then r - off else off - r) <= (if o >= off then o - off else off - o)
  {
  }

  /** editorMoveCursor for `key`, with the guard of ARROW_DOWN given as
      `canMoveDown`; any other key only re-clamps the column. */
  function Move(key: int, c: Cursor, rows: seq<Row>, canMoveDown: bool): (r: Cursor)
    requires c.cy <= |rows|
    ensures r.cx <= RowLen(rows, r.cy)
  {
    var moved :=
      if key == ARROW_DOWN then
        if canMoveDown then Cursor(c.cx, c.cy + 1) else c
      else if key == ARROW_UP then
        if c.cy != 0 then Cursor(c.cx, c.cy - 1) else c
      else if key == ARROW_LEFT then
        if c.cx != 0 then Cursor(c.cx - 1, c.cy)
        else if c.cy > 0 && |rows| > 0 then Cursor(|rows[c.cy - 1].chars|, c.cy - 1)
        else c
      else if key == ARROW_RIGHT then
        if c.cy < |rows| && c.cx < |rows[c.cy].chars| then Cursor(c.cx + 1, c.cy)
        else if c.cy < |rows| && c.cx == |rows[c.cy].chars| && |rows| > 0 then Cursor(0, c.cy + 1)
        else c
      else c;
    var len := RowLen(rows, moved.cy);
    Cursor(if moved.cx > len then len else moved.cx, moved.cy)
  }

  /** editorMoveCursor as written: ARROW_DOWN moves unless the cursor stands
      on the line just above the window. */
  function MoveCursorAsWritten(key: int, c: Cursor, rows: seq<Row>, rowoff: int): (r: Cursor)
    requires c.cy <= |rows|
    ensures r.cx <= RowLen(rows, r.cy)
  {
    Move(key, c, rows, c.cy != rowoff - 1)
  }

  /** editorMoveCursor with ARROW_DOWN bounded by the number of rows. */
  function MoveCursor(key: int, c: Cursor, rows: seq<Row>): (r: Cursor)
    requires c.cy <= |rows|
    ensures InDocument(r, rows)
  {
    Move(key, c, rows, c.cy < |rows|)
  }

  /** Once editorScroll has run the cursor is never above the window, so the
      ARROW_DOWN guard as written never holds: on the line past the last row
      ARROW_DOWN takes the cursor off the document. */
  lemma ArrowDownLeavesDocument(c: Cursor, rows: seq<Row>, rowoff: int)
    requires c.cy == |rows| && rowoff <= c.cy
    ensures MoveCursorAsWritten(ARROW_DOWN, c, rows, rowoff) == Cursor(0, |rows| + 1)
    ensures !InDocument(MoveCursorAsWritten(ARROW_DOWN, c, rows, rowoff), rows)
  {
  }

  /** ARROW_LEFT undoes ARROW_RIGHT on every row of the document. */
  lemma LeftUndoesRight(c: Cursor, rows: seq<Row>)
    requires InDocument(c, rows) && c.cy < |rows|
    ensures MoveCursor(ARROW_LEFT, MoveCursor(ARROW_RIGHT, c, rows), rows) == c
  {
  }

  /** ARROW_RIGHT undoes ARROW_LEFT everywhere but at the start of the document. */
  lemma RightUndoesLeft(c: Cursor, rows: seq<Row>)
    requires InDocument(c, rows) && c != Cursor(0, 0)
    ensures MoveCursor(ARROW_RIGHT, MoveCursor(ARROW_LEFT, c, rows), rows) == c
  {
  }

  /** The cursor after `n` presses of `key`. */
  function MoveTimes(key: int, c: Cursor, rows: seq<Row>, n: nat): (r: Cursor)
    requires c.cy <= |rows|
    ensures n > 0 ==> InDocument(r, rows)
    decreases n
  {
    if n == 0 then c else MoveTimes(key, MoveCursor(key, c, rows), rows, n - 1)
  }

  /** `n` presses of ARROW_UP go `n` rows up, stopping at the first row;
      `n` presses of ARROW_DOWN go `n` rows down, stopping at the line past
      the last row. */
  lemma {:induction false} MoveTimesRows(key: int, c: Cursor, rows: seq<Row>, n: nat)
    requires c.cy <= |rows|
    ensures key == ARROW_UP ==>
      MoveTimes(key, c, rows, n).cy == if c.cy >= n then c.cy - n else 0
    ensures key == ARROW_DOWN ==>
      MoveTimes(key, c, rows, n).cy == if c.cy + n <= |rows| then c.cy + n else |rows|
    decreases n
  {
    if n > 0 {
      MoveTimesRows(key, MoveCursor(key, c, rows), rows, n - 1);
    }
  }

  /** The row Page Up and Page Down start from: the window's top row, or its
      bottom row but not past the line after the last row. */
  function PageStart(key: int, rowoff: nat, screenrows: int, numrows: nat): (y: nat)
    requires rowoff <= numrows && screenrows >= 1
    ensures y <= numrows
    ensures key == PAGE_UP ==> y == rowoff
    ensures key != PAGE_UP ==> y == rowoff + screenrows - 1 || y == numrows
  {
    if key == PAGE_UP then rowoff
    else if rowoff + screenrows - 1 > numrows then numrows
    else rowoff + screenrows - 1
  }

  /** The cursor after a key of editorProcessKeypress that does not edit: the
      arrows and Ctrl-S (which falls through to them) move as MoveCursor;
      Page Up and Page Down start from the window's edge and move a screenful
      of rows; Home and End go to the start and the end of the row; any other
      key leaves the cursor. */
  function Navigate(key: int, c: Cursor, rows: seq<Row>, rowoff: nat, screenrows: int): (r: Cursor)
    requires InDocument(c, rows) && rowoff <= |rows| && screenrows >= 1
    ensures InDocument(r, rows)
    ensures key == HOME_KEY ==> r == Cursor(0, c.cy)
    ensures key == END_KEY ==> r == Cursor(RowLen(rows, c.cy), c.cy)
  {
    if key == CTRL_S || key == ARROW_UP || key == ARROW_DOWN || key == ARROW_LEFT || key == ARROW_RIGHT then
      MoveCursor(key, c, rows)
    else if key == PAGE_UP || key == PAGE_DOWN then
      MoveTimes(if key == PAGE_UP then ARROW_UP else ARROW_DOWN,
        Cursor(c.cx, PageStart(key, rowoff, screenrows, |rows|)), rows, screenrows)
    else if key == HOME_KEY then Cursor(0, c.cy)
    else if key == END_KEY then
      if c.cy < |rows| then Cursor(|rows[c.cy].chars|, c.cy) else c
    else c
  }

  /** Page Up leaves the cursor a screenful above the window's top row, and
      Page Down a screenful below its bottom row, within the document. */
  lemma PageRows(key: int, c: Cursor, rows: seq<Row>, rowoff: nat, screenrows: int)
    requires InDocument(c, rows) && rowoff <= |rows| && screenrows >= 1
    ensures key == PAGE_UP ==>
      Navigate(key, c, rows, rowoff, screenrows).cy == if rowoff >= screenrows then rowoff - screenrows else 0
    ensures key == PAGE_DOWN ==>
      Navigate(key, c, rows, rowoff, screenrows).cy ==
        if rowoff + 2 * screenrows - 1 <= |rows| then rowoff + 2 * screenrows - 1 else |rows|
  {
    if key == PAGE_UP || key == PAGE_DOWN {
      var dir := if key == PAGE_UP then ARROW_UP else ARROW_DOWN;
      MoveTimesRows(dir, Cursor(c.cx, PageStart(key, rowoff, screenrows, |rows|)), rows, screenrows);
    }
  }
}
