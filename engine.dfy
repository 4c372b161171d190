/** The editing engine on values: what inserting a byte, breaking a line and
    deleting backward do to the rows and the cursor. */
module Engine {
  import opened Rows
  import opened Viewport
  import opened Bytes
  import opened Keys
  import opened RenderIndex

  /** The document's rows with the cursor. */
  datatype Buffer = Buffer(rows: seq<Row>, cursor: Cursor)

  /** Bytes of row `y`, or nothing on the line past the last row. */
  function LineAt(rows: seq<Row>, y: nat): seq<byte>
  {
    if y < |rows| then rows[y].chars else []
  }

  /** editorInsertChar: `c` goes in at the cursor column (at the end of the
      row when the column is past it), on a new empty row when the cursor is
      on the line past the last row, and the cursor moves right by one. */
  function InsertChar(b: Buffer, c: byte): (r: Buffer)
    requires b.cursor.cy <= |b.rows|
    ensures var y := b.cursor.cy;
      |r.rows| == (if y == |b.rows| then |b.rows| + 1 else |b.rows|) &&
      r.rows[y] == RowOf(InsertAt(LineAt(b.rows, y), b.cursor.cx, c)) &&
      (forall i :: 0 <= i < |b.rows| && i != y ==> r.rows[i] == b.rows[i]) &&
      r.cursor == Cursor(b.cursor.cx + 1, y)
    ensures AllRendered(b.rows) ==> AllRendered(r.rows)
    ensures InDocument(b.cursor, b.rows) ==>
      InDocument(r.cursor, r.rows) && r.rows[b.cursor.cy].chars[b.cursor.cx] == c
  {
    var y := b.cursor.cy;
    var rows := if y == |b.rows| then InsertRowAt(b.rows, |b.rows|, []) else b.rows;
    Buffer(rows[y := RowOf(InsertAt(rows[y].chars, b.cursor.cx, c))], Cursor(b.cursor.cx + 1, y))
  }

  /** editorInsertNewLine: at column 0 an empty row goes in above the cursor;
      elsewhere the tail of the row from the cursor becomes a new row below
      and the row is cut at the cursor. Either way the row is split at the
      cursor and the cursor goes to the start of the next row. */
  function InsertNewLine(b: Buffer): (r: Buffer)
    requires b.cursor.cx == 0 || (b.cursor.cy < |b.rows| && b.cursor.cx <= |b.rows[b.cursor.cy].chars|)
    ensures r.cursor == Cursor(0, b.cursor.cy + 1)
    ensures b.cursor.cy <= |b.rows| ==> |r.rows| == |b.rows| + 1
    ensures b.cursor.cy < |b.rows| && Rendered(b.rows[b.cursor.cy]) ==>
      r.rows == SplitRow(b.rows, b.cursor.cy, b.cursor.cx)
    ensures b.cursor.cy >= |b.rows| ==> r.rows == InsertRowAt(b.rows, b.cursor.cy, [])
    ensures AllRendered(b.rows) ==> AllRendered(r.rows)
    ensures InDocument(b.cursor, b.rows) ==> InDocument(r.cursor, r.rows)
  {
    var x, y := b.cursor.cx, b.cursor.cy;
    if x == 0 then
      if y < |b.rows| && Rendered(b.rows[y]) then
        SplitAtColumnZero(b.rows, y);
        Buffer(InsertRowAt(b.rows, y, []), Cursor(0, y + 1))
      else
        Buffer(InsertRowAt(b.rows, y, []), Cursor(0, y + 1))
    else
      SplitByInsertAndCut(b.rows, y, x);
      Buffer(InsertRowAt(b.rows, y + 1, b.rows[y].chars[x..])[y := RowOf(b.rows[y].chars[..x])], Cursor(0, y + 1))
  }

  /** editorDelChar: nothing at the start of the document or on the line past
      the last row; inside a row the byte before the cursor goes; at the start
      of a row the row is appended to the one above and the cursor lands
      where the row above used to end. */
  function DelChar(b: Buffer): (r: Buffer)
    requires InDocument(b.cursor, b.rows)
    ensures var x, y := b.cursor.cx, b.cursor.cy;
      (y == |b.rows| || (x == 0 && y == 0) ==> r == b) &&
      (y < |b.rows| && x > 0 ==>
        |r.rows| == |b.rows| &&
        r.rows[y].chars == DeleteAt(b.rows[y].chars, x - 1) &&
        (forall i :: 0 <= i < |b.rows| && i != y ==> r.rows[i] == b.rows[i]) &&
        r.cursor == Cursor(x - 1, y)) &&
      (y < |b.rows| && x == 0 && y > 0 ==>
        r.rows == JoinRows(b.rows, y) &&
        |r.rows| == |b.rows| - 1 &&
        r.rows[y - 1].chars == b.rows[y - 1].chars + b.rows[y].chars &&
        r.cursor == Cursor(|b.rows[y - 1].chars|, y - 1))
    ensures AllRendered(b.rows) ==> AllRendered(r.rows)
    ensures InDocument(r.cursor, r.rows)
  {
    var x, y := b.cursor.cx, b.cursor.cy;
    if y == |b.rows| || (y == 0 && x == 0) then b
    else if x > 0 then
      Buffer(b.rows[y := RowOf(DeleteAt(b.rows[y].chars, x - 1))], Cursor(x - 1, y))
    else
      var rows := b.rows[y - 1 := RowOf(b.rows[y - 1].chars + b.rows[y].chars)];
      Buffer(DeleteRowAt(rows, y), Cursor(|b.rows[y - 1].chars|, y - 1))
  }

  /** What an editing key does: Enter breaks the line, Backspace and Ctrl-H
      delete backward, Delete moves right and then deletes backward, and any
      other byte is typed. */
  function EditEffect(key: int, b: Buffer): (r: Buffer)
    requires IsEditKey(key) && InDocument(b.cursor, b.rows)
    ensures AllRendered(b.rows) ==> AllRendered(r.rows)
    ensures InDocument(r.cursor, r.rows)
  {
    if key == ENTER then InsertNewLine(b)
    else if key == BACKSPACE || key == CTRL_H then DelChar(b)
    else if key == DEL_KEY then DelChar(Buffer(b.rows, Viewport.MoveCursor(ARROW_RIGHT, b.cursor, b.rows)))
    else InsertChar(b, key as byte)
  }

  /** How many row updates editorDelChar makes, each bumping `dirty`: none
      when it does nothing, one for a byte, two for a merge (the append to
      the row above, then the row's removal). There are none exactly when
      the rows stay as they were. */
  function DelCharChanges(b: Buffer): (n: nat)
    requires InDocument(b.cursor, b.rows)
    ensures n <= 2
    ensures n == 0 <==> DelChar(b).rows == b.rows
  {
    var x, y := b.cursor.cx, b.cursor.cy;
    if y == |b.rows| || (x == 0 && y == 0) then 0
    else if x > 0 then
      assert |DelChar(b).rows[y].chars| != |b.rows[y].chars|;
      1
    else 2
  }

  /** How many row updates an editing key makes, each bumping `dirty`:
      Enter inserts one row (and may cut one, which does not count), the
      deleting keys as DelCharChanges, and a typed byte one, or two when an
      empty row is added for it first. There are none exactly when the key
      leaves the rows as they were. */
  function EditChanges(key: int, b: Buffer): (n: nat)
    requires IsEditKey(key) && InDocument(b.cursor, b.rows)
    ensures n <= 2
    ensures n == 0 <==> EditEffect(key, b).rows == b.rows
  {
    if key == ENTER then 1
    else if key == BACKSPACE || key == CTRL_H then DelCharChanges(b)
    else if key == DEL_KEY then DelCharChanges(Buffer(b.rows, Viewport.MoveCursor(ARROW_RIGHT, b.cursor, b.rows)))
    else if b.cursor.cy == |b.rows| then 2
    else
      assert |EditEffect(key, b).rows[b.cursor.cy].chars| != |b.rows[b.cursor.cy].chars|;
      1
  }

  /** A typed byte always changes the document, so a Ctrl-X right after it,
      with the counter restored, asks for confirmation instead of quitting. */
  lemma TypingThenQuitAsks(key: int, b: Buffer, dirty: nat)
    requires IsInsertKey(key) && InDocument(b.cursor, b.rows)
    ensures EditEffect(key, b).rows != b.rows
    ensures !QuitGuard(dirty + EditChanges(key, b), QUIT_TIMES, CTRL_X).0
  {
    assert IsEditKey(key);
    assert EditChanges(key, b) > 0;
  }

  /** Backspace right after a newline gives back the rows and the cursor. */
  lemma BackspaceUndoesNewLine(b: Buffer)
    requires InDocument(b.cursor, b.rows) && b.cursor.cy < |b.rows| && Rendered(b.rows[b.cursor.cy])
    ensures DelChar(InsertNewLine(b)) == b
  {
    var x, y := b.cursor.cx, b.cursor.cy;
    var split := InsertNewLine(b);
    assert split.rows == SplitRow(b.rows, y, x);
    JoinUndoesSplit(b.rows, y, x);
    var joined := DelChar(split);
    assert joined.rows == JoinRows(split.rows, y + 1);
    assert joined.cursor == Cursor(x, y);
  }

  /** Backspace inside a row removes the byte before the cursor and moves
      the cursor left, leaving the other rows as they were. */
  lemma DelCharInRow(b: Buffer)
    requires InDocument(b.cursor, b.rows) && b.cursor.cy < |b.rows| && b.cursor.cx > 0
    ensures var x, y := b.cursor.cx, b.cursor.cy;
      DelChar(b) == Buffer(b.rows[y := RowOf(DeleteAt(b.rows[y].chars, x - 1))], Cursor(x - 1, y))
  {
  }

  /** Typing inside a row replaces that row by its text with the byte
      inserted and moves the cursor right. */
  lemma InsertCharInRow(b: Buffer, c: byte)
    requires b.cursor.cy < |b.rows|
    ensures var x, y := b.cursor.cx, b.cursor.cy;
      InsertChar(b, c) == Buffer(b.rows[y := RowOf(InsertAt(b.rows[y].chars, x, c))], Cursor(x + 1, y))
  {
  }

  /** Putting back a rendered row after inserting a byte into it and
      deleting that byte again restores the rows. */
  lemma RowRestored(rows: seq<Row>, y: nat, x: nat, c: byte)
    requires y < |rows| && x <= |rows[y].chars| && Rendered(rows[y])
    ensures var t := InsertAt(rows[y].chars, x, c);
      rows[y := RowOf(t)][y := RowOf(DeleteAt(t, x))] == rows
  {
    DeleteUndoesInsert(rows[y].chars, x, c);
    assert RowOf(rows[y].chars) == rows[y];
  }

  /** Backspace right after typing a byte inside a row gives back the rows
      and the cursor. */
  lemma BackspaceUndoesInsertChar(b: Buffer, c: byte)
    requires InDocument(b.cursor, b.rows) && b.cursor.cy < |b.rows| && Rendered(b.rows[b.cursor.cy])
    ensures DelChar(InsertChar(b, c)) == b
  {
    var x, y := b.cursor.cx, b.cursor.cy;
    InsertCharInRow(b, c);
    DelCharInRow(InsertChar(b, c));
    RowRestored(b.rows, y, x, c);
  }


  /** Delete-forward is a move right followed by a backspace, so at the end of
      the last row it deletes nothing and leaves the cursor on the line past
      the last row. */
  lemma DeleteForwardAtEndOfDocument(rows: seq<Row>)
    requires |rows| > 0
    ensures var c := Cursor(|rows[|rows| - 1].chars|, |rows| - 1);
      DelChar(Buffer(rows, Viewport.MoveCursor(ARROW_RIGHT, c, rows))) == Buffer(rows, Cursor(0, |rows|))
  {
  }

  /** Typing `a`, `b`, a tab and `c` into an empty document gives one row
      whose tab is drawn as six spaces, up to display column 8, and leaves
      the cursor after the `c`, at display column 9. */
  lemma TypingATabbedLine()
    ensures var b := InsertChar(InsertChar(InsertChar(InsertChar(Buffer([], Cursor(0, 0)), 97), 98), TAB), 99);
      b.rows == [RowOf([97, 98, TAB, 99])] && b.cursor == Cursor(4, 0) &&
      Render(b.rows[0].chars) == [97, 98, SPACE, SPACE, SPACE, SPACE, SPACE, SPACE, 99] &&
      DisplayWidth(b.rows[0].chars[..b.cursor.cx]) == 9
  {
    var s: seq<byte> := [97, 98, TAB, 99];
    var b1 := InsertChar(Buffer([], Cursor(0, 0)), 97);
    assert InsertAt([], 0, 97) == s[..1];
    assert b1 == Buffer([RowOf(s[..1])], Cursor(1, 0));
    var b2 := InsertChar(b1, 98);
    assert InsertAt(s[..1], 1, 98) == s[..2];
    assert b2 == Buffer([RowOf(s[..2])], Cursor(2, 0));
    var b3 := InsertChar(b2, TAB);
    assert InsertAt(s[..2], 2, TAB) == s[..3];
    assert b3 == Buffer([RowOf(s[..3])], Cursor(3, 0));
    assert InsertAt(s[..3], 3, 99) == s;
    assert InsertChar(b3, 99) == Buffer([RowOf(s)], Cursor(4, 0));
    assert s[..4] == s;
    TabbedLineRender();
  }

  /** The render form and the width of `ab<tab>c`. */
  lemma TabbedLineRender()
    ensures var s: seq<byte> := [97, 98, TAB, 99];
      Render(s) == [97, 98, SPACE, SPACE, SPACE, SPACE, SPACE, SPACE, 99] && DisplayWidth(s) == 9
  {
    var s: seq<byte> := [97, 98, TAB, 99];
    assert s[..1][..0] == [] && s[..2][..1] == s[..1] && s[..3][..2] == s[..2] && s[..3] == s[..|s| - 1];
    assert Render(s[..1]) == [97];
    assert Render(s[..2]) == [97, 98];
    assert PadToStop(7) == [SPACE];
    assert PadToStop(6) == [SPACE, SPACE];
    assert PadToStop(5) == [SPACE, SPACE, SPACE];
    assert PadToStop(4) == [SPACE, SPACE, SPACE, SPACE];
    assert PadToStop(3) == [SPACE, SPACE, SPACE, SPACE, SPACE];
    assert PadToStop(2) == [SPACE, SPACE, SPACE, SPACE, SPACE, SPACE];
    RenderWidth(s);
  }
}
