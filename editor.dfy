/** The editor's state and the operations that change it step by step: the
    row operations, the editing operations, scrolling, cursor movement, the
    key dispatcher and loading and saving. */
module Editor {
  import opened Bytes
  import opened RenderIndex
  import opened Rows
  import opened Persistence
  import opened Viewport
  import opened Keys
  import Engine

  /** One pass of editorOpen's loop: the line read by getline, stripped, is
      appended to the lines loaded so far, and the rest of the file is still
      to be loaded. */
  lemma LoadStep(done: seq<seq<byte>>, file: seq<byte>, pos: nat, next: nat, all: seq<seq<byte>>)
    requires pos < |file| && next == pos + |NextLine(file[pos..])|
    requires done + LoadedLines(file[pos..]) == all
    ensures (done + [StripEnd(NextLine(file[pos..]))]) + LoadedLines(file[next..]) == all
  {
    var text := file[pos..];
    var line := NextLine(text);
    assert text[|line|..] == file[next..];
    LoadedLinesCons(text);
    var x, l := StripEnd(line), LoadedLines(file[next..]);
    assert (done + [x]) + l == done + ([x] + l);
  }

  /** The global editor state. Terminal settings and the status message are
      not part of the model. */
  class EditorState {
    var cx: nat
    var cy: nat
    var rx: nat
    var screenrows: int
    var screencols: int
    var rowoff: nat
    var coloff: nat
    var row: seq<Row>
    var dirty: nat
    var filename: Option<seq<byte>>
    /** The counter editorProcessKeypress keeps between calls for Ctrl-X. */
    var quitTimes: int

    /** Every row's render form is up to date, the window is at least one
        cell, and the quit counter is in range. */
    ghost predicate Valid()
      reads this
    {
      AllRendered(row) && screenrows >= 1 && screencols >= 1 && 0 <= quitTimes <= QUIT_TIMES
    }

    /** The cursor is on a row, or on the line past the last one, and not
        past the end of its row. */
    ghost predicate CursorInDocument()
      reads this
    {
      InDocument(Cursor(cx, cy), row)
    }

    /** The rows and the cursor, as a value. */
    function Buf(): Engine.Buffer
      reads this
    {
      Engine.Buffer(row, Cursor(cx, cy))
    }

    /** initEditor, given the terminal's size: two lines are kept for the
        status and message bars. */
    constructor (termRows: int, termCols: int)
      requires termRows >= 3 && termCols >= 1
      ensures Valid() && CursorInDocument()
      ensures row == [] && cx == 0 && cy == 0 && rx == 0 && rowoff == 0 && coloff == 0
      ensures screenrows == termRows - 2 && screencols == termCols
      ensures dirty == 0 && filename == None && quitTimes == QUIT_TIMES
    {
      cx, cy, rx := 0, 0, 0;
      rowoff, coloff := 0, 0;
      row := [];
      dirty := 0;
      filename := None;
      quitTimes := QUIT_TIMES;
      screenrows, screencols := termRows - 2, termCols;
    }

    /** editorInsertRow: a new row holding `s` at index `at`; nothing
        happens when `at` is outside `[0, numrows]`. */
    method InsertRow(at: int, s: seq<byte>)
      requires Valid()
      modifies this`row, this`dirty
      ensures Valid()
      ensures row == InsertRowAt(old(row), at, s)
      ensures dirty == if 0 <= at <= |old(row)| then old(dirty) + 1 else old(dirty)
    {
      if at < 0 || at > |row| {
        return;
      }
      var render := UpdateRow(s);
      row := row[..at] + [Row(s, render)] + row[at..];
      dirty := dirty + 1;
    }

    /** editorRowInsertChar on row `y`: `c` goes in at column `at`, or at the
        end of the row when `at` is out of range. */
    method RowInsertChar(y: nat, at: int, c: byte)
      requires Valid() && y < |row|
      modifies this`row, this`dirty
      ensures Valid()
      ensures row == old(row)[y := RowOf(InsertAt(old(row[y].chars), at, c))]
      ensures dirty == old(dirty) + 1
    {
      var chars := row[y].chars;
      var k := if at < 0 || at > |chars| then |chars| else at;
      chars := chars[..k] + [c] + chars[k..];
      var render := UpdateRow(chars);
      row := row[y := Row(chars, render)];
      dirty := dirty + 1;
    }

    /** editorRowDelChar on row `y`: the byte at column `at` is removed, or
        the last byte when `at` is outside the row. */
    method RowDelChar(y: nat, at: int)
      requires Valid() && y < |row| && |row[y].chars| > 0
      modifies this`row, this`dirty
      ensures Valid()
      ensures row == old(row)[y := RowOf(DeleteAt(old(row[y].chars), DeleteColumn(|old(row[y].chars)|, at)))]
      ensures dirty == old(dirty) + 1
    {
      var chars := row[y].chars;
      var k := if at < 0 || at > |chars| then |chars| else at;
      chars := if k < |chars| then chars[..k] + chars[k + 1..] else chars[..|chars| - 1];
      assert chars == DeleteAt(row[y].chars, DeleteColumn(|row[y].chars|, at));
      var render := UpdateRow(chars);
      row := row[y := Row(chars, render)];
      dirty := dirty + 1;
    }

    /** editorDelRow: row `at` is removed; nothing happens when `at` is
        outside `[0, numrows)`. */
    method DelRow(at: int)
      requires Valid()
      modifies this`row, this`dirty
      ensures Valid()
      ensures row == DeleteRowAt(old(row), at)
      ensures dirty == if 0 <= at < |old(row)| then old(dirty) + 1 else old(dirty)
    {
      if at < 0 || at >= |row| {
        return;
      }
      row := row[..at] + row[at + 1..];
      dirty := dirty + 1;
    }

    /** editorRowAppendString on row `y`. */
    method RowAppendString(y: nat, s: seq<byte>)
      requires Valid() && y < |row|
      modifies this`row, this`dirty
      ensures Valid()
      ensures row == old(row)[y := RowOf(old(row[y].chars) + s)]
      ensures dirty == old(dirty) + 1
    {
      var chars := row[y].chars + s;
      var render := UpdateRow(chars);
      row := row[y := Row(chars, render)];
      dirty := dirty + 1;
    }

    /** editorInsertChar: `c` goes in at the cursor, which moves past it; on
        the line past the last row an empty row is added first. */
    method InsertChar(c: byte)
      requires Valid() && cy <= |row|
      modifies this`row, this`dirty, this`cx
      ensures Valid()
      ensures Buf() == Engine.InsertChar(old(Buf()), c)
      ensures dirty == old(dirty) + if cy == |old(row)| then 2 else 1
    {
      if cy == |row| {
        InsertRow(|row|, []);
      }
      RowInsertChar(cy, cx, c);
      cx := cx + 1;
    }

    /** editorInsertNewLine: the row under the cursor is split at the cursor,
        and the cursor goes to the start of the next row. */
    method InsertNewLine()
      requires Valid()
      requires cx == 0 || (cy < |row| && cx <= |row[cy].chars|)
      modifies this`row, this`dirty, this`cx, this`cy
      ensures Valid()
      ensures Buf() == Engine.InsertNewLine(old(Buf()))
      ensures dirty == old(dirty) + if old(cy) <= |old(row)| then 1 else 0
    {
      ghost var before := Buf();
      if cx == 0 {
        InsertRow(cy, []);
        assert row == Engine.InsertNewLine(before).rows;
      } else {
        var chars := row[cy].chars[..cx];
        InsertRow(cy + 1, row[cy].chars[cx..]);
        var render := UpdateRow(chars);
        row := row[cy := Row(chars, render)];
        assert row == Engine.InsertNewLine(before).rows;
      }
      cy := cy + 1;
      cx := 0;
    }

    /** editorDelChar: the byte before the cursor is removed; at the start of
        a row the row is appended to the one above. Nothing happens at the
        start of the document or on the line past the last row. */
    method DelChar()
      requires Valid() && CursorInDocument()
      modifies this`row, this`dirty, this`cx, this`cy
      ensures Valid() && CursorInDocument()
      ensures Buf() == Engine.DelChar(old(Buf()))
      ensures dirty == old(dirty) +
        if old(cy) == |old(row)| || (old(cy) == 0 && old(cx) == 0) then 0
        else if old(cx) > 0 then 1 else 2
    {
      if cy == |row| {
        return;
      }
      if cy == 0 && cx == 0 {
        return;
      }
      ghost var before := Buf();
      if cx > 0 {
        RowDelChar(cy, cx - 1);
        cx := cx - 1;
      } else {
        cx := |row[cy - 1].chars|;
        RowAppendString(cy - 1, row[cy].chars);
        DelRow(cy);
        cy := cy - 1;
      }
      assert Buf() == Engine.DelChar(before);
    }

    /** editorScroll: compute the cursor's display column, then move the
        window just enough to show the cursor. */
    method Scroll()
      requires Valid() && (cy < |row| ==> cx <= |row[cy].chars|)
      modifies this`rx, this`rowoff, this`coloff
      ensures rx == if cy < |row| then DisplayWidth(row[cy].chars[..cx]) else 0
      ensures rowoff == ScrollTo(old(rowoff), cy, screenrows)
      ensures coloff == ScrollTo(old(coloff), rx, screencols)
      ensures rowoff <= cy < rowoff + screenrows && coloff <= rx < coloff + screencols
    {
      rx := 0;
      if cy < |row| {
        rx := RowCxtoRx(row[cy].chars, cx);
      }
      if cy < rowoff {
        rowoff := cy;
      }
      if cy >= rowoff + screenrows {
        rowoff := cy - screenrows + 1;
      }
      if rx < coloff {
        coloff := rx;
      }
      if rx >= coloff + screencols {
        coloff := rx - screencols + 1;
      }
    }

    /** editorMoveCursor, with ARROW_DOWN stopping at the line past the last
        row. */
    method MoveCursor(key: int)
      requires cy <= |row|
      modifies this`cx, this`cy
      ensures Cursor(cx, cy) == Viewport.MoveCursor(key, Cursor(old(cx), old(cy)), row)
      ensures CursorInDocument()
    {
      if key == ARROW_DOWN {
        if cy < |row| {
          cy := cy + 1;
        }
      } else if key == ARROW_UP {
        if cy != 0 {
          cy := cy - 1;
        }
      } else if key == ARROW_LEFT {
        if cx != 0 {
          cx := cx - 1;
        } else if cy > 0 && |row| > 0 {
          cy := cy - 1;
          cx := |row[cy].chars|;
        }
      } else if key == ARROW_RIGHT {
        if cy < |row| && cx < |row[cy].chars| {
          cx := cx + 1;
        } else if cy < |row| && cx == |row[cy].chars| && |row| > 0 {
          cy := cy + 1;
          cx := 0;
        }
      }
      var rowlen := if cy < |row| then |row[cy].chars| else 0;
      if cx > rowlen {
        cx := rowlen;
      }
    }

    /** The Page Up and Page Down case of editorProcessKeypress: the cursor
        goes to the window's top row, or to its bottom row but not past the
        line after the last row, then moves a screenful of rows up or down. */
    method PageMove(key: int)
      requires screenrows >= 1 && CursorInDocument() && rowoff <= cy
      requires key == PAGE_UP || key == PAGE_DOWN
      modifies this`cx, this`cy
      ensures Cursor(cx, cy) == Viewport.Navigate(key, old(Cursor(cx, cy)), row, rowoff, screenrows)
    {
      ghost var target := Viewport.Navigate(key, Cursor(cx, cy), row, rowoff, screenrows);
      if key == PAGE_UP {
        cy := rowoff;
      } else {
        cy := rowoff + screenrows - 1;
        if cy > |row| {
          cy := |row|;
        }
      }
      var dir := if key == PAGE_UP then ARROW_UP else ARROW_DOWN;
      var times := screenrows;
      assert cy == PageStart(key, rowoff, screenrows, |row|);
      while times > 0
        invariant 0 <= times
        invariant cy <= |row|
        invariant MoveTimes(dir, Cursor(cx, cy), row, times) == target
      {
        ghost var before := Cursor(cx, cy);
        MoveCursor(dir);
        assert MoveTimes(dir, before, row, times) == MoveTimes(dir, Cursor(cx, cy), row, times - 1);
        times := times - 1;
      }
    }

    /** editorRowsToString followed by editorSave. `answer` is what the
        file-name prompt returns when there is no file name yet, `writeOk`
        whether opening, truncating and writing the file all succeed. On
        success the bytes written are returned and `dirty` is cleared. */
    method Save(answer: Option<seq<byte>>, writeOk: bool) returns (written: Option<seq<byte>>)
      requires Valid()
      modifies this`filename, this`dirty
      ensures Valid()
      ensures filename == if old(filename).None? then answer else old(filename)
      ensures written == if filename.Some? && writeOk then Some(Joined(Texts(row))) else None
      ensures dirty == if written.Some? then 0 else old(dirty)
    {
      written := None;
      if filename.None? {
        filename := answer;
        if filename.None? {
          return;
        }
      }
      var buf, len := RowsToString(Texts(row));
      if writeOk {
        dirty := 0;
        written := Some(buf[..]);
      }
    }

    /** One pass of editorOpen's loop: getline reads the line at `pos`, its
        line ending is stripped and the rest is appended as a row; returns
        the position after the line. */
    method LoadLine(file: seq<byte>, pos: nat) returns (next: nat)
      requires Valid() && pos < |file|
      modifies this`row, this`dirty
      ensures Valid()
      ensures next == pos + |NextLine(file[pos..])| <= |file|
      ensures dirty == old(dirty) + 1
      ensures Texts(row) == Texts(old(row)) + [StripEnd(NextLine(file[pos..]))]
    {
      var line := NextLine(file[pos..]);
      var linelen := StripLineEnd(line);
      ghost var before := row;
      InsertRow(|row|, line[..linelen]);
      InsertRowAtEnd(before, StripEnd(line));
      TextsAppend(before, RowOf(StripEnd(line)));
      next := pos + |line|;
    }

    /** editorOpen on a file named `name` holding `file`: each line, with its
        trailing newlines and carriage returns dropped, is appended as a row,
        and `dirty` is cleared. */
    method Open(name: seq<byte>, file: seq<byte>)
      requires Valid()
      modifies this`row, this`dirty, this`filename
      ensures Valid()
      ensures Texts(row) == Texts(old(row)) + LoadedLines(file)
      ensures dirty == 0 && filename == Some(name)
    {
      filename := Some(name);
      ghost var all := Texts(row) + LoadedLines(file);
      var pos := 0;
      assert file[pos..] == file;
      while pos < |file|
        invariant pos <= |file|
        invariant Valid() && filename == Some(name)
        invariant Texts(row) + LoadedLines(file[pos..]) == all
      {
        ghost var done, prev := Texts(row), pos;
        pos := LoadLine(file, pos);
        LoadStep(done, file, prev, pos, all);
      }
      assert file[pos..] == [];
      dirty := 0;
    }

    /** The cases of editorProcessKeypress that only move the cursor: the
        arrows (and Ctrl-S, which falls through to them), Page Up and Page
        Down, Home and End; Ctrl-L and Escape do nothing. */
    method NavigateKey(key: int)
      requires screenrows >= 1 && CursorInDocument() && rowoff <= cy
      requires IsNavigationKey(key) || key == CTRL_S
      modifies this`cx, this`cy
      ensures Cursor(cx, cy) == Viewport.Navigate(key, old(Cursor(cx, cy)), row, rowoff, screenrows)
    {
      if key == CTRL_S || key == ARROW_DOWN || key == ARROW_UP || key == ARROW_LEFT || key == ARROW_RIGHT {
        MoveCursor(key);
      } else if key == PAGE_UP || key == PAGE_DOWN {
        PageMove(key);
      } else if key == HOME_KEY {
        cx := 0;
      } else if key == END_KEY {
        if cy < |row| {
          cx := |row[cy].chars|;
        }
      }
    }

    /** The cases of editorProcessKeypress that edit the document: Enter
        breaks the line, Backspace and Ctrl-H delete backward, Delete moves
        right and deletes backward, and any other byte is typed. */
    method EditKey(key: int)
      requires Valid() && CursorInDocument()
      requires IsEditKey(key)
      modifies this`row, this`dirty, this`cx, this`cy
      ensures Valid()
      ensures Buf() == Engine.EditEffect(key, old(Buf()))
      ensures dirty == old(dirty) + Engine.EditChanges(key, old(Buf()))
    {
      if key == ENTER {
        InsertNewLine();
      } else if key == BACKSPACE || key == CTRL_H || key == DEL_KEY {
        if key == DEL_KEY {
          MoveCursor(ARROW_RIGHT);
        }
        DelChar();
      } else {
        InsertChar(key as byte);
      }
    }

    /** The Ctrl-S case of editorProcessKeypress: save, then fall through to
        the cursor keys, which only clamp the column. */
    method SaveKey(answer: Option<seq<byte>>, writeOk: bool)
      requires Valid() && CursorInDocument() && rowoff <= cy
      modifies this`cx, this`cy, this`filename, this`dirty
      ensures Valid() && CursorInDocument()
      ensures Cursor(cx, cy) == Viewport.Navigate(CTRL_S, old(Cursor(cx, cy)), row, rowoff, screenrows)
      ensures filename == (if old(filename).None? then answer else old(filename))
      ensures dirty == (if filename.Some? && writeOk then 0 else old(dirty))
    {
      var _ := Save(answer, writeOk);
      MoveCursor(CTRL_S);
    }

    /** Every case of editorProcessKeypress but Ctrl-X: Ctrl-S saves and
        falls through to the cursor keys, the editing keys change the
        document, and the rest move the cursor. */
    method HandleKey(key: int, answer: Option<seq<byte>>, writeOk: bool)
      requires Valid() && CursorInDocument() && rowoff <= cy && IsKey(key) && key != CTRL_X
      modifies this`row, this`dirty, this`cx, this`cy, this`filename
      ensures Valid() && CursorInDocument()
      ensures IsNavigationKey(key) ==> row == old(row) && dirty == old(dirty)
      ensures IsNavigationKey(key) || key == CTRL_S ==>
        row == old(row) && Cursor(cx, cy) == Viewport.Navigate(key, old(Cursor(cx, cy)), row, rowoff, screenrows)
      ensures IsEditKey(key) ==>
        Buf() == Engine.EditEffect(key, old(Buf())) && dirty == old(dirty) + Engine.EditChanges(key, old(Buf()))
      ensures key == CTRL_S ==>
        filename == (if old(filename).None? then answer else old(filename)) &&
        dirty == (if filename.Some? && writeOk then 0 else old(dirty))
      ensures key != CTRL_S ==> filename == old(filename)
    {
      KeyClasses(key);
      if key == CTRL_S {
        SaveKey(answer, writeOk);
      } else if IsEditKey(key) {
        EditKey(key);
      } else {
        NavigateKey(key);
      }
    }

    /** editorProcessKeypress for one key event. `answer` and `writeOk`
        stand for the file-name prompt and the file system when the key is
        Ctrl-S; `quit` says that the editor exits. */
    method ProcessKeypress(key: int, answer: Option<seq<byte>>, writeOk: bool) returns (quit: bool)
      requires Valid() && CursorInDocument() && rowoff <= cy && IsKey(key)
      modifies this`row, this`dirty, this`cx, this`cy, this`filename, this`quitTimes
      ensures Valid() && CursorInDocument()
      ensures (quit, quitTimes) == QuitGuard(old(dirty), old(quitTimes), key)
      ensures key == CTRL_X ==> Buf() == old(Buf()) && dirty == old(dirty)
      ensures IsNavigationKey(key) ==> row == old(row) && dirty == old(dirty)
      ensures IsNavigationKey(key) || key == CTRL_S ==>
        row == old(row) && Cursor(cx, cy) == Viewport.Navigate(key, old(Cursor(cx, cy)), row, rowoff, screenrows)
      ensures IsEditKey(key) ==>
        Buf() == Engine.EditEffect(key, old(Buf())) && dirty == old(dirty) + Engine.EditChanges(key, old(Buf()))
      ensures key == CTRL_S ==>
        filename == (if old(filename).None? then answer else old(filename)) &&
        dirty == (if filename.Some? && writeOk then 0 else old(dirty))
      ensures key != CTRL_S ==> filename == old(filename)
    {
      quit := false;
      if key == CTRL_X {
        if dirty != 0 && quitTimes > 0 {
          quitTimes := quitTimes - 1;
          return;
        }
        quit := true;
        return;
      }
      HandleKey(key, answer, writeOk);
      quitTimes := QUIT_TIMES;
    }

    /** One turn of the main loop: the key is handled, then the window is
        scrolled for the next screen refresh, so the cursor is inside it. */
    method Step(key: int, answer: Option<seq<byte>>, writeOk: bool) returns (quit: bool)
      requires Valid() && CursorInDocument() && rowoff <= cy && IsKey(key)
      modifies this`row, this`dirty, this`cx, this`cy, this`rx, this`rowoff, this`coloff
      modifies this`filename, this`quitTimes
      ensures Valid() && CursorInDocument()
      ensures (quit, quitTimes) == QuitGuard(old(dirty), old(quitTimes), key)
      ensures key == CTRL_X ==> Buf() == old(Buf()) && dirty == old(dirty)
      ensures IsNavigationKey(key) ==> row == old(row) && dirty == old(dirty)
      ensures IsNavigationKey(key) || key == CTRL_S ==>
        row == old(row) && Cursor(cx, cy) == Viewport.Navigate(key, old(Cursor(cx, cy)), row, old(rowoff), screenrows)
      ensures IsEditKey(key) ==>
        Buf() == Engine.EditEffect(key, old(Buf())) && dirty == old(dirty) + Engine.EditChanges(key, old(Buf()))
      ensures key == CTRL_S ==>
        filename == (if old(filename).None? then answer else old(filename)) &&
        dirty == (if filename.Some? && writeOk then 0 else old(dirty))
      ensures key != CTRL_S ==> filename == old(filename)
      ensures rx == if cy < |row| then DisplayWidth(row[cy].chars[..cx]) else 0
      ensures rowoff <= cy < rowoff + screenrows && coloff <= rx < coloff + screencols
      ensures rowoff == ScrollTo(old(rowoff), cy, screenrows) && coloff == ScrollTo(old(coloff), rx, screencols)
    {
      quit := ProcessKeypress(key, answer, writeOk);
      Scroll();
    }
  }
}
