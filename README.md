# ctext line buffer, in Dafny

A model of the line buffer of the `ctext` terminal text editor (`ctext.c`):

- **Row store.** The document is a sequence of rows. Each row holds its bytes (`chars`, whose length is `size`) and its render form (`render`, whose length is `rsize`).
- **Render derivation.** `editorUpdateRow` expands every tab to the next multiple of `TAB_STOP` = 8. `editorRowCxtoRx` maps a byte column to a display column by replaying that rule. Both are methods with loops, proved against the pure `Render` and `DisplayWidth`. Lemmas show that the two agree.
- **Row operations.** These insert, delete, extend, shorten and append to rows, and bump `dirty`. They are methods of the class `Editor.EditorState`, which holds the editor's global state. Each is proved equal to a pure function in module `Rows`.
- **Editing engine.** Insert a byte, break a line, delete backward. Delete-forward is move right, then delete backward. The pure specification lives in module `Engine`, on a `Buffer` value (rows and cursor). The class methods are proved to produce exactly that value.
- **Viewport and cursor.** `editorScroll` keeps the cursor inside the window. `editorMoveCursor` moves the cursor and re-clamps its column.
- **Key dispatcher.** `editorProcessKeypress` handles one key. Its contract states each key's effect on the document, the cursor, the file name, `dirty` (an editing key adds the number of row updates it makes, `Engine.EditChanges`) and the Ctrl-X quit counter.
- **Serialisation and loading.** `editorRowsToString` joins the rows, each followed by a newline. `editorOpen` splits a file into lines with `getline` and strips trailing newlines and carriage returns. Loading a saved document gives back its lines.

Bytes are the newtype `Bytes.byte` (0..255). Key codes are `int`s with the values of the C `editorKey` enum.

Two things the code does that a reading of its design might not suggest:

- `getline` splits only at `'\n'`. A lone `'\r'` inside a line stays in the row; only trailing `'\r'`s are stripped (`ctext.c:276-281`).
- `rsize == size` does not mean the row has no tab. A tab standing at display column 7 takes one column (`RenderIndex.TabAtColumnSevenTakesOneColumn`). Only the converse holds: no tab means `rsize == size` (`RenderIndex.WidthBounds`).

## Model

| member | source | states |
|---|---|---|
| RenderIndex.NextCol | ctext.c:322-325 | One byte of the `editorRowCxtoRx` loop advances the display column by 1 to 8. After a tab the column is a multiple of 8. |
| RenderIndex.DisplayWidth | ctext.c:318-328 | The display column after the bytes `s`, as the loop replays it, is at least `|s|`. |
| RenderIndex.PadToStop | ctext.c:341-342 | A tab drawn at column `col` becomes at least one space and ends on a tab stop. |
| RenderIndex.Expand | ctext.c:340-345 | Every byte is drawn as at least one cell, and a tab's padding ends on a tab stop. |
| RenderIndex.Render | ctext.c:330-349 | The render form of a row is the expansions of its bytes, each drawn at the width of what precedes it. It is at least as long as the row. |
| RenderIndex.PadToStopShape | ctext.c:340-342 | A tab drawn at column `col` becomes `8 - col % 8` spaces. |
| RenderIndex.RenderWidth | ctext.c:318-349 | `rsize` equals the display column `editorRowCxtoRx` gives for the end of the row. |
| RenderIndex.RenderHasNoTab | ctext.c:339-347 | The render form holds no tab. |
| RenderIndex.WidthBounds | ctext.c:331-337 | `size <= rsize <= size + tabs * 7`. A row with no tab has `rsize == size` and is drawn as it is. |
| RenderIndex.TabAtColumnSevenTakesOneColumn | ctext.c:340-342 | The row `aaaaaaa<tab>` has one tab and `rsize == size`, so `rsize == size` does not exclude tabs. |
| RenderIndex.TabEndsOnStop | ctext.c:321-326 | Just after a tab the display column is a multiple of 8. |
| RenderIndex.RenderPrefix | ctext.c:339-346 | Rendering a prefix of a row gives a prefix of its render form. |
| RenderIndex.CursorOnCharacter | ctext.c:318-349 | The display column of byte `i` is where that byte is drawn in the render form: the byte itself, or the first space of a tab. |
| RenderIndex.RenderStep | ctext.c:339-346 | One more byte extends the render form by that byte's expansion. |
| RenderIndex.CountTabs | ctext.c:331-335 | The counting loop returns the number of tabs in the row. |
| RenderIndex.NextStop | ctext.c:342 | Between a column and the next tab stop after it, the padding loop's condition `idx % 8 != 0` fails only at that stop. |
| RenderIndex.PadTab | ctext.c:341-342 | The padding loop writes exactly the tab's expansion at `idx`, keeps what lies before, and returns the index after it. |
| RenderIndex.DrawByte | ctext.c:339-346 | One pass of the copy loop writes the byte's expansion at `idx` (a tab's padding, or the byte itself), keeps what lies before, and returns the index after it. |
| RenderIndex.UpdateRow | ctext.c:330-349 | The render buffer, sized `size + tabs*7 + 1`, is never overrun, and its contents are the render form of the row. |
| RenderIndex.RowCxtoRx | ctext.c:318-328 | The display column of byte column `cx` is the length of the render form of the first `cx` bytes, and that render form is a prefix of the row's. |
| Rows.InsertColumn | ctext.c:373 | A column in `[0, size]` is kept; any other becomes `size`. |
| Rows.InsertAt | ctext.c:372-377 | The row is one byte longer, holds `c` at the chosen column, and keeps the other bytes in order around it. |
| Rows.DeleteColumn | ctext.c:383-385 | A column in `[0, size)` is the one removed; any other removes the last byte. |
| Rows.DeleteAt | ctext.c:382-385 | The row is one byte shorter; bytes before `at` stay, bytes after it shift left by one. |
| Rows.DeleteUndoesInsert | ctext.c:372-388 | Deleting the byte just inserted gives the row back. |
| Rows.InsertUndoesDelete | ctext.c:372-388 | Re-inserting a deleted byte where it was gives the row back. |
| Rows.InsertRowAt | ctext.c:352-370 | Out of range nothing changes. Otherwise there is one more row, the new row holds `s` rendered, and rows before and after are unchanged and shifted. Up-to-date render forms stay up to date. |
| Rows.DeleteRowAt | ctext.c:395-401 | Out of range nothing changes. Otherwise there is one row fewer, and the others keep their order. |
| Rows.DeleteRowUndoesInsertRow | ctext.c:352-401 | Deleting the row just inserted gives the rows back. |
| Rows.SplitRow | ctext.c:422-436 | Splitting row `y` at `x` gives two rows whose bytes concatenate to the original. The other rows are unchanged and shifted. |
| Rows.JoinRows | ctext.c:446-451 | Row `y` is appended to row `y-1` and removed, and there is one row fewer. |
| Rows.JoinUndoesSplit | ctext.c:422-452 | Joining the two halves of a split gives the rows back. |
| Rows.SplitAtColumnZero | ctext.c:423-425 | A split at column 0 is the insertion of an empty row above. |
| Rows.SplitByInsertAndCut | ctext.c:426-433 | A split elsewhere is the insertion of the tail below, then cutting the row to its head. |
| Persistence.Joined | ctext.c:255-260 | The bytes `editorRowsToString` writes: each row followed by `'\n'`, in row order. |
| Persistence.JoinedEndsInNewline | ctext.c:255-260 | A saved document with at least one row ends in `'\n'`. |
| Persistence.TotalLen | ctext.c:248-250 | The sum of `size + 1` over the rows is at least the row count and exceeds the first row's size. |
| Persistence.JoinedLength | ctext.c:245-262 | The length summed up front, `size + 1` per row, is the length of the joined bytes. |
| Persistence.SumLengths | ctext.c:246-251 | The first loop computes the sum of `size + 1` over the rows. |
| Persistence.CopyLine | ctext.c:255-260 | One pass of the copy loop writes the row's bytes at `p` followed by `'\n'`, keeps what lies before, and returns the index after the newline. |
| Persistence.RowsToString | ctext.c:245-262 | The buffer has length `buflen`, the sum of `size + 1`, and holds every row followed by `'\n'`, in row order. |
| Persistence.NextLine | ctext.c:276 | `getline` reads a non-empty prefix of the input, up to and including the first `'\n'`, or all the input if there is none. |
| Persistence.StripEnd | ctext.c:278-281 | Stripping keeps a prefix that does not end in `'\n'` or `'\r'`, and removes only such bytes. |
| Persistence.StripLineEnd | ctext.c:278-281 | The stripping loop returns the length of that prefix. |
| Persistence.LoadedLines | ctext.c:276-283 | The lines `editorOpen` inserts, one per `getline` call: there are no more lines than bytes, and some line exactly when the file is not empty. |
| Persistence.LoadedLinesCons | ctext.c:276-283 | The loaded lines are the first `getline` line, stripped, followed by the lines of the rest. |
| Persistence.LoadedLinesAreClean | ctext.c:276-283 | No loaded line holds a `'\n'` or ends in `'\r'`. |
| Persistence.NextLineOfJoined | ctext.c:255-260 | `getline` on saved bytes reads exactly the first row and its newline. |
| Persistence.LoadUndoesSave | ctext.c:245-283 | Loading what `editorRowsToString` wrote gives back the rows, provided no row holds a `'\n'` or ends in `'\r'`. |
| Persistence.LoadSaveLoad | ctext.c:245-286 | Saving a loaded file and loading it again gives the same rows. |
| Keys.CtrlKey | ctext.c:17 | `CTRL_KEY(k)` keeps the low five bits. Ctrl with a lower-case letter gives the letter's position in the alphabet, 1 to 26. |
| Keys.IsInsertKey | ctext.c:722-723 | The keys that reach the `default:` case and are typed: the bytes that no other case names. |
| Keys.KeyClasses | ctext.c:665-724 | Every key is Ctrl-X, Ctrl-S, a cursor-only key or an editing key, and no key is in two of these classes. |
| Keys.QuitGuard | ctext.c:663-725 | The editor quits on Ctrl-X exactly when nothing is unsaved or the counter is spent. Ctrl-X otherwise counts down, and every other key resets the counter to 3. The counter stays in `[0, 3]`. |
| Keys.QuitNeedsConfirmation | ctext.c:670-678 | With unsaved changes, `n` Ctrl-X presses from counter `t` quit exactly when `n > t`. Without them, the first press quits. |
| Viewport.ScrollTo | ctext.c:462-478 | With a window of at least one cell, the new offset shows the position. The offset does not move when the position is already visible. |
| Viewport.ScrollMinimal | ctext.c:462-478 | The new offset is no further from the old one than any other offset whose window shows the position. |
| Viewport.Move | ctext.c:624-658 | After any move the column is at most the length of the cursor's row (0 past the last row). |
| Viewport.MoveCursorAsWritten | ctext.c:629-631 | The move with the ARROW_DOWN guard `cy != rowoff - 1` as written. The column clamp still holds. |
| Viewport.MoveCursor | ctext.c:624-658 | The move with ARROW_DOWN bounded by the number of rows. The cursor stays in the document. |
| Viewport.ArrowDownLeavesDocument | ctext.c:630 | Once the window shows the cursor, ARROW_DOWN on the line past the last row as written moves the cursor off the document. |
| Viewport.LeftUndoesRight | ctext.c:636-650 | ARROW_LEFT undoes ARROW_RIGHT on every row. |
| Viewport.RightUndoesLeft | ctext.c:636-650 | ARROW_RIGHT undoes ARROW_LEFT everywhere except the start of the document. |
| Viewport.MoveTimes | ctext.c:699-702 | After at least one press of a key the cursor is in the document. |
| Viewport.MoveTimesRows | ctext.c:699-702 | `n` presses of ARROW_UP go `n` rows up, stopping at row 0. `n` presses of ARROW_DOWN go `n` rows down, stopping at the line past the last row. |
| Viewport.PageStart | ctext.c:690-698 | Page Up starts from the window's top row. Page Down starts from its bottom row, or from the line past the last row when that is nearer. The start is never past the last row's successor. |
| Viewport.Navigate | ctext.c:680-712 | The cursor after a key that does not edit stays in the document. Home goes to column 0 and End to the end of the row. |
| Viewport.PageRows | ctext.c:688-703 | Page Up leaves the cursor a screenful above the window's top row, but not above row 0. Page Down leaves it a screenful below the window's bottom row, but not past the line past the last row. |
| Engine.InsertChar | ctext.c:414-420 | The byte goes in at the cursor column, or at the end when the column is past it. On the line past the last row it goes on a new row. Other rows are unchanged, and the cursor moves right by one. Render forms and the cursor bound are preserved. |
| Engine.InsertNewLine | ctext.c:422-436 | The row is split at the cursor, so there is one row more, and the cursor goes to the start of the next row. Past the last row an empty row is inserted. Render forms and the cursor bound are preserved. |
| Engine.DelChar | ctext.c:438-452 | Nothing changes past the last row or at the start of the document. Inside a row the byte before the cursor goes, the other rows are unchanged, and the cursor moves left. At column 0 the rows become `JoinRows`: the row is appended to the one above, the rows after it move up by one, and the others stay. The cursor moves to where the row above used to end. |
| Engine.DelCharChanges | ctext.c:438-452 | How often `editorDelChar` bumps `dirty`: 0, 1 or 2 times. It is 0 exactly when the rows stay as they were. |
| Engine.EditEffect | ctext.c:665-723 | An editing key (Enter, Backspace, Ctrl-H, Delete or a typed byte) keeps render forms up to date and the cursor in the document. |
| Engine.EditChanges | ctext.c:665-723 | How often an editing key bumps `dirty`: Enter once, Backspace, Ctrl-H and Delete as `DelCharChanges`, a typed byte once or twice. It is 0 exactly when the key leaves the rows as they were. |
| Engine.TypingThenQuitAsks | ctext.c:670-678 | A typed byte always changes the rows, so a Ctrl-X right after it does not quit but asks for confirmation. |
| Engine.BackspaceUndoesNewLine | ctext.c:422-452 | A newline then a backspace gives back the rows and the cursor. |
| Engine.BackspaceUndoesInsertChar | ctext.c:414-452 | Typing a byte inside a row then a backspace gives back the rows and the cursor. |
| Engine.DeleteForwardAtEndOfDocument | ctext.c:713-717 | Delete-forward at the end of the last row deletes nothing and leaves the cursor on the line past the last row. |
| Engine.TypingATabbedLine | ctext.c:414-420 | Typing `a`, `b`, a tab, `c` into an empty document gives one row drawn as `ab` plus six spaces plus `c`, with the cursor at display column 9. |
| Engine.TabbedLineRender | ctext.c:330-349 | The render form of `ab<tab>c` is `ab` plus six spaces plus `c`, and its width is 9. |
| Editor.LoadStep | ctext.c:276-283 | One pass of the loading loop appends one stripped line and leaves the rest of the file to load. |
| Editor.EditorState.constructor | ctext.c:730-746 | An empty document with the cursor at the origin and no file name. Two terminal lines are kept back from the window. |
| Editor.EditorState.InsertRow | ctext.c:352-370 | The rows become `InsertRowAt`; `dirty` grows by 1 unless `at` is out of range. |
| Editor.EditorState.RowInsertChar | ctext.c:372-380 | Row `y` becomes `InsertAt` of its bytes, re-rendered; `dirty` grows by 1. |
| Editor.EditorState.RowDelChar | ctext.c:382-388 | Row `y` loses the byte at `DeleteColumn`, re-rendered; `dirty` grows by 1. |
| Editor.EditorState.DelRow | ctext.c:395-401 | The rows become `DeleteRowAt`; `dirty` grows by 1 unless `at` is out of range. |
| Editor.EditorState.RowAppendString | ctext.c:403-410 | Row `y` becomes its bytes followed by `s`, re-rendered; `dirty` grows by 1. |
| Editor.EditorState.InsertChar | ctext.c:414-420 | Rows and cursor become `Engine.InsertChar`; `dirty` grows by 2 on a new row, else by 1. |
| Editor.EditorState.InsertNewLine | ctext.c:422-436 | Rows and cursor become `Engine.InsertNewLine`; `dirty` grows by 1. |
| Editor.EditorState.DelChar | ctext.c:438-452 | Rows and cursor become `Engine.DelChar`; `dirty` grows by 0, 1 or 2 (no-op, byte, merge). |
| Editor.EditorState.Scroll | ctext.c:456-479 | `rx` is the display column of the cursor (0 past the last row). Both offsets follow `ScrollTo`, so `rowoff <= cy < rowoff + screenrows` and `coloff <= rx < coloff + screencols`. |
| Editor.EditorState.MoveCursor | ctext.c:624-659 | The cursor becomes `Viewport.MoveCursor` and stays in the document. |
| Editor.EditorState.PageMove | ctext.c:688-703 | The cursor becomes `Viewport.Navigate` of the page key: `PageStart`, then a screenful of `Viewport.MoveCursor` presses. |
| Editor.EditorState.Save | ctext.c:289-313 | Without a file name the prompt's answer is taken, and a missing answer aborts. A successful write hands over the joined rows and clears `dirty`; a failure leaves `dirty` as it was. |
| Editor.EditorState.LoadLine | ctext.c:276-283 | One pass of the loading loop appends the line `getline` reads, stripped, as a row, and returns the position after that line. Inserting the row counts one change in `dirty`, as `editorInsertRow` does at ctext.c:369. |
| Editor.EditorState.Open | ctext.c:264-287 | The file's lines, split and stripped, are appended as rows. `dirty` is 0 and the file name is set. |
| Editor.EditorState.NavigateKey | ctext.c:680-712 | The cursor becomes `Viewport.Navigate` of the key; nothing else changes. |
| Editor.EditorState.EditKey | ctext.c:665-723 | Rows and cursor become `Engine.EditEffect` of the key, and `dirty` grows by `Engine.EditChanges`. Render forms stay up to date. |
| Editor.EditorState.SaveKey | ctext.c:680-686 | Ctrl-S saves, with the file name and `dirty` outcome of `Save`, then moves the cursor as `Viewport.Navigate` of Ctrl-S. |
| Editor.EditorState.HandleKey | ctext.c:665-724 | Every key but Ctrl-X: editing keys act as `Engine.EditEffect` and grow `dirty` by `Engine.EditChanges`. Cursor-only keys leave rows and `dirty` alone and move as `Viewport.Navigate`. Ctrl-S also saves. Only Ctrl-S changes the file name. |
| Editor.EditorState.ProcessKeypress | ctext.c:661-726 | The quit flag and the counter follow `QuitGuard`. Ctrl-X changes neither rows, cursor nor `dirty`. Every other key acts as in `HandleKey`. Cursor and render invariants are kept. |
| Editor.EditorState.Step | ctext.c:757-761 | A key is handled as in `ProcessKeypress`, and the window scrolled. Rows, cursor, `dirty`, file name and quit counter are as `ProcessKeypress` leaves them. The cursor is then inside the window and `rx` is its display column. Both offsets are `ScrollTo` of the offsets before the key, so the window moves only as far as it must. |

## Left out

- Terminal raw mode, key reading and escape-sequence decoding are left out. The key codes are the input alphabet (`Keys.IsKey`).
- Window-size probing is left out. The constructor takes the terminal size as parameters.
- Screen drawing, the append buffer, the status and message bars and their timestamps are left out. They only produce output.
- `editorPrompt` is an interactive loop; its answer is the `answer` parameter of `Save`.
- File system calls are not modelled. The file's bytes are a parameter of `Open`, a failed `fopen` (which ends the program) is not modelled, and the success of open, truncate and write together is the `writeOk` parameter of `Save`.
- `malloc`/`realloc` failure and the `realloc`/`memmove` shifting of the row array are left out. The row array is a sequence that the methods reassign.
- `exit(0)` on quit is the `quit` result of `ProcessKeypress`; the screen clearing before it is left out.
- `CText.c`, an earlier revision with no row store, is not part of this model.
- Editor.EditorState.constructor: requires a terminal of at least 3 rows and 1 column, so that the window is at least one cell. Smaller terminals are not modelled.
- Editor.EditorState.RowDelChar: requires a non-empty row. On an empty row the source sets `size` to -1.
- Keys.IsKey: bytes 128..255 are delivered as negative `char` values in the source. The model takes keys as 0..255, and such bytes still fall to the default case and are inserted.
- `int` overflow of `dirty`, the cursor and the offsets is not modelled; they are unbounded.
- Editor.EditorState.MoveCursor: uses the corrected ARROW_DOWN guard (see Findings). The as-written guard is `Viewport.MoveCursorAsWritten`.
- Viewport.MoveTimes, Viewport.MoveTimesRows, Viewport.Navigate, Viewport.PageRows, Editor.EditorState.PageMove, Editor.EditorState.NavigateKey, Editor.EditorState.HandleKey, Editor.EditorState.ProcessKeypress and Editor.EditorState.Step also move through the corrected guard. Their "stops at the line past the last row" is the intended behaviour. As written, ARROW_DOWN and Page Down can take the cursor past that line (ctext.c:630, ctext.c:700-701).

## Findings

| source | as written | input that shows it | evidently intended | confidence | as-written member | corrected member |
|---|---|---|---|---|---|---|
| ctext.c:630 | ARROW_DOWN moves when `cy != rowoff - 1`. `editorScroll` always leaves `rowoff <= cy`, so the guard always holds, and Page Down (ctext.c:700-701) repeats it a screenful of times. The cursor then passes the last row, and `editorInsertChar`/`editorDelChar` index `row[cy]` out of bounds. | Empty document, cursor (0, 0), `rowoff` 0: ARROW_DOWN gives `cy == 1 > numrows`. | ARROW_DOWN stops at the line past the last row (`cy < numrows`). | not executed | Viewport.MoveCursorAsWritten, Viewport.ArrowDownLeavesDocument | Viewport.MoveCursor, Editor.EditorState.MoveCursor |
