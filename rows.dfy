/** The row store: a row is a line's bytes together with their render form;
    the functions here give the effect of each row operation on values. */
module Rows {
  import opened Bytes
  import opened RenderIndex

  /** One line of the document, without its line terminator. Its `size` is
      `|chars|` and its `rsize` is `|render|`. */
  datatype Row = Row(chars: seq<byte>, render: seq<byte>)

  /** A row whose render form is up to date with its bytes. */
  predicate Rendered(r: Row)
  {
    r.render == Render(r.chars)
  }

  /** Every row of `rows` is rendered. */
  predicate AllRendered(rows: seq<Row>)
  {
    forall i :: 0 <= i < |rows| ==> Rendered(rows[i])
  }

  /** The row holding the bytes `s`, rendered. */
  function RowOf(s: seq<byte>): Row
  {
    Row(s, Render(s))
  }

  /** The lines of the document, without their render forms. */
  function Texts(rows: seq<Row>): (t: seq<seq<byte>>)
    ensures |t| == |rows|
    ensures forall i :: 0 <= i < |rows| ==> t[i] == rows[i].chars
  {
    seq(|rows|, i requires 0 <= i < |rows| => rows[i].chars)
  }

  /** A row appended to the document adds its bytes to the lines. */
  lemma TextsAppend(rows: seq<Row>, r: Row)
    ensures Texts(rows + [r]) == Texts(rows) + [r.chars]
  {
  }

  /** The column editorRowInsertChar writes at: a column outside `[0, size]`
      is taken as `size`, so the byte is appended. */
  function InsertColumn(size: nat, at: int): (k: nat)
    ensures k <= size
    ensures 0 <= at <= size ==> k == at
    ensures at < 0 || at > size ==> k == size
  {
    if at < 0 || at > size then size else at
  }

  /** The bytes of a row after editorRowInsertChar(row, at, c). */
  function InsertAt(s: seq<byte>, at: int, c: byte): (r: seq<byte>)
    ensures |r| == |s| + 1
    ensures var k := InsertColumn(|s|, at);
      r[k] == c &&
      (forall i :: 0 <= i < k ==> r[i] == s[i]) &&
      (forall i :: k <= i < |s| ==> r[i + 1] == s[i])
  {
    var k := InsertColumn(|s|, at);
    s[..k] + [c] + s[k..]
  }

  /** The bytes of a row after editorRowDelChar(row, at). */
  function DeleteAt(s: seq<byte>, at: nat): (r: seq<byte>)
    requires at < |s|
    ensures |r| == |s| - 1
    ensures forall i :: 0 <= i < at ==> r[i] == s[i]
    ensures forall i :: at <= i < |r| ==> r[i] == s[i + 1]
  {
    s[..at] + s[at + 1..]
  }

  /** The byte editorRowDelChar removes: the one at `at`, and the last one
      when `at` is outside `[0, size)`, since a column outside `[0, size]` is
      taken as `size` and the row is then shortened by one. */
  function DeleteColumn(size: nat, at: int): (k: nat)
    requires size > 0
    ensures k < size
    ensures 0 <= at < size ==> k == at
    ensures at < 0 || at >= size ==> k == size - 1
  {
    if 0 <= at < size then at else size - 1
  }

  /** Deleting the byte just inserted gives the row back. */
  lemma DeleteUndoesInsert(s: seq<byte>, at: nat, c: byte)
    requires at <= |s|
    ensures DeleteAt(InsertAt(s, at, c), at) == s
  {
    assert InsertAt(s, at, c) == s[..at] + [c] + s[at..];
  }

  /** Putting a deleted byte back where it was gives the row back. */
  lemma InsertUndoesDelete(s: seq<byte>, at: nat)
    requires at < |s|
    ensures InsertAt(DeleteAt(s, at), at, s[at]) == s
  {
    assert s == s[..at] + [s[at]] + s[at + 1..];
  }

  /** The rows after editorInsertRow(at, s): a no-op outside `[0, numrows]`. */
  function InsertRowAt(rows: seq<Row>, at: int, s: seq<byte>): (r: seq<Row>)
    ensures at < 0 || at > |rows| ==> r == rows
    ensures 0 <= at <= |rows| ==>
      |r| == |rows| + 1 && r[at] == RowOf(s) &&
      (forall i :: 0 <= i < at ==> r[i] == rows[i]) &&
      (forall i :: at <= i < |rows| ==> r[i + 1] == rows[i])
    ensures AllRendered(rows) ==> AllRendered(r)
  {
    if at < 0 || at > |rows| then rows else rows[..at] + [RowOf(s)] + rows[at..]
  }

  /** A row inserted at index `|rows|` is appended. */
  lemma InsertRowAtEnd(rows: seq<Row>, s: seq<byte>)
    ensures InsertRowAt(rows, |rows|, s) == rows + [RowOf(s)]
  {
    assert rows[..|rows|] == rows && rows[|rows|..] == [];
  }

  /** The rows after editorDelRow(at): a no-op outside `[0, numrows)`. */
  function DeleteRowAt(rows: seq<Row>, at: int): (r: seq<Row>)
    ensures at < 0 || at >= |rows| ==> r == rows
    ensures 0 <= at < |rows| ==>
      |r| == |rows| - 1 &&
      (forall i :: 0 <= i < at ==> r[i] == rows[i]) &&
      (forall i :: at <= i < |r| ==> r[i] == rows[i + 1])
    ensures AllRendered(rows) ==> AllRendered(r)
  {
    if at < 0 || at >= |rows| then rows else rows[..at] + rows[at + 1..]
  }

  /** Deleting a row just inserted gives the rows back. */
  lemma DeleteRowUndoesInsertRow(rows: seq<Row>, at: nat, s: seq<byte>)
    requires at <= |rows|
    ensures DeleteRowAt(InsertRowAt(rows, at, s), at) == rows
  {
    assert InsertRowAt(rows, at, s) == rows[..at] + [RowOf(s)] + rows[at..];
  }

  /** Row `y` cut at column `x`: the bytes before `x` stay on row `y`, the
      rest form a new row `y + 1`. */
  function SplitRow(rows: seq<Row>, y: nat, x: nat): (r: seq<Row>)
    requires y < |rows| && x <= |rows[y].chars|
    ensures |r| == |rows| + 1
    ensures r[y].chars + r[y + 1].chars == rows[y].chars && |r[y].chars| == x
    ensures forall i :: 0 <= i < y ==> r[i] == rows[i]
    ensures forall i :: y < i < |rows| ==> r[i + 1] == rows[i]
    ensures AllRendered(rows) ==> AllRendered(r)
  {
    var c := rows[y].chars;
    rows[..y] + [RowOf(c[..x]), RowOf(c[x..])] + rows[y + 1..]
  }

  /** Row `y` appended to row `y - 1` and removed. */
  function JoinRows(rows: seq<Row>, y: nat): (r: seq<Row>)
    requires 0 < y < |rows|
    ensures |r| == |rows| - 1
    ensures r[y - 1].chars == rows[y - 1].chars + rows[y].chars
    ensures forall i :: 0 <= i < y - 1 ==> r[i] == rows[i]
    ensures forall i :: y <= i < |r| ==> r[i] == rows[i + 1]
    ensures AllRendered(rows) ==> AllRendered(r)
  {
    rows[..y - 1] + [RowOf(rows[y - 1].chars + rows[y].chars)] + rows[y + 1..]
  }

  /** Joining the two halves of a split row gives the rows back. */
  lemma JoinUndoesSplit(rows: seq<Row>, y: nat, x: nat)
    requires y < |rows| && x <= |rows[y].chars| && Rendered(rows[y])
    ensures JoinRows(SplitRow(rows, y, x), y + 1) == rows
  {
    var c := rows[y].chars;
    assert c[..x] + c[x..] == c;
    var r := SplitRow(rows, y, x);
    assert r == rows[..y] + [RowOf(c[..x]), RowOf(c[x..])] + rows[y + 1..];
    assert r[..y] == rows[..y];
    assert r[y + 2..] == rows[y + 1..];
    assert RowOf(r[y].chars + r[y + 1].chars) == rows[y];
    assert JoinRows(r, y + 1) == rows[..y] + [rows[y]] + rows[y + 1..];
    assert rows[..y] + [rows[y]] + rows[y + 1..] == rows;
  }

  /** A split at column 0 is the insertion of an empty row above. */
  lemma SplitAtColumnZero(rows: seq<Row>, y: nat)
    requires y < |rows| && Rendered(rows[y])
    ensures SplitRow(rows, y, 0) == InsertRowAt(rows, y, [])
  {
    assert rows[y].chars[0..] == rows[y].chars;
  }

  /** A split elsewhere is the insertion of the tail as a new row below,
      followed by cutting row `y` down to its head. */
  lemma SplitByInsertAndCut(rows: seq<Row>, y: nat, x: nat)
    requires y < |rows| && x <= |rows[y].chars|
    ensures SplitRow(rows, y, x) ==
      InsertRowAt(rows, y + 1, rows[y].chars[x..])[y := RowOf(rows[y].chars[..x])]
  {
  }
}
