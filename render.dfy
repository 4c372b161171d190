/** The render form of a row: every tab expanded with spaces to the next tab
    stop, and the mapping from a character column to a display column. */
module RenderIndex {
  import opened Bytes

  /** Width of a tab stop, in display columns. */
  const TAB_STOP: nat := 8

  /** Display column reached after drawing byte `b` from column `col`, counted
      the way editorRowCxtoRx counts it. */
  function NextCol(col: nat, b: byte): (r: nat)
    ensures col < r <= col + TAB_STOP
    ensures b == TAB ==> r % TAB_STOP == 0
  {
    DivModUnique(col, col / TAB_STOP, col % TAB_STOP);
    DivModUnique(col + TAB_STOP - col % TAB_STOP, col / TAB_STOP + 1, 0);
    if b == TAB then col + (TAB_STOP - 1) - col % TAB_STOP + 1 else col + 1
  }

  /** Display column of the cursor standing just after the bytes `s`. */
  function DisplayWidth(s: seq<byte>): (w: nat)
    ensures |s| <= w
  {
    if s == [] then 0 else NextCol(DisplayWidth(s[..|s| - 1]), s[|s| - 1])
  }

  /** What a tab becomes when it is drawn at render column `col`: one space,
      then further spaces until the column is a multiple of TAB_STOP. */
  function PadToStop(col: nat): (r: seq<byte>)
    ensures 0 < |r| && (col + |r|) % TAB_STOP == 0
    decreases TAB_STOP - col % TAB_STOP
  {
    [SPACE] + (if (col + 1) % TAB_STOP == 0 then [] else PadToStop(col + 1))
  }

  /** What byte `b` becomes when it is drawn at render column `col`. */
  function Expand(col: nat, b: byte): (r: seq<byte>)
    ensures 0 < |r|
    ensures b == TAB ==> (col + |r|) % TAB_STOP == 0
  {
    if b == TAB then PadToStop(col) else [b]
  }

  /** The render form of the bytes `s`. */
  function Render(s: seq<byte>): (r: seq<byte>)
    ensures |s| <= |r|
  {
    if s == [] then [] else var p := Render(s[..|s| - 1]); p + Expand(|p|, s[|s| - 1])
  }

  /** Number of tabs in `s`. */
  function Tabs(s: seq<byte>): nat
  {
    if s == [] then 0 else Tabs(s[..|s| - 1]) + (if s[|s| - 1] == TAB then 1 else 0)
  }

  lemma {:induction false} PadToStopShape(col: nat)
    ensures |PadToStop(col)| == TAB_STOP - col % TAB_STOP
    ensures forall i :: 0 <= i < |PadToStop(col)| ==> PadToStop(col)[i] == SPACE
    decreases TAB_STOP - col % TAB_STOP
  {
    if (col + 1) % TAB_STOP != 0 {
      PadToStopShape(col + 1);
    }
  }

  /** The render form is exactly as wide as the display column the cursor
      mapping computes for the end of the row. */
  lemma {:induction false} RenderWidth(s: seq<byte>)
    ensures |Render(s)| == DisplayWidth(s)
  {
    if s != [] {
      RenderWidth(s[..|s| - 1]);
      if s[|s| - 1] == TAB {
        PadToStopShape(DisplayWidth(s[..|s| - 1]));
      }
    }
  }

  /** The render form holds no tab. */
  lemma {:induction false} RenderHasNoTab(s: seq<byte>)
    ensures forall i :: 0 <= i < |Render(s)| ==> Render(s)[i] != TAB
  {
    if s != [] {
      var p := Render(s[..|s| - 1]);
      RenderHasNoTab(s[..|s| - 1]);
      if s[|s| - 1] == TAB {
        PadToStopShape(|p|);
      }
    }
  }

  /** Every byte takes at least one column and a tab at most TAB_STOP, so the
      render form is between `|s|` and `|s| + tabs * (TAB_STOP - 1)` long; a
      row without tabs is drawn as it is. */
  lemma {:induction false} WidthBounds(s: seq<byte>)
    ensures |s| <= DisplayWidth(s) <= |s| + Tabs(s) * (TAB_STOP - 1)
    ensures Tabs(s) == 0 ==> DisplayWidth(s) == |s| && Render(s) == s
  {
    if s != [] {
      WidthBounds(s[..|s| - 1]);
      assert s[..|s| - 1] + [s[|s| - 1]] == s;
    }
  }

  /** A row drawn as wide as it is long may still hold a tab: a tab standing at
      display column 7 takes a single column. */
  lemma TabAtColumnSevenTakesOneColumn()
    ensures var s: seq<byte> := [97, 97, 97, 97, 97, 97, 97, TAB];
      Tabs(s) == 1 && DisplayWidth(s) == |s|
  {
    var s: seq<byte> := [97, 97, 97, 97, 97, 97, 97, TAB];
    assert s[..1][..0] == [];
    assert Tabs(s[..1]) == 0;
    assert s[..2][..1] == s[..1];
    assert Tabs(s[..2]) == 0;
    assert s[..3][..2] == s[..2];
    assert Tabs(s[..3]) == 0;
    assert s[..4][..3] == s[..3];
    assert Tabs(s[..4]) == 0;
    assert s[..5][..4] == s[..4];
    assert Tabs(s[..5]) == 0;
    assert s[..6][..5] == s[..5];
    assert Tabs(s[..6]) == 0;
    assert s[..7][..6] == s[..6];
    assert Tabs(s[..7]) == 0;
    WidthBounds(s[..7]);
    assert s[..7] == s[..|s| - 1];
  }

  /** Just after a tab the display column is a multiple of TAB_STOP. */
  lemma TabEndsOnStop(s: seq<byte>, j: nat)
    requires j < |s| && s[j] == TAB
    ensures DisplayWidth(s[..j + 1]) % TAB_STOP == 0
  {
    assert s[..j + 1][..j] == s[..j];
  }

  /** Rendering a prefix of a row gives a prefix of the row's render form. */
  lemma {:induction false} RenderPrefix(s: seq<byte>, i: nat)
    requires i <= |s|
    ensures Render(s[..i]) <= Render(s)
    decreases |s|
  {
    if i < |s| {
      var p := s[..|s| - 1];
      assert s[..i] == p[..i];
      RenderPrefix(p, i);
    } else {
      assert s[..i] == s;
    }
  }

  /** The display column of character column `i` is where that character is
      drawn: the byte itself, or the first space of a tab's padding. */
  lemma CursorOnCharacter(s: seq<byte>, i: nat)
    requires i < |s|
    ensures DisplayWidth(s[..i]) < |Render(s)|
    ensures Render(s)[DisplayWidth(s[..i])] == if s[i] == TAB then SPACE else s[i]
  {
    assert s[..i + 1][..i] == s[..i];
    RenderWidth(s[..i]);
    RenderPrefix(s, i + 1);
  }

  /** One more byte of the row extends its render form by that byte's expansion. */
  lemma RenderStep(s: seq<byte>, j: nat)
    requires j < |s|
    ensures Render(s[..j + 1]) == Render(s[..j]) + Expand(|Render(s[..j])|, s[j])
    ensures |Render(s[..j + 1])| <= |Render(s)|
  {
    assert s[..j + 1][..j] == s[..j];
    RenderPrefix(s, j + 1);
  }

  /** The tab count editorUpdateRow takes before it sizes the render buffer. */
  method CountTabs(chars: seq<byte>) returns (tabs: nat)
    ensures tabs == Tabs(chars)
  {
    tabs := 0;
    var j := 0;
    while j < |chars|
      invariant j <= |chars|
      invariant tabs == Tabs(chars[..j])
    {
      assert chars[..j + 1][..j] == chars[..j];
      if chars[j] == TAB {
        tabs := tabs + 1;
      }
      j := j + 1;
    }
    assert chars[..j] == chars;
  }

  /** Quotient and remainder by TAB_STOP are unique. */
  lemma DivModUnique(x: int, q: int, r: int)
    requires 0 <= r < TAB_STOP && x == TAB_STOP * q + r
    ensures x % TAB_STOP == r && x / TAB_STOP == q
  {
  }

  /** Between a column and the next tab stop after it, only the stop itself
      is a multiple of TAB_STOP. */
  lemma NextStop(idx: nat, end: nat)
    requires idx < end <= idx + (TAB_STOP - idx % TAB_STOP)
    ensures end % TAB_STOP == 0 <==> end == idx + (TAB_STOP - idx % TAB_STOP)
  {
    var q, r := idx / TAB_STOP, idx % TAB_STOP;
    DivModUnique(idx, q, r);
    if end == idx + (TAB_STOP - r) {
      DivModUnique(end, q + 1, 0);
    } else {
      DivModUnique(end, q, end - TAB_STOP * q);
    }
  }

  /** The padding loop of editorUpdateRow: a space, then spaces until `idx` is
      on a tab stop; returns the index after the padding. */
  method PadTab(buf: array<byte>, idx: nat) returns (end: nat)
    requires idx + |PadToStop(idx)| <= buf.Length
    modifies buf
    ensures end == idx + |PadToStop(idx)|
    ensures buf[..end] == old(buf[..idx]) + PadToStop(idx)
  {
    PadToStopShape(idx);
    ghost var stop := idx + |PadToStop(idx)|;
    end := idx;
    buf[end] := SPACE;
    end := end + 1;
    NextStop(idx, end);
    while end % TAB_STOP != 0
      invariant idx < end <= stop
      invariant end % TAB_STOP == 0 <==> end == stop
      invariant buf[..idx] == old(buf[..idx])
      invariant forall k :: idx <= k < end ==> buf[k] == SPACE
      decreases stop - end
    {
      buf[end] := SPACE;
      end := end + 1;
      NextStop(idx, end);
    }
    assert buf[..end] == old(buf[..idx]) + PadToStop(idx) by {
      assert forall k :: 0 <= k < end ==> buf[..end][k] == (old(buf[..idx]) + PadToStop(idx))[k];
    }
  }

  /** One pass of editorUpdateRow's copy loop: a tab is padded to the next
      stop, any other byte is copied; returns the index after it. */
  method DrawByte(buf: array<byte>, idx: nat, b: byte) returns (end: nat)
    requires idx + |Expand(idx, b)| <= buf.Length
    modifies buf
    ensures end == idx + |Expand(idx, b)|
    ensures buf[..end] == old(buf[..idx]) + Expand(idx, b)
  {
    if b == TAB {
      end := PadTab(buf, idx);
    } else {
      buf[idx] := b;
      end := idx + 1;
    }
  }

  /** editorUpdateRow: count the tabs, allocate a buffer large enough for the
      worst case, then copy the row expanding each tab. */
  method UpdateRow(chars: seq<byte>) returns (render: seq<byte>)
    ensures render == Render(chars)
  {
    var tabs := CountTabs(chars);
    var size := |chars| + tabs * (TAB_STOP - 1) + 1;
    assert |Render(chars)| < size by {
      WidthBounds(chars);
      RenderWidth(chars);
    }
    var buf := new byte[size];
    var idx := 0;
    var j := 0;
    while j < |chars|
      invariant j <= |chars|
      invariant |Render(chars)| < buf.Length
      invariant idx == |Render(chars[..j])| <= |Render(chars)|
      invariant buf[..idx] == Render(chars[..j])
    {
      RenderStep(chars, j);
      idx := DrawByte(buf, idx, chars[j]);
      j := j + 1;
    }
    buf[idx] := NUL;
    assert chars[..j] == chars;
    render := buf[..idx];
  }

  /** editorRowCxtoRx: the display column of character column `cx`. */
  method RowCxtoRx(chars: seq<byte>, cx: nat) returns (rx: nat)
    requires cx <= |chars|
    ensures rx == DisplayWidth(chars[..cx])
    ensures rx == |Render(chars[..cx])| && Render(chars[..cx]) <= Render(chars)
  {
    rx := 0;
    var j := 0;
    while j < cx
      invariant j <= cx
      invariant rx == DisplayWidth(chars[..j])
    {
      assert chars[..j + 1][..j] == chars[..j];
      if chars[j] == TAB {
        rx := rx + (TAB_STOP - 1) - rx % TAB_STOP;
      }
      rx := rx + 1;
      j := j + 1;
    }
    RenderWidth(chars[..cx]);
    RenderPrefix(chars, cx);
  }
}
