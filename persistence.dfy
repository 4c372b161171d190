/** Serialising the document and splitting a file back into lines: the pure
    part of editorRowsToString and editorOpen. */
module Persistence {
  import opened Bytes

  /** The bytes editorRowsToString produces: every line followed by a newline. */
  function Joined(lines: seq<seq<byte>>): seq<byte>
  {
    if lines == [] then [] else lines[0] + [NL] + Joined(lines[1..])
  }

  /** The buffer length editorRowsToString computes: the sum of `size + 1`. */
  function TotalLen(lines: seq<seq<byte>>): (n: nat)
    ensures |lines| <= n
    ensures lines != [] ==> |lines[0]| < n
  {
    if lines == [] then 0 else |lines[0]| + 1 + TotalLen(lines[1..])
  }

  /** The length computed up front is the length of the bytes written. */
  lemma {:induction false} JoinedLength(lines: seq<seq<byte>>)
    ensures |Joined(lines)| == TotalLen(lines)
  {
    if lines != [] {
      JoinedLength(lines[1..]);
    }
  }

  /** A saved document that has rows ends in a newline. */
  lemma {:induction false} JoinedEndsInNewline(lines: seq<seq<byte>>)
    requires lines != []
    ensures |Joined(lines)| > 0 && Joined(lines)[|Joined(lines)| - 1] == NL
  {
    if lines[1..] != [] {
      JoinedEndsInNewline(lines[1..]);
    }
  }

  /** The first loop of editorRowsToString: the sum of `size + 1` over the
      rows. */
  method SumLengths(lines: seq<seq<byte>>) returns (totlen: nat)
    ensures totlen == TotalLen(lines)
  {
    totlen := 0;
    var i := 0;
    while i < |lines|
      invariant i <= |lines|
      invariant totlen + TotalLen(lines[i..]) == TotalLen(lines)
    {
      assert lines[i..][1..] == lines[i + 1..];
      totlen := totlen + |lines[i]| + 1;
      i := i + 1;
    }
  }

  /** One pass of the second loop of editorRowsToString: the row's bytes are
      copied to `p`, followed by a newline; returns the index after it. */
  method CopyLine(buf: array<byte>, p: nat, line: seq<byte>) returns (end: nat)
    requires p + |line| + 1 <= buf.Length
    modifies buf
    ensures end == p + |line| + 1
    ensures buf[..end] == old(buf[..p]) + line + [NL]
  {
    forall k | 0 <= k < |line| {
      buf[p + k] := line[k];
    }
    assert buf[..p + |line|] == old(buf[..p]) + line;
    buf[p + |line|] := NL;
    end := p + |line| + 1;
  }

  /** editorRowsToString: sum the lengths, allocate, then copy each line and
      its newline. */
  method RowsToString(lines: seq<seq<byte>>) returns (buf: array<byte>, buflen: nat)
    ensures buflen == buf.Length == TotalLen(lines)
    ensures buf[..] == Joined(lines)
  {
    var totlen := SumLengths(lines);
    buflen := totlen;
    buf := new byte[totlen];
    var p := 0;
    var i := 0;
    assert lines[0..] == lines;
    while i < |lines|
      invariant i <= |lines|
      invariant p + TotalLen(lines[i..]) == totlen == buf.Length
      invariant buf[..p] + Joined(lines[i..]) == Joined(lines)
    {
      assert lines[i..][1..] == lines[i + 1..];
      ghost var done := buf[..p];
      p := CopyLine(buf, p, lines[i]);
      assert buf[..p] + Joined(lines[i + 1..]) == done + (lines[i] + [NL] + Joined(lines[i + 1..]));
      i := i + 1;
    }
    assert buf[..] == buf[..p];
  }

  /** What one getline call reads from `text`: up to and including the first
      newline, or all of `text` when it holds none. */
  function NextLine(text: seq<byte>): (line: seq<byte>)
    requires text != []
    ensures 0 < |line| <= |text| && line == text[..|line|]
    ensures forall i :: 0 <= i < |line| - 1 ==> line[i] != NL
    ensures line[|line| - 1] == NL || |line| == |text|
  {
    if text[0] == NL || |text| == 1 then [text[0]] else [text[0]] + NextLine(text[1..])
  }

  /** A line with its trailing newlines and carriage returns taken off. */
  function StripEnd(line: seq<byte>): (r: seq<byte>)
    ensures |r| <= |line| && r == line[..|r|]
    ensures r == [] || (r[|r| - 1] != NL && r[|r| - 1] != CR)
    ensures forall i :: |r| <= i < |line| ==> line[i] == NL || line[i] == CR
  {
    if |line| > 0 && (line[|line| - 1] == NL || line[|line| - 1] == CR)
    then StripEnd(line[..|line| - 1])
    else line
  }

  /** The stripping loop of editorOpen: the length left once trailing
      newlines and carriage returns are dropped. */
  method StripLineEnd(line: seq<byte>) returns (linelen: nat)
    ensures linelen <= |line| && line[..linelen] == StripEnd(line)
  {
    linelen := |line|;
    assert line[..linelen] == line;
    while linelen > 0 && (line[linelen - 1] == NL || line[linelen - 1] == CR)
      invariant linelen <= |line|
      invariant StripEnd(line[..linelen]) == StripEnd(line)
    {
      assert line[..linelen][..linelen - 1] == line[..linelen - 1];
      linelen := linelen - 1;
    }
  }

  /** The lines editorOpen inserts for a file holding `text`. */
  function LoadedLines(text: seq<byte>): (lines: seq<seq<byte>>)
    ensures |lines| <= |text|
    ensures text != [] <==> lines != []
    decreases |text|
  {
    if text == [] then [] else
    var line := NextLine(text);
    [StripEnd(line)] + LoadedLines(text[|line|..])
  }

  /** editorOpen's loop, one getline call at a time. */
  lemma LoadedLinesCons(text: seq<byte>)
    requires text != []
    ensures LoadedLines(text) == [StripEnd(NextLine(text))] + LoadedLines(text[|NextLine(text)|..])
  {
  }

  /** A line that survives a save and a load: no newline in it, no carriage
      return at its end. */
  predicate CleanLine(l: seq<byte>)
  {
    (forall i :: 0 <= i < |l| ==> l[i] != NL) && (l == [] || l[|l| - 1] != CR)
  }

  /** Every line editorOpen produces is clean. */
  lemma {:induction false} LoadedLinesAreClean(text: seq<byte>)
    ensures forall i :: 0 <= i < |LoadedLines(text)| ==> CleanLine(LoadedLines(text)[i])
    decreases |text|
  {
    if text != [] {
      var line := NextLine(text);
      LoadedLinesAreClean(text[|line|..]);
      var r := StripEnd(line);
      assert r == [] || r[|r| - 1] != NL;
      assert forall i :: 0 <= i < |r| ==> r[i] != NL;
    }
  }

  /** getline on a saved line reads exactly that line and its newline. */
  lemma {:induction false} NextLineOfJoined(l: seq<byte>, rest: seq<byte>)
    requires forall i :: 0 <= i < |l| ==> l[i] != NL
    ensures NextLine(l + [NL] + rest) == l + [NL]
  {
    if l != [] {
      assert (l + [NL] + rest)[1..] == l[1..] + [NL] + rest;
      NextLineOfJoined(l[1..], rest);
    }
  }

  /** Loading what editorRowsToString wrote gives back the lines, as long as
      none holds a newline or ends in a carriage return. */
  lemma {:induction false} LoadUndoesSave(lines: seq<seq<byte>>)
    requires forall i :: 0 <= i < |lines| ==> CleanLine(lines[i])
    ensures LoadedLines(Joined(lines)) == lines
  {
    if lines != [] {
      var l := lines[0];
      var rest := Joined(lines[1..]);
      NextLineOfJoined(l, rest);
      assert (l + [NL] + rest)[|l| + 1..] == rest;
      assert (l + [NL])[..|l|] == l;
      LoadUndoesSave(lines[1..]);
    }
  }

  /** Saving a loaded file and loading it again changes nothing. */
  lemma LoadSaveLoad(text: seq<byte>)
    ensures LoadedLines(Joined(LoadedLines(text))) == LoadedLines(text)
  {
    LoadedLinesAreClean(text);
    LoadUndoesSave(LoadedLines(text));
  }
}
