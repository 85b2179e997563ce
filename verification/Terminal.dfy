// The text terminal: an 80x25 screen that wraps and scrolls, as a window on an
// unbounded layout of everything written so far.
module Layout {
  type Byte = c: int | 0 <= c < 256

  type Line = seq<Byte>

  const WIDTH: nat := 80
  const HEIGHT: nat := 25
  const NEWLINE: Byte := 10
  const SPACE: Byte := 32

  // One character appended to a non-empty list of lines.
  function Put(lines: seq<Line>, c: Byte): seq<Line>
    requires |lines| > 0
  {
    if c == NEWLINE then lines + [[]]
    else
      var last := lines[|lines| - 1] + [c];
      var rest := lines[..|lines| - 1];
      if |last| == WIDTH then rest + [last, []] else rest + [last]
  }

  function PutAll(lines: seq<Line>, text: seq<Byte>): (r: seq<Line>)
    requires |lines| > 0
    ensures |r| > 0
    decreases |text|
  {
    if text == [] then lines else PutAll(Put(lines, text[0]), text[1..])
  }

  // Every line is at most WIDTH long, the last one is not full.
  predicate Proper(lines: seq<Line>) {
    && |lines| > 0
    && (forall i :: 0 <= i < |lines| ==> |lines[i]| <= WIDTH)
    && |lines[|lines| - 1]| < WIDTH
  }

  // The leading characters that fit on one line: up to a newline or the width.
  function LineLength(text: seq<Byte>, width: nat): (n: nat)
    ensures n <= |text| && n <= width
    ensures n < width && n < |text| ==> text[n] == NEWLINE
    ensures forall i :: 0 <= i < n ==> text[i] != NEWLINE
  {
    if width == 0 || text == [] || text[0] == NEWLINE then 0 else 1 + LineLength(text[1..], width - 1)
  }

  // The layout of a text, from the front: a line ends at a newline, which is
  // dropped, or after its 80th character.
  function Lines(text: seq<Byte>): seq<Line>
    decreases |text|
  {
    var n := LineLength(text, WIDTH);
    if n == WIDTH then [text[..n]] + Lines(text[n..])
    else if n < |text| then [text[..n]] + Lines(text[n + 1..])
    else [text]
  }

  lemma {:induction false} LineLengthOfPrefix(l: Line, text: seq<Byte>, width: nat)
    requires |l| <= width && forall i :: 0 <= i < |l| ==> l[i] != NEWLINE
    ensures LineLength(l + text, width) == |l| + LineLength(text, width - |l|)
  {
    if l == [] {
      assert l + text == text;
    } else {
      assert (l + text)[1..] == l[1..] + text;
      LineLengthOfPrefix(l[1..], text, width - 1);
    }
  }

  predicate NoNewline(l: Line) {
    forall i :: 0 <= i < |l| ==> l[i] != NEWLINE
  }

  // How the layout continues behind a line: at its end, at a newline, and
  // where it is full.
  lemma LinesAfter(l: Line, text: seq<Byte>)
    requires |l| <= WIDTH && NoNewline(l)
    ensures |l| < WIDTH ==> Lines(l) == [l] && Lines(l + ([NEWLINE] + text)) == [l] + Lines(text)
    ensures |l| == WIDTH ==> Lines(l + text) == [l] + Lines(text)
  {
    var t := [NEWLINE] + text;
    LineLengthOfPrefix(l, [], WIDTH);
    LineLengthOfPrefix(l, text, WIDTH);
    LineLengthOfPrefix(l, t, WIDTH);
    assert l + [] == l;
    assert (l + t)[..|l|] == l && (l + t)[|l| + 1..] == text;
    assert (l + text)[..|l|] == l && (l + text)[|l|..] == text;
  }

  lemma PutOne(before: seq<Line>, l: Line, c: Byte)
    requires |l| < WIDTH
    ensures Put(before + [l], c) ==
      if c == NEWLINE then (before + [l]) + [[]]
      else if |l| + 1 == WIDTH then (before + [l + [c]]) + [[]]
      else before + [l + [c]]
  {
    assert (before + [l])[..|before|] == before;
  }

  lemma SplitFirst(l: Line, text: seq<Byte>)
    requires text != []
    ensures text == [text[0]] + text[1..] && [] + text[1..] == text[1..]
    ensures l + text == (l + [text[0]]) + text[1..]
  {
  }

  lemma Regroup(before: seq<Line>, l: Line, after: seq<Line>)
    ensures (before + [l]) + after == before + ([l] + after)
  {
  }

  // Putting characters one at a time at the end builds the layout that breaks
  // the text from the front.
  lemma {:induction false} PutAllIsLines(before: seq<Line>, l: Line, text: seq<Byte>)
    requires |l| < WIDTH && NoNewline(l)
    ensures PutAll(before + [l], text) == before + Lines(l + text)
    decreases |text|
  {
    hide Lines, Put;
    if text == [] {
      LinesAfter(l, []);
      assert l + text == l;
    } else {
      var c, rest := text[0], text[1..];
      SplitFirst(l, text);
      PutOne(before, l, c);
      if c == NEWLINE {
        LinesAfter(l, rest);
        PutAllIsLines(before + [l], [], rest);
        Regroup(before, l, Lines(rest));
      } else {
        var l' := l + [c];
        if |l'| == WIDTH {
          LinesAfter(l', rest);
          PutAllIsLines(before + [l'], [], rest);
          Regroup(before, l', Lines(rest));
        } else {
          PutAllIsLines(before, l', rest);
        }
      }
    }
  }

  lemma {:induction false} PutAllProper(lines: seq<Line>, text: seq<Byte>)
    requires Proper(lines)
    ensures Proper(PutAll(lines, text))
    decreases |text|
  {
    if text != [] {
      PutAllProper(Put(lines, text[0]), text[1..]);
    }
  }

  // Several writes, one after the other.
  function WriteAll(lines: seq<Line>, writes: seq<seq<Byte>>): (r: seq<Line>)
    requires |lines| > 0
    decreases |writes|
  {
    if writes == [] then lines else WriteAll(PutAll(lines, writes[0]), writes[1..])
  }

  function Joined(writes: seq<seq<Byte>>): seq<Byte>
    decreases |writes|
  {
    if writes == [] then [] else writes[0] + Joined(writes[1..])
  }

  lemma {:induction false} PutAllJoined(lines: seq<Line>, a: seq<Byte>, b: seq<Byte>)
    requires |lines| > 0
    ensures PutAll(PutAll(lines, a), b) == PutAll(lines, a + b)
    decreases |a|
  {
    if a == [] {
      assert a + b == b;
    } else {
      assert (a + b)[1..] == a[1..] + b;
      PutAllJoined(Put(lines, a[0]), a[1..], b);
    }
  }

  lemma {:induction false} WriteAllIsPutAll(lines: seq<Line>, writes: seq<seq<Byte>>)
    requires |lines| > 0
    ensures WriteAll(lines, writes) == PutAll(lines, Joined(writes))
    decreases |writes|
  {
    if writes != [] {
      WriteAllIsPutAll(PutAll(lines, writes[0]), writes[1..]);
      PutAllJoined(lines, writes[0], Joined(writes[1..]));
    }
  }

  // From the empty screen, any sequence of writes leaves the layout of all the
  // text written, however it was cut into writes.
  lemma AnyWritesAreLaidOut(writes: seq<seq<Byte>>)
    ensures WriteAll([[]], writes) == Lines(Joined(writes)) && Proper(WriteAll([[]], writes))
  {
    WriteAllIsPutAll([[]], writes);
    PutAllProper([[]], Joined(writes));
    var none: seq<Line> := [];
    PutAllIsLines(none, [], Joined(writes));
    assert none + [[]] == [[]] && [] + Joined(writes) == Joined(writes);
    assert none + Lines(Joined(writes)) == Lines(Joined(writes));
  }

  // The text that a layout shows: a newline behind each line that is neither
  // the last one nor full.
  function Text(lines: seq<Line>): seq<Byte>
    requires |lines| > 0
  {
    if |lines| == 1 then lines[0]
    else lines[0] + (if |lines[0]| == 80 then [] else [10]) + Text(lines[1..])
  }

  // Lines of at most 80 characters without newlines, the last one shorter.
  ghost predicate Displayable(lines: seq<Line>) {
    && |lines| > 0 && |lines[|lines| - 1]| < 80
    && forall i :: 0 <= i < |lines| ==> DisplayLine(lines[i])
  }

  ghost predicate DisplayLine(l: Line) {
    |l| <= 80 && forall i :: 0 <= i < |l| ==> l[i] != 10
  }

  lemma OneMoreLine(l: Line, lines: seq<Line>)
    requires |lines| > 0
    ensures Text([l] + lines) == l + (if |l| == 80 then [] else [10]) + Text(lines)
    ensures Displayable(lines) && DisplayLine(l) ==> Displayable([l] + lines)
  {
    assert ([l] + lines)[1..] == lines;
  }

  lemma Divided(text: seq<Byte>, n: nat)
    requires n <= |text|
    ensures text[..n] + [] + text[n..] == text
    ensures n < |text| && text[n] == 10 ==> text[..n] + [10] + text[n + 1..] == text
  {
  }

  // The layout shows the text, and is the only one of its kind that does.
  lemma {:induction false} LinesShowText(text: seq<Byte>)
    ensures Displayable(Lines(text)) && Text(Lines(text)) == text
    decreases |text|
  {
    hide Text, Displayable;
    var n := LineLength(text, WIDTH);
    Divided(text, n);
    if n == WIDTH {
      LinesShowText(text[n..]);
      LinesNotEmpty(text[n..]);
      OneMoreLine(text[..n], Lines(text[n..]));
    } else if n < |text| {
      LinesShowText(text[n + 1..]);
      LinesNotEmpty(text[n + 1..]);
      OneMoreLine(text[..n], Lines(text[n + 1..]));
    } else {
      LastLine(text);
    }
  }

  lemma LinesNotEmpty(text: seq<Byte>)
    ensures |Lines(text)| > 0
  {
  }

  lemma LastLine(l: Line)
    requires |l| < 80 && DisplayLine(l)
    ensures Displayable([l]) && Text([l]) == l
  {
  }

  lemma {:induction false} LinesOfText(lines: seq<Line>)
    requires Displayable(lines)
    ensures Lines(Text(lines)) == lines
  {
    hide Lines;
    var l := lines[0];
    assert DisplayLine(l);
    if |lines| == 1 {
      LinesAfter(l, []);
      assert lines == [l];
    } else {
      var rest := lines[1..];
      LinesOfText(rest);
      assert lines == [l] + rest;
      hide Text, Displayable;
      OneMoreLine(l, rest);
      LinesAfter(l, Text(rest));
      Associates(l, Text(rest));
    }
  }

  lemma Associates(l: Line, text: seq<Byte>)
    ensures l + [10] + text == l + ([NEWLINE] + text) && l + [] + text == l + text
  {
  }

  // ---------- The window ----------

  // A character cell: the character and its colour byte.
  function VgaEntry(c: Byte, color: Byte): int {
    c + color * 256
  }

  // The first layout line that is on the screen.
  function Top(lines: seq<Line>): nat {
    if |lines| <= HEIGHT then 0 else |lines| - HEIGHT
  }

  function CellAt(lines: seq<Line>, color: Byte, y: nat, x: nat): int {
    var i := Top(lines) + y;
    if i < |lines| && x < |lines[i]| then VgaEntry(lines[i][x], color) else VgaEntry(SPACE, color)
  }

  // Cell x of row y in numbers: the low byte is the character, a space where the
  // layout has none, and the high byte is the colour.
  ghost predicate ShowsAt(buffer: seq<int>, lines: seq<Line>, color: Byte, y: nat, x: nat)
    requires |buffer| == 2000 && y < 25 && x < 80
  {
    var i := y + if |lines| <= 25 then 0 else |lines| - 25;
    && buffer[y * 80 + x] / 256 == color
    && buffer[y * 80 + x] % 256 == if i < |lines| && x < |lines[i]| then lines[i][x] else 32
  }

  // The last 25 lines (the first 25 while there are no more), padded with blanks.
  ghost predicate Shows(buffer: seq<int>, lines: seq<Line>, color: Byte) {
    && |buffer| == WIDTH * HEIGHT
    && forall k :: 0 <= k < |buffer| ==> buffer[k] == CellAt(lines, color, k / WIDTH, k % WIDTH)
  }
}

module Terminals {
  import opened Layout

  class Terminal {
    const buffer: array<int>
    var row: nat
    var column: nat
    const color: Byte
    // Everything written so far, laid out without bound.
    ghost var lines: seq<Line>

    ghost predicate Valid()
      reads this, buffer
    {
      && Proper(lines)
      && row < HEIGHT && row == |lines| - 1 - Top(lines)
      && column < WIDTH && column == |lines[|lines| - 1]|
      && Shows(buffer[..], lines, color)
    }

    // The screen in numbers: row and column are where the layout ends, and the
    // 25 rows are the last 25 lines, or the first 25 if there are no more.
    lemma Screen()
      requires Valid()
      ensures buffer.Length == 2000 && row < 25 && column < 80
      ensures column == |lines[|lines| - 1]| && row == (if |lines| <= 25 then |lines| else 25) - 1
      ensures forall y: nat, x: nat :: y < 25 && x < 80 ==> ShowsAt(buffer[..], lines, color, y, x)
    {
      forall y: nat, x: nat | y < 25 && x < 80
        ensures ShowsAt(buffer[..], lines, color, y, x)
      {
        Cell(y, x);
        TwoBytes(buffer[y * 80 + x] % 256, color);
        assert buffer[..][y * 80 + x] == CellAt(lines, color, y, x);
      }
    }

    // terminal_initialize
    constructor (color: Byte)
      ensures Valid() && lines == [[]] && this.color == color && fresh(buffer)
    {
      this.color := color;
      row, column := 0, 0;
      lines := [[]];
      buffer := new int[WIDTH * HEIGHT];
      new;
      for y := 0 to HEIGHT
        modifies buffer
        invariant forall k :: 0 <= k < y * WIDTH ==> buffer[k] == VgaEntry(SPACE, color)
      {
        for x := 0 to WIDTH
          modifies buffer
          invariant forall k :: 0 <= k < y * WIDTH + x ==> buffer[k] == VgaEntry(SPACE, color)
        {
          buffer[y * WIDTH + x] := VgaEntry(SPACE, color);
        }
      }
    }

    method PutEntryAt(c: Byte, color: Byte, x: nat, y: nat)
      requires x < WIDTH && y < HEIGHT && buffer.Length == WIDTH * HEIGHT
      modifies buffer
      ensures buffer[..] == old(buffer[..])[y * WIDTH + x := VgaEntry(c, color)]
    {
      buffer[y * WIDTH + x] := VgaEntry(c, color);
    }

    // terminal_delete_last_line
    method DeleteLastLine()
      requires buffer.Length == WIDTH * HEIGHT
      modifies buffer
      ensures forall k :: 0 <= k < WIDTH * (HEIGHT - 1) ==> buffer[k] == old(buffer[k])
      ensures forall k :: WIDTH * (HEIGHT - 1) <= k < buffer.Length ==> buffer[k] == VgaEntry(SPACE, color)
    {
      var line := WIDTH * (HEIGHT - 1);
      for i := 0 to WIDTH
        invariant forall k :: 0 <= k < line ==> buffer[k] == old(buffer[k])
        invariant forall k :: line <= k < line + i ==> buffer[k] == VgaEntry(SPACE, color)
      {
        buffer[line + i] := VgaEntry(SPACE, color);
      }
    }

    // memcpy(dest, src, 160): the row behind dest is copied to dest.
    method CopyRow(dest: nat)
      requires dest + 2 * WIDTH <= buffer.Length
      modifies buffer
      ensures forall k :: dest <= k < dest + WIDTH ==> buffer[k] == old(buffer[k + WIDTH])
      ensures forall k :: 0 <= k < buffer.Length && !(dest <= k < dest + WIDTH) ==> buffer[k] == old(buffer[k])
    {
      var src := dest + WIDTH;
      for x := 0 to WIDTH
        invariant forall k :: dest <= k < dest + x ==> buffer[k] == old(buffer[k + WIDTH])
        invariant forall k :: 0 <= k < buffer.Length && !(dest <= k < dest + x) ==> buffer[k] == old(buffer[k])
      {
        buffer[dest + x] := buffer[src + x];
      }
    }

    // terminal_scroll
    method Scroll()
      requires buffer.Length == WIDTH * HEIGHT
      modifies buffer
      ensures forall k :: 0 <= k < WIDTH * (HEIGHT - 1) ==> buffer[k] == old(buffer[k + WIDTH])
      ensures forall k :: WIDTH * (HEIGHT - 1) <= k < buffer.Length ==> buffer[k] == VgaEntry(SPACE, color)
    {
      for i := 0 to HEIGHT - 1
        invariant forall k :: 0 <= k < WIDTH * i ==> buffer[k] == old(buffer[k + WIDTH])
        invariant forall k :: WIDTH * i <= k < buffer.Length ==> buffer[k] == old(buffer[k])
      {
        CopyRow(WIDTH * i);
      }
      DeleteLastLine();
    }

    method PutChar(c: Byte)
      requires Valid()
      modifies this`row, this`column, this`lines, buffer
      ensures Valid() && lines == Put(old(lines), c)
    {
      if c == NEWLINE {
        NextLine();
      } else {
        PutEntryAt(c, color, column, row);
        ghost var last := lines[|lines| - 1] + [c];
        ShowsOneMore(old(buffer[..]), buffer[..], lines, color, c);
        lines := lines[..|lines| - 1] + [last];
        column := column + 1;
        if column == WIDTH {
          NextLine();
        }
      }
    }

    // row++, column = 0, and scrolling when the screen is full.
    method NextLine()
      requires |lines| > 0 && row < HEIGHT && row == |lines| - 1 - Top(lines)
      requires forall i :: 0 <= i < |lines| ==> |lines[i]| <= WIDTH
      requires Shows(buffer[..], lines, color)
      modifies this`row, this`column, this`lines, buffer
      ensures Valid() && lines == old(lines) + [[]]
    {
      row := row + 1;
      column := 0;
      ghost var before := lines;
      if row == HEIGHT {
        Scroll();
        row := row - 1;
        ShowsScrolled(old(buffer[..]), buffer[..], before, color);
      } else {
        ShowsBlankLine(buffer[..], before, color);
      }
      lines := lines + [[]];
    }

    // terminal_write
    method Write(data: seq<Byte>)
      requires Valid()
      modifies this`row, this`column, this`lines, buffer
      ensures Valid() && lines == PutAll(old(lines), data)
    {
      for i := 0 to |data|
        invariant Valid()
        invariant PutAll(lines, data[i..]) == PutAll(old(lines), data)
      {
        assert data[i..][0] == data[i] && data[i..][1..] == data[i + 1..];
        PutChar(data[i]);
      }
    }
  }

  lemma Cell(y: nat, x: nat)
    requires y < 25 && x < 80
    ensures y * 80 + x < 2000 && (y * 80 + x) / 80 == y && (y * 80 + x) % 80 == x
  {
  }

  lemma TwoBytes(c: int, color: int)
    requires 0 <= c < 256
    ensures (c + color * 256) / 256 == color && (c + color * 256) % 256 == c
  {
  }

  // A character in the cell at the end of the last line.
  lemma ShowsOneMore(old_: seq<int>, new_: seq<int>, lines: seq<Line>, color: Byte, c: Byte)
    requires Proper(lines) && Shows(old_, lines, color)
    requires var y, x := |lines| - 1 - Top(lines), |lines[|lines| - 1]|;
      y < HEIGHT && new_ == old_[y * WIDTH + x := VgaEntry(c, color)]
    ensures Shows(new_, lines[..|lines| - 1] + [lines[|lines| - 1] + [c]], color)
  {
  }

  // A new empty line on a screen that is not full.
  lemma ShowsBlankLine(buffer: seq<int>, lines: seq<Line>, color: Byte)
    requires 0 < |lines| < HEIGHT && Shows(buffer, lines, color)
    ensures Shows(buffer, lines + [[]], color)
  {
  }

  // A new empty line after scrolling a full screen.
  lemma ShowsScrolled(old_: seq<int>, new_: seq<int>, lines: seq<Line>, color: Byte)
    requires |lines| >= HEIGHT && Shows(old_, lines, color) && |new_| == WIDTH * HEIGHT
    requires forall k :: 0 <= k < WIDTH * (HEIGHT - 1) ==> new_[k] == old_[k + WIDTH]
    requires forall k :: WIDTH * (HEIGHT - 1) <= k < |new_| ==> new_[k] == VgaEntry(SPACE, color)
    ensures Shows(new_, lines + [[]], color)
  {
  }
}
