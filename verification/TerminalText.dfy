/** Where text stands on the page of the terminal: lines, wrapping, colours and backspace. */
module TerminalText {
  import opened LittleEndian
  import opened Terminal

  // ---------------------------------------------------------------- lines of text

  ghost predicate PlainLines(lines: seq<seq<byte>>) {
    forall i :: 0 <= i < |lines| ==> Plain(lines[i])
  }

  /** The lines as one text, with a newline (code 10) between each two. */
  function Joined(lines: seq<seq<byte>>): seq<byte>
    requires lines != []
  {
    var n := |lines| - 1;
    if n == 0 then lines[0] else Joined(lines[..n]) + [10] + lines[n]
  }

  /** The row on which line `i` starts: each line before it takes a row for every 80 characters, and one more. */
  function StartRow(lines: seq<seq<byte>>, i: nat): nat
    requires i <= |lines|
  {
    if i == 0 then 0 else StartRow(lines, i - 1) + |lines[i - 1]| / 80 + 1
  }

  /**
    The cell at row `y`, column `x`: the character that falls there, or a blank, in the colour of the text except on
    the rows that were blank from the start.
   */
  function TextCell(lines: seq<seq<byte>>, color: byte, y: nat, x: nat): nat
    decreases |lines|
  {
    if lines == [] then Cell(32, if y < 25 then LIGHT_GREY else color)
    else
      var n := |lines| - 1;
      var k := (y - StartRow(lines, n)) * 80 + x;
      if y >= StartRow(lines, n) && k < |lines[n]| then Cell(lines[n][k], color)
      else TextCell(lines[..n], color, y, x)
  }

  /** The page shows the lines and nothing else, with the cursor after the last character. */
  ghost predicate Typeset(p: Page, lines: seq<seq<byte>>, color: byte)
    requires lines != []
  {
    var n := |lines| - 1;
    && p.Ok() && p.color == color
    && p.row == StartRow(lines, n) + |lines[n]| / 80 && p.column == |lines[n]| % 80
    && |p.rows| == (if p.row < 25 then 25 else p.row + 1)
    && forall y: nat, x: nat :: y < |p.rows| && x < 80 ==> p.rows[y][x] == TextCell(lines, color, y, x)
  }

  lemma {:induction false} StartRowPrefix(lines: seq<seq<byte>>, more: seq<seq<byte>>, i: nat)
    requires i <= |lines| <= |more| && forall k :: 0 <= k < i ==> lines[k] == more[k]
    ensures StartRow(lines, i) == StartRow(more, i)
  {
    if i > 0 { StartRowPrefix(lines, more, i - 1); }
  }

  /** Cells from the row after the last line on are blank. */
  lemma {:induction false} BlankBelow(lines: seq<seq<byte>>, color: byte, y: nat, x: nat)
    requires y >= StartRow(lines, |lines|) && x < 80
    ensures TextCell(lines, color, y, x) == Cell(32, if y < 25 then LIGHT_GREY else color)
  {
    if lines != [] {
      var n := |lines| - 1;
      StartRowPrefix(lines[..n], lines, n);
      BlankBelow(lines[..n], color, y, x);
    }
  }

  // ---------------------------------------------------------------- one more character

  /** What a plain character does to a page, wherever the cursor stands. */
  lemma PlainMeaning(p: Page, c: byte)
    requires p.Ok() && c != 10 && c != 8
    ensures var q, down := Put(p, c), if p.column + 1 == 80 then 1 else 0;
      && q.Ok() && q.color == p.color
      && q.row == p.row + down && q.column == (p.column + 1) % 80
      && |q.rows| == (if p.row + down == |p.rows| then |p.rows| + 1 else |p.rows|)
      && (forall y: nat, x: nat :: y < |p.rows| && x < 80 ==>
            q.rows[y][x] == if y == p.row && x == p.column then Cell(c, p.color) else p.rows[y][x])
      && (forall y: nat, x: nat :: |p.rows| <= y < |q.rows| && x < 80 ==> q.rows[y][x] == Cell(32, p.color))
  {
    PutKeepsOk(p, c);
  }

  /** A newline goes to the first column of the next row, and changes nothing that is shown. */
  lemma NewlineMeaning(p: Page)
    requires p.Ok()
    ensures var q := Put(p, 10);
      && q.Ok() && q.color == p.color && q.row == p.row + 1 && q.column == 0
      && |q.rows| == (if p.row + 1 == |p.rows| then |p.rows| + 1 else |p.rows|)
      && (forall y: nat :: y < |p.rows| ==> q.rows[y] == p.rows[y])
      && (forall y: nat, x: nat :: |p.rows| <= y < |q.rows| && x < 80 ==> q.rows[y][x] == Cell(32, p.color))
  {
    PutKeepsOk(p, 10);
  }

  /** A backspace blanks the cell before the cursor and returns to it; in the first column it does nothing. */
  lemma BackspaceMeaning(p: Page)
    requires p.Ok()
    ensures var q := Put(p, 8);
      && (p.column == 0 ==> q == p)
      && (p.column > 0 ==>
           && q.Ok() && q.color == p.color && q.row == p.row && q.column == p.column - 1 && |q.rows| == |p.rows|
           && forall y: nat, x: nat :: y < |p.rows| && x < 80 ==>
                q.rows[y][x] == if y == p.row && x == p.column - 1 then Cell(32, p.color) else p.rows[y][x])
  {
    PutKeepsOk(p, 8);
  }

  /** A backspace takes away a plain character that did not end its row; after one that did, it does nothing. */
  lemma BackspaceAfter(p: Page, c: byte)
    requires p.Ok() && c != 10 && c != 8
    ensures Put(p, c).Ok()
    ensures p.column + 1 == 80 ==> Put(Put(p, c), 8) == Put(p, c)
    ensures p.column + 1 < 80 ==>
      var q := Put(Put(p, c), 8);
      && q.Ok() && q.color == p.color && q.row == p.row && q.column == p.column && |q.rows| == |p.rows|
      && forall y: nat, x: nat :: y < |p.rows| && x < 80 ==>
           q.rows[y][x] == if y == p.row && x == p.column then Cell(32, p.color) else p.rows[y][x]
  {
    hide Put;
    PlainMeaning(p, c);
    BackspaceMeaning(Put(p, c));
  }

  // ---------------------------------------------------------------- a whole text

  lemma CellAppend(lines: seq<seq<byte>>, last: seq<byte>, c: byte, color: byte, y: nat, x: nat)
    requires x < 80
    ensures var n := |lines|;
      TextCell(lines + [last + [c]], color, y, x)
        == if y == StartRow(lines, n) + |last| / 80 && x == |last| % 80 then Cell(c, color)
           else TextCell(lines + [last], color, y, x)
  {
    var n := |lines|;
    var a, b := lines + [last], lines + [last + [c]];
    StartRowPrefix(lines, a, n);
    StartRowPrefix(lines, b, n);
    assert a[..n] == lines && b[..n] == lines;
    var k := (y - StartRow(lines, n)) * 80 + x;
    PlaceUnique(y - StartRow(lines, n), x, |last|);
    assert y >= StartRow(lines, n) && k < |last| ==> (last + [c])[k] == last[k];
  }

  /** Only one row and column hold a given position. */
  lemma PlaceUnique(row: int, x: nat, k: nat)
    requires x < 80
    ensures row * 80 + x == k <==> row == k / 80 && x == k % 80
  {
  }

  lemma CellNewline(lines: seq<seq<byte>>, color: byte, y: nat, x: nat)
    requires x < 80
    ensures TextCell(lines + [[]], color, y, x) == TextCell(lines, color, y, x)
  {
    assert (lines + [[]])[..|lines|] == lines;
  }

  lemma TypesetAppend(p: Page, lines: seq<seq<byte>>, last: seq<byte>, c: byte, color: byte)
    requires Typeset(p, lines + [last], color) && c != 10 && c != 8
    ensures Typeset(Put(p, c), lines + [last + [c]], color)
  {
    hide Put, TextCell, StartRow;
    var n := |lines|;
    var a, b := lines + [last], lines + [last + [c]];
    StartRowPrefix(lines, a, n);
    StartRowPrefix(lines, b, n);
    PlainMeaning(p, c);
    PlaceAfter(|last|);
    var q := Put(p, c);
    forall y: nat, x: nat | y < |q.rows| && x < 80 ensures q.rows[y][x] == TextCell(b, color, y, x) {
      CellAppend(lines, last, c, color, y, x);
      if y >= |p.rows| {
        NextStart(a);
        BlankBelow(a, color, y, x);
      }
    }
  }

  lemma PlaceAfter(k: nat)
    ensures (k + 1) % 80 == (k % 80 + 1) % 80
    ensures (k + 1) / 80 == k / 80 + if k % 80 + 1 == 80 then 1 else 0
  {
  }

  lemma NextStart(lines: seq<seq<byte>>)
    requires lines != []
    ensures StartRow(lines, |lines|) == StartRow(lines, |lines| - 1) + |lines[|lines| - 1]| / 80 + 1
  {
  }

  lemma TypesetNewline(p: Page, lines: seq<seq<byte>>, color: byte)
    requires lines != [] && Typeset(p, lines, color)
    ensures Typeset(Put(p, 10), lines + [[]], color)
  {
    hide Put, TextCell, StartRow;
    var n := |lines|;
    var b := lines + [[]];
    StartRowPrefix(lines, b, n);
    NextStart(lines);
    NewlineMeaning(p);
    var q := Put(p, 10);
    forall y: nat, x: nat | y < |q.rows| && x < 80 ensures q.rows[y][x] == TextCell(b, color, y, x) {
      CellNewline(lines, color, y, x);
      if y >= |p.rows| { BlankBelow(lines, color, y, x); }
    }
  }

  lemma TypesetFresh(color: byte)
    ensures Typeset(FreshPage().(color := color), [[]], color)
  {
    var p, none := FreshPage().(color := color), [[]];
    assert none[..0] == [];
    assert StartRow(none, 0) == 0;
  }

  lemma {:induction false} TypesetLine(p: Page, lines: seq<seq<byte>>, line: seq<byte>, color: byte)
    requires Typeset(p, lines + [[]], color) && Plain(line)
    ensures Typeset(PutAll(p, line), lines + [line], color)
    decreases |line|
  {
    hide Put, TextCell, StartRow, Typeset;
    TypesetOk(p, lines + [[]], color);
    if line != [] {
      var n := |line| - 1;
      var before, c := line[..n], line[n];
      assert line == before + [c];
      TypesetLine(p, lines, before, color);
      PutAllAppend(p, before, c);
      TypesetAppend(PutAll(p, before), lines, before, c, color);
    }
  }

  lemma TypesetOk(p: Page, lines: seq<seq<byte>>, color: byte)
    requires lines != [] && Typeset(p, lines, color)
    ensures p.Ok()
  {
  }

  lemma {:induction false} PutAllConcat(p: Page, a: seq<byte>, b: seq<byte>)
    requires p.Ok()
    ensures PutAll(p, a + b) == PutAll(PutAll(p, a), b)
    decreases |a|
  {
    if a == [] {
      assert a + b == b;
    } else {
      PutKeepsOk(p, a[0]);
      PutAllConcat(Put(p, a[0]), a[1..], b);
      assert (a + b)[1..] == a[1..] + b;
    }
  }

  /**
    Any text on a fresh page, in any colour: character `j` of line `i` stands at row StartRow(i) + j / 80, column
    j % 80, the cursor after the last, and every other cell is blank.
   */
  lemma {:induction false} TextIsTypeset(lines: seq<seq<byte>>, color: byte)
    requires lines != [] && PlainLines(lines)
    ensures FreshPage().(color := color).Ok()
    ensures Typeset(PutAll(FreshPage().(color := color), Joined(lines)), lines, color)
    decreases |lines|
  {
    hide Put, PutAll, TextCell, StartRow, Typeset;
    var start, n := FreshPage().(color := color), |lines| - 1;
    TypesetFresh(color);
    TypesetOk(start, [[]], color);
    var front, last := lines[..n], lines[n];
    assert lines == front + [last];
    if n == 0 {
      assert [[]] == front + [[]];
      TypesetLine(start, front, last, color);
    } else {
      TextIsTypeset(front, color);
      var p := PutAll(start, Joined(front));
      PutAllConcat(start, Joined(front) + [10], last);
      PutAllAppend(start, Joined(front), 10);
      TypesetNewline(p, front, color);
      TypesetLine(Put(p, 10), front, last, color);
    }
  }

  /** The characters of a text as events. */
  function Chars(data: seq<byte>): seq<Event> {
    if data == [] then [] else Chars(data[..|data| - 1]) + [Char(data[|data| - 1])]
  }

  /** A colour change and then a text is the text in that colour. */
  lemma {:induction false} ColoredText(p: Page, color: byte, data: seq<byte>)
    requires p.Ok()
    ensures p.(color := color).Ok()
    ensures ShowAll(p, [Color(color)] + Chars(data)) == PutAll(p.(color := color), data)
    decreases |data|
  {
    var events := [Color(color)] + Chars(data);
    if data == [] {
      assert events == [Color(color)] && events[..0] == [];
    } else {
      var n := |data| - 1;
      ColoredText(p, color, data[..n]);
      PutAllAppend(p.(color := color), data[..n], data[n]);
      assert data == data[..n] + [data[n]];
      assert events[..|events| - 1] == [Color(color)] + Chars(data[..n]);
    }
  }
}
