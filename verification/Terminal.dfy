/** The 80x25 text screen of terminal.c as the last window of a page that never scrolls. */
module Terminal {
  import opened LittleEndian

  const WIDTH: nat := 80
  const HEIGHT: nat := 25
  const LIGHT_GREY: nat := 7
  const NEWLINE: nat := 10
  const BACKSPACE: nat := 8
  const SPACE: nat := 32

  /** vga_entry: the character below its colour. */
  function Cell(c: byte, color: byte): nat {
    c + 256 * color
  }

  // ---------------------------------------------------------------- the page

  /** Every row ever shown, and the cursor: the simple picture, without scrolling. */
  datatype Page = Page(rows: seq<seq<nat>>, row: nat, column: nat, color: byte)
  {
    ghost predicate Ok() {
      && |rows| >= HEIGHT && (forall y :: 0 <= y < |rows| ==> |rows[y]| == WIDTH)
      && |rows| - HEIGHT <= row < |rows| && column < WIDTH
    }
  }

  function BlankRow(color: byte): (r: seq<nat>)
    ensures |r| == WIDTH && forall x :: 0 <= x < WIDTH ==> r[x] == Cell(SPACE, color)
  {
    seq(WIDTH, i => Cell(SPACE, color))
  }

  function FreshPage(): Page {
    Page(seq(HEIGHT, y => BlankRow(LIGHT_GREY)), 0, 0, LIGHT_GREY)
  }

  /** The next line; below the last row a new one is started, blank in the current colour. */
  function NextLine(p: Page): Page {
    var q := p.(column := 0, row := p.row + 1);
    if q.row == |p.rows| then q.(rows := p.rows + [BlankRow(p.color)]) else q
  }

  function PutCell(p: Page, x: nat, c: byte): Page
    requires p.row < |p.rows| && x < |p.rows[p.row]|
  {
    var line: seq<nat> := p.rows[p.row];
    var written: seq<nat> := line[x := Cell(c, p.color)];
    p.(rows := p.rows[p.row := written])
  }

  function Put(p: Page, c: byte): Page
    requires p.Ok()
  {
    if c == NEWLINE then NextLine(p)
    else if c == BACKSPACE then
      if p.column > 0 then PutCell(p, p.column - 1, SPACE).(column := p.column - 1) else p
    else
      var q := PutCell(p, p.column, c);
      if p.column + 1 == WIDTH then NextLine(q) else q.(column := p.column + 1)
  }

  lemma PutKeepsOk(p: Page, c: byte)
    requires p.Ok()
    ensures Put(p, c).Ok()
    ensures |p.rows| <= |Put(p, c).rows| <= |p.rows| + 1
    ensures forall y :: 0 <= y < |p.rows| && y != p.row ==> Put(p, c).rows[y] == p.rows[y]
  {
  }

  function PutAll(p: Page, data: seq<byte>): (q: Page)
    requires p.Ok()
    ensures q.Ok()
    decreases |data|
  {
    if data == [] then p
    else
      PutKeepsOk(p, data[0]);
      PutAll(Put(p, data[0]), data[1..])
  }

  lemma {:induction false} PutAllAppend(p: Page, data: seq<byte>, c: byte)
    requires p.Ok()
    ensures PutAll(p, data + [c]) == Put(PutAll(p, data), c)
    decreases |data|
  {
    if data == [] {
      var one: seq<byte> := [c];
      assert one[1..] == [] && data + one == one;
    } else {
      PutKeepsOk(p, data[0]);
      PutAllAppend(Put(p, data[0]), data[1..], c);
      assert (data + [c])[1..] == data[1..] + [c];
    }
  }

  // ---------------------------------------------------------------- the window

  /** What reaches the screen: characters, and changes of the colour they are written in. */
  datatype Event = Char(c: byte) | Color(color: byte)

  /** The page after one event after the other. */
  function ShowAll(p: Page, events: seq<Event>): (q: Page)
    requires p.Ok()
    ensures q.Ok()
    decreases |events|
  {
    if events == [] then p
    else
      var before := ShowAll(p, events[..|events| - 1]);
      match events[|events| - 1]
      case Char(c) => PutKeepsOk(before, c); Put(before, c)
      case Color(color) => before.(color := color)
  }

  /** The cells of rows `top` on, in screen order. */
  ghost predicate ShowsRows(cells: seq<nat>, rows: seq<seq<nat>>, top: nat) {
    && |cells| == WIDTH * HEIGHT && |rows| == top + HEIGHT
    && (forall y :: 0 <= y < |rows| ==> |rows[y]| == WIDTH)
    && forall k :: 0 <= k < WIDTH * HEIGHT ==> cells[k] == rows[top + k / WIDTH][k % WIDTH]
  }

  class Screen {
    const buffer: array<nat>
    var terminalRow: nat
    var terminalColumn: nat
    var terminalColor: byte
    /** The page of which the screen shows the last HEIGHT rows. */
    ghost var page: Page

    ghost predicate Valid()
      reads this, buffer
    {
      && buffer.Length == WIDTH * HEIGHT
      && page.Ok()
      && ShowsRows(buffer[..], page.rows, |page.rows| - HEIGHT)
      && page.row == |page.rows| - HEIGHT + terminalRow && terminalRow < HEIGHT
      && page.column == terminalColumn && page.color == terminalColor
    }

    /** terminal_initialize. */
    constructor (memory: array<nat>)
      requires memory.Length == WIDTH * HEIGHT
      modifies memory
      ensures Valid() && buffer == memory && page == FreshPage()
    {
      buffer := memory;
      terminalRow, terminalColumn := 0, 0;
      terminalColor := LIGHT_GREY;
      page := FreshPage();
      new;
      ClearCells();
      FreshPageShown(buffer[..]);
    }

    method ClearCells()
      requires buffer.Length == WIDTH * HEIGHT
      modifies buffer
      ensures forall k :: 0 <= k < WIDTH * HEIGHT ==> buffer[k] == Cell(SPACE, terminalColor)
    {
      for y := 0 to HEIGHT
        invariant forall k :: 0 <= k < y * WIDTH ==> buffer[k] == Cell(SPACE, terminalColor)
      {
        for x := 0 to WIDTH
          invariant forall k :: 0 <= k < y * WIDTH + x ==> buffer[k] == Cell(SPACE, terminalColor)
        {
          var index := y * WIDTH + x;
          buffer[index] := Cell(SPACE, terminalColor);
        }
      }
    }

    method SetColor(color: byte)
      requires Valid()
      modifies this
      ensures Valid() && page == old(page).(color := color)
    {
      terminalColor := color;
      page := page.(color := color);
    }

    method PutEntryAt(c: byte, color: byte, x: nat, y: nat)
      requires buffer.Length == WIDTH * HEIGHT && x < WIDTH && y < HEIGHT
      modifies buffer
      ensures buffer[..] == old(buffer[..])[y * WIDTH + x := Cell(c, color)]
    {
      var index := y * WIDTH + x;
      buffer[index] := Cell(c, color);
    }

    /** Moves every row up by one and blanks the last. */
    method Scroll()
      requires buffer.Length == WIDTH * HEIGHT
      modifies this`terminalRow, buffer
      ensures terminalRow == HEIGHT - 1
      ensures forall k :: 0 <= k < WIDTH * (HEIGHT - 1) ==> buffer[k] == old(buffer[k + WIDTH])
      ensures forall k :: WIDTH * (HEIGHT - 1) <= k < WIDTH * HEIGHT ==> buffer[k] == Cell(SPACE, terminalColor)
    {
      MoveRowsUp();
      for x := 0 to WIDTH
        invariant forall k :: 0 <= k < WIDTH * (HEIGHT - 1) ==> buffer[k] == old(buffer[k + WIDTH])
        invariant forall k :: WIDTH * (HEIGHT - 1) <= k < WIDTH * (HEIGHT - 1) + x ==>
          buffer[k] == Cell(SPACE, terminalColor)
      {
        buffer[(HEIGHT - 1) * WIDTH + x] := Cell(SPACE, terminalColor);
      }
      terminalRow := HEIGHT - 1;
    }

    method MoveRowsUp()
      requires buffer.Length == WIDTH * HEIGHT
      modifies buffer
      ensures forall k :: 0 <= k < WIDTH * (HEIGHT - 1) ==> buffer[k] == old(buffer[k + WIDTH])
    {
      for y := 0 to HEIGHT - 1
        invariant forall k :: 0 <= k < y * WIDTH ==> buffer[k] == old(buffer[k + WIDTH])
        invariant forall k :: y * WIDTH <= k < WIDTH * HEIGHT ==> buffer[k] == old(buffer[k])
      {
        MoveRowUp(y);
      }
    }

    /** The inner loop: row `y` becomes the row below it. */
    method MoveRowUp(y: nat)
      requires buffer.Length == WIDTH * HEIGHT && y < HEIGHT - 1
      modifies buffer
      ensures forall k :: y * WIDTH <= k < y * WIDTH + WIDTH ==> buffer[k] == old(buffer[k + WIDTH])
      ensures forall k :: 0 <= k < WIDTH * HEIGHT && !(y * WIDTH <= k < y * WIDTH + WIDTH) ==>
        buffer[k] == old(buffer[k])
    {
      for x := 0 to WIDTH
        invariant forall k :: y * WIDTH <= k < y * WIDTH + x ==> buffer[k] == old(buffer[k + WIDTH])
        invariant forall k :: 0 <= k < WIDTH * HEIGHT && !(y * WIDTH <= k < y * WIDTH + x) ==>
          buffer[k] == old(buffer[k])
      {
        buffer[y * WIDTH + x] := buffer[(y + 1) * WIDTH + x];
      }
    }

    /** The step both kinds of line end share: down one row, scrolling past the last. */
    method NewLine()
      requires Valid()
      modifies this, buffer
      ensures Valid() && page == NextLine(old(page))
    {
      hide ShowsRows;
      terminalColumn := 0;
      terminalRow := terminalRow + 1;
      if terminalRow == HEIGHT {
        ghost var m := buffer[..];
        Scroll();
        ScrolledShows(m, buffer[..], page.rows, |page.rows| - HEIGHT, terminalColor);
      }
      page := NextLine(page);
    }

    method PutChar(c: byte)
      requires Valid()
      modifies this, buffer
      ensures Valid() && page == Put(old(page), c)
    {
      hide ShowsRows, NextLine;
      PutKeepsOk(page, c);
      if c == NEWLINE {
        NewLine();
        return;
      }
      if c == BACKSPACE {
        if terminalColumn > 0 {
          terminalColumn := terminalColumn - 1;
          ghost var m := buffer[..];
          PutEntryAt(SPACE, terminalColor, terminalColumn, terminalRow);
          WrittenShows(m, buffer[..], page, terminalRow, terminalColumn, SPACE);
          page := PutCell(page, terminalColumn, SPACE).(column := terminalColumn);
        }
        return;
      }
      ghost var m := buffer[..];
      PutEntryAt(c, terminalColor, terminalColumn, terminalRow);
      WrittenShows(m, buffer[..], page, terminalRow, terminalColumn, c);
      page := PutCell(page, terminalColumn, c);
      if terminalColumn + 1 == WIDTH {
        NewLine();
      } else {
        terminalColumn := terminalColumn + 1;
        page := page.(column := terminalColumn);
      }
    }

    method Write(data: seq<byte>)
      requires Valid()
      modifies this, buffer
      ensures Valid() && page == PutAll(old(page), data)
    {
      for i := 0 to |data|
        invariant Valid() && page == PutAll(old(page), data[..i])
      {
        PutAllAppend(old(page), data[..i], data[i]);
        assert data[..i + 1] == data[..i] + [data[i]];
        PutChar(data[i]);
      }
      assert data[..|data|] == data;
    }

    /** Any stream of characters and colour changes. */
    method Show(events: seq<Event>)
      requires Valid()
      modifies this, buffer
      ensures Valid() && page == ShowAll(old(page), events)
    {
      hide ShowsRows, Put;
      for i := 0 to |events|
        invariant Valid() && page == ShowAll(old(page), events[..i])
      {
        assert events[..i + 1][..i] == events[..i];
        match events[i]
        case Char(c) => PutChar(c);
        case Color(color) => SetColor(color);
      }
      assert events[..|events|] == events;
    }

    /** print_dec: at most 20 digits, so the 21-byte buffer never overflows. */
    method PrintDec(number: nat)
      requires Valid() && number < 0x1_0000_0000_0000_0000
      modifies this, buffer
      ensures Valid() && page == PutAll(old(page), Decimal(number))
    {
      if number == 0 {
        PutOne(page, DIGIT_ZERO);
        PutChar(DIGIT_ZERO);
        return;
      }
      var digits, n := DigitsOf(number);
      PrintBackwards(digits[..], n);
    }

    /** The loop that prints the collected digits, last first. */
    method PrintBackwards(digits: seq<byte>, n: nat)
      requires Valid() && n <= |digits|
      modifies this, buffer
      ensures Valid() && page == PutAll(old(page), Reversed(digits[..n]))
    {
      hide ShowsRows, Put;
      var i := n;
      assert digits[n..n] == [];
      while i > 0
        invariant 0 <= i <= n
        invariant Valid() && page == PutAll(old(page), Reversed(digits[i..n]))
      {
        i := i - 1;
        PutAllAppend(old(page), Reversed(digits[i + 1..n]), digits[i]);
        assert digits[i..n][1..] == digits[i + 1..n];
        PutChar(digits[i]);
      }
      assert digits[0..n] == digits[..n];
    }
  }

  /** The loop that collects the digits, lowest first. */
  method DigitsOf(number: nat) returns (digits: array<byte>, n: nat)
    requires 0 < number < 0x1_0000_0000_0000_0000
    ensures fresh(digits) && digits.Length == 21 && n <= 20
    ensures Reversed(digits[..n]) == Decimal(number)
  {
    hide Decimal, Pow10;
    digits := new byte[21];
    var value: nat := number;
    n := 0;
    TwentyDigits();
    assert Reversed(digits[..0]) == [];
    hide Reversed;
    while value > 0
      invariant n <= 20 && value < Pow10(20 - n)
      invariant value == 0 ==> Decimal(number) == Reversed(digits[..n])
      invariant value > 0 ==> Decimal(number) == Decimal(value) + Reversed(digits[..n])
    {
      DigitLeft(value, n);
      ghost var before := digits[..n];
      var digit: byte := DIGIT_ZERO + value % 10;
      digits[n] := digit;
      n := n + 1;
      assert digits[..n] == before + [digit];
      ReversedAppend(before, digit);
      DecimalSplit(value);
      value := value / 10;
    }
  }

  // ---------------------------------------------------------------- numbers

  const DIGIT_ZERO: byte := 48

  function Decimal(v: nat): (s: seq<byte>)
    ensures |s| > 0
  {
    var last: byte := DIGIT_ZERO + v % 10;
    if v < 10 then [last] else Decimal(v / 10) + [last]
  }

  function Pow10(n: nat): nat {
    if n == 0 then 1 else 10 * Pow10(n - 1)
  }

  function ValueOf(s: seq<byte>): int {
    if s == [] then 0 else 10 * ValueOf(s[..|s| - 1]) + (s[|s| - 1] - DIGIT_ZERO) as int
  }

  /** The digits printed denote the number, without a leading zero. */
  lemma {:induction false} DecimalDenotes(v: nat)
    ensures ValueOf(Decimal(v)) == v
    ensures forall k :: 0 <= k < |Decimal(v)| ==> DIGIT_ZERO <= Decimal(v)[k] <= DIGIT_ZERO + 9
    ensures v > 0 ==> Decimal(v)[0] != DIGIT_ZERO
  {
    var s := Decimal(v);
    if v < 10 {
      assert s[..|s| - 1] == [];
    } else {
      DecimalDenotes(v / 10);
      assert s[..|s| - 1] == Decimal(v / 10);
    }
  }

  lemma DigitLeft(value: nat, n: nat)
    requires n <= 20 && 0 < value < Pow10(20 - n)
    ensures n < 20 && value / 10 < Pow10(19 - n)
  {
  }

  lemma TwentyDigits()
    ensures Pow10(20) >= 0x1_0000_0000_0000_0000
  {
    assert Pow10(5) == 10_0000;
    assert Pow10(10) == 100_0000_0000;
    assert Pow10(15) == 1000_0000_0000_0000;
  }

  function Reversed(s: seq<byte>): seq<byte> {
    if s == [] then [] else Reversed(s[1..]) + [s[0]]
  }

  lemma {:induction false} ReversedAppend(s: seq<byte>, c: byte)
    ensures Reversed(s + [c]) == [c] + Reversed(s)
  {
    if s == [] {
      var one: seq<byte> := [c];
      assert s + one == one && one[1..] == [];
    } else {
      ReversedAppend(s[1..], c);
      assert (s + [c])[1..] == s[1..] + [c];
    }
  }

  lemma DecimalSplit(v: nat)
    requires v > 0
    ensures Decimal(v) == (if v / 10 == 0 then [] else Decimal(v / 10)) + [(DIGIT_ZERO + v % 10) as byte]
  {
  }

  lemma PutOne(p: Page, c: byte)
    requires p.Ok()
    ensures PutAll(p, [c]) == Put(p, c)
  {
    var none: seq<byte> := [];
    PutAllAppend(p, none, c);
    assert none + [c] == [c];
  }

  // ---------------------------------------------------------------- plain text

  ghost predicate Plain(data: seq<byte>) {
    forall k :: 0 <= k < |data| ==> data[k] != NEWLINE && data[k] != BACKSPACE
  }

  /** Character `k` of the text stands at row k / WIDTH, column k % WIDTH, and the cursor after the last. */
  ghost predicate LaidOut(p: Page, data: seq<byte>) {
    && p.Ok() && p.color == LIGHT_GREY && p.row * WIDTH + p.column == |data|
    && |p.rows| == (if p.row < HEIGHT then HEIGHT else p.row + 1)
    && forall k :: 0 <= k < |data| ==> p.rows[k / WIDTH][k % WIDTH] == Cell(data[k], LIGHT_GREY)
  }

  lemma LaidOutStep(p: Page, data: seq<byte>, c: byte)
    requires LaidOut(p, data) && c != NEWLINE && c != BACKSPACE
    ensures LaidOut(Put(p, c), data + [c])
  {
    var q, more := Put(p, c), data + [c];
    PutKeepsOk(p, c);
    forall k | 0 <= k < |more| ensures q.rows[k / WIDTH][k % WIDTH] == Cell(more[k], LIGHT_GREY) {
      if k == |data| {
        assert k / WIDTH == p.row && k % WIDTH == p.column;
      } else {
        assert p.rows[k / WIDTH][k % WIDTH] == Cell(data[k], LIGHT_GREY);
        assert k == (k / WIDTH) * WIDTH + k % WIDTH;
      }
    }
  }

  /** Text without control characters fills the page row by row, however long it is. */
  lemma {:induction false} PlainTextWraps(data: seq<byte>)
    requires Plain(data)
    ensures FreshPage().Ok() && LaidOut(PutAll(FreshPage(), data), data)
  {
    FreshPageOk();
    if data != [] {
      var front, c := data[..|data| - 1], data[|data| - 1];
      PlainTextWraps(front);
      assert data == front + [c];
      PutAllAppend(FreshPage(), front, c);
      LaidOutStep(PutAll(FreshPage(), front), front, c);
    }
  }

  lemma FreshPageOk()
    ensures FreshPage().Ok()
  {
  }

  lemma FreshPageShown(m: seq<nat>)
    requires |m| == WIDTH * HEIGHT && forall k :: 0 <= k < WIDTH * HEIGHT ==> m[k] == Cell(SPACE, LIGHT_GREY)
    ensures FreshPage().Ok() && ShowsRows(m, FreshPage().rows, 0)
  {
    var rows := FreshPage().rows;
    assert |rows| == HEIGHT && forall y :: 0 <= y < HEIGHT ==> rows[y] == BlankRow(LIGHT_GREY);
    forall k | 0 <= k < WIDTH * HEIGHT ensures m[k] == rows[0 + k / WIDTH][k % WIDTH] {
      assert BlankRow(LIGHT_GREY)[k % WIDTH] == Cell(SPACE, LIGHT_GREY);
    }
  }

  /** Scrolling the window is moving it one row down the page. */
  lemma ScrolledShows(m: seq<nat>, m': seq<nat>, rows: seq<seq<nat>>, top: nat, color: byte)
    requires ShowsRows(m, rows, top) && |m'| == |m|
    requires forall k :: 0 <= k < WIDTH * (HEIGHT - 1) ==> m'[k] == m[k + WIDTH]
    requires forall k :: WIDTH * (HEIGHT - 1) <= k < WIDTH * HEIGHT ==> m'[k] == Cell(SPACE, color)
    ensures ShowsRows(m', rows + [BlankRow(color)], top + 1)
  {
    var rows' := rows + [BlankRow(color)];
    forall k | 0 <= k < WIDTH * HEIGHT ensures m'[k] == rows'[top + 1 + k / WIDTH][k % WIDTH] {
      if k < WIDTH * (HEIGHT - 1) {
        assert (k + WIDTH) / WIDTH == k / WIDTH + 1 && (k + WIDTH) % WIDTH == k % WIDTH;
        assert m'[k] == m[k + WIDTH];
      } else {
        assert k / WIDTH == HEIGHT - 1;
      }
    }
  }

  /** Writing a cell of the window writes that cell of the page. */
  lemma WrittenShows(m: seq<nat>, m': seq<nat>, p: Page, row: nat, x: nat, c: byte)
    requires p.Ok() && ShowsRows(m, p.rows, |p.rows| - HEIGHT) && row < HEIGHT && x < WIDTH
    requires p.row == |p.rows| - HEIGHT + row
    requires m' == m[row * WIDTH + x := Cell(c, p.color)]
    ensures ShowsRows(m', PutCell(p, x, c).rows, |p.rows| - HEIGHT)
  {
    var top, rows' := |p.rows| - HEIGHT, PutCell(p, x, c).rows;
    forall k | 0 <= k < WIDTH * HEIGHT ensures m'[k] == rows'[top + k / WIDTH][k % WIDTH] {
      assert k == (k / WIDTH) * WIDTH + k % WIDTH;
    }
  }
}
