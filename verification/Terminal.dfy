/** The text terminal of src/terminal.c: an 80 by 25 grid of cells, edited and scrolled in place,
    against the layout of everything ever written on a page without a bottom. */
module Terminal {
  import opened Words
  import opened Strings

  const WIDTH: nat := 80
  const HEIGHT: nat := 25
  const CELLS: nat := 2000

  const NEWLINE: byte := 10
  const SPACE: byte := 32

  /** `(uint16_t)c | color << 8` for the one colour, 0x0F: characters are signed, so the upper
      half of the code page is sign-extended into the colour bits. */
  function CellOf(c: byte): nat {
    if c < 128 then 0x0F00 + c else 0xFF00 + c
  }

  /** The low byte of a cell is its character; the high byte is white on black for every ASCII
      character, and all ones for the others. Different characters have different cells. */
  lemma CellReads(c: byte, c': byte)
    ensures CellOf(c) % 256 == c && CellOf(c) / 256 == if c < 128 then 0x0F else 0xFF
    ensures CellOf(c) == CellOf(c') ==> c == c'
  {
  }

  // ---------------------------------------------------------------- the page

  /** A line laid out in rows of `WIDTH`. The cursor moves to a fresh row as soon as one is full,
      so a line that ends at the margin is followed by an empty row. */
  function Wrap(line: seq<byte>): (rows: seq<seq<byte>>)
    ensures rows != [] && |rows[|rows| - 1]| < WIDTH
  {
    if |line| < WIDTH then [line] else [line[..WIDTH]] + Wrap(line[WIDTH..])
  }

  /** The position of the first line break, or the length of the text. */
  function Break(text: seq<byte>): (k: nat)
    ensures k <= |text| && (k < |text| ==> text[k] == NEWLINE)
    ensures forall i :: 0 <= i < k ==> text[i] != NEWLINE
  {
    if text == [] || text[0] == NEWLINE then 0 else 1 + Break(text[1..])
  }

  /** The whole text laid out line by line on an unbounded page; the cursor is at the end of the
      last row. */
  function Page(text: seq<byte>): (rows: seq<seq<byte>>)
    ensures rows != [] && |rows[|rows| - 1]| < WIDTH
    decreases |text|
  {
    var k := Break(text);
    if k == |text| then Wrap(text) else Wrap(text[..k]) + Page(text[k + 1..])
  }

  /** A page with one more character. */
  function Typed(rows: seq<seq<byte>>, c: byte): seq<seq<byte>>
    requires rows != []
  {
    var n := |rows| - 1;
    var last := rows[n] + [c];
    if c == NEWLINE then rows + [[]]
    else if |last| < WIDTH then rows[..n] + [last]
    else rows[..n] + [last] + [[]]
  }

  lemma TypedBelow(above: seq<seq<byte>>, rows: seq<seq<byte>>, c: byte)
    requires rows != []
    ensures Typed(above + rows, c) == above + Typed(rows, c)
  {
  }

  lemma {:induction false} WrapTyped(line: seq<byte>, c: byte)
    requires c != NEWLINE
    ensures Wrap(line + [c]) == Typed(Wrap(line), c)
    decreases |line|
  {
    if |line| < WIDTH {
      var full := line + [c];
      if |full| == WIDTH {
        assert full[..WIDTH] == full && full[WIDTH..] == [];
        assert Wrap([]) == [[]];
      }
    } else {
      WrapTyped(line[WIDTH..], c);
      assert (line + [c])[..WIDTH] == line[..WIDTH] && (line + [c])[WIDTH..] == line[WIDTH..] + [c];
      TypedBelow([line[..WIDTH]], Wrap(line[WIDTH..]), c);
    }
  }

  lemma BreakTyped(text: seq<byte>, c: byte)
    ensures Break(text + [c]) ==
            if Break(text) < |text| then Break(text) else if c == NEWLINE then |text| else |text| + 1
  {
    var k, k' := Break(text), Break(text + [c]);
    assert forall i :: 0 <= i < |text| ==> (text + [c])[i] == text[i];
    assert k < |text| ==> (text + [c])[k] == NEWLINE;
    assert (text + [c])[|text|] == c;
  }

  /** Laying out one more character is typing it at the end of the page: the unbounded layout can
      be computed a character at a time. */
  lemma {:induction false} PageTyped(text: seq<byte>, c: byte)
    ensures Page(text + [c]) == Typed(Page(text), c)
    decreases |text|
  {
    hide Wrap, Break, Typed, Page;
    var k := Break(text);
    BreakTyped(text, c);
    PageUnfolds(text);
    PageUnfolds(text + [c]);
    if k < |text| {
      PageTyped(text[k + 1..], c);
      assert (text + [c])[..k] == text[..k] && (text + [c])[k + 1..] == text[k + 1..] + [c];
      TypedBelow(Wrap(text[..k]), Page(text[k + 1..]), c);
    } else if c == NEWLINE {
      assert (text + [c])[..k] == text && (text + [c])[k + 1..] == [];
      EmptyPage();
      TypedNewline(Wrap(text));
    } else {
      WrapTyped(text, c);
    }
  }

  lemma {:induction false} PageUnfolds(text: seq<byte>)
    ensures var k := Break(text);
            Page(text) == if k == |text| then Wrap(text) else Wrap(text[..k]) + Page(text[k + 1..])
  {
  }

  lemma TypedNewline(rows: seq<seq<byte>>)
    requires rows != []
    ensures Typed(rows, NEWLINE) == rows + [[]]
  {
  }

  lemma EmptyPage()
    ensures Page([]) == [[]]
  {
  }

  // ---------------------------------------------------------------- where characters go

  /** Row and column of the cursor after a text, 80 columns to a row. */
  function Cursor(text: seq<byte>): (nat, nat) {
    if text == [] then (0, 0)
    else
      var n := |text| - 1;
      var (y, x) := Cursor(text[..n]);
      if text[n] == 10 || x + 1 == 80 then (y + 1, 0) else (y, x + 1)
  }

  /** The characters that leave a mark. */
  function Visible(text: seq<byte>): seq<byte> {
    if text == [] then []
    else
      var n := |text| - 1;
      Visible(text[..n]) + if text[n] == 10 then [] else [text[n]]
  }

  function Flat(rows: seq<seq<byte>>): seq<byte> {
    if rows == [] then [] else Flat(rows[..|rows| - 1]) + rows[|rows| - 1]
  }

  lemma {:induction false} CursorAtEnd(text: seq<byte>)
    ensures Cursor(text) == (|Page(text)| - 1, |Page(text)[|Page(text)| - 1]|)
    decreases |text|
  {
    hide Page;
    if text == [] {
      EmptyPage();
    } else {
      var n := |text| - 1;
      CursorAtEnd(text[..n]);
      PageTyped(text[..n], text[n]);
      assert text == text[..n] + [text[n]];
    }
  }

  /** Every character other than a line break stands where the cursor was when it was written. */
  lemma {:induction false} PageHolds(text: seq<byte>, j: nat)
    requires j < |text| && text[j] != 10
    ensures var (y, x) := Cursor(text[..j]);
            y < |Page(text)| && x < |Page(text)[y]| && Page(text)[y][x] == text[j]
    decreases |text|
  {
    hide Page;
    var n := |text| - 1;
    PageTyped(text[..n], text[n]);
    assert text == text[..n] + [text[n]];
    if j < n {
      PageHolds(text[..n], j);
      assert text[..n][..j] == text[..j];
    } else {
      CursorAtEnd(text[..n]);
    }
  }

  lemma FlatTyped(rows: seq<seq<byte>>, c: byte)
    requires rows != []
    ensures Flat(Typed(rows, c)) == Flat(rows) + if c == 10 then [] else [c]
  {
    var n := |rows| - 1;
    var last := rows[n] + [c];
    var rows' := rows[..n] + [last];
    assert rows'[..n] == rows[..n];
    assert (rows + [[]])[..n + 1] == rows && (rows' + [[]])[..n + 1] == rows';
  }

  /** And nothing else is on the page: row after row it reads as the text without its line breaks. */
  lemma {:induction false} PageIsText(text: seq<byte>)
    ensures Flat(Page(text)) == Visible(text)
    decreases |text|
  {
    hide Page, Typed;
    if text == [] {
      EmptyPage();
      assert Flat([[]]) == [];
    } else {
      var n := |text| - 1;
      PageIsText(text[..n]);
      PageTyped(text[..n], text[n]);
      FlatTyped(Page(text[..n]), text[n]);
      assert text == text[..n] + [text[n]];
    }
  }

  // ---------------------------------------------------------------- the window

  /** The character of the page at row `y`, column `x`; a space where nothing was written. */
  function CharAt(rows: seq<seq<byte>>, y: nat, x: nat): byte {
    if y < |rows| && x < |rows[y]| then rows[y][x] else SPACE
  }

  /** The cell that shows it. */
  function Shown(rows: seq<seq<byte>>, y: nat, x: nat): nat {
    CellOf(CharAt(rows, y, x))
  }

  /** The first page row inside the window. */
  function Top(rows: seq<seq<byte>>): nat {
    if |rows| <= HEIGHT then 0 else |rows| - HEIGHT
  }

  class Terminal {
    const vga: array<nat>
    var row: nat
    var column: nat

    /** The grid is the bottom window of the page. */
    ghost predicate Grid(rows: seq<seq<byte>>)
      reads this, vga
    {
      vga.Length == CELLS &&
      forall i: nat :: i < CELLS ==> vga[i] == Shown(rows, Top(rows) + i / WIDTH, i % WIDTH)
    }

    /** The grid is the bottom window of the page, and the cursor is where the page ends. */
    ghost predicate Shows(rows: seq<seq<byte>>)
      reads this, vga
    {
      && rows != [] && |rows[|rows| - 1]| < WIDTH
      && Grid(rows)
      && row == |rows| - 1 - Top(rows) && column == |rows[|rows| - 1]|
    }

    constructor ()
      ensures vga.Length == CELLS && row == 0 && column == 0 && fresh(vga)
    {
      vga := new nat[CELLS];
      row, column := 0, 0;
    }

    /** `put_char` */
    method PutCharAt(c: byte, x: nat, y: nat)
      requires vga.Length == CELLS && x < WIDTH && y < HEIGHT
      modifies vga
      ensures vga[y * WIDTH + x] == CellOf(c)
      ensures forall i :: 0 <= i < CELLS && i != y * WIDTH + x ==> vga[i] == old(vga[i])
    {
      vga[y * WIDTH + x] := CellOf(c);
    }

    /** The inner loop of the scroll: row `y` becomes a copy of the row below it. */
    method CopyRowUp(y: nat)
      requires vga.Length == CELLS && y < HEIGHT - 1
      modifies vga
      ensures forall i :: y * WIDTH <= i < (y + 1) * WIDTH ==> vga[i] == old(vga[i + WIDTH])
      ensures forall i :: 0 <= i < CELLS && !(y * WIDTH <= i < (y + 1) * WIDTH) ==> vga[i] == old(vga[i])
    {
      for x := 0 to WIDTH
        invariant forall i :: y * WIDTH <= i < y * WIDTH + x ==> vga[i] == old(vga[i + WIDTH])
        invariant forall i :: 0 <= i < CELLS && !(y * WIDTH <= i < y * WIDTH + x) ==> vga[i] == old(vga[i])
      {
        vga[y * WIDTH + x] := vga[(y + 1) * WIDTH + x];
      }
    }

    /** `scroll_terminal`: every row moves up one, in place, and the last becomes blank. */
    method Scroll()
      requires vga.Length == CELLS
      modifies vga
      ensures forall i :: 0 <= i < CELLS - WIDTH ==> vga[i] == old(vga[i + WIDTH])
      ensures forall i :: CELLS - WIDTH <= i < CELLS ==> vga[i] == CellOf(SPACE)
    {
      for y := 0 to HEIGHT - 1
        invariant forall i :: 0 <= i < y * WIDTH ==> vga[i] == old(vga[i + WIDTH])
        invariant forall i :: y * WIDTH <= i < CELLS ==> vga[i] == old(vga[i])
      {
        CopyRowUp(y);
      }
      BlankLastRow();
    }

    method BlankLastRow()
      requires vga.Length == CELLS
      modifies vga
      ensures forall i :: 0 <= i < CELLS - WIDTH ==> vga[i] == old(vga[i])
      ensures forall i :: CELLS - WIDTH <= i < CELLS ==> vga[i] == CellOf(SPACE)
    {
      for x := 0 to WIDTH
        invariant forall i :: 0 <= i < CELLS - WIDTH ==> vga[i] == old(vga[i])
        invariant forall i :: CELLS - WIDTH <= i < CELLS - WIDTH + x ==> vga[i] == CellOf(SPACE)
      {
        vga[(HEIGHT - 1) * WIDTH + x] := CellOf(SPACE);
      }
    }

    /** `clear_terminal` shows the empty page. */
    method Clear()
      requires vga.Length == CELLS
      modifies this, vga
      ensures Shows(Page([]))
    {
      for y := 0 to HEIGHT
        invariant forall i :: 0 <= i < y * WIDTH ==> vga[i] == CellOf(SPACE)
      {
        for x := 0 to WIDTH
          invariant forall i :: 0 <= i < y * WIDTH + x ==> vga[i] == CellOf(SPACE)
        {
          PutCharAt(SPACE, x, y);
        }
      }
      row := 0;
      column := 0;
      EmptyPage();
    }

    /** Scroll when the cursor has left the window: the page has grown by one empty row. */
    method ScrollIfPast(ghost rows: seq<seq<byte>>)
      requires rows != [] && Grid(rows) && row == |rows| - Top(rows)
      modifies this`row, vga
      ensures Grid(rows + [[]]) && row == |rows| - Top(rows + [[]])
    {
      ghost var rows' := rows + [[]];
      assert forall y: nat, x: nat :: Shown(rows', y, x) == Shown(rows, y, x);
      if row >= HEIGHT {
        Scroll();
        row := HEIGHT - 1;
      }
    }

    /** The cell at the cursor gets the next character of the last row. */
    method PutAtCursor(c: byte, ghost rows: seq<seq<byte>>)
      requires Shows(rows)
      modifies vga
      ensures Grid(rows[..|rows| - 1] + [rows[|rows| - 1] + [c]])
    {
      hide CellOf;
      PutCharAt(c, column, row);
      TypedCell(rows, c);
    }

    /** `terminal_put_char`, with the cursor movement of `terminal_put_cursor`. */
    method PutChar(c: byte, ghost rows: seq<seq<byte>>)
      requires Shows(rows)
      modifies this, vga
      ensures Shows(Typed(rows, c))
    {
      if c == NEWLINE {
        column := 0;
        row := row + 1;
        ScrollIfPast(rows);
      } else {
        ghost var n := |rows| - 1;
        ghost var rows' := rows[..n] + [rows[n] + [c]];
        PutAtCursor(c, rows);
        column := column + 1;
        if column >= WIDTH {
          column := 0;
          row := row + 1;
          ScrollIfPast(rows');
        }
      }
    }

    /** `write_string` of a string that ends at its first zero byte: after any text, written in any
        number of calls, the grid is the bottom window of the layout of all of it: the low byte of
        each of its 25 times 80 cells is the character of the page there, or a space. */
    method WriteString(str: seq<byte>, ghost before: seq<byte>)
      requires 0 in str && Shows(Page(before))
      modifies this, vga
      ensures Shows(Page(before + Text(str))) && row < 25 && column < 80 && vga.Length == 25 * 80
      ensures var page := Page(before + Text(str));
              var top := if |page| <= 25 then 0 else |page| - 25;
              forall i: nat :: i < 25 * 80 ==>
                var y, x := top + i / 80, i % 80;
                vga[i] % 256 == if y < |page| && x < |page[y]| then page[y][x] else 32
    {
      hide Page, CellOf;
      var i := 0;
      assert before + str[..0] == before;
      while str[i] != 0
        invariant i < |str| && 0 !in str[..i] && Shows(Page(before + str[..i]))
        decreases |str| - i
      {
        assert before + str[..i + 1] == before + str[..i] + [str[i]];
        PageTyped(before + str[..i], str[i]);
        PutChar(str[i], Page(before + str[..i]));
        i := i + 1;
        assert i < |str| by {
          assert 0 in str && 0 !in str[..i];
        }
      }
      TextIs(str, i);
      GridReads(Page(before + Text(str)));
    }

    lemma GridReads(rows: seq<seq<byte>>)
      requires Grid(rows)
      ensures vga.Length == 25 * 80
      ensures forall i: nat :: i < 25 * 80 ==> vga[i] % 256 == CharAt(rows, Top(rows) + i / 80, i % 80)
    {
      forall i: nat | i < 25 * 80
        ensures vga[i] % 256 == CharAt(rows, Top(rows) + i / 80, i % 80)
      {
        CellReads(CharAt(rows, Top(rows) + i / 80, i % 80), 0);
      }
    }
  }

  /** One more character changes the page in one cell only. */
  lemma TypedCell(rows: seq<seq<byte>>, c: byte)
    requires rows != []
    ensures var n := |rows| - 1;
            var rows' := rows[..n] + [rows[n] + [c]];
            forall y: nat, x: nat ::
              Shown(rows', y, x) == if y == n && x == |rows[n]| then CellOf(c) else Shown(rows, y, x)
  {
  }
}
