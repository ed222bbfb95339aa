/** The text cursor: two half-screen columns filled line by line. */
module TextCursor {
  import opened Arithmetic

  /** Where a glyph was drawn: its top left corner, and in which column the cursor
      was. */
  datatype Cell = Cell(x: nat, y: nat, right: bool)

  /** The glyph rectangles of two cells, of width w and height h, share no pixel. */
  ghost predicate Apart(a: Cell, b: Cell, w: nat, h: nat) {
    a.x + w <= b.x || b.x + w <= a.x || a.y + h <= b.y || b.y + h <= a.y
  }

  ghost predicate AllApart(cells: seq<Cell>, w: nat, h: nat) {
    forall i, j :: 0 <= i < j < |cells| ==> Apart(cells[i], cells[j], w, h)
  }

  /** The cell was passed by the cursor at (x, y): it is on a line above, or to the left
      on the same line. */
  ghost predicate Passed(c: Cell, x: nat, y: nat, w: nat, h: nat) {
    c.y + h <= y || (c.y == y && c.x + w <= x)
  }

  /** The cells drawn since the screen was last cleared, and where the cursor is. */
  datatype Screen = Screen(cells: seq<Cell>, cursor: Cell)

  class Cursor {
    const fbWidth: nat
    const fbHeight: nat
    const width: nat         // of a glyph
    const height: nat
    var x: nat
    var y: nat
    var onSecondHalf: bool
    ghost var cells: seq<Cell>   // drawn since the screen was last cleared

    ghost function View(): Screen
      reads this
    {
      Screen(cells, Cell(x, y, onSecondHalf))
    }

    // ----- where glyphs go -----

    /** Where the lines of the second column start. */
    function SecondColumn(): nat {
      fbWidth / 2 + width
    }

    function LineStart(right: bool): nat {
      if right then SecondColumn() else 0
    }

    /** The start of the next line when the cursor has left its column, or else where it
        is. */
    function Line(p: Cell): Cell {
      if p.x < if p.right then fbWidth else fbWidth / 2 then p
      else Cell(LineStart(p.right), p.y + height, p.right)
    }

    /** A screen too full for the next line is continued in the other column, and
        cleared after the second one. */
    function Room(s: Screen): Screen {
      var p := Line(s.cursor);
      if p.y + height < fbHeight then s.(cursor := p)
      else if !p.right then s.(cursor := Cell(SecondColumn(), 0, true))
      else Screen([], Cell(0, 0, false))
    }

    function Drawn(s: Screen): Screen {
      var t := Room(s);
      Screen(t.cells + [t.cursor], t.cursor.(x := t.cursor.x + width))
    }

    /** The screen after a text. */
    function After(s: Screen, text: string): Screen
      decreases |text|
    {
      if text == "" then s
      else
        var t, c := After(s, text[..|text| - 1]), text[|text| - 1];
        if c == '\n' then t.(cursor := Cell(LineStart(t.cursor.right), t.cursor.y + height, t.cursor.right)) else Drawn(t)
    }

    // ----- where the characters of a text are -----

    /** Where a column ends. */
    function ColumnEnd(right: bool): nat {
      if right then fbWidth else fbWidth / 2
    }

    /** Glyphs on a line of a column: as many as start before its end. */
    function PerLine(right: bool): nat
      requires 0 < width
    {
      if ColumnEnd(right) <= LineStart(right) then 0 else (ColumnEnd(right) - LineStart(right) + width - 1) / width
    }

    /** Lines of a column: as many as end above the last line of the screen. */
    function Lines(): nat
      requires 0 < height
    {
      if fbHeight == 0 then 0 else (fbHeight - 1) / height
    }

    function GridCell(row: nat, place: nat, right: bool): Cell {
      Cell(LineStart(right) + place * width, row * height, right)
    }

    /** Characters behind the last newline of a text. */
    static function OnLastLine(text: string): nat {
      if text == "" || text[|text| - 1] == '\n' then 0 else OnLastLine(text[..|text| - 1]) + 1
    }

    /** Rows that the lines before the last newline take, n characters a row: a line of
        no characters takes one too. */
    static function RowsAbove(text: string, n: nat): nat
      requires 0 < n
    {
      if text == "" then 0
      else
        var t := text[..|text| - 1];
        RowsAbove(t, n) + if text[|text| - 1] == '\n' then RowsFor(OnLastLine(t), n) else 0
    }

    static function RowsFor(p: nat, n: nat): nat
      requires 0 < n
    {
      if p == 0 then 1 else (p - 1) / n + 1
    }

    /** The row the character after a text is in. */
    static function RowAfter(text: string, n: nat): nat
      requires 0 < n
    {
      RowOf(RowsAbove(text, n), OnLastLine(text), n)
    }

    /** Row and place of character p, counted from 0, of a line that begins in row
        `above`. */
    static function RowOf(above: nat, p: nat, n: nat): nat
      requires 0 < n
    {
      above + p / n
    }

    static function PlaceOf(p: nat, n: nat): nat
      requires 0 < n
    {
      p % n
    }

    /** All characters of a text are in the first m rows. */
    static predicate StaysIn(text: string, n: nat, m: nat)
      requires 0 < n
    {
      text == "" || (StaysIn(text[..|text| - 1], n, m) && (text[|text| - 1] == '\n' || RowAfter(text[..|text| - 1], n) < m))
    }

    function Top(right: bool): Cell {
      Cell(LineStart(right), 0, right)
    }

    /** Behind character p of a line that begins in row `above`; at the start of the line
        when p is 0. */
    function Behind(above: nat, p: nat, right: bool): Cell
      requires 0 < width && 0 < PerLine(right)
    {
      var n := PerLine(right);
      if p == 0 then GridCell(above, 0, right) else GridCell(above + (p - 1) / n, (p - 1) % n + 1, right)
    }

    /** Where the cursor is after a text that started at the top of a column and has not
        left it: behind the last character of the line, or at the start of the line. */
    lemma {:induction false} CursorAfter(s: Screen, right: bool, text: string)
      requires 0 < width && 0 < height && 0 < PerLine(right) && s.cursor == Top(right)
      requires StaysIn(text, PerLine(right), Lines())
      ensures var n, t, p := PerLine(right), After(s, text), OnLastLine(text);
        && s.cells <= t.cells
        && t.cursor == Behind(RowsAbove(text, n), p, right)
      decreases |text|
    {
      hide *;
      GridStart(right);
      if text == "" {
        NoText(s, PerLine(right));
      } else {
        var t0, c := text[..|text| - 1], text[|text| - 1];
        assert text == t0 + [c];
        LastCharacter(text, PerLine(right), Lines());
        CursorAfter(s, right, t0);
        if c == '\n' { CursorAfterNewLine(s, right, t0); } else { CursorAfterChar(s, right, t0, c); }
      }
    }

    lemma CursorAfterNewLine(s: Screen, right: bool, t0: string)
      requires 0 < width && 0 < PerLine(right) && s.cells <= After(s, t0).cells
      requires After(s, t0).cursor == Behind(RowsAbove(t0, PerLine(right)), OnLastLine(t0), right)
      ensures var t := After(s, t0 + "\n");
        && s.cells <= t.cells
        && t.cursor == Behind(RowsAbove(t0, PerLine(right)) + RowsFor(OnLastLine(t0), PerLine(right)), 0, right)
    {
      hide *;
      AfterNewLine(s, t0);
      BehindDown(RowsAbove(t0, PerLine(right)), OnLastLine(t0), right);
    }

    lemma CursorAfterChar(s: Screen, right: bool, t0: string, c: char)
      requires 0 < width && 0 < height && 0 < PerLine(right) && c != '\n' && s.cells <= After(s, t0).cells
      requires After(s, t0).cursor == Behind(RowsAbove(t0, PerLine(right)), OnLastLine(t0), right)
      requires RowAfter(t0, PerLine(right)) < Lines()
      ensures var t := After(s, t0 + [c]);
        s.cells <= t.cells && t.cursor == Behind(RowsAbove(t0, PerLine(right)), OnLastLine(t0) + 1, right)
    {
      hide *;
      AfterChar(s, t0, c);
      RowIs(t0, PerLine(right));
      NextPlace(After(s, t0), RowsAbove(t0, PerLine(right)), OnLastLine(t0), right);
      BehindNext(RowsAbove(t0, PerLine(right)), OnLastLine(t0), right);
    }

    lemma NoText(s: Screen, n: nat)
      requires 0 < n
      ensures After(s, "") == s && OnLastLine("") == 0 && RowsAbove("", n) == 0
    {
    }

    static lemma LastCharacter(text: string, n: nat, m: nat)
      requires 0 < n && text != "" && StaysIn(text, n, m)
      ensures var t, p := text[..|text| - 1], OnLastLine(text[..|text| - 1]);
        && StaysIn(t, n, m)
        && (if text[|text| - 1] == '\n' then
              OnLastLine(text) == 0 && RowsAbove(text, n) == RowsAbove(t, n) + RowsFor(p, n)
            else
              OnLastLine(text) == p + 1 && RowsAbove(text, n) == RowsAbove(t, n) && RowAfter(t, n) < m)
    {
    }

    lemma AfterNewLine(s: Screen, text: string)
      ensures var t := After(s, text);
        After(s, text + "\n") ==
        t.(cursor := Cell(LineStart(t.cursor.right), t.cursor.y + height, t.cursor.right))
    {
      assert (text + "\n")[..|text|] == text;
    }

    /** The next character of the line goes to the next place of the row, or to the first
        place of the next row when the row is full. */
    lemma NextPlace(t: Screen, above: nat, p: nat, right: bool)
      requires 0 < width && 0 < height && 0 < PerLine(right)
      requires t.cursor == Behind(above, p, right)
      ensures var n := PerLine(right);
        && (RowOf(above, p, n) < Lines() ==> Room(t) == t.(cursor := GridCell(RowOf(above, p, n), PlaceOf(p, n), right)))
        && (RowOf(above, p, n) >= Lines() ==> Room(t) == Screen(if right then [] else t.cells, Top(!right)))
    {
      hide *;
      var n := PerLine(right);
      RowOfIs(above, p, n);
      if p == 0 {
        DivUnique(0, n, 0, 0);
        BehindIs(above, p, right);
        LineOf(above, 0, right);
        RoomOf(t, above, 0, right);
      } else {
        NextInRow(p - 1, n);
        BehindIs(above, p, right);
        LineOf(above + (p - 1) / n, (p - 1) % n + 1, right);
        RoomOf(t, above + p / n, p % n, right);
      }
    }

    lemma LineOf(row: nat, place: nat, right: bool)
      requires 0 < width && 0 < height && 0 < PerLine(right)
      ensures Line(GridCell(row, place, right)) ==
              if place < PerLine(right) then GridCell(row, place, right) else GridCell(row + 1, 0, right)
    {
      hide PerLine;
      LineFull(right, place);
      MulSuccessor(row, height);
    }

    lemma RoomOf(t: Screen, row: nat, place: nat, right: bool)
      requires 0 < height && Line(t.cursor) == GridCell(row, place, right)
      ensures row < Lines() ==> Room(t) == t.(cursor := GridCell(row, place, right))
      ensures row >= Lines() ==> Room(t) == Screen(if right then [] else t.cells, Top(!right))
    {
      hide Lines, Line;
      LineFits(row);
    }

    lemma BehindIs(above: nat, p: nat, right: bool)
      requires 0 < width && 0 < PerLine(right)
      ensures var n := PerLine(right);
        Behind(above, p, right) ==
        if p == 0 then GridCell(above, 0, right) else GridCell(above + (p - 1) / n, (p - 1) % n + 1, right)
    {
    }

    lemma BehindDown(above: nat, p: nat, right: bool)
      requires 0 < width && 0 < PerLine(right)
      ensures var c := Behind(above, p, right);
        Cell(LineStart(c.right), c.y + height, c.right) == Behind(above + RowsFor(p, PerLine(right)), 0, right)
    {
      var n := PerLine(right);
      if p == 0 { GridDown(above, 0, right); } else { GridDown(above + (p - 1) / n, (p - 1) % n + 1, right); }
    }

    lemma BehindNext(above: nat, p: nat, right: bool)
      requires 0 < width && 0 < PerLine(right)
      ensures var n := PerLine(right);
        var c := GridCell(RowOf(above, p, n), PlaceOf(p, n), right);
        c.(x := c.x + width) == Behind(above, p + 1, right)
    {
      GridNext(above + p / PerLine(right), p % PerLine(right), right);
    }

    lemma GridStart(right: bool)
      requires 0 < width
      ensures GridCell(0, 0, right) == Top(right)
      ensures 0 < PerLine(right) ==> Behind(0, 0, right) == Top(right)
    {
    }

    lemma GridDown(row: nat, place: nat, right: bool)
      ensures var c := GridCell(row, place, right);
        Cell(LineStart(c.right), c.y + height, c.right) == GridCell(row + 1, 0, right)
    {
      MulSuccessor(row, height);
    }

    lemma GridNext(row: nat, place: nat, right: bool)
      ensures var c := GridCell(row, place, right); c.(x := c.x + width) == GridCell(row, place + 1, right)
    {
      MulSuccessor(place, width);
    }

    /** Where every character goes, in either column, newlines or not: to the row that the
        lines above it and its own line leave it, as long as the column has that row; the
        first character that finds no row left goes to the top of the other column, and
        clears the screen when it leaves the second one.  From there on the same holds,
        with the text from that character on. */
    lemma CharacterAt(s: Screen, right: bool, text: string, c: char)
      requires 0 < width && 0 < height && 0 < PerLine(right) && 0 < PerLine(!right) && 0 < Lines()
      requires s.cursor == Top(right) && c != '\n' && StaysIn(text, PerLine(right), Lines())
      ensures var n, before, after := PerLine(right), After(s, text), After(s, text + [c]);
        && s.cells <= before.cells
        && (RowAfter(text, n) < Lines() ==>
              after.cells == before.cells + [GridCell(RowAfter(text, n), PlaceOf(OnLastLine(text), n), right)])
        && (RowAfter(text, n) >= Lines() ==>
              && after.cells == (if right then [] else before.cells) + [Top(!right)]
              && after == After(Screen(if right then [] else before.cells, Top(!right)), [c]))
    {
      hide *;
      var t, n := After(s, text), PerLine(right);
      AfterChar(s, text, c);
      CursorAfter(s, right, text);
      NextPlace(t, RowsAbove(text, n), OnLastLine(text), right);
      RowIs(text, n);
      var u := Screen(if right then [] else t.cells, Top(!right));
      AfterChar(u, "", c);
      GridStart(!right);
      RowOfIs(0, 0, PerLine(!right));
      DivUnique(0, PerLine(!right), 0, 0);
      NextPlace(u, 0, 0, !right);
    }

    lemma AfterChar(s: Screen, text: string, c: char)
      requires c != '\n'
      ensures var t := Room(After(s, text));
        After(s, text + [c]) == Screen(t.cells + [t.cursor], t.cursor.(x := t.cursor.x + width))
      ensures After(s, "") == s && "" + [c] == [c]
    {
      assert (text + [c])[..|text|] == text;
    }

    static lemma RowIs(text: string, n: nat)
      requires 0 < n
      ensures RowAfter(text, n) == RowOf(RowsAbove(text, n), OnLastLine(text), n)
    {
    }

    static lemma RowOfIs(above: nat, p: nat, n: nat)
      requires 0 < n
      ensures RowOf(above, p, n) == above + p / n && PlaceOf(p, n) == p % n
    {
    }

    /** A newline goes down one line, to the start of the column the cursor is in. */
    lemma NewLineAt(s: Screen, text: string)
      ensures var before, after := After(s, text), After(s, text + "\n");
        && after.cells == before.cells && after.cursor.right == before.cursor.right
        && after.cursor.y == before.cursor.y + height
        && after.cursor.x == if before.cursor.right then fbWidth / 2 + width else 0
    {
      AfterNewLine(s, text);
    }

    /** A text in two parts. */
    lemma {:induction false} AfterBoth(s: Screen, a: string, b: string)
      ensures After(s, a + b) == After(After(s, a), b)
      decreases |b|
    {
      if b == "" {
        assert a + b == a;
      } else {
        AfterBoth(s, a, b[..|b| - 1]);
        assert (a + b)[..|a + b| - 1] == a + b[..|b| - 1];
      }
    }

    /** On an empty screen, character k of a text without newlines is the one at row
        k / PerLine and place k % PerLine of the column, while that column has lines
        left. */
    lemma {:induction false} RowMajor(right: bool, text: string)
      requires 0 < width && 0 < height && 0 < PerLine(right)
      requires |text| / PerLine(right) < Lines()
      requires forall i :: 0 <= i < |text| ==> text[i] != '\n'
      ensures var k, n, s := |text|, PerLine(right), Screen([], Top(right));
        Room(After(s, text)) == After(s, text).(cursor := GridCell(k / n, k % n, right))
      decreases |text|
    {
      var n, m, s := PerLine(right), Lines(), Screen([], Top(right));
      OneLine(text, n, m);
      hide PerLine, Lines, GridCell, Room;
      CursorAfter(s, right, text);
      NextPlace(After(s, text), 0, |text|, right);
    }

    static lemma {:induction false} OneLine(text: string, n: nat, m: nat)
      requires 0 < n && |text| / n < m && forall i :: 0 <= i < |text| ==> text[i] != '\n'
      ensures OnLastLine(text) == |text| && RowsAbove(text, n) == 0 && StaysIn(text, n, m)
      decreases |text|
    {
      if text != "" {
        NextInRow(|text| - 1, n);
        OneLine(text[..|text| - 1], n, m);
      }
    }

    static lemma MulSuccessor(a: nat, b: nat)
      ensures (a + 1) * b == a * b + b
    {
    }

    /** A line is full from PerLine glyphs on. */
    lemma LineFull(right: bool, j: nat)
      requires 0 < width
      ensures LineStart(right) + j * width < ColumnEnd(right) <==> j < PerLine(right)
    {
      if ColumnEnd(right) > LineStart(right) {
        var a, n := ColumnEnd(right) - LineStart(right) + width - 1, PerLine(right);
        assert a == n * width + a % width;
        if j < n { MulMonotone(j + 1, n, width); MulSuccessor(j, width); }
        if n <= j { MulMonotone(n, j, width); }
      }
    }

    lemma LineFits(j: nat)
      requires 0 < height
      ensures j * height + height < fbHeight <==> j < Lines()
    {
      if fbHeight > 0 {
        var a, n := fbHeight - 1, Lines();
        assert a == n * height + a % height;
        MulSuccessor(j, height);
        if j < n { MulMonotone(j + 1, n, height); }
        if n <= j { MulMonotone(n, j, height); }
      }
    }

    static lemma NextInRow(i: nat, n: nat)
      requires 0 < n
      ensures if i % n + 1 < n then (i + 1) % n == i % n + 1 && (i + 1) / n == i / n
              else i % n + 1 == n && (i + 1) % n == 0 && (i + 1) / n == i / n + 1
    {
      MulSuccessor(i / n, n);
      if i % n + 1 < n { DivUnique(i + 1, n, i / n, i % n + 1); } else { DivUnique(i + 1, n, i / n + 1, 0); }
    }

    // ----- what the cells keep -----

    ghost predicate CellOk(c: Cell)
      reads this
    {
      && (c.y + height < fbHeight <==> height < fbHeight)
      && (c.right ==> onSecondHalf)
      && (!c.right ==> c.x + width <= SecondColumn())
      && (c.right == onSecondHalf ==> Passed(c, x, y, width, height))
    }

    /** Cells of the first column are left of every cell of the second one. */
    ghost predicate ColumnsOk()
      reads this
    {
      forall i, j {:trigger cells[i], cells[j]} :: 0 <= i < |cells| && 0 <= j < |cells| && !cells[i].right ==>
        && (cells[j].right ==> SecondColumn() <= cells[j].x)
        && (onSecondHalf ==> SecondColumn() <= x)
    }

    ghost predicate Valid()
      reads this
    {
      && 0 < width && 0 < height
      && AllApart(cells, width, height)
      && (forall i :: 0 <= i < |cells| ==> CellOk(cells[i]))
      && ColumnsOk()
    }

    /** renderer_init, and the clearing of the screen that follows it. */
    constructor (fbWidth: nat, fbHeight: nat, width: nat, height: nat)
      requires 0 < width && 0 < height
      ensures Valid() && cells == [] && x == 0 && y == 0 && !onSecondHalf
      ensures this.fbWidth == fbWidth && this.fbHeight == fbHeight && this.width == width && this.height == height
    {
      this.fbWidth, this.fbHeight, this.width, this.height := fbWidth, fbHeight, width, height;
      x, y, onSecondHalf, cells := 0, 0, false, [];
    }

    /** renderer_clear_screen, as far as the cursor goes: it does not change columns. */
    method ClearScreen()
      requires 0 < width && 0 < height
      modifies this
      ensures Valid() && cells == [] && x == 0 && y == 0 && onSecondHalf == old(onSecondHalf)
    {
      x := 0;
      y := 0;
      cells := [];
    }

    /** renderer_draw_char, for a newline. */
    method NewLine()
      requires Valid()
      modifies this
      ensures Valid() && View() == After(old(View()), "\n")
      ensures y == old(y) + height && x == (if onSecondHalf then fbWidth / 2 + width else 0)
      ensures onSecondHalf == old(onSecondHalf) && cells == old(cells)
    {
      y := y + height;
      if onSecondHalf {
        x := fbWidth / 2 + width;
      } else {
        x := 0;
      }
    }

    /** The wrapping tests of renderer_draw_char: at most a new line, then at most the
        other column, with the screen cleared after the second one. */
    method MakeRoom() returns (cleared: bool)
      requires Valid()
      modifies this
      ensures Valid() && View() == Room(old(View()))
      ensures cleared ==> View() == Screen([], Cell(0, 0, false))
      ensures !cleared ==> cells == old(cells)
      ensures y + height < fbHeight <==> height < fbHeight
      ensures !onSecondHalf ==> x + width <= SecondColumn()
    {
      cleared := false;
      if !onSecondHalf && x >= fbWidth / 2 {
        y := y + height;
        x := 0;
      } else if onSecondHalf && x >= fbWidth {
        y := y + height;
        x := fbWidth / 2 + width;
      }
      if y + height >= fbHeight {
        if !onSecondHalf {
          onSecondHalf := true;
          x := fbWidth / 2 + width;
          y := 0;
        } else {
          onSecondHalf := false;
          x := 0;
          y := 0;
          ClearScreen();
          cleared := true;
        }
      }
    }

    /** renderer_draw_char, for any other character: makes room and draws one cell. */
    method DrawChar()
      requires Valid()
      modifies this
      ensures Valid() && View() == Drawn(old(View()))
    {
      var cleared := MakeRoom();
      ghost var before := cells;
      NextIsApart();
      cells := cells + [Cell(x, y, onSecondHalf)];
      x := x + width;
      assert forall i :: 0 <= i < |before| ==> cells[i] == before[i];
    }

    /** The place under the cursor is free. */
    lemma NextIsApart()
      requires Valid() && (!onSecondHalf ==> x + width <= SecondColumn())
      ensures forall i :: 0 <= i < |cells| ==> Apart(cells[i], Cell(x, y, onSecondHalf), width, height)
    {
      forall i | 0 <= i < |cells| ensures Apart(cells[i], Cell(x, y, onSecondHalf), width, height) {
        assert CellOk(cells[i]);
        assert cells[i] == cells[i];
      }
    }

    /** Any run of characters and newlines ends where the specification says; the
        cells drawn since the last clear never share a pixel, and all of them end
        above the last line of the screen, unless the screen is no taller than a
        glyph, when none does. */
    method Run(text: string)
      requires Valid()
      modifies this
      ensures Valid() && View() == After(old(View()), text)
      ensures AllApart(cells, width, height)
      ensures forall i :: 0 <= i < |cells| ==> (cells[i].y + height < fbHeight <==> height < fbHeight)
    {
      hide CellOk, ColumnsOk, AllApart, Drawn;
      for i := 0 to |text|
        invariant Valid() && View() == After(old(View()), text[..i])
      {
        AfterOne(old(View()), text, i);
        if text[i] == '\n' {
          NewLine();
        } else {
          DrawChar();
        }
      }
      assert text[..|text|] == text;
      CellsOk();
    }

    lemma AfterOne(s: Screen, text: string, i: nat)
      requires i < |text|
      ensures After(s, text[..i + 1]) ==
              if text[i] == '\n' then After(After(s, text[..i]), "\n") else Drawn(After(s, text[..i]))
    {
      assert text[..i + 1][..i] == text[..i];
    }

    lemma CellsOk()
      requires Valid()
      ensures AllApart(cells, width, height)
      ensures forall i :: 0 <= i < |cells| ==> (cells[i].y + height < fbHeight <==> height < fbHeight)
    {
      forall i | 0 <= i < |cells| ensures cells[i].y + height < fbHeight <==> height < fbHeight {
        assert CellOk(cells[i]);
      }
    }
  }
}
