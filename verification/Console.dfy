/** The kernel log on the screen: a cursor over character cells that are drawn, cleared and
    copied in place, proved to show the last lines of the typescript. */
module Console {
  import opened Bytes
  import opened Graphics
  import opened Typescript

  const MARGIN := 10
  const ASCII := 128

  predicate OnGrid(u: int, v: int) {
    MARGIN <= u < MARGIN + NBCOL * CHAR_SIZE && MARGIN <= v < MARGIN + NBLIN * FONT_SIZE
  }

  function Col(u: int): nat
    requires u >= MARGIN
  {
    (u - MARGIN) / CHAR_SIZE
  }

  function Row(v: int): nat
    requires v >= MARGIN
  {
    (v - MARGIN) / FONT_SIZE
  }

  /** A pixel of the text area lies in exactly one cell: that of its column and row. */
  lemma CellOf(u: int, v: int, col: nat, row: nat)
    requires col < NBCOL && row < NBLIN
    ensures InCell(u, v, MARGIN + CHAR_SIZE * col, MARGIN + FONT_SIZE * row)
            <==> OnGrid(u, v) && Col(u) == col && Row(v) == row
  {
  }

  lemma CellBelow(u: int, v: int)
    requires OnGrid(u, v)
    ensures OnScreen(u, v) && Col(u) < NBCOL && Row(v) < NBLIN
    ensures Row(v) < NBLIN - 1 <==> OnGrid(u, v + FONT_SIZE)
    ensures Row(v + FONT_SIZE) == Row(v) + 1
    ensures v + FONT_SIZE - (MARGIN + FONT_SIZE * Row(v + FONT_SIZE)) == v - (MARGIN + FONT_SIZE * Row(v))
  {
  }

  /** The color a cell has at one of its pixels. */
  function CellInk(font: seq<byte>, cell: Cell, dx: nat, dy: nat): Word
    requires dx < CHAR_SIZE && dy < FONT_SIZE
  {
    if cell.Glyph? && (cell.c as int + 1) * FONT_SIZE <= |font| && Lit(font, cell.c, dx, dy) then cell.color else BLACK
  }

  /** The color the paper gives a pixel: black outside the text area. */
  function Ink(font: seq<byte>, p: Paper, u: int, v: int): Word {
    if OnGrid(u, v) then
      CellInk(font, Seen(p, Col(u), Row(v)), u - (MARGIN + CHAR_SIZE * Col(u)), v - (MARGIN + FONT_SIZE * Row(v)))
    else BLACK
  }

  /** Cells are 8 by 16 pixels from the margin of 10 on; a glyph has its color where its font
      rows are lit, and everything else is black. */
  lemma InkIs(font: seq<byte>, p: Paper, col: nat, row: nat, dx: nat, dy: nat)
    requires |font| >= 2048 && col < 97 && row < 36 && dx < 8 && dy < 16
    ensures var ink := Ink(font, p, 10 + 8 * col + dx, 10 + 16 * row + dy);
            match Seen(p, col, row)
            case Blank => ink == 0
            case Glyph(c, color) => c as int < 128 ==> ink == if Lit(font, c, dx, dy) then color else 0
  {
    hide Seen;
    CellOf(10 + 8 * col + dx, 10 + 16 * row + dy, col, row);
  }

  lemma InkOutside(font: seq<byte>, p: Paper, u: int, v: int)
    requires u < 10 || u >= 786 || v < 10 || v >= 586
    ensures Ink(font, p, u, v) == 0
  {
  }

  lemma BlankPaperIsBlack(font: seq<byte>, u: int, v: int)
    ensures Ink(font, [[]], u, v) == BLACK
  {
  }

  class Console {
    const screen: Screen
    const font: seq<byte>
    var x: int
    var y: int

    constructor (screen: Screen, font: seq<byte>)
      requires screen.Valid() && |font| >= ASCII * FONT_SIZE
      ensures this.screen == screen && this.font == font && Valid() && x == 0 && y == 0
    {
      this.screen, this.font, x, y := screen, font, 0, 0;
    }

    ghost predicate Valid() {
      screen.Valid() && |font| >= ASCII * FONT_SIZE
    }

    /** The screen shows the end of the paper and nothing else. */
    ghost predicate Shows(p: Paper)
      requires Valid()
      reads screen.fb
    {
      forall u, v :: OnScreen(u, v) ==> screen.Pixel(u, v) == Ink(font, p, u, v)
    }

    ghost predicate Follows(p: Paper)
      requires Valid()
      reads this, screen.fb
    {
      Shows(p) && x == CursorX(p) && y == CursorY(p)
    }

    /** From whatever state, the log starts on blank paper. */
    method ClearKlog()
      requires Valid()
      modifies this, screen.fb
      ensures Follows([[]])
    {
      hide screen.Pixel, screen.StoredAt;
      for i := 0 to SCREEN_WIDTH
        invariant forall u, v :: OnScreen(u, v) && u < i ==> screen.Pixel(u, v) == BLACK
      {
        for j := 0 to SCREEN_HEIGHT
          invariant forall u, v :: OnScreen(u, v) && (u < i || (u == i && v < j)) ==> screen.Pixel(u, v) == BLACK
        {
          screen.PutPixel(i, j, BLACK);
        }
      }
      x, y := 0, 0;
      forall u, v | OnScreen(u, v) ensures screen.Pixel(u, v) == Ink(font, [[]], u, v) {
        BlankPaperIsBlack(font, u, v);
      }
    }

    /** The text area moves up by one row of cells, a blank row comes in at the bottom and
        the rest of the screen stays. */
    method Scroll()
      requires Valid() && x == 0
      modifies screen.fb
      ensures forall u, v :: OnScreen(u, v) && !OnGrid(u, v) ==> screen.Pixel(u, v) == old(screen.Pixel(u, v))
      ensures forall u, v :: OnGrid(u, v) ==>
                screen.Pixel(u, v) ==
                  if OnGrid(u, v + FONT_SIZE) then old(screen.Pixel(u, v + FONT_SIZE)) else BLACK
    {
      hide screen.Pixel, InCell;
      for i := 0 to NBCOL
        invariant forall u, v :: OnScreen(u, v) && !(OnGrid(u, v) && Col(u) == 0 && Row(v) == 0)
                    ==> screen.Pixel(u, v) == old(screen.Pixel(u, v))
      {
        screen.ClearChar(x * CHAR_SIZE + MARGIN, MARGIN);
        forall u, v ensures InCell(u, v, MARGIN, MARGIN) <==> OnGrid(u, v) && Col(u) == 0 && Row(v) == 0 {
          CellOf(u, v, 0, 0);
        }
      }
      for i := 0 to NBCOL
        invariant forall u, v :: OnScreen(u, v) && !OnGrid(u, v) ==> screen.Pixel(u, v) == old(screen.Pixel(u, v))
        invariant forall u, v :: OnGrid(u, v) && Col(u) >= i && (Col(u) > 0 || Row(v) > 0)
                    ==> screen.Pixel(u, v) == old(screen.Pixel(u, v))
        invariant forall u, v :: OnGrid(u, v) && Col(u) < i ==>
                    screen.Pixel(u, v) ==
                      if OnGrid(u, v + FONT_SIZE) then old(screen.Pixel(u, v + FONT_SIZE)) else BLACK
      {
        ScrollColumn(i);
      }
    }

    method ScrollColumn(i: nat)
      requires Valid() && i < NBCOL
      modifies screen.fb
      ensures forall u, v :: OnScreen(u, v) && !(OnGrid(u, v) && Col(u) == i) ==>
              screen.Pixel(u, v) == old(screen.Pixel(u, v))
      ensures forall u, v :: OnGrid(u, v) && Col(u) == i ==>
                screen.Pixel(u, v) ==
                  if OnGrid(u, v + FONT_SIZE) then old(screen.Pixel(u, v + FONT_SIZE)) else BLACK
    {
      hide screen.Pixel;
      for j := 1 to NBLIN
        invariant forall u, v :: OnScreen(u, v) && !(OnGrid(u, v) && Col(u) == i && Row(v) < j)
                    ==> screen.Pixel(u, v) == old(screen.Pixel(u, v))
        invariant forall u, v :: OnGrid(u, v) && Col(u) == i && Row(v) < j - 1 ==>
                    screen.Pixel(u, v) ==
                      if OnGrid(u, v + FONT_SIZE) then old(screen.Pixel(u, v + FONT_SIZE)) else BLACK
        invariant forall u, v :: OnGrid(u, v) && Col(u) == i && Row(v) == j - 1 && j > 1 ==> screen.Pixel(u, v) == BLACK
      {
        LiftCell(i, j);
      }
    }

    /** Copy a cell over the one above it and clear it. */
    method LiftCell(i: nat, j: nat)
      requires Valid() && i < NBCOL && 1 <= j < NBLIN
      modifies screen.fb
      ensures forall u, v :: OnScreen(u, v) && !(OnGrid(u, v) && Col(u) == i && j - 1 <= Row(v) <= j)
                ==> screen.Pixel(u, v) == old(screen.Pixel(u, v))
      ensures forall u, v :: OnGrid(u, v) && Col(u) == i && Row(v) == j ==> screen.Pixel(u, v) == BLACK
      ensures forall u, v :: OnGrid(u, v) && Col(u) == i && Row(v) == j - 1
                ==> OnGrid(u, v + FONT_SIZE) && screen.Pixel(u, v) == old(screen.Pixel(u, v + FONT_SIZE))
    {
      hide screen.Pixel;
      screen.CopyChar(i * CHAR_SIZE + MARGIN, j * FONT_SIZE + MARGIN,
                      i * CHAR_SIZE + MARGIN, (j - 1) * FONT_SIZE + MARGIN);
      screen.ClearChar(i * CHAR_SIZE + MARGIN, j * FONT_SIZE + MARGIN);
      forall u, v
        ensures InCell(u, v, MARGIN + CHAR_SIZE * i, MARGIN + FONT_SIZE * j) <==>
                OnGrid(u, v) && Col(u) == i && Row(v) == j
        ensures InCell(u, v, MARGIN + CHAR_SIZE * i, MARGIN + FONT_SIZE * (j - 1)) <==>
                OnGrid(u, v) && Col(u) == i && Row(v) == j - 1
      {
        CellOf(u, v, i, j);
        CellOf(u, v, i, j - 1);
      }
    }

    /** To the start of the next row, scrolling when there is none. */
    method NextRow(ghost p: Paper)
      requires Valid() && Shows(p) && y == CursorY(p)
      modifies this, screen.fb
      ensures Follows(NextLine(p))
    {
      hide screen.Pixel, Lit, Col, Row, Seen, CursorX, CursorY, NextLine;
      NextLineSeen(p, 0, 0);
      x := 0;
      if y == NBLIN - 1 { Scroll(); } else { y := y + 1; }
      forall u, v | OnScreen(u, v) ensures screen.Pixel(u, v) == Ink(font, NextLine(p), u, v) {
        if OnGrid(u, v) {
          CellBelow(u, v);
          NextLineSeen(p, Col(u), Row(v));
        }
      }
    }

    /** Clear the cell the cursor is on, which takes the paper's last character off. */
    method Erase(ghost p: Paper)
      requires Valid() && Shows(p) && |Last(p)| > 0 && x == |Last(p)| - 1 && y == CursorY(p)
      modifies screen.fb
      ensures Follows(WithLast(p, Last(p)[..x]))
    {
      hide screen.Pixel, Col, Row, Seen, CursorY, WithLast;
      ghost var line := Last(p)[..x];
      screen.ClearChar(x * CHAR_SIZE + MARGIN, y * FONT_SIZE + MARGIN);
      WithLastSeen(p, line, 0, 0);
      forall u, v | OnScreen(u, v) ensures screen.Pixel(u, v) == Ink(font, WithLast(p, line), u, v) {
        CellOf(u, v, x, y);
        if OnGrid(u, v) {
          CellBelow(u, v);
          WithLastSeen(p, line, Col(u), Row(v));
          LastSeen(p, Col(u));
        }
      }
    }

    /** Draw a character where the cursor is; the cell was blank, so just its glyph shows. */
    method Draw(c: byte, color: Word, ghost p: Paper)
      requires Valid() && Follows(p) && x < NBCOL && c < ASCII
      modifies this, screen.fb
      ensures Follows(WithLast(p, Last(p) + [Glyph(c, color % COLORS)]))
    {
      hide screen.Pixel, Lit, Col, Row, Seen, CursorY, WithLast;
      ghost var line := Last(p) + [Glyph(c, color % COLORS)];
      screen.DrawChar(font, x * CHAR_SIZE + MARGIN, y * FONT_SIZE + MARGIN, c, color);
      WithLastSeen(p, line, 0, 0);
      forall u, v | OnScreen(u, v) ensures screen.Pixel(u, v) == Ink(font, WithLast(p, line), u, v) {
        CellOf(u, v, x, y);
        if OnGrid(u, v) {
          CellBelow(u, v);
          WithLastSeen(p, line, Col(u), Row(v));
          LastSeen(p, Col(u));
        }
      }
      x := x + 1;
    }

    /** Four columns on, if that stays in the row: the cells passed over were blank already. */
    method Skip(ghost p: Paper)
      requires Valid() && Follows(p) && x + 4 < NBCOL
      modifies this
      ensures Follows(WithLast(p, Last(p) + [Blank, Blank, Blank, Blank]))
    {
      hide screen.Pixel, Col, Row, Seen, CellInk, CursorY, WithLast;
      ghost var line := Last(p) + [Blank, Blank, Blank, Blank];
      WithLastSeen(p, line, 0, 0);
      forall u, v | OnScreen(u, v) ensures screen.Pixel(u, v) == Ink(font, WithLast(p, line), u, v) {
        if OnGrid(u, v) {
          CellBelow(u, v);
          WithLastSeen(p, line, Col(u), Row(v));
          LastSeen(p, Col(u));
        }
      }
      x := x + 4;
    }

    /** Writing on the screen is typing on the paper that the screen shows the end of. */
    method KlogWrite(str: seq<byte>, color: Word, ghost p: Paper) returns (n: nat)
      requires Valid() && Follows(p) && forall k :: 0 <= k < |str| ==> str[k] < ASCII
      modifies this, screen.fb
      ensures n == |str|
      ensures Follows(TypedAll(p, str, color))
    {
      hide screen.Pixel, Ink, Shows, NextLine, Last, WithLast, CursorY;
      n := 0;
      while n < |str|
        invariant n <= |str|
        invariant Follows(TypedAll(p, str[..n], color))
      {
        ghost var before := TypedAll(p, str[..n], color);
        assert str[..n + 1][..n] == str[..n];
        var c := str[n];
        if x >= NBCOL { NextRow(before); }
        ghost var q := Wrapped(before);
        if c == NEWLINE {
          NextRow(q);
        } else if c == TAB {
          if x + 4 < NBCOL { Skip(q); }
        } else if c == BACKSPACE {
          if x > 0 {
            x := x - 1;
            Erase(q);
          }
        } else {
          Draw(c, color, q);
        }
        n := n + 1;
      }
      assert str[..n] == str;
    }
  }
}
