/** What the kernel log shows, described without a screen: lines typed on a roll of paper
    that never ends, of which the screen shows the last ones. */
module Typescript {
  import opened Bytes
  import Graphics

  const NBCOL := 97
  const NBLIN := 36
  const NEWLINE: byte := 10
  const TAB: byte := 9
  const BACKSPACE: byte := 8

  datatype Cell = Blank | Glyph(c: byte, color: Word)

  /** A line holds what is left of the cursor or ended by a line break. */
  type Line = seq<Cell>

  type Paper = p: seq<Line> | |p| > 0 && forall k :: 0 <= k < |p| ==> |p[k]| <= NBCOL witness [[]]

  /** The line the cursor is on; the cursor stands right after it. */
  function Last(p: Paper): Line { p[|p| - 1] }

  function WithLast(p: Paper, line: Line): (q: Paper)
    requires |line| <= NBCOL
    ensures Last(q) == line && |q| == |p|
    ensures forall k :: 0 <= k < |p| - 1 ==> q[k] == p[k]
  {
    p[|p| - 1 := line]
  }

  function NextLine(p: Paper): Paper { p + [[]] }

  /** A character that meets a full line starts the next one first, whatever it is. */
  function Wrapped(p: Paper): (q: Paper)
    ensures |Last(q)| < NBCOL
  {
    if |Last(p)| >= NBCOL then NextLine(p) else p
  }

  function Typed(p: Paper, c: byte, color: Word): Paper {
    var q := Wrapped(p);
    if c == NEWLINE then NextLine(q)
    else if c == TAB then
      if |Last(q)| + 4 < NBCOL then WithLast(q, Last(q) + [Blank, Blank, Blank, Blank]) else q
    else if c == BACKSPACE then
      if |Last(q)| > 0 then WithLast(q, Last(q)[..|Last(q)| - 1]) else q
    else WithLast(q, Last(q) + [Glyph(c, color % Graphics.COLORS)])
  }

  function TypedAll(p: Paper, str: seq<byte>, color: Word): Paper
    decreases |str|
  {
    if str == [] then p else Typed(TypedAll(p, str[..|str| - 1], color), str[|str| - 1], color)
  }

  /** The lines that have left the screen at the top. */
  function Top(p: Paper): nat { if |p| > NBLIN then |p| - NBLIN else 0 }

  /** What the paper has at a column and row of the screen. */
  function Seen(p: Paper, col: nat, row: nat): Cell {
    var k := Top(p) + row;
    if k < |p| && col < |p[k]| then p[k][col] else Blank
  }

  /** The cursor's place on the screen. */
  function CursorX(p: Paper): (x: nat)
    ensures x <= NBCOL
  {
    |Last(p)|
  }

  function CursorY(p: Paper): (y: nat)
    ensures y < NBLIN
  {
    |p| - 1 - Top(p)
  }

  /** Every place at or after the cursor, in reading order, is blank. */
  lemma BlankAfterCursor(p: Paper, col: nat, row: nat)
    requires row > CursorY(p) || (row == CursorY(p) && col >= CursorX(p))
    ensures Seen(p, col, row) == Blank
  {
  }

  /** A new line moves what is seen up by one row when the cursor is on the last row, and
      leaves it alone otherwise. */
  lemma NextLineSeen(p: Paper, col: nat, row: nat)
    requires row < NBLIN
    ensures CursorX(NextLine(p)) == 0
    ensures CursorY(p) < NBLIN - 1 ==>
            CursorY(NextLine(p)) == CursorY(p) + 1 && Seen(NextLine(p), col, row) == Seen(p, col, row)
    ensures CursorY(p) == NBLIN - 1 ==> CursorY(NextLine(p)) == CursorY(p)
    ensures CursorY(p) == NBLIN - 1 ==>
            Seen(NextLine(p), col, row) == if row < NBLIN - 1 then Seen(p, col, row + 1) else Blank
  {
  }

  /** Other changes to the cursor's line are seen there and nowhere else. */
  lemma WithLastSeen(p: Paper, line: Line, col: nat, row: nat)
    requires |line| <= NBCOL && row < NBLIN
    ensures CursorY(WithLast(p, line)) == CursorY(p) && CursorX(WithLast(p, line)) == |line|
    ensures Seen(WithLast(p, line), col, row) == if row != CursorY(p)
            then Seen(p, col, row) else if col < |line| then line[col] else Blank
  {
  }

  lemma LastSeen(p: Paper, col: nat)
    ensures Seen(p, col, CursorY(p)) == if col < |Last(p)| then Last(p)[col] else Blank
  {
  }

  /** The characters on the paper, in the order they were typed. */
  function Text(p: seq<Line>): Line {
    if p == [] then [] else Text(p[..|p| - 1]) + p[|p| - 1]
  }

  predicate Plain(str: seq<byte>) { NEWLINE !in str && TAB !in str && BACKSPACE !in str }

  function Glyphs(str: seq<byte>, color: Word): Line {
    seq(|str|, i requires 0 <= i < |str| => Glyph(str[i], color % Graphics.COLORS))
  }

  /** Every line but the last is full. */
  predicate Filled(p: Paper) { forall k :: 0 <= k < |p| - 1 ==> |p[k]| == NBCOL }

  /** Text without control characters is all there, in order, after what was there before:
      no character is lost or repeated where lines wrap. */
  lemma {:induction false} PlainTextIsKept(p: Paper, str: seq<byte>, color: Word)
    requires Plain(str)
    ensures Text(TypedAll(p, str, color)) == Text(p) + Glyphs(str, color)
    decreases |str|
  {
    hide Glyphs;
    GlyphsGrow(str, color);
    if str != [] {
      var n := |str| - 1;
      PlainTextIsKept(p, str[..n], color);
      var q := TypedAll(p, str[..n], color);
      var r := Wrapped(q);
      assert NextLine(q)[..|q|] == q;
      assert Text(r) == Text(q);
      var s := Typed(q, str[n], color);
      assert str[n] in str;
      assert s[..|s| - 1] == r[..|r| - 1];
      assert Text(s) == Text(r) + [Glyph(str[n], color % Graphics.COLORS)];
    }
  }

  lemma GlyphsGrow(str: seq<byte>, color: Word)
    ensures str == [] ==> Glyphs(str, color) == []
    ensures str != [] ==>
              var n := |str| - 1;
              Glyphs(str, color) == Glyphs(str[..n], color) + [Glyph(str[n], color % Graphics.COLORS)]
  {
  }

  /** ... and it breaks into lines only where a line is full. */
  lemma {:induction false} PlainTextFillsLines(p: Paper, str: seq<byte>, color: Word)
    requires Plain(str) && Filled(p)
    ensures Filled(TypedAll(p, str, color))
    decreases |str|
  {
    if str != [] {
      var n := |str| - 1;
      PlainTextFillsLines(p, str[..n], color);
      assert str[n] in str;
    }
  }

  /** Writing one string after another is writing both as one. */
  lemma {:induction false} WritingInParts(p: Paper, a: seq<byte>, b: seq<byte>, color: Word)
    ensures TypedAll(p, a + b, color) == TypedAll(TypedAll(p, a, color), b, color)
    decreases |b|
  {
    if b == [] {
      assert a + b == a;
    } else {
      var n := |b| - 1;
      assert (a + b)[..|a + b| - 1] == a + b[..n];
      WritingInParts(p, a, b[..n], color);
    }
  }

  /** A backspace takes a character back unless it was put in the last column or started a
      new line: there the cursor has to wrap before it moves back. */
  lemma BackspaceUndoesIff(p: Paper, c: byte, color: Word)
    requires Plain([c])
    ensures Typed(Typed(p, c, color), BACKSPACE, color) == p <==> |Last(p)| < NBCOL - 1
  {
    assert c in [c];
    var q := Typed(p, c, color);
    var r := Typed(q, BACKSPACE, color);
    if |Last(p)| < NBCOL - 1 {
      assert Last(q)[..|Last(q)| - 1] == Last(p);
      assert r == p;
    } else {
      assert |r| > |p|;
    }
  }

  // ----- each character in turn -----

  /** A character typed on a full line goes to the next one; on any other the paper keeps its
      lines before the cursor's. */
  lemma TypedWhere(p: Paper, c: byte, color: Word)
    ensures var full := |Last(p)| == 97; var q := Typed(p, c, color);
            |q| == |p| + (if full then 1 else 0) + (if c == 10 then 1 else 0)
    ensures var q := Typed(p, c, color);
            forall k :: 0 <= k < |p| && (k < |p| - 1 || |Last(p)| == 97 || c == 10) ==> q[k] == p[k]
  {
  }

  /** A newline ends the cursor's line and puts the cursor at the start of a new one. */
  lemma TypedNewline(p: Paper, color: Word)
    ensures CursorX(Typed(p, 10, color)) == 0
  {
  }

  /** A tab moves the cursor over four blank columns if they leave it inside the line, and has
      no effect otherwise, except that of leaving a full line. */
  lemma TypedTab(p: Paper, color: Word)
    ensures var line := Last(Typed(p, 9, color)); var x := if |Last(p)| == 97 then 0 else |Last(p)|;
            && |line| == (if x + 4 < 97 then x + 4 else x)
            && (|Last(p)| < 97 ==> line[..x] == Last(p)) && forall k :: x <= k < |line| ==> line[k] == Blank
  {
  }

  /** A backspace takes the last character of the cursor's line away, if it has any. */
  lemma TypedBackspace(p: Paper, color: Word)
    ensures Last(Typed(p, 8, color)) == if 0 < |Last(p)| < 97 then Last(p)[..|Last(p)| - 1] else []
  {
  }

  /** Any other character appears behind the line in its color. */
  lemma TypedGlyph(p: Paper, c: byte, color: Word)
    requires c != 8 && c != 9 && c != 10
    ensures Last(Typed(p, c, color)) ==
              (if |Last(p)| == 97 then [] else Last(p)) + [Glyph(c, color % 0x100_0000)]
  {
  }

  /** A string is typed character by character, and nothing by the empty one. */
  lemma TypedAllOne(p: Paper, c: byte, color: Word)
    ensures TypedAll(p, [], color) == p && TypedAll(p, [c], color) == Typed(p, c, color)
  {
    assert [c][..0] == [];
  }

  /** The cursor is right after the last line, on the row that line has on the screen. */
  lemma CursorIs(p: Paper)
    ensures CursorX(p) == |p[|p| - 1]| && CursorY(p) == if |p| > 36 then 35 else |p| - 1
  {
  }

  /** The screen has the last 36 lines of the paper, or all when there are fewer, from its first
      row on. */
  lemma SeenIs(p: Paper, k: nat, col: nat)
    requires k < |p| && k + 36 >= |p|
    ensures var row := if |p| > 36 then k + 36 - |p| else k;
            Seen(p, col, row) == if col < |p[k]| then p[k][col] else Blank
  {
  }
}
