/** The framebuffer: three bytes per pixel in rows of `pitch` bytes, and the character
    cells drawn, cleared and copied in it pixel by pixel. */
module Graphics {
  import opened Bytes
  import opened Arithmetic

  const SCREEN_WIDTH := 800
  const SCREEN_HEIGHT := 600
  const FONT_SIZE := 16
  const CHAR_SIZE := 8
  const BLACK := 0
  const COLORS := 0x100_0000

  predicate OnScreen(x: int, y: int) { 0 <= x < SCREEN_WIDTH && 0 <= y < SCREEN_HEIGHT }

  /** Pixel (u, v) lies in the character cell whose upper left corner is (x, y). */
  predicate InCell(u: int, v: int, x: int, y: int) {
    x <= u < x + CHAR_SIZE && y <= v < y + FONT_SIZE
  }

  predicate CellOnScreen(x: int, y: int) {
    OnScreen(x, y) && OnScreen(x + CHAR_SIZE - 1, y + FONT_SIZE - 1)
  }

  /** A loop over rows and columns of a cell that stands at (i, j) has been to (dx, dy). */
  predicate Passed(dx: int, dy: int, i: int, j: int) { dy < i || (dy == i && dx < j) }

  /** Bit `j` of a font row: the mask the code forms by shifting. */
  predicate Bit(b: byte, j: nat)
    requires j < 8
  {
    b / [1, 2, 4, 8, 16, 32, 64, 128][j] % 2 == 1
  }

  /** Whether the glyph of character `c` lights column `j` of row `i`. */
  predicate Lit(font: seq<byte>, c: byte, j: nat, i: nat)
    requires j < CHAR_SIZE && i < FONT_SIZE && c as int * FONT_SIZE + i < |font|
  {
    Bit(font[c as int * FONT_SIZE + i], j)
  }

  /** Bit `j` is the one worth 2^j. */
  lemma BitIs(b: byte, j: nat, p: nat, high: nat, bit: nat, low: nat)
    requires j < 8 && p == Pow2(j) && bit < 2 && low < p && b as int == (2 * high + bit) * p + low
    ensures Bit(b, j) <==> bit == 1
  {
    hide Pow2;
    Pow2Values();
    DivideBack(2 * high + bit, p, low);
    assert [1, 2, 4, 8, 16, 32, 64, 128][j] == p;
  }

  /** A glyph has 16 bytes, one for each of its rows from the top, and the lowest bit of a byte
      is the leftmost pixel of its row. */
  lemma LitIs(font: seq<byte>, c: byte, j: nat, i: nat)
    requires j < 8 && i < 16 && 16 * c as int + i < |font|
    ensures Lit(font, c, j, i) <==> Bit(font[16 * c as int + i], j)
    ensures Lit(font, c, 0, i) <==> font[16 * c as int + i] % 2 == 1
  {
  }

  /** `rgb_to_hex`. */
  function Rgb(r: byte, g: byte, b: byte): (color: Word)
    ensures color < COLORS
  {
    WordOf(b, g, r, 0)
  }

  lemma HighPart(c: int, u: int, s: int)
    requires c == 65536 * u + s && 0 <= s < 65536
    ensures c / 65536 == u
  {
  }

  lemma LowPart(c: int, w: int, s: int)
    requires c == COLORS * w + s && 0 <= s < COLORS
    ensures c % COLORS == s
  {
  }

  lemma Bytewise(c: nat) returns (w: nat, x: byte, y: byte, z: byte)
    ensures c == COLORS * w + 65536 * x as int + 256 * y as int + z as int
    ensures x as int == c / 256 / 256 % 256 && y as int == c / 256 % 256
            && z as int == c % 256 && c / 256 / 256 == 256 * w + x as int
  {
    var t := c / 256;
    var u := t / 256;
    z, y, x, w := c % 256, t % 256, u % 256, u / 256;
  }

  /** Taking a color apart, as `hex_to_rgb` does, and putting it together keeps its 24 bits. */
  lemma SplitColor(color: Word)
    ensures Rgb(color / 65536 % 256, color / 256 % 256, color % 256) == color % COLORS
  {
    var w, x, y, z := Bytewise(color);
    HighPart(color, 256 * w + x as int, 256 * y as int + z as int);
    LowPart(color, w, 65536 * x as int + 256 * y as int + z as int);
  }

  /** The three bytes `put_pixel` stores for a color: red first under QEMU, blue first
      otherwise. */
  function BytesOf(color: Word, qemu: bool): (byte, byte, byte) {
    var r: byte, g: byte, b: byte := color / 65536 % 256, color / 256 % 256, color % 256;
    if qemu then (r, g, b) else (b, g, r)
  }

  /** The color `get_pixel` makes of three stored bytes. */
  function ColorOf(b0: byte, b1: byte, b2: byte, qemu: bool): (color: Word)
    ensures color < COLORS
  {
    if qemu then Rgb(b0, b1, b2) else Rgb(b2, b1, b0)
  }

  /** The order of the bytes of a color: red, green, blue under QEMU and the reverse elsewhere. */
  lemma BytesInOrder(r: byte, g: byte, b: byte, qemu: bool)
    ensures BytesOf(65536 * r + 256 * g + b, qemu) == if qemu then (r, g, b) else (b, g, r)
  {
    var c: Word := 65536 * r + 256 * g + b;
    HighPart(c, r, 256 * g + b);
    assert c / 256 == 256 * r + g;
  }

  /** What is put at a pixel is got back, but for the bits above the 24 of a color; and
      putting back what was got changes nothing. */
  lemma PixelRoundTrip(color: Word, b0: byte, b1: byte, b2: byte, qemu: bool)
    ensures var p := BytesOf(color, qemu); ColorOf(p.0, p.1, p.2, qemu) == color % COLORS
    ensures BytesOf(ColorOf(b0, b1, b2, qemu), qemu) == (b0, b1, b2)
  {
    SplitColor(color);
    if qemu { WordOfBytes(b2, b1, b0, 0); } else { WordOfBytes(b0, b1, b2, 0); }
  }

  /** Pixels have room for three bytes each and do not overlap. */
  lemma PixelsApart(pitch: nat, x: int, y: int, u: int, v: int)
    requires pitch >= 3 * SCREEN_WIDTH && OnScreen(x, y) && OnScreen(u, v)
    ensures 0 <= y * pitch + 3 * x && y * pitch + 3 * x + 3 <= SCREEN_HEIGHT * pitch
    ensures (x, y) != (u, v) ==>
            y * pitch + 3 * x + 3 <= v * pitch + 3 * u || v * pitch + 3 * u + 3 <= y * pitch + 3 * x
  {
    RowsApart(pitch, y, SCREEN_HEIGHT);
    if y < v { RowsApart(pitch, y, v); }
    if v < y { RowsApart(pitch, v, y); }
  }

  lemma RowsApart(pitch: nat, y: nat, v: nat)
    requires y < v
    ensures 0 <= y * pitch && y * pitch + pitch <= v * pitch
  {
    assert v * pitch == y * pitch + pitch + (v - y - 1) * pitch;
  }

  class Screen {
    const fb: array<byte>
    const pitch: nat
    const qemu: bool  // red first, as under QEMU; blue first otherwise

    constructor (fb: array<byte>, pitch: nat, qemu: bool)
      requires pitch >= 3 * SCREEN_WIDTH && fb.Length >= SCREEN_HEIGHT * pitch
      ensures Valid() && this.fb == fb
    {
      this.fb, this.pitch, this.qemu := fb, pitch, qemu;
    }

    ghost predicate Valid() {
      pitch >= 3 * SCREEN_WIDTH && fb.Length >= SCREEN_HEIGHT * pitch
    }

    function Offset(x: int, y: int): (o: int)
      requires Valid() && OnScreen(x, y)
      ensures 0 <= o && o + 3 <= fb.Length
    {
      PixelsApart(pitch, x, y, x, y);
      y * pitch + 3 * x
    }

    /** The 24-bit color that the three bytes of a pixel make up. */
    function Pixel(x: int, y: int): Word
      requires Valid() && OnScreen(x, y)
      reads fb
    {
      var o := Offset(x, y);
      ColorOf(fb[o], fb[o + 1], fb[o + 2], qemu)
    }

    /** The color's three bytes are stored at an offset, and no other byte is. */
    twostate predicate StoredAt(o: int, color: Word)
      reads fb
    {
      && 0 <= o <= fb.Length - 3 && (fb[o], fb[o + 1], fb[o + 2]) == BytesOf(color, qemu)
      && forall k :: 0 <= k < fb.Length && !(o <= k < o + 3) ==> fb[k] == old(fb[k])
    }

    method PutPixel(x: int, y: int, color: Word)
      requires Valid() && OnScreen(x, y)
      modifies fb
      ensures Pixel(x, y) == color % COLORS
      ensures forall u, v :: OnScreen(u, v) && (u, v) != (x, y) ==> Pixel(u, v) == old(Pixel(u, v))
      ensures StoredAt(y * pitch + 3 * x, color)
    {
      hide BytesOf, ColorOf;
      var bytes := BytesOf(color, qemu);
      PixelRoundTrip(color, 0, 0, 0, qemu);
      var offset := Offset(x, y);
      fb[offset], fb[offset + 1], fb[offset + 2] := bytes.0, bytes.1, bytes.2;
      forall u, v | OnScreen(u, v) && (u, v) != (x, y) ensures Pixel(u, v) == old(Pixel(u, v)) {
        PixelsApart(pitch, x, y, u, v);
      }
    }

    method GetPixel(x: int, y: int) returns (color: Word)
      requires Valid() && OnScreen(x, y)
      ensures color == Pixel(x, y) < COLORS
    {
      var o := Offset(x, y);
      color := ColorOf(fb[o], fb[o + 1], fb[o + 2], qemu);
    }

    /** Only the lit pixels of the glyph are written; the others keep their color. */
    method DrawChar(font: seq<byte>, x: int, y: int, c: byte, color: Word)
      requires Valid() && CellOnScreen(x, y) && (c as int + 1) * FONT_SIZE <= |font|
      modifies fb
      ensures forall u, v :: OnScreen(u, v) ==>
                Pixel(u, v) ==
                  if InCell(u, v, x, y) && Lit(font, c, u - x, v - y) then color % COLORS else old(Pixel(u, v))
    {
      hide Pixel, Lit, StoredAt;
      for i := 0 to FONT_SIZE
        invariant forall u, v :: OnScreen(u, v) ==>
                    Pixel(u, v) == if InCell(u, v, x, y) && Passed(u - x, v - y, i, 0) && Lit(font, c, u - x, v - y)
                                   then color % COLORS else old(Pixel(u, v))
      {
        for j := 0 to CHAR_SIZE
          invariant forall u, v :: OnScreen(u, v) ==>
                      Pixel(u, v) == if InCell(u, v, x, y) && Passed(u - x, v - y, i, j) && Lit(font, c, u - x, v - y)
                                     then color % COLORS else old(Pixel(u, v))
        {
          if Lit(font, c, j, i) { PutPixel(x + j, y + i, color); }
        }
      }
    }

    method ClearChar(x: int, y: int)
      requires Valid() && CellOnScreen(x, y)
      modifies fb
      ensures forall u, v :: OnScreen(u, v) ==> Pixel(u, v) == if InCell(u, v, x, y) then BLACK else old(Pixel(u, v))
    {
      hide Pixel, StoredAt;
      for i := 0 to FONT_SIZE
        invariant forall u, v :: OnScreen(u, v) ==>
                    Pixel(u, v) == if InCell(u, v, x, y) && Passed(u - x, v - y, i, 0) then BLACK else old(Pixel(u, v))
      {
        for j := 0 to CHAR_SIZE
          invariant forall u, v :: OnScreen(u, v) ==>
                      Pixel(u, v) ==
                        if InCell(u, v, x, y) && Passed(u - x, v - y, i, j) then BLACK else old(Pixel(u, v))
        {
          PutPixel(x + j, y + i, BLACK);
        }
      }
    }

    /** Copy the cell at (x, y) over the one at (x', y'), which does not overlap it. */
    method CopyChar(x: int, y: int, x': int, y': int)
      requires Valid() && CellOnScreen(x, y) && CellOnScreen(x', y')
      requires y + FONT_SIZE <= y' || y' + FONT_SIZE <= y
      modifies fb
      ensures forall u, v :: OnScreen(u, v) ==>
                Pixel(u, v) == if InCell(u, v, x', y') then old(Pixel(u - x' + x, v - y' + y)) else old(Pixel(u, v))
    {
      hide Pixel, StoredAt;
      for i := 0 to FONT_SIZE
        invariant forall u, v :: OnScreen(u, v) ==>
                    Pixel(u, v) == if InCell(u, v, x', y') && Passed(u - x', v - y', i, 0)
                                   then old(Pixel(u - x' + x, v - y' + y)) else old(Pixel(u, v))
      {
        for j := 0 to CHAR_SIZE
          invariant forall u, v :: OnScreen(u, v) ==>
                      Pixel(u, v) == if InCell(u, v, x', y') && Passed(u - x', v - y', i, j)
                                     then old(Pixel(u - x' + x, v - y' + y)) else old(Pixel(u, v))
        {
          var color := GetPixel(x + j, y + i);
          PutPixel(x' + j, y' + i, color);
        }
      }
    }
  }
}
