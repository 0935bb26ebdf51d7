/**
 * The value types shared by the image code: colours, glyph cells, terminal
 * positions and sizes, and decoded ARGB pictures.
 */
module Glyphs {
  import opened Wrappers

  /** A colour given by its red, green and blue channels. */
  datatype Rgb = Rgb(red: int, green: int, blue: int)

  /**
   * One character cell. `fg` is None when the decoder passed no foreground
   * colour; `bg` is None for a transparent cell, the cells the source builds
   * as `TransparentTextCharacter`.
   */
  datatype Cell = Cell(glyph: char, fg: Option<Rgb>, bg: Option<Rgb>)
  {
    predicate Transparent() { bg.None? }
  }

  /** A terminal position, as `TerminalPosition`: any integers. */
  datatype Position = Position(column: int, row: int)

  /** A terminal size, as `TerminalSize`, which refuses negative sizes. */
  datatype Size = Size(columns: nat, rows: nat)

  const TopLeftCorner := Position(0, 0)

  /** A pixel as `Color(argb, true)` splits it: alpha and three channels. */
  datatype Argb = Argb(alpha: int, red: int, green: int, blue: int)

  /** A decoded picture: `height` rows of `width` pixels, indexed [y][x]. */
  datatype Picture = Picture(width: nat, height: nat, pixels: seq<seq<Argb>>)
  {
    predicate Valid() {
      |pixels| == height && forall y :: 0 <= y < height ==> |pixels[y]| == width
    }

    /** The pixel at column x, row y, as `BufferedImage.getRGB(x, y)`. */
    function At(x: nat, y: nat): Argb
      requires Valid() && x < width && y < height
    {
      pixels[y][x]
    }
  }
}
