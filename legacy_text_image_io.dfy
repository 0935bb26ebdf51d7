/**
 * The older decoder in the `game` package (`game/TextImageIO`): the same
 * size rule and archive loop as the `image` package, but every pixel is
 * read as an opaque colour, and the padding test reads one character past
 * the end of a short line.
 *
 * `GlyphAtAsWritten` models that test as written; the fill used by `Read`
 * pads with spaces as the newer decoder does (`TextImageIO.GlyphAt`).
 */
module LegacyTextImageIO {
  import opened Wrappers
  import opened Glyphs
  import TextImageIO

  /** `toRGB` of this decoder: `new Color(rgb)` drops the alpha channel. */
  function ToOpaqueRGB(pixel: Argb): (c: Rgb)
    ensures c.red == pixel.red && c.green == pixel.green && c.blue == pixel.blue
  {
    Rgb(pixel.red, pixel.green, pixel.blue)
  }

  /** Alpha makes no difference: no pixel is transparent to this decoder. */
  lemma OpaqueIgnoresAlpha(pixel: Argb, alpha: int)
    ensures ToOpaqueRGB(pixel.(alpha := alpha)) == ToOpaqueRGB(pixel)
  {
  }

  /** Where the newer decoder sees a colour, both decoders see the same one. */
  lemma OpaqueAgreesWhenVisible(pixel: Argb)
    requires pixel.alpha != 0
    ensures TextImageIO.ToRGB(pixel) == Some(ToOpaqueRGB(pixel))
  {
  }

  /**
   * The glyph test as written: `column > line.length()` pads, anything
   * else calls `charAt(column)`, which throws at `column == length`.
   */
  function GlyphAtAsWritten(line: string, column: nat): (r: Result<char>)
    ensures r.Err? <==> column == |line|
    ensures r.Ok? ==> r.value == TextImageIO.GlyphAt(line, column)
  {
    if column > |line| then Ok(' ')
    else if column < |line| then Ok(line[column])
    else Err(IndexOutOfBounds)
  }

  /** Every glyph of an image `width` columns wide, as written, is read without error. */
  predicate GlyphsReadAsWritten(lines: seq<string>, width: nat) {
    forall row, column :: 0 <= row < |lines| && 0 <= column < width ==>
      GlyphAtAsWritten(lines[row], column).Ok?
  }

  /**
   * As written, the fill succeeds exactly when every line is as long as
   * the longest one: a shorter line is read at its own length.
   */
  lemma AsWrittenNeedsEqualLines(lines: seq<string>)
    ensures GlyphsReadAsWritten(lines, TextImageIO.MaxLength(lines)) <==>
              forall row :: 0 <= row < |lines| ==> |lines[row]| == TextImageIO.MaxLength(lines)
  {
    var width := TextImageIO.MaxLength(lines);
    if !forall row :: 0 <= row < |lines| ==> |lines[row]| == width {
      var row :| 0 <= row < |lines| && |lines[row]| != width;
      assert GlyphAtAsWritten(lines[row], |lines[row]|).Err?;
    }
  }

  /**
   * ["ab", "a"]: the image is 2 columns wide, and row 1 column 1 throws as
   * written, where the intended padding gives a space.
   */
  lemma ShortLineFails()
    ensures TextImageIO.MaxLength(["ab", "a"]) == 2
    ensures GlyphAtAsWritten("a", 1).Err?
    ensures !GlyphsReadAsWritten(["ab", "a"], 2)
    ensures TextImageIO.GlyphAt("a", 1) == ' '
  {
    assert ["ab", "a"][1..] == ["a"];
    assert ["a"][1..] == [];
    assert GlyphAtAsWritten(["ab", "a"][1], 1).Err?;
  }

  /** The cell this decoder writes: the glyph and both colours, always opaque. */
  function OpaqueCell(line: string, column: nat, foreground: Argb, background: Argb): (c: Cell)
    ensures !c.Transparent() && c.glyph == TextImageIO.GlyphAt(line, column)
    ensures c.fg == Some(ToOpaqueRGB(foreground)) && c.bg == Some(ToOpaqueRGB(background))
  {
    Cell(TextImageIO.GlyphAt(line, column), Some(ToOpaqueRGB(foreground)), Some(ToOpaqueRGB(background)))
  }

  /**
   * `fillImage`, with the padding test corrected: the colours are set on
   * the graphics and the glyph is put at (column, row).
   */
  method FillImage(image: array2<Cell>, glyphs: seq<string>, foreground: Picture, background: Picture)
    requires |glyphs| == image.Length0
    requires TextImageIO.Covers(foreground, Size(image.Length1, image.Length0))
    requires TextImageIO.Covers(background, Size(image.Length1, image.Length0))
    modifies image
    ensures forall row, column :: 0 <= row < image.Length0 && 0 <= column < image.Length1 ==>
              image[row, column] ==
                OpaqueCell(glyphs[row], column, foreground.At(column, row), background.At(column, row))
  {
    var row := 0;
    while row < image.Length0
      invariant 0 <= row <= image.Length0
      invariant forall r, c :: 0 <= r < row && 0 <= c < image.Length1 ==>
                  image[r, c] == OpaqueCell(glyphs[r], c, foreground.At(c, r), background.At(c, r))
    {
      var line := glyphs[row];
      var column := 0;
      while column < image.Length1
        invariant 0 <= column <= image.Length1
        invariant forall r, c :: 0 <= r < row && 0 <= c < image.Length1 ==>
                    image[r, c] == OpaqueCell(glyphs[r], c, foreground.At(c, r), background.At(c, r))
        invariant forall c :: 0 <= c < column ==>
                    image[row, c] == OpaqueCell(glyphs[row], c, foreground.At(c, row), background.At(c, row))
      {
        var glyph := if column >= |line| then ' ' else line[column];
        var foregroundColor := ToOpaqueRGB(foreground.At(column, row));
        var backgroundColor := ToOpaqueRGB(background.At(column, row));
        image[row, column] := Cell(glyph, Some(foregroundColor), Some(backgroundColor));
        column := column + 1;
      }
      row := row + 1;
    }
  }

  /**
   * The private `read(glyphs, foreground, background)`: a `BasicTextImage`
   * of the glyphs' size, whose cells start as `blank`, then filled.
   * Failures are those of the newer decoder.
   */
  method Read(glyphs: Option<seq<string>>, foreground: Option<Picture>, background: Option<Picture>, blank: Cell)
    returns (r: Result<array2<Cell>>)
    requires foreground.Some? ==> foreground.value.Valid()
    requires background.Some? ==> background.value.Valid()
    ensures glyphs.None? ==> r == Err(NullPointer)
    ensures glyphs.Some? && glyphs.value == [] ==> r == Err(NoSuchElement)
    ensures glyphs.Some? && glyphs.value != [] ==>
              match TextImageIO.FillError(TextImageIO.GetImageSize(glyphs.value).value, foreground, background)
              case Some(e) => r == Err(e)
              case None => r.Ok?
    ensures r.Ok? ==>
              && glyphs.Some? && fresh(r.value)
              && Size(r.value.Length1, r.value.Length0) == TextImageIO.GetImageSize(glyphs.value).value
              && forall row, column :: 0 <= row < r.value.Length0 && 0 <= column < r.value.Length1 ==>
                   r.value[row, column] ==
                     OpaqueCell(glyphs.value[row], column, foreground.value.At(column, row), background.value.At(column, row))
  {
    if glyphs.None? {
      return Err(NullPointer);
    }
    var size := TextImageIO.GetImageSize(glyphs.value);
    if size.Err? {
      return Err(size.error);
    }
    var failure := TextImageIO.FillError(size.value, foreground, background);
    if failure.Some? {
      return Err(failure.value);
    }
    var image := new Cell[size.value.rows, size.value.columns]((_, _) => blank);
    if size.value.columns == 0 {
      return Ok(image);
    }
    FillImage(image, glyphs.value, foreground.value, background.value);
    return Ok(image);
  }

  /** The message of the `IOException` a closed `ZipInputStream` throws. */
  const StreamClosed := "Stream closed"

  /**
   * `read(InputStream)` as written. `readGlyphs` closes its reader and
   * `readImage` closes its stream, and either closes the zip stream it
   * wraps. So the first recognised entry is read, and the next
   * `getNextEntry` throws. An archive with no recognised entry runs out of
   * entries first, and `getName()` on the null entry throws.
   */
  method ReadFromArchiveAsWritten(entries: seq<TextImageIO.Entry>) returns (r: Result<array2<Cell>>, consumed: nat)
    ensures r.Err?
    ensures TextImageIO.CountRecognised(entries) == 0 ==> r == Err(NullPointer) && consumed == |entries|
    ensures TextImageIO.CountRecognised(entries) >= 1 ==>
              && r == Err(IO(StreamClosed))
              && 0 < consumed <= |entries|
              && TextImageIO.CountRecognised(entries[..consumed]) == 1
              && TextImageIO.Recognised(entries[consumed - 1].name)
  {
    var open := true;
    var loaded := 0;
    var i := 0;
    while loaded != 3
      invariant 0 <= i <= |entries| && loaded == TextImageIO.CountRecognised(entries[..i]) <= 1
      invariant open <==> loaded == 0
      invariant loaded == 1 ==> i > 0 && TextImageIO.Recognised(entries[i - 1].name)
      decreases |entries| - i
    {
      if !open {
        TextImageIO.CountMonotone(entries, i);
        return Err(IO(StreamClosed)), i;
      }
      if i == |entries| {
        assert entries[..i] == entries;
        return Err(NullPointer), i;
      }
      var next := entries[i];
      TextImageIO.CountPrefix(entries, i);
      if TextImageIO.Recognised(next.name) {
        // the part is read, and reading it closes the zip stream
        open := false;
        loaded := loaded + 1;
      }
      i := i + 1;
    }
    assert false;
  }

  /**
   * `read(InputStream)` with the streams left open: the entry loop of the
   * newer decoder, then this decoder's `read`.
   */
  method ReadFromArchive(entries: seq<TextImageIO.Entry>, blank: Cell) returns (r: Result<array2<Cell>>)
    requires forall i :: 0 <= i < |entries| ==> entries[i].picture.Valid()
    ensures TextImageIO.CountRecognised(entries) < 3 ==> r == Err(NullPointer)
    ensures r.Ok? ==> fresh(r.value)
  {
    var parts, consumed := TextImageIO.ReadArchive(entries);
    if parts.Err? {
      return Err(parts.error);
    }
    var f := TextImageIO.LastNamed(entries[..consumed], TextImageIO.ForegroundName);
    var b := TextImageIO.LastNamed(entries[..consumed], TextImageIO.BackgroundName);
    if f.Some? {
      assert f.value in entries;
    }
    if b.Some? {
      assert b.value in entries;
    }
    r := Read(parts.value.glyphs, parts.value.foreground, parts.value.background, blank);
  }
}
