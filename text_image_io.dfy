/**
 * Decoding a text image (the `image` package's `TextImageIO`): the glyph
 * lines give the size and the characters, the foreground and background
 * pictures give each cell's colours, and a background pixel with alpha 0
 * makes the cell transparent.
 *
 * Reading the glyph text, the PNG files and the zip archive is done by
 * foreign decoders; the model starts from what they produce: the glyph
 * lines, decoded pictures, and the archive's entries in order.
 */
module TextImageIO {
  import opened Wrappers
  import opened Glyphs
  import opened Strings
  import opened Compositor

  const GlyphsName := "glyphs.txt"
  const ForegroundName := "foreground.png"
  const BackgroundName := "background.png"

  /** The longest line's length. */
  function MaxLength(lines: seq<string>): (m: nat)
    ensures forall i :: 0 <= i < |lines| ==> |lines[i]| <= m
    ensures lines != [] ==> exists i :: 0 <= i < |lines| && |lines[i]| == m
    ensures lines == [] ==> m == 0
  {
    if lines == [] then 0
    else
      var rest := MaxLength(lines[1..]);
      assert forall i :: 1 <= i < |lines| ==> lines[i] == lines[1..][i - 1];
      if |lines[0]| >= rest then |lines[0]| else rest
  }

  /**
   * `getImageSize`: as many columns as the longest line, as many rows as
   * there are lines; no lines at all fail at `max().get()`.
   */
  function GetImageSize(lines: seq<string>): (r: Result<Size>)
    ensures r.Err? <==> lines == []
    ensures r.Err? ==> r.error == NoSuchElement
    ensures r.Ok? ==> r.value.rows == |lines|
    ensures r.Ok? ==> forall i :: 0 <= i < |lines| ==> |lines[i]| <= r.value.columns
    ensures r.Ok? ==> exists i :: 0 <= i < |lines| && |lines[i]| == r.value.columns
  {
    if lines == [] then Err(NoSuchElement) else Ok(Size(MaxLength(lines), |lines|))
  }

  /** `toRGB`: no colour for a fully transparent pixel, otherwise its channels. */
  function ToRGB(pixel: Argb): (c: Option<Rgb>)
    ensures c.None? <==> pixel.alpha == 0
    ensures c.Some? ==> c.value == Rgb(pixel.red, pixel.green, pixel.blue)
  {
    if pixel.alpha == 0 then None else Some(Rgb(pixel.red, pixel.green, pixel.blue))
  }

  /** The glyph `fillImage` puts at `column` of a line: a space past its end. */
  function GlyphAt(line: string, column: nat): char {
    if column >= |line| then ' ' else line[column]
  }

  /** The glyphs of one row are the line right-padded with spaces to the width. */
  lemma PaddedRow(line: string, width: nat, column: nat)
    requires |line| <= width && column < width
    ensures GlyphAt(line, column) == (line + Spaces(width - |line|))[column]
  {
  }

  /** The cell decoded at (column, row). */
  function DecodedCell(line: string, column: nat, foreground: Argb, background: Argb): (c: Cell)
    ensures c.Transparent() <==> background.alpha == 0
    ensures c.glyph == GlyphAt(line, column) && c.fg == ToRGB(foreground)
    ensures !c.Transparent() ==> c.bg == Some(Rgb(background.red, background.green, background.blue))
  {
    var fg := ToRGB(foreground);
    var bg := ToRGB(background);
    if bg.Some? then Cell(GlyphAt(line, column), fg, bg) else Cell(GlyphAt(line, column), fg, None)
  }

  /** A picture with a pixel for every cell of `size`. */
  predicate Covers(picture: Picture, size: Size) {
    picture.Valid() && size.columns <= picture.width && size.rows <= picture.height
  }

  /**
   * `fillImage`: every cell of the image gets the glyph of its line and
   * the colours of its two pixels.
   */
  method FillImage(image: TransparentTextImage, glyphs: seq<string>, foreground: Picture, background: Picture)
    requires |glyphs| == image.buffer.Length0
    requires Covers(foreground, image.Size()) && Covers(background, image.Size())
    modifies image.buffer
    ensures forall row, column :: 0 <= row < image.buffer.Length0 && 0 <= column < image.buffer.Length1 ==>
              image.buffer[row, column] ==
                DecodedCell(glyphs[row], column, foreground.At(column, row), background.At(column, row))
  {
    var rows := image.buffer.Length0;
    var columns := image.buffer.Length1;
    var row := 0;
    while row < rows
      invariant 0 <= row <= rows
      invariant forall r, c :: 0 <= r < row && 0 <= c < columns ==>
                  image.buffer[r, c] == DecodedCell(glyphs[r], c, foreground.At(c, r), background.At(c, r))
    {
      var line := glyphs[row];
      var column := 0;
      while column < columns
        invariant 0 <= column <= columns
        invariant forall r, c :: 0 <= r < row && 0 <= c < columns ==>
                    image.buffer[r, c] == DecodedCell(glyphs[r], c, foreground.At(c, r), background.At(c, r))
        invariant forall c :: 0 <= c < column ==>
                    image.buffer[row, c] == DecodedCell(glyphs[row], c, foreground.At(c, row), background.At(c, row))
      {
        var glyph := if column >= |line| then ' ' else line[column];
        var fg := ToRGB(foreground.At(column, row));
        var bg := ToRGB(background.At(column, row));
        var character := if bg.Some? then Cell(glyph, fg, bg) else Cell(glyph, fg, None);
        image.buffer[row, column] := character;
        column := column + 1;
      }
      row := row + 1;
    }
  }

  /**
   * How filling an image of `size` from these pictures fails: at the first
   * cell, a missing foreground or background picture (null) fails with a
   * null pointer, a picture without that pixel with an index error; a
   * later cell can only miss a pixel. An image with no cells reads no
   * pixel at all.
   */
  function FillError(size: Size, foreground: Option<Picture>, background: Option<Picture>): (e: Option<Error>)
    requires foreground.Some? ==> foreground.value.Valid()
    requires background.Some? ==> background.value.Valid()
    ensures e.None? <==> size.columns == 0 || size.rows == 0 ||
                         (foreground.Some? && background.Some? &&
                          Covers(foreground.value, size) && Covers(background.value, size))
    ensures e.Some? ==> e.value == NullPointer || e.value == IndexOutOfBounds
  {
    if size.columns == 0 || size.rows == 0 then None
    else if foreground.None? then Some(NullPointer)
    else if foreground.value.width == 0 || foreground.value.height == 0 then Some(IndexOutOfBounds)
    else if background.None? then Some(NullPointer)
    else if !Covers(foreground.value, size) || !Covers(background.value, size) then Some(IndexOutOfBounds)
    else None
  }

  /**
   * The private `read(glyphs, foreground, background)`: size the image by
   * the glyphs, then fill it. A missing glyph list fails with a null
   * pointer; `blank` is the cell a fresh image holds before it is filled.
   */
  method Read(glyphs: Option<seq<string>>, foreground: Option<Picture>, background: Option<Picture>, blank: Cell)
    returns (r: Result<TransparentTextImage>)
    requires foreground.Some? ==> foreground.value.Valid()
    requires background.Some? ==> background.value.Valid()
    ensures glyphs.None? ==> r == Err(NullPointer)
    ensures glyphs.Some? && GetImageSize(glyphs.value).Err? ==> r == Err(NoSuchElement)
    ensures glyphs.Some? && GetImageSize(glyphs.value).Ok? ==>
              match FillError(GetImageSize(glyphs.value).value, foreground, background)
              case Some(e) => r == Err(e)
              case None => r.Ok?
    ensures r.Ok? ==>
              && glyphs.Some? && fresh(r.value.buffer)
              && r.value.Size() == GetImageSize(glyphs.value).value
              && forall row, column :: 0 <= row < r.value.buffer.Length0 && 0 <= column < r.value.buffer.Length1 ==>
                   r.value.buffer[row, column] ==
                     DecodedCell(glyphs.value[row], column, foreground.value.At(column, row), background.value.At(column, row))
  {
    if glyphs.None? {
      return Err(NullPointer);
    }
    var size := GetImageSize(glyphs.value);
    if size.Err? {
      return Err(size.error);
    }
    var failure := FillError(size.value, foreground, background);
    if failure.Some? {
      return Err(failure.value);
    }
    var image := new TransparentTextImage(size.value, blank);
    if size.value.columns == 0 {
      // no cell: no pixel is read and the image stays as created; the
      // postcondition quantifies over no cell
      return Ok(image);
    }
    FillImage(image, glyphs.value, foreground.value, background.value);
    return Ok(image);
  }

  /**
   * A zip entry: its name and what the glyph reader and the image reader
   * make of its bytes.
   */
  datatype Entry = Entry(name: string, lines: seq<string>, picture: Picture)

  predicate Recognised(name: string) {
    name == GlyphsName || name == ForegroundName || name == BackgroundName
  }

  /** How many entries carry one of the three names. */
  function CountRecognised(entries: seq<Entry>): (n: nat)
    ensures n <= |entries|
  {
    if entries == [] then 0
    else CountRecognised(entries[..|entries| - 1]) + if Recognised(entries[|entries| - 1].name) then 1 else 0
  }

  /** The last entry with that name, the one whose content the reader keeps. */
  function LastNamed(entries: seq<Entry>, name: string): (r: Option<Entry>)
    ensures r.Some? ==> r.value in entries && r.value.name == name
    ensures r.Some? ==> exists i :: 0 <= i < |entries| && entries[i] == r.value &&
                          forall j :: i < j < |entries| ==> entries[j].name != name
    ensures r.None? <==> forall i :: 0 <= i < |entries| ==> entries[i].name != name
  {
    if entries == [] then None
    else if entries[|entries| - 1].name == name then Some(entries[|entries| - 1])
    else LastNamed(entries[..|entries| - 1], name)
  }

  /** What the archive loop keeps: each part may still be null. */
  datatype Parts = Parts(glyphs: Option<seq<string>>, foreground: Option<Picture>, background: Option<Picture>)

  function PartsOf(entries: seq<Entry>): Parts {
    var g := LastNamed(entries, GlyphsName);
    var f := LastNamed(entries, ForegroundName);
    var b := LastNamed(entries, BackgroundName);
    Parts(if g.Some? then Some(g.value.lines) else None,
          if f.Some? then Some(f.value.picture) else None,
          if b.Some? then Some(b.value.picture) else None)
  }

  lemma CountPrefix(entries: seq<Entry>, k: nat)
    requires k < |entries|
    ensures CountRecognised(entries[..k + 1]) ==
              CountRecognised(entries[..k]) + if Recognised(entries[k].name) then 1 else 0
  {
    assert entries[..k + 1][..k] == entries[..k];
  }

  lemma LastNamedPrefix(entries: seq<Entry>, k: nat, name: string)
    requires k < |entries|
    ensures LastNamed(entries[..k + 1], name) ==
              if entries[k].name == name then Some(entries[k]) else LastNamed(entries[..k], name)
  {
    assert entries[..k + 1][..k] == entries[..k];
  }

  /**
   * The entry loop of `read(InputStream)`: entries are taken in order until
   * three carried a recognised name; other names are skipped, and a name
   * seen again overwrites its part and still counts. Running out of
   * entries first fails (`getNextEntry` returns null). `consumed` is how
   * many entries were taken.
   */
  method ReadArchive(entries: seq<Entry>) returns (r: Result<Parts>, consumed: nat)
    ensures r.Ok? <==> CountRecognised(entries) >= 3
    ensures r.Err? ==> r.error == NullPointer
    ensures r.Ok? ==>
              && 0 < consumed <= |entries|
              && CountRecognised(entries[..consumed]) == 3
              && CountRecognised(entries[..consumed - 1]) == 2
              && r.value == PartsOf(entries[..consumed])
  {
    var glyphs: Option<seq<string>> := None;
    var foreground: Option<Picture> := None;
    var background: Option<Picture> := None;
    var loaded := 0;
    var i := 0;
    while loaded != 3
      invariant 0 <= i <= |entries| && loaded == CountRecognised(entries[..i]) <= 3
      invariant i > 0 && loaded == 3 ==> CountRecognised(entries[..i - 1]) == 2
      invariant Parts(glyphs, foreground, background) == PartsOf(entries[..i])
      decreases |entries| - i
    {
      if i == |entries| {
        assert entries[..i] == entries;
        return Err(NullPointer), i;
      }
      var next := entries[i];
      CountPrefix(entries, i);
      LastNamedPrefix(entries, i, GlyphsName);
      LastNamedPrefix(entries, i, ForegroundName);
      LastNamedPrefix(entries, i, BackgroundName);
      if next.name == GlyphsName {
        glyphs := Some(next.lines);
        loaded := loaded + 1;
      } else if next.name == ForegroundName {
        foreground := Some(next.picture);
        loaded := loaded + 1;
      } else if next.name == BackgroundName {
        background := Some(next.picture);
        loaded := loaded + 1;
      }
      i := i + 1;
    }
    if CountRecognised(entries) < 3 {
      CountMonotone(entries, i);
      assert false;
    }
    return Ok(Parts(glyphs, foreground, background)), i;
  }

  lemma {:induction false} CountMonotone(entries: seq<Entry>, k: nat)
    requires k <= |entries|
    ensures CountRecognised(entries[..k]) <= CountRecognised(entries)
    decreases |entries| - k
  {
    if k == |entries| {
      assert entries[..k] == entries;
    } else {
      CountPrefix(entries, k);
      CountMonotone(entries, k + 1);
    }
  }

  /**
   * An archive whose glyph entry comes twice before the pictures stops
   * after the foreground, so the background is never read and stays null.
   */
  lemma DuplicateEntryStopsEarly(g1: Entry, g2: Entry, f: Entry, b: Entry)
    requires g1.name == GlyphsName && g2.name == GlyphsName
    requires f.name == ForegroundName && b.name == BackgroundName
    ensures var entries := [g1, g2, f, b];
            && CountRecognised(entries[..3]) == 3 && CountRecognised(entries[..2]) == 2
            && PartsOf(entries[..3]) == Parts(Some(g2.lines), Some(f.picture), None)
  {
    var entries := [g1, g2, f, b];
    assert entries[..3] == [g1, g2, f] && entries[..2] == [g1, g2];
    assert [g1, g2, f][..2] == [g1, g2] && [g1, g2][..1] == [g1] && [g1][..0] == [];
    assert CountRecognised([g1]) == 1;
    assert CountRecognised([g1, g2]) == 2;
    assert LastNamed([g1, g2, f], GlyphsName) == Some(g2);
    assert LastNamed([g1, g2, f], ForegroundName) == Some(f);
    assert LastNamed([g1], BackgroundName) == None;
    assert LastNamed([g1, g2], BackgroundName) == None;
  }

  /**
   * `read(InputStream)`: the archive's parts, then the private `read`.
   */
  method ReadFromArchive(entries: seq<Entry>, blank: Cell) returns (r: Result<TransparentTextImage>)
    requires forall i :: 0 <= i < |entries| ==> entries[i].picture.Valid()
    ensures CountRecognised(entries) < 3 ==> r == Err(NullPointer)
    ensures r.Ok? ==> fresh(r.value.buffer)
  {
    var parts, consumed := ReadArchive(entries);
    if parts.Err? {
      return Err(parts.error);
    }
    var f := LastNamed(entries[..consumed], ForegroundName);
    var b := LastNamed(entries[..consumed], BackgroundName);
    if f.Some? {
      assert f.value in entries;
    }
    if b.Some? {
      assert b.value in entries;
    }
    r := Read(parts.value.glyphs, parts.value.foreground, parts.value.background, blank);
  }
}
