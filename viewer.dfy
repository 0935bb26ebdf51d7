/**
 * `TextImageViewer`: given an existing text image it shows it; given a
 * path that does not exist and a size, it first creates a blank text
 * image of that size there. Whether the path exists is a parameter; the
 * terminal, the file watcher and the writing of files are not modelled.
 */
module Viewer {
  import opened Wrappers
  import opened Glyphs
  import opened Strings
  import TextImageIO

  datatype Command = Load(path: string) | Create(path: string, columns: int, rows: int)

  const NoFile := "no file"
  const NoSize := "no columns, nor rows"

  /**
   * `main`'s choice: no argument at all fails; an existing path is
   * loaded whatever follows it; otherwise the second argument gives the
   * columns and, unless a third gives the rows, the rows as well. A
   * dimension that is missing or -1 fails, one that is not a number fails
   * in `parseInt`.
   */
  method ParseArguments(args: seq<string>, fileExists: bool) returns (r: Result<Command>)
    ensures |args| < 1 ==> r == Err(IllegalArgument(NoFile))
    ensures |args| >= 1 && fileExists ==> r == Ok(Load(args[0]))
    ensures |args| == 1 && !fileExists ==> r == Err(IllegalArgument(NoSize))
    ensures |args| >= 2 && !fileExists && ParseInt(args[1]).Err? ==> r == Err(NumberFormat)
    ensures |args| >= 3 && !fileExists && ParseInt(args[1]).Ok? && ParseInt(args[2]).Err? ==> r == Err(NumberFormat)
    ensures |args| >= 2 && !fileExists && ParseInt(args[1]).Ok? && (|args| == 2 || ParseInt(args[2]).Ok?) ==>
              var columns := ParseInt(args[1]).value;
              var rows := if |args| == 2 then columns else ParseInt(args[2]).value;
              r == if columns == -1 || rows == -1 then Err(IllegalArgument(NoSize)) else Ok(Create(args[0], columns, rows))
    ensures r.Ok? && r.value.Create? ==> r.value.columns != -1 && r.value.rows != -1
  {
    if |args| < 1 {
      return Err(IllegalArgument(NoFile));
    }
    if fileExists {
      return Ok(Load(args[0]));
    }
    var columns := -1;
    var rows := -1;
    if |args| > 1 {
      var parsed := ParseInt(args[1]);
      if parsed.Err? {
        return Err(parsed.error);
      }
      columns := parsed.value;
      rows := columns;
    }
    if |args| > 2 {
      var parsed := ParseInt(args[2]);
      if parsed.Err? {
        return Err(parsed.error);
      }
      rows := parsed.value;
    }
    if columns == -1 || rows == -1 {
      return Err(IllegalArgument(NoSize));
    }
    return Ok(Create(args[0], columns, rows));
  }

  /** `n` copies of `line`. */
  function Repeat(line: string, n: nat): (lines: seq<string>)
    ensures |lines| == n && forall i :: 0 <= i < n ==> lines[i] == line
  {
    if n == 0 then [] else Repeat(line, n - 1) + [line]
  }

  lemma {:induction false} JoinLinesSnoc(lines: seq<string>, line: string, separator: string)
    requires lines != []
    ensures JoinLines(lines + [line], separator) == JoinLines(lines, separator) + separator + line
    decreases |lines|
  {
    if |lines| == 1 {
      assert (lines + [line])[1..] == [line];
    } else {
      assert (lines + [line])[1..] == lines[1..] + [line];
      JoinLinesSnoc(lines[1..], line, separator);
    }
  }

  /**
   * The glyph text `createImage` writes: one line of `columns` spaces,
   * written `rows` times with a line separator before every line but the
   * first. A negative count writes nothing for that loop.
   */
  method GlyphText(columns: int, rows: int, separator: string) returns (text: string)
    ensures text == JoinLines(Repeat(Spaces(if columns < 0 then 0 else columns), if rows < 0 then 0 else rows), separator)
  {
    var line := "";
    var column := 0;
    while column < columns
      invariant 0 <= column <= if columns < 0 then 0 else columns
      invariant line == Spaces(column)
    {
      line := line + " ";
      column := column + 1;
    }
    assert line == Spaces(if columns < 0 then 0 else columns);
    text := "";
    var row := 0;
    while row < rows
      invariant 0 <= row <= if rows < 0 then 0 else rows
      invariant text == JoinLines(Repeat(line, row), separator)
    {
      if row != 0 {
        text := text + separator;
      }
      if row != 0 {
        JoinLinesSnoc(Repeat(line, row), line, separator);
      }
      assert Repeat(line, row + 1) == Repeat(line, row) + [line];
      text := text + line;
      row := row + 1;
    }
  }

  /**
   * The glyph text of a blank image with at least one column and one row,
   * read back as `readGlyphs` reads it, gives `rows` lines of `columns`
   * spaces, and the decoder sizes the image to exactly those dimensions.
   */
  lemma BlankImageReadsBack(columns: nat, rows: nat, separator: string)
    requires columns > 0 && rows > 0 && LineSeparator(separator)
    ensures ReadLines(JoinLines(Repeat(Spaces(columns), rows), separator)) == Repeat(Spaces(columns), rows)
    ensures TextImageIO.GetImageSize(Repeat(Spaces(columns), rows)) == Ok(Size(columns, rows))
  {
    var lines := Repeat(Spaces(columns), rows);
    assert forall k :: 0 <= k < |lines| ==> lines[k] != [] by {
      forall k | 0 <= k < |lines| ensures lines[k] != [] {
        assert |lines[k]| == columns;
      }
    }
    ReadJoinedLines(lines, separator);
    var size := TextImageIO.GetImageSize(lines);
    var i :| 0 <= i < |lines| && |lines[i]| == size.value.columns;
  }

  /**
   * The pictures `createImage` writes are `columns` by `rows`; AWT refuses
   * an empty or negative picture, after the glyph text was written.
   */
  function PictureSize(columns: int, rows: int): (r: Result<Size>)
    ensures r.Ok? <==> columns > 0 && rows > 0
    ensures r.Ok? ==> r.value.columns == columns && r.value.rows == rows
  {
    if columns <= 0 || rows <= 0 then
      Err(IllegalArgument("Width (" + DecimalString(columns) + ") and height (" + DecimalString(rows) + ") cannot be <= 0"))
    else Ok(Size(columns, rows))
  }
}
