/**
 * The transparent compositor: `TransparentTextImage.drawImageWithTransparency`
 * copies a clipped rectangle of the image's own cell buffer onto a
 * destination grid, giving each transparent source cell the background of
 * the destination cell it overwrites.
 *
 * Grids are `array2<Cell>` indexed [row, column]; the destination
 * `TextGraphics` is one such grid, `graphics.Length0` rows by
 * `graphics.Length1` columns.
 */
module Compositor {
  import opened Wrappers
  import opened Glyphs

  function Max(a: int, b: int): int { if a < b then b else a }
  function Min(a: int, b: int): int { if a < b then a else b }

  /** A drawing request: where to draw, which part of the image, how much of it. */
  datatype Request = Request(topLeft: Position, sourceTopLeft: Position, columns: int, rows: int)

  /**
   * `TerminalSize.withRelativeColumns` and `withRelativeRows` refuse a size
   * that would become negative; the fold of a negative source offset only
   * succeeds when the shrunk size stays non-negative.
   */
  predicate Foldable(sourceTopLeft: Position, sourceSize: Size) {
    && sourceSize.columns + Min(sourceTopLeft.column, 0) >= 0
    && sourceSize.rows + Min(sourceTopLeft.row, 0) >= 0
  }

  /**
   * The fold of a negative source offset (TransparentTextImage.java:47-56):
   * the offset is clamped to 0, while the translation from image to
   * destination and the far edge of the requested rectangle stay where they were.
   */
  function Fold(topLeft: Position, sourceTopLeft: Position, sourceSize: Size): (q: Request)
    ensures q.sourceTopLeft.column == Max(sourceTopLeft.column, 0)
    ensures q.sourceTopLeft.row == Max(sourceTopLeft.row, 0)
    ensures q.topLeft.column - q.sourceTopLeft.column == topLeft.column - sourceTopLeft.column
    ensures q.topLeft.row - q.sourceTopLeft.row == topLeft.row - sourceTopLeft.row
    ensures q.sourceTopLeft.column + q.columns == sourceTopLeft.column + sourceSize.columns
    ensures q.sourceTopLeft.row + q.rows == sourceTopLeft.row + sourceSize.rows
    ensures Foldable(sourceTopLeft, sourceSize) ==> q.columns >= 0 && q.rows >= 0
  {
    var afterColumns :=
      if sourceTopLeft.column < 0 then
        Request(Position(topLeft.column - sourceTopLeft.column, topLeft.row),
                Position(0, sourceTopLeft.row),
                sourceSize.columns + sourceTopLeft.column, sourceSize.rows)
      else
        Request(topLeft, sourceTopLeft, sourceSize.columns, sourceSize.rows);
    if afterColumns.sourceTopLeft.row < 0 then
      Request(Position(afterColumns.topLeft.column, afterColumns.topLeft.row - afterColumns.sourceTopLeft.row),
              Position(afterColumns.sourceTopLeft.column, 0),
              afterColumns.columns, afterColumns.rows + afterColumns.sourceTopLeft.row)
    else
      afterColumns
  }

  /**
   * The image rectangle [fromRow, untilRow) x [fromColumn, untilColumn) that
   * is drawn, and the translation (diffRow, diffColumn) that takes an image
   * cell to its destination cell.
   */
  datatype Rect = Rect(fromRow: int, untilRow: int, fromColumn: int, untilColumn: int,
                       diffRow: int, diffColumn: int)
  {
    predicate Empty() { fromRow >= untilRow || fromColumn >= untilColumn }

    /** Image cell (row, column) is drawn. */
    predicate Contains(row: int, column: int) {
      fromRow <= row < untilRow && fromColumn <= column < untilColumn
    }

    /** Destination cell (row, column) receives an image cell. */
    predicate Covers(row: int, column: int) {
      Contains(row - diffRow, column - diffColumn)
    }
  }

  /**
   * The clipping of TransparentTextImage.java:47-74: fold, crop to the
   * image, then crop so that every translated cell lands on the destination.
   */
  function ClipRect(image: Size, target: Size, topLeft: Position, sourceTopLeft: Position, sourceSize: Size): (r: Rect)
    requires Foldable(sourceTopLeft, sourceSize)
    ensures r.diffRow == topLeft.row - sourceTopLeft.row
    ensures r.diffColumn == topLeft.column - sourceTopLeft.column
    // every image cell read is inside the image
    ensures 0 <= r.fromRow && r.untilRow <= image.rows
    ensures 0 <= r.fromColumn && r.untilColumn <= image.columns
    // every destination cell written is inside the destination
    ensures 0 <= r.fromRow + r.diffRow && r.untilRow + r.diffRow <= target.rows
    ensures 0 <= r.fromColumn + r.diffColumn && r.untilColumn + r.diffColumn <= target.columns
  {
    var q := Fold(topLeft, sourceTopLeft, sourceSize);
    var fromRow := Max(q.sourceTopLeft.row, 0);
    var untilRow := Min(q.sourceTopLeft.row + q.rows, image.rows);
    var fromColumn := Max(q.sourceTopLeft.column, 0);
    var untilColumn := Min(q.sourceTopLeft.column + q.columns, image.columns);
    var diffRow := q.topLeft.row - q.sourceTopLeft.row;
    var diffColumn := q.topLeft.column - q.sourceTopLeft.column;
    Rect(Max(fromRow, -diffRow), Min(untilRow, target.rows - diffRow),
         Max(fromColumn, -diffColumn), Min(untilColumn, target.columns - diffColumn),
         diffRow, diffColumn)
  }

  /**
   * An image cell is drawn exactly when it lies in the image, in the
   * requested sub-rectangle (negative offsets included) and its translated
   * position lies on the destination.
   */
  ghost predicate Visible(image: Size, target: Size, topLeft: Position, sourceTopLeft: Position, sourceSize: Size,
                          row: int, column: int)
  {
    && 0 <= row < image.rows && 0 <= column < image.columns
    && sourceTopLeft.row <= row < sourceTopLeft.row + sourceSize.rows
    && sourceTopLeft.column <= column < sourceTopLeft.column + sourceSize.columns
    && 0 <= row + topLeft.row - sourceTopLeft.row < target.rows
    && 0 <= column + topLeft.column - sourceTopLeft.column < target.columns
  }

  lemma ClipRectExact(image: Size, target: Size, topLeft: Position, sourceTopLeft: Position, sourceSize: Size,
                      row: int, column: int)
    requires Foldable(sourceTopLeft, sourceSize)
    ensures ClipRect(image, target, topLeft, sourceTopLeft, sourceSize).Contains(row, column)
        <==> Visible(image, target, topLeft, sourceTopLeft, sourceSize, row, column)
  {
  }

  /**
   * A negative source column is the same request as a source column of 0,
   * drawn that much further right and that much narrower.
   */
  lemma NegativeColumnShift(image: Size, target: Size, topLeft: Position, sourceTopLeft: Position, sourceSize: Size)
    requires sourceTopLeft.column < 0 && Foldable(sourceTopLeft, sourceSize)
    ensures var shifted := Position(topLeft.column - sourceTopLeft.column, topLeft.row);
            var cropped := Size(sourceSize.columns + sourceTopLeft.column, sourceSize.rows);
            Foldable(Position(0, sourceTopLeft.row), cropped)
            && ClipRect(image, target, topLeft, sourceTopLeft, sourceSize)
               == ClipRect(image, target, shifted, Position(0, sourceTopLeft.row), cropped)
  {
  }

  /** The same for a negative source row. */
  lemma NegativeRowShift(image: Size, target: Size, topLeft: Position, sourceTopLeft: Position, sourceSize: Size)
    requires sourceTopLeft.row < 0 && Foldable(sourceTopLeft, sourceSize)
    ensures var shifted := Position(topLeft.column, topLeft.row - sourceTopLeft.row);
            var cropped := Size(sourceSize.columns, sourceSize.rows + sourceTopLeft.row);
            Foldable(Position(sourceTopLeft.column, 0), cropped)
            && ClipRect(image, target, topLeft, sourceTopLeft, sourceSize)
               == ClipRect(image, target, shifted, Position(sourceTopLeft.column, 0), cropped)
  {
  }

  /**
   * The cell written for image cell `source` over destination cell `under`:
   * glyph and foreground from the image; background from the image unless
   * the image cell is transparent, then from the destination.
   */
  function Composed(source: Cell, under: Cell): (c: Cell)
    ensures c.glyph == source.glyph && c.fg == source.fg
    ensures !source.Transparent() ==> c == source
    ensures source.Transparent() ==> c.bg == under.bg
  {
    if source.Transparent() then Cell(source.glyph, source.fg, under.bg) else source
  }

  /** The whole image at `topLeft` covers exactly the destination cells under the image. */
  lemma WholeImageCovers(image: Size, target: Size, topLeft: Position, row: int, column: int)
    ensures ClipRect(image, target, topLeft, TopLeftCorner, image).Covers(row, column)
        <==> && 0 <= row < target.rows && 0 <= column < target.columns
             && 0 <= row - topLeft.row < image.rows && 0 <= column - topLeft.column < image.columns
  {
    ClipRectExact(image, target, topLeft, TopLeftCorner, image, row - topLeft.row, column - topLeft.column);
  }

  class TransparentTextImage {
    /** The image's own cells, as `BasicTextImage` keeps them. */
    const buffer: array2<Cell>

    function Size(): Size {
      Glyphs.Size(buffer.Length1, buffer.Length0)
    }

    /** A fresh image of the given size, every cell `blank`. */
    constructor (size: Glyphs.Size, blank: Cell)
      ensures fresh(buffer) && Size() == size
      ensures forall row, column :: 0 <= row < size.rows && 0 <= column < size.columns ==>
                buffer[row, column] == blank
    {
      buffer := new Cell[size.rows, size.columns]((row, column) => blank);
    }

    /**
     * drawImageWithTransparency(textGraphics, topLeft, sourceImageTopLeft,
     * sourceImageSize): each destination cell covered by the clipped
     * rectangle receives its image cell composed over the cell it had
     * before the call; every other destination cell is unchanged.
     */
    method DrawImageWithTransparency(graphics: array2<Cell>, topLeft: Position,
                                     sourceImageTopLeft: Position, sourceImageSize: Glyphs.Size)
      requires graphics != buffer
      requires Foldable(sourceImageTopLeft, sourceImageSize)
      modifies graphics
      ensures var rect := ClipRect(Size(), Glyphs.Size(graphics.Length1, graphics.Length0),
                                   topLeft, sourceImageTopLeft, sourceImageSize);
              forall row, column :: 0 <= row < graphics.Length0 && 0 <= column < graphics.Length1 ==>
                graphics[row, column] ==
                  if rect.Covers(row, column)
                  then Composed(buffer[row - rect.diffRow, column - rect.diffColumn], old(graphics[row, column]))
                  else old(graphics[row, column])
      ensures ClipRect(Size(), Glyphs.Size(graphics.Length1, graphics.Length0),
                       topLeft, sourceImageTopLeft, sourceImageSize).Empty()
              ==> forall row, column :: 0 <= row < graphics.Length0 && 0 <= column < graphics.Length1 ==>
                    graphics[row, column] == old(graphics[row, column])
    {
      ghost var rect := ClipRect(Size(), Glyphs.Size(graphics.Length1, graphics.Length0),
                                 topLeft, sourceImageTopLeft, sourceImageSize);
      var topLeft, sourceImageTopLeft, columns, rows :=
        topLeft, sourceImageTopLeft, sourceImageSize.columns as int, sourceImageSize.rows as int;
      // If the source image position is negative, offset the whole image
      if sourceImageTopLeft.column < 0 {
        topLeft := Position(topLeft.column - sourceImageTopLeft.column, topLeft.row);
        columns := columns + sourceImageTopLeft.column;
        sourceImageTopLeft := Position(0, sourceImageTopLeft.row);
      }
      if sourceImageTopLeft.row < 0 {
        topLeft := Position(topLeft.column, topLeft.row - sourceImageTopLeft.row);
        rows := rows + sourceImageTopLeft.row;
        sourceImageTopLeft := Position(sourceImageTopLeft.column, 0);
      }
      // crop to the image
      var fromRow := Max(sourceImageTopLeft.row, 0);
      var untilRow := Min(sourceImageTopLeft.row + rows, buffer.Length0);
      var fromColumn := Max(sourceImageTopLeft.column, 0);
      var untilColumn := Min(sourceImageTopLeft.column + columns, buffer.Length1);
      var diffRow := topLeft.row - sourceImageTopLeft.row;
      var diffColumn := topLeft.column - sourceImageTopLeft.column;
      // crop to the destination
      fromRow := Max(fromRow, -diffRow);
      fromColumn := Max(fromColumn, -diffColumn);
      untilRow := Min(untilRow, graphics.Length0 - diffRow);
      untilColumn := Min(untilColumn, graphics.Length1 - diffColumn);
      assert rect == Rect(fromRow, untilRow, fromColumn, untilColumn, diffRow, diffColumn);

      if fromRow >= untilRow || fromColumn >= untilColumn {
        return;
      }
      var row := fromRow;
      while row < untilRow
        invariant fromRow <= row <= untilRow
        invariant forall r, c :: 0 <= r < graphics.Length0 && 0 <= c < graphics.Length1 ==>
                    graphics[r, c] ==
                      if rect.Covers(r, c) && r - diffRow < row
                      then Composed(buffer[r - diffRow, c - diffColumn], old(graphics[r, c]))
                      else old(graphics[r, c])
      {
        DrawRow(graphics, Rect(fromRow, untilRow, fromColumn, untilColumn, diffRow, diffColumn), row);
        row := row + 1;
      }
    }

    /**
     * The inner loop of drawImageWithTransparency: image row `row` of the
     * clipped rectangle, cell by cell, onto its destination row.
     */
    method DrawRow(graphics: array2<Cell>, rect: Rect, row: int)
      requires graphics != buffer
      requires 0 <= rect.fromColumn && rect.untilColumn <= buffer.Length1
      requires 0 <= rect.fromColumn + rect.diffColumn && rect.untilColumn + rect.diffColumn <= graphics.Length1
      requires rect.fromRow <= row < rect.untilRow && 0 <= row < buffer.Length0
      requires 0 <= row + rect.diffRow < graphics.Length0
      modifies graphics
      ensures forall r, c :: 0 <= r < graphics.Length0 && 0 <= c < graphics.Length1 ==>
                graphics[r, c] ==
                  if rect.Covers(r, c) && r - rect.diffRow == row
                  then Composed(buffer[r - rect.diffRow, c - rect.diffColumn], old(graphics[r, c]))
                  else old(graphics[r, c])
    {
      var diffRow, diffColumn := rect.diffRow, rect.diffColumn;
      var column := rect.fromColumn;
      while column < rect.untilColumn
        invariant rect.fromColumn <= column
        invariant rect.fromColumn < rect.untilColumn ==> column <= rect.untilColumn
        invariant forall r, c :: 0 <= r < graphics.Length0 && 0 <= c < graphics.Length1 ==>
                    graphics[r, c] ==
                      if rect.Covers(r, c) && r - diffRow == row && c - diffColumn < column
                      then Composed(buffer[r - diffRow, c - diffColumn], old(graphics[r, c]))
                      else old(graphics[r, c])
      {
        var character := buffer[row, column];
        if character.Transparent() {
          var backgroundColor := graphics[row + diffRow, column + diffColumn].bg;
          character := Cell(character.glyph, character.fg, backgroundColor);
        }
        graphics[row + diffRow, column + diffColumn] := character;
        column := column + 1;
      }
    }

    /**
     * drawImageWithTransparency(textGraphics, topLeft): the whole image,
     * from its top-left corner; it is the full call with source offset
     * (0, 0) and the image's own size.
     */
    method DrawImage(graphics: array2<Cell>, topLeft: Position)
      requires graphics != buffer
      modifies graphics
      ensures forall row, column :: 0 <= row < graphics.Length0 && 0 <= column < graphics.Length1 ==>
                graphics[row, column] ==
                  if 0 <= row - topLeft.row < buffer.Length0 && 0 <= column - topLeft.column < buffer.Length1
                  then Composed(buffer[row - topLeft.row, column - topLeft.column], old(graphics[row, column]))
                  else old(graphics[row, column])
    {
      DrawImageWithTransparency(graphics, topLeft, TopLeftCorner, Size());
      forall row, column | 0 <= row < graphics.Length0 && 0 <= column < graphics.Length1 {
        WholeImageCovers(Size(), Glyphs.Size(graphics.Length1, graphics.Length0), topLeft, row, column);
      }
    }
  }
}
