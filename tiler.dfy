/**
 * `Tiler`: draws a white grid over a picture, one line every `tileWidth`
 * columns and every `tileHeight` rows, and names the result after the
 * input with `_tiled<w>x<h>` before the extension.
 *
 * Paths use '/' as the separator; `File` normalisation is not modelled.
 */
module Tiler {
  import opened Wrappers
  import opened Glyphs
  import opened Strings
  import opened Paths

  /**
   * Where the extension starts in `path`: just after the last '.' of the
   * file name, or at the file name itself when it has no '.'.
   */
  function ExtensionStart(path: string): (i: nat)
    ensures NameStart(path) <= i <= |path|
    ensures forall j :: i <= j < |path| ==> path[j] != '.'
    ensures i > NameStart(path) ==> path[i - 1] == '.'
    ensures i == NameStart(path) ==> forall j :: NameStart(path) <= j < |path| ==> path[j] != '.'
  {
    var start := NameStart(path);
    var name := path[start..];
    var dot := LastIndexOf(name, '.');
    assert forall j :: dot < j < |name| ==> name[j] != '.';
    start + dot + 1
  }

  /** The file name holds a '.'. */
  predicate HasDot(path: string) {
    ExtensionStart(path) > NameStart(path)
  }

  /**
   * `getExtension`: the file name after its last '.', or the whole name
   * when it has none (`substring(-1 + 1)`).
   */
  function GetExtension(path: string): (ext: string)
    ensures forall j :: 0 <= j < |ext| ==> ext[j] != '.'
    ensures !HasDot(path) ==> ext == BaseName(path)
  {
    path[ExtensionStart(path)..]
  }

  /** The path without its trailing ".<ext>", when the file name has a dot. */
  function Stem(path: string): (stem: string)
    ensures NameStart(path) <= |stem| <= |path| && path[..|stem|] == stem
    ensures HasDot(path) ==> stem + "." + GetExtension(path) == path
    ensures !HasDot(path) ==> stem == path
  {
    if HasDot(path) then
      var e := ExtensionStart(path);
      assert path == path[..e - 1] + [path[e - 1]] + path[e..];
      path[..e - 1]
    else path
  }

  /** The file name suffix: `_tiled<w>x<h>.<ext>`. */
  function TiledSuffix(ext: string, tileWidth: int, tileHeight: int): string {
    "_tiled" + DecimalString(tileWidth) + "x" + DecimalString(tileHeight) + "." + ext
  }

  /**
   * `getProcessedImageFileName` as written: `replace("." + ext, "")`
   * removes every occurrence of the dotted extension in the whole path,
   * not only the one that ends it.
   */
  function GetProcessedImageFileName(path: string, tileWidth: int, tileHeight: int): (r: string)
    ensures var suffix := TiledSuffix(GetExtension(path), tileWidth, tileHeight);
            |r| >= |suffix| && r[|r| - |suffix|..] == suffix
  {
    var ext := GetExtension(path);
    var stem := RemoveAll(path, "." + ext);
    var r := stem + TiledSuffix(ext, tileWidth, tileHeight);
    assert r[|stem|..] == TiledSuffix(ext, tileWidth, tileHeight);
    r
  }

  /**
   * The name evidently intended: only the trailing ".<ext>" is dropped.
   * It keeps every directory of the input path and ends in the suffix.
   */
  function TiledFileName(path: string, tileWidth: int, tileHeight: int): (r: string)
    ensures NameStart(path) <= |r| && r[..NameStart(path)] == path[..NameStart(path)]
  {
    var stem := Stem(path);
    var suffix := TiledSuffix(GetExtension(path), tileWidth, tileHeight);
    PrefixKept(path, stem, suffix, NameStart(path));
    stem + suffix
  }

  /** Whatever follows a prefix of `path`, the first `n` characters of that prefix stay. */
  lemma PrefixKept(path: string, stem: string, suffix: string, n: nat)
    requires n <= |stem| <= |path| && path[..|stem|] == stem
    ensures n <= |stem + suffix| && (stem + suffix)[..n] == path[..n]
  {
    assert (stem + suffix)[..n] == stem[..n];
    assert path[..|stem|][..n] == path[..n];
  }

  /**
   * Where the rest of the path holds no ".<ext>", the name as written is
   * the intended one.
   */
  lemma AsWrittenAgreesWhenStemFree(path: string, tileWidth: int, tileHeight: int)
    requires HasDot(path)
    requires Free(Stem(path), "." + GetExtension(path))
    ensures GetProcessedImageFileName(path, tileWidth, tileHeight) == TiledFileName(path, tileWidth, tileHeight)
  {
    var target := "." + GetExtension(path);
    assert target[1..] == GetExtension(path);
    assert Stem(path) + target == path;
    RemoveAllTrailing(Stem(path), target);
  }

  const ExamplePath := "a.png/b.png"

  lemma ExampleNameParts()
    ensures NameStart(ExamplePath) == 6 && ExtensionStart(ExamplePath) == 8
    ensures GetExtension(ExamplePath) == "png" && Stem(ExamplePath) == "a.png/b"
  {
    var path := ExamplePath;
    assert path[5] == '/' && path[7] == '.';
    assert NameStart(path) == 6;
    assert ExtensionStart(path) == 8;
  }

  lemma ExampleTail()
    ensures RemoveAll(".png/b.png", ".png") == "/b"
  {
    assert RemoveAll("/b.png", ".png") == "/b";
    assert ".png/b.png"[..4] == ".png";
    assert ".png/b.png"[4..] == "/b.png";
  }

  lemma ExampleRemoveAll()
    ensures RemoveAll(ExamplePath, ".png") == "a/b"
  {
    ExampleTail();
    assert ExamplePath[1..] == ".png/b.png";
  }

  /**
   * "a.png/b.png" with 8x8 tiles: as written the directory "a.png" loses
   * its ".png" too; the intended name is "a.png/b_tiled8x8.png".
   */
  lemma DirectoryRenamed()
    ensures GetProcessedImageFileName(ExamplePath, 8, 8) == "a/b_tiled8x8.png"
    ensures TiledFileName(ExamplePath, 8, 8) == "a.png/b_tiled8x8.png"
  {
    ExampleAsWritten();
    ExampleIntended();
  }

  lemma ExampleAsWritten()
    ensures GetProcessedImageFileName(ExamplePath, 8, 8) == "a/b_tiled8x8.png"
  {
    ExampleNameParts();
    ExampleRemoveAll();
    ExampleSuffix();
    ProcessedNameOfParts(ExamplePath, "png", "a/b", "_tiled8x8.png", 8, 8);
    ExampleJoined();
  }

  lemma ExampleJoined()
    ensures "a/b" + "_tiled8x8.png" == "a/b_tiled8x8.png"
  {
  }

  /** The name as written, from its extension and the path without any ".<ext>". */
  lemma ProcessedNameOfParts(path: string, ext: string, stem: string, suffix: string, tileWidth: int, tileHeight: int)
    requires GetExtension(path) == ext && RemoveAll(path, "." + ext) == stem
    requires TiledSuffix(ext, tileWidth, tileHeight) == suffix
    ensures GetProcessedImageFileName(path, tileWidth, tileHeight) == stem + suffix
  {
  }

  lemma ExampleIntended()
    ensures TiledFileName(ExamplePath, 8, 8) == "a.png/b_tiled8x8.png"
  {
    ExampleNameParts();
    ExampleSuffix();
    assert TiledFileName(ExamplePath, 8, 8) == "a.png/b" + TiledSuffix("png", 8, 8);
  }

  lemma ExampleSuffix()
    ensures TiledSuffix("png", 8, 8) == "_tiled8x8.png"
  {
    assert DecimalString(8) == "8";
  }

  /** `readTileSize(args[1], args[2])` after `args[0]`: three arguments and two integers. */
  function TileSize(args: seq<string>): (r: Result<(int, int)>)
    ensures |args| < 3 ==> r == Err(IndexOutOfBounds)
    ensures r.Ok? <==> |args| >= 3 && ParseInt(args[1]).Ok? && ParseInt(args[2]).Ok?
    ensures r.Ok? ==> r.value == (ParseInt(args[1]).value, ParseInt(args[2]).value)
  {
    if |args| < 3 then Err(IndexOutOfBounds)
    else match ParseInt(args[1])
      case Err(e) => Err(e)
      case Ok(width) =>
        match ParseInt(args[2])
        case Err(e) => Err(e)
        case Ok(height) => Ok((width, height))
  }

  /**
   * `x % tileSize.getWidth() == 0` on a `double` divisor: a tile size of 0
   * gives NaN, never 0, so it draws no line.
   */
  predicate OnLine(coordinate: int, tile: int) {
    tile != 0 && coordinate % tile == 0
  }

  /** The pixels painted white: off the first row and column, on a grid line. */
  predicate OnGrid(x: int, y: int, tileWidth: int, tileHeight: int) {
    x >= 1 && y >= 1 && (OnLine(x, tileWidth) || OnLine(y, tileHeight))
  }

  /** A coordinate is on a line exactly when it is a multiple of the (positive) tile size. */
  lemma OnLineMultiple(coordinate: nat, tile: int)
    requires tile >= 1
    ensures OnLine(coordinate, tile) <==> exists k :: k * tile == coordinate
  {
    if exists k :: k * tile == coordinate {
      var k :| k * tile == coordinate;
      DivisionExact(k, tile);
    } else {
      assert (coordinate / tile) * tile + coordinate % tile == coordinate;
    }
  }

  lemma {:induction false} MulAtLeast(a: int, t: int)
    requires a >= 1 && t >= 1
    ensures a * t >= t
    decreases a
  {
    if a > 1 {
      MulAtLeast(a - 1, t);
      assert a * t == (a - 1) * t + t;
    }
  }

  lemma DivisionExact(k: int, tile: int)
    requires tile >= 1
    ensures (k * tile) % tile == 0
  {
    var n := k * tile;
    var q := n / tile;
    var m := n % tile;
    assert q * tile + m == n && 0 <= m < tile;
    var d := k - q;
    assert d * tile == k * tile - q * tile;
    assert d * tile == m;
    if d >= 1 {
      MulAtLeast(d, tile);
      assert false;
    } else if d <= -1 {
      assert (-d) * tile == -(d * tile);
      MulAtLeast(-d, tile);
      assert false;
    }
  }

  const White := Rgb(255, 255, 255)

  /**
   * `processImage`: a picture of the same size holding what was drawn from
   * the input (`image`, [y, x]), then every grid pixel set to white.
   */
  method ProcessImage(image: array2<Rgb>, tileWidth: int, tileHeight: int) returns (processed: array2<Rgb>)
    ensures fresh(processed)
    ensures processed.Length0 == image.Length0 && processed.Length1 == image.Length1
    ensures forall y, x :: 0 <= y < processed.Length0 && 0 <= x < processed.Length1 ==>
              processed[y, x] == if OnGrid(x, y, tileWidth, tileHeight) then White else image[y, x]
  {
    var height := image.Length0;
    var width := image.Length1;
    processed := new Rgb[height, width]((y, x) reads image => if 0 <= y < height && 0 <= x < width then image[y, x] else White);
    var x := 1;
    while x < width
      invariant 1 <= x <= width || width == 0
      invariant forall y', x' :: 0 <= y' < height && 0 <= x' < width ==>
                  processed[y', x'] == if x' < x && OnGrid(x', y', tileWidth, tileHeight) then White else image[y', x']
    {
      var y := 1;
      while y < height
        invariant 1 <= y <= height || height == 0
        invariant forall y', x' :: 0 <= y' < height && 0 <= x' < width ==>
                    processed[y', x'] ==
                      if (x' < x || (x' == x && y' < y)) && OnGrid(x', y', tileWidth, tileHeight) then White else image[y', x']
      {
        if OnLine(x, tileWidth) || OnLine(y, tileHeight) {
          processed[y, x] := White;
        }
        y := y + 1;
      }
      x := x + 1;
    }
  }
}
