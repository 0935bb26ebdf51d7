# lanterna-game, modelled in Dafny

lanterna-game is a small kit for terminal games built on lanterna. This project models its image and tool logic and proves properties of the model:

- **The transparent compositor.** `TransparentTextImage.drawImageWithTransparency` clips a requested rectangle of an image's cell grid to the image and to the destination. It then copies each cell onto the destination grid in place. A transparent cell keeps its glyph and foreground and takes the background that the destination cell already had.
- **The animation state machine.** `TextAnimation` holds a current frame, an accumulated time and a running flag, changed by `start`, `pause`, `resume`, `stop` and `update`. `update` shows the first frame whose absolute time threshold exceeds the accumulated time. Past the last threshold, a FORWARD animation pauses and a LOOP animation restarts.
- **Sprite states.** `TextSprite` is a fixed list of named states, each an image or an animation, plus a pointer to the current one. `updateState` moves the pointer to the first state with the given name. `update` and `render` act on the current state. The state definitions of a sprite file select an image or an animation for each state.
- **Text-image decoding**, in two decoders. The newer one is in the `image` package and the older one is `game/TextImageIO`.
  - The glyph lines give the size: the longest line by the number of lines.
  - Short lines are padded with spaces.
  - Two pictures give each cell its foreground and background. In the newer decoder, alpha 0 makes a cell transparent.
  - The newer decoder reads an archive entry by entry until three recognised entries have been counted. The older one closes the zip stream when it reads its first recognised entry, so its archive reader never succeeds (see Findings).
- **Key bindings.** `ActionBinding` is a mutable map from key strokes to actions. Binding a key overwrites its earlier action, and resolving returns an optional action. An action constant is named by a value that splits at its last '.'.
- **The tools.**
  - `Tiler`: its output file name, its extension rule, its argument rule and the grid it paints over a picture.
  - `TextImagePacker`: which directories it recognises, which it packs while walking a tree, the archive's name and its entry order.
  - `TextImageViewer`: its argument rule and the blank glyph text it writes for a new image.

Modules:

- `Wrappers`: `Option`, `Result` and the `Error` kinds standing for the exceptions.
- `Glyphs`: cells, colours, positions, sizes and decoded ARGB pictures.
- `Strings`: the `String`, `Integer` and `BufferedReader` behaviour the code relies on.
- `Paths`: the `java.io.File` name and parent rules.
- `Compositor`, `Animation`, `Sprite`, `TextImageIO` and `LegacyTextImageIO`: the image package and the older decoder.
- `ActionBinding`, `Tiler`, `Packer` and `Viewer`: the key bindings and the three tools.

How state is modelled:

- An object whose fields change is a class: `TransparentTextImage`, `TextAnimation`, `TextSprite` and `ActionBinding`.
- Each class method is specified against a pure function of the old state. For example, `TextAnimation.Update` ends in `Step(...)` of the old playback state.
- Cell grids and pixel buffers are two-dimensional arrays updated in place.
- The foreign decoders (Gson, zip streams, `ImageIO`, `BufferedReader`) are replaced by what they produce: glyph lines, decoded pictures and the archive's entries in order.

## Model

Source paths are relative to the repository root.

| member | source | states |
|---|---|---|
| Strings.LastIndexOf | src/main/java/com/googlecode/lanterna/game/tools/Tiler.java:89 | `lastIndexOf` returns -1 or an index holding the character, and no later index holds it |
| Strings.LastIndexOfAbsent | src/main/java/com/googlecode/lanterna/game/event/ActionBinding.java:64 | `lastIndexOf` returns -1 exactly when the character does not occur |
| Strings.RemoveAllFree | src/main/java/com/googlecode/lanterna/game/tools/Tiler.java:82 | `replace(target, "")` leaves a string with no occurrence of the target unchanged |
| Strings.RemoveAllTrailing | src/main/java/com/googlecode/lanterna/game/tools/Tiler.java:82 | removing every ".ext" from `stem + ".ext"` gives back `stem` when `stem` holds no ".ext" |
| Strings.ParseInt | src/main/java/com/googlecode/lanterna/game/tools/Tiler.java:76 | `Integer.valueOf` / `parseInt` succeeds exactly when the text is an optional '+' or '-' followed by at least one digit and the signed value fits in 32 bits. The result is that signed value. Every failure is a `NumberFormatException` |
| Strings.ParsePlusLeadingZero | src/main/java/com/googlecode/lanterna/game/tools/Tiler.java:76 | "+07" parses to 7: a leading '+' and leading zeros are accepted |
| Strings.ParseMinusLeadingZero | src/main/java/com/googlecode/lanterna/game/tools/TextImageViewer.java:55 | "-01" parses to -1 |
| Strings.ParseRefused | src/main/java/com/googlecode/lanterna/game/tools/TextImageViewer.java:59 | a lone sign and a trailing letter are both `NumberFormatException` |
| Strings.NatDigitsValue | src/main/java/com/googlecode/lanterna/game/tools/Tiler.java:82-83 | the decimal digits that `%d` writes for a natural number read back as that number |
| Strings.ParseDecimal | src/main/java/com/googlecode/lanterna/game/tools/Tiler.java:82-83 | any 32-bit integer formatted with `%d` parses back to itself |
| Strings.ReadJoinedLines | src/main/java/com/googlecode/lanterna/game/tools/TextImageViewer.java:110-115 | lines written with a line separator between them read back as the same lines, if they are non-empty and hold no line terminator |
| Paths.NameStart | src/main/java/com/googlecode/lanterna/game/tools/Tiler.java:88 | the file name starts right after the last '/' and holds no '/' |
| Paths.BaseName | src/main/java/com/googlecode/lanterna/game/tools/TextImagePacker.java:45 | `getName()` holds no '/' |
| Paths.Parent | src/main/java/com/googlecode/lanterna/game/tools/TextImagePacker.java:44 | `getParent()` is null exactly when the path has no '/' or is the root "/". Otherwise it is strictly shorter than the path |
| Paths.ChildOfParent | src/main/java/com/googlecode/lanterna/game/tools/TextImagePacker.java:44-45 | `new File(f.getParent(), c)` is the directory part of `f`, including its trailing '/', followed by `c`. For the root, whose parent is null, it is `c` alone |
| Compositor.Fold | src/main/java/com/googlecode/lanterna/game/image/TransparentTextImage.java:46-56 | a negative source offset is clamped to 0. The translation from image to destination and the far edge of the request are kept. The size stays non-negative |
| Compositor.ClipRect | src/main/java/com/googlecode/lanterna/game/image/TransparentTextImage.java:58-74 | every image cell read lies inside the image. Every destination cell written lies inside the destination. The translation is `topLeft - sourceImageTopLeft` |
| Compositor.ClipRectExact | src/main/java/com/googlecode/lanterna/game/image/TransparentTextImage.java:46-78 | an image cell is drawn if and only if it is in the image, in the requested rectangle (negative offsets included) and lands on the destination |
| Compositor.NegativeColumnShift | src/main/java/com/googlecode/lanterna/game/image/TransparentTextImage.java:47-51 | a negative source column is the same request as column 0, drawn further right and narrower by that amount |
| Compositor.NegativeRowShift | src/main/java/com/googlecode/lanterna/game/image/TransparentTextImage.java:52-56 | a negative source row is the same request as row 0, drawn lower and shorter by that amount |
| Compositor.Composed | src/main/java/com/googlecode/lanterna/game/image/TransparentTextImage.java:81-86 | an opaque cell is copied verbatim. A transparent cell keeps its glyph and foreground and takes the destination's background |
| Compositor.WholeImageCovers | src/main/java/com/googlecode/lanterna/game/image/TransparentTextImage.java:37-39 | the whole image at `topLeft` covers exactly the destination cells under the image |
| Compositor.TransparentTextImage.constructor | src/main/java/com/googlecode/lanterna/game/image/TransparentTextImage.java:33-35 | a fresh cell buffer of the given size, every cell blank |
| Compositor.TransparentTextImage.DrawImageWithTransparency | src/main/java/com/googlecode/lanterna/game/image/TransparentTextImage.java:41-89 | each destination cell covered by the clipped rectangle holds its image cell composed over the cell it held before. Every other cell is unchanged, all of them when the rectangle is empty. The image's own buffer is not modified |
| Compositor.TransparentTextImage.DrawRow | src/main/java/com/googlecode/lanterna/game/image/TransparentTextImage.java:80-87 | the inner loop: each destination cell under one image row of the clipped rectangle holds its image cell composed over the cell it held before. Every other cell is unchanged |
| Compositor.TransparentTextImage.DrawImage | src/main/java/com/googlecode/lanterna/game/image/TransparentTextImage.java:37-39 | the two-argument overload draws the whole image at `topLeft`, which is the full call with offset (0, 0) and the image's size |
| Animation.TypeFromString | src/main/java/com/googlecode/lanterna/game/image/TextAnimation.java:129-135 | "LOOP" gives LOOP and every other string gives FORWARD |
| Animation.FirstAfter | src/main/java/com/googlecode/lanterna/game/image/TextAnimation.java:102-104 | the first frame whose threshold strictly exceeds the time, or none exactly when no threshold does |
| Animation.StepKeepsFrame | src/main/java/com/googlecode/lanterna/game/image/TextAnimation.java:100-119 | `update` keeps the current frame an element of the frame list |
| Animation.StepIgnoresRunning | src/main/java/com/googlecode/lanterna/game/image/TextAnimation.java:100-119 | `running` is never consulted: a paused and a running animation reach the same frame and time |
| Animation.StepShowsFirstDue | src/main/java/com/googlecode/lanterna/game/image/TextAnimation.java:101-106 | the time grows by `elapsed`. The first frame with a larger threshold is shown and `running` is kept |
| Animation.ForwardPastEnd | src/main/java/com/googlecode/lanterna/game/image/TextAnimation.java:108-111 | FORWARD past every threshold pauses, keeps the previous frame and keeps the accumulated time |
| Animation.LoopPastEnd | src/main/java/com/googlecode/lanterna/game/image/TextAnimation.java:112-114 | LOOP past every threshold restarts at frame 0 and time 0 and drops the overshoot |
| Animation.ForwardStaysFrozen | src/main/java/com/googlecode/lanterna/game/image/TextAnimation.java:100-111 | once FORWARD has passed every threshold, non-negative updates never change the frame again and it stays paused |
| Animation.ForwardExample | src/main/java/com/googlecode/lanterna/game/image/TextAnimation.java:100-111 | frames at 0.1 and 0.3: `update(0.1)` shows frame 1, because 0.1 does not exceed 0.1. Then `update(0.25)` pauses on frame 1 at time 0.35 |
| Animation.LoopExample | src/main/java/com/googlecode/lanterna/game/image/TextAnimation.java:112-114 | the same frames played LOOP restart once 0.3 is passed |
| Animation.ForwardOvershootKeepsFirstFrame | src/main/java/com/googlecode/lanterna/game/image/TextAnimation.java:105-111 | one update past every threshold, right after `start`, leaves FORWARD on frame 0, not on the last frame |
| Animation.TextAnimation.CurrentFrame | src/main/java/com/googlecode/lanterna/game/image/TextAnimation.java:94 | the current frame is always an element of `frames` |
| Animation.TextAnimation.constructor | src/main/java/com/googlecode/lanterna/game/image/TextAnimation.java:44-48 | keeps the frames and type. Then frame 0, time 0, not running. Needs a non-empty frame list |
| Animation.TextAnimation.Start | src/main/java/com/googlecode/lanterna/game/image/TextAnimation.java:80-83 | frame 0, time 0, running |
| Animation.TextAnimation.Pause | src/main/java/com/googlecode/lanterna/game/image/TextAnimation.java:85-87 | only `running` changes, to false |
| Animation.TextAnimation.Resume | src/main/java/com/googlecode/lanterna/game/image/TextAnimation.java:89-91 | only `running` changes, to true |
| Animation.TextAnimation.Stop | src/main/java/com/googlecode/lanterna/game/image/TextAnimation.java:93-97 | frame 0, time 0, not running |
| Animation.TextAnimation.Update | src/main/java/com/googlecode/lanterna/game/image/TextAnimation.java:100-119 | the new playback state is `Step` of the old one, and the lemmas above characterise `Step` |
| Animation.FromDefinition | src/main/java/com/googlecode/lanterna/game/image/TextAnimation.java:73-74 | the type string goes through `fromString`. The result is stopped. An empty frame list fails |
| Sprite.FindState | src/main/java/com/googlecode/lanterna/game/image/TextSprite.java:107-109 | the first state with the name, or none exactly when no state has it |
| Sprite.TextSprite.Current | src/main/java/com/googlecode/lanterna/game/image/TextSprite.java:41-42 | the current state is always one of the states |
| Sprite.TextSprite.constructor | src/main/java/com/googlecode/lanterna/game/image/TextSprite.java:44-47 | the first state becomes current |
| Sprite.TextSprite.UpdateState | src/main/java/com/googlecode/lanterna/game/image/TextSprite.java:106-111 | the first state with the name becomes current. An unknown name leaves the current state, without error. Only the pointer moves |
| Sprite.TextSprite.Update | src/main/java/com/googlecode/lanterna/game/image/TextSprite.java:100-104 | an animation state steps its animation by `elapsed` and no other animation changes. An image state changes nothing |
| Sprite.TextSprite.Render | src/main/java/com/googlecode/lanterna/game/image/TextSprite.java:88-98 | an image state is composed onto the destination at the top-left corner. Cells outside it are unchanged |
| Sprite.StateSource | src/main/java/com/googlecode/lanterna/game/image/TextSprite.java:60-76 | a missing name fails with a null pointer. "image" wins over "animation". A named state with neither is `IllegalArgumentException` with an empty message |
| Sprite.SpriteSources | src/main/java/com/googlecode/lanterna/game/image/TextSprite.java:57-82 | every definition succeeds, in order, or the sprite fails. An empty list fails at `states.get(0)` |
| Sprite.AllSources | src/main/java/com/googlecode/lanterna/game/image/TextSprite.java:57-81 | the mapped list succeeds exactly when every definition does, and then holds each definition's source in order |
| TextImageIO.MaxLength | src/main/java/com/googlecode/lanterna/game/image/TextImageIO.java:157-159 | the maximum length: no line is longer and some line has it |
| TextImageIO.GetImageSize | src/main/java/com/googlecode/lanterna/game/image/TextImageIO.java:156-162 | the columns are the longest line and the rows are the number of lines. No lines fail at `max().get()` |
| TextImageIO.ToRGB | src/main/java/com/googlecode/lanterna/game/image/TextImageIO.java:148-154 | no colour exactly when alpha is 0, otherwise the pixel's red, green and blue |
| TextImageIO.PaddedRow | src/main/java/com/googlecode/lanterna/game/image/TextImageIO.java:129-134 | a row's glyphs are its line right-padded with spaces to the image width |
| TextImageIO.DecodedCell | src/main/java/com/googlecode/lanterna/game/image/TextImageIO.java:129-142 | a cell is transparent exactly when its background pixel has alpha 0. It carries the padded glyph and the foreground pixel's colour |
| TextImageIO.FillImage | src/main/java/com/googlecode/lanterna/game/image/TextImageIO.java:123-146 | every cell of the image holds the decoded cell of its glyph and its two pixels |
| TextImageIO.FillError | src/main/java/com/googlecode/lanterna/game/image/TextImageIO.java:126-136 | filling fails exactly when the image has a cell and a picture is missing or lacks a pixel. It fails with a null pointer or an index error |
| TextImageIO.Read | src/main/java/com/googlecode/lanterna/game/image/TextImageIO.java:164-170 | missing glyphs give a null pointer and no lines fail. Otherwise the fill errors apply. On success the image has the glyphs' size and every cell decoded |
| TextImageIO.LastNamed | src/main/java/com/googlecode/lanterna/game/image/TextImageIO.java:103-115 | the entry whose content is kept for a name is the last entry with that name, and there is none exactly when no entry has that name |
| TextImageIO.ReadArchive | src/main/java/com/googlecode/lanterna/game/image/TextImageIO.java:99-117 | reading stops right after the third recognised entry. Unknown names are skipped and a repeated name counts again. With fewer than three recognised entries it fails. The parts kept are the last of each name read |
| TextImageIO.DuplicateEntryStopsEarly | src/main/java/com/googlecode/lanterna/game/image/TextImageIO.java:101-116 | glyphs, glyphs, foreground, background: the loop stops before the background, which stays null |
| TextImageIO.ReadFromArchive | src/main/java/com/googlecode/lanterna/game/image/TextImageIO.java:94-121 | an archive with fewer than three recognised entries fails with a null pointer. Otherwise it gives the archive loop's parts to `read` |
| LegacyTextImageIO.ToOpaqueRGB | src/main/java/com/googlecode/lanterna/game/TextImageIO.java:99-102 | the pixel's red, green and blue, whatever its alpha |
| LegacyTextImageIO.OpaqueIgnoresAlpha | src/main/java/com/googlecode/lanterna/game/TextImageIO.java:100 | alpha makes no difference, so no cell is transparent |
| LegacyTextImageIO.OpaqueAgreesWhenVisible | src/main/java/com/googlecode/lanterna/game/TextImageIO.java:99-102 | where the newer decoder sees a colour, the older one sees the same colour |
| LegacyTextImageIO.GlyphAtAsWritten | src/main/java/com/googlecode/lanterna/game/TextImageIO.java:86-91 | as written, the glyph fails exactly at `column == length`. Elsewhere it is the padded glyph |
| LegacyTextImageIO.AsWrittenNeedsEqualLines | src/main/java/com/googlecode/lanterna/game/TextImageIO.java:83-91 | as written, every glyph is read exactly when all lines are as long as the longest |
| LegacyTextImageIO.ShortLineFails | src/main/java/com/googlecode/lanterna/game/TextImageIO.java:87-91 | ["ab", "a"] is 2 wide, and row 1, column 1 throws as written, where padding gives a space |
| LegacyTextImageIO.OpaqueCell | src/main/java/com/googlecode/lanterna/game/TextImageIO.java:86-94 | the padded glyph with both colours set, never transparent |
| LegacyTextImageIO.FillImage | src/main/java/com/googlecode/lanterna/game/TextImageIO.java:80-97 | every cell holds its padded glyph with its foreground and background pixel colours |
| LegacyTextImageIO.Read | src/main/java/com/googlecode/lanterna/game/TextImageIO.java:112-118 | the same failures as the newer decoder. On success a fresh grid of the glyphs' size with every cell opaque |
| LegacyTextImageIO.ReadFromArchiveAsWritten | src/main/java/com/googlecode/lanterna/game/TextImageIO.java:51-78 | as written it never succeeds. With no recognised entry `getNextEntry` runs out and the result is a null pointer. Otherwise the first recognised entry is read, its reader closes the zip stream, and the next `getNextEntry` is an `IOException("Stream closed")` |
| LegacyTextImageIO.ReadFromArchive | src/main/java/com/googlecode/lanterna/game/TextImageIO.java:51-78 | corrected, with the stream left open: the same three-entry loop as the newer decoder. Fewer than three recognised entries fail with a null pointer |
| ActionBinding.Lookup | src/main/java/com/googlecode/lanterna/game/event/ActionBinding.java:82-84 | empty exactly when the key is not bound, otherwise its action |
| ActionBinding.BindThenResolve | src/main/java/com/googlecode/lanterna/game/event/ActionBinding.java:77-84 | after `bind(k, a)`, `resolve(k)` is `a` |
| ActionBinding.BindKeepsOthers | src/main/java/com/googlecode/lanterna/game/event/ActionBinding.java:77-84 | `bind(k, a)` changes `resolve` of no other key |
| ActionBinding.RebindOverwrites | src/main/java/com/googlecode/lanterna/game/event/ActionBinding.java:78 | binding a key again replaces its earlier action |
| ActionBinding.BoundDistinct | src/main/java/com/googlecode/lanterna/game/event/ActionBinding.java:44-48 | with distinct keys, every key resolves to its own action, and a key resolves to nothing exactly when it is not listed |
| ActionBinding.ActionBinding.constructor | src/main/java/com/googlecode/lanterna/game/event/ActionBinding.java:36 | a new binding is empty |
| ActionBinding.ActionBinding.Bind | src/main/java/com/googlecode/lanterna/game/event/ActionBinding.java:77-80 | the map gains the pair, replacing an earlier one for the key, and the same binding is returned |
| ActionBinding.ActionBinding.Resolve | src/main/java/com/googlecode/lanterna/game/event/ActionBinding.java:82-84 | the action bound to the key, and none exactly when the key is not bound |
| ActionBinding.From | src/main/java/com/googlecode/lanterna/game/event/ActionBinding.java:38-53 | a fresh binding holding the pairs bound in iteration order, so a later pair for a key wins |
| ActionBinding.SplitAtLastDot | src/main/java/com/googlecode/lanterna/game/event/ActionBinding.java:64-66 | fails exactly when the value has no '.'. Otherwise class name + "." + field name is the value, and the field name has no '.' |
| ActionBinding.SplitJoined | src/main/java/com/googlecode/lanterna/game/event/ActionBinding.java:64-66 | any class name joined to a dot-free field name splits back into the two |
| Tiler.ExtensionStart | src/main/java/com/googlecode/lanterna/game/tools/Tiler.java:88-90 | the extension starts after the file name's last '.', or at the file name itself when it has no '.' |
| Tiler.GetExtension | src/main/java/com/googlecode/lanterna/game/tools/Tiler.java:87-91 | the extension holds no '.'. A name without '.' is its own extension |
| Tiler.Stem | src/main/java/com/googlecode/lanterna/game/tools/Tiler.java:82 | the path without its trailing ".ext": stem + "." + ext is the path |
| Tiler.GetProcessedImageFileName | src/main/java/com/googlecode/lanterna/game/tools/Tiler.java:79-84 | as written, the name ends in `_tiled<w>x<h>.<ext>` |
| Tiler.TiledFileName | src/main/java/com/googlecode/lanterna/game/tools/Tiler.java:79-84 | the intended name keeps every directory of the input path |
| Tiler.AsWrittenAgreesWhenStemFree | src/main/java/com/googlecode/lanterna/game/tools/Tiler.java:79-84 | where only the trailing ".ext" occurs, the name as written is the intended one |
| Tiler.ExampleNameParts | src/main/java/com/googlecode/lanterna/game/tools/Tiler.java:87-91 | "a.png/b.png" has the extension "png" and the stem "a.png/b" |
| Tiler.ExampleRemoveAll | src/main/java/com/googlecode/lanterna/game/tools/Tiler.java:82 | `replace(".png", "")` turns "a.png/b.png" into "a/b" |
| Tiler.DirectoryRenamed | src/main/java/com/googlecode/lanterna/game/tools/Tiler.java:79-84 | "a.png/b.png" with 8x8 tiles becomes "a/b_tiled8x8.png" as written and "a.png/b_tiled8x8.png" as intended |
| Tiler.TileSize | src/main/java/com/googlecode/lanterna/game/tools/Tiler.java:31-33 | fewer than three arguments fail. Otherwise both tile sizes parse, or the first failure is returned |
| Tiler.OnLineMultiple | src/main/java/com/googlecode/lanterna/game/tools/Tiler.java:58-59 | a coordinate lies on a grid line exactly when it is a multiple of the tile size |
| Tiler.ProcessImage | src/main/java/com/googlecode/lanterna/game/tools/Tiler.java:50-65 | a fresh picture of the same size. A pixel off row 0 and column 0 on a grid line is white. Every other pixel is the input's |
| Packer.TextImageDirectoryNames | src/main/java/com/googlecode/lanterna/game/tools/TextImagePacker.java:81-99 | for distinct names, a directory is a text image exactly when its names are the three text-image names and nothing else |
| Packer.TraversePacksPackable | src/main/java/com/googlecode/lanterna/game/tools/TextImagePacker.java:57-68 | `traverse` packs exactly the text-image directories reached without passing through another text-image directory. A file packs nothing |
| Packer.TraverseAllPacksPackable | src/main/java/com/googlecode/lanterna/game/tools/TextImagePacker.java:65-67 | walking the children packs exactly what some child packs |
| Packer.OnlyTextImagesPacked | src/main/java/com/googlecode/lanterna/game/tools/TextImagePacker.java:57-68 | everything packed is a text-image directory |
| Packer.OnlyTextImagesPackedAll | src/main/java/com/googlecode/lanterna/game/tools/TextImagePacker.java:65-67 | the same for a list of children |
| Packer.PackTargetSibling | src/main/java/com/googlecode/lanterna/game/tools/TextImagePacker.java:44-45 | the archive is the directory's own path with ".zip" appended. For the root, whose parent is null, it is ".zip" |
| Packer.PackedArchiveReadable | src/main/java/com/googlecode/lanterna/game/tools/TextImagePacker.java:48-50 | an archive whose entries are glyphs, foreground and background, in that order, is read whole by the decoder's entry loop |
| Packer.MainArgument | src/main/java/com/googlecode/lanterna/game/tools/TextImagePacker.java:35-41 | exactly one argument is accepted. Anything else is `IllegalArgumentException("no directory")` |
| Viewer.ParseArguments | src/main/java/com/googlecode/lanterna/game/tools/TextImageViewer.java:44-66 | no argument gives "no file", and an existing path is loaded. One dimension sets both; a second overrides the rows. A missing dimension or -1 gives "no columns, nor rows" |
| Viewer.GlyphText | src/main/java/com/googlecode/lanterna/game/tools/TextImageViewer.java:104-116 | `rows` lines of exactly `columns` spaces, with separators only between lines |
| Viewer.BlankImageReadsBack | src/main/java/com/googlecode/lanterna/game/tools/TextImageViewer.java:104-116 | the written glyph text reads back as the same lines and decodes to exactly `columns` by `rows` |
| Viewer.PictureSize | src/main/java/com/googlecode/lanterna/game/tools/TextImageViewer.java:117-118 | the pictures are `columns` by `rows`. An empty or negative size is refused with AWT's message "Width (w) and height (h) cannot be <= 0" |

## Left out

- `TerminalGame` and `Render`: the timer, the wall clock, the terminal I/O and the game loop are not modelled. They only sequence calls on collaborators.
- Gson, Spring `Resource`, zip streams, `ImageIO`, `Files.copy` and `BufferedReader`: the model starts from what they produce.
  - Glyph lines, decoded ARGB pictures and the list of (entry name, content) pairs in archive order.
  - `read(File)` in both decoders (src/main/java/com/googlecode/lanterna/game/image/TextImageIO.java:73-92, src/main/java/com/googlecode/lanterna/game/TextImageIO.java:34-48) picks a directory or an archive. Its archive branch is `ReadFromArchive`; its directory branch, which opens the three files one by one, is not part of this model.
- Time is a `real`. The `float` rounding of `animationTime` is not modelled.
- `ActionBinding.From`: the properties file is given as (key, action) pairs in iteration order. `Properties` loading, `KeyStroke.fromString` and reflection (`Class.forName`, `newInstance`, `getField`) are not modelled. So the bindings the test file expects (`Escape`, `F5`) are not stated. Only the last-dot split of the fallback is kept.
- `Compositor.TransparentTextImage.DrawImageWithTransparency`:
  - requires the destination to be a grid other than the image's own buffer, so aliasing is not modelled;
  - requires the folded size to stay non-negative, since lanterna's `TerminalSize` would refuse it;
  - leaves Java's 32-bit overflow in the clipping arithmetic unmodelled.
- `TextGraphics` and `TextCharacter` internals are not modelled: the destination is a grid of cells, and a colour left null is `None`.
  - `putString` of a control character is not modelled.
  - Nor how lanterna treats a null colour.
- `Sprite.TextSprite.Render`: an animation state leaves the destination as it is. `TextAnimation` defines no `render`, so that call is not part of this model.
- `Sprite.TextSprite.constructor`: requires a non-empty list, because the source throws at `states.get(0)`. `Sprite.SpriteSources` states that failure.
- `Sprite.StateSource`: a null "states" list, a null definition and a non-string name (read through `toString`) are not modelled. Only a missing name is.
- `Animation.FromDefinition`: frames are given already decoded; `Float.parseFloat` of the times is not modelled. The "type" entry is given as a string, so a definition without one, which throws a `NullPointerException` at `toString` (TextAnimation.java:73), is not modelled.
- `Packer.Traverse`: a directory's children are given as a list, so `listFiles()` returning null (an I/O error, TextImagePacker.java:65) is not modelled.
- `Strings.DecimalString`: writes ASCII digits; the digits `String.format("%d")` uses under another default locale (Tiler.java:82) are not modelled.
- `TextImageIO.FillImage`: states the final content of every cell, not that each cell is written exactly once.
- `TextImageIO.Read`: the fill failures are decided before the image is made. The source fails part way through the loop. The outcome is the same, since the partly filled image is discarded with the exception.
- `TextImageIO.ReadFromArchive`: states the failure and that the image is fresh. The decoded content is stated by `TextImageIO.ReadArchive` and `TextImageIO.Read`, which it calls in sequence.
- `LegacyTextImageIO.ReadFromArchive`: the same, for the older decoder with its zip stream left open (see Findings). The older decoder as written is `LegacyTextImageIO.ReadFromArchiveAsWritten`, which states only the failure, since that is all it can return.
- `LegacyTextImageIO.ReadFromArchiveAsWritten`: the zip stream is a flag, open until the first recognised entry is read. What `ZipInputStream` does with a closed stream is taken from its documented behaviour: `getNextEntry` throws `IOException("Stream closed")`.
- `LegacyTextImageIO.FillImage` and `LegacyTextImageIO.Read`: pad with the corrected test (see Findings). The test as written is `LegacyTextImageIO.GlyphAtAsWritten`.
- `Tiler.TiledFileName`: states only that the directory part is kept. Its suffix is stated for the worked example by `Tiler.DirectoryRenamed`.
- `Tiler.OnLineMultiple`: positive tile sizes only.
  - A tile size of 0 gives NaN for the `double` remainder, so no line; `OnLine` models that.
  - A negative tile size is not covered by the lemma.
- `Tiler.ProcessImage`:
  - `drawImage` is taken to copy each pixel verbatim; AWT's alpha compositing onto `TYPE_INT_RGB` is not modelled;
  - reading and writing the files are not modelled;
  - the picture is indexed [y, x].
- `Strings.ParseInt`: only ASCII digits; Java also accepts other Unicode decimal digits.
- Paths use '/' and are taken as `File` normalises them (`Paths.Normalised`: no doubled '/' and no trailing '/' except the root). The platform separator and normalisation itself are not modelled.
- `TextImageIO.MaxLength`, `TextImageIO.GetImageSize`, `TextImageIO.PaddedRow` and `LegacyTextImageIO.GlyphAtAsWritten`: a glyph line is a sequence of Unicode scalar values, while Java's `length()` and `charAt` count UTF-16 code units. A character outside the Basic Multilingual Plane is one column here and two in the source.
- `Viewer.ParseArguments`: whether the file exists is a parameter. The directory creation, the PNG writing, the file-watch loop and the Escape/QUIT wiring are not modelled.
- `Viewer.GlyphText`: the line separator is a parameter (the platform's `newLine`).
- The test resources (the 2 × 4 sample images) are not part of this model, so their decoded size is not stated.
- Exceptions are `Error` values. A checked `IOException` wrapped in a `RuntimeException` is not modelled.

## Findings

| source | as written | input that shows it | evidently intended | confidence | as-written member | corrected member |
|---|---|---|---|---|---|---|
| src/main/java/com/googlecode/lanterna/game/TextImageIO.java:87-91 | `column > line.length()` pads only past the end, so `charAt(line.length())` throws on any line shorter than the widest | glyph lines ["ab", "a"]: row 1, column 1 | `column >= line.length()`, as in the `image` package: pad short lines with spaces | not executed | LegacyTextImageIO.ShortLineFails | LegacyTextImageIO.FillImage |
| src/main/java/com/googlecode/lanterna/game/TextImageIO.java:120-130 | `readGlyphs` closes its reader in try-with-resources and `readImage` calls `close()`; both close the shared zip stream, so the next `getNextEntry` (line 59) throws `IOException` | any archive the packer writes: glyphs.txt, foreground.png, background.png | leave the zip stream open, as the newer decoder does, and read all three entries | not executed | LegacyTextImageIO.ReadFromArchiveAsWritten | LegacyTextImageIO.ReadFromArchive |
| src/main/java/com/googlecode/lanterna/game/tools/Tiler.java:82 | `replace("." + extension, "")` removes every ".ext" in the whole path, directories included | "a.png/b.png" with 8x8 tiles gives "a/b_tiled8x8.png" | drop only the trailing ".ext": "a.png/b_tiled8x8.png" | not executed | Tiler.DirectoryRenamed | Tiler.TiledFileName |
