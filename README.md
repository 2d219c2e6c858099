# sgf2gif: moves to frames, modelled in Dafny

sgf2gif turns an SGF game record (Smart Game Format, the Go game-record
format) into an animated GIF with one frame per stone placement. Each frame
shows the board after that move. This project models the core of that
pipeline, from a parsed collection of game trees to the in-memory GIF record:

- `basics.dfy` (module `Basics`): the error-or-value `Result` and Go's `byte`.
- `moves.dfy` (module `Moves`): point-token decoding (`lettersToCoords`),
  recognition of move properties (`notAMove`), extraction of the ordered move
  list (`movesFromGame`) and selection of the first game tree (`firstGame`).
  SGF values are byte sequences, as Go strings are. Property identifiers are
  Dafny strings, because they are only compared with `"B"` and `"W"`.
  `MovesFromGame` keeps the source's nested loops. It is proved equal to the
  specification function `MovesOf` over the flattened property list. The
  lemmas about `MovesOf` state what extraction means: order, exact filtering,
  the success condition and the first error.
- `raster.dfy` (module `Raster`): the constants, `side`, the truncated
  distance `dist`, the empty grid, and the frame operations `newFrame`,
  `drawMove` and `movesToFrames`. A frame is a `Side()` by `Side()`
  `array2<Byte>` of palette indices, indexed `[x, y]` like `SetColorIndex(x, y)`.
  The methods keep the source's fill, copy and scan loops. They are proved
  against `FrameColor(ms, x, y)`: the colour of a pixel after the stones of
  `ms` are drawn in order on the empty board.
- `animation.dfy` (module `Animation`): the GIF record (`images`, `delays`,
  `loopCount`), `framesToGif`, the composed pipeline `sgfToGif` after
  parsing, and the single-stone "dd" example worked through.

The truncated distance `int(math.Sqrt(float64(h)))` is modelled as the
integer floor square root of `h`. So a pixel is in a stone's disc exactly when
its squared distance to the centre is below 21 * 21 (`InDiscIff`).

Coordinates are not checked against the board size, in the code as in the
model. A byte outside `'a'`..`'s'` wraps to a coordinate of 19 or more
(`OnBoardLetters`). A stone past both the last row and the last column paints
nothing (`OffBoardCornerInvisible`). Neither does a stone with a coordinate of
20 or more (`OffBoardFarInvisible`). A stone in column 19 on an on-board row
still paints a sliver at the frame's right edge (`OffBoardColumnPaintsEdge`).

SGF point values are two letters. `lettersToCoords` measures and indexes the
value in bytes (`len`, `letters[0]`), and so does the model (`Bytes`).

## Model

| member | source | states |
|---|---|---|
| `Moves.LettersToCoords` | main.go:137-144 | fails with the token itself exactly when the token is not 2 bytes long; otherwise x and y lie in 0..255 and `(x + 'a') mod 256` and `(y + 'a') mod 256` give back the two bytes |
| `Moves.DecodeEncode` | main.go:137-144 | every point in 0..255 x 0..255 has a two-byte token that decodes back to it |
| `Moves.EncodeDecode` | main.go:137-144 | every two-byte token decodes, and encoding the result gives back the token |
| `Moves.DecodeInjective` | main.go:141-142 | distinct tokens decode to distinct points |
| `Moves.OnBoardLetters` | main.go:141-142 | a token decodes onto the 19x19 board exactly when both bytes are among `'a'`..`'s'` |
| `Moves.NotAMove` | main.go:106-108 | a property is not a move exactly when its identifier is neither `B` nor `W` |
| `Moves.PropertyToMove` | main.go:117-130 | a move property converts exactly when it has one value of two bytes; otherwise the error is `MalformedMove` (value count not 1) or the decoder's error; the move is white exactly when the identifier is `W` and carries the decoded coordinates |
| `Moves.MoveProperties` | main.go:113-116 | every property kept by the filter is a move property |
| `Moves.MovePropertiesExact` | main.go:113-116 | the filter keeps a property exactly when it is a `B` or `W` property of the input |
| `Moves.MovePropertiesAppend` | main.go:112-116 | the filter keeps order: filtering a concatenation concatenates the filtered parts |
| `Moves.MovesOfAppend` | main.go:110-135 | extraction is compositional: moves of `a + b` are those of `a` then those of `b`, and the first error wins |
| `Moves.MovesOfIgnoresNonMoves` | main.go:113-116 | non-move properties never change the extraction result, success or error |
| `Moves.MovesOfSucceeds` | main.go:113-124 | extraction succeeds exactly when every `B`/`W` property converts |
| `Moves.MovesOfContents` | main.go:110-135 | on success there is one move per `B`/`W` property, in node-then-property order, each the conversion of its property |
| `Moves.MovesOfFirstError` | main.go:117-124 | on failure the error is that of the first `B`/`W` property that does not convert, and all earlier move properties convert |
| `Moves.MovesFromGame` | main.go:110-135 | the nested loop returns exactly the extraction of the game's properties in node-then-property order, including its early error return |
| `Moves.FirstGame` | main.go:87-98 | fails with `NoGames` exactly when there is no game tree; otherwise returns the first tree |
| `Raster.Side` | main.go:190-192 | a frame is 19 * 40 + 2 = 762 pixels on each side: half a stone and two pixels beyond the centre of the last line |
| `Raster.FloorSqrt` | main.go:263-265 | returns the `r` with `r*r <= n < (r+1)*(r+1)` |
| `Raster.Dist` | main.go:254-266 | the result is the truncated Euclidean distance: its square is at most the squared distance, and its successor's square exceeds it |
| `Raster.DistAtMost` | main.go:243 | the truncated distance is at most `r` exactly when the squared distance is below `(r+1)^2` |
| `Raster.InDiscIff` | main.go:239-243 | a pixel is in a stone's disc exactly when its squared distance to `(20 + 40x, 20 + 40y)` is below 441 |
| `Raster.DiscBounds` | main.go:239-243 | every disc pixel lies within 20 pixels of the centre along each axis |
| `Raster.DiscInsideFrame` | main.go:238-243 | the disc of a move on the board lies wholly inside the `side` x `side` frame |
| `Raster.OffBoardCornerInvisible` | main.go:239-243 | a move with both coordinates 19 or more paints no pixel of the frame |
| `Raster.OffBoardFarInvisible` | main.go:239-243 | a move with either coordinate 20 or more paints no pixel of the frame |
| `Raster.OffBoardColumnPaintsEdge` | main.go:239-243 | a move in column 19 on row 0 still paints the frame's right edge |
| `Raster.StoneColor` | main.go:244-247 | a stone's index is black or white, and white exactly for a white move |
| `Raster.OnLineStep` | main.go:208-221 | each pass of the line loops adds exactly line `i` to the lines drawn so far |
| `Raster.OnLineIff` | main.go:210 | a position is on one of the first `n` lines exactly when it is `i*40 + 20` for some `i < n` |
| `Raster.GridColorIff` | main.go:199-221 | the empty board uses only indices `background` and `black`, and a pixel is black exactly when it is on one of the 19 vertical or 19 horizontal lines within their span |
| `Raster.FrameColor` | main.go:194-233 | every pixel of every frame holds one of the three palette indices |
| `Raster.LastStoneWins` | main.go:222-248 | a pixel covered by some stone shows the colour of the last stone that covers it |
| `Raster.UncoveredKeepsGrid` | main.go:199-252 | a pixel no stone covers keeps its empty-board colour in every frame |
| `Raster.WhiteOnlyFromWhiteStones` | main.go:244-248 | a white pixel lies in the disc of some white move |
| `Raster.DrawMove` | main.go:236-252 | paints every disc pixel with the stone's index and leaves every other pixel as it was |
| `Raster.NewFrame` | main.go:194-234 | returns a fresh frame that equals the empty grid (no previous frame) or the previous frame outside the move's disc, and holds the stone's index inside it; the previous frame is only read |
| `Raster.MovesToFrames` | main.go:146-160 | one fresh frame per move, no two sharing storage, frame `k` showing the stones of the first `k + 1` moves |
| `Animation.FramesToGif` | main.go:162-169 | the images are the frames in order, there is one delay of 100 per frame, and the loop count equals the number of frames |
| `Animation.SgfToGif` | main.go:58-85 | fails with `NoGames` without a game tree and with the extraction error when extraction fails; otherwise loop count, image count, delay count and move count agree, and frame `k` shows the first `k + 1` moves |
| `Animation.SingleBlackMoveAtDd` | main.go:110-144 | a game with the single property `B[dd]` yields the one black move at (3, 3) |
| `Animation.SingleBlackFrameAtDd` | main.go:199-252 | its frame is black exactly on the pixels within squared distance 440 of (140, 140), and every other pixel keeps its empty-grid colour |
| `Animation.SingleBlackFrameSamples` | main.go:199-252 | in that frame the centre and the pixel 20 to its right are black, the pixel just past the rim is background, and the grid line at x = 20 is intact beside the stone |

## Left out

- `main`, `parseArgs`, `usage` and `save` (main.go:15-56): command-line handling, logging and file output.
- `sgf.ParseSgfFile` (main.go:59): parsing belongs to an external SGF library. The model starts from a sequence of game trees, each a sequence of nodes of `(identifier, values)` properties. The library's other tree structure (variations) is not part of this model.
- `gif.EncodeAll` (main.go:51): byte encoding belongs to Go's standard library. Only the in-memory `{images, delays, loopCount}` record is modelled.
- The RGBA values of the palette (main.go:171-175) carry no behaviour; only the indices 0, 1 and 2 are modelled.
- The debug `fmt.Printf` in `drawMove` (main.go:237) and the `log.Printf` about ignored games in `firstGame` (main.go:94) are output only.
- Raster.Dist: `math.Sqrt` on a `float64` is replaced by the integer floor square root. The two agree whenever the squared distance is below 2^28. Then the root is below 2^14, and it sits at least 1/2^15 below the next integer, which is far more than the rounding error of `math.Sqrt`. On a frame, pixel coordinates are below 762 and stone centres are at most 20 + 40 * 255 = 10220, so the squared distance is at most 2 * 10220^2 < 2^28.
- `newFrame`, `movesToFrames` and `framesToGif` return an error that is always nil. The model returns their results without an error value.
- Go's 64-bit `int` overflow is not modelled. Decoded coordinates are at most 255, so `20 + 40 * x` cannot overflow.
- `image.Paletted` is reduced to its pixel indices. Its rectangle, stride and palette fields are not modelled. `SetColorIndex` ignores writes outside the rectangle, but every write in the code is inside it, and the model's array bounds checks prove this.
