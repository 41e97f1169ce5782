# PaintPaint canvas core in Dafny

PaintPaint is an Android finger-painting app drawn with OpenGL ES 2.0. This
project models the pixel and scheduling logic behind its canvas. The GL
calls themselves are not modelled.

- **Readback correction** (`CanvasRenderer.getCanvasBitmap`). The words
  `glReadPixels` returns are turned into an Android bitmap. Each pixel has its
  red and blue bytes swapped, using the source's masks and Java's
  sign-extending `>>`. The rows are mirrored, because the GL framebuffer has
  its first row at the bottom.
- **Test texture** (`CanvasRenderer.loadTexture`). A buffer alternating
  between `0xffffffff` and `0x000000ff`.
- **Shader type** (`CanvasRenderer.makeShader`). The shader type is chosen
  from the file-name suffix.
- **Solid textures** (`CanvasUtils.makeTexture(x, y, color)`). An `IntBuffer`
  filled with one colour over a big-endian `ByteBuffer`.
- **Canvas texture** (`makeTexture(Bitmap)`). A blank canvas texture, with
  the vertically flipped bitmap as a sub-image when the bitmap is not `null`.
- **Bitmap flip** (`flipBitmap`).
- **Brush** (`CanvasBrush`). Its colour, its dab count, its colour texture,
  and `drawQueue`, which turns a queue of dabs into a sequence of brush
  marks. A brush mark is one `glDrawArrays` of the brush quad at an offset.
- **Dab** (`CanvasDab`). The immutable touch sample the brush consumes.

The modules follow the source files:

- `Pixels`: 32-bit words, byte access, Java `>>`, the swizzle, and the byte
  order of int buffers.
- `Grid`: row-major indexing and the row mirror shared by the readback and
  the flip.
- `CanvasDab`, `CanvasUtils`, `CanvasRenderer` and `CanvasBrush`: one module
  per Java class.

Representation choices:

- **Pixels** are `bv32` words; Java `int` values used as numbers are
  `Int32`.
- **Coordinates and pressure** are exact `real`s, standing in for Java
  `float`s.
- **`drawQueue`** is modelled twice:
  - as a fold over the queue (`CanvasBrush.DrawQueue`);
  - as the loop the source writes (`CanvasBrush.DrainQueue` and
    `CanvasBrush.DrawDab`), proved equal to the fold.

  The loop `while (i-- != 0)` counts with a 32-bit `int`. A negative
  `dabSteps` therefore wraps round and runs `dabSteps + 2^32` times, and the
  model counts exactly that.
- **`isNewStroke()`**: `drawQueue` calls it, but `CanvasDab.java` declares
  no such member. The dab datatype carries a `newStroke` flag for it.
- **Texture side**: `makeTexture(Bitmap)` uses `PaintPaint.TEXTURE_SIZE`,
  which is declared in PaintPaint.java. It is a parameter here, and
  the parameter is required to be a power of two. PaintPaint.java is not
  part of this model.
- **Byte order of the readback**: `IntBuffer.wrap` over an `int[]` uses the
  platform's native byte order. Android devices are little-endian, so each
  RGBA quadruple reads as the word with red in its lowest byte.
  `CanvasRenderer.ReadbackIsArgbTopDown` shows what the correction achieves
  from that starting point.

The comments in `loadTexture` call `0xffffffff` "Black" and `0x000000ff`
"White". Uploaded as RGBA bytes from a big-endian buffer, those words are
opaque white and opaque black (`CanvasRenderer.TextureColours`). The
comments are swapped; the code is unaffected.

## Model

| member | source | states |
|---|---|---|
| `Pixels.ArithShiftRight` | src/com/alizarinarts/paintpaint/CanvasRenderer.java:238 | Java's `>>` on an `int` equals the logical shift for a non-negative word, and for a negative word fills all `n` vacated high bits with ones |
| `Pixels.Swizzle` | src/com/alizarinarts/paintpaint/CanvasRenderer.java:237-240 | the masked correction of one pixel swaps bytes 0 and 2 and keeps bytes 1 and 3, whatever the sign of the pixel |
| `Pixels.SwizzleInvolution` | src/com/alizarinarts/paintpaint/CanvasRenderer.java:237-240 | applying the correction twice gives back the original pixel |
| `Pixels.SwizzleRgbaToArgb` | src/com/alizarinarts/paintpaint/CanvasRenderer.java:230-240 | an RGBA quadruple read little-endian becomes, after the correction, the same colour in Android's ARGB int layout |
| `Pixels.SignedShiftMasked` | src/com/alizarinarts/paintpaint/CanvasRenderer.java:238 | masking Java's signed shift by 16 to one byte equals masking the unsigned shift, so the sign extension never leaks into the result |
| `Pixels.BigEndianBytes` | src/com/alizarinarts/paintpaint/CanvasUtils.java:34-39 | one `int` put into a default `ByteBuffer` occupies four bytes, most significant first |
| `Pixels.IntsToBytesAt` | src/com/alizarinarts/paintpaint/CanvasUtils.java:34-39 | word `i` of an int buffer occupies bytes `4i` to `4i+3` of the byte buffer behind it, in big-endian order |
| `Pixels.IntsBytesRoundTrip` | src/com/alizarinarts/paintpaint/CanvasUtils.java:34-47 | decoding the byte buffer the GL receives gives back exactly the ints that were put into it |
| `Grid.IndexSplit` | src/com/alizarinarts/paintpaint/CanvasRenderer.java:235-241 | every index `k` below `width * height` is `row * width + col` for the in-range cell (`k / width`, `k % width`), and for no other cell with an in-range column |
| `Grid.IndexInjective` | src/com/alizarinarts/paintpaint/CanvasRenderer.java:237 | distinct cells of the grid have distinct indices `row * width + col` |
| `Grid.MirrorIndexOnto` | src/com/alizarinarts/paintpaint/CanvasRenderer.java:241 | every output index of the readback is written by some input cell |
| `Grid.MirrorIndexOneToOne` | src/com/alizarinarts/paintpaint/CanvasRenderer.java:241 | no output index of the readback is written by two different input cells |
| `Grid.MirrorRowsAt` | src/com/alizarinarts/paintpaint/CanvasRenderer.java:241 | in the mirrored grid, input cell (row, col) appears at row `height - 1 - row`, same column |
| `Grid.MirrorRowsTwice` | src/com/alizarinarts/paintpaint/CanvasUtils.java:83-86 | mirroring the rows twice gives back the original grid |
| `CanvasDab.NewDab` | src/com/alizarinarts/paintpaint/CanvasDab.java:10-30 | each getter of a constructed dab returns the value passed to the constructor |
| `CanvasUtils.MakeTexture` | src/com/alizarinarts/paintpaint/CanvasUtils.java:26-40 | for power-of-two sides, the texture holds `x * y` pixels all of the given colour, backed by `x * y * 4` bytes that decode back to those pixels |
| `CanvasUtils.FlippedPixel` | src/com/alizarinarts/paintpaint/CanvasUtils.java:73-86 | pixel (x, y) of the flipped bitmap is pixel (x, h-1-y) of the original |
| `CanvasUtils.FlipTwice` | src/com/alizarinarts/paintpaint/CanvasUtils.java:73-75 | flipping a bitmap twice gives back the original bitmap |
| `CanvasUtils.FlipRow` | src/com/alizarinarts/paintpaint/CanvasUtils.java:84-86 | one pass of the inner loop extends the finished rows of the output by one row |
| `CanvasUtils.FlipBitmap` | src/com/alizarinarts/paintpaint/CanvasUtils.java:78-89 | the result has the bitmap's dimensions, and every pixel (x, y) is the input's pixel (x, h-1-y), whatever `getPixels` copied first |
| `CanvasUtils.MakeCanvasTexture` | src/com/alizarinarts/paintpaint/CanvasUtils.java:62-71 | the base texture is `TEXTURE_SIZE` square and opaque white; there is a sub-image exactly when the bitmap is non-null, and then it is the flipped bitmap |
| `CanvasRenderer.CorrectRow` | src/com/alizarinarts/paintpaint/CanvasRenderer.java:236-242 | one pass over input row `i` completes output row `height - 1 - i` and keeps the rows below it |
| `CanvasRenderer.GetCanvasBitmap` | src/com/alizarinarts/paintpaint/CanvasRenderer.java:227-243 | the buffer handed to `createBitmap` is the readback with every pixel swizzled and the rows mirrored, whatever the fresh array held |
| `CanvasRenderer.ReadbackPixel` | src/com/alizarinarts/paintpaint/CanvasRenderer.java:237-241 | input cell (i, j) lands, swizzled, at output index `(height - i - 1) * width + j` |
| `CanvasRenderer.SwizzleMirrorCommute` | src/com/alizarinarts/paintpaint/CanvasRenderer.java:235-242 | swizzling and mirroring can be done in either order |
| `CanvasRenderer.CorrectReadbackTwice` | src/com/alizarinarts/paintpaint/CanvasRenderer.java:235-242 | the readback correction is its own inverse |
| `CanvasRenderer.ReadAsInts` | src/com/alizarinarts/paintpaint/CanvasRenderer.java:230-232 | the int array a little-endian readback fills has one word per framebuffer pixel, holding red, green, blue and alpha in bytes 0 to 3, from least to most significant |
| `CanvasRenderer.ReadbackIsArgbTopDown` | src/com/alizarinarts/paintpaint/CanvasRenderer.java:227-245 | cell (row, col) of the corrected buffer is the framebuffer pixel at row `height - 1 - row` in ARGB layout, so the bitmap is upright and correctly coloured |
| `CanvasRenderer.TextureColours` | src/com/alizarinarts/paintpaint/CanvasRenderer.java:206-209 | as RGBA bytes in a big-endian buffer, `0xffffffff` is opaque white and `0x000000ff` is opaque black |
| `CanvasRenderer.LoadTexture` | src/com/alizarinarts/paintpaint/CanvasRenderer.java:198-210 | the test texture has `width * height` ints, with `0xffffffff` at even buffer indices and `0x000000ff` at odd ones |
| `CanvasRenderer.LoadTextureStripes` | src/com/alizarinarts/paintpaint/CanvasRenderer.java:204-210 | for an even width, every cell equals the cell below it, so the pattern is vertical stripes |
| `CanvasRenderer.CheckerboardTexture` | src/com/alizarinarts/paintpaint/CanvasRenderer.java:204 | the corrected texture colours cell (row, col) by the parity of `row + col` |
| `CanvasRenderer.CheckerNeighboursDiffer` | src/com/alizarinarts/paintpaint/CanvasRenderer.java:204 | in the corrected texture, cells that share an edge, along a row or down a column, have different colours |
| `CanvasRenderer.ShaderType` | src/com/alizarinarts/paintpaint/CanvasRenderer.java:90-95 | the type is `GL_VERTEX_SHADER` exactly for names ending ".vert", `GL_FRAGMENT_SHADER` exactly for names ending ".frag", and 0 exactly for all other names |
| `CanvasRenderer.SuffixesExclusive` | src/com/alizarinarts/paintpaint/CanvasRenderer.java:91-93 | no name ends with both suffixes, so the order of the two tests does not matter |
| `CanvasRenderer.CanvasShaderTypes` | src/com/alizarinarts/paintpaint/CanvasRenderer.java:109-110 | the two shader files of the canvas program get the vertex and the fragment type |
| `CanvasBrush.NewBrush` | src/com/alizarinarts/paintpaint/CanvasBrush.java:36-67 | a new brush has colour `0x000000ff`, 45 dab steps, its last position at the origin, and a colour texture of its colour |
| `CanvasBrush.SetDabSteps` | src/com/alizarinarts/paintpaint/CanvasBrush.java:183-189 | `getDabSteps` returns what was set, with no range check, and nothing else about the brush changes |
| `CanvasBrush.SetColor` | src/com/alizarinarts/paintpaint/CanvasBrush.java:191-199 | `getColor` returns the new colour, the colour texture is rebuilt in it, and the dab count and last position stay |
| `CanvasBrush.LoopCount` | src/com/alizarinarts/paintpaint/CanvasBrush.java:147-148 | the `while (i-- != 0)` loop runs `n` times for `n >= 0`, never when `n` is 0, and otherwise the count that `n` wraps to modulo 2^32 |
| `CanvasBrush.Decrement` | src/com/alizarinarts/paintpaint/CanvasBrush.java:148 | each 32-bit `i--` on a non-zero counter takes exactly one pass off the remaining loop count, including the wrap from the least `int` |
| `CanvasBrush.Advance` | src/com/alizarinarts/paintpaint/CanvasBrush.java:162-163 | adding the step `k` times moves the position by `k` times the step |
| `CanvasBrush.InterpolateAt` | src/com/alizarinarts/paintpaint/CanvasBrush.java:148-165 | along a continuation, the loop emits exactly its pass count of marks, and mark `k` lies `k` steps from the start with the dab's pressure |
| `CanvasBrush.NewStrokeMarks` | src/com/alizarinarts/paintpaint/CanvasBrush.java:134-157 | a new-stroke dab draws one mark at the dab itself, or none when `dabSteps` is 0 |
| `CanvasBrush.ContinuationMarks` | src/com/alizarinarts/paintpaint/CanvasBrush.java:139-165 | a continuation dab draws the loop count of marks; the first is at the previous dab, and mark `k` is `k` steps of `(dab - last) / dabSteps` beyond it |
| `CanvasBrush.DabMarkCount` | src/com/alizarinarts/paintpaint/CanvasBrush.java:134-166 | one dab draws one mark if it starts a stroke and `dabSteps` is non-zero, and the loop count otherwise |
| `CanvasBrush.DrawQueue` | src/com/alizarinarts/paintpaint/CanvasBrush.java:130-170 | draining a non-empty queue leaves the last position at the last dab and changes nothing else of the brush; an empty queue draws nothing; `dabSteps == 0` draws no marks |
| `CanvasBrush.DrawQueueBatches` | src/com/alizarinarts/paintpaint/CanvasBrush.java:130-170 | drawing a queue in two calls gives the same marks and brush as drawing it in one, because the last position carries over between calls |
| `CanvasBrush.DrawQueueFifo` | src/com/alizarinarts/paintpaint/CanvasBrush.java:130-131 | dabs are drawn in queue order: the dab queued last draws after all the others, starting from the dab queued before it |
| `CanvasBrush.DrawQueueMarkCount` | src/com/alizarinarts/paintpaint/CanvasBrush.java:130-170 | a queue draws one mark per new stroke plus the loop count per continuation dab when `dabSteps` is non-zero, and no marks at all when it is 0 |
| `CanvasBrush.DrawQueueKeepsValid` | src/com/alizarinarts/paintpaint/CanvasBrush.java:100-173 | drawing never changes the colour or its texture, so they stay consistent |
| `CanvasBrush.DrainQueue` | src/com/alizarinarts/paintpaint/CanvasBrush.java:130-170 | the polling loop empties the queue and produces exactly the brush and marks of the fold over the queue |
| `CanvasBrush.DrawDab` | src/com/alizarinarts/paintpaint/CanvasBrush.java:147-166 | the inner loop, which recomputes the step from the dab and the last position on every pass, emits the marks of a constant step |

## Left out

- **GL state.** Texture ids, buffer objects, uniforms, blending, and the
  shader program's compilation and linking are left out. Only the contents
  of the buffers and the sequence of brush marks are modelled.
  CanvasShaderProgram is not part of this model.
- **Reading shader files** in `makeShader`. This is asset I/O; only the
  choice of shader type is modelled.
- **`texSubImage2D` compositing** in `makeTexture(Bitmap)`. The result
  records the base texture and the flipped sub-image. It does not record the
  pixels the GL composes from them.
- **`Bitmap.createBitmap(..., RGB_565)`** in `getCanvasBitmap`. The
  conversion to 16-bit colour is a framework call. The model stops at the
  ARGB int array handed to it.
- **Float arithmetic.** The brush's `size`, `setSize`/`getSize` and the
  `uZoom` value need it, and so does the rounding of the interpolation. The
  model uses exact reals.
- **`setMask`.** It calls `makeTexture(Bitmap, int, int)`, but `CanvasUtils`
  declares no such overload.
- **`addCanvasDab`** and the touch handling that fills the queue. This is UI
  and threading code outside the core.
- **`editTexture`.** Its body is commented out.
- `Pixels.ArithShiftRight`: for a negative word the contract fixes the
  vacated high bits but not the bits below them in general. For the shift by
  16 that the source uses, `Pixels.SignedShiftMasked` states that the low
  byte equals that of the logical shift. A general statement for every shift
  amount is too costly for the solver in this setting.
- **Java `int` overflow of dimension products.** No product of a width
  and a height, or of such a product and 4, is modelled with wrap-around.
  This covers `x * y * 4` in `makeTexture`, `width * height` and
  `width * height * 4` in `loadTexture` and `getCanvasBitmap`, and `w * h`
  in `flipBitmap`. No GL surface, texture or bitmap the app creates comes
  near 2^31 pixels.
- `CanvasUtils.MakeTexture`: does not model Java `int` overflow of `x * y * 4`.
  The model takes the power-of-two sides the doc comment asks for, and does
  not bound their size.
- `CanvasRenderer.GetCanvasBitmap`: does not model Java `int` overflow of
  `width * height`. The dimensions come from the GL surface and are small.
- `CanvasBrush.DrawQueue`: positions are exact reals. The first mark of a
  continuation is an exact copy of the previous dab's floats in the source
  too, since `x = lastX; y = lastY`. Marks from the second on collect float
  rounding in the source, from `dx / dabSteps` and from the running sum
  `x += ...`. The model does not track that rounding.

## Findings

| source | as written | input that shows it | evidently intended | confidence | as-written member | corrected member |
|---|---|---|---|---|---|---|
| src/com/alizarinarts/paintpaint/CanvasRenderer.java:204-210 | colours alternate with the buffer index `i`, so on an even width every row repeats the row above | width 2, height 2: buffer `[W, B, W, B]`, rows `W B` and `W B` | a checkerboard, as the comment says: colour by the parity of `row + col`, so neighbours differ down columns as well as along rows | not executed | `CanvasRenderer.LoadTextureStripes` | `CanvasRenderer.CheckerboardTexture` |
