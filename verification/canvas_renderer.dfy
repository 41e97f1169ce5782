/** The pure parts of the canvas renderer: the correction applied to pixels
    read back from the GL framebuffer, the test texture, and the choice of
    shader type from a shader file name. */
module CanvasRenderer {
  import opened Pixels
  import opened Grid

  // ---------------------------------------------------------------------
  // Readback correction (`getCanvasBitmap`)
  // ---------------------------------------------------------------------

  /** Every pixel of a buffer with its bytes 0 and 2 swapped. */
  function SwizzleAll(p: seq<Word>): (r: seq<Word>)
    ensures |r| == |p|
  {
    seq(|p|, k requires 0 <= k < |p| => Swizzle(p[k]))
  }

  /** The bitmap that `getCanvasBitmap` builds from the `width * height`
      words `glReadPixels` returned: every pixel swizzled and the rows
      mirrored. */
  function CorrectReadback(b: seq<Word>, width: nat, height: nat): (r: seq<Word>)
    requires |b| == width * height
    ensures |r| == width * height
  {
    MirrorRows(SwizzleAll(b), width, height)
  }

  /** Output index `k` holds the swizzled input pixel the mirror puts there. */
  ghost predicate CorrectedOn(b: seq<Word>, bt: seq<Word>, width: nat, height: nat, lo: nat, hi: nat)
    requires |b| == width * height && |bt| == width * height && hi <= |bt|
  {
    forall k :: lo <= k < hi ==> bt[k] == Swizzle(b[SourceIndex(k, width, height)])
  }

  /** The loop body: input cell (i, j) goes to `MirrorIndex(i, j)`, the
      output index whose source is (i, j). */
  lemma ReadbackStep(b: seq<Word>, width: nat, height: nat, i: nat, j: nat)
    requires |b| == width * height && i < height && j < width
    ensures Index(i, j, width) < |b|
    ensures MirrorIndex(i, j, width, height) == Index(height - 1 - i, j, width)
    ensures SourceIndex(MirrorIndex(i, j, width, height), width, height) == Index(i, j, width)
  {
    IndexInRange(i, j, width, height);
    var k := MirrorIndex(i, j, width, height);
    IndexSplit(k, width, height);
    IndexInjective(k / width, k % width, height - 1 - i, j, width);
  }

  /** Writing one cell of row `height - 1 - i` extends the corrected part of
      that row by one. */
  lemma ReadbackWrite(b: seq<Word>, bt: seq<Word>, width: nat, height: nat,
                      rowStart: nat, j: nat, done: nat)
    requires |b| == width * height && |bt| == width * height
    requires rowStart + j < done <= |bt|
    requires CorrectedOn(b, bt, width, height, rowStart, rowStart + j)
    requires CorrectedOn(b, bt, width, height, done, |bt|)
    ensures var bt' := bt[rowStart + j := Swizzle(b[SourceIndex(rowStart + j, width, height)])];
            CorrectedOn(b, bt', width, height, rowStart, rowStart + j + 1) &&
            CorrectedOn(b, bt', width, height, done, |bt|)
  {
  }

  /** The output rows from `fromRow` down to the last are corrected. */
  ghost predicate CorrectedRows(b: seq<Word>, bt: seq<Word>, width: nat, height: nat, fromRow: nat)
    requires |b| == width * height && |bt| == width * height
  {
    forall k :: fromRow * width <= k < |bt| ==> bt[k] == Swizzle(b[SourceIndex(k, width, height)])
  }

  /** Output row `row` starts `width` cells before row `row + 1`, and ends
      inside the buffer. */
  lemma RowBounds(row: nat, width: nat, height: nat)
    requires row < height
    ensures (row + 1) * width == row * width + width
    ensures (row + 1) * width <= width * height
  {
    MulMonotone(row + 1, height, width);
  }

  /** The inner loop of `getCanvasBitmap` over the columns of input row `i`:
      output row `height - 1 - i` gets filled, so the corrected rows grow by
      one upwards. */
  method CorrectRow(b: seq<Word>, bt: seq<Word>, width: nat, height: nat, i: nat)
    returns (out: seq<Word>)
    requires |b| == width * height && |bt| == width * height
    requires i < height
    requires CorrectedRows(b, bt, width, height, height - i)
    ensures |out| == |bt|
    ensures CorrectedRows(b, out, width, height, height - 1 - i)
  {
    ghost var row := height - 1 - i;
    ghost var rowStart := row * width;
    ghost var done := rowStart + width;
    RowBounds(row, width, height);
    assert (height - i - 1) * width == rowStart;
    out := bt;
    var j := 0;
    while j < width
      invariant j <= width
      invariant |out| == width * height
      invariant CorrectedOn(b, out, width, height, rowStart, rowStart + j)
      invariant CorrectedOn(b, out, width, height, done, |out|)
    {
      ReadbackStep(b, width, height, i, j);
      ReadbackWrite(b, out, width, height, rowStart, j, done);
      var pix := b[Index(i, j, width)];
      var pb := ArithShiftRight(pix, 16) & 0x0000_00ff;
      var pr := (pix << 16) & 0x00ff_0000;
      var pix1 := (pix & 0xff00_ff00) | pr | pb;
      out := out[(height - i - 1) * width + j := pix1];
      j := j + 1;
    }
  }

  /** `getCanvasBitmap`: walks the input rows, writing the swizzled pixel
      (i, j) to row `height - 1 - i`, column `j`, so the output fills from
      its last row up. The buffer it hands to `Bitmap.createBitmap` is the
      corrected readback, whatever the fresh array held before. */
  method GetCanvasBitmap(b: seq<Word>, width: nat, height: nat) returns (bt: seq<Word>)
    requires |b| == width * height
    ensures bt == CorrectReadback(b, width, height)
  {
    bt := seq(width * height, _ => 0);
    var i := 0;
    while i < height
      invariant i <= height
      invariant |bt| == width * height
      invariant CorrectedRows(b, bt, width, height, height - i)
    {
      bt := CorrectRow(b, bt, width, height, i);
      i := i + 1;
    }
    ReadbackComplete(b, bt, width, height);
  }

  /** A buffer corrected at every index is the corrected readback. */
  lemma ReadbackComplete(b: seq<Word>, bt: seq<Word>, width: nat, height: nat)
    requires |b| == width * height && |bt| == width * height
    requires CorrectedRows(b, bt, width, height, 0)
    ensures bt == CorrectReadback(b, width, height)
  {
  }

  /** The input pixel at (row i, column j) lands, swizzled, at output index
      `(height - 1 - i) * width + j`. */
  lemma ReadbackPixel(b: seq<Word>, width: nat, height: nat, i: nat, j: nat)
    requires |b| == width * height && i < height && j < width
    ensures Index(i, j, width) < |b|
    ensures MirrorIndex(i, j, width, height) == Index(height - 1 - i, j, width)
    ensures CorrectReadback(b, width, height)[MirrorIndex(i, j, width, height)]
              == Swizzle(b[Index(i, j, width)])
  {
    ReadbackStep(b, width, height, i, j);
  }

  /** Swizzling and mirroring are independent of each other. */
  lemma SwizzleMirrorCommute(p: seq<Word>, width: nat, height: nat)
    requires |p| == width * height
    ensures SwizzleAll(MirrorRows(p, width, height)) == MirrorRows(SwizzleAll(p), width, height)
  {
  }

  /** The readback correction undoes itself. */
  lemma CorrectReadbackTwice(b: seq<Word>, width: nat, height: nat)
    requires |b| == width * height
    ensures CorrectReadback(CorrectReadback(b, width, height), width, height) == b
  {
    var s := SwizzleAll(b);
    SwizzleMirrorCommute(s, width, height);
    MirrorRowsTwice(SwizzleAll(s), width, height);
    forall k | 0 <= k < |b|
      ensures SwizzleAll(s)[k] == b[k]
    {
      SwizzleInvolution(b[k]);
    }
  }

  /** One RGBA pixel as the GL stores it: four bytes, red first. */
  datatype Rgba = Rgba(r: bv8, g: bv8, b: bv8, a: bv8)

  /** The words `glReadPixels` leaves in an `int` array on a little-endian
      device: red in the least significant byte. */
  function ReadAsInts(fb: seq<Rgba>): (ws: seq<Word>)
    ensures |ws| == |fb|
    ensures forall k :: 0 <= k < |fb| ==>
              && ByteOf(ws[k], 0) == fb[k].r && ByteOf(ws[k], 1) == fb[k].g
              && ByteOf(ws[k], 2) == fb[k].b && ByteOf(ws[k], 3) == fb[k].a
  {
    seq(|fb|, k requires 0 <= k < |fb| => FromBytes(fb[k].r, fb[k].g, fb[k].b, fb[k].a))
  }

  /** What the correction achieves: the GL framebuffer has its first row at
      the bottom and red in the low byte; the corrected buffer has its first
      row at the top and each pixel in Android's ARGB layout. */
  lemma ReadbackIsArgbTopDown(fb: seq<Rgba>, width: nat, height: nat, row: nat, col: nat)
    requires |fb| == width * height && row < height && col < width
    ensures Index(row, col, width) < |fb|
    ensures var px := fb[Index(height - 1 - row, col, width)];
            CorrectReadback(ReadAsInts(fb), width, height)[Index(row, col, width)]
              == Argb(px.a, px.r, px.g, px.b)
  {
    IndexInRange(row, col, width, height);
    var src := height - 1 - row;
    ReadbackStep(ReadAsInts(fb), width, height, src, col);
    assert MirrorIndex(src, col, width, height) == Index(row, col, width);
    MirrorRowsAt(SwizzleAll(ReadAsInts(fb)), width, height, src, col);
    var px := fb[Index(src, col, width)];
    SwizzleRgbaToArgb(px.r, px.g, px.b, px.a);
  }

  // ---------------------------------------------------------------------
  // Test texture (`loadTexture`)
  // ---------------------------------------------------------------------

  /** The two colours of the test texture. Read as RGBA bytes in a
      big-endian buffer, the first is opaque white and the second opaque
      black. */
  const TextureEven: Word := 0xffff_ffff
  const TextureOdd: Word := 0x0000_00ff

  lemma TextureColours()
    ensures BigEndianBytes(TextureEven) == [0xff, 0xff, 0xff, 0xff]
    ensures BigEndianBytes(TextureOdd) == [0x00, 0x00, 0x00, 0xff]
  {
  }

  /** `loadTexture`: `width * height` ints alternating by buffer index,
      even indices `0xffffffff` and odd ones `0x000000ff`. */
  method LoadTexture(width: nat, height: nat) returns (ib: seq<Word>)
    ensures |ib| == width * height
    ensures forall i :: 0 <= i < |ib| ==> ib[i] == (if i % 2 == 0 then TextureEven else TextureOdd)
  {
    ib := [];
    var i := 0;
    while i < width * height
      invariant i <= width * height
      invariant |ib| == i
      invariant forall k :: 0 <= k < i ==> ib[k] == (if k % 2 == 0 then TextureEven else TextureOdd)
    {
      if i % 2 == 0 {
        ib := ib + [TextureEven];
      } else {
        ib := ib + [TextureOdd];
      }
      i := i + 1;
    }
  }

  /** As written, the pattern alternates along the buffer, not the grid:
      when the width is even every row repeats the one above it, so the
      texture is vertical stripes rather than a checkerboard. */
  lemma LoadTextureStripes(ib: seq<Word>, width: nat, height: nat, row: nat, col: nat)
    requires |ib| == width * height
    requires forall i :: 0 <= i < |ib| ==> ib[i] == (if i % 2 == 0 then TextureEven else TextureOdd)
    requires width % 2 == 0 && row + 1 < height && col < width
    ensures Index(row + 1, col, width) < |ib|
    ensures ib[Index(row, col, width)] == ib[Index(row + 1, col, width)]
  {
    IndexInRange(row + 1, col, width, height);
    var k := Index(row, col, width);
    RowBounds(row, width, row + 1);
    assert Index(row + 1, col, width) == k + width;
    EvenShiftParity(k, width);
  }

  /** Moving an even distance keeps the parity. */
  lemma EvenShiftParity(k: nat, width: nat)
    requires width % 2 == 0
    ensures (k + width) % 2 == k % 2
  {
    assert width == 2 * (width / 2);
  }

  /** The colour a checkerboard puts at (row, col). */
  function CheckerColour(row: nat, col: nat): Word
  {
    if (row + col) % 2 == 0 then TextureEven else TextureOdd
  }

  /** The checkerboard the comment asks for: cell (row, col) takes its colour
      from the parity of `row + col`, so any two cells that share an edge
      differ. */
  method CheckerboardTexture(width: nat, height: nat) returns (ib: seq<Word>)
    ensures |ib| == width * height
    ensures forall row, col :: 0 <= row < height && 0 <= col < width ==>
              Index(row, col, width) < |ib| && ib[Index(row, col, width)] == CheckerColour(row, col)
  {
    ib := [];
    var row := 0;
    while row < height
      invariant row <= height
      invariant |ib| == row * width
      invariant forall r, c :: 0 <= r < row && 0 <= c < width ==>
                  Index(r, c, width) < |ib| && ib[Index(r, c, width)] == CheckerColour(r, c)
    {
      var line := seq(width, c requires 0 <= c < width => CheckerColour(row, c));
      AppendRow(ib, line, width, row);
      ib := ib + line;
      row := row + 1;
    }
  }

  /** Appending row `row` to a buffer of `row` complete rows. */
  lemma AppendRow(ib: seq<Word>, line: seq<Word>, width: nat, row: nat)
    requires |ib| == row * width && |line| == width
    requires forall c :: 0 <= c < width ==> line[c] == CheckerColour(row, c)
    requires forall r, c :: 0 <= r < row && 0 <= c < width ==>
               Index(r, c, width) < |ib| && ib[Index(r, c, width)] == CheckerColour(r, c)
    ensures |ib + line| == (row + 1) * width
    ensures forall r, c :: 0 <= r < row + 1 && 0 <= c < width ==>
              Index(r, c, width) < |ib + line| && (ib + line)[Index(r, c, width)] == CheckerColour(r, c)
  {
    forall r, c | 0 <= r < row + 1 && 0 <= c < width
      ensures Index(r, c, width) < |ib + line|
      ensures (ib + line)[Index(r, c, width)] == CheckerColour(r, c)
    {
      IndexInRange(r, c, width, row + 1);
    }
  }

  /** Neighbouring cells of the corrected texture differ, across a row
      and down a column. */
  lemma CheckerNeighboursDiffer(row: nat, col: nat)
    ensures CheckerColour(row, col) != CheckerColour(row, col + 1)
    ensures CheckerColour(row, col) != CheckerColour(row + 1, col)
  {
  }

  // ---------------------------------------------------------------------
  // Shader type (`makeShader`)
  // ---------------------------------------------------------------------

  /** Shader type constants of OpenGL ES 2.0. */
  const GL_FRAGMENT_SHADER: int := 0x8B30
  const GL_VERTEX_SHADER: int := 0x8B31

  /** Java's `String.endsWith`. */
  predicate EndsWith(s: string, suffix: string)
  {
    |suffix| <= |s| && s[|s| - |suffix|..] == suffix
  }

  /** The type `makeShader` passes to `glCreateShader`: vertex for a name
      ending ".vert", fragment for one ending ".frag", and 0 for any other
      name. */
  function ShaderType(fileName: string): (t: int)
    ensures t == GL_VERTEX_SHADER <==> EndsWith(fileName, ".vert")
    ensures t == GL_FRAGMENT_SHADER <==> EndsWith(fileName, ".frag")
    ensures t == 0 <==> !EndsWith(fileName, ".vert") && !EndsWith(fileName, ".frag")
  {
    SuffixesExclusive(fileName);
    if EndsWith(fileName, ".vert") then GL_VERTEX_SHADER
    else if EndsWith(fileName, ".frag") then GL_FRAGMENT_SHADER
    else 0
  }

  /** No name ends with both suffixes, so the order of the two tests in
      `makeShader` does not matter. */
  lemma SuffixesExclusive(fileName: string)
    ensures !(EndsWith(fileName, ".vert") && EndsWith(fileName, ".frag"))
  {
  }

  /** The two shaders the canvas program is linked from get their types. */
  lemma CanvasShaderTypes()
    ensures ShaderType("shader.vert") == GL_VERTEX_SHADER
    ensures ShaderType("shader.frag") == GL_FRAGMENT_SHADER
  {
    assert EndsWith("shader.vert", ".vert");
    assert EndsWith("shader.frag", ".frag");
  }
}
