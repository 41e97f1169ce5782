/** Texture buffers and bitmap flipping shared by the renderer and the
    brush. The GL calls that upload a buffer are left out: a texture here is
    the buffer that would be uploaded. */
module CanvasUtils {
  import opened Pixels
  import opened Grid

  /** A Java reference that may be `null`. */
  datatype Nullable<T> = Null | NonNull(value: T)

  /** OpenGL ES 2.0 texture sides are meant to be powers of two. */
  predicate IsPowerOfTwo(n: nat)
  {
    n == 1 || (n > 1 && n % 2 == 0 && IsPowerOfTwo(n / 2))
  }

  /** An uploaded texture: its side lengths and its pixel words in the order
      they were put into the `IntBuffer`, and the bytes of the direct
      `ByteBuffer` behind it as the GL reads them. */
  datatype Texture = Texture(width: nat, height: nat, pixels: seq<Word>, bytes: seq<bv8>)

  /** `makeTexture(x, y, color)`: a buffer of `x * y` ints, every one of them
      `color`, backed by `x * y * 4` bytes. */
  method MakeTexture(x: nat, y: nat, color: Word) returns (t: Texture)
    requires IsPowerOfTwo(x) && IsPowerOfTwo(y)
    ensures t.width == x && t.height == y
    ensures |t.pixels| == x * y
    ensures forall i :: 0 <= i < |t.pixels| ==> t.pixels[i] == color
    ensures |t.bytes| == x * y * 4
    ensures |t.bytes| % 4 == 0 && BytesToInts(t.bytes) == t.pixels
  {
    var ib: seq<Word> := [];
    var i := 0;
    while i < x * y
      invariant i <= x * y
      invariant |ib| == i
      invariant forall j :: 0 <= j < i ==> ib[j] == color
    {
      ib := ib + [color];
      i := i + 1;
    }
    var bb := IntsToBytes(ib);
    IntsBytesRoundTrip(ib);
    t := Texture(x, y, ib, bb);
  }

  /** An Android bitmap: `width` x `height` pixels, row-major, as
      `getPixels` returns them with a stride of `width`. */
  datatype Bitmap = Bitmap(width: nat, height: nat, pixels: seq<Word>)
  {
    predicate Valid()
    {
      |pixels| == width * height
    }

    /** `getPixel(x, y)`: column `x` of row `y`. */
    function GetPixel(x: nat, y: nat): Word
      requires Valid() && x < width && y < height
    {
      IndexInRange(y, x, width, height);
      pixels[Index(y, x, width)]
    }
  }

  /** The bitmap mirrored vertically. */
  function Flipped(b: Bitmap): (r: Bitmap)
    requires b.Valid()
    ensures r.Valid() && r.width == b.width && r.height == b.height
  {
    Bitmap(b.width, b.height, MirrorRows(b.pixels, b.width, b.height))
  }

  /** Pixel (x, y) of the flipped bitmap is pixel (x, h - 1 - y) of the
      original. */
  lemma FlippedPixel(b: Bitmap, x: nat, y: nat)
    requires b.Valid() && x < b.width && y < b.height
    ensures Flipped(b).GetPixel(x, y) == b.GetPixel(x, b.height - 1 - y)
  {
    var row := b.height - 1 - y;
    assert MirrorRow(row, b.height) == y;
    MirrorRowsAt(b.pixels, b.width, b.height, row, x);
  }

  /** Flipping twice gives back the original bitmap. */
  lemma FlipTwice(b: Bitmap)
    requires b.Valid()
    ensures Flipped(Flipped(b)) == b
  {
    MirrorRowsTwice(b.pixels, b.width, b.height);
  }

  /** One step of the flip loop: cell (x, y) receives the pixel that the
      mirror puts there. */
  lemma FlipStep(bitmap: Bitmap, x: nat, y: nat)
    requires bitmap.Valid() && x < bitmap.width && y < bitmap.height
    ensures Index(y, x, bitmap.width) < bitmap.width * bitmap.height
    ensures bitmap.GetPixel(x, bitmap.height - 1 - y)
              == bitmap.pixels[SourceIndex(Index(y, x, bitmap.width), bitmap.width, bitmap.height)]
  {
    var w, h := bitmap.width, bitmap.height;
    var k := Index(y, x, w);
    IndexInRange(y, x, w, h);
    IndexSplit(k, w, h);
    IndexInjective(k / w, k % w, y, x, w);
  }

  /** Writing the mirrored pixel at the next index extends the flipped
      prefix by one. */
  lemma FlipWrite(bitmap: Bitmap, pixels: seq<Word>, n: nat)
    requires bitmap.Valid() && |pixels| == bitmap.width * bitmap.height
    requires n < |pixels|
    requires FlippedUpTo(bitmap, pixels, n)
    ensures |pixels[n := bitmap.pixels[SourceIndex(n, bitmap.width, bitmap.height)]]| == |pixels|
    ensures FlippedUpTo(bitmap, pixels[n := bitmap.pixels[SourceIndex(n, bitmap.width, bitmap.height)]], n + 1)
  {
  }

  /** A buffer that holds, at every index, the pixel the mirror puts there is
      the flipped bitmap. */
  lemma FlipComplete(bitmap: Bitmap, pixels: seq<Word>)
    requires bitmap.Valid() && |pixels| == bitmap.width * bitmap.height
    requires FlippedRows(bitmap, pixels, bitmap.height)
    ensures Bitmap(bitmap.width, bitmap.height, pixels) == Flipped(bitmap)
    ensures forall x, y :: 0 <= x < bitmap.width && 0 <= y < bitmap.height ==>
              Flipped(bitmap).GetPixel(x, y) == bitmap.GetPixel(x, bitmap.height - 1 - y)
  {
    forall x, y | 0 <= x < bitmap.width && 0 <= y < bitmap.height
      ensures Flipped(bitmap).GetPixel(x, y) == bitmap.GetPixel(x, bitmap.height - 1 - y)
    {
      FlippedPixel(bitmap, x, y);
    }
  }

  /** The pixels of `bitmap` mirrored into the first `n` cells of a buffer. */
  ghost predicate FlippedUpTo(bitmap: Bitmap, pixels: seq<Word>, n: nat)
    requires bitmap.Valid() && |pixels| == bitmap.width * bitmap.height
  {
    forall k :: 0 <= k < n && k < |pixels| ==>
      pixels[k] == bitmap.pixels[SourceIndex(k, bitmap.width, bitmap.height)]
  }

  /** The first `rows` rows of the buffer are done. */
  ghost predicate FlippedRows(bitmap: Bitmap, pixels: seq<Word>, rows: nat)
    requires bitmap.Valid() && |pixels| == bitmap.width * bitmap.height
  {
    FlippedUpTo(bitmap, pixels, rows * bitmap.width)
  }

  /** Row `y + 1` starts where row `y` ends. */
  lemma NextRowStart(y: nat, width: nat)
    ensures (y + 1) * width == y * width + width
  {
  }

  /** The inner loop of `flipBitmap`: row `y` of the buffer, column by
      column, receives row `h - 1 - y` of the bitmap. */
  method FlipRow(bitmap: Bitmap, pixels: seq<Word>, y: nat) returns (out: seq<Word>)
    requires bitmap.Valid() && |pixels| == bitmap.width * bitmap.height
    requires y < bitmap.height
    requires FlippedRows(bitmap, pixels, y)
    ensures |out| == |pixels|
    ensures FlippedRows(bitmap, out, y + 1)
  {
    var w, h := bitmap.width, bitmap.height;
    ghost var rowStart := y * w;
    NextRowStart(y, w);
    out := pixels;
    var x := 0;
    while x < w
      invariant x <= w
      invariant |out| == w * h
      invariant FlippedUpTo(bitmap, out, rowStart + x)
    {
      FlipStep(bitmap, x, y);
      FlipWrite(bitmap, out, rowStart + x);
      out := out[y * w + x := bitmap.GetPixel(x, h - 1 - y)];
      x := x + 1;
    }
  }

  /** `flipBitmap`: copies the pixels out with `getPixels`, then overwrites
      every cell, row by row, with the pixel of the mirrored row. The result
      is fixed by the input bitmap alone, whatever the copy held. */
  method FlipBitmap(bitmap: Bitmap) returns (flipped: Bitmap)
    requires bitmap.Valid()
    ensures flipped.Valid()
    ensures flipped.width == bitmap.width && flipped.height == bitmap.height
    ensures forall x, y :: 0 <= x < flipped.width && 0 <= y < flipped.height ==>
              flipped.GetPixel(x, y) == bitmap.GetPixel(x, bitmap.height - 1 - y)
    ensures flipped == Flipped(bitmap)
  {
    var w, h := bitmap.width, bitmap.height;
    var pixels := bitmap.pixels;
    var y := 0;
    while y < h
      invariant y <= h
      invariant |pixels| == w * h
      invariant FlippedRows(bitmap, pixels, y)
    {
      pixels := FlipRow(bitmap, pixels, y);
      y := y + 1;
    }
    flipped := Bitmap(w, h, pixels);
    FlipComplete(bitmap, pixels);
  }

  /** `makeTexture(Bitmap)`: a `TEXTURE_SIZE` square texture of opaque white,
      with the flipped bitmap as a sub-image at (0, 0) when there is one. */
  datatype CanvasTexture = CanvasTexture(base: Texture, subImage: Nullable<Bitmap>)

  method MakeCanvasTexture(bitmap: Nullable<Bitmap>, textureSize: nat) returns (t: CanvasTexture)
    requires IsPowerOfTwo(textureSize)
    requires bitmap.NonNull? ==> bitmap.value.Valid()
    ensures t.base.width == textureSize && t.base.height == textureSize
    ensures |t.base.pixels| == textureSize * textureSize
    ensures forall i :: 0 <= i < |t.base.pixels| ==> t.base.pixels[i] == 0xffff_ffff
    ensures bitmap.Null? <==> t.subImage.Null?
    ensures bitmap.NonNull? ==> t.subImage.value == Flipped(bitmap.value)
  {
    var base := MakeTexture(textureSize, textureSize, 0xffff_ffff);
    if bitmap.NonNull? {
      var flippedbmp := FlipBitmap(bitmap.value);
      t := CanvasTexture(base, NonNull(flippedbmp));
    } else {
      t := CanvasTexture(base, Null);
    }
  }
}
