/** Row-major pixel grids and the vertical mirror that both the canvas
    readback and the bitmap flip perform: the pixel at (row, col) of a
    `width` x `height` grid lives at index `row * width + col`, and mirroring
    sends row `row` to row `height - 1 - row`. */
module Grid {

  /** Index of (row, col) in a row-major grid `width` pixels wide. */
  function Index(row: nat, col: nat, width: nat): nat
  {
    row * width + col
  }

  /** The row that row `row` of a `height`-row grid is mirrored to. */
  function MirrorRow(row: nat, height: nat): nat
    requires row < height
  {
    height - 1 - row
  }

  lemma IndexInRange(row: nat, col: nat, width: nat, height: nat)
    requires row < height && col < width
    ensures Index(row, col, width) < width * height
  {
    assert row * width <= (height - 1) * width by {
      MulMonotone(row, height - 1, width);
    }
    assert (height - 1) * width == height * width - width;
  }

  lemma MulMonotone(a: nat, b: nat, c: nat)
    requires a <= b
    ensures a * c <= b * c
  {
  }

  /** Every index of a grid splits into a row and a column. */
  lemma IndexSplit(k: nat, width: nat, height: nat)
    requires k < width * height
    ensures width > 0
    ensures k / width < height && k % width < width
    ensures Index(k / width, k % width, width) == k
    ensures forall r: nat, c: nat :: c < width && Index(r, c, width) == k ==>
              r == k / width && c == k % width
  {
    var row, col := k / width, k % width;
    assert k == row * width + col;
    if row >= height {
      MulMonotone(height, row, width);
      assert false;
    }
    forall r: nat, c: nat | c < width && Index(r, c, width) == k
      ensures r == row && c == col
    {
      IndexInjective(r, c, row, col, width);
    }
  }

  /** Distinct cells have distinct indices. */
  lemma IndexInjective(r1: nat, c1: nat, r2: nat, c2: nat, width: nat)
    requires c1 < width && c2 < width
    requires Index(r1, c1, width) == Index(r2, c2, width)
    ensures r1 == r2 && c1 == c2
  {
    if r1 < r2 {
      MulMonotone(r1 + 1, r2, width);
      assert false;
    } else if r2 < r1 {
      MulMonotone(r2 + 1, r1, width);
      assert false;
    }
  }

  /** The output index the readback loop writes for input cell (row, col):
      same column, mirrored row. */
  function MirrorIndex(row: nat, col: nat, width: nat, height: nat): (k: nat)
    requires row < height && col < width
    ensures k < width * height
  {
    IndexInRange(MirrorRow(row, height), col, width, height);
    Index(MirrorRow(row, height), col, width)
  }

  /** The index of the cell an output index `k` is copied from. */
  function SourceIndex(k: nat, width: nat, height: nat): (s: nat)
    requires k < width * height
    ensures s < width * height
  {
    IndexSplit(k, width, height);
    MirrorIndex(k / width, k % width, width, height)
  }

  /** Over the cells of a `width` x `height` grid, `MirrorIndex` hits every
      index below `width * height`... */
  lemma MirrorIndexOnto(k: nat, width: nat, height: nat)
    requires k < width * height
    ensures width > 0
    ensures var row := MirrorRow(k / width, height);
            row < height && MirrorIndex(row, k % width, width, height) == k
  {
    IndexSplit(k, width, height);
  }

  /** ...and no index twice: the readback writes every output cell exactly
      once. */
  lemma MirrorIndexOneToOne(r1: nat, c1: nat, r2: nat, c2: nat, width: nat, height: nat)
    requires r1 < height && c1 < width && r2 < height && c2 < width
    requires MirrorIndex(r1, c1, width, height) == MirrorIndex(r2, c2, width, height)
    ensures r1 == r2 && c1 == c2
  {
    IndexInjective(MirrorRow(r1, height), c1, MirrorRow(r2, height), c2, width);
  }

  /** The grid mirrored top to bottom. */
  function MirrorRows<T>(p: seq<T>, width: nat, height: nat): (r: seq<T>)
    requires |p| == width * height
    ensures |r| == width * height
  {
    seq(width * height, k requires 0 <= k < width * height => p[SourceIndex(k, width, height)])
  }

  /** The input cell (row, col) lands at `MirrorIndex(row, col)` of the
      mirror: same column, row `height - 1 - row`. */
  lemma MirrorRowsAt<T>(p: seq<T>, width: nat, height: nat, row: nat, col: nat)
    requires |p| == width * height
    requires row < height && col < width
    ensures Index(row, col, width) < |p|
    ensures MirrorRows(p, width, height)[MirrorIndex(row, col, width, height)]
              == p[Index(row, col, width)]
  {
    IndexInRange(row, col, width, height);
    var k := MirrorIndex(row, col, width, height);
    IndexSplit(k, width, height);
    IndexInjective(k / width, k % width, MirrorRow(row, height), col, width);
  }

  /** Mirroring twice gives back the original grid. */
  lemma MirrorRowsTwice<T>(p: seq<T>, width: nat, height: nat)
    requires |p| == width * height
    ensures MirrorRows(MirrorRows(p, width, height), width, height) == p
  {
    var q := MirrorRows(MirrorRows(p, width, height), width, height);
    forall k | 0 <= k < width * height
      ensures q[k] == p[k]
    {
      IndexSplit(k, width, height);
      var row, col := k / width, k % width;
      var mirrored := MirrorRow(row, height);
      assert MirrorIndex(mirrored, col, width, height) == k;
      MirrorRowsAt(MirrorRows(p, width, height), width, height, mirrored, col);
      MirrorRowsAt(p, width, height, row, col);
    }
  }
}
