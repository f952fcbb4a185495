/** The length of the gradient-histogram descriptor, computed from the
    descriptor-geometry constants that configure the extractor (image size,
    cell size, cells per block, orientation bins). The constants themselves
    live in a header that is not part of this model, so they are parameters. */
module Geometry {
  import opened Arithmetic

  /** The compile-time constants of the descriptor geometry. */
  datatype HogGeometry = HogGeometry(
    imageWidth: int,
    imageHeight: int,
    pixelPerCell: int,
    cellPerBlock: int,
    orient: int)

  function Abs(a: int): nat
  {
    if a < 0 then -a else a
  }

  /** Integer division as C performs it: the quotient is truncated toward zero
      (Dafny's own `/` is Euclidean). */
  function CDiv(a: int, b: int): (q: int)
    requires b != 0
    ensures a >= 0 && b > 0 ==> q == a / b
    ensures Abs(q) * Abs(b) <= Abs(a) < (Abs(q) + 1) * Abs(b)
    ensures (a < 0) == (b < 0) ==> q >= 0
    ensures (a < 0) != (b < 0) ==> q <= 0
  {
    var m := Abs(a) / Abs(b);
    DivBounds(Abs(a), Abs(b));
    if (a < 0) == (b < 0) then m else -m
  }

  /** The descriptor length the trainer sizes its feature matrix with:
      ORIENT * CELL_PER_BLOCK^2 * (IMAGE_WIDTH / PIXEL_PER_CELL - 1)
                               * (IMAGE_HEIGHT / PIXEL_PER_CELL - 1).
      When the image spans at least one cell each way, the length is positive
      exactly when there are bins, cells per block, and at least two cells
      across and down. */
  function DescriptorDim(g: HogGeometry): (d: int)
    requires g.pixelPerCell != 0
    ensures g.pixelPerCell > 0 && g.orient >= 0
            && g.imageWidth >= g.pixelPerCell && g.imageHeight >= g.pixelPerCell
            ==> (d > 0 <==> g.orient > 0 && g.cellPerBlock != 0
                            && g.imageWidth >= 2 * g.pixelPerCell
                            && g.imageHeight >= 2 * g.pixelPerCell)
  {
    DimSign(g);
    g.orient * g.cellPerBlock * g.cellPerBlock
      * (CDiv(g.imageWidth, g.pixelPerCell) - 1)
      * (CDiv(g.imageHeight, g.pixelPerCell) - 1)
  }

  /** The sign argument behind DescriptorDim's postcondition. */
  lemma DimSign(g: HogGeometry)
    requires g.pixelPerCell != 0
    ensures var n := g.orient * g.cellPerBlock * g.cellPerBlock
                       * (CDiv(g.imageWidth, g.pixelPerCell) - 1)
                       * (CDiv(g.imageHeight, g.pixelPerCell) - 1);
            g.pixelPerCell > 0 && g.orient >= 0
            && g.imageWidth >= g.pixelPerCell && g.imageHeight >= g.pixelPerCell
            ==> (n > 0 <==> g.orient > 0 && g.cellPerBlock != 0
                            && g.imageWidth >= 2 * g.pixelPerCell
                            && g.imageHeight >= 2 * g.pixelPerCell)
  {
    if g.pixelPerCell > 0 && g.orient >= 0
       && g.imageWidth >= g.pixelPerCell && g.imageHeight >= g.pixelPerCell {
      CellsAlong(g.imageWidth, g.pixelPerCell);
      CellsAlong(g.imageHeight, g.pixelPerCell);
      ScaledSquare(g.orient, g.cellPerBlock);
      ProductPositive(g.orient * g.cellPerBlock * g.cellPerBlock,
                      CDiv(g.imageWidth, g.pixelPerCell) - 1,
                      CDiv(g.imageHeight, g.pixelPerCell) - 1);
    }
  }

  /** Number of positions of a block sliding one cell at a time along a side
      of `len` pixels: (len - blockSize) / stride + 1, with the block
      CELL_PER_BLOCK cells wide and the stride one cell, as the extractor is
      configured. */
  function BlockPositions(len: int, g: HogGeometry): int
    requires g.pixelPerCell != 0
  {
    CDiv(len - g.cellPerBlock * g.pixelPerCell, g.pixelPerCell) + 1
  }

  /** The number of values the configured extractor produces per image:
      bins per cell, times cells per block, times block positions across and down. */
  function HogDescriptorSize(g: HogGeometry): int
    requires g.pixelPerCell != 0
  {
    g.orient * g.cellPerBlock * g.cellPerBlock
      * BlockPositions(g.imageWidth, g)
      * BlockPositions(g.imageHeight, g)
  }

  /** For a well-formed geometry (block fits in the image), the trainer's
      formula equals the extractor's descriptor length if and only if a block
      is two cells wide: the trainer's `- 1` is the block-position count
      `len / cell - CELL_PER_BLOCK + 1` specialised to two-cell blocks. */
  lemma DimMatchesHogIff(g: HogGeometry)
    requires g.pixelPerCell > 0 && g.cellPerBlock > 0 && g.orient > 0
    requires g.imageWidth >= g.cellPerBlock * g.pixelPerCell
    requires g.imageHeight >= g.cellPerBlock * g.pixelPerCell
    ensures DescriptorDim(g) == HogDescriptorSize(g) <==> g.cellPerBlock == 2
  {
    var c, p := g.cellPerBlock, g.pixelPerCell;
    var a, b := CDiv(g.imageWidth, p), CDiv(g.imageHeight, p);
    ShiftedQuotient(g.imageWidth, c, p);
    ShiftedQuotient(g.imageHeight, c, p);
    assert BlockPositions(g.imageWidth, g) == a - c + 1;
    assert BlockPositions(g.imageHeight, g) == b - c + 1;
    var k := g.orient * c * c;
    ScaledSquare(g.orient, c);
    Associate(k, a - 1, b - 1);
    Associate(k, a - c + 1, b - c + 1);
    GridProductsIff(k, a, b, c);
  }

  /** The arithmetic core of DimMatchesHogIff, on the cell counts a and b. */
  lemma GridProductsIff(k: int, a: int, b: int, c: int)
    requires k > 0 && c > 0 && a >= c && b >= c
    ensures k * ((a - 1) * (b - 1)) == k * ((a - c + 1) * (b - c + 1)) <==> c == 2
  {
    var x, y := (a - 1) * (b - 1), (a - c + 1) * (b - c + 1);
    if c == 1 {
      StrictProduct(a - 1, a, b - 1, b);
      CancelFactor(k, x, y);
    } else if c != 2 {
      StrictProduct(a - c + 1, a - 1, b - c + 1, b - 1);
      CancelFactor(k, x, y);
    }
  }

  lemma Associate(k: int, x: int, y: int)
    ensures k * x * y == k * (x * y)
  {
  }

  /** Shifting the dividend by whole cells shifts the quotient by as many. */
  lemma ShiftedQuotient(len: int, c: int, p: int)
    requires p > 0 && c >= 0 && len >= c * p
    ensures CDiv(len - c * p, p) == CDiv(len, p) - c
    ensures CDiv(len, p) >= c
  {
    var q := len / p;
    DivBounds(len, p);
    MulSub(q, c, p);
    DivUnique(len - c * p, p, q - c);
    MulMono(q + 1, c, p);
  }

  /** Shrinking one non-negative factor strictly and the other weakly shrinks the product. */
  lemma StrictProduct(x1: int, x2: int, y1: int, y2: int)
    requires 0 <= x1 < x2 && 0 <= y1 <= y2 && y2 > 0
    ensures x1 * y1 < x2 * y2
  {
    MulMono(y1, y2, x1);
    MulStrict(x1, x2, y2);
    assert x1 * y1 == y1 * x1 && x1 * y2 == y2 * x1;
  }

  /** A positive factor can be cancelled from both sides of an equation. */
  lemma CancelFactor(k: int, x: int, y: int)
    requires k > 0 && x != y
    ensures k * x != k * y
  {
    MulStrict(x, y, k);
    MulStrict(y, x, k);
    assert k * x == x * k && k * y == y * k;
  }

  /** At least one cell fits along a side of `len` pixels; two fit exactly
      when the side is at least two cells long. */
  lemma CellsAlong(len: int, p: int)
    requires p > 0 && len >= p
    ensures CDiv(len, p) >= 1
    ensures CDiv(len, p) >= 2 <==> len >= 2 * p
  {
    var q := len / p;
    DivBounds(len, p);
    MulMono(2, q, p);
    MulMono(q + 1, 2, p);
    MulMono(q + 1, 1, p);
  }

  /** A product of three non-negative factors is positive exactly when each one is. */
  lemma ProductPositive(a: int, b: int, c: int)
    requires a >= 0 && b >= 0 && c >= 0
    ensures a * b * c >= 0
    ensures a * b * c > 0 <==> a > 0 && b > 0 && c > 0
  {
    assert a * b >= 0;
    assert a * b > 0 <==> a > 0 && b > 0;
  }

  /** A non-negative factor times a square is non-negative, and positive
      exactly when the factor is positive and the squared number is not zero. */
  lemma ScaledSquare(a: int, c: int)
    requires a >= 0
    ensures a * c * c >= 0
    ensures a * c * c > 0 <==> a > 0 && c != 0
  {
    assert a * c * c == a * (c * c);
    assert c * c > 0 <==> c != 0;
  }
}
