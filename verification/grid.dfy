/**
 * The drawing loop of `create_image`, common to both scripts: an 8x8 grid of 30x30-pixel
 * blocks in a 240x240 image that starts black. The grid is scanned row by row; the twelve
 * corner cells of `skip_blocks` are passed over; every other cell takes the next colour of
 * the deck, while the deck lasts. A pixel buffer is indexed as PIL's `pixels[x, y]`:
 * first the column, then the row.
 */
module Grid {
  import opened Types

  const ImageSize: nat := 240
  const BlockSize: nat := 30
  const GridSize: nat := 8

  /** The cells (row, column) left out: an L of three cells in each corner. */
  const SkipBlocks: set<(int, int)> :=
    {(0, 0), (0, 1), (1, 0),
     (0, 6), (0, 7), (1, 7),
     (6, 0), (7, 0), (7, 1),
     (6, 7), (7, 6), (7, 7)}

  /** Membership in SkipBlocks, written out row by row. */
  predicate IsSkipped(y: int, x: int)
  {
    ((y == 0 || y == 7) && (x == 0 || x == 1 || x == 6 || x == 7)) ||
    ((y == 1 || y == 6) && (x == 0 || x == 7))
  }

  /** SkipBlocks has twelve distinct cells, and they are exactly those of IsSkipped. */
  lemma SkipBlocksShape()
    ensures |SkipBlocks| == 12
    ensures forall y, x :: (y, x) in SkipBlocks <==> IsSkipped(y, x)
  {
  }

  /** A cell of the grid that receives a card. */
  predicate IsActive(y: int, x: int)
  {
    0 <= y < GridSize && 0 <= x < GridSize && !IsSkipped(y, x)
  }

  /**
   * The number of active cells scanned before cell (y, x) in row-major order: the value of
   * the running `index` when the scan reaches (y, x), until the deck runs out (the index
   * then stays at the deck's length). Column 8 stands for the end of a row.
   */
  function ActiveBefore(y: nat, x: nat): (r: nat)
    requires x <= GridSize
    ensures r <= GridSize * y + x
    decreases y, x
  {
    if x > 0 then ActiveBefore(y, x - 1) + (if IsSkipped(y, x - 1) then 0 else 1)
    else if y > 0 then ActiveBefore(y - 1, GridSize)
    else 0
  }

  /** The active cells of a row: 4 in the first and last rows, 6 next to them, 8 elsewhere. */
  function ActiveInRow(y: nat): nat
  {
    if y == 0 || y == 7 then 4 else if y == 1 || y == 6 then 6 else 8
  }

  lemma RowDelta(y: nat)
    requires y < GridSize
    ensures ActiveBefore(y, GridSize) == ActiveBefore(y, 0) + ActiveInRow(y)
  {
    assert ActiveBefore(y, 8) == ActiveBefore(y, 7) + (if IsSkipped(y, 7) then 0 else 1);
    assert ActiveBefore(y, 7) == ActiveBefore(y, 6) + (if IsSkipped(y, 6) then 0 else 1);
    assert ActiveBefore(y, 6) == ActiveBefore(y, 5) + (if IsSkipped(y, 5) then 0 else 1);
    assert ActiveBefore(y, 5) == ActiveBefore(y, 4) + (if IsSkipped(y, 4) then 0 else 1);
    assert ActiveBefore(y, 4) == ActiveBefore(y, 3) + (if IsSkipped(y, 3) then 0 else 1);
    assert ActiveBefore(y, 3) == ActiveBefore(y, 2) + (if IsSkipped(y, 2) then 0 else 1);
    assert ActiveBefore(y, 2) == ActiveBefore(y, 1) + (if IsSkipped(y, 1) then 0 else 1);
  }

  lemma {:induction false} ActiveBeforeRows(y: nat)
    requires y <= GridSize
    ensures ActiveBefore(y, 0) == [0, 4, 10, 18, 26, 34, 42, 48, 52][y]
  {
    if y > 0 {
      ActiveBeforeRows(y - 1);
      RowDelta(y - 1);
    }
  }

  /** Exactly 52 of the 64 cells lie outside SkipBlocks. */
  lemma ActiveCellCount()
    ensures ActiveBefore(GridSize, 0) == 52
  {
    ActiveBeforeRows(GridSize);
  }

  /** Cell (y1, x1) comes no later than (y2, x2) in the scan; column 8 is the end of a row. */
  predicate NoLater(y1: nat, x1: nat, y2: nat, x2: nat)
  {
    y1 < y2 || (y1 == y2 && x1 <= x2)
  }

  /** The running index never goes down as the scan advances. */
  lemma {:induction false} ActiveBeforeMonotone(y1: nat, x1: nat, y2: nat, x2: nat)
    requires x1 <= GridSize && x2 <= GridSize && NoLater(y1, x1, y2, x2)
    ensures ActiveBefore(y1, x1) <= ActiveBefore(y2, x2)
    decreases y2, x2
  {
    if y1 == y2 && x1 == x2 {
    } else if x2 > 0 {
      ActiveBeforeMonotone(y1, x1, y2, x2 - 1);
    } else {
      ActiveBeforeMonotone(y1, x1, y2 - 1, GridSize);
    }
  }

  /** An active cell takes a deck position that no later cell takes. */
  lemma ActiveBeforeStrict(y1: nat, x1: nat, y2: nat, x2: nat)
    requires IsActive(y1, x1) && x2 <= GridSize && NoLater(y1, x1 + 1, y2, x2)
    ensures ActiveBefore(y1, x1) < ActiveBefore(y2, x2)
  {
    ActiveBeforeMonotone(y1, x1 + 1, y2, x2);
  }

  /** Every active cell takes one of the deck positions 0 to 51. */
  lemma ActiveBeforeBound(y: nat, x: nat)
    requires IsActive(y, x)
    ensures ActiveBefore(y, x) < 52
  {
    ActiveCellCount();
    ActiveBeforeStrict(y, x, GridSize, 0);
  }

  /** The active cells scanned before (y, x), in scan order. */
  function ActiveCells(y: nat, x: nat): seq<(nat, nat)>
    requires x <= GridSize
    decreases y, x
  {
    if x > 0 then ActiveCells(y, x - 1) + (if IsSkipped(y, x - 1) then [] else [(y, x - 1)])
    else if y > 0 then ActiveCells(y - 1, GridSize)
    else []
  }

  /** The active cells of the whole grid, in the order the deck is laid out on them. */
  function ScanOrder(): (cells: seq<(nat, nat)>)
    ensures |cells| == 52
  {
    ActiveCellsLength(GridSize, 0);
    ActiveCellCount();
    ActiveCells(GridSize, 0)
  }

  lemma {:induction false} ActiveCellsLength(y: nat, x: nat)
    requires x <= GridSize
    ensures |ActiveCells(y, x)| == ActiveBefore(y, x)
    decreases y, x
  {
    if x > 0 {
      ActiveCellsLength(y, x - 1);
    } else if y > 0 {
      ActiveCellsLength(y - 1, GridSize);
    }
  }

  /** The k-th cell listed is active and its running index is k. */
  lemma {:induction false} ActiveCellsRank(y: nat, x: nat, k: nat)
    requires x <= GridSize && NoLater(y, x, GridSize, 0) && k < |ActiveCells(y, x)|
    ensures IsActive(ActiveCells(y, x)[k].0, ActiveCells(y, x)[k].1)
    ensures ActiveBefore(ActiveCells(y, x)[k].0, ActiveCells(y, x)[k].1) == k
    decreases y, x
  {
    ActiveCellsLength(y, x);
    if x > 0 {
      var prev := ActiveCells(y, x - 1);
      ActiveCellsLength(y, x - 1);
      if k < |prev| {
        assert ActiveCells(y, x)[k] == prev[k];
        ActiveCellsRank(y, x - 1, k);
      } else {
        assert ActiveCells(y, x)[k] == (y, x - 1);
      }
    } else if y > 0 {
      ActiveCellsRank(y - 1, GridSize, k);
    }
  }

  /** Every active cell scanned before (y, x) is listed at its running index. */
  lemma {:induction false} ActiveCellsIndex(y: nat, x: nat, cy: nat, cx: nat)
    requires x <= GridSize && IsActive(cy, cx) && NoLater(cy, cx + 1, y, x)
    ensures ActiveBefore(cy, cx) < |ActiveCells(y, x)|
    ensures ActiveCells(y, x)[ActiveBefore(cy, cx)] == (cy, cx)
    decreases y, x
  {
    ActiveCellsLength(y, x);
    ActiveBeforeStrict(cy, cx, y, x);
    if x > 0 {
      var prev := ActiveCells(y, x - 1);
      ActiveCellsLength(y, x - 1);
      if cy == y && cx == x - 1 {
        assert ActiveBefore(cy, cx) == |prev|;
      } else {
        ActiveCellsIndex(y, x - 1, cy, cx);
      }
    } else {
      ActiveCellsIndex(y - 1, GridSize, cy, cx);
    }
  }

  /**
   * ScanOrder lists the 52 active cells; its k-th cell is the one the scan reaches when
   * the running index is k, and each active cell sits at its own running index.
   */
  lemma ScanOrderRanks()
    ensures |ScanOrder()| == 52
    ensures forall k :: 0 <= k < 52 ==>
      IsActive(ScanOrder()[k].0, ScanOrder()[k].1) && ActiveBefore(ScanOrder()[k].0, ScanOrder()[k].1) == k
    ensures forall y: nat, x: nat :: IsActive(y, x) ==> ActiveBefore(y, x) < 52 && ScanOrder()[ActiveBefore(y, x)] == (y, x)
  {
    ActiveCellsLength(GridSize, 0);
    ActiveCellCount();
    forall k | 0 <= k < 52
      ensures IsActive(ScanOrder()[k].0, ScanOrder()[k].1) && ActiveBefore(ScanOrder()[k].0, ScanOrder()[k].1) == k
    {
      ActiveCellsRank(GridSize, 0, k);
    }
    forall y: nat, x: nat | IsActive(y, x) ensures ActiveBefore(y, x) < 52 && ScanOrder()[ActiveBefore(y, x)] == (y, x) {
      ActiveCellsIndex(GridSize, 0, y, x);
    }
  }

  /** Two different active cells take two different deck positions. */
  lemma CellRankInjective(y1: nat, x1: nat, y2: nat, x2: nat)
    requires IsActive(y1, x1) && IsActive(y2, x2) && ActiveBefore(y1, x1) == ActiveBefore(y2, x2)
    ensures y1 == y2 && x1 == x2
  {
    ScanOrderRanks();
  }

  /** The colour the scan gives cell (y, x): the card at its running index, or black. */
  function CellColor(colors: seq<Rgb>, y: nat, x: nat): (c: Rgb)
    requires y < GridSize && x < GridSize
    ensures c == Black || c in colors
  {
    if (y, x) in SkipBlocks then Black
    else if ActiveBefore(y, x) < |colors| then colors[ActiveBefore(y, x)]
    else Black
  }

  /** The colour of pixel (px, py) once the drawing loop is over: that of its block. */
  function ImagePixel(colors: seq<Rgb>, px: nat, py: nat): (c: Rgb)
    requires px < ImageSize && py < ImageSize
    ensures c == Black || c in colors
  {
    CellColor(colors, py / BlockSize, px / BlockSize)
  }

  predicate IsImage(pixels: array2<Rgb>)
  {
    pixels.Length0 == ImageSize && pixels.Length1 == ImageSize
  }

  /** Pixel coordinate p lies in the band of block b. */
  predicate InBlock(p: int, b: int)
  {
    b * BlockSize <= p < b * BlockSize + BlockSize
  }

  /** The pixel at offset d of block b lies in the image, in block b and nowhere else. */
  lemma PixelInBlock(b: nat, d: nat)
    requires b < GridSize && d < BlockSize
    ensures b * BlockSize + d < ImageSize
    ensures InBlock(b * BlockSize + d, b) && (b * BlockSize + d) / BlockSize == b
  {
  }

  lemma BlockOfPixel(p: int, b: int)
    requires 0 <= b && InBlock(p, b)
    ensures p / BlockSize == b
  {
  }

  /** Every pixel of block (x, y) shows the colour of cell (y, x). */
  lemma BlockPixels(colors: seq<Rgb>, y: nat, x: nat)
    requires y < GridSize && x < GridSize
    ensures forall px, py :: 0 <= px < ImageSize && 0 <= py < ImageSize && InBlock(px, x) && InBlock(py, y) ==>
      ImagePixel(colors, px, py) == CellColor(colors, y, x)
  {
    forall px, py | 0 <= px < ImageSize && 0 <= py < ImageSize && InBlock(px, x) && InBlock(py, y)
      ensures ImagePixel(colors, px, py) == CellColor(colors, y, x)
    {
      BlockOfPixel(px, x);
      BlockOfPixel(py, y);
    }
  }

  function Min(a: int, b: int): int
  {
    if a < b then a else b
  }

  /** A new 'RGB' image of 240x240 pixels, all black. */
  method NewImage() returns (pixels: array2<Rgb>)
    ensures fresh(pixels) && IsImage(pixels)
    ensures forall px, py :: 0 <= px < ImageSize && 0 <= py < ImageSize ==> pixels[px, py] == Black
  {
    pixels := new Rgb[ImageSize, ImageSize]((px, py) => Black);
  }

  /**
   * The two innermost loops: paint every pixel of block (col, row) with `color`, one
   * write per pixel, and leave the rest of the image as it was.
   */
  method FillBlock(pixels: array2<Rgb>, col: nat, row: nat, color: Rgb) returns (ghost writes: nat)
    requires IsImage(pixels) && col < GridSize && row < GridSize
    modifies pixels
    ensures writes == BlockSize * BlockSize
    ensures forall px, py :: 0 <= px < ImageSize && 0 <= py < ImageSize ==>
      pixels[px, py] == if InBlock(px, col) && InBlock(py, row) then color else old(pixels[px, py])
  {
    writes := 0;
    for dy := 0 to BlockSize
      invariant writes == dy * BlockSize
      invariant forall px, py :: 0 <= px < ImageSize && 0 <= py < ImageSize ==>
        pixels[px, py] ==
          if InBlock(px, col) && row * BlockSize <= py < row * BlockSize + dy then color
          else old(pixels[px, py])
    {
      for dx := 0 to BlockSize
        invariant writes == dy * BlockSize + dx
        invariant forall px, py :: 0 <= px < ImageSize && 0 <= py < ImageSize ==>
          pixels[px, py] ==
            if (InBlock(px, col) && row * BlockSize <= py < row * BlockSize + dy)
               || (py == row * BlockSize + dy && col * BlockSize <= px < col * BlockSize + dx)
            then color
            else old(pixels[px, py])
      {
        pixels[col * BlockSize + dx, row * BlockSize + dy] := color;
        writes := writes + 1;
      }
    }
  }

  /**
   * One step of the scan, at cell (y, x) with running index `index`: a skipped cell is
   * passed over; otherwise, if the index is inside the deck, the block is painted with the
   * colour at the index and the index moves on.
   */
  method PaintCell(pixels: array2<Rgb>, colors: seq<Rgb>, y: nat, x: nat, index: nat)
    returns (next: nat, ghost writes: nat)
    requires IsImage(pixels) && y < GridSize && x < GridSize && index == Min(ActiveBefore(y, x), |colors|)
    requires forall px, py :: 0 <= px < ImageSize && 0 <= py < ImageSize && InBlock(px, x) && InBlock(py, y) ==>
      pixels[px, py] == Black
    modifies pixels
    ensures next == Min(ActiveBefore(y, x + 1), |colors|)
    ensures writes == if next > index then BlockSize * BlockSize else 0
    ensures forall px, py :: 0 <= px < ImageSize && 0 <= py < ImageSize ==>
      pixels[px, py] == if InBlock(px, x) && InBlock(py, y) then CellColor(colors, y, x) else old(pixels[px, py])
  {
    next, writes := index, 0;
    if (y, x) in SkipBlocks {
      return;
    }
    if index < |colors| {
      writes := FillBlock(pixels, x, y, colors[index]);
      next := index + 1;
    }
  }

  /**
   * The scan of `create_image`: rows y, then columns x; a cell in SkipBlocks is passed
   * over; otherwise, while the running index is inside the deck, the cell's block is
   * painted with the colour at the index, and the index moves on.
   */
  method PaintDeck(pixels: array2<Rgb>, colors: seq<Rgb>) returns (ghost writes: nat)
    requires IsImage(pixels)
    requires forall px, py :: 0 <= px < ImageSize && 0 <= py < ImageSize ==> pixels[px, py] == Black
    modifies pixels
    ensures forall px, py :: 0 <= px < ImageSize && 0 <= py < ImageSize ==>
      pixels[px, py] == ImagePixel(colors, px, py)
    ensures writes == BlockSize * BlockSize * Min(|colors|, 52)
  {
    var index := 0;
    writes := 0;
    for y := 0 to GridSize
      invariant index == Min(ActiveBefore(y, 0), |colors|)
      invariant writes == BlockSize * BlockSize * index
      invariant forall px, py :: 0 <= px < ImageSize && 0 <= py < ImageSize ==>
        pixels[px, py] == if py < y * BlockSize then ImagePixel(colors, px, py) else Black
    {
      for x := 0 to GridSize
        invariant index == Min(ActiveBefore(y, x), |colors|)
        invariant writes == BlockSize * BlockSize * index
        invariant forall px, py :: 0 <= px < ImageSize && 0 <= py < ImageSize ==>
          pixels[px, py] ==
            if py < y * BlockSize || (InBlock(py, y) && px < x * BlockSize) then ImagePixel(colors, px, py)
            else Black
      {
        BlockPixels(colors, y, x);
        ghost var w;
        index, w := PaintCell(pixels, colors, y, x, index);
        writes := writes + w;
      }
    }
    ActiveCellCount();
  }

  /** Every pixel of a block in SkipBlocks stays black. */
  lemma SkippedBlocksStayBlack(colors: seq<Rgb>, px: nat, py: nat)
    requires px < ImageSize && py < ImageSize && (py / BlockSize, px / BlockSize) in SkipBlocks
    ensures ImagePixel(colors, px, py) == Black
  {
  }

  /**
   * The k-th active cell of the scan is painted entirely with colour k of the deck, or
   * stays black when the deck has fewer than k + 1 colours.
   */
  lemma KthActiveBlock(colors: seq<Rgb>, k: nat, px: nat, py: nat)
    requires k < 52 && px < ImageSize && py < ImageSize
    requires (py / BlockSize, px / BlockSize) == ScanOrder()[k]
    ensures ImagePixel(colors, px, py) == if k < |colors| then colors[k] else Black
  {
    ScanOrderRanks();
    SkipBlocksShape();
  }

  /**
   * The top-left block is one of the skipped corners, and the first block the scan paints
   * is (0, 2), with the first colour of the deck.
   */
  lemma CornerAndFirstBlock(colors: seq<Rgb>, px: nat, py: nat)
    requires px < ImageSize && py < ImageSize
    ensures py < BlockSize && px < BlockSize ==> ImagePixel(colors, px, py) == Black
    ensures py < BlockSize && 2 * BlockSize <= px < 3 * BlockSize ==>
      ImagePixel(colors, px, py) == if 0 < |colors| then colors[0] else Black
  {
    if py < BlockSize && 2 * BlockSize <= px < 3 * BlockSize {
      assert (py / BlockSize, px / BlockSize) == (0, 2);
      assert ActiveBefore(0, 2) == 0;
    }
  }

  /**
   * With at least 52 colours, none of them black, a pixel is black exactly when its block
   * is skipped: every active block is painted.
   */
  lemma BlackExactlySkipped(colors: seq<Rgb>, px: nat, py: nat)
    requires |colors| >= 52 && forall i :: 0 <= i < |colors| ==> colors[i] != Black
    requires px < ImageSize && py < ImageSize
    ensures ImagePixel(colors, px, py) == Black <==> (py / BlockSize, px / BlockSize) in SkipBlocks
  {
    var y, x := py / BlockSize, px / BlockSize;
    SkipBlocksShape();
    if IsActive(y, x) {
      ActiveBeforeBound(y, x);
    }
  }

  /** Colours past the 52nd are never drawn: the image depends only on the first 52. */
  lemma ExtraColorsUnused(colors: seq<Rgb>, px: nat, py: nat)
    requires px < ImageSize && py < ImageSize
    ensures ImagePixel(colors, px, py) == ImagePixel(colors[..Min(|colors|, 52)], px, py)
  {
    var y, x := py / BlockSize, px / BlockSize;
    SkipBlocksShape();
    if IsActive(y, x) {
      ActiveBeforeBound(y, x);
    }
  }

  /** Every pixel is black or one of the first 52 colours of the deck. */
  lemma PixelsFromDeck(colors: seq<Rgb>, px: nat, py: nat)
    requires px < ImageSize && py < ImageSize
    ensures ImagePixel(colors, px, py) == Black || ImagePixel(colors, px, py) in colors[..Min(|colors|, 52)]
  {
    ExtraColorsUnused(colors, px, py);
  }
}
