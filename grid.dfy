/**
 * The block loop of `load_astc_buffer`: every 16-byte block of a validated container is
 * handed, with the texel origin of its footprint, to the block decoder, which writes it
 * into the image. The decoder (`physical_to_symbolic`, `decompress_symbolic_block`,
 * `write_imageblock`) is not modelled; the image records what it is handed.
 */
module BlockGrid {
  import opened Common
  import opened Arithmetic
  import opened AstcContainer

  /** A block position in the grid, or a texel position in the image. */
  datatype Coord = Coord(x: nat, y: nat, z: nat)

  /** One call of the block decoder: where the block was read, where it lands, its bytes. */
  datatype BlockVisit = BlockVisit(offset: nat, origin: Coord, block: seq<byte>)

  /**
   * The image `alloc_image` allocates and the block decoder writes into: its size in
   * texels and the blocks written so far, in order.
   */
  class AstcImage {
    const sizeX: nat
    const sizeY: nat
    const sizeZ: nat
    var writes: seq<BlockVisit>

    /** `alloc_image`: an image of the given size with nothing written yet. */
    constructor(sizeX: nat, sizeY: nat, sizeZ: nat)
      ensures this.sizeX == sizeX && this.sizeY == sizeY && this.sizeZ == sizeZ
      ensures writes == []
    {
      this.sizeX := sizeX;
      this.sizeY := sizeY;
      this.sizeZ := sizeZ;
      writes := [];
    }

    /** Decoding one block and writing its texels at `visit.origin`. */
    method WriteBlock(visit: BlockVisit)
      modifies this
      ensures writes == old(writes) + [visit]
    {
      writes := writes + [visit];
    }
  }

  predicate InGrid(c: Container, p: Coord) {
    p.x < c.xBlocks && p.y < c.yBlocks && p.z < c.zBlocks
  }

  /** Position of a block in the loop's order: z outermost, then y, then x. */
  function GridIndex(c: Container, p: Coord): nat {
    (p.z * c.yBlocks + p.y) * c.xBlocks + p.x
  }

  /** The block at position `k` of the loop's order. */
  function GridCoord(c: Container, k: nat): Coord
    requires c.xBlocks > 0 && c.yBlocks > 0
  {
    Coord(k % c.xBlocks, k / c.xBlocks % c.yBlocks, k / c.xBlocks / c.yBlocks)
  }

  /** The first texel of a block's footprint. */
  function Origin(c: Container, p: Coord): Coord {
    Coord(p.x * c.header.blockX, p.y * c.header.blockY, p.z * c.header.blockZ)
  }

  /**
   * What the block loop needs of a container: a non-empty grid and a payload holding
   * every block of it.
   */
  predicate WellSized(c: Container) {
    c.xBlocks > 0 && c.yBlocks > 0 && c.zBlocks > 0 && BlockBytes * BlockCount(c) <= |c.blocks|
  }

  /** The loader's checks give the block loop what it needs. */
  lemma ValidIsWellSized(c: Container)
    requires ValidContainer(c)
    ensures WellSized(c)
  {
  }

  /** Loop position `k` of a z-y-x loop over an `xb` by `yb` by `zb` grid lies in the grid. */
  lemma IndexToCoord(xb: int, yb: int, zb: int, k: int)
    requires xb > 0 && yb > 0 && 0 <= k < xb * yb * zb
    ensures 0 <= k / xb / yb < zb
    ensures (k / xb / yb * yb + k / xb % yb) * xb + k % xb == k
  {
    var t := k / xb;
    var z := t / yb;
    DivMod(k, xb, t, k - t * xb);
    DivMod(t, yb, z, t - z * yb);
    assert t >= 0 && z >= 0;
    if z >= zb {
      MulMono(zb, z, yb);
      MulMono(zb * yb, t, xb);
      assert false;
    }
  }

  /** The loop position of a grid block, and back. */
  lemma CoordToIndex(xb: int, yb: int, zb: int, x: int, y: int, z: int)
    requires 0 <= x < xb && 0 <= y < yb && 0 <= z < zb
    ensures 0 <= (z * yb + y) * xb + x < xb * yb * zb
    ensures var k := (z * yb + y) * xb + x;
      k % xb == x && k / xb % yb == y && k / xb / yb == z
  {
    var t := z * yb + y;
    MulMono(0, z, yb);
    MulMono(z, zb - 1, yb);
    assert (zb - 1) * yb == zb * yb - yb;
    assert 0 <= t < zb * yb;
    MulMono(0, t, xb);
    MulMono(t, zb * yb - 1, xb);
    assert (zb * yb - 1) * xb == zb * yb * xb - xb;
    assert xb * yb * zb == zb * yb * xb;
    DivMod(t * xb + x, xb, t, x);
    DivMod(t, yb, z, y);
  }

  /** The blocks of the first `z` layers and `y` rows of a grid are no more than all of them. */
  lemma PrefixBound(xb: int, yb: int, zb: int, y: int, z: int)
    requires xb >= 0 && 0 <= y <= yb && 0 <= z < zb
    ensures 0 <= (z * yb + y) * xb <= xb * yb * zb
  {
    MulMono(0, z, yb);
    MulMono(z + 1, zb, yb);
    MulMono(0, z * yb + y, xb);
    MulMono(z * yb + y, zb * yb, xb);
  }

  /** The grid positions in loop order are exactly the grid: one way round. */
  lemma GridIndexOfCoord(c: Container, k: nat)
    requires WellSized(c) && k < BlockCount(c)
    ensures InGrid(c, GridCoord(c, k)) && GridIndex(c, GridCoord(c, k)) == k
  {
    IndexToCoord(c.xBlocks, c.yBlocks, c.zBlocks, k);
  }

  /** The grid positions in loop order are exactly the grid: the other way round. */
  lemma GridCoordOfIndex(c: Container, p: Coord)
    requires WellSized(c) && InGrid(c, p)
    ensures GridIndex(c, p) < BlockCount(c)
    ensures GridCoord(c, GridIndex(c, p)) == p
  {
    CoordToIndex(c.xBlocks, c.yBlocks, c.zBlocks, p.x, p.y, p.z);
  }

  /** The block at loop position `k`, read from the payload. */
  function Visit(c: Container, k: nat): (v: BlockVisit)
    requires WellSized(c) && k < BlockCount(c)
    ensures v.offset == BlockBytes * k && v.offset + BlockBytes <= |c.blocks|
  {
    GridIndexOfCoord(c, k);
    MulMono(k + 1, BlockCount(c), BlockBytes);
    BlockVisit(BlockBytes * k, Origin(c, GridCoord(c, k)), c.blocks[BlockBytes * k..BlockBytes * k + BlockBytes])
  }

  /** What the block loop hands to the decoder, in order. */
  function Visits(c: Container): (vs: seq<BlockVisit>)
    requires WellSized(c)
    ensures |vs| == BlockCount(c)
  {
    seq(BlockCount(c), k requires 0 <= k < BlockCount(c) => Visit(c, k))
  }

  /**
   * The visit the loop body makes for the block at `(x, y, z)`, whose row starts at loop
   * position `row`.
   */
  lemma VisitAt(c: Container, x: nat, y: nat, z: nat, row: int)
    requires WellSized(c) && x < c.xBlocks && y < c.yBlocks && z < c.zBlocks
    requires row == (z * c.yBlocks + y) * c.xBlocks
    ensures row + x < |Visits(c)| && (row + x) * 16 + 16 <= |c.blocks|
    ensures Visits(c)[row + x] ==
      BlockVisit((row + x) * 16, Coord(x * c.header.blockX, y * c.header.blockY, z * c.header.blockZ),
                 c.blocks[(row + x) * 16..(row + x) * 16 + 16])
  {
    var p := Coord(x, y, z);
    GridCoordOfIndex(c, p);
    assert Visits(c)[row + x] == Visit(c, row + x);
  }

  /**
   * The number of blocks the loop visits before row `y` of layer `z`; `Prefix(c, 0, zBlocks)`
   * is all of them.
   */
  function Prefix(c: Container, y: nat, z: nat): (r: nat)
    requires WellSized(c)
    requires (z < c.zBlocks && y <= c.yBlocks) || (z == c.zBlocks && y == 0)
    ensures r == (z * c.yBlocks + y) * c.xBlocks && r <= BlockCount(c)
  {
    if z < c.zBlocks then
      PrefixBound(c.xBlocks, c.yBlocks, c.zBlocks, y, z);
      (z * c.yBlocks + y) * c.xBlocks
    else
      (z * c.yBlocks + y) * c.xBlocks
  }

  /** A row holds `xBlocks` blocks, a layer `yBlocks` rows. */
  lemma PrefixSteps(c: Container, y: nat, z: nat)
    requires WellSized(c) && y < c.yBlocks && z < c.zBlocks
    ensures Prefix(c, y + 1, z) == Prefix(c, y, z) + c.xBlocks
    ensures Prefix(c, c.yBlocks, z) == Prefix(c, 0, z + 1)
  {
  }

  /**
   * The triple loop of `load_astc_buffer`: z outer, y middle, x inner, block offset
   * `((z * yblocks + y) * xblocks + x) * 16`, texel origin `(x * xdim, y * ydim, z * zdim)`.
   * The x loop is `DecodeRow`.
   */
  method DecodeBlocks(c: Container, img: AstcImage)
    requires WellSized(c)
    modifies img
    ensures img.writes == old(img.writes) + Visits(c)
  {
    ghost var all := Visits(c);
    for z := 0 to c.zBlocks
      invariant img.writes == old(img.writes) + all[..Prefix(c, 0, z)]
    {
      for y := 0 to c.yBlocks
        invariant img.writes == old(img.writes) + all[..Prefix(c, y, z)]
      {
        DecodeRow(c, img, y, z);
        assert all[..Prefix(c, y + 1, z)] == all[..Prefix(c, y, z)] + all[Prefix(c, y, z)..Prefix(c, y + 1, z)];
      }
      PrefixSteps(c, 0, z);
    }
    assert all[..Prefix(c, 0, c.zBlocks)] == all;
  }

  /** The innermost loop of `load_astc_buffer`: the blocks of row `y` of layer `z`, left to right. */
  method DecodeRow(c: Container, img: AstcImage, y: nat, z: nat)
    requires WellSized(c) && y < c.yBlocks && z < c.zBlocks
    modifies img
    ensures img.writes == old(img.writes) + Visits(c)[Prefix(c, y, z)..Prefix(c, y + 1, z)]
  {
    var xblocks, yblocks := c.xBlocks, c.yBlocks;
    var xdim, ydim, zdim := c.header.blockX, c.header.blockY, c.header.blockZ;
    ghost var all := Visits(c);
    ghost var row := Prefix(c, y, z);
    PrefixSteps(c, y, z);
    for x := 0 to xblocks
      invariant img.writes == old(img.writes) + all[row..row + x]
    {
      VisitAt(c, x, y, z, row);
      var offset := ((z * yblocks + y) * xblocks + x) * 16;
      img.WriteBlock(BlockVisit(offset, Coord(x * xdim, y * ydim, z * zdim), c.blocks[offset..offset + 16]));
      assert all[row..row + x + 1] == all[row..row + x] + [all[row + x]];
    }
  }

  // ---------------------------------------------------------------------------
  // What the block loop guarantees
  // ---------------------------------------------------------------------------

  /**
   * The offsets are 0, 16, 32, ... in increasing order, so the blocks are read one
   * after another, and every 16-byte read lies inside the payload.
   */
  lemma OffsetsContiguous(c: Container)
    requires WellSized(c)
    ensures forall k | 0 <= k < |Visits(c)| :: Visits(c)[k].offset == BlockBytes * k
    ensures forall i, j | 0 <= i < j < |Visits(c)| :: Visits(c)[i].offset < Visits(c)[j].offset
    ensures forall k | 0 <= k < |Visits(c)| ::
      Visits(c)[k].offset + BlockBytes <= |c.blocks| &&
      Visits(c)[k].block == c.blocks[Visits(c)[k].offset..Visits(c)[k].offset + BlockBytes]
  {
    forall k | 0 <= k < |Visits(c)|
      ensures Visits(c)[k] == Visit(c, k)
    {
    }
  }

  /** Every footprint origin lies inside the image. */
  lemma OriginsInsideImage(c: Container)
    requires ValidContainer(c)
    ensures WellSized(c) && forall k | 0 <= k < |Visits(c)| ::
      Visits(c)[k].origin.x < c.header.sizeX &&
      Visits(c)[k].origin.y < c.header.sizeY &&
      Visits(c)[k].origin.z < c.header.sizeZ
  {
    var h := c.header;
    ValidIsWellSized(c);
    forall k | 0 <= k < |Visits(c)|
      ensures Visits(c)[k].origin.x < h.sizeX && Visits(c)[k].origin.y < h.sizeY && Visits(c)[k].origin.z < h.sizeZ
    {
      GridIndexOfCoord(c, k);
      var p := GridCoord(c, k);
      assert Visits(c)[k].origin == Origin(c, p);
      MulMono(p.x, c.xBlocks - 1, h.blockX);
      MulMono(p.y, c.yBlocks - 1, h.blockY);
      MulMono(p.z, c.zBlocks - 1, h.blockZ);
    }
  }

  /** Distinct blocks have distinct origins. */
  lemma OriginInjective(c: Container, p: Coord, q: Coord)
    requires ValidContainer(c) && Origin(c, p) == Origin(c, q)
    ensures p == q
  {
    var h := c.header;
    if p.x != q.x {
      MulSign(p.x - q.x, h.blockX);
    }
    if p.y != q.y {
      MulSign(p.y - q.y, h.blockY);
    }
    if p.z != q.z {
      MulSign(p.z - q.z, h.blockZ);
    }
  }

  /** Every block of the grid is handed to the decoder exactly once. */
  lemma VisitedExactlyOnce(c: Container, p: Coord)
    requires ValidContainer(c) && InGrid(c, p)
    ensures WellSized(c)
    ensures exists k | 0 <= k < |Visits(c)| :: Visits(c)[k].origin == Origin(c, p)
    ensures forall i, j | 0 <= i < |Visits(c)| && 0 <= j < |Visits(c)| &&
      Visits(c)[i].origin == Origin(c, p) && Visits(c)[j].origin == Origin(c, p) :: i == j
  {
    ValidIsWellSized(c);
    GridCoordOfIndex(c, p);
    var k := GridIndex(c, p);
    assert Visits(c)[k].origin == Origin(c, p);
    forall i, j | 0 <= i < |Visits(c)| && 0 <= j < |Visits(c)| &&
      Visits(c)[i].origin == Origin(c, p) && Visits(c)[j].origin == Origin(c, p)
      ensures i == j
    {
      GridIndexOfCoord(c, i);
      GridIndexOfCoord(c, j);
      OriginInjective(c, GridCoord(c, i), p);
      OriginInjective(c, GridCoord(c, j), p);
    }
  }

  /** Comparing `a * d + r` with `a' * d + r'` for digits `r`, `r'` below `d` is lexicographic. */
  lemma LexOrder(d: int, a: int, r: int, a': int, r': int)
    requires 0 <= r < d && 0 <= r' < d
    ensures a * d + r < a' * d + r' <==> a < a' || (a == a' && r < r')
  {
    if a < a' {
      MulMono(a + 1, a', d);
    } else if a' < a {
      MulMono(a' + 1, a, d);
    }
  }

  /** Blocks are visited z first, then y, then x: loop order is lexicographic in (z, y, x). */
  lemma LoopOrder(c: Container, p: Coord, q: Coord)
    requires WellSized(c) && InGrid(c, p) && InGrid(c, q)
    ensures GridIndex(c, p) < GridIndex(c, q) <==>
      p.z < q.z || (p.z == q.z && (p.y < q.y || (p.y == q.y && p.x < q.x)))
  {
    var xb, yb := c.xBlocks, c.yBlocks;
    var s, t := p.z * yb + p.y, q.z * yb + q.y;
    LexOrder(xb, s, p.x, t, q.x);
    LexOrder(yb, p.z, p.y, q.z, q.y);
    LexOrder(yb, q.z, q.y, p.z, p.y);
  }
}
