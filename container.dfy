/**
 * The ASTC file container as `load_astc_buffer` reads it: a 16-byte header (the
 * little-endian magic 0x5CA1AB13, three block dimensions in texels, three 24-bit
 * little-endian image sizes in texels) followed by the compressed blocks, 16 bytes each.
 * `Parse` is the validation the loader does before it touches any block; the block
 * walk itself is in `BlockGrid`.
 */
module AstcContainer {
  import opened Common
  import opened Arithmetic

  /** `sizeof(astc_header)`. */
  const HeaderSize := 16
  /** `MAGIC_FILE_CONSTANT`. */
  const Magic := 0x5CA1AB13
  /** The magic as it appears in the file, least significant byte first. */
  const MagicBytes: seq<byte> := [0x13, 0xAB, 0xA1, 0x5C]
  /** Size of one compressed block (`physical_compressed_block`). */
  const BlockBytes := 16

  /** The decoded header fields. */
  datatype Header = Header(blockX: nat, blockY: nat, blockZ: nat, sizeX: nat, sizeY: nat, sizeZ: nat)

  /**
   * A header that passed validation, the block counts the loader derives from it, and
   * the bytes after the header (trailing bytes beyond the last block are kept).
   */
  datatype Container = Container(header: Header, xBlocks: nat, yBlocks: nat, zBlocks: nat, blocks: seq<byte>)

  function Pow256(n: nat): (r: nat)
    ensures r >= 1
  {
    if n == 0 then 1 else 0x100 * Pow256(n - 1)
  }

  /** The unsigned little-endian number in `b`: `b[0] + 256 * b[1] + 65536 * b[2] + ...`. */
  function LittleEndian(b: seq<byte>): (r: nat)
    ensures r < Pow256(|b|)
  {
    if b == [] then 0 else b[0] + 0x100 * LittleEndian(b[1..])
  }

  /** Distinct byte strings of one length are distinct numbers. */
  lemma {:induction false} LittleEndianInjective(a: seq<byte>, b: seq<byte>)
    requires |a| == |b| && LittleEndian(a) == LittleEndian(b)
    ensures a == b
  {
    if a != [] {
      DivMod(LittleEndian(a), 0x100, LittleEndian(a[1..]), a[0]);
      DivMod(LittleEndian(b), 0x100, LittleEndian(b[1..]), b[0]);
      LittleEndianInjective(a[1..], b[1..]);
      assert a == [a[0]] + a[1..] && b == [b[0]] + b[1..];
    }
  }

  /** The magic test: the four bytes are exactly those of 0x5CA1AB13, least significant first. */
  lemma MagicBytesExactly(b: seq<byte>)
    requires |b| == 4
    ensures LittleEndian(b) == Magic <==> b == MagicBytes
  {
    assert LittleEndian(MagicBytes) == Magic;
    if LittleEndian(b) == Magic {
      LittleEndianInjective(b, MagicBytes);
    }
  }

  /** A size is zero exactly when its three bytes are. */
  lemma ZeroSizeBytes(b: seq<byte>)
    requires |b| == 3
    ensures LittleEndian(b) == 0 <==> b == [0, 0, 0]
  {
    assert LittleEndian([0, 0, 0]) == 0;
    if LittleEndian(b) == 0 {
      LittleEndianInjective(b, [0, 0, 0]);
    }
  }

  /**
   * The block-dimension test, written as the negation of the loader's rejection
   * condition; its contract is the two families of legal block footprints: 3D blocks
   * with every side in 3..6, and 2D blocks (depth 1) with sides in {4, 5, 6, 8, 10, 12}.
   */
  predicate LegalBlockDims(x: nat, y: nat, z: nat): (r: bool)
    ensures r <==>
      (3 <= x <= 6 && 3 <= y <= 6 && 3 <= z <= 6) ||
      (x in {4, 5, 6, 8, 10, 12} && y in {4, 5, 6, 8, 10, 12} && z == 1)
    ensures r ==> x >= 1 && y >= 1 && z >= 1
  {
    !((x < 3 || x > 6 || y < 3 || y > 6 || z < 3 || z > 6) &&
      (x < 4 || x == 7 || x == 9 || x == 11 || x > 12 ||
       y < 4 || y == 7 || y == 9 || y == 11 || y > 12 || z != 1))
  }

  /** `(size + dim - 1) / dim`: the fewest blocks of `dim` texels that cover `size` texels. */
  function CeilDiv(size: nat, dim: nat): (r: nat)
    requires dim > 0
    ensures r * dim >= size
    ensures r == 0 || (r - 1) * dim < size
  {
    var q := (size + dim - 1) / dim;
    DivMod(size + dim - 1, dim, q, (size + dim - 1) % dim);
    q
  }

  /** The header fields at their offsets: magic 0..3, block dimensions 4..6, sizes 7..15. */
  function ReadHeader(bytes: seq<byte>): (h: Header)
    requires |bytes| >= HeaderSize
    ensures h.sizeX < 0x100_0000 && h.sizeY < 0x100_0000 && h.sizeZ < 0x100_0000
  {
    assert Pow256(3) == 0x100_0000;
    Header(bytes[4], bytes[5], bytes[6],
           LittleEndian(bytes[7..10]), LittleEndian(bytes[10..13]), LittleEndian(bytes[13..16]))
  }

  /** Number of blocks in the grid. */
  function BlockCount(c: Container): nat {
    c.xBlocks * c.yBlocks * c.zBlocks
  }

  /**
   * What the loader guarantees before its block loop: legal block dimensions, non-zero
   * 24-bit sizes, block counts that cover the image, and a payload holding every block.
   */
  predicate ValidContainer(c: Container) {
    var h := c.header;
    LegalBlockDims(h.blockX, h.blockY, h.blockZ) &&
    0 < h.sizeX < 0x100_0000 && 0 < h.sizeY < 0x100_0000 && 0 < h.sizeZ < 0x100_0000 &&
    c.xBlocks == CeilDiv(h.sizeX, h.blockX) &&
    c.yBlocks == CeilDiv(h.sizeY, h.blockY) &&
    c.zBlocks == CeilDiv(h.sizeZ, h.blockZ) &&
    |c.blocks| >= BlockBytes * BlockCount(c)
  }

  /**
   * The checks of `load_astc_buffer`, in its order, with the payload size compared in
   * mathematical integers. `None` is the loader's null return.
   */
  function Parse(bytes: seq<byte>): (r: Option<Container>)
    ensures |bytes| < HeaderSize ==> r.None?
    ensures r.Some? ==>
      bytes[..4] == MagicBytes && ValidContainer(r.value) &&
      r.value.header == ReadHeader(bytes) && r.value.blocks == bytes[HeaderSize..]
    ensures r.None? && |bytes| >= HeaderSize && bytes[..4] == MagicBytes ==>
      forall c: Container | c.header == ReadHeader(bytes) && c.blocks == bytes[HeaderSize..] :: !ValidContainer(c)
  {
    if |bytes| < HeaderSize then None
    else if LittleEndian(bytes[..4]) != Magic then
      MagicBytesExactly(bytes[..4]);
      None
    else
      MagicBytesExactly(bytes[..4]);
      var h := ReadHeader(bytes);
      if !LegalBlockDims(h.blockX, h.blockY, h.blockZ) then None
      else if h.sizeX == 0 || h.sizeY == 0 || h.sizeZ == 0 then None
      else
        var xBlocks := CeilDiv(h.sizeX, h.blockX);
        var yBlocks := CeilDiv(h.sizeY, h.blockY);
        var zBlocks := CeilDiv(h.sizeZ, h.blockZ);
        if |bytes| - HeaderSize < xBlocks * yBlocks * zBlocks * BlockBytes then None
        else Some(Container(h, xBlocks, yBlocks, zBlocks, bytes[HeaderSize..]))
  }

  // ---------------------------------------------------------------------------
  // The payload check as written: `int` arithmetic, then `size_t`
  // ---------------------------------------------------------------------------

  const Int32Modulus := 0x1_0000_0000
  const SizeTModulus := 0x1_0000_0000_0000_0000

  /**
   * `size_t bytes_to_read = xblocks * yblocks * zblocks * 16;`: the product is formed in
   * 32-bit `int` (two's-complement wrap-around) and the signed result converted to
   * `size_t`, taken here as 64 bits wide (an LP64 target), so a negative product becomes
   * a huge count. On a 32-bit target the count is the wrapped product itself; the two
   * differ only for products of 2^31 bytes or more after wrapping.
   */
  function BytesToReadAsWritten(product: int): (r: nat)
    ensures r < SizeTModulus
    ensures 0 <= product < 0x8000_0000 ==> r == product
  {
    var w := product % Int32Modulus;
    if w < 0x8000_0000 then w else SizeTModulus - Int32Modulus + w
  }

  /** `Parse` with the truncation test of line 78 as the C code computes it. */
  function ParseAsWritten(bytes: seq<byte>): (r: Option<Container>)
    ensures r.Some? ==> |bytes| >= HeaderSize && r.value.blocks == bytes[HeaderSize..]
  {
    if |bytes| < HeaderSize then None
    else if LittleEndian(bytes[..4]) != Magic then None
    else
      var h := ReadHeader(bytes);
      if !LegalBlockDims(h.blockX, h.blockY, h.blockZ) then None
      else if h.sizeX == 0 || h.sizeY == 0 || h.sizeZ == 0 then None
      else
        var xBlocks := CeilDiv(h.sizeX, h.blockX);
        var yBlocks := CeilDiv(h.sizeY, h.blockY);
        var zBlocks := CeilDiv(h.sizeZ, h.blockZ);
        if |bytes| - HeaderSize < BytesToReadAsWritten(xBlocks * yBlocks * zBlocks * BlockBytes) then None
        else Some(Container(h, xBlocks, yBlocks, zBlocks, bytes[HeaderSize..]))
  }

  /** While the byte count fits in a positive `int`, the code as written is `Parse`. */
  lemma AsWrittenAgreesWhenSmall(bytes: seq<byte>)
    requires |bytes| >= HeaderSize
    requires var h := ReadHeader(bytes);
      LegalBlockDims(h.blockX, h.blockY, h.blockZ) && h.sizeX > 0 && h.sizeY > 0 && h.sizeZ > 0 ==>
      CeilDiv(h.sizeX, h.blockX) * CeilDiv(h.sizeY, h.blockY) * CeilDiv(h.sizeZ, h.blockZ) * BlockBytes < 0x8000_0000
    ensures ParseAsWritten(bytes) == Parse(bytes)
  {
  }

  /**
   * A 65536 x 65536 x 1 image in 4 x 4 x 1 blocks: 16384 * 16384 * 1 * 16 = 2^32 wraps
   * to 0 in `int`, so the header alone, with no block at all, passes the code as written,
   * and the truncation test no longer guards the block loop's reads.
   */
  const OverflowingHeader: seq<byte> :=
    [0x13, 0xAB, 0xA1, 0x5C, 4, 4, 1, 0x00, 0x00, 0x01, 0x00, 0x00, 0x01, 0x01, 0x00, 0x00]

  lemma TruncationCheckOverflows()
    ensures ParseAsWritten(OverflowingHeader).Some?
    ensures |ParseAsWritten(OverflowingHeader).value.blocks| == 0
    ensures BlockCount(ParseAsWritten(OverflowingHeader).value) == 0x1000_0000
    ensures Parse(OverflowingHeader).None?
  {
    var h := ReadHeader(OverflowingHeader);
    assert OverflowingHeader[7..10] == [0x00, 0x00, 0x01];
    assert OverflowingHeader[10..13] == [0x00, 0x00, 0x01];
    assert OverflowingHeader[13..16] == [0x01, 0x00, 0x00];
    assert OverflowingHeader[..4] == MagicBytes;
    assert h == Header(4, 4, 1, 0x10000, 0x10000, 1);
    DivMod(0x10000 + 3, 4, 0x4000, 3);
    DivMod(1, 1, 1, 0);
    assert CeilDiv(0x10000, 4) == 0x4000;
    assert CeilDiv(1, 1) == 1;
    assert 0x4000 * 0x4000 * 1 * BlockBytes == Int32Modulus;
    assert BytesToReadAsWritten(Int32Modulus) == 0;
  }

  // ---------------------------------------------------------------------------
  // Examples of the header rules
  // ---------------------------------------------------------------------------

  lemma BlockDimsExamples()
    ensures !LegalBlockDims(2, 2, 2)
    ensures LegalBlockDims(4, 4, 1) && LegalBlockDims(6, 6, 6) && LegalBlockDims(12, 10, 1)
    ensures !LegalBlockDims(7, 4, 1) && !LegalBlockDims(8, 8, 2)
  {
  }

  lemma CeilDivExample()
    ensures CeilDiv(10, 4) == 3 && CeilDiv(8, 4) == 2
  {
    DivMod(13, 4, 3, 1);
    DivMod(11, 4, 2, 3);
  }
}
