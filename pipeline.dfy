/**
 * `load_astc_buffer` and `convertToPNG`: a Base64 string holding an ASTC file becomes a
 * `data:` URI holding the decoded image as PNG. The PNG writer (`unorm8x4_array_from_astc_img`
 * followed by `stbi_write_png_to_func`) is a parameter of the model.
 */
module JsAstc {
  import opened Common
  import opened Base64
  import opened AstcContainer
  import opened BlockGrid

  const DataUriPrefix: string := "data:image/png;base64,"

  /** What the PNG writer sees of a decoded image: its size and the blocks written into it. */
  datatype Picture = Picture(sizeX: nat, sizeY: nat, sizeZ: nat, blocks: seq<BlockVisit>)

  /**
   * The image `load_astc_buffer` returns for a container that passed its checks: it has
   * the header's size and has been handed every block of the payload once, in file order,
   * each read inside the payload and each placed inside the image.
   */
  function Decoded(c: Container): (p: Picture)
    requires ValidContainer(c)
    ensures p.sizeX == c.header.sizeX && p.sizeY == c.header.sizeY && p.sizeZ == c.header.sizeZ
    ensures |p.blocks| == BlockCount(c)
    ensures forall k | 0 <= k < |p.blocks| ::
      p.blocks[k].offset == BlockBytes * k && p.blocks[k].offset + BlockBytes <= |c.blocks| &&
      p.blocks[k].block == c.blocks[p.blocks[k].offset..p.blocks[k].offset + BlockBytes]
    ensures forall k | 0 <= k < |p.blocks| ::
      p.blocks[k].origin.x < p.sizeX && p.blocks[k].origin.y < p.sizeY && p.blocks[k].origin.z < p.sizeZ
  {
    ValidIsWellSized(c);
    OffsetsContiguous(c);
    OriginsInsideImage(c);
    Picture(c.header.sizeX, c.header.sizeY, c.header.sizeZ, Visits(c))
  }

  /**
   * `load_astc_buffer`: the header checks, then `alloc_image` and the block loop.
   * `null` exactly when a check fails.
   */
  method LoadAstcBuffer(buffer: seq<byte>) returns (img: AstcImage?)
    ensures Parse(buffer).None? <==> img == null
    ensures img != null ==>
      fresh(img) &&
      Picture(img.sizeX, img.sizeY, img.sizeZ, img.writes) == Decoded(Parse(buffer).value)
  {
    var parsed := Parse(buffer);
    if parsed.None? {
      return null;
    }
    var c := parsed.value;
    ValidIsWellSized(c);
    img := new AstcImage(c.header.sizeX, c.header.sizeY, c.header.sizeZ);
    DecodeBlocks(c, img);
  }

  /**
   * `convertToPNG`: an empty result when the Base64 decoder yields nothing or the loader
   * refuses the bytes, otherwise the `data:` URI of the PNG of the decoded image, whose
   * payload decodes back to exactly that PNG.
   */
  method ConvertToPng(input: string, encodePng: Picture -> seq<byte>) returns (output: string)
    ensures Decoding(input) == [] ==> output == ""
    ensures Decoding(input) != [] && Parse(Decoding(input)).None? ==> output == ""
    ensures Decoding(input) != [] && Parse(Decoding(input)).Some? ==>
      var png := encodePng(Decoded(Parse(Decoding(input)).value));
      output == DataUriPrefix + Encoding(png) &&
      output[..|DataUriPrefix|] == DataUriPrefix &&
      Decoding(output[|DataUriPrefix|..]) == png
  {
    var astcBuffer := Decode(input);
    if |astcBuffer| == 0 {
      return "";
    }
    var astc := LoadAstcBuffer(astcBuffer);
    if astc == null {
      return "";
    }
    var png := encodePng(Picture(astc.sizeX, astc.sizeY, astc.sizeZ, astc.writes));
    var payload := Encode(png);
    output := DataUriPrefix + payload;
    assert output[|DataUriPrefix|..] == payload;
    RoundTrip(png);
  }

  /** The smallest valid file: one 4 x 4 x 1 block covering a 4 x 4 x 1 image. */
  const OneBlockHeader: seq<byte> := [0x13, 0xAB, 0xA1, 0x5C, 4, 4, 1, 4, 0, 0, 4, 0, 0, 1, 0, 0]

  /** The fields of `OneBlockHeader`. */
  lemma OneBlockHeaderFields()
    ensures OneBlockHeader[..4] == MagicBytes
    ensures ReadHeader(OneBlockHeader) == Header(4, 4, 1, 4, 4, 1)
  {
    var h := OneBlockHeader;
    assert h[..4] == [0x13, 0xAB, 0xA1, 0x5C];
    assert h[7..10] == [4, 0, 0];
    assert h[10..13] == [4, 0, 0];
    assert h[13..16] == [1, 0, 0];
    assert LittleEndian([0]) == 0;
    assert LittleEndian([0, 0]) == 0;
    assert LittleEndian([4, 0, 0]) == 4;
    assert LittleEndian([1, 0, 0]) == 1;
    assert h[4] == 4 && h[5] == 4 && h[6] == 1;
  }

  /** Any 16-byte payload after `OneBlockHeader` loads as one block written at the origin. */
  lemma OneBlockLoads(block: seq<byte>)
    requires |block| == 16
    ensures Parse(OneBlockHeader + block).Some?
    ensures Decoded(Parse(OneBlockHeader + block).value) ==
      Picture(4, 4, 1, [BlockVisit(0, Coord(0, 0, 0), block)])
  {
    var bytes := OneBlockHeader + block;
    OneBlockHeaderFields();
    assert bytes[..HeaderSize] == OneBlockHeader && bytes[HeaderSize..] == block;
    assert bytes[..4] == OneBlockHeader[..4];
    assert bytes[7..10] == OneBlockHeader[7..10] && bytes[10..13] == OneBlockHeader[10..13];
    assert bytes[13..16] == OneBlockHeader[13..16];
    assert ReadHeader(bytes) == Header(4, 4, 1, 4, 4, 1);
    assert CeilDiv(4, 4) == 1 && CeilDiv(1, 1) == 1;
    var c := Parse(bytes).value;
    assert c == Container(Header(4, 4, 1, 4, 4, 1), 1, 1, 1, block);
    assert GridCoord(c, 0) == Coord(0, 0, 0);
    assert block[0..16] == block;
    assert Visits(c)[0] == Visit(c, 0) == BlockVisit(0, Coord(0, 0, 0), block);
    assert Visits(c) == [BlockVisit(0, Coord(0, 0, 0), block)];
  }

  /** `convertToPNG` on the Base64 of a one-block file gives the URI of that block's PNG. */
  method ConvertOneBlock(block: seq<byte>, encodePng: Picture -> seq<byte>) returns (output: string)
    requires |block| == 16
    ensures output == DataUriPrefix + Encoding(encodePng(Picture(4, 4, 1, [BlockVisit(0, Coord(0, 0, 0), block)])))
  {
    RoundTrip(OneBlockHeader + block);
    OneBlockLoads(block);
    output := ConvertToPng(Encoding(OneBlockHeader + block), encodePng);
  }
}
