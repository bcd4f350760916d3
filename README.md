# jsastc in Dafny

jsastc turns an ASTC texture into a PNG for JavaScript: `convertToPNG` takes the ASTC file
as a Base64 string and returns a `data:image/png;base64,` URI. This project models the
parts of `jsastc/jsastc.cpp` that decide what happens to the bytes on the way:

- **Base64 codec** (`base64::encode` and `base64::decode`), in `base64.dfy`.
  - It uses the standard alphabet and `=` padding of section 4 of RFC 4648, with no line breaks.
  - `Encoding` and `Decoding` are reference definitions that work one quantum at a time.
  - `Encode` and `Decode` are the source's loops: an iterator, a running 32-bit `temp`, and in-place appends. They are proved equal to the reference definitions.
  - Decoding gives an empty result for a length that is not a multiple of four (the first case of `Decoding`). It also gives an empty result for an illegal character and for a misplaced pad, even after earlier quanta have decoded.
  - A pad ends decoding early.
  - A pad in the third position of the last quantum returns before the fourth character is read. So that character may be anything, even an illegal one.
- **ASTC header check** (`load_astc_buffer` up to its truncation test), in `container.dfy`.
  - The 16-byte header holds the little-endian magic `0x5CA1AB13`, three block dimensions and three 24-bit little-endian sizes.
  - The block dimensions must belong to one of two legal families.
  - The sizes must be non-zero.
  - The block counts are ceiling divisions.
  - The payload must hold 16 bytes per block.
- **Block loop** (the triple loop of `load_astc_buffer`), in `grid.dfy`.
  - The image `alloc_image` creates is a class that records every block the decoder is handed. It records the block's offset, its texel origin and its 16 bytes.
  - The loop is proved to hand over exactly the blocks of the grid, each one once, in z-y-x order, at offsets 0, 16, 32, and so on.
  - Every read is proved to lie inside the payload, and every origin inside the image.
- **The façade** (`load_astc_buffer` as a whole and `convertToPNG`), in `pipeline.dfy`.
  - The PNG writer is a function parameter.
  - An empty decode or a refused file gives `""`.
  - Otherwise the result is the prefix followed by the Base64 of the PNG, and that payload decodes back to the PNG.

`common.dfy` holds the byte type and `Option`. `arithmetic.dfy` holds the facts about
multiplication and division that the proofs use.

## Model

| member | source | states |
|---|---|---|
| Base64.SymbolValue | jsastc/jsastc.cpp:182-191 | a character's value is below 64 |
| Base64.SymbolValueOfLookup | jsastc/jsastc.cpp:116-191 | the decoder's range tests map each entry of `kEncodeLookup` back to its index |
| Base64.SymbolValueInverse | jsastc/jsastc.cpp:116-191 | the range tests accept exactly the 64 table characters, and the value of each is its index in the table |
| Base64.Encode | jsastc/jsastc.cpp:121-157 | the encoder's loop and tail switch produce exactly the reference encoding |
| Base64.EncodeTail | jsastc/jsastc.cpp:139-154 | the `switch (input.size() % 3)` appends the encoding of the one or two leftover bytes, with two or one pads |
| Base64.Decode | jsastc/jsastc.cpp:159-216 | the decoder's loops, including the early returns at a pad or an illegal character, produce exactly the reference decoding |
| Base64.DecodeStep | jsastc/jsastc.cpp:180-212 | one turn of the inner loop over a quantum yields three bytes, or the pad case chosen by the distance to the end, or rejection, as `DecodeQuantum` says; `temp` stays below 2^32 |
| Base64.EncodingAppend | jsastc/jsastc.cpp:129-137 | a prefix of whole 3-byte groups encodes on its own, followed by the rest |
| Base64.EncodingLength | jsastc/jsastc.cpp:121-157 | the encoding of n bytes has 4 * ceil(n / 3) characters |
| Base64.GroupSymbolsInAlphabet | jsastc/jsastc.cpp:133-136 | every character of a full group is a data symbol |
| Base64.EncodingShape | jsastc/jsastc.cpp:129-154 | the encoding is data symbols followed by (3 - n mod 3) mod 3 pads, which is at most two |
| Base64.RoundTrip | jsastc/jsastc.cpp:121-216 | decoding the encoding of any byte sequence gives that sequence back |
| Base64.RejectsIllegalCharacter | jsastc/jsastc.cpp:161-205 | a character that is neither a data symbol nor a pad empties the result, discarding quanta already decoded, unless it is the last character and follows a pad |
| Base64.RejectsMisplacedPad | jsastc/jsastc.cpp:192-203 | a pad anywhere before the last two positions empties the result |
| Base64.DecodedLength | jsastc/jsastc.cpp:193-212 | a successful decoding has three bytes per quantum, minus two when the second-to-last character is a pad, and minus one when only the last is |
| Base64.LastCharacterIgnored | jsastc/jsastc.cpp:198-200 | when the second-to-last character is a pad, replacing the last character does not change the decoding |
| AstcContainer.LittleEndian | jsastc/jsastc.cpp:45-67 | the little-endian value of n bytes is below 256^n |
| AstcContainer.MagicBytesExactly | jsastc/jsastc.cpp:45-50 | the magic test passes exactly for the bytes 13 AB A1 5C |
| AstcContainer.ZeroSizeBytes | jsastc/jsastc.cpp:65-72 | a 24-bit size is zero exactly when its three bytes are |
| AstcContainer.LegalBlockDims | jsastc/jsastc.cpp:58-63 | the negated rejection condition holds exactly for the two legal families: 3..6 on every side, or x and y in {4, 5, 6, 8, 10, 12} with z = 1 |
| AstcContainer.CeilDiv | jsastc/jsastc.cpp:74-76 | `(size + dim - 1) / dim` is the least block count whose blocks cover `size` |
| AstcContainer.ReadHeader | jsastc/jsastc.cpp:42-67 | every size read from the header is below 2^24 |
| AstcContainer.Parse | jsastc/jsastc.cpp:34-82 | a buffer shorter than the header is refused; an accepted buffer has the magic, legal dimensions, non-zero sizes, ceiling block counts, and a payload holding every block, with trailing bytes kept; a refused buffer with the magic has no valid reading |
| AstcContainer.BytesToReadAsWritten | jsastc/jsastc.cpp:78 | the byte count computed in `int` and converted to a 64-bit `size_t` (an LP64 target) is below 2^64, and is the true product while that product is below 2^31 |
| AstcContainer.ParseAsWritten | jsastc/jsastc.cpp:34-82 | the checks with the truncation test as the C code computes it; an accepted buffer keeps everything after the header |
| AstcContainer.AsWrittenAgreesWhenSmall | jsastc/jsastc.cpp:78-82 | while 16 * xblocks * yblocks * zblocks is below 2^31, the code as written accepts exactly what `Parse` accepts |
| AstcContainer.TruncationCheckOverflows | jsastc/jsastc.cpp:78-82 | a header that declares 2^28 blocks and carries none passes the test as written, but is refused by `Parse` |
| AstcContainer.BlockDimsExamples | jsastc/jsastc.cpp:58-63 | (2,2,2), (7,4,1) and (8,8,2) are refused; (4,4,1), (6,6,6) and (12,10,1) are accepted |
| AstcContainer.CeilDivExample | jsastc/jsastc.cpp:74-76 | 10 texels in blocks of 4 take 3 blocks, and 8 take 2 |
| BlockGrid.AstcImage.constructor | jsastc/jsastc.cpp:84 | `alloc_image` gives an image of the header's size with nothing written |
| BlockGrid.AstcImage.WriteBlock | jsastc/jsastc.cpp:100-102 | decoding and writing one block appends it to what the image holds and changes nothing else |
| BlockGrid.GridIndexOfCoord | jsastc/jsastc.cpp:93-96 | loop position k of the z-y-x loop is a block of the grid, and its index is k |
| BlockGrid.GridCoordOfIndex | jsastc/jsastc.cpp:93-96 | every block of the grid has a loop position below the block count, and that position leads back to the block |
| BlockGrid.Visit | jsastc/jsastc.cpp:96-97 | the block at loop position k is read at offset 16k, inside the payload |
| BlockGrid.Visits | jsastc/jsastc.cpp:93-106 | the loop makes one visit per block of the grid |
| BlockGrid.VisitAt | jsastc/jsastc.cpp:96-102 | the body's offset `((z * yblocks + y) * xblocks + x) * 16` and origin `(x * xdim, y * ydim, z * zdim)` are those of the visit at its loop position |
| BlockGrid.DecodeBlocks | jsastc/jsastc.cpp:93-106 | the triple loop writes exactly the sequence of visits of the grid, in loop order |
| BlockGrid.DecodeRow | jsastc/jsastc.cpp:95-104 | the x loop writes exactly the visits of one row, left to right |
| BlockGrid.OffsetsContiguous | jsastc/jsastc.cpp:96-98 | the offsets are 0, 16, 32, ... in increasing order, and each 16-byte read lies in the payload and is the block handed over |
| BlockGrid.OriginsInsideImage | jsastc/jsastc.cpp:101-102 | every texel origin is strictly inside the image in each of x, y and z |
| BlockGrid.OriginInjective | jsastc/jsastc.cpp:101-102 | distinct blocks have distinct origins |
| BlockGrid.VisitedExactlyOnce | jsastc/jsastc.cpp:93-106 | every block of the grid is handed to the decoder exactly once |
| BlockGrid.LoopOrder | jsastc/jsastc.cpp:93-95 | one block comes before another exactly when it is lexicographically earlier in (z, y, x) |
| JsAstc.Decoded | jsastc/jsastc.cpp:84-110 | the loaded image has the header's sizes and receives exactly `xblocks * yblocks * zblocks` blocks; the k-th is read at byte offset 16k of the payload, that 16-byte read lies inside the payload, and its texel origin lies inside the image |
| JsAstc.LoadAstcBuffer | jsastc/jsastc.cpp:34-111 | null exactly when the checks refuse the buffer; otherwise a new image holding every block of the grid |
| JsAstc.ConvertToPng | jsastc/jsastc.cpp:231-265 | `""` when the decode is empty or the loader refuses; otherwise the prefix followed by the Base64 of the PNG, whose payload decodes back to that PNG |
| JsAstc.OneBlockHeaderFields | jsastc/jsastc.cpp:42-67 | the one-block example header carries the magic, 4x4x1 blocks and a 4x4x1 image |
| JsAstc.OneBlockLoads | jsastc/jsastc.cpp:34-106 | that header followed by 16 bytes loads as one block written at the origin |
| JsAstc.ConvertOneBlock | jsastc/jsastc.cpp:231-265 | `convertToPNG` on the Base64 of a one-block file returns the `data:` prefix followed by the Base64 of the PNG of the 4x4x1 image holding that one block at the origin |

## Left out

- Block decompression is left out because it calls into codec headers that are not part of this model. This covers `physical_to_symbolic`, `decompress_symbolic_block`, `write_imageblock`, `init_block_size_descriptor`, `prepare_angular_tables` and `build_quantization_mode_table`.
  - The image records each block it is handed, and does not record texel values.
  - The decode mode, bitness and swizzle arguments, and the image flags set at lines 85-87, are not modelled.
- The PNG writer (`unorm8x4_array_from_astc_img`, then `stbi_write_png_to_func` and `writeToVector`) is third-party code.
  - `ConvertToPng` takes it as a function parameter from the decoded image to bytes.
  - Its ignored return code `res` is not modelled.
- The `debug.png` write (lines 258-262) is file I/O, the `printf` diagnostics carry no contract, and the Emscripten bindings are host glue.
- `reserve` capacity hints are left out, including the padding count at lines 164-174 that only sizes the decoder's reservation. So are `malloc`/`free`/`memcpy`/`free_image` and pointer arithmetic. None of these changes the bytes produced.
- Base64.Encode writes the masks `(temp & 0x00FC0000) >> 18` and so on as `temp / 0x40000 % 0x40` and so on. These agree for every `temp` below 2^24, which is the only range the encoder produces.
- Base64.DecodeStep writes `temp |= v` as `temp + v`, because the shift before it leaves the low six bits zero.
- Base64.Decode takes `std::string` characters as Dafny characters. Every character outside `A-Z a-z 0-9 + / =` is illegal in both, so the signedness of `char` does not matter.
- AstcContainer.Parse computes the payload test in mathematical integers; the C code computes it in 32-bit `int` (see Findings). The other header arithmetic stays far below 2^31, because the sizes are below 2^24.
- AstcContainer.ParseAsWritten: its own contract states only the payload it keeps. What it accepts is stated by `AsWrittenAgreesWhenSmall` and `TruncationCheckOverflows`.
- The grid loop's C `int` arithmetic is not modelled for overflow. In the model the loop runs only on containers that the corrected test `Parse` accepts; in the source it runs on whatever the as-written test at line 78 lets through, and there the `int offset` of line 97 can wrap as well.
- JsAstc.LoadAstcBuffer / JsAstc.ConvertToPng: use the corrected truncation test (`AstcContainer.Parse`) of the Findings row; on a header such as `AstcContainer.OverflowingHeader` they return `null` / `""`, where `load_astc_buffer` as written goes on to `alloc_image` and the block loop.
- AstcContainer.BytesToReadAsWritten: assumes a 64-bit `size_t` (an LP64 target). On a 32-bit target such as wasm32 the count is the wrapped `int` product itself; both agree on the overflowing header, whose product wraps to 0.

## Findings

| source | as written | input that shows it | evidently intended | confidence | as-written member | corrected member |
|---|---|---|---|---|---|---|
| jsastc/jsastc.cpp:78 | `size_t bytes_to_read = xblocks * yblocks * zblocks * 16;` multiplies in 32-bit `int`, which overflows (undefined behaviour, in practice wrap-around) before the conversion to `size_t` | the header `13 AB A1 5C 04 04 01 00 00 01 00 00 01 01 00 00` alone: 16384 * 16384 * 1 * 16 = 2^32 bytes wraps to 0, so the truncation test passes and no longer guards the block loop's reads, provided `alloc_image` succeeds | refuse the file unless the payload holds 16 bytes for each of the 2^28 blocks | not executed | AstcContainer.TruncationCheckOverflows | AstcContainer.Parse |
