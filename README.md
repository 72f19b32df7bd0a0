# TextureMinimizer core in Dafny

TextureMinimizer shrinks the TGA textures of an Unreal project. This
project models its deterministic, integer and byte-level core and proves
properties of that model. The core has three parts:

- **The TGA codec** (`TGAHelpers.py`). `read_tga` reads the 18-byte header
  (Truevision TGA File Format Specification 2.0, fields 1 to 5) and rejects
  image types other than 2, 3, 10 and 11. It skips the image ID and reads
  the pixels: raw for types 2 and 3, run-length packets for 10 and 11.
  Grayscale is expanded to three bytes per pixel, and rows stored bottom-up
  are reversed. `read_tga_header` reads only the header. `write_tga` always
  writes an uncompressed, top-left-origin type-2 file. `UE_SOURCE_MAP` maps
  (channels, bits per pixel, alpha) to an Unreal source format.
- **The integer resamplers** (`DownscaleMethods.py`). `get_px` reads a
  clamped pixel. `nearest_downscale` and `area_downscale` fill a freshly
  allocated buffer one pixel slot at a time. The five resamplers share the
  rule for the output dimensions and the buffer allocation.
- **The size estimate** (`GetFileData.py`). `compute_new_size_bytes` gives
  the dimensions and byte count after downscaling by `2 ** (power + 1)`.
  The format lookup falls back to `TSF_BGRA8`.

Modules:

- `Bytes` (`bytes.dfy`): byte buffers and Python's slicing, short reads,
  slice assignment and joins.
- `TgaFormat` (`tga_format.dfy`): header layout, `read_tga_header`,
  `write_tga` and `UE_SOURCE_MAP`.
- `TgaDecode` (`tga_decode.dfy`): `read_tga` as a function of the file's
  bytes.
- `TgaRle` (`tga_rle.dfy`): the packet scheme, with a reference encoder as
  the decoder's partner.
- `TgaReader` (`tga_reader.dfy`): `read_tga` as the step-by-step reader it
  is. The file is a `ByteStream` object with a cursor, the packet loop is a
  `while` loop, and the row list is reversed in place in an array.
  `ByteStream.Read` is specified by `Bytes.Take` and `ByteStream.Seek` by
  `Bytes.Drop`; every other method is proved equal to a function of
  `TgaDecode`.
- `Downscale` (`downscale.dfy`): `get_px`, the shared allocation, and the
  nested loops of `nearest_downscale` and `area_downscale`. The loops are
  proved to compute `Nearest` and `Area`, which define every slot of the
  output buffer.
- `DownscaleProperties` (`downscale_props.dfy`): what the resampler outputs
  satisfy.
- `FileData` (`file_data.dfy`): `compute_new_size_bytes`, the format
  lookup, and the agreement of the estimate with the resamplers.

The output buffer is filled with Python slice assignment, and the model
keeps its semantics. A slot value that is not exactly one stride long
resizes the buffer. This happens when `has_alpha` disagrees with the pixel
width, for example a 24-bit image whose descriptor declares alpha bits. The
properties about buffer shape and contents therefore require the alpha flag
to match the stride (`Consistent`).

## Model

| member | source | states |
|---|---|---|
| Bytes.Take | TGAHelpers.py:44 | `f.read(n)` returns exactly `n` bytes when they are there, only the rest of the file near the end, and nothing past it |
| Bytes.Slice | DownscaleMethods.py:9 | a slice within bounds is the elements between its ends, and an empty range gives nothing |
| Bytes.Splice | DownscaleMethods.py:29 | slice assignment keeps the bytes before and after the slice and puts the value between them, so the length changes by the difference |
| Bytes.Repeat | TGAHelpers.py:38 | `pixel * count` is `count` times as long as the pixel |
| Bytes.Zeros | DownscaleMethods.py:21 | `bytearray(n)` is `n` zero bytes |
| Bytes.Drop | TGAHelpers.py:26 | the bytes from the cursor on are the suffix at that offset, and none once the cursor is past the end, as after `f.seek(id_len, 1)` |
| Bytes.Concat | TGAHelpers.py:66 | `bytearray().join(rows)`: the parts one after the other (definition only; its layout is stated by `Bytes.ConcatLength` and `Bytes.ConcatAt`) |
| Bytes.ConcatLength | TGAHelpers.py:66 | joining parts that all have `width` bytes gives `count * width` bytes |
| Bytes.ConcatAt | TGAHelpers.py:66 | in such a join, byte k of part p lands at `p * width + k` |
| Bytes.Fill | DownscaleMethods.py:23-29 | after the first n slice assignments `dst[idx:idx+bytes_per_pixel] = ...` with values one stride long, the buffer keeps its length and every byte from slot n on is untouched |
| Bytes.FillUniform | DownscaleMethods.py:23-29 | with stride-long values in a buffer allocated for all slots, after n writes the buffer is the first n values joined, followed by the untouched rest |
| Bytes.FillAll | DownscaleMethods.py:21-29 | when every slot has been written, the buffer is exactly the slot values joined, `new_w * new_h * stride` bytes long |
| TgaFormat.U16Bytes | TGAHelpers.py:16 | the two little-endian bytes of a u16 read back as the same value |
| TgaFormat.U16BytesOf | TGAHelpers.py:16 | any two bytes read as a u16 and written back are the same two bytes |
| TgaFormat.ParseHeader | TGAHelpers.py:6-16 | `struct.unpack("<BBBHHBHHHHBB", header)` over 18 bytes (definition only; its round trips are `TgaFormat.ParseEncodeHeader` and `TgaFormat.EncodeParseHeader`) |
| TgaFormat.DeclaresAlpha | TGAHelpers.py:21 | `pixel_depth == 32 or (image_desc & 0x0F) > 0` (definition only; `TgaFormat.DescriptorBits` ties it to the bit mask) |
| TgaFormat.OriginTop | TGAHelpers.py:22 | `(image_desc & 0x20) != 0` (definition only; `TgaFormat.DescriptorBits` ties it to the bit mask) |
| TgaFormat.DescriptorBits | TGAHelpers.py:21-22 | for the descriptor's eight bits d, alpha is declared exactly when the depth is 32 or `d & 0x0F != 0`, and the origin is at the top exactly when `d & 0x20 != 0` |
| TgaFormat.EncodeHeader | TGAHelpers.py:106-114 | the packed header is exactly 18 bytes |
| TgaFormat.ParseEncodeHeader | TGAHelpers.py:6-16 | unpacking a packed header gives every field back |
| TgaFormat.EncodeParseHeader | TGAHelpers.py:6-16 | packing any 18 unpacked bytes gives the same bytes back, so the u8,u8,u8,u16,u16,u8,u16,u16,u16,u16,u8,u8 layout covers every byte exactly once |
| TgaFormat.ReadTgaHeader | TGAHelpers.py:78-100 | it fails exactly when the file is shorter than the header, fails on the header alone exactly when the type is outside {2, 3, 10, 11}, and succeeds for every header of 18 bytes or more with a type in that set; on success `pixel_depth` is byte 16, `is_rle` holds iff the type is 10 or 11, `channels` is `pixel_depth // 8`, alpha holds iff the depth is 32 or the descriptor's low nibble is non-zero, and width and height are the little-endian u16 at offsets 12 and 14 |
| TgaFormat.WriteTga | TGAHelpers.py:103-117 | the file is the header followed by the data verbatim; the header reads back as type 2 with zero ID, colour-map and origin fields, the given size and depth, and descriptor 0x28 with alpha or 0x20 without |
| TgaFormat.UeSourceMapKeys | TGAHelpers.py:72-76 | the table has exactly the keys (1,8,False), (3,24,False) and (4,32,True) |
| TgaDecode.RleDecode | TGAHelpers.py:31-41 | `read_rle_data` only appends to what was produced, and its only failure is a missing packet header while output is still missing |
| TgaDecode.UnpackLength | TGAHelpers.py:35-40 | one packet never produces more than 128 pixels |
| TgaDecode.RleDecodeLength | TGAHelpers.py:31-41 | the packet loop only appends, stops with at least the target length, and overshoots by less than 128 pixels because the last packet is not cut |
| TgaDecode.ExpandGray | TGAHelpers.py:50-51 | the expansion is three times as long as the gray bytes, and bytes 3k, 3k+1 and 3k+2 are gray byte k |
| TgaDecode.Rows | TGAHelpers.py:64 | the row list has `height` rows |
| TgaDecode.Reverse | TGAHelpers.py:65 | the reversed list keeps its length, and element i is element `n - 1 - i` of the original |
| TgaDecode.RowAt | TGAHelpers.py:64 | row y of a buffer of `height` whole rows is bytes `y * row_bytes` up to `(y + 1) * row_bytes` |
| TgaDecode.ReversedRowAt | TGAHelpers.py:64-65 | byte x of reversed row y is byte x of stored row `height - 1 - y` |
| TgaDecode.FlippedRowsOfLength | TGAHelpers.py:62-66 | every reversed row is `row_bytes` long, and the joined result keeps the buffer's length |
| TgaDecode.FlipRows | TGAHelpers.py:62-66 | the row reversal of a buffer of exactly `height` whole rows keeps its length |
| TgaDecode.FlipRowsAt | TGAHelpers.py:62-66 | after the flip, byte x of row y is byte x of stored row `height - 1 - y`, and the length is unchanged |
| TgaDecode.FlipRowsTwice | TGAHelpers.py:62-66 | flipping the rows twice gives the buffer back |
| TgaDecode.Assemble | TGAHelpers.py:62-69 | the returned image has the header's width and height, 24 bits for grayscale and `pixel_depth // 8 * 8` otherwise, alpha only if the header declares it, the pixels untouched with the origin bit set, and the pixel count kept for whole rows |
| TgaDecode.DecodePixels | TGAHelpers.py:43-60 | reading the pixel stream never fails for the uncompressed types 2 and 3; its only failure is a missing packet header |
| TgaDecode.DecodeTga | TGAHelpers.py:4-69 | `read_tga` fails as `read_tga_header` does on a short or unsupported header; with an accepted uncompressed header it always succeeds; it succeeds only with an accepted header and then has that header's width and height; otherwise its only failure is a missing packet header |
| TgaDecode.AssembleTop | TGAHelpers.py:62-69 | with the origin bit set the pixels are returned untouched, with `bytes_per_pixel * 8` bits and the alpha flag of the header (false for grayscale) |
| TgaDecode.DecodeFromPixels | TGAHelpers.py:43-69 | a supported file whose pixel stream decodes returns that stream, assembled by the header |
| TgaDecode.DecodeRejects | TGAHelpers.py:6-19 | a file shorter than the header fails; an unsupported type fails with that type whatever follows the header, so no image ID or pixel byte is read |
| TgaDecode.DecodeAlphaAndDepth | TGAHelpers.py:21-68 | a decoded image has the header's width and height; types 2 and 10 keep the alpha rule and report `pixel_depth // 8 * 8` bits; types 3 and 11 have no alpha and report 24 bits |
| TgaDecode.DecodeUncompressed | TGAHelpers.py:25-44 | a type-2 file reads `width * height * bytes_per_pixel` bytes starting at offset `18 + id_len` |
| TgaDecode.DecodeGrayscale | TGAHelpers.py:47-53 | a type-3 image stored top row first decodes every gray byte to three equal bytes, with no alpha and 24 bits |
| TgaDecode.WriteThenRead | TGAHelpers.py:103-117 | reading back what `write_tga` wrote gives the same width, height, depth, alpha flag and data, when the depth is a whole number of bytes (`bpp % 8 == 0`), the data has `w * h * (bpp // 8)` bytes, and it is not 32-bit without alpha |
| TgaDecode.WrittenFlags | TGAHelpers.py:103-105 | the written descriptor reads back as top-left origin, with alpha exactly as written unless a 32-bit depth forces it |
| TgaRle.PacketPixelsLength | TGAHelpers.py:35-40 | a well-formed packet produces at least one pixel |
| TgaRle.DecodeOnePacket | TGAHelpers.py:33-40 | while output is still missing, one well-formed packet appends its pixels and the loop goes on after it |
| TgaRle.DecodePackets | TGAHelpers.py:31-41 | a sequence of well-formed packets that supplies exactly the missing bytes decodes to them, whatever follows in the file |
| TgaRle.RunLength | TGAHelpers.py:35-36 | (reference encoder for the run packets read here) a run has between 1 and 128 pixels, and all of them equal the first |
| TgaRle.EncodeRle | TGAHelpers.py:35-40 | (reference encoder for the packets read here; the program has no encoder) it emits well-formed packets, never more than there are pixels |
| TgaRle.EncodeRleExpand | TGAHelpers.py:35-40 | (reference encoder for the packets read here) the packets of the encoder expand to the pixels joined |
| TgaRle.FirstPacket | TGAHelpers.py:35-40 | (reference encoder for the packets read here) the first packet stands for the pixels of the first run |
| TgaRle.FirstPacketRun | TGAHelpers.py:36-38 | (reference encoder for the run packets read here) a run of two or more equal pixels is one run packet repeating that pixel |
| TgaRle.RunHeader | TGAHelpers.py:35-36 | (arithmetic step of the reference encoder for the header byte read here) a run header of n pixels has the high bit set and a count of n |
| TgaRle.FirstPacketSingle | TGAHelpers.py:39-40 | (reference encoder for the raw packets read here) a pixel unlike the next is a one-pixel raw packet |
| TgaRle.RleRoundTrip | TGAHelpers.py:31-41 | decoding the reference encoding of whole pixels gives them back exactly, whatever follows |
| TgaRle.DecodeRunLengthFile | TGAHelpers.py:43-46 | a type-10 file whose packets encode the data decodes to the data |
| TgaReader.ByteStream.constructor | TGAHelpers.py:5 | an opened file has its cursor at offset 0 |
| TgaReader.ByteStream.Read | TGAHelpers.py:34 | `f.read(n)` returns the short-read bytes at the cursor and moves the cursor past them |
| TgaReader.ByteStream.Seek | TGAHelpers.py:25-26 | `f.seek(id_len, 1)` moves the cursor forward by `id_len`, past the end if need be, so the bytes still to be read are those `id_len` further on |
| TgaReader.ReadRleData | TGAHelpers.py:31-41 | the packet loop returns exactly what `RleDecode` gives for the bytes after the cursor |
| TgaReader.ReadPacket | TGAHelpers.py:34-40 | one pass reads a header byte and its payload, produces the packet's pixels, and leaves the cursor after the payload; at the end of the file it reports that no header is left |
| TgaReader.PacketStep | TGAHelpers.py:34-40 | reading a packet at `start` leaves the rest of the stream right after its payload |
| TgaReader.ExpandGrayBytes | TGAHelpers.py:49-51 | the grayscale loop produces `ExpandGray` of the gray bytes |
| TgaReader.ReverseRows | TGAHelpers.py:65 | `rows.reverse()` in place leaves the reversed list in the array |
| TgaReader.FlipRowsInPlace | TGAHelpers.py:62-66 | cutting rows, reversing them in place and joining them gives `FlipRows` |
| TgaReader.ReadPixels | TGAHelpers.py:43-60 | the branch on the image type, with the cursor after the image ID, returns `DecodePixels` |
| TgaReader.ReadTga | TGAHelpers.py:4-69 | `read_tga` on a file returns exactly `DecodeTga` of its bytes, error cases included |
| TgaReader.BuildImage | TGAHelpers.py:62-69 | the row reversal and the returned tuple are `Assemble` of the header and pixels |
| Downscale.NewDim | DownscaleMethods.py:18-19 | `max(1, d // divisor)` is between 1 and `max(1, d)`; it is the floor of `d / divisor` when `d >= divisor` and 1 below that |
| Downscale.Allocate | DownscaleMethods.py:18-21 | the shared lines of all five resamplers (also 34-37, 65-68, 102-105, 132-135) give dimensions `max(1, d // divisor)` (so at least 1) and a zeroed buffer of `new_w * new_h * (bpp // 8)` bytes |
| Downscale.Clamp | DownscaleMethods.py:5-6 | a clamped coordinate lies in `[0, n - 1]`; it is the coordinate itself inside, 0 below and `n - 1` above |
| Downscale.PixelInBounds | DownscaleMethods.py:8-9 | a pixel inside the image lies within its `w * h * stride` bytes |
| Downscale.GetPx | DownscaleMethods.py:4-12 | `get_px` raises exactly when pixels are narrower than three bytes, and otherwise returns four channel values |
| Downscale.GetPxContents | DownscaleMethods.py:8-12 | the first three channels are the clamped pixel's first three bytes; the fourth is 255 for 3-byte pixels and the pixel's fourth byte otherwise |
| Downscale.Sample | DownscaleMethods.py:27 | `get_px` on pixels of three bytes or more gives four channels |
| Downscale.Slot | DownscaleMethods.py:29 | the bytes written are B, G, R, plus A only with alpha |
| Downscale.SlotOfSample | DownscaleMethods.py:27-29 | with a stride that matches the alpha flag, the bytes written for a source pixel are its own bytes |
| Downscale.SlotInGrid | DownscaleMethods.py:28 | the slot `(j * new_w + i) * bytes_per_pixel` of a destination pixel lies inside the buffer |
| Downscale.Sampled | DownscaleMethods.py:25-27 | each sampler computes four channels per destination pixel |
| Downscale.Cells | DownscaleMethods.py:23-24 | the loop nest produces one slot value per destination pixel |
| Downscale.SlotIndex | DownscaleMethods.py:28 | `j * new_w + i` is a slot of the grid |
| Downscale.CellAt | DownscaleMethods.py:23-29 | slot `j * new_w + i` holds destination pixel `(i, j)` |
| Downscale.CellsInOrder | DownscaleMethods.py:23-29 | the slot values are in row-major order |
| Downscale.SlotsUnique | DownscaleMethods.py:23-29 | row-major order fixes the slot table uniquely |
| Downscale.SlotTable | DownscaleMethods.py:23-29 | a row-major slot table exists for every grid |
| Downscale.CellStep | DownscaleMethods.py:28-29 | writing destination pixel `(i, j)` at its slot is the next step of the row-major fill |
| Downscale.Resample | DownscaleMethods.py:17-30 | a resampler returns a result exactly when `get_px` does not raise (pixels of three bytes or more), with dimensions `max(1, d // divisor)` |
| Downscale.ResampleResult | DownscaleMethods.py:21-30 | a buffer filled at every slot of the grid, in row-major order, is the resampler's result |
| Downscale.ResampleOfCells | DownscaleMethods.py:21-30 | the result has the shared dimensions and the allocated buffer filled with every slot |
| Downscale.CellsOfTable | DownscaleMethods.py:23-29 | any row-major slot table is the one the result is filled with |
| Downscale.NearestSourceInRange | DownscaleMethods.py:25-26 | `i * w // new_w` is a column of the source for every `i < new_w` |
| Downscale.Nearest | DownscaleMethods.py:17-30 | `nearest_downscale` returns a result exactly for pixels of three bytes or more, with dimensions `max(1, d // divisor)` |
| Downscale.NearestDownscale | DownscaleMethods.py:17-30 | the nested loops return exactly `Nearest` of the image |
| Downscale.NearestRow | DownscaleMethods.py:24-29 | one pass of the `j` loop writes the next `new_w` slots |
| Downscale.NearestPixel | DownscaleMethods.py:25-29 | one pass of the `i` loop writes the next slot |
| Downscale.NearestStep | DownscaleMethods.py:25-29 | the pixel read at `(i * w // new_w, j * h // new_h)` exists, and writing it at slot `j * new_w + i` is the next fill step |
| Downscale.RowSum | DownscaleMethods.py:141-145 | n channel values read through `get_px` sum to at most `255 * n` |
| Downscale.BlockSum | DownscaleMethods.py:141-145 | a block of m rows of width values sums to at most `255 * m * width` |
| Downscale.AreaChannel | DownscaleMethods.py:146 | each averaged channel is the block sum floor-divided by `divisor * divisor`, so it is truncated rather than rounded, and it lies in [0, 255] |
| Downscale.AreaAverage | DownscaleMethods.py:146 | the average has four channels |
| Downscale.DivBelow | DownscaleMethods.py:146 | (arithmetic step for `v // area`) floor division of a sum of at most `c * b` by `b` is at most `c` and is the floor |
| Downscale.Area | DownscaleMethods.py:131-149 | `area_downscale` returns a result exactly for pixels of three bytes or more, with dimensions `max(1, d // divisor)` |
| Downscale.AreaDownscale | DownscaleMethods.py:131-149 | the nested loops return exactly `Area` of the image |
| Downscale.AreaRow | DownscaleMethods.py:139-148 | one pass of the `j` loop writes the next `new_w` slots |
| Downscale.AreaPixel | DownscaleMethods.py:140-148 | one pass of the `i` loop writes the next slot |
| Downscale.AverageOfSums | DownscaleMethods.py:146 | `[v // area for v in acc]` over the block sums is the average |
| Downscale.AreaStep | DownscaleMethods.py:146-148 | writing the average at slot `j * new_w + i` is the next fill step |
| Downscale.AreaBlock | DownscaleMethods.py:140-145 | the `y` and `x` loops leave each channel's accumulator equal to the sum over the `divisor` by `divisor` block at `(i * divisor, j * divisor)` |
| Downscale.AreaBlockRow | DownscaleMethods.py:142-145 | one pass of the `y` loop adds one more block row to each accumulator |
| Downscale.RowSumStep | DownscaleMethods.py:143-145 | adding the pixel at column `x0 + x` extends each row sum by one column |
| Downscale.AddPixel | DownscaleMethods.py:144-145 | each accumulator grows by its channel of the pixel |
| DownscaleProperties.ResampleLayout | DownscaleMethods.py:21-29 | with a consistent stride the result has the shared dimensions, keeps the allocated length, and is the slot values joined in row-major order |
| DownscaleProperties.CellsOfStride | DownscaleMethods.py:29 | with a consistent stride every slot value is exactly one stride long |
| DownscaleProperties.ResampleSlots | DownscaleMethods.py:21-29 | the result's buffer is the join of a row-major slot table of stride-long slots |
| DownscaleProperties.JoinedSlot | DownscaleMethods.py:28-29 | in the joined slots, pixel `(i, j)` is at `(j * new_w + i) * stride` |
| DownscaleProperties.ResampledPixel | DownscaleMethods.py:28-29 | the output bytes at `(j * new_w + i) * stride` are the bytes written for pixel `(i, j)` |
| DownscaleProperties.NearestCopiesSource | DownscaleMethods.py:25-29 | destination pixel `(i, j)` is a byte-for-byte copy of source pixel `(i * w // new_w, j * h // new_h)`, which is inside the source |
| DownscaleProperties.NearestIdentity | DownscaleMethods.py:18-29 | with divisor 1 and a consistent stride, nearest returns the source size and the source's pixel bytes |
| DownscaleProperties.IdentityCell | DownscaleMethods.py:25-29 | with divisor 1, slot p of nearest is source pixel p |
| DownscaleProperties.NearestPixelOfOne | DownscaleMethods.py:25-27 | with divisor 1, nearest writes source pixel `(i, j)` to destination `(i, j)` |
| DownscaleProperties.AreaAverageOfOne | DownscaleMethods.py:140-146 | a one-by-one block averages to the pixel itself |
| DownscaleProperties.AreaOfOne | DownscaleMethods.py:136-148 | with divisor 1 area and nearest return the same result |
| DownscaleProperties.SameSlotOfOne | DownscaleMethods.py:140-148 | with divisor 1 both resamplers write the same bytes for each pixel |
| DownscaleProperties.AreaIdentity | DownscaleMethods.py:136-148 | with divisor 1 and a consistent stride, area returns the source unchanged |
| DownscaleProperties.UniformEverywhere | DownscaleMethods.py:5-6 | since coordinates are clamped, a uniform image reads its colour at any coordinates |
| DownscaleProperties.RowSumUniform | DownscaleMethods.py:144-145 | on a uniform image n values of channel k sum to `c[k] * n` |
| DownscaleProperties.BlockSumUniform | DownscaleMethods.py:141-145 | on a uniform image a block sums to `c[k]` times its pixel count |
| DownscaleProperties.BlockOfEqualRows | DownscaleMethods.py:141-145 | m rows that each sum to v make a block summing to `v * m` |
| DownscaleProperties.SampledUniform | DownscaleMethods.py:140-146 | on a uniform image both samplers compute exactly the image's colour, for any divisor |
| DownscaleProperties.ResampleUniform | DownscaleMethods.py:138-148 | with a consistent stride a uniform image downscales to its colour repeated for every destination pixel |
| FileData.Pow2 | GetFileData.py:7 | a power of two is at least 1, and even from 2 on |
| FileData.Scale | GetFileData.py:7 | the scale is at least 1 |
| FileData.ScaleDoubles | GetFileData.py:7 | each further power doubles the scale: power -1 gives 1, 0 gives 2, 1 gives 4 and 2 gives 8 |
| FileData.RleEstimate | GetFileData.py:15 | the RLE estimate is at most the base size and is the floor of seven tenths of it |
| FileData.ComputeNewSizeBytes | GetFileData.py:6-19 | new dimensions are `max(1, d // 2 ** (power + 1))`, so at least 1 and at most `max(1, d)`; the non-RLE estimate is exactly `new_width * new_height * bpp // 8`, and the RLE estimate never exceeds it |
| FileData.EstimateMatchesAllocation | GetFileData.py:7-11 | the estimated dimensions are those every resampler allocates for divisor `2 ** (power + 1)`; with whole bytes per pixel the non-RLE estimate is the allocated buffer length |
| FileData.WholeBytes | GetFileData.py:11 | (arithmetic step) with whole bytes per pixel, `w * h * bpp // 8` is `w * h * (bpp // 8)` |
| FileData.EstimateOfLayout | GetFileData.py:8-11 | a buffer of the resamplers' shape has the estimated dimensions and byte count |
| FileData.EstimateMatchesResampler | GetFileData.py:8-11 | nearest and area downscaling by `2 ** (power + 1)` produce exactly the estimated dimensions and byte count |
| FileData.UeFormat | GetFileData.py:31 | the format is a value of the table or the `TSF_BGRA8` fallback |
| FileData.UeFormatCases | GetFileData.py:31 | the format is `TSF_G8` iff the key is (1,8,False), `TSF_BGRE8` iff it is (3,24,False), and `TSF_BGRA8` for every other key |
| FileData.FormatOfHeader | GetFileData.py:31 | for an accepted header the format depends on depth and alpha alone: 8-bit without alpha is `TSF_G8`, 24-bit without alpha is `TSF_BGRE8`, anything else is `TSF_BGRA8` |

## Left out

- File handles: `open`, `f.write` and closing the file are not modelled. A
  file is its bytes, and `f.read`/`f.seek` act on a cursor over them
  (`TgaReader.ByteStream`). `write_tga` returns the bytes it would write.
- `struct.pack`/`struct.unpack` are modelled as explicit little-endian
  encoding. `TgaFormat.WriteTga` requires `w, h < 65536` and `bpp < 256`,
  where `struct.pack` would raise.
- A short read inside a run-length stream keeps going with the bytes it got.
  Only a missing packet header fails, because `ord` of an empty read raises.
  The model does the same. A truncated uncompressed file reads short in the
  same way.
- The per-channel arithmetic of `bilinear_downscale`, `bicubic_downscale` and
  `lanczos_downscale` is left out: it uses floats, `math.sin` and Python's
  `round`. Only their shared dimension and allocation lines are modelled
  (`Downscale.Allocate`).
- `Downscale.GetPx`, `Downscale.NearestDownscale` and
  `Downscale.AreaDownscale` require a non-empty image with at least
  `w * h * (bpp // 8)` bytes of data (`Fits`). On shorter data Python
  slices short, and on an empty image it indexes with -1. Those cases are
  not modelled.
- `Downscale.NearestDownscale` and `Downscale.AreaDownscale`: pixels
  narrower than three bytes make the first `get_px` raise. The model
  returns `None` before the loops, as no slot is ever written.
- `Downscale.NearestDownscale` and `Downscale.AreaDownscale` require a
  divisor of at least 1. Python raises `ZeroDivisionError` for 0.
- `Downscale.NearestStep`: `int(i * w / new_w)` divides as a float. It is
  modelled as floor division `i * w // new_w`, which it equals for
  dimensions below 65536.
- The loops of `nearest_downscale` and `area_downscale` are split into one
  method per loop level (`NearestRow`/`NearestPixel`,
  `AreaRow`/`AreaPixel`/`AreaBlock`/`AreaBlockRow`). The buffer is a
  `seq` that each slice assignment replaces; aliasing of the `bytearray` is
  not modelled.
- `FileData.RleEstimate` does not model floating point. It is the exact
  floor of `base * 7 / 10`, whereas Python multiplies by the double nearest
  0.7. For some multiples of 10 Python gets one byte less: base 90 gives 62
  rather than 63. Both values lie within the stated bound.
- `FileData.Scale` and `FileData.ComputeNewSizeBytes` require a power of at
  least -1. Below that, `2 ** (power + 1)` is a float in Python.
- `TextureMinimizer.py` is not part of this model: asset import, argument
  parsing and unique output paths on the live filesystem. The only thing
  taken from it is the divisor `2 ** (div_arg + 1)` it passes to the
  resamplers. `RegisterTextureMinimizer.py` (editor menus) is not part of
  this model either.
- The `__main__` block of `GetFileData.py` is not modelled: the file size
  on disk, the float percentage and the output string.
