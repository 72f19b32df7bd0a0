/** The fixed part of a Truevision TGA file (TGA File Format Specification,
    version 2.0, fields 1 to 5): the 18-byte little-endian header, how the
    helpers read it without decoding pixels, how the writer produces it, and
    the table from (channels, bit depth, alpha) to Unreal source formats. */
module TgaFormat {
  import opened Bytes

  type u16 = x: int | 0 <= x < 0x1_0000

  const HeaderSize: nat := 18

  /** The header as `struct.unpack("<BBBHHBHHHHBB", ...)` yields it. */
  datatype Header = Header(
    idLength: byte,
    colorMapType: byte,
    imageType: byte,
    colorMapStart: u16,
    colorMapLength: u16,
    colorMapDepth: byte,
    xOrigin: u16,
    yOrigin: u16,
    width: u16,
    height: u16,
    pixelDepth: byte,
    imageDescriptor: byte)

  /** Uncompressed true-colour (2), uncompressed grayscale (3), run-length
      true-colour (10) and run-length grayscale (11). */
  predicate SupportedType(imageType: int)
  {
    imageType == 2 || imageType == 3 || imageType == 10 || imageType == 11
  }

  predicate IsGrayscale(imageType: int)
  {
    imageType == 3 || imageType == 11
  }

  predicate IsRunLength(imageType: int)
  {
    imageType == 10 || imageType == 11
  }

  /** `pixel_depth == 32 or (image_desc & 0x0F) > 0`: a 32-bit depth or a
      non-zero alpha-depth nibble in the image descriptor. */
  predicate DeclaresAlpha(hd: Header)
  {
    hd.pixelDepth == 32 || hd.imageDescriptor % 16 > 0
  }

  /** `(image_desc & 0x20) != 0`: rows are stored top row first. */
  predicate OriginTop(hd: Header)
  {
    (hd.imageDescriptor / 32) % 2 == 1
  }

  /** The two descriptor tests are Python's bit masks: for the descriptor's
      eight bits `d`, alpha is declared by a 32-bit depth or `d & 0x0F != 0`,
      and the origin is at the top exactly when `d & 0x20 != 0`. */
  lemma DescriptorBits(hd: Header, d: bv8)
    requires hd.imageDescriptor == d as int
    ensures DeclaresAlpha(hd) <==> hd.pixelDepth == 32 || d & 0x0F != 0
    ensures OriginTop(hd) <==> d & 0x20 != 0
  {
    LowNibble(d);
    BitFive(d);
  }

  lemma LowNibble(d: bv8)
    ensures (d as int) % 16 > 0 <==> d & 0x0F != 0
  {
  }

  lemma BitFive(d: bv8)
    ensures ((d as int) / 32) % 2 == 1 <==> d & 0x20 != 0
  {
  }

  function LittleEndian16(lo: byte, hi: byte): u16
  {
    lo + 256 * hi
  }

  function U16Bytes(v: u16): (b: seq<byte>)
    ensures |b| == 2 && LittleEndian16(b[0], b[1]) == v
  {
    [v % 256, v / 256]
  }

  /** `struct.unpack("<BBBHHBHHHHBB", header)` over exactly 18 bytes. */
  function ParseHeader(b: seq<byte>): Header
    requires |b| == HeaderSize
  {
    Header(b[0], b[1], b[2],
           LittleEndian16(b[3], b[4]), LittleEndian16(b[5], b[6]), b[7],
           LittleEndian16(b[8], b[9]), LittleEndian16(b[10], b[11]),
           LittleEndian16(b[12], b[13]), LittleEndian16(b[14], b[15]),
           b[16], b[17])
  }

  /** `struct.pack("<BBBHHBHHHHBB", ...)` of a header. */
  function EncodeHeader(hd: Header): (b: seq<byte>)
    ensures |b| == HeaderSize
  {
    [hd.idLength, hd.colorMapType, hd.imageType]
    + U16Bytes(hd.colorMapStart) + U16Bytes(hd.colorMapLength) + [hd.colorMapDepth]
    + U16Bytes(hd.xOrigin) + U16Bytes(hd.yOrigin)
    + U16Bytes(hd.width) + U16Bytes(hd.height)
    + [hd.pixelDepth, hd.imageDescriptor]
  }

  /** Unpacking what was packed gives the same header back. */
  lemma ParseEncodeHeader(hd: Header)
    ensures ParseHeader(EncodeHeader(hd)) == hd
  {
  }

  /** Packing what was unpacked gives the same 18 bytes back, so the layout
      neither drops nor invents a bit: u8,u8,u8,u16,u16,u8,u16,u16,u16,u16,u8,u8. */
  lemma EncodeParseHeader(b: seq<byte>)
    requires |b| == HeaderSize
    ensures EncodeHeader(ParseHeader(b)) == b
  {
    U16BytesOf(b[3], b[4]);
    U16BytesOf(b[5], b[6]);
    U16BytesOf(b[8], b[9]);
    U16BytesOf(b[10], b[11]);
    U16BytesOf(b[12], b[13]);
    U16BytesOf(b[14], b[15]);
    assert b == b[0..3] + b[3..5] + b[5..7] + [b[7]] + b[8..10] + b[10..12]
              + b[12..14] + b[14..16] + [b[16], b[17]];
  }

  lemma U16BytesOf(lo: byte, hi: byte)
    ensures U16Bytes(LittleEndian16(lo, hi)) == [lo, hi]
  {
    var v := lo + 256 * hi;
    assert v / 256 == hi;
  }

  datatype TgaError =
    | ShortHeader                  // struct.error: fewer than 18 header bytes
    | UnsupportedType(code: int)   // ValueError: image type outside {2, 3, 10, 11}
    | MissingPacketHeader          // TypeError: ord() of an empty read inside a run-length stream

  datatype Result<T> = Ok(value: T) | Err(error: TgaError)

  /** What `read_tga_header` returns. */
  datatype HeaderInfo = HeaderInfo(
    width: nat, height: nat, channels: nat, hasAlpha: bool, pixelDepth: nat, isRle: bool)

  /** `read_tga_header` over the file's bytes: only the 18-byte header is read. */
  function ReadTgaHeader(file: seq<byte>): (r: Result<HeaderInfo>)
    ensures |file| < HeaderSize <==> r == Err(ShortHeader)
    ensures |file| >= HeaderSize ==>
      var hd := ParseHeader(file[..HeaderSize]);
      && (!SupportedType(hd.imageType) <==> r == Err(UnsupportedType(hd.imageType)))
      && (SupportedType(hd.imageType) ==> r.Ok?)
      && (r.Ok? ==>
            && r.value.isRle == (hd.imageType == 10 || hd.imageType == 11)
            && r.value.channels * 8 <= hd.pixelDepth < r.value.channels * 8 + 8
            && r.value.hasAlpha == (hd.pixelDepth == 32 || hd.imageDescriptor % 16 != 0)
            && r.value.pixelDepth == file[16]
            && r.value.width == LittleEndian16(file[12], file[13])
            && r.value.height == LittleEndian16(file[14], file[15]))
  {
    if |file| < HeaderSize then Err(ShortHeader)
    else
      var hd := ParseHeader(file[..HeaderSize]);
      if !SupportedType(hd.imageType) then Err(UnsupportedType(hd.imageType))
      else Ok(HeaderInfo(hd.width, hd.height, hd.pixelDepth / 8, DeclaresAlpha(hd),
                         hd.pixelDepth, IsRunLength(hd.imageType)))
  }

  /** The descriptor `write_tga` emits: top-left origin, and an 8-bit alpha
      depth when the image has alpha. */
  function WriteDescriptor(hasAlpha: bool): byte
  {
    (if hasAlpha then 8 else 0) + 0x20
  }

  /** `write_tga`: an uncompressed true-colour header with no image ID, no
      colour map and a zero origin, followed by the pixel data verbatim. */
  function WriteTga(w: nat, h: nat, bpp: nat, hasAlpha: bool, data: seq<byte>): (file: seq<byte>)
    requires w < 0x1_0000 && h < 0x1_0000 && bpp < 256
    ensures |file| == HeaderSize + |data| && file[HeaderSize..] == data
    ensures ParseHeader(file[..HeaderSize]) ==
              Header(0, 0, 2, 0, 0, 0, 0, 0, w, h, bpp, if hasAlpha then 0x28 else 0x20)
  {
    var hd := Header(0, 0, 2, 0, 0, 0, 0, 0, w, h, bpp, WriteDescriptor(hasAlpha));
    var file := EncodeHeader(hd) + data;
    assert file[..HeaderSize] == EncodeHeader(hd);
    ParseEncodeHeader(hd);
    file
  }

  /** `UE_SOURCE_MAP`: (channels, bits per pixel, alpha) to Unreal source format. */
  const UeSourceMap: map<(int, int, bool), string> := map[
    (1, 8, false) := "TSF_G8",
    (3, 24, false) := "TSF_BGRE8",
    (4, 32, true) := "TSF_BGRA8"
  ]

  /** The table holds exactly three entries. */
  lemma UeSourceMapKeys()
    ensures UeSourceMap.Keys == {(1, 8, false), (3, 24, false), (4, 32, true)}
  {
  }
}
