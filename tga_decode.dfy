/** What `read_tga` computes, as functions of the file's bytes: the pixel
    streams of the four supported image types (raw or run-length, true-colour
    or grayscale), grayscale expansion to B,G,R triples, and the row reversal
    for images stored bottom row first. The imperative reader in TgaReader is
    proved to compute exactly `DecodeTga`. */
module TgaDecode {
  import opened Bytes
  import opened TgaFormat

  /** What `read_tga` returns: width, height, bits per pixel, alpha flag and
      the pixel bytes (B,G,R[,A] per pixel). */
  datatype Image = Image(width: nat, height: nat, bpp: nat, hasAlpha: bool, data: seq<byte>)

  /** The number of bytes that follow packet header `header`: one pixel for a
      run packet (high bit set), `(header & 0x7F) + 1` pixels for a raw one. */
  function PayloadSize(header: byte, bpp: nat): nat
  {
    if header >= 128 then bpp else (header % 128 + 1) * bpp
  }

  /** The bytes one packet stands for: a run packet's pixel repeated
      `(header & 0x7F) + 1` times, a raw packet's pixels verbatim. */
  function Unpack(header: byte, payload: seq<byte>): seq<byte>
  {
    if header >= 128 then Repeat(payload, header % 128 + 1) else payload
  }

  /** `read_rle_data` over the bytes from the cursor on, with `acc`
      produced so far: packets are read until at least `target` bytes have
      been produced. A packet is one header byte whose low seven bits give a
      count of one to 128; with the high bit set one pixel of `bpp` bytes
      follows and is repeated count times, otherwise count pixels follow
      verbatim. Reads near the end of the file are short, as `f.read` is; a
      packet header past the end fails. */
  function RleDecode(stream: seq<byte>, bpp: nat, target: nat, acc: seq<byte>): (r: Result<seq<byte>>)
    ensures r.Ok? ==> acc <= r.value
    ensures r.Err? ==> r == Err(MissingPacketHeader) && |acc| < target
    decreases |stream|
  {
    if |acc| >= target then Ok(acc)
    else if stream == [] then Err(MissingPacketHeader)
    else
      var payload := Take(stream, 1, PayloadSize(stream[0], bpp));
      RleDecode(stream[1 + |payload|..], bpp, target, acc + Unpack(stream[0], payload))
  }

  /** One packet, however short its payload was read, stands for at most 128
      pixels. */
  lemma UnpackLength(header: byte, payload: seq<byte>, bpp: nat)
    requires |payload| <= PayloadSize(header, bpp)
    ensures |Unpack(header, payload)| <= 128 * bpp
  {
    var count := header % 128 + 1;
    if header >= 128 {
      MulMono(count, |payload|, 128, bpp);
    } else {
      MulMono(count, bpp, 128, bpp);
    }
  }

  /** A decoded run-length stream extends what was produced before it, reaches
      the target, and overshoots it by less than one packet (128 pixels),
      because the last packet is not cut short. */
  lemma {:induction false} RleDecodeLength(stream: seq<byte>, bpp: nat, target: nat, acc: seq<byte>)
    requires RleDecode(stream, bpp, target, acc).Ok?
    ensures var out := RleDecode(stream, bpp, target, acc).value;
      && acc <= out
      && |out| >= target
      && (|acc| < target ==> |out| < target + 128 * bpp)
    decreases |stream|
  {
    if |acc| < target {
      var payload := Take(stream, 1, PayloadSize(stream[0], bpp));
      UnpackLength(stream[0], payload, bpp);
      RleDecodeLength(stream[1 + |payload|..], bpp, target, acc + Unpack(stream[0], payload));
    }
  }

  /** The grayscale loops: each gray byte `g` becomes the three bytes `g, g, g`. */
  function ExpandGray(gray: seq<byte>): (rgb: seq<byte>)
    ensures |rgb| == 3 * |gray|
    ensures forall k :: 0 <= k < |gray| ==>
              rgb[3 * k] == gray[k] && rgb[3 * k + 1] == gray[k] && rgb[3 * k + 2] == gray[k]
  {
    if gray == [] then []
    else
      var g := gray[|gray| - 1];
      ExpandGray(gray[..|gray| - 1]) + [g, g, g]
  }

  /** `[img_data[y * row_bytes:(y + 1) * row_bytes] for y in range(height)]`. */
  function Rows(data: seq<byte>, rowBytes: nat, height: nat): (rows: seq<seq<byte>>)
    ensures |rows| == height
  {
    seq(height, y requires 0 <= y < height => Slice(data, y * rowBytes, y * rowBytes + rowBytes))
  }

  /** `list.reverse()` as a value. */
  function Reverse<T>(s: seq<T>): (r: seq<T>)
    ensures |r| == |s|
    ensures forall i :: 0 <= i < |s| ==> r[i] == s[|s| - 1 - i]
  {
    if s == [] then [] else [s[|s| - 1]] + Reverse(s[..|s| - 1])
  }

  /** The row reversal applied when the origin bit is clear. */
  function FlipRows(data: seq<byte>, rowBytes: nat, height: nat): (r: seq<byte>)
    ensures |data| == height * rowBytes ==> |r| == |data|
  {
    var rows := Rows(data, rowBytes, height);
    if |data| == height * rowBytes then
      assert AllOfLength(Reverse(rows), rowBytes) by {
        forall y | 0 <= y < height ensures |Reverse(rows)[y]| == rowBytes {
          RowAt(data, rowBytes, height, height - 1 - y);
        }
      }
      ConcatLength(Reverse(rows), rowBytes);
      Concat(Reverse(rows))
    else
      Concat(Reverse(rows))
  }

  /** On a buffer of exactly `height` rows, output row `y` is stored row
      `height - 1 - y`, byte for byte. */
  lemma FlipRowsAt(data: seq<byte>, rowBytes: nat, height: nat, y: nat, x: nat)
    requires |data| == height * rowBytes
    requires y < height && x < rowBytes
    ensures |FlipRows(data, rowBytes, height)| == |data|
    ensures 0 <= (height - 1 - y) * rowBytes && (height - 1 - y) * rowBytes + x < |data|
    ensures 0 <= y * rowBytes && y * rowBytes + x < |data|
    ensures FlipRows(data, rowBytes, height)[y * rowBytes + x] == data[(height - 1 - y) * rowBytes + x]
  {
    var flipped := Reverse(Rows(data, rowBytes, height));
    FlippedRowsOfLength(data, rowBytes, height);
    ConcatAt(flipped, rowBytes, y, x);
    MulStep(y, height, rowBytes);
    ReversedRowAt(data, rowBytes, height, y, x);
  }

  /** The reversed rows are still `rowBytes` long each, so they join into a
      buffer as long as the original. */
  lemma FlippedRowsOfLength(data: seq<byte>, rowBytes: nat, height: nat)
    requires |data| == height * rowBytes
    ensures AllOfLength(Reverse(Rows(data, rowBytes, height)), rowBytes)
    ensures |FlipRows(data, rowBytes, height)| == |data|
  {
    var rows := Rows(data, rowBytes, height);
    forall y | 0 <= y < height ensures |Reverse(rows)[y]| == rowBytes {
      RowAt(data, rowBytes, height, height - 1 - y);
    }
    ConcatLength(Reverse(rows), rowBytes);
  }

  lemma ReversedRowAt(data: seq<byte>, rowBytes: nat, height: nat, y: nat, x: nat)
    requires |data| == height * rowBytes
    requires y < height && x < rowBytes
    ensures 0 <= (height - 1 - y) * rowBytes && (height - 1 - y) * rowBytes + x < |data|
    ensures Reverse(Rows(data, rowBytes, height))[y][x] == data[(height - 1 - y) * rowBytes + x]
  {
    var src := height - 1 - y;
    RowAt(data, rowBytes, height, src);
    assert Reverse(Rows(data, rowBytes, height))[y] == Rows(data, rowBytes, height)[src];
  }

  /** Row `y` of a buffer of exactly `height` rows is its `y`-th run of
      `rowBytes` bytes. */
  lemma RowAt(data: seq<byte>, rowBytes: nat, height: nat, y: nat)
    requires |data| == height * rowBytes && y < height
    ensures 0 <= y * rowBytes && y * rowBytes + rowBytes <= |data|
    ensures Rows(data, rowBytes, height)[y] == data[y * rowBytes..y * rowBytes + rowBytes]
  {
    MulStep(y, height, rowBytes);
  }


  /** Reversing the rows twice gives the buffer back. */
  lemma FlipRowsTwice(data: seq<byte>, rowBytes: nat, height: nat)
    requires |data| == height * rowBytes
    ensures FlipRows(FlipRows(data, rowBytes, height), rowBytes, height) == data
  {
    var once := FlipRows(data, rowBytes, height);
    if height > 0 && rowBytes > 0 {
      FlipRowsAt(data, rowBytes, height, 0, 0);
      FlipRowsAt(once, rowBytes, height, 0, 0);
      var twice := FlipRows(once, rowBytes, height);
      forall i | 0 <= i < |data| ensures twice[i] == data[i] {
        var y, x := Split(i, rowBytes, height);
        FlipRowsAt(once, rowBytes, height, y, x);
        FlipRowsAt(data, rowBytes, height, height - 1 - y, x);
      }
    } else {
      FlippedRowsOfLength(data, rowBytes, height);
      FlippedRowsOfLength(once, rowBytes, height);
    }
  }

  /** `width * height`. */
  function PixelCount(hd: Header): nat
  {
    hd.width * hd.height
  }

  /** `width * height * (pixel_depth // 8)`: the bytes of a true-colour image. */
  function PixelBytes(hd: Header): nat
  {
    PixelCount(hd) * (hd.pixelDepth / 8)
  }

  /** The pixel stream of a supported image type, before any row reversal:
      raw reads for types 2 and 3, packet decoding for 10 and 11, and grayscale
      expanded to three bytes per pixel for 3 and 11. */
  function DecodePixels(file: seq<byte>, hd: Header): (r: Result<seq<byte>>)
    requires SupportedType(hd.imageType)
    ensures !IsRunLength(hd.imageType) ==> r.Ok?
    ensures r.Err? ==> r == Err(MissingPacketHeader)
  {
    var start := HeaderSize + hd.idLength;
    if hd.imageType == 2 then Ok(Take(file, start, PixelBytes(hd)))
    else if hd.imageType == 10 then RleDecode(Drop(file, start), hd.pixelDepth / 8, PixelBytes(hd), [])
    else if hd.imageType == 3 then Ok(ExpandGray(Take(file, start, PixelCount(hd))))
    else
      match RleDecode(Drop(file, start), 1, PixelCount(hd), [])
      case Ok(gray) => Ok(ExpandGray(gray))
      case Err(e) => Err(e)
  }

  /** Bytes per pixel of the decoded image: 3 for grayscale, `pixel_depth // 8`
      otherwise. */
  function DecodedBytesPerPixel(hd: Header): nat
  {
    if IsGrayscale(hd.imageType) then 3 else hd.pixelDepth / 8
  }

  /** `read_tga` over the file's bytes. */
  function DecodeTga(file: seq<byte>): (r: Result<Image>)
    ensures ReadTgaHeader(file).Err? ==> r == Err(ReadTgaHeader(file).error)
    ensures ReadTgaHeader(file).Ok? && !ReadTgaHeader(file).value.isRle ==> r.Ok?
    ensures r.Ok? ==>
      && ReadTgaHeader(file).Ok?
      && r.value.width == ReadTgaHeader(file).value.width
      && r.value.height == ReadTgaHeader(file).value.height
    ensures r.Err? && ReadTgaHeader(file).Ok? ==> r == Err(MissingPacketHeader)
  {
    if |file| < HeaderSize then Err(ShortHeader)
    else
      var hd := ParseHeader(file[..HeaderSize]);
      if !SupportedType(hd.imageType) then Err(UnsupportedType(hd.imageType))
      else
        match DecodePixels(file, hd)
        case Err(e) => Err(e)
        case Ok(pixels) => Ok(Assemble(hd, pixels))
  }

  /** The image `read_tga` builds from a decoded pixel stream: alpha only for
      true-colour types, and rows reversed unless the origin bit is set. */
  function Assemble(hd: Header, pixels: seq<byte>): (img: Image)
    ensures img.width == hd.width && img.height == hd.height
    ensures img.bpp == (if IsGrayscale(hd.imageType) then 24 else hd.pixelDepth / 8 * 8)
    ensures img.hasAlpha ==> DeclaresAlpha(hd)
    ensures OriginTop(hd) ==> img.data == pixels
    ensures |pixels| == hd.width * DecodedBytesPerPixel(hd) * hd.height ==> |img.data| == |pixels|
  {
    var bytesPerPixel := DecodedBytesPerPixel(hd);
    var hasAlpha := !IsGrayscale(hd.imageType) && DeclaresAlpha(hd);
    var data := if OriginTop(hd) then pixels else FlipRows(pixels, hd.width * bytesPerPixel, hd.height);
    Image(hd.width, hd.height, bytesPerPixel * 8, hasAlpha, data)
  }

  /** Rows stored top first are kept as decoded. */
  lemma AssembleTop(hd: Header, pixels: seq<byte>)
    requires OriginTop(hd)
    ensures Assemble(hd, pixels) ==
      Image(hd.width, hd.height, DecodedBytesPerPixel(hd) * 8,
            !IsGrayscale(hd.imageType) && DeclaresAlpha(hd), pixels)
  {
  }

  /** `DecodeTga` once the pixel stream of a supported type has been decoded. */
  lemma DecodeFromPixels(file: seq<byte>, pixels: seq<byte>)
    requires |file| >= HeaderSize
    requires SupportedType(ParseHeader(file[..HeaderSize]).imageType)
    requires DecodePixels(file, ParseHeader(file[..HeaderSize])) == Ok(pixels)
    ensures DecodeTga(file) == Ok(Assemble(ParseHeader(file[..HeaderSize]), pixels))
  {
  }

  /** A file shorter than the header fails; an unsupported image type fails
      on the header alone, whatever follows it (no image ID or pixel byte is
      looked at). */
  lemma DecodeRejects(file: seq<byte>, rest: seq<byte>)
    ensures |file| < HeaderSize ==> DecodeTga(file) == Err(ShortHeader)
    ensures |file| >= HeaderSize && !SupportedType(file[2]) ==>
              DecodeTga(file) == Err(UnsupportedType(file[2])) &&
              DecodeTga(file[..HeaderSize] + rest) == DecodeTga(file)
  {
    if |file| >= HeaderSize {
      assert (file[..HeaderSize] + rest)[..HeaderSize] == file[..HeaderSize];
    }
  }

  /** Alpha flag and bit depth of a decoded image: true-colour types keep the
      header's alpha rule and `pixel_depth // 8 * 8`; grayscale types never
      have alpha and always come out as 24 bits per pixel. */
  lemma DecodeAlphaAndDepth(file: seq<byte>)
    requires DecodeTga(file).Ok?
    ensures |file| >= HeaderSize && SupportedType(file[2])
    ensures var img := DecodeTga(file).value;
      && img.width == LittleEndian16(file[12], file[13])
      && img.height == LittleEndian16(file[14], file[15])
      && (file[2] == 2 || file[2] == 10 ==>
            img.hasAlpha == (file[16] == 32 || file[17] % 16 > 0) && img.bpp == file[16] / 8 * 8)
      && (file[2] == 3 || file[2] == 11 ==> !img.hasAlpha && img.bpp == 24)
  {
  }

  /** An uncompressed true-colour image reads `width * height * (pixel_depth // 8)`
      bytes starting right after the header and the image ID, i.e. at offset
      `18 + id_len`; they are kept as they are when the origin bit is set, and
      their rows are reversed otherwise. */
  lemma DecodeUncompressed(file: seq<byte>, hd: Header)
    requires |file| >= HeaderSize && hd == ParseHeader(file[..HeaderSize]) && hd.imageType == 2
    ensures DecodeTga(file) == Ok(Assemble(hd, Take(file, HeaderSize + hd.idLength, PixelBytes(hd))))
  {
    var raw := Take(file, HeaderSize + hd.idLength, PixelBytes(hd));
    assert DecodePixels(file, hd) == Ok(raw);
    DecodeFromPixels(file, raw);
  }


  /** An uncompressed grayscale image stored top row first: every pixel is
      its gray byte three times, with no alpha and 24 bits per pixel. */
  lemma DecodeGrayscale(file: seq<byte>, hd: Header, k: nat)
    requires |file| >= HeaderSize && hd == ParseHeader(file[..HeaderSize])
    requires hd.imageType == 3 && OriginTop(hd)
    requires k < PixelCount(hd) && HeaderSize + hd.idLength + k < |file|
    ensures DecodeTga(file).Ok?
    ensures var img := DecodeTga(file).value;
      var g := file[HeaderSize + hd.idLength + k];
      && !img.hasAlpha && img.bpp == 24
      && 3 * k + 2 < |img.data|
      && img.data[3 * k] == g && img.data[3 * k + 1] == g && img.data[3 * k + 2] == g
  {
    var start := HeaderSize + hd.idLength;
    var gray := Take(file, start, PixelCount(hd));
    assert gray[k] == file[start + k];
    assert DecodePixels(file, hd) == Ok(ExpandGray(gray));
    DecodeFromPixels(file, ExpandGray(gray));
  }


  /** What `write_tga` writes, `read_tga` reads back unchanged, provided the
      bit depth is a whole number of bytes, the data holds exactly
      `w * h` pixels, and a 32-bit image is not marked alpha-free (a 32-bit
      depth always reads back as having alpha). */
  lemma WriteThenRead(w: nat, h: nat, bpp: nat, hasAlpha: bool, data: seq<byte>)
    requires w < 0x1_0000 && h < 0x1_0000 && bpp < 256
    requires bpp % 8 == 0 && |data| == w * h * (bpp / 8)
    requires !(bpp == 32 && !hasAlpha)
    ensures DecodeTga(WriteTga(w, h, bpp, hasAlpha, data)) == Ok(Image(w, h, bpp, hasAlpha, data))
  {
    var file := WriteTga(w, h, bpp, hasAlpha, data);
    var hd := ParseHeader(file[..HeaderSize]);
    WrittenFlags(hd, hasAlpha);
    assert PixelBytes(hd) == |data|;
    assert Take(file, HeaderSize, |data|) == data;
    DecodeUncompressed(file, hd);
    AssembleTop(hd, data);
    assert DecodedBytesPerPixel(hd) * 8 == bpp;
  }

  /** The descriptor `write_tga` emits marks the rows as stored top first, and
      is read back as declaring alpha exactly when it was written with alpha,
      unless a 32-bit depth declares alpha regardless. */
  lemma WrittenFlags(hd: Header, hasAlpha: bool)
    requires hd.imageDescriptor == (if hasAlpha then 0x28 else 0x20)
    requires !(hd.pixelDepth == 32 && !hasAlpha)
    ensures OriginTop(hd) && DeclaresAlpha(hd) == hasAlpha
  {
  }
}
