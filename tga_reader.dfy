/** `read_tga` as the step-by-step reader it is: a file cursor that `read`
    and `seek` move, the packet loop of `read_rle_data`, the grayscale
    expansion loop, and the in-place reversal of the row list. Each piece is
    proved to compute what the functions of TgaDecode describe, so the reader
    as a whole returns exactly `DecodeTga` of the file's bytes. */
module TgaReader {
  import opened Bytes
  import opened TgaFormat
  import opened TgaDecode

  /** An open binary file: its bytes and the cursor. The cursor may move past
      the end (a relative `seek` does not check), and reads there return
      nothing. */
  class ByteStream {
    const bytes: seq<byte>
    var pos: nat

    constructor(bytes: seq<byte>)
      ensures this.bytes == bytes && pos == 0
    {
      this.bytes := bytes;
      pos := 0;
    }

    /** The bytes a sequence of reads would still see. */
    function Rest(): seq<byte>
      reads this
    {
      Drop(bytes, pos)
    }

    /** `f.read(n)`: up to `n` bytes from the cursor, which moves past them. */
    method Read(n: nat) returns (r: seq<byte>)
      modifies this
      ensures r == Take(bytes, old(pos), n) && pos == old(pos) + |r|
    {
      r := Take(bytes, pos, n);
      pos := pos + |r|;
    }

    /** `f.seek(offset, 1)`: move the cursor forward by `offset`. */
    method Seek(offset: nat)
      modifies this
      ensures pos == old(pos) + offset
      ensures Rest() == Drop(old(Rest()), offset)
    {
      DropDrop(bytes, pos, offset);
      pos := pos + offset;
    }
  }

  /** A bound that drops with every byte read, and stays at zero past the end. */
  function Remaining(f: ByteStream): nat
    reads f
  {
    |f.Rest()|
  }

  /** `read_rle_data(bytes_per_pixel)`: packets are read from the cursor until
      `target` bytes have been produced. */
  method ReadRleData(f: ByteStream, target: nat, bpp: nat) returns (res: Result<seq<byte>>)
    modifies f
    ensures res == RleDecode(old(f.Rest()), bpp, target, [])
  {
    var data: seq<byte> := [];
    while |data| < target
      invariant RleDecode(f.Rest(), bpp, target, data) == RleDecode(old(f.Rest()), bpp, target, [])
      decreases Remaining(f)
    {
      var more, pixels := ReadPacket(f, bpp);
      if !more {
        return Err(MissingPacketHeader);
      }
      data := data + pixels;
    }
    return Ok(data);
  }

  /** One pass of the packet loop: the header byte, then one pixel repeated
      for a run packet or `(header & 0x7F) + 1` raw pixels. `more` is false
      when no header byte is left. */
  method ReadPacket(f: ByteStream, bpp: nat) returns (more: bool, pixels: seq<byte>)
    modifies f
    ensures more <==> old(f.Rest()) != []
    ensures more ==>
      var stream := old(f.Rest());
      var payload := Take(stream, 1, PayloadSize(stream[0], bpp));
      && pixels == Unpack(stream[0], payload)
      && 1 + |payload| <= |stream|
      && f.Rest() == stream[1 + |payload|..]
  {
    ghost var stream := f.Rest();
    var start := f.pos;
    var h := f.Read(1);
    if h == [] {
      return false, [];
    }
    var header := h[0];
    assert f.pos == start + 1 && f.bytes[start] == header;
    var count := header % 128 + 1;
    var payload;
    if header >= 128 {
      payload := f.Read(bpp);
      pixels := Repeat(payload, count);
    } else {
      payload := f.Read(count * bpp);
      pixels := payload;
    }
    assert payload == Take(f.bytes, start + 1, PayloadSize(header, bpp));
    PacketStep(f.bytes, start, bpp, payload);
    more := true;
  }

  /** The cursor bookkeeping of one packet read at `start`: the payload is the
      packet's payload in the remaining stream, and what remains after it is
      the stream past the packet. */
  lemma PacketStep(bytes: seq<byte>, start: nat, bpp: nat, payload: seq<byte>)
    requires start < |bytes|
    requires payload == Take(bytes, start + 1, PayloadSize(bytes[start], bpp))
    ensures var stream := Drop(bytes, start);
      && stream != [] && stream[0] == bytes[start]
      && payload == Take(stream, 1, PayloadSize(stream[0], bpp))
      && 1 + |payload| <= |stream|
      && Drop(bytes, start + 1 + |payload|) == stream[1 + |payload|..]
  {
    TakeDrop(bytes, start, 1, PayloadSize(bytes[start], bpp));
    DropDrop(bytes, start, 1 + |payload|);
  }

  /** `for g in gray_data: img_data.extend((g, g, g))`. */
  method ExpandGrayBytes(gray: seq<byte>) returns (rgb: seq<byte>)
    ensures rgb == ExpandGray(gray)
  {
    rgb := [];
    for i := 0 to |gray|
      invariant rgb == ExpandGray(gray[..i])
    {
      var g := gray[i];
      assert gray[..i + 1][..i] == gray[..i];
      rgb := rgb + [g, g, g];
    }
    assert gray[..|gray|] == gray;
  }

  /** `rows.reverse()`: the list of rows reversed in place. */
  method ReverseRows(rows: array<seq<byte>>)
    modifies rows
    ensures rows[..] == Reverse(old(rows[..]))
  {
    var n := rows.Length;
    var i := 0;
    while i < n / 2
      invariant 0 <= i <= n / 2
      invariant forall k :: 0 <= k < i ==> rows[k] == old(rows[n - 1 - k]) && rows[n - 1 - k] == old(rows[k])
      invariant forall k :: i <= k < n - i ==> rows[k] == old(rows[k])
    {
      rows[i], rows[n - 1 - i] := rows[n - 1 - i], rows[i];
      i := i + 1;
    }
  }

  /** `[img_data[y * row_bytes:(y + 1) * row_bytes] for y in range(height)]`,
      reversed in place and joined again. */
  method FlipRowsInPlace(data: seq<byte>, rowBytes: nat, height: nat) returns (flipped: seq<byte>)
    ensures flipped == FlipRows(data, rowBytes, height)
  {
    var rows := new seq<byte>[height];
    for y := 0 to height
      invariant forall k :: 0 <= k < y ==> rows[k] == Rows(data, rowBytes, height)[k]
    {
      rows[y] := Slice(data, y * rowBytes, (y + 1) * rowBytes);
    }
    assert rows[..] == Rows(data, rowBytes, height);
    ReverseRows(rows);
    flipped := Concat(rows[..]);
  }

  /** The branch of `read_tga` on the image type, with the cursor right after
      the image ID: the pixel stream before any row reversal. */
  method ReadPixels(f: ByteStream, hd: Header) returns (res: Result<seq<byte>>)
    requires SupportedType(hd.imageType) && f.pos == HeaderSize + hd.idLength
    modifies f
    ensures res == DecodePixels(f.bytes, hd)
  {
    var start := f.pos;
    var pixelCount := PixelCount(hd);
    var bytesPerPixel := hd.pixelDepth / 8;
    if hd.imageType == 2 {
      var raw := f.Read(PixelBytes(hd));
      res := Ok(raw);
    } else if hd.imageType == 10 {
      res := ReadRleData(f, PixelBytes(hd), bytesPerPixel);
    } else if hd.imageType == 3 {
      var gray := f.Read(pixelCount);
      var rgb := ExpandGrayBytes(gray);
      res := Ok(rgb);
    } else {
      var decoded := ReadRleData(f, pixelCount, 1);
      if decoded.Err? {
        return Err(decoded.error);
      }
      var rgb := ExpandGrayBytes(decoded.value);
      res := Ok(rgb);
    }
  }

  /** `read_tga` on a file holding `file`. */
  method ReadTga(file: seq<byte>) returns (res: Result<Image>)
    ensures res == DecodeTga(file)
  {
    var f := new ByteStream(file);
    var header := f.Read(HeaderSize);
    if |header| < HeaderSize {
      return Err(ShortHeader);
    }
    assert header == file[..HeaderSize];
    var hd := ParseHeader(header);
    if !SupportedType(hd.imageType) {
      return Err(UnsupportedType(hd.imageType));
    }
    if hd.idLength > 0 {
      f.Seek(hd.idLength);
    }
    var decoded := ReadPixels(f, hd);
    if decoded.Err? {
      return Err(decoded.error);
    }
    DecodeFromPixels(file, decoded.value);
    var img := BuildImage(hd, decoded.value);
    res := Ok(img);
  }

  /** The tail of `read_tga`: the alpha flag and depth it reports, and the
      row reversal for bottom-left origins. */
  method BuildImage(hd: Header, pixels: seq<byte>) returns (img: Image)
    ensures img == Assemble(hd, pixels)
  {
    var hasAlpha := DeclaresAlpha(hd);
    var originTop := OriginTop(hd);
    var bytesPerPixel := hd.pixelDepth / 8;
    if IsGrayscale(hd.imageType) {
      bytesPerPixel := 3;
      hasAlpha := false;
    }
    var imgData := pixels;
    if !originTop {
      imgData := FlipRowsInPlace(pixels, hd.width * bytesPerPixel, hd.height);
    }
    img := Image(hd.width, hd.height, bytesPerPixel * 8, hasAlpha, imgData);
  }
}
