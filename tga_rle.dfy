/** The run-length packet scheme of image types 10 and 11 (TGA File Format
    Specification, version 2.0, field 7 for run-length images), seen from the
    encoding side: packets as the format lays them out, and a reference
    encoder. Decoding what the encoder produces gives the pixels back, which
    pins down `RleDecode` on every well-formed stream. */
module TgaRle {
  import opened Bytes
  import opened TgaFormat
  import opened TgaDecode

  /** One packet: its header byte and the bytes that follow it. */
  datatype Packet = Packet(header: byte, payload: seq<byte>)

  /** A packet whose payload is as long as its header says: one pixel for a
      run packet, `(header & 0x7F) + 1` pixels for a raw one. */
  predicate WellFormed(p: Packet, bpp: nat)
  {
    |p.payload| == PayloadSize(p.header, bpp)
  }

  predicate AllWellFormed(ps: seq<Packet>, bpp: nat)
  {
    forall i :: 0 <= i < |ps| ==> WellFormed(ps[i], bpp)
  }

  /** The pixel bytes a packet stands for. */
  function PacketPixels(p: Packet): seq<byte>
  {
    Unpack(p.header, p.payload)
  }

  /** The packets as bytes on disk. */
  function Serialize(ps: seq<Packet>): seq<byte>
  {
    if ps == [] then [] else [ps[0].header] + ps[0].payload + Serialize(ps[1..])
  }

  /** The pixel bytes a packet sequence stands for. */
  function Expand(ps: seq<Packet>): seq<byte>
  {
    if ps == [] then [] else PacketPixels(ps[0]) + Expand(ps[1..])
  }

  /** A well-formed packet stands for at least one pixel. */
  lemma PacketPixelsLength(p: Packet, bpp: nat)
    requires WellFormed(p, bpp)
    ensures |PacketPixels(p)| >= bpp
  {
    AtLeastOnce(p.header % 128 + 1, bpp);
  }

  lemma AtLeastOnce(a: nat, b: nat)
    requires a >= 1
    ensures a * b >= b
  {
  }

  /** A well-formed packet at the front of the stream, read while the target
      is not yet reached: decoding goes on with the bytes after it and with its
      pixels appended. */
  lemma DecodeOnePacket(p: Packet, rest: seq<byte>, bpp: nat, target: nat, acc: seq<byte>)
    requires WellFormed(p, bpp) && |acc| < target
    ensures RleDecode([p.header] + p.payload + rest, bpp, target, acc) ==
            RleDecode(rest, bpp, target, acc + PacketPixels(p))
  {
    var stream := [p.header] + p.payload + rest;
    assert stream[0] == p.header;
    assert Take(stream, 1, PayloadSize(p.header, bpp)) == p.payload by {
      assert stream[1..1 + |p.payload|] == p.payload;
    }
    assert stream[1 + |p.payload|..] == rest;
  }

  /** Decoding a stream of well-formed packets whose pixels make up exactly
      what is still missing yields them after whatever was produced before,
      whatever follows the packets. */
  lemma {:induction false} DecodePackets(ps: seq<Packet>, rest: seq<byte>, bpp: nat, target: nat, acc: seq<byte>)
    requires bpp >= 1 && AllWellFormed(ps, bpp)
    requires |acc| + |Expand(ps)| == target
    ensures RleDecode(Serialize(ps) + rest, bpp, target, acc) == Ok(acc + Expand(ps))
  {
    if ps != [] {
      var p, tail := ps[0], ps[1..];
      var more := Serialize(tail) + rest;
      assert Serialize(ps) + rest == [p.header] + p.payload + more by {
        assert Serialize(ps) == [p.header] + p.payload + Serialize(tail);
      }
      assert Expand(ps) == PacketPixels(p) + Expand(tail);
      assert |acc| < target by {
        PacketPixelsLength(p, bpp);
      }
      calc {
        RleDecode(Serialize(ps) + rest, bpp, target, acc);
      ==  { DecodeOnePacket(p, more, bpp, target, acc); }
        RleDecode(more, bpp, target, acc + PacketPixels(p));
      ==  { DecodePackets(tail, rest, bpp, target, acc + PacketPixels(p)); }
        Ok(acc + PacketPixels(p) + Expand(tail));
      ==  { assert acc + PacketPixels(p) + Expand(tail) == acc + Expand(ps); }
        Ok(acc + Expand(ps));
      }
    } else {
      assert acc + Expand(ps) == acc;
    }
  }

  /** The number of pixels at the front of `pixels` equal to the first, at
      least `n`, at most 128 (the longest run one packet can hold). */
  function RunLength(pixels: seq<seq<byte>>, n: nat): (r: nat)
    requires 1 <= n <= 128 && n <= |pixels|
    ensures n <= r <= 128 && r <= |pixels|
    ensures (forall i :: 0 <= i < n ==> pixels[i] == pixels[0]) ==>
              forall i :: 0 <= i < r ==> pixels[i] == pixels[0]
    decreases 128 - n
  {
    if n < 128 && n < |pixels| && pixels[n] == pixels[0] then RunLength(pixels, n + 1) else n
  }

  /** A reference encoder over a list of pixels: a run packet for every run
      of two to 128 equal pixels, a one-pixel raw packet otherwise. */
  function EncodeRle(pixels: seq<seq<byte>>, bpp: nat): (ps: seq<Packet>)
    ensures AllOfLength(pixels, bpp) ==> AllWellFormed(ps, bpp)
    ensures |ps| <= |pixels|
    decreases |pixels|
  {
    if pixels == [] then []
    else
      var n := RunLength(pixels, 1);
      var packet := if n >= 2 then Packet(127 + n, pixels[0]) else Packet(0, pixels[0]);
      [packet] + EncodeRle(pixels[n..], bpp)
  }

  /** The packets of the reference encoder stand for exactly the pixels it
      was given, in order. */
  lemma {:induction false} EncodeRleExpand(pixels: seq<seq<byte>>, bpp: nat)
    ensures Expand(EncodeRle(pixels, bpp)) == Concat(pixels)
    decreases |pixels|
  {
    if pixels != [] {
      var n := RunLength(pixels, 1);
      var pixel := pixels[0];
      var rest := pixels[n..];
      var ps := EncodeRle(pixels, bpp);
      FirstPacket(pixels, bpp);
      calc {
        Expand(ps);
      ==  { assert ps[1..] == EncodeRle(rest, bpp); }
        PacketPixels(ps[0]) + Expand(EncodeRle(rest, bpp));
      ==  { EncodeRleExpand(rest, bpp); }
        Concat(pixels[..n]) + Concat(rest);
      ==  { ConcatSplit(pixels, n); }
        Concat(pixels);
      }
    }
  }

  /** The encoder's first packet stands for the run at the front. */
  lemma FirstPacket(pixels: seq<seq<byte>>, bpp: nat)
    requires pixels != []
    ensures var n := RunLength(pixels, 1);
      PacketPixels(EncodeRle(pixels, bpp)[0]) == Concat(pixels[..n])
  {
    if RunLength(pixels, 1) >= 2 {
      FirstPacketRun(pixels, bpp);
    } else {
      FirstPacketSingle(pixels, bpp);
    }
  }

  /** A run of two or more equal pixels becomes one run packet. */
  lemma FirstPacketRun(pixels: seq<seq<byte>>, bpp: nat)
    requires pixels != [] && RunLength(pixels, 1) >= 2
    ensures var n := RunLength(pixels, 1);
      PacketPixels(EncodeRle(pixels, bpp)[0]) == Concat(pixels[..n])
  {
    var n := RunLength(pixels, 1);
    var pixel := pixels[0];
    var packet := EncodeRle(pixels, bpp)[0];
    assert packet == Packet(127 + n, pixel);
    RunHeader(n);
    assert PacketPixels(packet) == Repeat(pixel, n);
    assert forall i :: 0 <= i < 1 ==> pixels[i] == pixel;
    ConcatSame(pixels, pixel, n);
  }

  /** The header of a run of `n` pixels has the high bit set and counts `n`. */
  lemma RunHeader(n: nat)
    requires 2 <= n <= 128
    ensures 127 + n >= 128 && (127 + n) % 128 + 1 == n
  {
  }

  /** A pixel unlike the next becomes a one-pixel raw packet. */
  lemma FirstPacketSingle(pixels: seq<seq<byte>>, bpp: nat)
    requires pixels != [] && RunLength(pixels, 1) < 2
    ensures PacketPixels(EncodeRle(pixels, bpp)[0]) == Concat(pixels[..1])
  {
    var pixel := pixels[0];
    assert pixels[..1] == [pixel];
    assert Concat([pixel]) == Concat([]) + pixel;
  }

  /** Decoding the reference encoding of a whole number of pixels gives them
      back exactly, whatever follows the packets in the file. */
  lemma RleRoundTrip(data: seq<byte>, bpp: nat, count: nat, rest: seq<byte>)
    requires bpp >= 1 && |data| == count * bpp
    ensures RleDecode(Serialize(EncodeRle(Chunks(data, bpp, count), bpp)) + rest, bpp, |data|, []) == Ok(data)
  {
    var pixels := Chunks(data, bpp, count);
    ChunksOfLength(data, bpp, count);
    ConcatChunks(data, bpp, count);
    var ps := EncodeRle(pixels, bpp);
    EncodeRleExpand(pixels, bpp);
    DecodePackets(ps, rest, bpp, |data|, []);
    assert [] + Expand(ps) == data;
  }

  /** A run-length true-colour file (type 10, no image ID, top-left origin)
      whose packets are the reference encoding of `data` decodes to `data`. */
  lemma DecodeRunLengthFile(hd: Header, data: seq<byte>, rest: seq<byte>)
    requires hd.imageType == 10 && hd.idLength == 0 && OriginTop(hd)
    requires hd.pixelDepth / 8 >= 1 && |data| == PixelBytes(hd)
    ensures var bpp := hd.pixelDepth / 8;
      var file := EncodeHeader(hd) + (Serialize(EncodeRle(Chunks(data, bpp, PixelCount(hd)), bpp)) + rest);
      DecodeTga(file) == Ok(Assemble(hd, data)) && Assemble(hd, data).data == data
  {
    var bpp := hd.pixelDepth / 8;
    var body := Serialize(EncodeRle(Chunks(data, bpp, PixelCount(hd)), bpp)) + rest;
    var file := EncodeHeader(hd) + body;
    assert file[..HeaderSize] == EncodeHeader(hd);
    assert Drop(file, HeaderSize) == body;
    ParseEncodeHeader(hd);
    assert ParseHeader(file[..HeaderSize]) == hd;
    RleRoundTrip(data, bpp, PixelCount(hd), rest);
    assert DecodePixels(file, hd) == Ok(data);
    DecodeFromPixels(file, data);
  }
}
