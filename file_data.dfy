/** The size estimate the editor shows before a texture is minimized: the
    dimensions and byte count a downscale by a power of two will produce,
    and the Unreal source format the header maps to. */
module FileData {
  import opened Bytes
  import opened TgaFormat
  import opened TgaDecode
  import opened Downscale
  import DownscaleProperties

  function Pow2(n: nat): (r: nat)
    ensures r >= 1
    ensures n >= 1 ==> r % 2 == 0
  {
    if n == 0 then 1 else 2 * Pow2(n - 1)
  }

  /** `2 ** (divisor_power + 1)`: power 0 halves, power 1 quarters, and so on.
      Powers below -1 make Python compute a float and are not modelled. */
  function Scale(divisorPower: int): (r: nat)
    requires divisorPower >= -1
    ensures r >= 1
  {
    Pow2(divisorPower + 1)
  }

  /** Each further power doubles the scale. */
  lemma {:induction false} ScaleDoubles(divisorPower: int)
    requires divisorPower >= -1
    ensures Scale(divisorPower + 1) == 2 * Scale(divisorPower)
    ensures Scale(-1) == 1 && Scale(0) == 2 && Scale(1) == 4 && Scale(2) == 8
  {
    assert Pow2(3) == 2 * Pow2(2);
  }

  /** What `compute_new_size_bytes` returns. */
  datatype NewSize = NewSize(width: nat, height: nat, bytes: nat)

  /** `int(base_bytes * 0.7)`, taken as exact arithmetic: the largest whole
      number of bytes not above seven tenths of `base`. */
  function RleEstimate(base: nat): (e: nat)
    ensures e <= base
    ensures 10 * e <= 7 * base < 10 * e + 10
  {
    base * 7 / 10
  }

  /** `compute_new_size_bytes(width, height, bpp, divisor_power, is_rle)`:
      `new_width * new_height * bpp // 8` bytes, or the RLE estimate of them. */
  function ComputeNewSizeBytes(width: nat, height: nat, bpp: nat, divisorPower: int, isRle: bool): (r: NewSize)
    requires divisorPower >= -1
    ensures r.width == NewDim(width, Scale(divisorPower)) && r.height == NewDim(height, Scale(divisorPower))
    ensures 1 <= r.width <= Max(1, width) && 1 <= r.height <= Max(1, height)
    ensures !isRle ==> r.bytes == BufferSize(r.width, r.height, bpp) / 8
    ensures isRle ==> r.bytes <= BufferSize(r.width, r.height, bpp) / 8
  {
    var scale := Scale(divisorPower);
    var newW := NewDim(width, scale);
    var newH := NewDim(height, scale);
    var base := BufferSize(newW, newH, bpp) / 8;
    NewSize(newW, newH, if isRle then RleEstimate(base) else base)
  }

  /** The estimate's dimensions are those every resampler gives for the
      divisor the main script passes, and for a whole number of bytes per
      pixel the uncompressed estimate is exactly the length of the buffer
      the resamplers allocate. */
  lemma EstimateMatchesAllocation(img: Image, divisorPower: int, isRle: bool)
    requires divisorPower >= -1
    ensures var out := Allocate(img, Scale(divisorPower));
      var r := ComputeNewSizeBytes(img.width, img.height, img.bpp, divisorPower, isRle);
      && r.width == out.width && r.height == out.height
      && (img.bpp % 8 == 0 && !isRle ==> r.bytes == |out.data|)
  {
    var out := Allocate(img, Scale(divisorPower));
    if img.bpp % 8 == 0 {
      WholeBytes(out.width, out.height, img.bpp);
    }
  }

  /** With whole bytes per pixel, dividing the bit count by eight after
      multiplying loses nothing. */
  lemma WholeBytes(w: nat, h: nat, bpp: nat)
    requires bpp % 8 == 0
    ensures BufferSize(w, h, bpp) / 8 == BufferSize(w, h, bpp / 8)
  {
    var q := bpp / 8;
    assert BufferSize(w, h, bpp) == BufferSize(w, h, q) * 8;
  }

  /** For a consistent image of whole bytes per pixel (as `read_tga` always
      returns), nearest and area downscaling by the scale of `divisorPower`
      produce exactly the dimensions and byte count the uncompressed estimate
      predicts. */
  lemma EstimateMatchesResampler(sm: Sampler, img: Image, divisorPower: int)
    requires divisorPower >= -1 && CanSample(sm, img) && Consistent(img) && img.bpp % 8 == 0
    ensures Resample(sm, img, Scale(divisorPower)).Some?
    ensures var out := Resample(sm, img, Scale(divisorPower)).value;
      ComputeNewSizeBytes(img.width, img.height, img.bpp, divisorPower, false)
        == NewSize(out.width, out.height, |out.data|)
  {
    DownscaleProperties.ResampleLayout(sm, img, Scale(divisorPower));
    EstimateOfLayout(img, divisorPower, Resample(sm, img, Scale(divisorPower)).value);
  }

  lemma EstimateOfLayout(img: Image, divisorPower: int, out: Resampled)
    requires divisorPower >= -1 && img.bpp % 8 == 0
    requires out.width == NewDim(img.width, Scale(divisorPower))
    requires out.height == NewDim(img.height, Scale(divisorPower))
    requires |out.data| == out.width * out.height * Stride(img)
    ensures ComputeNewSizeBytes(img.width, img.height, img.bpp, divisorPower, false)
              == NewSize(out.width, out.height, |out.data|)
  {
    WholeBytes(out.width, out.height, img.bpp);
  }

  /** `UE_SOURCE_MAP.get((channels, bpp, has_alpha), "TSF_BGRA8")`. */
  function UeFormat(channels: int, bpp: int, hasAlpha: bool): (r: string)
    ensures r in UeSourceMap.Values || r == "TSF_BGRA8"
  {
    var key := (channels, bpp, hasAlpha);
    if key in UeSourceMap then UeSourceMap[key] else "TSF_BGRA8"
  }

  /** Only 8-bit gray without alpha and 24-bit colour without alpha get a
      format of their own; every other key falls back to `TSF_BGRA8`. */
  lemma UeFormatCases(channels: int, bpp: int, hasAlpha: bool)
    ensures UeFormat(channels, bpp, hasAlpha) == "TSF_G8" <==> (channels, bpp, hasAlpha) == (1, 8, false)
    ensures UeFormat(channels, bpp, hasAlpha) == "TSF_BGRE8" <==> (channels, bpp, hasAlpha) == (3, 24, false)
    ensures UeFormat(channels, bpp, hasAlpha) == "TSF_BGRA8" <==>
      (channels, bpp, hasAlpha) != (1, 8, false) && (channels, bpp, hasAlpha) != (3, 24, false)
  {
    UeSourceMapKeys();
    assert "TSF_G8" != "TSF_BGRA8" && "TSF_BGRE8" != "TSF_BGRA8" && "TSF_G8" != "TSF_BGRE8" by {
      assert "TSF_G8"[4] != "TSF_BGRA8"[4];
      assert "TSF_BGRE8"[7] != "TSF_BGRA8"[7];
    }
  }

  /** For a header `read_tga_header` accepts, the format depends on the
      pixel depth and alpha flag alone: an 8-bit gray image that declares an
      alpha channel, like any depth other than 8 or 24, becomes `TSF_BGRA8`. */
  lemma FormatOfHeader(file: seq<byte>)
    requires ReadTgaHeader(file).Ok?
    ensures var info := ReadTgaHeader(file).value;
      UeFormat(info.channels, info.pixelDepth, info.hasAlpha) ==
        if info.pixelDepth == 8 && !info.hasAlpha then "TSF_G8"
        else if info.pixelDepth == 24 && !info.hasAlpha then "TSF_BGRE8"
        else "TSF_BGRA8"
  {
    var info := ReadTgaHeader(file).value;
    UeFormatCases(info.channels, info.pixelDepth, info.hasAlpha);
  }
}
