/** What the integer resamplers promise about their output: where each
    destination pixel lands in the buffer, which source pixel nearest-neighbour
    copies, that a divisor of 1 gives the source back, and that a flat colour
    stays that colour under both resamplers. */
module DownscaleProperties {
  import opened Bytes
  import opened TgaDecode
  import opened Downscale

  /** `(q * b) // b == q`. */
  lemma DivExact(q: nat, b: int)
    requires b >= 1
    ensures (q * b) / b == q
  {
    DivBelow(q * b, b, q);
    var r := (q * b) / b;
    if r < q {
      MulStep(r, q, b);
    }
  }

  /** With a consistent stride the buffer keeps the allocated length, and it
      is the slot values joined in row-major order. */
  lemma ResampleLayout(sm: Sampler, img: Image, divisor: nat)
    requires divisor >= 1 && CanSample(sm, img) && Consistent(img)
    ensures Resample(sm, img, divisor).Some?
    ensures var out := Resample(sm, img, divisor).value;
      && out.width == NewDim(img.width, divisor) && out.height == NewDim(img.height, divisor)
      && |out.data| == out.width * out.height * Stride(img)
      && out.data == Concat(Cells(sm, img, out.width, out.height, out.width * out.height))
  {
    var out := Allocate(img, divisor);
    var n := Stride(img);
    var cells := Cells(sm, img, out.width, out.height, out.width * out.height);
    CellsOfStride(sm, img, out.width, out.height, out.width * out.height);
    FillAll(out.data, n, cells);
  }

  /** With a consistent stride every slot value is exactly one stride long. */
  lemma CellsOfStride(sm: Sampler, img: Image, nw: nat, nh: nat, k: nat)
    requires CanSample(sm, img) && Consistent(img) && nw >= 1 && nh >= 1
    ensures AllOfLength(Cells(sm, img, nw, nh, k), Stride(img))
  {
  }

  /** A slot table for the result of a resampler with a consistent stride:
      its slot values, each one stride long, joined in row-major order. */
  lemma ResampleSlots(sm: Sampler, img: Image, divisor: nat) returns (cells: seq<seq<byte>>)
    requires divisor >= 1 && CanSample(sm, img) && Consistent(img)
    ensures Resample(sm, img, divisor).Some?
    ensures var out := Resample(sm, img, divisor).value;
      && out.width == NewDim(img.width, divisor) && out.height == NewDim(img.height, divisor)
      && SlotsOf(sm, img, out.width, out.height, cells)
      && AllOfLength(cells, Stride(img))
      && out.data == Concat(cells)
  {
    ResampleLayout(sm, img, divisor);
    var out := Resample(sm, img, divisor).value;
    cells := Cells(sm, img, out.width, out.height, out.width * out.height);
    CellsInOrder(sm, img, out.width, out.height);
    CellsOfStride(sm, img, out.width, out.height, out.width * out.height);
  }

  /** In the joined slot values, destination pixel `(i, j)` starts at
      `(j * nw + i) * stride` and is one stride long. */
  lemma JoinedSlot(sm: Sampler, img: Image, nw: nat, nh: nat, cells: seq<seq<byte>>, i: nat, j: nat)
    requires CanSample(sm, img) && i < nw && j < nh
    requires SlotsOf(sm, img, nw, nh, cells) && AllOfLength(cells, Stride(img))
    ensures var n, at := Stride(img), PixelOffset(nw, i, j, Stride(img));
      && at + n <= |Concat(cells)|
      && Concat(cells)[at..at + n] == SlotValue(sm, img, nw, nh, i, j)
  {
    var s := SlotIndex(nw, nh, i, j);
    assert cells[s] == SlotValue(sm, img, nw, nh, i, j);
    ConcatPart(cells, Stride(img), s);
  }

  /** Destination pixel `(i, j)` occupies bytes `(j * new_w + i) * stride`
      onward, one stride long, and holds the value the sampler computed for it. */
  lemma ResampledPixel(sm: Sampler, img: Image, divisor: nat, i: nat, j: nat)
    requires divisor >= 1 && CanSample(sm, img) && Consistent(img)
    requires i < NewDim(img.width, divisor) && j < NewDim(img.height, divisor)
    ensures var out, n := Resample(sm, img, divisor).value, Stride(img);
      var at := PixelOffset(out.width, i, j, n);
      && at + n <= |out.data|
      && out.data[at..at + n] == SlotValue(sm, img, out.width, out.height, i, j)
  {
    var cells := ResampleSlots(sm, img, divisor);
    var out := Resample(sm, img, divisor).value;
    JoinedSlot(sm, img, out.width, out.height, cells, i, j);
  }

  /** Nearest-neighbour: destination pixel `(i, j)` is a byte-for-byte copy of
      source pixel `(i * w // new_w, j * h // new_h)`, which lies inside the
      source image. */
  lemma NearestCopiesSource(img: Image, divisor: nat, i: nat, j: nat)
    requires divisor >= 1 && Fits(img) && Consistent(img)
    requires i < NewDim(img.width, divisor) && j < NewDim(img.height, divisor)
    ensures var out, n := Nearest(img, divisor).value, Stride(img);
      var sx, sy := i * img.width / out.width, j * img.height / out.height;
      && 0 <= sx < img.width && 0 <= sy < img.height
      && (var at, from := PixelOffset(out.width, i, j, n), PixelOffset(img.width, sx, sy, n);
          && at + n <= |out.data| && from + n <= |img.data|
          && out.data[at..at + n] == img.data[from..from + n])
  {
    ResampledPixel(NearestSampler, img, divisor, i, j);
    var out := Nearest(img, divisor).value;
    NearestSourceInRange(i, img.width, out.width);
    NearestSourceInRange(j, img.height, out.height);
    SlotOfSample(img, i * img.width / out.width, j * img.height / out.height);
  }

  /** Nearest-neighbour with a divisor of 1 returns the source pixels
      unchanged. */
  lemma NearestIdentity(img: Image)
    requires Fits(img) && Consistent(img)
    ensures Nearest(img, 1) ==
      Some(Resampled(img.width, img.height, img.data[..BufferSize(img.width, img.height, Stride(img))]))
  {
    var w, h, n := img.width, img.height, Stride(img);
    var cells := ResampleSlots(NearestSampler, img, 1);
    var src := img.data[..w * h * n];
    var chunks := Chunks(src, n, |cells|);
    forall p | 0 <= p < |cells|
      ensures cells[p] == chunks[p]
    {
      IdentityCell(img, cells, p);
    }
    assert cells == chunks;
    ConcatChunks(src, n, |cells|);
  }

  /** With a divisor of 1, slot `p` of nearest-neighbour is source pixel `p`. */
  lemma IdentityCell(img: Image, cells: seq<seq<byte>>, p: nat)
    requires Fits(img) && Consistent(img)
    requires SlotsOf(NearestSampler, img, img.width, img.height, cells) && p < |cells|
    ensures var w, h, n := img.width, img.height, Stride(img);
      && p * n + n <= w * h * n
      && cells[p] == Chunk(img.data[..w * h * n], n, p)
  {
    var w, h, n := img.width, img.height, Stride(img);
    var j, i := Split(p, w, h);
    assert cells[SlotIndex(w, h, i, j)] == SlotValue(NearestSampler, img, w, h, i, j);
    NearestPixelOfOne(img, i, j);
    MulStep(p, w * h, n);
    var at := PixelOffset(w, i, j, n);
    assert at == p * n;
    var src := img.data[..w * h * n];
    assert src[at..at + n] == img.data[at..at + n];
  }

  /** With a divisor of 1, nearest-neighbour writes source pixel `(i, j)` to
      destination pixel `(i, j)`. */
  lemma NearestPixelOfOne(img: Image, i: nat, j: nat)
    requires Fits(img) && Consistent(img) && i < img.width && j < img.height
    ensures var n := Stride(img);
      var at := PixelOffset(img.width, i, j, n);
      && at + n <= |img.data|
      && SlotValue(NearestSampler, img, img.width, img.height, i, j) == img.data[at..at + n]
  {
    DivExact(i, img.width);
    DivExact(j, img.height);
    assert SlotValue(NearestSampler, img, img.width, img.height, i, j) == Slot(Sample(img, i, j), img.hasAlpha);
    SlotOfSample(img, i, j);
  }

  /** Averaging a one-by-one block reads the pixel itself. */
  lemma AreaAverageOfOne(img: Image, i: nat, j: nat)
    requires Fits(img) && Stride(img) >= 3
    ensures AreaAverage(img, 1, i, j) == Sample(img, i, j)
  {
    forall k | 0 <= k < 4
      ensures AreaChannel(img, 1, i, j, k) == Sample(img, i, j)[k]
    {
      assert RowSum(img, i, j, k, 1) == Sample(img, i, j)[k];
      assert BlockSum(img, i, j, 1, k, 1) == RowSum(img, i, j, k, 1);
    }
  }

  /** With a divisor of 1 box averaging and nearest-neighbour compute the same
      result, whatever the stride. */
  lemma AreaOfOne(img: Image)
    requires Fits(img)
    ensures Area(img, 1) == Nearest(img, 1)
  {
    if Stride(img) >= 3 {
      var w, h := img.width, img.height;
      var cells := SlotTable(AreaSampler(1), img, w, h);
      forall i: nat, j: nat | i < w && j < h
        ensures cells[SlotIndex(w, h, i, j)] == SlotValue(NearestSampler, img, w, h, i, j)
      {
        SameSlotOfOne(img, i, j);
      }
      var dst := Fill(Zeros(BufferSize(w, h, Stride(img))), Stride(img), cells, |cells|);
      ResampleResult(AreaSampler(1), img, 1, w, h, cells, dst);
      ResampleResult(NearestSampler, img, 1, w, h, cells, dst);
    }
  }

  /** With a divisor of 1 both resamplers write the same bytes for `(i, j)`. */
  lemma SameSlotOfOne(img: Image, i: nat, j: nat)
    requires Fits(img) && Stride(img) >= 3 && i < img.width && j < img.height
    ensures SlotValue(AreaSampler(1), img, img.width, img.height, i, j) ==
            SlotValue(NearestSampler, img, img.width, img.height, i, j)
  {
    DivExact(i, img.width);
    DivExact(j, img.height);
    AreaAverageOfOne(img, i, j);
  }

  /** Box averaging with a divisor of 1 returns the source pixels unchanged. */
  lemma AreaIdentity(img: Image)
    requires Fits(img) && Consistent(img)
    ensures Area(img, 1) ==
      Some(Resampled(img.width, img.height, img.data[..BufferSize(img.width, img.height, Stride(img))]))
  {
    AreaOfOne(img);
    NearestIdentity(img);
  }

  /** Every pixel of the image reads as the four channel values `c`. */
  predicate Uniform(img: Image, c: seq<byte>)
    requires Fits(img) && Stride(img) >= 3
  {
    && |c| == 4
    && forall x: nat, y: nat :: x < img.width && y < img.height ==> Sample(img, x, y) == c
  }

  /** `get_px` clamps, so a uniform image reads `c` at any coordinates. */
  lemma UniformEverywhere(img: Image, c: seq<byte>, x: int, y: int)
    requires Fits(img) && Stride(img) >= 3 && Uniform(img, c)
    ensures Sample(img, x, y) == c
  {
    var cx, cy := Clamp(x, img.width), Clamp(y, img.height);
    assert Sample(img, cx, cy) == c;
    assert Sample(img, x, y) == Sample(img, cx, cy);
  }

  lemma {:induction false} RowSumUniform(img: Image, c: seq<byte>, x0: int, y: int, k: nat, n: nat)
    requires Fits(img) && Stride(img) >= 3 && Uniform(img, c) && k < 4
    ensures RowSum(img, x0, y, k, n) == c[k] * n
  {
    if n > 0 {
      RowSumUniform(img, c, x0, y, k, n - 1);
      UniformEverywhere(img, c, x0 + n - 1, y);
      var before := RowSum(img, x0, y, k, n - 1);
      assert RowSum(img, x0, y, k, n) == before + c[k];
      MulSucc(c[k], n);
    }
  }

  lemma BlockSumUniform(img: Image, c: seq<byte>, x0: int, y0: int, width: nat, k: nat, m: nat)
    requires Fits(img) && Stride(img) >= 3 && Uniform(img, c) && k < 4
    ensures BlockSum(img, x0, y0, width, k, m) == c[k] * (m * width)
  {
    forall y | y0 <= y < y0 + m
      ensures RowSum(img, x0, y, k, width) == c[k] * width
    {
      RowSumUniform(img, c, x0, y, k, width);
    }
    BlockOfEqualRows(img, x0, y0, width, k, m, c[k] * width);
    MulRegroup(c[k], m, width);
  }

  /** `m` rows that each sum to `v` make a block summing to `v * m`. */
  lemma {:induction false} BlockOfEqualRows(img: Image, x0: int, y0: int, width: nat, k: nat, m: nat, v: int)
    requires Fits(img) && Stride(img) >= 3 && k < 4
    requires forall y :: y0 <= y < y0 + m ==> RowSum(img, x0, y, k, width) == v
    ensures BlockSum(img, x0, y0, width, k, m) == v * m
  {
    if m > 0 {
      BlockOfEqualRows(img, x0, y0, width, k, m - 1, v);
      assert RowSum(img, x0, y0 + m - 1, k, width) == v;
      MulSucc(v, m);
    }
  }

  /** On a uniform image both samplers compute the image's colour for every
      destination pixel, whatever the divisor. */
  lemma SampledUniform(sm: Sampler, img: Image, c: seq<byte>, nw: nat, nh: nat, i: nat, j: nat)
    requires CanSample(sm, img) && nw >= 1 && nh >= 1 && Uniform(img, c)
    ensures Sampled(sm, img, nw, nh, i, j) == c
  {
    match sm
    case NearestSampler =>
      UniformEverywhere(img, c, i * img.width / nw, j * img.height / nh);
    case AreaSampler(d) =>
      forall k | 0 <= k < 4
        ensures AreaChannel(img, d, i, j, k) == c[k]
      {
        BlockSumUniform(img, c, i * d, j * d, d, k, d);
        DivExact(c[k], d * d);
      }
  }

  /** With a consistent stride, a uniform image downscales to a buffer that
      repeats the colour's slot once per destination pixel. */
  lemma ResampleUniform(sm: Sampler, img: Image, c: seq<byte>, divisor: nat)
    requires divisor >= 1 && CanSample(sm, img) && Consistent(img) && Uniform(img, c)
    ensures var out := Resample(sm, img, divisor).value;
      out.data == Repeat(Slot(c, img.hasAlpha), out.width * out.height)
  {
    var cells := ResampleSlots(sm, img, divisor);
    var out := Resample(sm, img, divisor).value;
    var nw, nh := out.width, out.height;
    forall s | 0 <= s < |cells|
      ensures cells[s] == Slot(c, img.hasAlpha)
    {
      var j, i := Split(s, nw, nh);
      assert cells[SlotIndex(nw, nh, i, j)] == SlotValue(sm, img, nw, nh, i, j);
      SampledUniform(sm, img, c, nw, nh, i, j);
    }
    ConcatSame(cells, Slot(c, img.hasAlpha), |cells|);
    assert cells[..|cells|] == cells;
  }
}
