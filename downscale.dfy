/** The integer resamplers: the clamped pixel accessor `get_px`, the output
    shape every resampler shares (`max(1, d // divisor)` per side and a zeroed
    `bytearray` of that many pixels), nearest-neighbour sampling and box
    averaging. The output buffer is filled slot by slot with Python slice
    assignment, which resizes the buffer when a slot value is not exactly one
    stride long; `Fill` models that as written. */
module Downscale {
  import opened Bytes
  import opened TgaDecode

  datatype Option<T> = None | Some(value: T)

  /** What every resampler returns: the new width, height and pixel buffer. */
  datatype Resampled = Resampled(width: nat, height: nat, data: seq<byte>)

  /** `max(1, d // divisor)`: the floor of `d / divisor`, but never zero. */
  function NewDim(d: nat, divisor: nat): (r: nat)
    requires divisor >= 1
    ensures 1 <= r <= Max(1, d)
    ensures d >= divisor ==> r * divisor <= d < r * divisor + divisor
    ensures d < divisor ==> r == 1
  {
    Max(1, d / divisor)
  }

  /** Bytes per pixel, `bpp // 8`. */
  function Stride(img: Image): nat
  {
    img.bpp / 8
  }

  /** The lines all five resamplers share: the new dimensions and a zeroed
      buffer of `new_w * new_h * (bpp // 8)` bytes. */
  function Allocate(img: Image, divisor: nat): (r: Resampled)
    requires divisor >= 1
    ensures r.width == NewDim(img.width, divisor) && r.height == NewDim(img.height, divisor)
    ensures r.width >= 1 && r.height >= 1
    ensures |r.data| == r.width * r.height * Stride(img)
    ensures forall k :: 0 <= k < |r.data| ==> r.data[k] == 0
  {
    var newW := NewDim(img.width, divisor);
    var newH := NewDim(img.height, divisor);
    Resampled(newW, newH, Zeros(BufferSize(newW, newH, Stride(img))))
  }

  /** `new_w * new_h * bytes_per_pixel`, the size of the output buffer. */
  function BufferSize(w: nat, h: nat, stride: nat): nat
  {
    w * h * stride
  }

  /** What the resamplers assume of their input: a non-empty image and at
      least `w * h` pixels of data. */
  predicate Fits(img: Image)
  {
    InBounds(img.data, img.width, img.height, img.bpp)
  }

  predicate InBounds(data: seq<byte>, w: nat, h: nat, bpp: nat)
  {
    w >= 1 && h >= 1 && w * h * (bpp / 8) <= |data|
  }

  /** `min(max(v, 0), n - 1)`. */
  function Clamp(v: int, n: nat): (r: nat)
    requires n >= 1
    ensures r < n
    ensures 0 <= v < n ==> r == v
    ensures v < 0 ==> r == 0
    ensures v >= n ==> r == n - 1
  {
    Min(Max(v, 0), n - 1)
  }

  /** Where pixel `(x, y)` starts in a buffer of rows of `w` pixels. */
  function PixelOffset(w: nat, x: nat, y: nat, stride: nat): nat
  {
    (y * w + x) * stride
  }

  lemma PixelInBounds(w: nat, h: nat, x: nat, y: nat, stride: nat)
    requires x < w && y < h
    ensures PixelOffset(w, x, y, stride) + stride <= w * h * stride
  {
    MulStep(y, h, w);
    assert y * w + x < w * h;
    MulStep(y * w + x, w * h, stride);
  }

  /** `get_px`: the pixel at `(x, y)`, both clamped into the image, as four
      channel values B, G, R, A. Three-byte pixels get an opaque alpha of 255;
      pixels of four bytes or more keep their fourth byte. Pixels narrower
      than three bytes have no fourth byte to index, which raises. */
  function GetPx(data: seq<byte>, w: nat, h: nat, x: int, y: int, bpp: nat): (r: Option<seq<byte>>)
    requires InBounds(data, w, h, bpp)
    ensures r.None? <==> bpp / 8 < 3
    ensures r.Some? ==> |r.value| == 4
  {
    var cx, cy := Clamp(x, w), Clamp(y, h);
    var n := bpp / 8;
    var i := PixelOffset(w, cx, cy, n);
    PixelInBounds(w, h, cx, cy, n);
    var b := Slice(data, i, i + n);
    if n == 3 then Some(b + [255])
    else if |b| < 4 then None
    else Some(b[..3] + [b[3]])
  }

  /** What `get_px` reads: the first three bytes of the clamped pixel, and
      either its fourth byte or 255 for three-byte pixels. */
  lemma GetPxContents(data: seq<byte>, w: nat, h: nat, x: int, y: int, bpp: nat)
    requires InBounds(data, w, h, bpp) && bpp / 8 >= 3
    ensures var r, i := GetPx(data, w, h, x, y, bpp), PixelOffset(w, Clamp(x, w), Clamp(y, h), bpp / 8);
      && i + bpp / 8 <= |data|
      && r.value[..3] == data[i..i + 3]
      && r.value[3] == (if bpp / 8 == 3 then 255 else data[i + 3])
  {
    PixelInBounds(w, h, Clamp(x, w), Clamp(y, h), bpp / 8);
  }

  /** `get_px` on an image whose pixels are at least three bytes wide. */
  function Sample(img: Image, x: int, y: int): (px: seq<byte>)
    requires Fits(img) && Stride(img) >= 3
    ensures |px| == 4
  {
    GetPx(img.data, img.width, img.height, x, y, img.bpp).value
  }

  /** `bytes(px[:3] + ([px[3]] if has_alpha else []))`: the bytes written for
      one destination pixel. */
  function Slot(px: seq<byte>, hasAlpha: bool): (s: seq<byte>)
    requires |px| == 4
    ensures |s| == if hasAlpha then 4 else 3
    ensures s[..3] == px[..3] && (hasAlpha ==> s[3] == px[3])
  {
    px[..3] + (if hasAlpha then [px[3]] else [])
  }

  /** The alpha flag agrees with the pixel width: every slot written is then
      exactly one stride long. */
  predicate Consistent(img: Image)
  {
    (Stride(img) == 3 && !img.hasAlpha) || (Stride(img) == 4 && img.hasAlpha)
  }

  /** With a consistent stride, the bytes written for a sampled pixel are the
      source pixel's own bytes. */
  lemma SlotOfSample(img: Image, x: nat, y: nat)
    requires Fits(img) && Consistent(img) && x < img.width && y < img.height
    ensures var n := Stride(img);
      var i := PixelOffset(img.width, x, y, n);
      && i + n <= |img.data|
      && Slot(Sample(img, x, y), img.hasAlpha) == img.data[i..i + n]
  {
    var n := Stride(img);
    var i := PixelOffset(img.width, x, y, n);
    var px := Sample(img, x, y);
    var s := Slot(px, img.hasAlpha);
    GetPxContents(img.data, img.width, img.height, x, y, img.bpp);
    assert Clamp(x, img.width) == x && Clamp(y, img.height) == y;
    if n == 4 {
      assert s[3] == img.data[i + 3];
    }
    assert s == img.data[i..i + n];
  }

  /** `(j * w + i) // w == j` and `(j * w + i) % w == i` for `i < w`: slot
      `j * new_w + i` is pixel `(i, j)`. */
  lemma SlotCoordinates(i: nat, j: nat, w: nat)
    requires i < w
    ensures (j * w + i) / w == j && (j * w + i) % w == i
  {
    var s := j * w + i;
    var q, r := s / w, s % w;
    assert s == q * w + r;
    if q < j {
      MulStep(q, j, w);
    } else if q > j {
      MulStep(j, q, w);
    }
  }

  /** The slot index of a pixel of a `nw` by `nh` grid lies in the grid. */
  lemma SlotInGrid(i: nat, j: nat, nw: nat, nh: nat, stride: nat)
    requires i < nw && j < nh
    ensures j * nw + i < nw * nh && j * nw + nw <= nw * nh
    ensures (j * nw + i) * stride + stride <= nw * nh * stride
  {
    MulStep(j, nh, nw);
    MulStep(j * nw + i, nw * nh, stride);
  }

  // ------------------------------------------------------------ the sampler

  /** Which resampler fills the buffer: nearest-neighbour, or box averaging
      over `divisor` by `divisor` source pixels. */
  datatype Sampler = NearestSampler | AreaSampler(divisor: nat)

  predicate CanSample(sm: Sampler, img: Image)
  {
    Fits(img) && Stride(img) >= 3 && (sm.AreaSampler? ==> sm.divisor >= 1)
  }

  /** The four channel values a sampler computes for destination pixel
      `(i, j)` of a `nw` by `nh` result. */
  function Sampled(sm: Sampler, img: Image, nw: nat, nh: nat, i: nat, j: nat): (px: seq<byte>)
    requires CanSample(sm, img) && nw >= 1 && nh >= 1
    ensures |px| == 4
  {
    match sm
    case NearestSampler => Sample(img, i * img.width / nw, j * img.height / nh)
    case AreaSampler(d) => AreaAverage(img, d, i, j)
  }

  /** The bytes written for destination pixel `(i, j)`. */
  function SlotValue(sm: Sampler, img: Image, nw: nat, nh: nat, i: nat, j: nat): seq<byte>
    requires CanSample(sm, img) && nw >= 1 && nh >= 1
  {
    Slot(Sampled(sm, img, nw, nh, i, j), img.hasAlpha)
  }

  /** The bytes written to slot `s`, destination pixel `(s % nw, s // nw)`. */
  function Cell(sm: Sampler, img: Image, nw: nat, nh: nat, s: nat): seq<byte>
    requires CanSample(sm, img) && nw >= 1 && nh >= 1
  {
    SlotValue(sm, img, nw, nh, s % nw, s / nw)
  }

  /** The first `k` slot values of a resampled buffer, in row-major order. */
  function Cells(sm: Sampler, img: Image, nw: nat, nh: nat, k: nat): (cells: seq<seq<byte>>)
    requires CanSample(sm, img) && nw >= 1 && nh >= 1
    ensures |cells| == k
  {
    seq(k, s requires 0 <= s < k => Cell(sm, img, nw, nh, s))
  }

  /** `cells` lists the slot values of a `nw` by `nh` result in row-major
      order: slot `j * nw + i` holds destination pixel `(i, j)`. */
  predicate SlotsOf(sm: Sampler, img: Image, nw: nat, nh: nat, cells: seq<seq<byte>>)
    requires CanSample(sm, img) && nw >= 1 && nh >= 1
  {
    && |cells| == nw * nh
    && forall i: nat, j: nat :: i < nw && j < nh ==> cells[SlotIndex(nw, nh, i, j)] == SlotValue(sm, img, nw, nh, i, j)
  }

  /** `j * new_w + i`, the slot of destination pixel `(i, j)`. */
  function SlotIndex(nw: nat, nh: nat, i: nat, j: nat): (s: nat)
    requires i < nw && j < nh
    ensures s < nw * nh
  {
    SlotInGrid(i, j, nw, nh, 0);
    j * nw + i
  }

  /** Slot `j * new_w + i` holds destination pixel `(i, j)`. */
  lemma CellAt(sm: Sampler, img: Image, nw: nat, nh: nat, i: nat, j: nat)
    requires CanSample(sm, img) && i < nw && j < nh
    ensures j * nw + i < nw * nh
    ensures Cells(sm, img, nw, nh, nw * nh)[j * nw + i] == SlotValue(sm, img, nw, nh, i, j)
  {
    SlotCoordinates(i, j, nw);
    SlotInGrid(i, j, nw, nh, 0);
    assert Cell(sm, img, nw, nh, j * nw + i) == SlotValue(sm, img, nw, nh, i, j);
  }

  /** The slot values of `Resample` are laid out in row-major order. */
  lemma CellsInOrder(sm: Sampler, img: Image, nw: nat, nh: nat)
    requires CanSample(sm, img) && nw >= 1 && nh >= 1
    ensures SlotsOf(sm, img, nw, nh, Cells(sm, img, nw, nh, nw * nh))
  {
    forall i: nat, j: nat | i < nw && j < nh
      ensures Cells(sm, img, nw, nh, nw * nh)[SlotIndex(nw, nh, i, j)] == SlotValue(sm, img, nw, nh, i, j)
    {
      CellAt(sm, img, nw, nh, i, j);
    }
  }

  /** Row-major order determines the slot table. */
  lemma SlotsUnique(sm: Sampler, img: Image, nw: nat, nh: nat, a: seq<seq<byte>>, b: seq<seq<byte>>)
    requires CanSample(sm, img) && nw >= 1 && nh >= 1
    requires SlotsOf(sm, img, nw, nh, a) && SlotsOf(sm, img, nw, nh, b)
    ensures a == b
  {
    forall s | 0 <= s < |a|
      ensures a[s] == b[s]
    {
      var j, i := Split(s, nw, nh);
      assert a[SlotIndex(nw, nh, i, j)] == SlotValue(sm, img, nw, nh, i, j);
    }
  }

  /** A slot table of a `nw` by `nh` result. */
  lemma SlotTable(sm: Sampler, img: Image, nw: nat, nh: nat) returns (cells: seq<seq<byte>>)
    requires CanSample(sm, img) && nw >= 1 && nh >= 1
    ensures SlotsOf(sm, img, nw, nh, cells)
  {
    cells := Cells(sm, img, nw, nh, nw * nh);
    CellsInOrder(sm, img, nw, nh);
  }

  /** A resampler's result: the shared allocation, then every slot written in
      row-major order; `None` where `get_px` raises. */
  function Resample(sm: Sampler, img: Image, divisor: nat): (r: Option<Resampled>)
    requires divisor >= 1 && Fits(img) && (sm.AreaSampler? ==> sm.divisor >= 1)
    ensures r.Some? <==> Stride(img) >= 3
    ensures r.Some? ==> r.value.width == NewDim(img.width, divisor) && r.value.height == NewDim(img.height, divisor)
  {
    if Stride(img) < 3 then None
    else
      var out := Allocate(img, divisor);
      var cells := Cells(sm, img, out.width, out.height, out.width * out.height);
      Some(out.(data := Fill(out.data, Stride(img), cells, |cells|)))
  }

  /** Writing destination pixel `(i, j)` at slot `j * new_w + i` is the next
      step of a slot-by-slot fill. */
  lemma CellStep(sm: Sampler, img: Image, nw: nat, nh: nat, i: nat, j: nat, s: nat,
                 zeros: seq<byte>, cells: seq<seq<byte>>, dst: seq<byte>)
    requires CanSample(sm, img) && i < nw && j < nh && SlotsOf(sm, img, nw, nh, cells)
    requires s == j * nw + i && s < |cells| && dst == Fill(zeros, Stride(img), cells, s)
    ensures var n, at := Stride(img), PixelOffset(nw, i, j, Stride(img));
      Splice(dst, at, at + n, SlotValue(sm, img, nw, nh, i, j)) == Fill(zeros, n, cells, s + 1)
  {
    var n := Stride(img);
    assert SlotIndex(nw, nh, i, j) == s && PixelOffset(nw, i, j, n) == s * n;
    assert cells[s] == SlotValue(sm, img, nw, nh, i, j);
    FillStep(zeros, n, cells, s);
  }

  /** The buffer of a finished fill, with the shape of `Allocate`, is the
      resampler's result. */
  lemma ResampleResult(sm: Sampler, img: Image, divisor: nat, nw: nat, nh: nat, cells: seq<seq<byte>>, dst: seq<byte>)
    requires divisor >= 1 && CanSample(sm, img)
    requires nw == Max(1, img.width / divisor) && nh == Max(1, img.height / divisor)
    requires SlotsOf(sm, img, nw, nh, cells)
    requires dst == Fill(Zeros(BufferSize(nw, nh, img.bpp / 8)), img.bpp / 8, cells, nh * nw)
    ensures Resample(sm, img, divisor) == Some(Resampled(nw, nh, dst))
  {
    CellsOfTable(sm, img, nw, nh, cells);
    ResampleOfCells(sm, img, divisor, nw, nh);
  }

  /** `Resample` in terms of its dimensions. */
  lemma ResampleOfCells(sm: Sampler, img: Image, divisor: nat, nw: nat, nh: nat)
    requires divisor >= 1 && CanSample(sm, img)
    requires nw == Max(1, img.width / divisor) && nh == Max(1, img.height / divisor)
    ensures var n := img.bpp / 8;
      Resample(sm, img, divisor) ==
      Some(Resampled(nw, nh, Fill(Zeros(BufferSize(nw, nh, n)), n, Cells(sm, img, nw, nh, nw * nh), nh * nw)))
  {
  }

  /** The only slot table of a `nw` by `nh` result is the one `Resample` fills
      from. */
  lemma CellsOfTable(sm: Sampler, img: Image, nw: nat, nh: nat, cells: seq<seq<byte>>)
    requires CanSample(sm, img) && nw >= 1 && nh >= 1 && SlotsOf(sm, img, nw, nh, cells)
    ensures cells == Cells(sm, img, nw, nh, nw * nh)
  {
    CellsInOrder(sm, img, nw, nh);
    SlotsUnique(sm, img, nw, nh, cells, Cells(sm, img, nw, nh, nw * nh));
  }


  // ---------------------------------------------------------------- nearest

  /** `int(i * w / new_w)`: for `i < new_w` it is a column of the source. */
  lemma NearestSourceInRange(i: nat, w: nat, nw: nat)
    requires i < nw && w >= 1
    ensures 0 <= i * w / nw < w
  {
    var q := i * w / nw;
    assert q * nw <= i * w;
    if q >= w {
      MulMono(w, nw, q, nw);
      MulStep(i, nw, w);
    }
  }

  /** `nearest_downscale`. */
  function Nearest(img: Image, divisor: nat): (r: Option<Resampled>)
    requires divisor >= 1 && Fits(img)
    ensures r.Some? <==> Stride(img) >= 3
    ensures r.Some? ==> r.value.width == NewDim(img.width, divisor) && r.value.height == NewDim(img.height, divisor)
  {
    Resample(NearestSampler, img, divisor)
  }

  /** `nearest_downscale(w, h, bpp, has_alpha, data, divisor)`. */
  method NearestDownscale(w: nat, h: nat, bpp: nat, hasAlpha: bool, data: seq<byte>, divisor: nat)
    returns (res: Option<Resampled>)
    requires divisor >= 1 && Fits(Image(w, h, bpp, hasAlpha, data))
    ensures res == Nearest(Image(w, h, bpp, hasAlpha, data), divisor)
  {
    var newW := Max(1, w / divisor);
    var newH := Max(1, h / divisor);
    var bytesPerPixel := bpp / 8;
    var dst := Zeros(BufferSize(newW, newH, bytesPerPixel));
    if bytesPerPixel < 3 {
      // the first `get_px` raises
      return None;
    }
    ghost var zeros := dst;
    ghost var cells := SlotTable(NearestSampler, Image(w, h, bpp, hasAlpha, data), newW, newH);
    ghost var filled: nat := 0;
    for j := 0 to newH
      invariant filled == j * newW && filled <= |cells|
      invariant dst == Fill(zeros, bytesPerPixel, cells, filled)
    {
      SlotInGrid(0, j, newW, newH, 0);
      dst := NearestRow(w, h, bpp, hasAlpha, data, newW, newH, j, filled, zeros, cells, dst);
      filled := filled + newW;
      assert filled == (j + 1) * newW;
    }
    ResampleResult(NearestSampler, Image(w, h, bpp, hasAlpha, data), divisor, newW, newH, cells, dst);
    return Some(Resampled(newW, newH, dst));
  }

  /** Row `j` of the loop nest of `nearest_downscale`. */
  method NearestRow(w: nat, h: nat, bpp: nat, hasAlpha: bool, data: seq<byte>,
                    newW: nat, newH: nat, j: nat, ghost start: nat,
                    ghost zeros: seq<byte>, ghost cells: seq<seq<byte>>, dst0: seq<byte>)
    returns (dst: seq<byte>)
    requires Fits(Image(w, h, bpp, hasAlpha, data)) && bpp / 8 >= 3
    requires newW >= 1 && j < newH && SlotsOf(NearestSampler, Image(w, h, bpp, hasAlpha, data), newW, newH, cells)
    requires start == j * newW && start + newW <= |cells| && dst0 == Fill(zeros, bpp / 8, cells, start)
    ensures dst == Fill(zeros, bpp / 8, cells, start + newW)
  {
    var bytesPerPixel := bpp / 8;
    dst := dst0;
    for i := 0 to newW
      invariant dst == Fill(zeros, bytesPerPixel, cells, start + i)
    {
      dst := NearestPixel(w, h, bpp, hasAlpha, data, newW, newH, i, j, start + i, zeros, cells, dst);
    }
  }

  /** The body of the inner loop of `nearest_downscale`: destination pixel
      `(i, j)` copied from source pixel `(int(i * w / new_w), int(j * h / new_h))`. */
  method NearestPixel(w: nat, h: nat, bpp: nat, hasAlpha: bool, data: seq<byte>,
                      newW: nat, newH: nat, i: nat, j: nat, ghost s: nat,
                      ghost zeros: seq<byte>, ghost cells: seq<seq<byte>>, dst0: seq<byte>)
    returns (dst: seq<byte>)
    requires Fits(Image(w, h, bpp, hasAlpha, data)) && bpp / 8 >= 3
    requires i < newW && j < newH && SlotsOf(NearestSampler, Image(w, h, bpp, hasAlpha, data), newW, newH, cells)
    requires s == j * newW + i && s < |cells| && dst0 == Fill(zeros, bpp / 8, cells, s)
    ensures dst == Fill(zeros, bpp / 8, cells, s + 1)
  {
    var bytesPerPixel := bpp / 8;
    var sx := i * w / newW;
    var sy := j * h / newH;
    var px := GetPx(data, w, h, sx, sy, bpp);
    var idx := PixelOffset(newW, i, j, bytesPerPixel);
    NearestStep(w, h, bpp, hasAlpha, data, newW, newH, i, j, s, zeros, cells, dst0);
    dst := Splice(dst0, idx, idx + bytesPerPixel, Slot(px.value, hasAlpha));
  }

  /** One pass of the inner loop of `nearest_downscale`, in the loop's own
      terms. */
  lemma NearestStep(w: nat, h: nat, bpp: nat, hasAlpha: bool, data: seq<byte>, nw: nat, nh: nat, i: nat, j: nat, s: nat,
                    zeros: seq<byte>, cells: seq<seq<byte>>, dst: seq<byte>)
    requires Fits(Image(w, h, bpp, hasAlpha, data)) && bpp / 8 >= 3 && i < nw && j < nh
    requires SlotsOf(NearestSampler, Image(w, h, bpp, hasAlpha, data), nw, nh, cells)
    requires s == j * nw + i && s < |cells| && dst == Fill(zeros, bpp / 8, cells, s)
    ensures GetPx(data, w, h, i * w / nw, j * h / nh, bpp).Some?
    ensures var n, at := bpp / 8, PixelOffset(nw, i, j, bpp / 8);
      Splice(dst, at, at + n, Slot(GetPx(data, w, h, i * w / nw, j * h / nh, bpp).value, hasAlpha)) ==
      Fill(zeros, n, cells, s + 1)
  {
    var img := Image(w, h, bpp, hasAlpha, data);
    assert Stride(img) == bpp / 8 && CanSample(NearestSampler, img);
    CellStep(NearestSampler, img, nw, nh, i, j, s, zeros, cells, dst);
    assert SlotValue(NearestSampler, img, nw, nh, i, j) == Slot(Sample(img, i * w / nw, j * h / nh), hasAlpha);
  }

  // ------------------------------------------------------------------- area

  /** Channel `k` summed over source pixels `x0 .. x0 + n - 1` of row `y`,
      each read through `get_px`: `n` channel values sum to at most `255 * n`. */
  function RowSum(img: Image, x0: int, y: int, k: nat, n: nat): (r: nat)
    requires Fits(img) && Stride(img) >= 3 && k < 4
    ensures r <= 255 * n
  {
    if n == 0 then 0 else RowSum(img, x0, y, k, n - 1) + Sample(img, x0 + n - 1, y)[k]
  }

  /** Channel `k` summed over rows `y0 .. y0 + m - 1` of a block `width`
      pixels wide starting at column `x0`: at most `255 * (m * width)`. */
  function BlockSum(img: Image, x0: int, y0: int, width: nat, k: nat, m: nat): (r: nat)
    requires Fits(img) && Stride(img) >= 3 && k < 4
    ensures r <= 255 * (m * width)
  {
    if m == 0 then 0
    else
      var above, row := BlockSum(img, x0, y0, width, k, m - 1), RowSum(img, x0, y0 + m - 1, k, width);
      MulStep(m - 1, m, width);
      assert above + row <= 255 * ((m - 1) * width + width);
      above + row
  }

  /** `acc[k] // area` for the block of destination pixel `(i, j)`: the sum
      over the `d` by `d` block at `(i * d, j * d)`, divided by `d * d` and
      truncated. The channel is a byte, and the sum lies between `r * d * d`
      and the next multiple of `d * d`. */
  function AreaChannel(img: Image, d: nat, i: nat, j: nat, k: nat): (r: byte)
    requires Fits(img) && Stride(img) >= 3 && d >= 1 && k < 4
    ensures var sum := BlockSum(img, i * d, j * d, d, k, d);
      r * (d * d) <= sum < r * (d * d) + d * d
  {
    var sum := BlockSum(img, i * d, j * d, d, k, d);
    MulStep(0, d, d);
    DivBelow(sum, d * d, 255);
    Quotient(sum, d * d)
  }

  /** `v // area` for a sum of at most `area` bytes. */
  function Quotient(v: nat, area: nat): byte
    requires area >= 1 && v <= 255 * area
  {
    DivBelow(v, area, 255);
    v / area
  }

  /** `avg` for destination pixel `(i, j)`. */
  function AreaAverage(img: Image, d: nat, i: nat, j: nat): (avg: seq<byte>)
    requires Fits(img) && Stride(img) >= 3 && d >= 1
    ensures |avg| == 4
  {
    [AreaChannel(img, d, i, j, 0), AreaChannel(img, d, i, j, 1),
     AreaChannel(img, d, i, j, 2), AreaChannel(img, d, i, j, 3)]
  }

  /** Floor division of a sum of at most `c * b` by `b` is at most `c`, and
      brackets the sum. */
  lemma DivBelow(a: nat, b: nat, c: nat)
    requires b >= 1 && a <= c * b
    ensures 0 <= a / b <= c
    ensures (a / b) * b <= a < (a / b) * b + b
  {
    var q := a / b;
    assert q * b + a % b == a;
    if q > c {
      MulStep(c, q, b);
    }
  }

  /** `area_downscale`. */
  function Area(img: Image, divisor: nat): (r: Option<Resampled>)
    requires divisor >= 1 && Fits(img)
    ensures r.Some? <==> Stride(img) >= 3
    ensures r.Some? ==> r.value.width == NewDim(img.width, divisor) && r.value.height == NewDim(img.height, divisor)
  {
    Resample(AreaSampler(divisor), img, divisor)
  }

  /** `area_downscale(w, h, bpp, has_alpha, data, divisor)`. */
  method AreaDownscale(w: nat, h: nat, bpp: nat, hasAlpha: bool, data: seq<byte>, divisor: nat)
    returns (res: Option<Resampled>)
    requires divisor >= 1 && Fits(Image(w, h, bpp, hasAlpha, data))
    ensures res == Area(Image(w, h, bpp, hasAlpha, data), divisor)
  {
    var newW := Max(1, w / divisor);
    var newH := Max(1, h / divisor);
    var bytesPerPixel := bpp / 8;
    var dst := Zeros(BufferSize(newW, newH, bytesPerPixel));
    var area := divisor * divisor;
    MulStep(0, divisor, divisor);
    if bytesPerPixel < 3 {
      // the first `get_px` raises
      return None;
    }
    ghost var zeros := dst;
    ghost var cells := SlotTable(AreaSampler(divisor), Image(w, h, bpp, hasAlpha, data), newW, newH);
    ghost var filled: nat := 0;
    for j := 0 to newH
      invariant filled == j * newW && filled <= |cells|
      invariant dst == Fill(zeros, bytesPerPixel, cells, filled)
    {
      SlotInGrid(0, j, newW, newH, 0);
      dst := AreaRow(w, h, bpp, hasAlpha, data, divisor, area, newW, newH, j, filled, zeros, cells, dst);
      filled := filled + newW;
      assert filled == (j + 1) * newW;
    }
    ResampleResult(AreaSampler(divisor), Image(w, h, bpp, hasAlpha, data), divisor, newW, newH, cells, dst);
    return Some(Resampled(newW, newH, dst));
  }

  /** Row `j` of the loop nest of `area_downscale`. */
  method AreaRow(w: nat, h: nat, bpp: nat, hasAlpha: bool, data: seq<byte>, divisor: nat, area: nat,
                 newW: nat, newH: nat, j: nat, ghost start: nat,
                 ghost zeros: seq<byte>, ghost cells: seq<seq<byte>>, dst0: seq<byte>)
    returns (dst: seq<byte>)
    requires Fits(Image(w, h, bpp, hasAlpha, data)) && bpp / 8 >= 3 && divisor >= 1 && area == divisor * divisor && area >= 1
    requires newW >= 1 && j < newH && SlotsOf(AreaSampler(divisor), Image(w, h, bpp, hasAlpha, data), newW, newH, cells)
    requires start == j * newW && start + newW <= |cells| && dst0 == Fill(zeros, bpp / 8, cells, start)
    ensures dst == Fill(zeros, bpp / 8, cells, start + newW)
  {
    var bytesPerPixel := bpp / 8;
    dst := dst0;
    for i := 0 to newW
      invariant dst == Fill(zeros, bytesPerPixel, cells, start + i)
    {
      dst := AreaPixel(w, h, bpp, hasAlpha, data, divisor, area, newW, newH, i, j, start + i, zeros, cells, dst);
    }
  }

  /** The body of the destination loops of `area_downscale`: destination
      pixel `(i, j)` set to the truncated average of its block. */
  method AreaPixel(w: nat, h: nat, bpp: nat, hasAlpha: bool, data: seq<byte>, divisor: nat, area: nat,
                   newW: nat, newH: nat, i: nat, j: nat, ghost s: nat,
                   ghost zeros: seq<byte>, ghost cells: seq<seq<byte>>, dst0: seq<byte>)
    returns (dst: seq<byte>)
    requires Fits(Image(w, h, bpp, hasAlpha, data)) && bpp / 8 >= 3 && divisor >= 1 && area == divisor * divisor && area >= 1
    requires i < newW && j < newH && SlotsOf(AreaSampler(divisor), Image(w, h, bpp, hasAlpha, data), newW, newH, cells)
    requires s == j * newW + i && s < |cells| && dst0 == Fill(zeros, bpp / 8, cells, s)
    ensures dst == Fill(zeros, bpp / 8, cells, s + 1)
  {
    var bytesPerPixel := bpp / 8;
    var acc := AreaBlock(w, h, bpp, hasAlpha, data, divisor, i, j);
    AverageOfSums(Image(w, h, bpp, hasAlpha, data), divisor, area, i, j, acc);
    var avg: seq<byte> := [acc[0] / area, acc[1] / area, acc[2] / area, acc[3] / area];
    var idx := PixelOffset(newW, i, j, bytesPerPixel);
    AreaStep(w, h, bpp, hasAlpha, data, divisor, newW, newH, i, j, s, zeros, cells, dst0, avg);
    dst := Splice(dst0, idx, idx + bytesPerPixel, Slot(avg, hasAlpha));
  }

  /** `avg = [v // area for v in acc]` on the block sums of `(i, j)` is
      the average `AreaAverage` describes. */
  lemma AverageOfSums(img: Image, d: nat, area: nat, i: nat, j: nat, acc: seq<int>)
    requires Fits(img) && Stride(img) >= 3 && d >= 1 && area == d * d && area >= 1
    requires |acc| == 4
    requires forall k :: 0 <= k < 4 ==> acc[k] == BlockSum(img, i * d, j * d, d, k, d)
    ensures [acc[0] / area, acc[1] / area, acc[2] / area, acc[3] / area] == AreaAverage(img, d, i, j)
  {
  }

  /** One pass of the destination loops of `area_downscale`, in the loop's
      own terms. */
  lemma AreaStep(w: nat, h: nat, bpp: nat, hasAlpha: bool, data: seq<byte>, d: nat, nw: nat, nh: nat, i: nat, j: nat, s: nat,
                 zeros: seq<byte>, cells: seq<seq<byte>>, dst: seq<byte>, avg: seq<byte>)
    requires Fits(Image(w, h, bpp, hasAlpha, data)) && bpp / 8 >= 3 && d >= 1 && i < nw && j < nh
    requires SlotsOf(AreaSampler(d), Image(w, h, bpp, hasAlpha, data), nw, nh, cells)
    requires s == j * nw + i && s < |cells| && dst == Fill(zeros, bpp / 8, cells, s)
    requires avg == AreaAverage(Image(w, h, bpp, hasAlpha, data), d, i, j)
    ensures var n, at := bpp / 8, PixelOffset(nw, i, j, bpp / 8);
      Splice(dst, at, at + n, Slot(avg, hasAlpha)) == Fill(zeros, n, cells, s + 1)
  {
    CellStep(AreaSampler(d), Image(w, h, bpp, hasAlpha, data), nw, nh, i, j, s, zeros, cells, dst);
  }


  /** The accumulation loops of `area_downscale` for destination pixel
      `(i, j)`: `acc[k]` sums channel `k` over the `divisor` by `divisor`
      block at `(i * divisor, j * divisor)`. */
  method AreaBlock(w: nat, h: nat, bpp: nat, hasAlpha: bool, data: seq<byte>, divisor: nat, i: nat, j: nat)
    returns (acc: seq<int>)
    requires Fits(Image(w, h, bpp, hasAlpha, data)) && bpp / 8 >= 3
    ensures |acc| == 4
    ensures forall k :: 0 <= k < 4 ==>
      acc[k] == BlockSum(Image(w, h, bpp, hasAlpha, data), i * divisor, j * divisor, divisor, k, divisor)
  {
    var x0, y0 := i * divisor, j * divisor;
    acc := [0, 0, 0, 0];
    for y := 0 to divisor
      invariant |acc| == 4
      invariant forall k :: 0 <= k < 4 ==> acc[k] == BlockSum(Image(w, h, bpp, hasAlpha, data), x0, y0, divisor, k, y)
    {
      acc := AreaBlockRow(w, h, bpp, hasAlpha, data, divisor, x0, y0, y, acc);
    }
  }

  /** The `x` loop of `area_downscale` over row `y` of the block at
      `(x0, y0)`: it adds that row to the sums over the rows above it. */
  method AreaBlockRow(w: nat, h: nat, bpp: nat, hasAlpha: bool, data: seq<byte>, divisor: nat,
                      x0: int, y0: int, y: nat, acc0: seq<int>)
    returns (acc: seq<int>)
    requires Fits(Image(w, h, bpp, hasAlpha, data)) && bpp / 8 >= 3 && |acc0| == 4
    requires forall k :: 0 <= k < 4 ==> acc0[k] == BlockSum(Image(w, h, bpp, hasAlpha, data), x0, y0, divisor, k, y)
    ensures |acc| == 4
    ensures forall k :: 0 <= k < 4 ==> acc[k] == BlockSum(Image(w, h, bpp, hasAlpha, data), x0, y0, divisor, k, y + 1)
  {
    acc := acc0;
    var row := y0 + y;
    assert forall k :: 0 <= k < 4 ==> RowSum(Image(w, h, bpp, hasAlpha, data), x0, row, k, 0) == 0;
    for x := 0 to divisor
      invariant |acc| == 4
      invariant forall k :: 0 <= k < 4 ==> acc[k] == acc0[k] + RowSum(Image(w, h, bpp, hasAlpha, data), x0, row, k, x)
    {
      var px := GetPx(data, w, h, x0 + x, row, bpp);
      ghost var before := acc;
      acc := AddPixel(acc, px.value);
      RowSumStep(w, h, bpp, hasAlpha, data, x0, row, x, acc0, before, acc);
    }
  }

  /** Adding the pixel at column `x0 + x` to sums over columns
      `x0 .. x0 + x - 1` gives the sums over `x0 .. x0 + x`. */
  lemma RowSumStep(w: nat, h: nat, bpp: nat, hasAlpha: bool, data: seq<byte>,
                   x0: int, y: int, x: nat, acc0: seq<int>, before: seq<int>, after: seq<int>)
    requires Fits(Image(w, h, bpp, hasAlpha, data)) && bpp / 8 >= 3
    requires |acc0| == 4 && |before| == 4 && |after| == 4
    requires forall k :: 0 <= k < 4 ==> before[k] == acc0[k] + RowSum(Image(w, h, bpp, hasAlpha, data), x0, y, k, x)
    requires forall k :: 0 <= k < 4 ==> after[k] == before[k] + GetPx(data, w, h, x0 + x, y, bpp).value[k]
    ensures forall k :: 0 <= k < 4 ==> after[k] == acc0[k] + RowSum(Image(w, h, bpp, hasAlpha, data), x0, y, k, x + 1)
  {
  }

  /** `for k in range(4): acc[k] += px[k]`. */
  method AddPixel(acc0: seq<int>, px: seq<byte>) returns (acc: seq<int>)
    requires |acc0| == 4 && |px| == 4
    ensures |acc| == 4 && forall k :: 0 <= k < 4 ==> acc[k] == acc0[k] + px[k]
  {
    acc := acc0;
    for k := 0 to 4
      invariant |acc| == 4
      invariant forall c :: 0 <= c < 4 ==> acc[c] == acc0[c] + (if c < k then px[c] else 0)
    {
      acc := acc[k := acc[k] + px[k]];
    }
  }
}
