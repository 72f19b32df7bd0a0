/** Byte buffers, and the few operations on Python's `bytes`, `bytearray` and
    lists that the codec and the resamplers rely on: slicing that clamps at the
    end, slice assignment that may resize, repetition and joining. */
module Bytes {

  type byte = b: int | 0 <= b < 256

  function Min(a: int, b: int): int { if a <= b then a else b }

  function Max(a: int, b: int): int { if a >= b then a else b }

  /** Python's `s[lo:hi]` for non-negative bounds: both ends clamp at the
      length, and an upper end below the lower one gives an empty slice. */
  function Slice<T>(s: seq<T>, lo: nat, hi: nat): (r: seq<T>)
    ensures |r| <= |s|
    ensures lo <= hi <= |s| ==> r == s[lo..hi]
    ensures hi <= lo ==> r == []
  {
    var a := Min(lo, |s|);
    s[a..Max(a, Min(hi, |s|))]
  }

  /** What `f.read(n)` returns when the file cursor is at `pos`: at most `n`
      bytes, fewer near the end of the file, none once the cursor is past it. */
  function Take(s: seq<byte>, pos: nat, n: nat): (r: seq<byte>)
    ensures |r| <= n
    ensures pos <= |s| ==> pos + |r| <= |s|
    ensures pos + n <= |s| ==> r == s[pos..pos + n]
    ensures pos < |s| ==> r == s[pos..Min(pos + n, |s|)]
    ensures pos >= |s| ==> r == []
  {
    Slice(s, pos, pos + n)
  }

  /** Python's slice assignment `buf[lo:hi] = v` (with `lo <= hi`): the slice is
      replaced by `v`, so the buffer grows or shrinks when `|v|` differs from
      the slice's length. */
  function Splice(buf: seq<byte>, lo: nat, hi: nat, v: seq<byte>): (r: seq<byte>)
    requires lo <= hi
    ensures hi <= |buf| ==> r == buf[..lo] + v + buf[hi..]
    ensures hi <= |buf| ==> |r| == |buf| - (hi - lo) + |v|
  {
    var a := Min(lo, |buf|);
    buf[..a] + v + buf[Max(a, Min(hi, |buf|))..]
  }

  /** `s * n` on Python byte strings. */
  function Repeat<T>(s: seq<T>, n: nat): (r: seq<T>)
    ensures |r| == n * |s|
  {
    if n == 0 then [] else Repeat(s, n - 1) + s
  }

  /** `bytearray(n)`: a fresh buffer of `n` zero bytes. */
  function Zeros(n: nat): (r: seq<byte>)
    ensures |r| == n
    ensures forall i :: 0 <= i < n ==> r[i] == 0
  {
    seq(n, _ => 0)
  }

  /** `b"".join(parts)`: the parts one after the other. */
  function Concat<T>(parts: seq<seq<T>>): seq<T>
  {
    if parts == [] then [] else Concat(parts[..|parts| - 1]) + parts[|parts| - 1]
  }

  /** Every part has exactly `width` elements. */
  ghost predicate AllOfLength<T>(parts: seq<seq<T>>, width: nat)
  {
    forall p :: 0 <= p < |parts| ==> |parts[p]| == width
  }

  /** `(a + 1) * k <= b * k` for `a < b`, in the shape the index proofs use. */
  lemma MulStep(a: nat, b: nat, k: nat)
    requires a < b
    ensures a * k + k <= b * k
  {
    var d := b - a - 1;
    calc {
      b * k;
    ==  { assert b == a + 1 + d; }
      (a + 1 + d) * k;
    ==
      a * k + k + d * k;
    }
  }

  lemma {:induction false} ConcatLength<T>(parts: seq<seq<T>>, width: nat)
    requires AllOfLength(parts, width)
    ensures |Concat(parts)| == |parts| * width
  {
    if parts != [] {
      var n := |parts| - 1;
      ConcatLength(parts[..n], width);
      assert |Concat(parts)| == n * width + width;
    }
  }

  /** Joining equally long parts lays them out end to end: element `k` of part
      `p` lands at `p * width + k`. */
  lemma {:induction false} ConcatAt<T>(parts: seq<seq<T>>, width: nat, p: nat, k: nat)
    requires AllOfLength(parts, width)
    requires p < |parts| && k < width
    ensures p * width + k < |Concat(parts)|
    ensures Concat(parts)[p * width + k] == parts[p][k]
  {
    var n := |parts| - 1;
    var init := parts[..n];
    ConcatLength(init, width);
    ConcatLength(parts, width);
    if p < n {
      MulStep(p, n, width);
      ConcatAt(init, width, p, k);
      assert init[p] == parts[p];
    }
  }

  /** Joining two lists of parts joins their joins. */
  lemma {:induction false} ConcatAppend<T>(a: seq<seq<T>>, b: seq<seq<T>>)
    ensures Concat(a + b) == Concat(a) + Concat(b)
    decreases |b|
  {
    if b != [] {
      var n := |b| - 1;
      assert (a + b)[..|a + b| - 1] == a + b[..n];
      ConcatAppend(a, b[..n]);
    } else {
      assert a + b == a;
    }
  }

  /** Joining a list of parts is joining its two halves, wherever it is cut. */
  lemma ConcatSplit<T>(parts: seq<seq<T>>, n: nat)
    requires n <= |parts|
    ensures Concat(parts) == Concat(parts[..n]) + Concat(parts[n..])
  {
    assert parts == parts[..n] + parts[n..];
    ConcatAppend(parts[..n], parts[n..]);
  }

  /** Joining `n` copies of the same part repeats it `n` times. */
  lemma {:induction false} ConcatSame<T>(parts: seq<seq<T>>, part: seq<T>, n: nat)
    requires n <= |parts|
    requires forall i :: 0 <= i < n ==> parts[i] == part
    ensures Concat(parts[..n]) == Repeat(part, n)
  {
    if n > 0 {
      assert parts[..n][..n - 1] == parts[..n - 1];
      ConcatSame(parts, part, n - 1);
    }
  }

  /** The bytes from cursor `pos` on; none once the cursor is past the end. */
  function Drop(s: seq<byte>, pos: nat): (r: seq<byte>)
    ensures pos <= |s| ==> r == s[pos..]
    ensures pos >= |s| ==> r == []
  {
    s[Min(pos, |s|)..]
  }

  /** Reading `n` bytes `k` bytes into the rest of the file is reading them
      at cursor `pos + k`. */
  lemma TakeDrop(s: seq<byte>, pos: nat, k: nat, n: nat)
    ensures Take(Drop(s, pos), k, n) == Take(s, pos + k, n)
  {
    if pos + k < |s| {
      var d := s[pos..];
      var m := Min(k + n, |d|);
      assert Drop(s, pos) == d;
      forall i | 0 <= i < m - k ensures d[k..m][i] == s[pos + k..pos + m][i] {
        assert d[k + i] == s[pos + k + i];
      }
      assert d[k..m] == s[pos + k..pos + m];
      assert pos + m == Min(pos + k + n, |s|);
    }
  }

  lemma DropDrop(s: seq<byte>, pos: nat, k: nat)
    ensures Drop(Drop(s, pos), k) == Drop(s, pos + k)
  {
  }

  /** A join of prefixes grows by the next part. */
  lemma ConcatPrefixStep<T>(parts: seq<seq<T>>, n: nat)
    requires n < |parts|
    ensures Concat(parts[..n + 1]) == Concat(parts[..n]) + parts[n]
  {
    assert parts[..n + 1][..n] == parts[..n];
  }

  /** The pixels of a buffer of `count` pixels of `width` bytes each. */
  function Chunks(data: seq<byte>, width: nat, count: nat): (parts: seq<seq<byte>>)
    requires count * width <= |data|
    ensures |parts| == count
    ensures forall p :: 0 <= p < count ==> parts[p] == Chunk(data, width, p)
  {
    seq(count, p requires 0 <= p < count => Chunk(data, width, p))
  }

  lemma ChunksOfLength(data: seq<byte>, width: nat, count: nat)
    requires count * width <= |data|
    ensures AllOfLength(Chunks(data, width, count), width)
  {
    forall p | 0 <= p < count ensures |Chunks(data, width, count)[p]| == width {
      MulStep(p, count, width);
    }
  }

  /** Bytes `p * width` up to `(p + 1) * width`, clamped at the end of `data`. */
  function Chunk(data: seq<byte>, width: nat, p: nat): (r: seq<byte>)
    ensures p * width + width <= |data| ==> |r| == width && r == data[p * width..p * width + width]
  {
    Slice(data, p * width, p * width + width)
  }

  /** Cutting a buffer into fixed-size chunks and joining them gives it back. */
  lemma ConcatChunks(data: seq<byte>, width: nat, count: nat)
    requires |data| == count * width
    ensures Concat(Chunks(data, width, count)) == data
  {
    var parts := Chunks(data, width, count);
    ChunksOfLength(data, width, count);
    ConcatLength(parts, width);
    var joined := Concat(parts);
    forall i | 0 <= i < |data| ensures joined[i] == data[i] {
      var p, k := Split(i, width, count);
      ConcatAt(parts, width, p, k);
    }
  }

  /** An index below `count * width` splits into a part and an offset in it. */
  lemma Split(i: nat, width: nat, count: nat) returns (p: nat, k: nat)
    requires i < count * width
    ensures p < count && k < width && i == p * width + k
    ensures p * width + width <= count * width
  {
    p, k := i / width, i % width;
    if p >= count {
      MulStep(count - 1, p, width);
    }
    MulStep(p, count, width);
  }

  /** The buffer after the first `n` writes of a slot-by-slot fill: slot `s`
      holds `slots[s]` and is written by `buf[s*stride:s*stride+stride] = slots[s]`. */
  function Fill(buf: seq<byte>, stride: nat, slots: seq<seq<byte>>, n: nat): (r: seq<byte>)
    requires n <= |slots|
    ensures (forall p :: 0 <= p < n ==> |slots[p]| == stride) && n * stride <= |buf| ==>
              |r| == |buf| && r[n * stride..] == buf[n * stride..]
  {
    if n == 0 then buf
    else
      var lo := (n - 1) * stride;
      var before := Fill(buf, stride, slots, n - 1);
      assert lo + stride == n * stride;
      Splice(before, lo, lo + stride, slots[n - 1])
  }

  /** Products grow with both factors. */
  lemma MulMono(a: nat, b: nat, c: nat, d: nat)
    requires a <= c && b <= d
    ensures a * b <= c * d
  {
    calc {
      a * b;
    <=  { assert a * b <= a * d by { assert a * (d - b) >= 0; } }
      a * d;
    <=  { assert (c - a) * d >= 0; }
      c * d;
    }
  }

  /** One more term of `n` equal terms `a`. */
  lemma MulSucc(a: int, n: nat)
    requires n >= 1
    ensures a * (n - 1) + a == a * n
  {
  }

  /** `c * w` taken `m` times is `c` taken `m * w` times. */
  lemma MulRegroup(c: int, m: int, w: int)
    ensures (c * w) * m == c * (m * w)
  {
  }

  /** Part `p` of a join of equal-length parts sits at `p * width`. */
  lemma ConcatPart<T>(parts: seq<seq<T>>, width: nat, p: nat)
    requires AllOfLength(parts, width) && p < |parts|
    ensures p * width + width <= |Concat(parts)|
    ensures Concat(parts)[p * width..p * width + width] == parts[p]
  {
    ConcatLength(parts, width);
    MulStep(p, |parts|, width);
    forall k | 0 <= k < width
      ensures Concat(parts)[p * width..p * width + width][k] == parts[p][k]
    {
      ConcatAt(parts, width, p, k);
    }
  }

  /** One more write of a slot-by-slot fill. */
  lemma FillStep(buf: seq<byte>, stride: nat, slots: seq<seq<byte>>, n: nat)
    requires n < |slots|
    ensures Fill(buf, stride, slots, n + 1) ==
            Splice(Fill(buf, stride, slots, n), n * stride, n * stride + stride, slots[n])
  {
  }

  /** When every slot value is exactly `stride` bytes long and the buffer was
      allocated for all slots, each write replaces only its own slot: after `n`
      writes the buffer is the first `n` slots followed by the untouched rest. */
  lemma {:induction false} FillUniform(buf: seq<byte>, stride: nat, slots: seq<seq<byte>>, n: nat)
    requires AllOfLength(slots, stride) && |buf| == |slots| * stride
    requires n <= |slots|
    ensures n * stride <= |buf|
    ensures Fill(buf, stride, slots, n) == Concat(slots[..n]) + buf[n * stride..]
  {
    MulStep(n, |slots| + 1, stride);
    if n > 0 {
      FillUniform(buf, stride, slots, n - 1);
      var prefix := slots[..n - 1];
      var lo := (n - 1) * stride;
      assert lo + stride == n * stride;
      assert |Concat(prefix)| == lo by {
        assert AllOfLength(prefix, stride);
        ConcatLength(prefix, stride);
      }
      var before := Fill(buf, stride, slots, n - 1);
      assert before == Concat(prefix) + buf[lo..];
      calc {
        Fill(buf, stride, slots, n);
      ==
        Splice(before, lo, lo + stride, slots[n - 1]);
      ==
        before[..lo] + slots[n - 1] + before[lo + stride..];
      ==  { assert before[..lo] == Concat(prefix); assert before[lo + stride..] == buf[n * stride..]; }
        Concat(prefix) + slots[n - 1] + buf[n * stride..];
      ==  { ConcatPrefixStep(slots, n - 1); }
        Concat(slots[..n]) + buf[n * stride..];
      }
    }
  }

  /** A fill of a buffer allocated for all slots, with slots of the right size,
      leaves exactly the slots laid end to end. */
  lemma FillAll(buf: seq<byte>, stride: nat, slots: seq<seq<byte>>)
    requires AllOfLength(slots, stride) && |buf| == |slots| * stride
    ensures Fill(buf, stride, slots, |slots|) == Concat(slots)
    ensures |Fill(buf, stride, slots, |slots|)| == |slots| * stride
  {
    FillUniform(buf, stride, slots, |slots|);
    assert slots[..|slots|] == slots;
    ConcatLength(slots, stride);
  }
}
