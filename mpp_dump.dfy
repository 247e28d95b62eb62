/**
 * `mppDecode::dump_mpp_frame_to_file`: the bytes appended to the output
 * file for one decoded frame. Every `fwrite` is an append to `out`; the
 * frame's getters are the fields of `FrameInfo`; `new RK_U8[n]` is an array
 * whose indeterminate initial contents are supplied as `junk`.
 *
 * Arithmetic the source does on `RK_U32` values is wrapped with `Wrap32`;
 * address arithmetic is not.
 */
module MppDump {
  import opened Common

  datatype PixFmt = Yuv420sp | Yuv420p | Yuv422sp | Yuv444sp | Yuv400 | OtherFmt(code: nat)

  /** What the `mpp_frame_get_*` getters return; `buffer` is `None` for a frame without one. */
  datatype FrameInfo = FrameInfo(width: nat, height: nat, hStride: nat, vStride: nat,
                                 fmt: PixFmt, buffer: Option<seq<bv8>>)

  // ---- strided rows -------------------------------------------------------

  /** `n` rows of `len` bytes, `stride` apart from `start`, lie inside a buffer of `size` bytes. */
  predicate RowsFit(size: nat, start: nat, stride: nat, n: nat, len: nat)
  {
    n == 0 || start + (n - 1) * stride + len <= size
  }

  lemma RowsFitPrefix(size: nat, start: nat, stride: nat, n: nat, len: nat, m: nat)
    requires RowsFit(size, start, stride, n, len) && m <= n
    ensures RowsFit(size, start, stride, m, len)
  {
    if m > 0 {
      MulMonotone(m - 1, n - 1, stride);
    }
  }

  /** Where output byte `k` of strided rows of `len` bytes is read from. */
  function RowSource(start: nat, stride: nat, len: nat, k: nat): nat
  {
    if len == 0 then start else start + (k / len) * stride + k % len
  }

  lemma RowSourceBound(size: nat, start: nat, stride: nat, n: nat, len: nat, k: nat)
    requires RowsFit(size, start, stride, n, len) && k < n * len
    ensures RowSource(start, stride, len, k) < size
  {
    assert len > 0;
    RowOfIndex(k, len);
    if k / len >= n {
      MulMonotone(n, k / len, len);
    }
    MulMonotone(k / len, n - 1, stride);
  }

  /** The bytes `n` strided rows contribute, row after row. */
  function Rows(base: seq<bv8>, start: nat, stride: nat, n: nat, len: nat): (r: seq<bv8>)
    requires RowsFit(|base|, start, stride, n, len)
    ensures |r| == n * len
  {
    seq(n * len, k requires 0 <= k < n * len =>
      RowSourceBound(|base|, start, stride, n, len, k);
      base[RowSource(start, stride, len, k)])
  }

  /** Byte `j` of row `i` is at `i * len + j` in the output and `start + i * stride + j` in the source. */
  lemma RowsAt(base: seq<bv8>, start: nat, stride: nat, n: nat, len: nat, i: nat, j: nat)
    requires RowsFit(|base|, start, stride, n, len)
    ensures |Rows(base, start, stride, n, len)| == n * len
    ensures i < n && j < len ==>
      i * len + j < n * len && start + i * stride + j < |base| &&
      Rows(base, start, stride, n, len)[i * len + j] == base[start + i * stride + j]
  {
    if i < n && j < len {
      RowBound(i, j, len, n, len);
      DivModOfRow(i, j, len);
      RowSourceBound(|base|, start, stride, n, len, i * len + j);
    }
  }

  /** One more row: the rows so far, then the bytes `[start + n * stride, start + n * stride + len)`. */
  lemma RowsSnoc(base: seq<bv8>, start: nat, stride: nat, n: nat, len: nat)
    requires RowsFit(|base|, start, stride, n + 1, len)
    ensures RowsFit(|base|, start, stride, n, len)
    ensures Rows(base, start, stride, n + 1, len) ==
      Rows(base, start, stride, n, len) + base[start + n * stride .. start + n * stride + len]
  {
    RowsFitPrefix(|base|, start, stride, n + 1, len, n);
    var a, b := Rows(base, start, stride, n + 1, len), Rows(base, start, stride, n, len);
    var s := base[start + n * stride .. start + n * stride + len];
    assert (n + 1) * len == n * len + len;
    forall k | 0 <= k < (n + 1) * len
      ensures a[k] == (b + s)[k]
    {
      RowOfIndex(k, len);
      if k < n * len {
        RowSourceBound(|base|, start, stride, n, len, k);
      } else {
        DivModOfRow(n, k - n * len, len);
      }
    }
  }

  /** `for (i = 0; i < n; i++, p += stride) fwrite(p, 1, len, fp);` */
  method AppendRows(out: seq<bv8>, base: seq<bv8>, start: nat, stride: nat, n: nat, len: nat)
    returns (out': seq<bv8>, next: nat)
    requires RowsFit(|base|, start, stride, n, len)
    ensures out' == out + Rows(base, start, stride, n, len)
    ensures next == start + n * stride
  {
    out', next := out, start;
    var i := 0;
    while i < n
      invariant 0 <= i <= n && next == start + i * stride
      invariant RowsFit(|base|, start, stride, i, len)
      invariant out' == out + Rows(base, start, stride, i, len)
    {
      RowsFitPrefix(|base|, start, stride, n, len, i + 1);
      RowsSnoc(base, start, stride, i, len);
      out' := out' + base[next .. next + len];
      next := next + stride;
      i := i + 1;
    }
  }

  // ---- semi-planar to planar ------------------------------------------------

  /**
   * One de-interleave: `rows` chroma rows, `cStride` apart from `c0`, each
   * holding `cols` U/V pairs; U bytes go to `tmp[u0..]`, V bytes to `tmp[v0..]`.
   */
  datatype SplitPlan = SplitPlan(c0: nat, cStride: nat, rows: nat, cols: nat, u0: nat, v0: nat)

  /** Every pair read lies inside a frame buffer of `baseLen` bytes. */
  predicate PairsFit(baseLen: nat, p: SplitPlan)
  {
    p.rows == 0 || p.cols == 0 || p.c0 + (p.rows - 1) * p.cStride + 2 * p.cols <= baseLen
  }

  /** The reads stay inside the frame, the writes inside `tmp`, and the U block ends before the V block. */
  predicate SplitFits(tmpLen: nat, baseLen: nat, p: SplitPlan)
  {
    && p.u0 + p.rows * p.cols <= p.v0
    && p.v0 + p.rows * p.cols <= tmpLen
    && PairsFit(baseLen, p)
  }

  /** Byte `k` of `tmp` once the first `n` U/V pairs (in row order) were stored over `d`. */
  function SplitStaged(d: seq<bv8>, base: seq<bv8>, p: SplitPlan, n: nat, k: nat): bv8
    requires SplitFits(|d|, |base|, p) && n <= p.rows * p.cols && k < |d|
  {
    if p.u0 <= k < p.u0 + n then
      PairBound(base, p, k - p.u0);
      base[PairAt(p, k - p.u0)]
    else if p.v0 <= k < p.v0 + n then
      PairBound(base, p, k - p.v0);
      base[PairAt(p, k - p.v0) + 1]
    else
      d[k]
  }

  /** `tmp` after the whole de-interleave, starting from contents `d`. */
  function Split(d: seq<bv8>, base: seq<bv8>, p: SplitPlan): (r: seq<bv8>)
    requires SplitFits(|d|, |base|, p)
    ensures |r| == |d|
  {
    seq(|d|, k requires 0 <= k < |d| => SplitStaged(d, base, p, p.rows * p.cols, k))
  }

  /** The nested loops that fill `tmp_u` and `tmp_v`. */
  method Deinterleave(tmp: array<bv8>, base: seq<bv8>, p: SplitPlan)
    requires SplitFits(tmp.Length, |base|, p)
    modifies tmp
    ensures tmp[..] == Split(old(tmp[..]), base, p)
  {
    ghost var d0 := tmp[..];
    var c, u, v := p.c0, p.u0, p.v0;
    var i := 0;
    ghost var n := 0;
    while i < p.rows
      invariant 0 <= i <= p.rows && n == i * p.cols && n <= p.rows * p.cols
      invariant c == p.c0 + i * p.cStride && u == p.u0 + i * p.cols && v == p.v0 + i * p.cols
      invariant forall k :: 0 <= k < tmp.Length ==> tmp[k] == SplitStaged(d0, base, p, n, k)
    {
      MulMonotone(i + 1, p.rows, p.cols);
      var j := 0;
      while j < p.cols
        invariant 0 <= j <= p.cols
        invariant forall k :: 0 <= k < tmp.Length ==> tmp[k] == SplitStaged(d0, base, p, n + j, k)
      {
        SplitStepBounds(base, p, i, j);
        ghost var before := tmp[..];
        tmp[u + j] := base[c + 2 * j];
        tmp[v + j] := base[c + 2 * j + 1];
        StoredPair(before, tmp[..], d0, base, p, i, j);
        j := j + 1;
      }
      c, u, v := c + p.cStride, u + p.cols, v + p.cols;
      n := n + p.cols;
      i := i + 1;
    }
    AllStaged(tmp[..], d0, base, p);
  }

  /** Once all pairs are stored, `tmp` is the de-interleave. */
  lemma AllStaged(t: seq<bv8>, d: seq<bv8>, base: seq<bv8>, p: SplitPlan)
    requires SplitFits(|d|, |base|, p) && |t| == |d|
    requires forall k :: 0 <= k < |t| ==> t[k] == SplitStaged(d, base, p, p.rows * p.cols, k)
    ensures t == Split(d, base, p)
  {
  }

  /** Storing pair `(i, j)` over the first `i * cols + j` pairs gives the first `i * cols + j + 1`. */
  lemma StoredPair(before: seq<bv8>, after: seq<bv8>, d: seq<bv8>, base: seq<bv8>, p: SplitPlan, i: nat, j: nat)
    requires SplitFits(|d|, |base|, p) && |before| == |d| && i < p.rows && j < p.cols
    requires i * p.cols + j < p.rows * p.cols && p.c0 + i * p.cStride + 2 * j + 1 < |base|
    requires forall k :: 0 <= k < |before| ==> before[k] == SplitStaged(d, base, p, i * p.cols + j, k)
    requires p.u0 + i * p.cols + j < |before| && p.v0 + i * p.cols + j < |before|
    requires after == before[p.u0 + i * p.cols + j := base[p.c0 + i * p.cStride + 2 * j]]
                            [p.v0 + i * p.cols + j := base[p.c0 + i * p.cStride + 2 * j + 1]]
    ensures forall k :: 0 <= k < |after| ==> after[k] == SplitStaged(d, base, p, i * p.cols + j + 1, k)
  {
    forall k | 0 <= k < |after|
      ensures after[k] == SplitStaged(d, base, p, i * p.cols + j + 1, k)
    {
      SplitStep(d, base, p, i, j, k);
    }
  }

  /** U pair `(i, j)` lands at `u0 + i * cols + j`, its V byte at `v0 + i * cols + j`. */
  lemma SplitAt(d: seq<bv8>, base: seq<bv8>, p: SplitPlan, i: nat, j: nat)
    requires SplitFits(|d|, |base|, p) && i < p.rows && j < p.cols
    ensures CopiedFrom(Split(d, base, p), p.u0 + i * p.cols + j, base, p.c0 + i * p.cStride + 2 * j)
    ensures CopiedFrom(Split(d, base, p), p.v0 + i * p.cols + j, base, p.c0 + i * p.cStride + 2 * j + 1)
  {
    SplitStepBounds(base, p, i, j);
    DivModOfRow(i, j, p.cols);
    MulMonotone(i + 1, p.rows, p.cols);
  }

  /** Outside the two blocks `tmp` keeps its contents. */
  lemma SplitOutside(d: seq<bv8>, base: seq<bv8>, p: SplitPlan, k: nat)
    requires SplitFits(|d|, |base|, p) && k < |d|
    requires !(p.u0 <= k < p.u0 + p.rows * p.cols) && !(p.v0 <= k < p.v0 + p.rows * p.cols)
    ensures Split(d, base, p)[k] == d[k]
  {
  }

  /** Inside the two blocks every byte is written, whatever `tmp` held. */
  lemma SplitCovers(d1: seq<bv8>, d2: seq<bv8>, base: seq<bv8>, p: SplitPlan, k: nat)
    requires SplitFits(|d1|, |base|, p) && |d2| == |d1|
    requires (p.u0 <= k < p.u0 + p.rows * p.cols) || (p.v0 <= k < p.v0 + p.rows * p.cols)
    ensures Split(d1, base, p)[k] == Split(d2, base, p)[k]
  {
  }

  /** Where the `m`-th pair, in row order, starts in the frame buffer. */
  function PairAt(p: SplitPlan, m: nat): nat
  {
    if p.cols == 0 then p.c0 else p.c0 + (m / p.cols) * p.cStride + 2 * (m % p.cols)
  }

  lemma PairBound(base: seq<bv8>, p: SplitPlan, m: nat)
    requires PairsFit(|base|, p) && m < p.rows * p.cols
    ensures p.cols > 0 && m / p.cols < p.rows
    ensures PairAt(p, m) + 1 < |base|
  {
    assert p.cols > 0;
    RowOfIndex(m, p.cols);
    if m / p.cols >= p.rows {
      MulMonotone(p.rows, m / p.cols, p.cols);
    }
    MulMonotone(m / p.cols, p.rows - 1, p.cStride);
  }

  lemma SplitStepBounds(base: seq<bv8>, p: SplitPlan, i: nat, j: nat)
    requires PairsFit(|base|, p) && i < p.rows && j < p.cols
    ensures i * p.cols + j < p.rows * p.cols
    ensures p.c0 + i * p.cStride + 2 * j + 1 < |base|
  {
    RowBound(i, j, p.cols, p.rows, p.cols);
    MulMonotone(i, p.rows - 1, p.cStride);
  }

  lemma SplitStep(d: seq<bv8>, base: seq<bv8>, p: SplitPlan, i: nat, j: nat, k: nat)
    requires SplitFits(|d|, |base|, p) && i < p.rows && j < p.cols && k < |d|
    ensures i * p.cols + j < p.rows * p.cols
    ensures p.c0 + i * p.cStride + 2 * j + 1 < |base|
    ensures SplitStaged(d, base, p, i * p.cols + j + 1, k) ==
      if k == p.u0 + i * p.cols + j then base[p.c0 + i * p.cStride + 2 * j]
      else if k == p.v0 + i * p.cols + j then base[p.c0 + i * p.cStride + 2 * j + 1]
      else SplitStaged(d, base, p, i * p.cols + j, k)
  {
    SplitStepBounds(base, p, i, j);
    DivModOfRow(i, j, p.cols);
  }

  // ---- the dump -----------------------------------------------------------

  /** `base + h_stride * v_stride`, the product taken in `RK_U32`. */
  function ChromaStart(f: FrameInfo): nat
  {
    Wrap32(f.hStride * f.vStride)
  }

  /** `new RK_U8[h_stride * height * 2]` of the YUV422SP and YUV444SP cases. */
  function TmpLen(f: FrameInfo): nat
  {
    Wrap32(f.hStride * f.height * 2)
  }

  /** YUV422SP: `width / 2` pairs per chroma row, `tmp_v = tmp + width * height / 2`. */
  function Plan422(f: FrameInfo): SplitPlan
  {
    SplitPlan(ChromaStart(f), f.hStride, f.height, f.width / 2, 0, Wrap32(f.width * f.height) / 2)
  }

  /** YUV444SP: `width` pairs per row, rows `h_stride * 2` apart, `tmp_v = tmp + width * height`. */
  function Plan444(f: FrameInfo): SplitPlan
  {
    SplitPlan(ChromaStart(f), Wrap32(f.hStride * 2), f.height, f.width, 0, Wrap32(f.width * f.height))
  }

  /** The luma rows every handled format writes first. */
  predicate LumaFits(f: FrameInfo, size: nat)
  {
    RowsFit(size, 0, f.hStride, f.height, f.width)
  }

  function Luma(f: FrameInfo, base: seq<bv8>): seq<bv8>
    requires LumaFits(f, |base|)
  {
    Rows(base, 0, f.hStride, f.height, f.width)
  }

  predicate Fits420sp(f: FrameInfo, size: nat)
  {
    LumaFits(f, size) && RowsFit(size, ChromaStart(f), f.hStride, f.height / 2, f.width)
  }

  function Out420sp(f: FrameInfo, base: seq<bv8>): seq<bv8>
    requires Fits420sp(f, |base|)
  {
    Luma(f, base) + Rows(base, ChromaStart(f), f.hStride, f.height / 2, f.width)
  }

  /** Where the V rows start: the U loop left `base_c` there. */
  function VStart(f: FrameInfo): nat
  {
    ChromaStart(f) + (f.height / 2) * (f.hStride / 2)
  }

  predicate Fits420p(f: FrameInfo, size: nat)
  {
    && LumaFits(f, size)
    && RowsFit(size, ChromaStart(f), f.hStride / 2, f.height / 2, f.width / 2)
    && RowsFit(size, VStart(f), f.hStride / 2, f.height / 2, f.width / 2)
  }

  function Out420p(f: FrameInfo, base: seq<bv8>): seq<bv8>
    requires Fits420p(f, |base|)
  {
    Luma(f, base) + Rows(base, ChromaStart(f), f.hStride / 2, f.height / 2, f.width / 2)
      + Rows(base, VStart(f), f.hStride / 2, f.height / 2, f.width / 2)
  }

  predicate Fits422sp(f: FrameInfo, size: nat, junkLen: nat)
  {
    && LumaFits(f, size)
    && TmpLen(f) <= junkLen && SplitFits(TmpLen(f), size, Plan422(f))
    && Wrap32(f.width * f.height) <= TmpLen(f)
  }

  function Out422sp(f: FrameInfo, base: seq<bv8>, junk: seq<bv8>): seq<bv8>
    requires Fits422sp(f, |base|, |junk|)
  {
    Luma(f, base) + Split(junk[..TmpLen(f)], base, Plan422(f))[..Wrap32(f.width * f.height)]
  }

  predicate Fits444sp(f: FrameInfo, size: nat, junkLen: nat)
  {
    && LumaFits(f, size)
    && 2 * f.width <= U32
    && TmpLen(f) <= junkLen && SplitFits(TmpLen(f), size, Plan444(f))
    && Wrap32(f.width * f.height * 2) <= TmpLen(f)
  }

  function Out444sp(f: FrameInfo, base: seq<bv8>, junk: seq<bv8>): seq<bv8>
    requires Fits444sp(f, |base|, |junk|)
  {
    Luma(f, base) + Split(junk[..TmpLen(f)], base, Plan444(f))[..Wrap32(f.width * f.height * 2)]
  }

  /** Every access the case for `f.fmt` makes stays inside the frame buffer and `tmp`. */
  predicate DumpDefined(f: FrameInfo, size: nat, junkLen: nat)
  {
    match f.fmt
    case Yuv420sp => Fits420sp(f, size)
    case Yuv420p => Fits420p(f, size)
    case Yuv422sp => Fits422sp(f, size, junkLen)
    case Yuv444sp => Fits444sp(f, size, junkLen)
    case Yuv400 => LumaFits(f, size)
    case OtherFmt(_) => true
  }

  /** The caller's side of the contract: defined behaviour whenever something would be written. */
  predicate DumpRequires(fpOpen: bool, frame: Option<FrameInfo>, junkLen: nat)
  {
    fpOpen && frame.Some? && frame.value.buffer.Some? ==>
      DumpDefined(frame.value, |frame.value.buffer.value|, junkLen)
  }

  /** The bytes the dump writes. */
  function DumpSpec(fpOpen: bool, frame: Option<FrameInfo>, junk: seq<bv8>): seq<bv8>
    requires DumpRequires(fpOpen, frame, |junk|)
  {
    if !fpOpen || frame.None? || frame.value.buffer.None? then []
    else
      var f, base := frame.value, frame.value.buffer.value;
      match f.fmt
      case Yuv420sp => Out420sp(f, base)
      case Yuv420p => Out420p(f, base)
      case Yuv422sp => Out422sp(f, base, junk)
      case Yuv444sp => Out444sp(f, base, junk)
      case Yuv400 => Luma(f, base)
      case OtherFmt(_) => []
  }

  /** `dump_mpp_frame_to_file`; `fpOpen` is `fp != NULL`, `frame` is `None` for a null frame. */
  method DumpFrame(fpOpen: bool, frame: Option<FrameInfo>, junk: seq<bv8>) returns (out: seq<bv8>)
    requires DumpRequires(fpOpen, frame, |junk|)
    ensures out == DumpSpec(fpOpen, frame, junk)
  {
    out := [];
    if !fpOpen || frame.None? {
      return;
    }
    var f := frame.value;
    var w, h, hs := f.width, f.height, f.hStride;
    if f.buffer.None? {
      return;
    }
    var base := f.buffer.value;
    var baseY: nat, baseC: nat := 0, ChromaStart(f);
    match f.fmt {
      case Yuv422sp =>
        var n := TmpLen(f);
        var tmp := new bv8[n](k requires 0 <= k < n => junk[k]);
        assert tmp[..] == junk[..n];
        out, baseY := AppendRows(out, base, baseY, hs, h, w);
        assert out == Luma(f, base);
        Deinterleave(tmp, base, Plan422(f));
        assert tmp[..] == Split(junk[..n], base, Plan422(f));
        out := out + tmp[..Wrap32(w * h)];
      case Yuv420sp =>
        out, baseY := AppendRows(out, base, baseY, hs, h, w);
        out, baseC := AppendRows(out, base, baseC, hs, h / 2, w);
      case Yuv420p =>
        out, baseY := AppendRows(out, base, baseY, hs, h, w);
        out, baseC := AppendRows(out, base, baseC, hs / 2, h / 2, w / 2);
        out, baseC := AppendRows(out, base, baseC, hs / 2, h / 2, w / 2);
      case Yuv444sp =>
        var n := TmpLen(f);
        var tmp := new bv8[n](k requires 0 <= k < n => junk[k]);
        assert tmp[..] == junk[..n];
        out, baseY := AppendRows(out, base, baseY, hs, h, w);
        assert out == Luma(f, base);
        Deinterleave(tmp, base, Plan444(f));
        assert tmp[..] == Split(junk[..n], base, Plan444(f));
        out := out + tmp[..Wrap32(w * h * 2)];
      case Yuv400 =>
        out, baseY := AppendRows(out, base, baseY, hs, h, w);
      case OtherFmt(_) =>
    }
  }

  // ---- what each case writes ---------------------------------------------

  /** Nothing is written without a file, a frame, a buffer or a handled format. */
  lemma DumpWritesNothing(fpOpen: bool, frame: Option<FrameInfo>, junk: seq<bv8>)
    requires DumpRequires(fpOpen, frame, |junk|)
    requires !fpOpen || frame.None? || frame.value.buffer.None? || frame.value.fmt.OtherFmt?
    ensures DumpSpec(fpOpen, frame, junk) == []
  {
  }

  /** YUV400 writes the luma rows and nothing else; the `tmp` it allocates is never used. */
  lemma Dump400(f: FrameInfo, junk: seq<bv8>)
    requires f.fmt == Yuv400 && f.buffer.Some? && LumaFits(f, |f.buffer.value|)
    ensures DumpSpec(true, Some(f), junk) == Luma(f, f.buffer.value)
    ensures |DumpSpec(true, Some(f), junk)| == f.width * f.height
  {
    LumaAt(f, f.buffer.value, 0, 0);
  }

  /** Byte `j` of luma row `i` is `base[i * h_stride + j]`, written at `i * width + j`. */
  lemma LumaAt(f: FrameInfo, base: seq<bv8>, i: nat, j: nat)
    requires LumaFits(f, |base|)
    ensures |Luma(f, base)| == f.width * f.height
    ensures i < f.height && j < f.width ==> CopiedFrom(Luma(f, base), i * f.width + j, base, i * f.hStride + j)
  {
    var w, h, hs := f.width, f.height, f.hStride;
    RowsAt(base, 0, hs, h, w, i, j);
    assert h * w == w * h;
  }

  /** Byte `j` of row `i` of rows appended after `pre`. */
  lemma AfterRowsAt(pre: seq<bv8>, base: seq<bv8>, start: nat, stride: nat, n: nat, len: nat, i: nat, j: nat)
    requires RowsFit(|base|, start, stride, n, len) && i < n && j < len
    ensures CopiedFrom(pre + Rows(base, start, stride, n, len), |pre| + i * len + j, base, start + i * stride + j)
  {
    RowsAt(base, start, stride, n, len, i, j);
  }

  /**
   * YUV420SP: `width * height` luma bytes, then `height / 2` chroma rows of
   * `width` bytes, row `i` read from `h_stride * v_stride + i * h_stride`.
   */
  lemma Dump420sp(f: FrameInfo, base: seq<bv8>, i: nat, j: nat)
    requires Fits420sp(f, |base|)
    requires i < f.height / 2 && j < f.width
    ensures |Out420sp(f, base)| == f.width * f.height + (f.height / 2) * f.width
    ensures CopiedFrom(Out420sp(f, base), f.width * f.height + i * f.width + j, base, ChromaStart(f) + i * f.hStride + j)
  {
    LumaAt(f, base, 0, 0);
    RowsAt(base, ChromaStart(f), f.hStride, f.height / 2, f.width, i, j);
    AfterRowsAt(Luma(f, base), base, ChromaStart(f), f.hStride, f.height / 2, f.width, i, j);
  }

  /**
   * YUV420P: `height / 2` U rows of `width / 2` bytes at stride
   * `h_stride / 2`, then as many V rows, which read on from where the U rows
   * stopped: V row `i` starts at `h_stride * v_stride + (height / 2 + i) * (h_stride / 2)`.
   */
  lemma Dump420p(f: FrameInfo, base: seq<bv8>, i: nat, j: nat)
    requires Fits420p(f, |base|)
    requires i < f.height / 2 && j < f.width / 2
    ensures |Out420p(f, base)| == f.width * f.height + 2 * ((f.height / 2) * (f.width / 2))
    ensures var c, n, q := f.width * f.height, (f.height / 2) * (f.width / 2), f.hStride / 2;
      && CopiedFrom(Out420p(f, base), c + i * (f.width / 2) + j, base, ChromaStart(f) + i * q + j)
      && CopiedFrom(Out420p(f, base), c + n + i * (f.width / 2) + j, base, ChromaStart(f) + (f.height / 2 + i) * q + j)
  {
    LumaAt(f, base, 0, 0);
    TwoBlocksAt(Luma(f, base), base, ChromaStart(f), VStart(f), f.hStride / 2, f.height / 2, f.width / 2, i, j);
    NextRowStart(ChromaStart(f), f.height / 2, i, f.hStride / 2, j);
  }

  /** Two blocks of rows after `pre`: the first block's byte `(i, j)`, then the second's. */
  lemma TwoBlocksAt(pre: seq<bv8>, base: seq<bv8>, s1: nat, s2: nat, stride: nat, n: nat, len: nat, i: nat, j: nat)
    requires RowsFit(|base|, s1, stride, n, len) && RowsFit(|base|, s2, stride, n, len)
    requires i < n && j < len
    ensures |pre + Rows(base, s1, stride, n, len) + Rows(base, s2, stride, n, len)| == |pre| + 2 * (n * len)
    ensures var out := pre + Rows(base, s1, stride, n, len) + Rows(base, s2, stride, n, len);
      && CopiedFrom(out, |pre| + i * len + j, base, s1 + i * stride + j)
      && CopiedFrom(out, |pre| + n * len + i * len + j, base, s2 + i * stride + j)
  {
    var r1 := Rows(base, s1, stride, n, len);
    AfterRowsAt(pre, base, s1, stride, n, len, i, j);
    AfterRowsAt(pre + r1, base, s2, stride, n, len, i, j);
  }

  /** Row `n + i` of a block starting at `s` is row `i` of the block that starts `n` rows later. */
  lemma NextRowStart(s: nat, n: nat, i: nat, q: nat, j: nat)
    ensures s + n * q + i * q + j == s + (n + i) * q + j
  {
  }

  /** A plan's de-interleaved bytes, cut to `count`, after `pre`: where pair `(i, j)` lands. */
  lemma SplitAfterAt(pre: seq<bv8>, d: seq<bv8>, base: seq<bv8>, p: SplitPlan, count: nat, i: nat, j: nat)
    requires SplitFits(|d|, |base|, p) && i < p.rows && j < p.cols
    requires p.v0 + p.rows * p.cols <= count <= |d|
    ensures |pre + Split(d, base, p)[..count]| == |pre| + count
    ensures var out := pre + Split(d, base, p)[..count];
      && CopiedFrom(out, |pre| + p.u0 + i * p.cols + j, base, p.c0 + i * p.cStride + 2 * j)
      && CopiedFrom(out, |pre| + p.v0 + i * p.cols + j, base, p.c0 + i * p.cStride + 2 * j + 1)
  {
    SplitAt(d, base, p, i, j);
    SplitStepBounds(base, p, i, j);
    var s := Split(d, base, p);
    AfterPrefixAt(pre, s, count, p.u0 + i * p.cols + j);
    AfterPrefixAt(pre, s, count, p.v0 + i * p.cols + j);
  }

  /** Byte `k < count` of `s`, cut to `count` and placed after `pre`. */
  lemma AfterPrefixAt(pre: seq<bv8>, s: seq<bv8>, count: nat, k: nat)
    requires k < count <= |s|
    ensures |pre + s[..count]| == |pre| + count && (pre + s[..count])[|pre| + k] == s[k]
  {
  }

  /**
   * YUV444SP without wrap-around: all `width * height` U bytes, then all V
   * bytes, chroma rows read `2 * h_stride` apart; every byte comes from the frame.
   */
  lemma Dump444sp(f: FrameInfo, base: seq<bv8>, junk: seq<bv8>, i: nat, j: nat)
    requires Fits444sp(f, |base|, |junk|)
    requires f.width * f.height * 2 < U32 && f.hStride * 2 < U32
    requires i < f.height && j < f.width
    ensures |Out444sp(f, base, junk)| == 3 * (f.width * f.height)
    ensures var c, cs := f.width * f.height, 2 * f.hStride;
      && CopiedFrom(Out444sp(f, base, junk), c + i * f.width + j, base, ChromaStart(f) + i * cs + 2 * j)
      && CopiedFrom(Out444sp(f, base, junk), 2 * c + i * f.width + j, base, ChromaStart(f) + i * cs + 2 * j + 1)
  {
    var c := f.width * f.height;
    LumaAt(f, base, 0, 0);
    assert Wrap32(c * 2) == 2 * c;
    assert Plan444(f) == SplitPlan(ChromaStart(f), 2 * f.hStride, f.height, f.width, 0, c);
    SplitAfterAt(Luma(f, base), junk[..TmpLen(f)], base, Plan444(f), 2 * c, i, j);
  }

  /**
   * YUV422SP without wrap-around: the U bytes of all rows, `width / 2` per
   * row, then, from `width * height / 2` on, the V bytes; each comes from the frame.
   */
  lemma Dump422sp(f: FrameInfo, base: seq<bv8>, junk: seq<bv8>, i: nat, j: nat)
    requires Fits422sp(f, |base|, |junk|)
    requires f.width * f.height < U32
    requires i < f.height && j < f.width / 2
    ensures |Out422sp(f, base, junk)| == 2 * (f.width * f.height)
    ensures var c := f.width * f.height;
      && CopiedFrom(Out422sp(f, base, junk), c + i * (f.width / 2) + j, base, ChromaStart(f) + i * f.hStride + 2 * j)
      && CopiedFrom(Out422sp(f, base, junk), c + c / 2 + i * (f.width / 2) + j, base, ChromaStart(f) + i * f.hStride + 2 * j + 1)
  {
    var c := f.width * f.height;
    LumaAt(f, base, 0, 0);
    HalfBlocks(f.width, f.height);
    assert Plan422(f) == SplitPlan(ChromaStart(f), f.hStride, f.height, f.width / 2, 0, c / 2);
    SplitAfterAt(Luma(f, base), junk[..TmpLen(f)], base, Plan422(f), c, i, j);
  }

  /**
   * The chroma bytes written that neither block covers: after the U block up
   * to `width * height / 2`, and after the V block up to `width * height`.
   * They are the old contents of `tmp`; for an even width there are none.
   */
  lemma Dump422spUnstoredFromTmp(f: FrameInfo, base: seq<bv8>, junk: seq<bv8>, k: nat)
    requires Fits422sp(f, |base|, |junk|)
    requires f.width * f.height < U32
    requires var c, n := f.width * f.height, f.height * (f.width / 2);
      (n <= k < c / 2) || (c / 2 + n <= k < c)
    ensures CopiedFrom(Out422sp(f, base, junk), f.width * f.height + k, junk, k)
  {
    var c := f.width * f.height;
    LumaAt(f, base, 0, 0);
    HalfBlocks(f.width, f.height);
    var d := junk[..TmpLen(f)];
    assert Plan422(f) == SplitPlan(ChromaStart(f), f.hStride, f.height, f.width / 2, 0, c / 2);
    SplitOutside(d, base, Plan422(f), k);
    AfterPrefixAt(Luma(f, base), Split(d, base, Plan422(f)), c, k);
  }

  /** The U block fits below `width * height / 2` and the V block after it below `width * height`. */
  lemma HalfBlocks(w: nat, h: nat)
    ensures (w / 2) * h <= (w * h) / 2 && (w * h) / 2 + (w / 2) * h <= w * h
  {
    MulMonotone(2 * (w / 2), w, h);
    assert 2 * (w / 2) * h == 2 * ((w / 2) * h);
  }

  lemma EvenHalf(w: nat, h: nat)
    requires w % 2 == 0
    ensures w * h / 2 == (w / 2) * h && w * h == 2 * ((w / 2) * h)
  {
    var a := w / 2;
    assert w == 2 * a;
    assert w * h == 2 * (a * h);
  }

  // ---- YUV422SP with an odd width -------------------------------------------

  /**
   * As written, `tmp_v` starts at `width * height / 2` while each row stores
   * only `width / 2` U bytes: for an odd width the U block ends `height`
   * bytes early, and the `width * height` bytes written include bytes of
   * `tmp` that no loop stored. For a 3x2 frame, byte 2 of the chroma part is
   * whatever the fresh allocation held.
   */
  lemma Dump422spOddWidthLeaksTmp()
    ensures var f := FrameInfo(3, 2, 4, 2, Yuv422sp, Some(seq(16, k => 0 as bv8)));
      var zeros, ones := seq(16, k => 0 as bv8), seq(16, k => 1 as bv8);
      && Fits422sp(f, 16, 16)
      && Out422sp(f, f.buffer.value, zeros)[6 + 2] == 0
      && Out422sp(f, f.buffer.value, ones)[6 + 2] == 1
  {
    var f := FrameInfo(3, 2, 4, 2, Yuv422sp, Some(seq(16, k => 0 as bv8)));
    var base, zeros, ones := f.buffer.value, seq(16, k => 0 as bv8), seq(16, k => 1 as bv8);
    assert ChromaStart(f) == 8 && TmpLen(f) == 16 && Wrap32(6) == 6;
    assert Plan422(f) == SplitPlan(8, 4, 2, 1, 0, 3);
    assert Fits422sp(f, |base|, 16);
    LumaAt(f, base, 0, 0);
    SplitOutside(zeros[..16], base, Plan422(f), 2);
    SplitOutside(ones[..16], base, Plan422(f), 2);
    var s0, s1 := Split(zeros[..16], base, Plan422(f)), Split(ones[..16], base, Plan422(f));
    assert (Luma(f, base) + s0[..6])[6 + 2] == s0[2];
    assert (Luma(f, base) + s1[..6])[6 + 2] == s1[2];
  }

  /** The evident intent: the V block follows the `(width / 2) * height` U bytes, and only those blocks are written. */
  function Plan422Intended(f: FrameInfo): SplitPlan
  {
    SplitPlan(ChromaStart(f), f.hStride, f.height, f.width / 2, 0, (f.width / 2) * f.height)
  }

  predicate Fits422spIntended(f: FrameInfo, size: nat, junkLen: nat)
  {
    LumaFits(f, size) && TmpLen(f) <= junkLen && SplitFits(TmpLen(f), size, Plan422Intended(f))
  }

  function Out422spIntended(f: FrameInfo, base: seq<bv8>, junk: seq<bv8>): seq<bv8>
    requires Fits422spIntended(f, |base|, |junk|)
  {
    Luma(f, base) + Split(junk[..TmpLen(f)], base, Plan422Intended(f))[..2 * ((f.width / 2) * f.height)]
  }

  /** With the intended offsets no byte written depends on what `tmp` held before. */
  lemma Dump422spIntendedIgnoresTmp(f: FrameInfo, base: seq<bv8>, junk1: seq<bv8>, junk2: seq<bv8>)
    requires Fits422spIntended(f, |base|, |junk1|) && Fits422spIntended(f, |base|, |junk2|)
    ensures Out422spIntended(f, base, junk1) == Out422spIntended(f, base, junk2)
  {
    var p, n := Plan422Intended(f), (f.width / 2) * f.height;
    assert p.rows * p.cols == n;
    var d1, d2 := junk1[..TmpLen(f)], junk2[..TmpLen(f)];
    forall k | 0 <= k < 2 * n
      ensures Split(d1, base, p)[k] == Split(d2, base, p)[k]
    {
      SplitCovers(d1, d2, base, p, k);
    }
  }

  /** For even widths without wrap-around the intended dump is the one written. */
  lemma Dump422spIntendedAgreesWhenEven(f: FrameInfo, base: seq<bv8>, junk: seq<bv8>)
    requires f.width % 2 == 0 && f.width * f.height < U32
    requires Fits422sp(f, |base|, |junk|)
    ensures Fits422spIntended(f, |base|, |junk|)
    ensures Out422spIntended(f, base, junk) == Out422sp(f, base, junk)
  {
    EvenHalf(f.width, f.height);
    assert Plan422(f) == Plan422Intended(f);
  }
}
