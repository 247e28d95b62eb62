/**
 * Step 3 of `DrmDisplay::DisplayFrame`: the decoder's packed NV12 frame
 * (row stride = width) is copied row by row into the mapped dumb buffer,
 * whose rows are `yPitch` apart; the chroma rows start at `ySize`.
 *
 * `RowsCopied` is a family of row copies, one `memcpy` per row; `Restrided`
 * is the luma family followed by the chroma family, what the mapped buffer
 * holds afterwards. `CopyNv12` is the two loops, proved to produce it; the
 * lemmas below give, byte by byte, the two row equations and the untouched
 * padding.
 */
module Nv12Copy {
  import opened Common
  import opened Nv12Layout

  /** What the copy relies on: wide enough rows, chroma after luma, large enough buffers. */
  predicate CopyFits(dLen: nat, sLen: nat, w: nat, h: nat, l: Layout)
  {
    && l.uvPitch == l.yPitch
    && w <= l.yPitch
    && h * l.yPitch <= l.ySize
    && Footprint(w, h, l) <= dLen
    && SourceBytes(w, h) <= sLen
  }

  /** `n` rows of `w` bytes, read `w` apart from `sOff`, written `dp` apart from `dOff`, fit both buffers. */
  predicate RowsFitIn(dLen: nat, sLen: nat, dOff: nat, dp: nat, sOff: nat, w: nat, n: nat)
  {
    w <= dp && (n == 0 || dOff + (n - 1) * dp + w <= dLen) && sOff + n * w <= sLen
  }

  /** The first row fits, and so do the rows after it. */
  lemma RowsFitInTail(dLen: nat, sLen: nat, dOff: nat, dp: nat, sOff: nat, w: nat, n: nat)
    requires RowsFitIn(dLen, sLen, dOff, dp, sOff, w, n) && n > 0
    ensures dOff + w <= dLen && sOff + w <= sLen
    ensures RowsFitIn(dLen, sLen, dOff + dp, dp, sOff + w, w, n - 1)
  {
  }

  /** `x` with the bytes from `off` on replaced by `row`: one `memcpy`. */
  function Splice(x: seq<bv8>, off: nat, row: seq<bv8>): (r: seq<bv8>)
    requires off + |row| <= |x|
    ensures |r| == |x|
  {
    x[..off] + row + x[off + |row|..]
  }

  lemma SpliceAt(x: seq<bv8>, off: nat, row: seq<bv8>, k: nat)
    requires off + |row| <= |x| && k < |x|
    ensures Splice(x, off, row)[k] == if off <= k < off + |row| then row[k - off] else x[k]
  {
  }

  /** `x` after `n` rows were copied into it, the first at `dOff` from `sOff`. */
  function RowsCopied(x: seq<bv8>, src: seq<bv8>, dOff: nat, dp: nat, sOff: nat, w: nat, n: nat): (r: seq<bv8>)
    requires RowsFitIn(|x|, |src|, dOff, dp, sOff, w, n)
    ensures |r| == |x|
    decreases n
  {
    if n == 0 then x
    else
      RowsFitInTail(|x|, |src|, dOff, dp, sOff, w, n);
      RowsCopied(Splice(x, dOff, src[sOff .. sOff + w]), src, dOff + dp, dp, sOff + w, w, n - 1)
  }

  /** What the two loops rely on, as two families of rows. */
  lemma CopyFitsRows(dLen: nat, sLen: nat, w: nat, h: nat, l: Layout)
    requires CopyFits(dLen, sLen, w, h, l)
    ensures RowsFitIn(dLen, sLen, 0, l.yPitch, 0, w, h)
    ensures RowsFitIn(dLen, sLen, l.ySize, l.uvPitch, w * h, w, h / 2)
    ensures h == 0 || (h - 1) * l.yPitch + w <= l.ySize
  {
    if h > 0 {
      MulMonotone(h - 1, h, l.yPitch);
    }
    if h / 2 > 0 {
      MulMonotone(0, h / 2 - 1, l.uvPitch);
    }
  }

  /** The mapped buffer after both copy loops, starting from contents `d`. */
  function Restrided(d: seq<bv8>, src: seq<bv8>, w: nat, h: nat, l: Layout): (r: seq<bv8>)
    requires CopyFits(|d|, |src|, w, h, l)
    ensures |r| == |d|
  {
    CopyFitsRows(|d|, |src|, w, h, l);
    RowsCopied(RowsCopied(d, src, 0, l.yPitch, 0, w, h), src, l.ySize, l.uvPitch, w * h, w, h / 2)
  }

  /** `memcpy(dst + dOff, src + sOff, n)`. */
  method MemCpy(dst: array<bv8>, dOff: nat, src: seq<bv8>, sOff: nat, n: nat)
    requires dOff + n <= dst.Length && sOff + n <= |src|
    modifies dst
    ensures dst[..] == Splice(old(dst[..]), dOff, src[sOff .. sOff + n])
  {
    forall k | dOff <= k < dOff + n {
      dst[k] := src[sOff + (k - dOff)];
    }
    assert dst[..] == Splice(old(dst[..]), dOff, src[sOff .. sOff + n]) by {
      forall k | 0 <= k < dst.Length
        ensures dst[..][k] == Splice(old(dst[..]), dOff, src[sOff .. sOff + n])[k]
      {
        SpliceAt(old(dst[..]), dOff, src[sOff .. sOff + n], k);
      }
    }
  }

  /**
   * The rows from `i` on still to be copied, from `dOff + i * dp` and
   * `sOff + i * w`; one `memcpy` of row `i` leaves the rows from `i + 1` on.
   */
  method CopyRows(dst: array<bv8>, src: seq<bv8>, dOff: nat, dp: nat, sOff: nat, w: nat, n: nat)
    requires RowsFitIn(dst.Length, |src|, dOff, dp, sOff, w, n)
    modifies dst
    ensures dst[..] == RowsCopied(old(dst[..]), src, dOff, dp, sOff, w, n)
  {
    ghost var d0 := dst[..];
    var i := 0;
    while i < n
      invariant 0 <= i <= n
      invariant RowsFitIn(dst.Length, |src|, dOff + i * dp, dp, sOff + i * w, w, n - i)
      invariant RowsCopied(dst[..], src, dOff + i * dp, dp, sOff + i * w, w, n - i)
             == RowsCopied(d0, src, dOff, dp, sOff, w, n)
    {
      RowsFitInTail(dst.Length, |src|, dOff + i * dp, dp, sOff + i * w, w, n - i);
      assert dOff + (i + 1) * dp == dOff + i * dp + dp && sOff + (i + 1) * w == sOff + i * w + w;
      MemCpy(dst, dOff + i * dp, src, sOff + i * w, w);
      i := i + 1;
    }
  }

  /** The luma loop and the chroma loop of `DisplayFrame`. */
  method CopyNv12(dst: array<bv8>, src: seq<bv8>, w: nat, h: nat, l: Layout)
    requires CopyFits(dst.Length, |src|, w, h, l)
    modifies dst
    ensures dst[..] == Restrided(old(dst[..]), src, w, h, l)
  {
    CopyFitsRows(dst.Length, |src|, w, h, l);
    CopyRows(dst, src, 0, l.yPitch, 0, w, h);
    CopyRows(dst, src, l.ySize, l.uvPitch, w * h, w, h / 2);
  }

  // ---- what the copy promises ----------------------------------------------

  /** Luma row `i < h`, column `j < w` lands at `i * yPitch + j`. */
  lemma RestridedLuma(d: seq<bv8>, src: seq<bv8>, w: nat, h: nat, l: Layout, i: nat, j: nat)
    requires CopyFits(|d|, |src|, w, h, l)
    requires i < h && j < w
    ensures CopiedFrom(Restrided(d, src, w, h, l), i * l.yPitch + j, src, i * w + j)
  {
    CopyFitsRows(|d|, |src|, w, h, l);
    RowsCopiedAt(d, src, 0, l.yPitch, 0, w, h, i, j);
    MulMonotone(i, h - 1, l.yPitch);
    var x := RowsCopied(d, src, 0, l.yPitch, 0, w, h);
    RowsCopiedBelow(x, src, l.ySize, l.uvPitch, w * h, w, h / 2, i * l.yPitch + j);
  }

  /** Chroma row `i < h / 2`, column `j < w` lands at `ySize + i * uvPitch + j`. */
  lemma RestridedChroma(d: seq<bv8>, src: seq<bv8>, w: nat, h: nat, l: Layout, i: nat, j: nat)
    requires CopyFits(|d|, |src|, w, h, l)
    requires i < h / 2 && j < w
    ensures CopiedFrom(Restrided(d, src, w, h, l), l.ySize + i * l.uvPitch + j, src, w * h + i * w + j)
  {
    CopyFitsRows(|d|, |src|, w, h, l);
    RowsCopiedAt(RowsCopied(d, src, 0, l.yPitch, 0, w, h), src, l.ySize, l.uvPitch, w * h, w, h / 2, i, j);
  }

  function RowStart(i: nat, pitch: nat): nat
  {
    i * pitch
  }

  /** A byte outside every copied luma and chroma row keeps its old value. */
  lemma RestridedPadding(d: seq<bv8>, src: seq<bv8>, w: nat, h: nat, l: Layout, k: nat)
    requires CopyFits(|d|, |src|, w, h, l)
    requires k < |d|
    requires forall i :: 0 <= i < h ==> !(RowStart(i, l.yPitch) <= k < RowStart(i, l.yPitch) + w)
    requires forall i :: 0 <= i < h / 2 ==>
      !(l.ySize + RowStart(i, l.uvPitch) <= k < l.ySize + RowStart(i, l.uvPitch) + w)
    ensures Restrided(d, src, w, h, l)[k] == d[k]
  {
    CopyFitsRows(|d|, |src|, w, h, l);
    RowsCopiedOutside(d, src, 0, l.yPitch, 0, w, h, k);
    RowsCopiedOutside(RowsCopied(d, src, 0, l.yPitch, 0, w, h), src, l.ySize, l.uvPitch, w * h, w, h / 2, k);
  }

  // ---- rows copied one after another -----------------------------------------

  /** Row `i < n`, column `j` of the copied rows holds source row `i`, column `j`. */
  lemma {:induction false} RowsCopiedAt(x: seq<bv8>, src: seq<bv8>, dOff: nat, dp: nat, sOff: nat, w: nat, n: nat, i: nat, j: nat)
    requires RowsFitIn(|x|, |src|, dOff, dp, sOff, w, n) && i < n && j < w
    ensures CopiedFrom(RowsCopied(x, src, dOff, dp, sOff, w, n), dOff + i * dp + j, src, sOff + i * w + j)
    decreases n
  {
    RowsFitInTail(|x|, |src|, dOff, dp, sOff, w, n);
    var y := Splice(x, dOff, src[sOff .. sOff + w]);
    if i == 0 {
      SpliceAt(x, dOff, src[sOff .. sOff + w], dOff + j);
      RowsCopiedBelow(y, src, dOff + dp, dp, sOff + w, w, n - 1, dOff + j);
    } else {
      RowsCopiedAt(y, src, dOff + dp, dp, sOff + w, w, n - 1, i - 1, j);
      assert (dOff + dp) + (i - 1) * dp == dOff + i * dp;
      assert (sOff + w) + (i - 1) * w == sOff + i * w;
    }
  }

  /** A byte outside the `n` rows keeps its value. */
  lemma {:induction false} RowsCopiedOutside(x: seq<bv8>, src: seq<bv8>, dOff: nat, dp: nat, sOff: nat, w: nat, n: nat, k: nat)
    requires RowsFitIn(|x|, |src|, dOff, dp, sOff, w, n) && k < |x|
    requires forall i :: 0 <= i < n ==> !(dOff + RowStart(i, dp) <= k < dOff + RowStart(i, dp) + w)
    ensures RowsCopied(x, src, dOff, dp, sOff, w, n)[k] == x[k]
    decreases n
  {
    if n > 0 {
      RowsFitInTail(|x|, |src|, dOff, dp, sOff, w, n);
      assert RowStart(0, dp) == 0;
      SpliceAt(x, dOff, src[sOff .. sOff + w], k);
      forall i | 0 <= i < n - 1
        ensures !(dOff + dp + RowStart(i, dp) <= k < dOff + dp + RowStart(i, dp) + w)
      {
        assert RowStart(i + 1, dp) == dp + RowStart(i, dp);
      }
      RowsCopiedOutside(Splice(x, dOff, src[sOff .. sOff + w]), src, dOff + dp, dp, sOff + w, w, n - 1, k);
    }
  }

  /** Bytes before the first row keep their value. */
  lemma {:induction false} RowsCopiedBelow(x: seq<bv8>, src: seq<bv8>, dOff: nat, dp: nat, sOff: nat, w: nat, n: nat, k: nat)
    requires RowsFitIn(|x|, |src|, dOff, dp, sOff, w, n) && k < |x| && k < dOff
    ensures RowsCopied(x, src, dOff, dp, sOff, w, n)[k] == x[k]
    decreases n
  {
    if n > 0 {
      RowsFitInTail(|x|, |src|, dOff, dp, sOff, w, n);
      SpliceAt(x, dOff, src[sOff .. sOff + w], k);
      RowsCopiedBelow(Splice(x, dOff, src[sOff .. sOff + w]), src, dOff + dp, dp, sOff + w, w, n - 1, k);
    }
  }
}
