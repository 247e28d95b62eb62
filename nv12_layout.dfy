/**
 * The two-plane 4:2:0 (NV12) buffer layout that `DrmDisplay::DisplayFrame`
 * computes from `width_` and `height_`: both planes use the width rounded up
 * to 16 as their pitch, and the chroma plane starts after the luma plane's
 * 16-aligned height.
 */
module Nv12Layout {
  import opened Common
  import opened DrmKernel

  datatype Layout = Layout(yPitch: nat, uvPitch: nat, ySize: nat, uvSize: nat)

  /** The four `const uint32_t` of the presenter, wrap-around included. */
  function LayoutOf(width: nat, height: nat): Layout
  {
    var pitch := AlignU32(width);
    Layout(pitch, pitch, Wrap32(pitch * AlignU32(height)), Wrap32(pitch * AlignU32(height / 2)))
  }

  /** Frames whose layout arithmetic stays below 2^32. */
  predicate Fits32(width: nat, height: nat)
  {
    width + 15 < U32 && height + 15 < U32 && Align16(width) * (Align16(height) + Align16(height / 2)) < U32
  }

  /** The handles, pitches and offsets arrays given to `drmModeAddFB2`. */
  function Nv12Planes(handle: nat, l: Layout): seq<FbPlane>
  {
    [FbPlane(handle, l.yPitch, 0), FbPlane(handle, l.uvPitch, l.ySize), FbPlane(0, 0, 0), FbPlane(0, 0, 0)]
  }

  /** The dumb buffer asked for: `width_` by `height_ * 3 / 2` at 8 bpp. */
  function Nv12Request(width: nat, height: nat): DumbRequest
  {
    DumbRequest(width, Wrap32(height * 3) / 2, 8)
  }

  /** The least byte count a dumb buffer for `req` can have. */
  function RequestBytes(req: DumbRequest): nat
  {
    req.width * req.height * req.bpp / 8
  }

  /** One past the last destination byte the row-by-row copy writes. */
  function Footprint(width: nat, height: nat, l: Layout): nat
  {
    if height / 2 > 0 then l.ySize + (height / 2 - 1) * l.uvPitch + width
    else if height > 0 then (height - 1) * l.yPitch + width
    else 0
  }

  /** The bytes the decoder hands over: a packed luma plane and half as many chroma rows. */
  function SourceBytes(width: nat, height: nat): nat
  {
    width * height + (height / 2) * width
  }

  /**
   * Without wrap-around, both pitches are the least multiple of 16 that is
   * at least the width, and the chroma plane starts at pitch times the
   * 16-aligned height.
   */
  lemma LayoutOfFits(width: nat, height: nat)
    requires Fits32(width, height)
    ensures var l := LayoutOf(width, height);
      && l.yPitch == l.uvPitch == Align16(width)
      && l.yPitch % 16 == 0 && width <= l.yPitch < width + 16
      && (forall m :: m % 16 == 0 && m >= width ==> l.yPitch <= m)
      && l.ySize == l.yPitch * Align16(height)
      && l.uvSize == l.yPitch * Align16(height / 2)
      && l.yPitch * height <= l.ySize
      && Footprint(width, height, l) <= l.ySize + l.uvSize
  {
    var p, ah, ah2 := Align16(width), Align16(height), Align16(height / 2);
    LayoutOfAligned(width, height);
    forall m | m % 16 == 0 && m >= width
      ensures p <= m
    {
      Align16IsLeast(width, m);
    }
    FootprintWithin(width, height, p, ah, ah2);
  }

  lemma LayoutOfAligned(width: nat, height: nat)
    requires Fits32(width, height)
    ensures LayoutOf(width, height).yPitch == LayoutOf(width, height).uvPitch == Align16(width)
    ensures LayoutOf(width, height).ySize == Align16(width) * Align16(height)
    ensures LayoutOf(width, height).uvSize == Align16(width) * Align16(height / 2)
  {
    var p, ah, ah2 := Align16(width), Align16(height), Align16(height / 2);
    ProductsBelow(p, ah, ah2);
    NoWrap(p * ah);
    NoWrap(p * ah2);
  }

  lemma NoWrap(x: int)
    requires 0 <= x < U32
    ensures Wrap32(x) == x
  {
  }

  /** Both plane sizes stay below a bound on their sum. */
  lemma ProductsBelow(p: nat, a: nat, b: nat)
    requires p * (a + b) < U32
    ensures p * (a + b) == p * a + p * b && p * a < U32 && p * b < U32
  {
  }

  /** Rows `pitch` apart within planes of `ah` and `ah2` rows end within the two planes. */
  lemma FootprintWithin(width: nat, height: nat, p: nat, ah: nat, ah2: nat)
    requires width <= p && height <= ah && height / 2 <= ah2
    ensures p * height <= p * ah
    ensures Footprint(width, height, Layout(p, p, p * ah, p * ah2)) <= p * ah + p * ah2
  {
    MulMonotone(height, ah, p);
    if height / 2 > 0 {
      MulMonotone(height / 2, ah2, p);
      assert (height / 2 - 1) * p + width <= (height / 2) * p;
    } else if height > 0 {
      MulMonotone(height - 1, ah, p);
    }
  }

  /** The 1920x1080 frame of the capture loop: pitch 1920 and chroma at 1920 * 1088. */
  lemma Layout1080p()
    ensures LayoutOf(1920, 1080) == Layout(1920, 1920, 1920 * 1088, 1920 * 544)
  {
    var p := AlignU32(1920);
    assert p == 1920 by { assert Wrap32(1935) == 1935; }
    var a := AlignU32(1080);
    assert a == 1088 by { assert Wrap32(1095) == 1095; }
    var b := AlignU32(540);
    assert b == 544 by { assert Wrap32(555) == 555; }
    assert Wrap32(p * a) == 1920 * 1088;
    assert Wrap32(p * b) == 1920 * 544;
  }

  /**
   * As written, the request for a 1920x1080 frame is 1920 x 1620 bytes,
   * which is less than the aligned copy writes, even after the kernel rounds
   * the size up to a whole 4096-byte page (3112960 bytes).
   */
  lemma RequestTooSmallFor1080p()
    ensures RequestBytes(Nv12Request(1920, 1080)) == 3110400
    ensures Footprint(1920, 1080, LayoutOf(1920, 1080)) == 3125760
    ensures (RequestBytes(Nv12Request(1920, 1080)) + 4095) / 4096 * 4096 < Footprint(1920, 1080, LayoutOf(1920, 1080))
  {
  }

  /** A request sized from the aligned layout: the pitch by both aligned plane heights. */
  function AlignedRequest(width: nat, height: nat): DumbRequest
  {
    DumbRequest(Align16(width), Align16(height) + Align16(height / 2), 8)
  }

  /** The aligned request always covers everything the copy writes. */
  lemma AlignedRequestCoversFootprint(width: nat, height: nat)
    requires Fits32(width, height)
    ensures Footprint(width, height, LayoutOf(width, height)) <= RequestBytes(AlignedRequest(width, height))
  {
    var p, ah, ah2 := Align16(width), Align16(height), Align16(height / 2);
    var l := LayoutOf(width, height);
    LayoutOfFits(width, height);
    assert Footprint(width, height, l) <= p * ah + p * ah2;
    ProductsBelow(p, ah, ah2);
    EightBitsPerPixel(p, ah + ah2);
  }

  /** At 8 bits per pixel a request holds one byte per pixel. */
  lemma EightBitsPerPixel(w: nat, h: nat)
    ensures RequestBytes(DumbRequest(w, h, 8)) == w * h
  {
    var x := w * h;
    assert w * h * 8 == x * 8;
  }
}
