/**
 * `mppDecode::init_packet_and_frame`: two buffer groups, an output frame,
 * one frame buffer and one packet buffer are acquired in that order; the
 * first failure returns -1 and releases nothing acquired before it.
 *
 * The MPP calls are not visible; whether each succeeds is a reply given to
 * the method. The buffers are recorded by the byte count they were requested with.
 */
module MppBuffers {
  import opened Common
  import MppDump

  /** The decoder's buffer members: acquired groups, frame, buffers and their sizes. */
  datatype Buffers = Buffers(frmGrp: bool, pktGrp: bool, frame: bool,
                             frmBuf: Option<nat>, pktBuf: Option<int>,
                             packet: bool, frameBuffer: Option<nat>)

  /** Nothing acquired: the state of a fresh decoder. */
  const NoBuffers := Buffers(false, false, false, None, None, false, None)

  /** Success of the five acquisitions, in call order. */
  datatype AllocReplies = AllocReplies(frmGrpOk: bool, pktGrpOk: bool, frameOk: bool, frmBufOk: bool, pktBufOk: bool)

  /** `MPP_ALIGN(x, 16)` on an `int`, assigned to an `RK_U32`. */
  function Stride(x: int): nat
  {
    Wrap32(Align16(x))
  }

  /** `hor_stride * ver_stride * 4`, computed in `RK_U32`. */
  function FrameBufferBytes(width: int, height: int): nat
  {
    Wrap32(Stride(width) * Stride(height) * 4)
  }

  /** `width * height * 2`, computed in `int`. */
  function PacketBufferBytes(width: int, height: int): int
  {
    width * height * 2
  }

  /** The `int` arithmetic stays defined: no signed overflow in `MPP_ALIGN` or the packet size. */
  predicate IntArithmeticDefined(width: int, height: int)
  {
    && -0x8000_0000 <= width && width + 15 < 0x8000_0000
    && -0x8000_0000 <= height && height + 15 < 0x8000_0000
    && -0x8000_0000 <= width * height * 2 < 0x8000_0000
  }

  /** The members and the return value after the call. */
  function InitBuffersSpec(s: Buffers, width: int, height: int, r: AllocReplies): (Buffers, int)
  {
    if !r.frmGrpOk then (s, -1)
    else
      var s1 := s.(frmGrp := true);
      if !r.pktGrpOk then (s1, -1)
      else
        var s2 := s1.(pktGrp := true);
        if !r.frameOk then (s2, -1)
        else
          var s3 := s2.(frame := true);
          if !r.frmBufOk then (s3, -1)
          else
            var s4 := s3.(frmBuf := Some(FrameBufferBytes(width, height)));
            if !r.pktBufOk then (s4, -1)
            else (s4.(pktBuf := Some(PacketBufferBytes(width, height)), packet := true,
                      frameBuffer := s4.frmBuf), 0)
  }

  class Decoder {
    var frmGrp: bool
    var pktGrp: bool
    var frame: bool
    var frmBuf: Option<nat>
    var pktBuf: Option<int>
    var packet: bool
    var frameBuffer: Option<nat>

    function State(): Buffers
      reads this
    {
      Buffers(frmGrp, pktGrp, frame, frmBuf, pktBuf, packet, frameBuffer)
    }

    /**
     * `frmBuf`, `pktBuf` and `dataBuf` start as `NULL`. The groups, the
     * packet and the frame have no initializer and the constructor is empty,
     * so their `false` means "not yet acquired", not a null handle.
     */
    constructor()
      ensures State() == NoBuffers
    {
      frmGrp, pktGrp, frame := false, false, false;
      frmBuf, pktBuf := None, None;
      packet, frameBuffer := false, None;
    }

    method InitPacketAndFrame(width: int, height: int, r: AllocReplies) returns (ret: int)
      requires IntArithmeticDefined(width, height)
      modifies this
      ensures (State(), ret) == InitBuffersSpec(old(State()), width, height, r)
    {
      var horStride: nat := Wrap32(Align16(width));
      var verStride: nat := Wrap32(Align16(height));
      if !r.frmGrpOk {
        return -1;
      }
      frmGrp := true;
      if !r.pktGrpOk {
        return -1;
      }
      pktGrp := true;
      if !r.frameOk {
        return -1;
      }
      frame := true;
      if !r.frmBufOk {
        return -1;
      }
      frmBuf := Some(Wrap32(horStride * verStride * 4));
      if !r.pktBufOk {
        return -1;
      }
      pktBuf := Some(width * height * 2);
      packet := true;
      frameBuffer := frmBuf;
      return 0;
    }
  }

  // ---- what the call promises ---------------------------------------------

  /** 0 exactly when all five acquisitions succeed, -1 otherwise. */
  lemma InitBuffersSucceedsIff(s: Buffers, width: int, height: int, r: AllocReplies)
    ensures InitBuffersSpec(s, width, height, r).1 in {0, -1}
    ensures InitBuffersSpec(s, width, height, r).1 == 0 <==>
      r.frmGrpOk && r.pktGrpOk && r.frameOk && r.frmBufOk && r.pktBufOk
  {
  }

  /** On success both buffers have their requested sizes and the frame carries the frame buffer. */
  lemma InitBuffersSuccess(s: Buffers, width: int, height: int, r: AllocReplies)
    requires InitBuffersSpec(s, width, height, r).1 == 0
    ensures var t := InitBuffersSpec(s, width, height, r).0;
      && t.frmGrp && t.pktGrp && t.frame && t.packet
      && t.frmBuf == Some(FrameBufferBytes(width, height))
      && t.pktBuf == Some(PacketBufferBytes(width, height))
      && t.frameBuffer == t.frmBuf
  {
  }

  /**
   * A failure releases nothing: everything acquired before the failing
   * step stays, the failing step and every later one change nothing.
   */
  lemma InitBuffersFailureKeepsEarlier(s: Buffers, width: int, height: int, r: AllocReplies)
    requires InitBuffersSpec(s, width, height, r).1 != 0
    ensures var t := InitBuffersSpec(s, width, height, r).0;
      && t.frmGrp == (s.frmGrp || r.frmGrpOk)
      && t.pktGrp == (s.pktGrp || (r.frmGrpOk && r.pktGrpOk))
      && t.frame == (s.frame || (r.frmGrpOk && r.pktGrpOk && r.frameOk))
      && t.frmBuf == (if r.frmGrpOk && r.pktGrpOk && r.frameOk && r.frmBufOk
                      then Some(FrameBufferBytes(width, height)) else s.frmBuf)
      && t.pktBuf == s.pktBuf && t.packet == s.packet && t.frameBuffer == s.frameBuffer
  {
  }

  /** Strides and frame size of a `width` x `height` frame stay below 2^32. */
  predicate FrameNoWrap(width: nat, height: nat)
  {
    Align16(width) < U32 && Align16(height) < U32 && Align16(width) * Align16(height) * 4 < U32
  }

  /**
   * Without wrap-around the frame buffer holds four bytes per pixel of the
   * 16-aligned frame, so at least four bytes per pixel of the frame itself.
   */
  lemma FrameBufferNoWrap(width: nat, height: nat)
    requires FrameNoWrap(width, height)
    ensures Stride(width) == Align16(width) && Stride(height) == Align16(height)
    ensures FrameBufferBytes(width, height) == 4 * (Align16(width) * Align16(height))
    ensures FrameBufferBytes(width, height) >= 4 * (width * height)
  {
    var a, b := Align16(width), Align16(height);
    MulMonotone(width, a, height);
    MulMonotone(height, b, a);
  }

  /** The 1920x1080 capture: 1920 x 1088 x 4 frame bytes and 1920 x 1080 x 2 packet bytes. */
  lemma Buffers1080p()
    ensures FrameBufferBytes(1920, 1080) == 8355840
    ensures PacketBufferBytes(1920, 1080) == 4147200
  {
    FrameBufferNoWrap(1920, 1080);
  }

  /**
   * The frame buffer is large enough for everything the YUV420SP dump reads
   * from a frame of these dimensions laid out with these strides.
   */
  lemma FrameBufferHolds420sp(width: nat, height: nat, buf: seq<bv8>)
    requires FrameNoWrap(width, height)
    requires |buf| == FrameBufferBytes(width, height)
    ensures MppDump.Fits420sp(
      MppDump.FrameInfo(width, height, Stride(width), Stride(height), MppDump.Yuv420sp, Some(buf)), |buf|)
  {
    FrameBufferNoWrap(width, height);
    var hs, vs := Align16(width), Align16(height);
    var f := MppDump.FrameInfo(width, height, hs, vs, MppDump.Yuv420sp, Some(buf));
    assert |buf| == 4 * (hs * vs);
    assert MppDump.ChromaStart(f) == hs * vs;
    if height > 0 {
      RowsEnd(height, width, hs, vs);
    }
    if height / 2 > 0 {
      RowsEnd(height / 2, width, hs, vs);
    }
  }

  /** `rows <= vs` rows of `len <= hs` bytes, `hs` apart, end within `hs * vs` bytes. */
  lemma RowsEnd(rows: nat, len: nat, hs: nat, vs: nat)
    requires 0 < rows <= vs && len <= hs
    ensures (rows - 1) * hs + len <= hs * vs
  {
    MulMonotone(rows, vs, hs);
  }
}
