/**
 * The `DrmDisplay` presenter: its members, each of its operations as a
 * pure specification over the members and the kernel state, the class that
 * performs them, and what the specifications imply for the framebuffer
 * and dumb-buffer bookkeeping.
 *
 * A thrown `std::runtime_error` is a returned `Failure`; the members keep
 * whatever was assigned before the throw, as in C++.
 */
module Presenter {
  import opened Common
  import opened DrmKernel
  import opened DrmDiscovery
  import opened Nv12Layout
  import opened Nv12Copy

  /** The members of `DrmDisplay` that the operations read or write. */
  datatype Fields = Fields(fd: int, width: nat, height: nat, format: nat,
                           crtc: nat, conn: nat, mode: Mode, fb: nat, prevFb: nat)

  /** The default member initializers. */
  const Initial := Fields(-1, 0, 0, 0, 0, 0, ZeroMode, 0, 0)

  /** The presenter together with the kernel objects it can reach. */
  datatype Sys = Sys(d: Fields, k: KState)

  /** One constructor per `throw`, named after its message. */
  datatype Failure =
    | OpenFailed | ResourcesFailed | NoCrtc | PlaneResourcesFailed | FormatUnsupported
    | InvalidTarget | CreateDumbBufferFailed | AddFbFailed | SetCrtcFailed
    | CreateDumbFailed | MapDumbFailed | MmapFailed | AddFb2Failed | FrameSetCrtcFailed

  /** Kernel replies seen by `SetCrtc` and the `CreateDumbBuffer` it calls. */
  datatype CrtcReplies = CrtcReplies(createOk: bool, handle: nat, pitch: nat, addFbOk: bool, fbId: nat, setCrtcOk: bool)

  /** Kernel replies seen by `Init`. */
  datatype InitReplies = InitReplies(fd: int, resources: Option<Resources>,
                                     planes: Option<seq<Option<seq<nat>>>>, crtc: CrtcReplies)

  /** Kernel replies seen by one `DisplayFrame`. */
  datatype FrameReplies = FrameReplies(createOk: bool, handle: nat, mapOk: bool, mmapOk: bool,
                                       addFbOk: bool, fbId: nat, setCrtcOk: bool)

  // ---- the operations as specifications ------------------------------------

  /** The legacy 24-bit framebuffer of `CreateDumbBuffer`. */
  function LegacyFb(d: Fields, r: CrtcReplies): FbDesc
  {
    FbDesc(d.width, d.height, DepthBpp(24, 32), [FbPlane(r.handle, r.pitch, 0)])
  }

  /** The two-plane framebuffer of `DisplayFrame`. */
  function FrameFb(d: Fields, handle: nat): FbDesc
  {
    FbDesc(d.width, d.height, Fourcc(d.format), Nv12Planes(handle, LayoutOf(d.width, d.height)))
  }

  function CreateDumbBufferSpec(s: Sys, r: CrtcReplies): (Sys, Option<Failure>)
  {
    var (k1, created) := CreatedDumb(s.k, s.d.fd, r.createOk, r.handle, DumbRequest(s.d.width, s.d.height, 32));
    if !created then (s, Some(CreateDumbBufferFailed))
    else
      var (k2, added) := AddedFb(k1, s.d.fd, r.addFbOk, r.fbId, LegacyFb(s.d, r));
      if !added then (Sys(s.d, DestroyedDumb(k2, s.d.fd, r.handle)), Some(AddFbFailed))
      else (Sys(s.d.(fb := r.fbId), k2), None)
  }

  function SetCrtcSpec(s: Sys, r: CrtcReplies): (Sys, Option<Failure>)
  {
    if s.d.conn == 0 || s.d.mode.hdisplay == 0 then (s, Some(InvalidTarget))
    else
      var (s1, e) := CreateDumbBufferSpec(s, r);
      if e.Some? then (s1, e)
      else
        var (k2, shown) := CrtcSet(s1.k, s1.d.fd, r.setCrtcOk, s1.d.fb);
        (Sys(s1.d, k2), if shown then None else Some(SetCrtcFailed))
  }

  function FindSpec(d: Fields, res: Option<Resources>): (Fields, Option<Failure>)
  {
    if res.None? then (d, Some(ResourcesFailed))
    else
      var t := Discover(res.value, Target(d.conn, d.mode, d.crtc));
      (d.(conn := t.conn, mode := t.mode, crtc := t.crtc), if t.crtc == 0 then Some(NoCrtc) else None)
  }

  function InitSpec(s: Sys, width: int, height: int, format: nat, r: InitReplies): (Sys, Option<Failure>)
  {
    var k0 := Opened(s.k, r.fd);
    var d0 := s.d.(fd := r.fd);
    if r.fd < 0 then (Sys(d0, k0), Some(OpenFailed))
    else
      var (d1, e) := FindSpec(d0.(width := Wrap32(width), height := Wrap32(height), format := format), r.resources);
      if e.Some? then (Sys(d1, k0), e)
      else if r.planes.None? then (Sys(d1.(fd := -1), Closed(k0, r.fd)), Some(PlaneResourcesFailed))
      else if !AnyPlaneLists(r.planes.value, format) then (Sys(d1.(fd := -1), Closed(k0, r.fd)), Some(FormatUnsupported))
      else SetCrtcSpec(Sys(d1, k0), r.crtc)
  }

  function PresentSpec(s: Sys, r: FrameReplies): (Sys, Option<Failure>)
  {
    var d, fd := s.d, s.d.fd;
    var (k1, created) := CreatedDumb(s.k, fd, r.createOk, r.handle, Nv12Request(d.width, d.height));
    if !created then (s, Some(CreateDumbFailed))
    else if !MapDumbOk(k1, fd, r.mapOk, r.handle) then (Sys(d, DestroyedDumb(k1, fd, r.handle)), Some(MapDumbFailed))
    else
      var (k2, mapped) := Mmapped(k1, fd, r.mmapOk, r.handle);
      if !mapped then (Sys(d, DestroyedDumb(k2, fd, r.handle)), Some(MmapFailed))
      else
        var (k3, added) := AddedFb(k2, fd, r.addFbOk, r.fbId, FrameFb(d, r.handle));
        if !added then (Sys(d, DestroyedDumb(Unmapped(k3, r.handle), fd, r.handle)), Some(AddFb2Failed))
        else
          var d1 := d.(fb := r.fbId);
          var (k4, shown) := CrtcSet(k3, fd, r.setCrtcOk, r.fbId);
          if !shown then (Sys(d1, Unmapped(RemovedFb(k4, fd, r.fbId), r.handle)), Some(FrameSetCrtcFailed))
          else
            var k5 := Unmapped(k4, r.handle);
            (Sys(d1.(prevFb := r.fbId), if d.prevFb != 0 then RemovedFb(k5, fd, d.prevFb) else k5), None)
  }

  /** The frame reaches the copy loops: create, map and `mmap` all succeeded. */
  predicate ReachesCopy(s: Sys, r: FrameReplies)
  {
    s.d.fd in s.k.fds && r.createOk && r.mapOk && r.mmapOk
  }

  /** The destructor. */
  function TeardownSpec(s: Sys): KState
  {
    var k1 := if s.d.fb != 0 then RemovedFb(s.k, s.d.fd, s.d.fb) else s.k;
    if s.d.fd >= 0 then Closed(k1, s.d.fd) else k1
  }

  // ---- the presenter object ------------------------------------------------

  class DrmDisplay {
    const dev: Kernel
    var drmFd: int
    var width: nat
    var height: nat
    var format: nat
    var crtcId: nat
    var connId: nat
    var mode: Mode
    var fbId: nat
    var prevFbId: nat

    function Members(): Fields
      reads this
    {
      Fields(drmFd, width, height, format, crtcId, connId, mode, fbId, prevFbId)
    }

    function Snapshot(): Sys
      reads this, dev
    {
      Sys(Members(), dev.State())
    }

    constructor (dev: Kernel)
      ensures this.dev == dev && Members() == Initial
    {
      this.dev := dev;
      drmFd, width, height, format := -1, 0, 0, 0;
      crtcId, connId, mode := 0, 0, ZeroMode;
      fbId, prevFbId := 0, 0;
    }

    method Init(width: int, height: int, format: nat, r: InitReplies) returns (err: Option<Failure>)
      modifies this, dev
      ensures (Snapshot(), err) == InitSpec(old(Snapshot()), width, height, format, r)
    {
      drmFd := dev.Open(r.fd);
      if drmFd < 0 {
        return Some(OpenFailed);
      }
      this.width, this.height, this.format := Wrap32(width), Wrap32(height), format;
      err := FindDisplayResources(r.resources);
      if err.Some? {
        return;
      }
      if r.planes.None? {
        dev.Close(drmFd);
        drmFd := -1;
        return Some(PlaneResourcesFailed);
      }
      var supported := FormatSearch(r.planes.value, format);
      if !supported {
        dev.Close(drmFd);
        drmFd := -1;
        return Some(FormatUnsupported);
      }
      err := SetCrtc(r.crtc);
    }

    method FindDisplayResources(res: Option<Resources>) returns (err: Option<Failure>)
      modifies this
      ensures (Members(), err) == FindSpec(old(Members()), res)
    {
      if res.None? {
        return Some(ResourcesFailed);
      }
      var rs := res.value;
      ghost var t0 := Target(connId, mode, crtcId);
      var found := false;
      var i := 0;
      while i < |rs.connectors| && !found
        invariant 0 <= i <= |rs.connectors|
        invariant Members() == old(Members()).(conn := connId, mode := mode, crtc := crtcId)
        invariant !found ==> Target(connId, mode, crtcId) == t0
        invariant !found ==> forall j :: 0 <= j < i ==> !Usable(rs.connectors[j])
        invariant found ==> FirstUsable(rs.connectors).Some? && Target(connId, mode, crtcId) == Discover(rs, t0)
      {
        var c := rs.connectors[i];
        if c.Some? {
          var conn := c.value;
          if conn.connected && |conn.modes| > 0 {
            DiscoverFirstMatch(rs, t0, i);
            connId := conn.id;
            mode := conn.modes[0];
            found := true;
            if conn.encoderId != 0 {
              if conn.encoderId in rs.encoders && rs.encoders[conn.encoderId] != 0 {
                crtcId := rs.encoders[conn.encoderId];
              }
            }
          }
        }
        i := i + 1;
      }
      if !found && |rs.crtcs| > 0 {
        crtcId := rs.crtcs[0];
      }
      if crtcId == 0 {
        return Some(NoCrtc);
      }
      return None;
    }

    method SetCrtc(r: CrtcReplies) returns (err: Option<Failure>)
      modifies this, dev
      ensures (Snapshot(), err) == SetCrtcSpec(old(Snapshot()), r)
    {
      if connId == 0 || mode.hdisplay == 0 {
        return Some(InvalidTarget);
      }
      err := CreateDumbBuffer(r);
      if err.Some? {
        return;
      }
      var ok := dev.SetCrtc(drmFd, r.setCrtcOk, fbId);
      if !ok {
        return Some(SetCrtcFailed);
      }
    }

    method CreateDumbBuffer(r: CrtcReplies) returns (err: Option<Failure>)
      modifies this, dev
      ensures (Snapshot(), err) == CreateDumbBufferSpec(old(Snapshot()), r)
    {
      var created := dev.CreateDumb(drmFd, r.createOk, r.handle, DumbRequest(width, height, 32));
      if !created {
        return Some(CreateDumbBufferFailed);
      }
      var added := dev.AddFb(drmFd, r.addFbOk, r.fbId, LegacyFb(Members(), r));
      if !added {
        dev.DestroyDumb(drmFd, r.handle);
        return Some(AddFbFailed);
      }
      fbId := r.fbId;
      return None;
    }

    /**
     * `mem` is the memory that `mmap` returns; when the copy is reached it
     * needs `mem` to hold the whole footprint and `yuv` to hold a packed frame.
     */
    method DisplayFrame(yuv: seq<bv8>, mem: array<bv8>, r: FrameReplies) returns (err: Option<Failure>)
      requires ReachesCopy(Snapshot(), r) ==> CopyFits(mem.Length, |yuv|, width, height, LayoutOf(width, height))
      modifies this, dev, mem
      ensures (Snapshot(), err) == PresentSpec(old(Snapshot()), r)
      ensures mem[..] == if ReachesCopy(old(Snapshot()), r)
        then Restrided(old(mem[..]), yuv, old(width), old(height), LayoutOf(old(width), old(height)))
        else old(mem[..])
    {
      var l := LayoutOf(width, height);
      var created := dev.CreateDumb(drmFd, r.createOk, r.handle, Nv12Request(width, height));
      if !created {
        return Some(CreateDumbFailed);
      }
      var offsetOk := dev.MapDumb(drmFd, r.mapOk, r.handle);
      if !offsetOk {
        dev.DestroyDumb(drmFd, r.handle);
        return Some(MapDumbFailed);
      }
      var mapped := dev.Mmap(drmFd, r.mmapOk, r.handle);
      if !mapped {
        dev.DestroyDumb(drmFd, r.handle);
        return Some(MmapFailed);
      }
      CopyNv12(mem, yuv, width, height, l);
      var added := dev.AddFb(drmFd, r.addFbOk, r.fbId, FrameFb(Members(), r.handle));
      if !added {
        dev.Munmap(r.handle);
        dev.DestroyDumb(drmFd, r.handle);
        return Some(AddFb2Failed);
      }
      fbId := r.fbId;
      var shown := dev.SetCrtc(drmFd, r.setCrtcOk, fbId);
      if !shown {
        dev.RmFb(drmFd, fbId);
        dev.Munmap(r.handle);
        return Some(FrameSetCrtcFailed);
      }
      dev.Munmap(r.handle);
      if prevFbId != 0 {
        dev.RmFb(drmFd, prevFbId);
      }
      prevFbId := fbId;
      return None;
    }

    /** `planes` is the reply of `drmModeGetPlaneResources` with each plane fetched. */
    method CheckFormatSupport(planes: Option<seq<Option<seq<nat>>>>, format: nat) returns (supported: bool)
      ensures supported <==> planes.Some? && AnyPlaneLists(planes.value, format)
    {
      if planes.None? {
        return false;
      }
      supported := FormatSearch(planes.value, format);
    }

    /** The destructor. */
    method Teardown()
      modifies dev
      ensures dev.State() == TeardownSpec(old(Snapshot()))
    {
      if fbId != 0 {
        dev.RmFb(drmFd, fbId);
      }
      if drmFd >= 0 {
        dev.Close(drmFd);
      }
    }
  }

  // ---- what the specifications imply -----------------------------------------

  /** The replies of a frame name objects the kernel does not have yet; kernel ids are never 0. */
  predicate FreshFrame(s: Sys, r: FrameReplies)
  {
    r.handle !in s.k.dumbs && r.fbId != 0 && r.fbId !in s.k.fbs
  }

  /** Between frames: once a frame was presented, its framebuffer is the one on screen. */
  predicate Coherent(s: Sys)
  {
    Consistent(s.k) && (s.d.prevFb != 0 ==> s.k.bound == s.d.prevFb)
  }

  /** The first step that fails decides the error; all six steps succeeding means success. */
  lemma PresentReportsFirstFailure(s: Sys, r: FrameReplies)
    ensures PresentSpec(s, r).1 ==
      if !(s.d.fd in s.k.fds && r.createOk) then Some(CreateDumbFailed)
      else if !r.mapOk then Some(MapDumbFailed)
      else if !r.mmapOk then Some(MmapFailed)
      else if !r.addFbOk then Some(AddFb2Failed)
      else if !r.setCrtcOk then Some(FrameSetCrtcFailed)
      else None
  {
    var k1 := s.k.(dumbs := s.k.dumbs[r.handle := Nv12Request(s.d.width, s.d.height)]);
    var desc := FrameFb(s.d, r.handle);
    assert forall p | p in desc.planes :: p.handle == 0 || p.handle == r.handle;
    assert PlanesLive(k1.(mapped := k1.mapped + {r.handle}), desc);
  }

  /** A failure before the framebuffer is shown leaves presenter and kernel exactly as they were. */
  lemma PresentEarlyFailureRestores(s: Sys, r: FrameReplies)
    requires Consistent(s.k) && FreshFrame(s, r)
    requires PresentSpec(s, r).1.Some? && PresentSpec(s, r).1 != Some(FrameSetCrtcFailed)
    ensures PresentSpec(s, r).0 == s
  {
    assert r.handle !in s.k.mapped;
    assert s.k.dumbs[r.handle := Nv12Request(s.d.width, s.d.height)] - {r.handle} == s.k.dumbs;
    assert s.k.mapped + {r.handle} - {r.handle} == s.k.mapped;
  }

  /**
   * A failed `drmModeSetCrtc` removes the new framebuffer and unmaps, but the
   * new dumb buffer stays allocated, and `fb_id_` names the removed framebuffer.
   */
  lemma PresentSetCrtcFailureLeaks(s: Sys, r: FrameReplies)
    requires Consistent(s.k) && FreshFrame(s, r)
    requires PresentSpec(s, r).1 == Some(FrameSetCrtcFailed)
    ensures var s' := PresentSpec(s, r).0;
      && s'.d == s.d.(fb := r.fbId)
      && r.fbId !in s'.k.fbs
      && s'.k == s.k.(dumbs := s.k.dumbs[r.handle := Nv12Request(s.d.width, s.d.height)])
  {
    assert r.handle !in s.k.mapped;
    assert s.k.mapped + {r.handle} - {r.handle} == s.k.mapped;
    assert s.k.fbs[r.fbId := FrameFb(s.d, r.handle)] - {r.fbId} == s.k.fbs;
  }

  /**
   * A shown frame binds its framebuffer, retires the previous frame's
   * framebuffer and nothing else, and destroys no dumb buffer.
   */
  lemma PresentSuccessRetiresOnlyFb(s: Sys, r: FrameReplies)
    requires Coherent(s) && FreshFrame(s, r)
    requires PresentSpec(s, r).1 == None
    ensures var s' := PresentSpec(s, r).0;
      && s'.d == s.d.(fb := r.fbId, prevFb := r.fbId)
      && s'.k.bound == r.fbId
      && s'.k.fds == s.k.fds
      && s'.k.dumbs == s.k.dumbs[r.handle := Nv12Request(s.d.width, s.d.height)]
      && s'.k.mapped == s.k.mapped
      && s'.k.fbs == (s.k.fbs - {s.d.prevFb})[r.fbId := FrameFb(s.d, r.handle)]
  {
    assert r.handle !in s.k.mapped;
    assert s.k.mapped + {r.handle} - {r.handle} == s.k.mapped;
    if s.d.prevFb != 0 {
      assert s.d.prevFb in s.k.fbs;
      assert s.k.fbs[r.fbId := FrameFb(s.d, r.handle)] - {s.d.prevFb}
          == (s.k.fbs - {s.d.prevFb})[r.fbId := FrameFb(s.d, r.handle)];
    } else {
      assert s.k.fbs - {s.d.prevFb} == s.k.fbs;
    }
  }

  /** The first frame after `Init` retires nothing. */
  lemma FirstFrameRetiresNothing(s: Sys, r: FrameReplies)
    requires Coherent(s) && FreshFrame(s, r) && s.d.prevFb == 0
    requires PresentSpec(s, r).1 == None
    ensures PresentSpec(s, r).0.k.fbs == s.k.fbs[r.fbId := FrameFb(s.d, r.handle)]
  {
    PresentSuccessRetiresOnlyFb(s, r);
    assert s.k.fbs - {0} == s.k.fbs;
  }

  lemma PresentPreservesCoherent(s: Sys, r: FrameReplies)
    requires Coherent(s) && FreshFrame(s, r)
    ensures Coherent(PresentSpec(s, r).0)
  {
    var e := PresentSpec(s, r).1;
    if e == None {
      PresentSuccessRetiresOnlyFb(s, r);
    } else if e == Some(FrameSetCrtcFailed) {
      PresentSetCrtcFailureLeaks(s, r);
    } else {
      PresentEarlyFailureRestores(s, r);
    }
  }

  /** The 1920x1080 frame is registered with pitch 1920 for both planes and chroma at 1920 * 1088. */
  lemma FrameFb1080p(d: Fields, handle: nat)
    requires d.width == 1920 && d.height == 1080
    ensures FrameFb(d, handle).planes ==
      [FbPlane(handle, 1920, 0), FbPlane(handle, 1920, 1920 * 1088), FbPlane(0, 0, 0), FbPlane(0, 0, 0)]
  {
    Layout1080p();
  }

  // ---- a run of frames ------------------------------------------------------

  /** The presenter after `DisplayFrame` was called once per reply. */
  function Run(s: Sys, rs: seq<FrameReplies>): Sys
    decreases |rs|
  {
    if |rs| == 0 then s else Run(PresentSpec(s, rs[0]).0, rs[1..])
  }

  /** Every frame of the run is shown, each with fresh kernel objects. */
  predicate AllShown(s: Sys, rs: seq<FrameReplies>)
    decreases |rs|
  {
    |rs| == 0 ||
    (FreshFrame(s, rs[0]) && PresentSpec(s, rs[0]).1 == None && AllShown(PresentSpec(s, rs[0]).0, rs[1..]))
  }

  /**
   * Over a run of shown frames one dumb buffer per frame stays allocated,
   * while exactly one frame framebuffer stays registered: the last one,
   * which is on screen.
   */
  lemma {:induction false} ShownFramesLeakDumbs(s: Sys, rs: seq<FrameReplies>)
    requires Coherent(s) && AllShown(s, rs)
    decreases |rs|
    ensures s.k.dumbs.Keys <= Run(s, rs).k.dumbs.Keys
    ensures |Run(s, rs).k.dumbs.Keys| == |s.k.dumbs.Keys| + |rs|
    ensures |rs| > 0 ==> Run(s, rs).k.fbs.Keys == (s.k.fbs.Keys - {s.d.prevFb}) + {rs[|rs| - 1].fbId}
    ensures |rs| > 0 ==> Run(s, rs).k.bound == Run(s, rs).d.prevFb == rs[|rs| - 1].fbId
  {
    if |rs| > 0 {
      var r := rs[0];
      var s1 := PresentSpec(s, r).0;
      assert Run(s, rs) == Run(s1, rs[1..]);
      ShownStep(s, r);
      assert |s1.k.dumbs.Keys| == |s.k.dumbs.Keys| + 1;
      ShownFramesLeakDumbs(s1, rs[1..]);
      if |rs| > 1 {
        assert rs[1..][|rs[1..]| - 1] == rs[|rs| - 1];
        assert s1.k.fbs.Keys - {r.fbId} == s.k.fbs.Keys - {s.d.prevFb};
      }
    }
  }

  /** One shown frame, as the run lemma uses it. */
  lemma ShownStep(s: Sys, r: FrameReplies)
    requires Coherent(s) && FreshFrame(s, r) && PresentSpec(s, r).1 == None
    ensures var s1 := PresentSpec(s, r).0;
      && Coherent(s1)
      && r.handle !in s.k.dumbs.Keys && s1.k.dumbs.Keys == s.k.dumbs.Keys + {r.handle}
      && r.fbId !in s.k.fbs.Keys && s1.k.fbs.Keys == (s.k.fbs.Keys - {s.d.prevFb}) + {r.fbId}
      && s1.k.bound == s1.d.prevFb == r.fbId
  {
    PresentSuccessRetiresOnlyFb(s, r);
    PresentPreservesCoherent(s, r);
  }

  /** The framebuffer `Init` registered is never removed by later frames. */
  lemma InitFbNeverRemoved(s: Sys, rs: seq<FrameReplies>)
    requires Coherent(s) && AllShown(s, rs) && s.d.prevFb == 0 && s.d.fb in s.k.fbs
    ensures s.d.fb in Run(s, rs).k.fbs
  {
    ShownFramesLeakDumbs(s, rs);
  }

  // ---- Init ------------------------------------------------------------------

  /** `Init` succeeds exactly when every query and call it makes succeeds. */
  lemma InitSucceedsIff(s: Sys, width: int, height: int, format: nat, r: InitReplies)
    ensures InitSpec(s, width, height, format, r).1 == None <==>
      && r.fd >= 0 && r.resources.Some?
      && Discover(r.resources.value, Target(s.d.conn, s.d.mode, s.d.crtc)).crtc != 0
      && r.planes.Some? && AnyPlaneLists(r.planes.value, format)
      && Discover(r.resources.value, Target(s.d.conn, s.d.mode, s.d.crtc)).conn != 0
      && Discover(r.resources.value, Target(s.d.conn, s.d.mode, s.d.crtc)).mode.hdisplay != 0
      && r.crtc.createOk && r.crtc.addFbOk && r.crtc.setCrtcOk
  {
  }

  /** A successful `Init` scans out its own framebuffer on the discovered CRTC. */
  lemma InitSuccessShows(s: Sys, width: int, height: int, format: nat, r: InitReplies)
    requires InitSpec(s, width, height, format, r).1 == None
    ensures var s' := InitSpec(s, width, height, format, r).0;
      && s'.d.fd == r.fd && r.fd in s'.k.fds
      && s'.d.width == Wrap32(width) && s'.d.height == Wrap32(height) && s'.d.format == format
      && s'.d.fb == r.crtc.fbId && s'.k.bound == r.crtc.fbId
      && s'.k.fbs[r.crtc.fbId] == LegacyFb(s'.d, r.crtc)
      && s'.d.prevFb == s.d.prevFb && s'.d.crtc != 0 && s'.d.conn != 0
  {
  }

  /**
   * With no usable connector, `Init` fails whenever connector or mode were
   * never set (as on a fresh object), and no kernel object is created.
   */
  lemma InitFallbackAlwaysFails(s: Sys, width: int, height: int, format: nat, r: InitReplies)
    requires s.d.conn == 0 || s.d.mode.hdisplay == 0
    requires r.resources.Some?
    requires forall j :: 0 <= j < |r.resources.value.connectors| ==> !Usable(r.resources.value.connectors[j])
    ensures InitSpec(s, width, height, format, r).1.Some?
    ensures var k' := InitSpec(s, width, height, format, r).0.k;
      k'.dumbs == s.k.dumbs && k'.fbs == s.k.fbs && k'.bound == s.k.bound
  {
    DiscoverFallback(r.resources.value, Target(s.d.conn, s.d.mode, s.d.crtc));
  }

  /**
   * A matched connector whose encoder gives no CRTC makes `Init` fail with
   * "No available CRTC found" when `crtc_id_` was 0, leaving the descriptor open.
   */
  lemma InitMatchWithoutCrtcFails(s: Sys, width: int, height: int, format: nat, r: InitReplies)
    requires s.d.crtc == 0 && r.fd >= 0 && r.resources.Some?
    requires FirstUsable(r.resources.value.connectors).Some?
    requires var c := r.resources.value.connectors[FirstUsable(r.resources.value.connectors).value].value;
      EncoderCrtc(r.resources.value, c, 0) == 0
    ensures var (s', e) := InitSpec(s, width, height, format, r);
      && e == Some(NoCrtc)
      && s'.d.conn == r.resources.value.connectors[FirstUsable(r.resources.value.connectors).value].value.id
      && s'.d.fd == r.fd && r.fd in s'.k.fds
  {
  }

  /** A failed format check closes the descriptor and sets `drm_fd_` to -1. */
  lemma InitFormatCheckClosesFd(s: Sys, width: int, height: int, format: nat, r: InitReplies)
    requires r.fd >= 0 && r.resources.Some?
    requires Discover(r.resources.value, Target(s.d.conn, s.d.mode, s.d.crtc)).crtc != 0
    requires r.planes.None? || !AnyPlaneLists(r.planes.value, format)
    ensures var (s', e) := InitSpec(s, width, height, format, r);
      && e == (if r.planes.None? then Some(PlaneResourcesFailed) else Some(FormatUnsupported))
      && s'.d.fd == -1 && s'.k.fds == s.k.fds - {r.fd}
      && s'.k.dumbs == s.k.dumbs && s'.k.fbs == s.k.fbs
  {
  }

  /** After a successful `Init` on a presenter that has shown no frame, frames may start. */
  lemma InitEstablishesCoherent(s: Sys, width: int, height: int, format: nat, r: InitReplies)
    requires Coherent(s) && s.d.prevFb == 0 && r.crtc.fbId != 0 && r.crtc.handle !in s.k.dumbs
    ensures Coherent(InitSpec(s, width, height, format, r).0)
  {
    var k0 := Opened(s.k, r.fd);
    assert Consistent(k0) && Consistent(Closed(k0, r.fd));
    if r.fd >= 0 {
      var d0 := s.d.(fd := r.fd, width := Wrap32(width), height := Wrap32(height), format := format);
      var d1 := FindSpec(d0, r.resources).0;
      SetCrtcKeepsCoherent(Sys(d1, k0), r.crtc);
    }
  }

  /** The legacy framebuffer can be refused only by the call itself: the new dumb buffer is live. */
  lemma CreateDumbBufferReportsFirstFailure(s: Sys, r: CrtcReplies)
    ensures CreateDumbBufferSpec(s, r).1 ==
      if !(s.d.fd in s.k.fds && r.createOk) then Some(CreateDumbBufferFailed)
      else if !r.addFbOk then Some(AddFbFailed)
      else None
  {
    var k1 := s.k.(dumbs := s.k.dumbs[r.handle := DumbRequest(s.d.width, s.d.height, 32)]);
    assert PlanesLive(k1, LegacyFb(s.d, r));
  }

  /**
   * A failed `drmModeAddFB` destroys the dumb buffer just created, so either
   * failure leaves presenter and kernel exactly as they were.
   */
  lemma CreateDumbBufferFailureRestores(s: Sys, r: CrtcReplies)
    requires Consistent(s.k) && r.handle !in s.k.dumbs
    requires CreateDumbBufferSpec(s, r).1.Some?
    ensures CreateDumbBufferSpec(s, r).0 == s
  {
    assert s.k.dumbs[r.handle := DumbRequest(s.d.width, s.d.height, 32)] - {r.handle} == s.k.dumbs;
  }

  /** On success the new framebuffer is registered over the new dumb buffer, and `fb_id_` names it. */
  lemma CreateDumbBufferSuccess(s: Sys, r: CrtcReplies)
    requires CreateDumbBufferSpec(s, r).1 == None
    ensures var s' := CreateDumbBufferSpec(s, r).0;
      && s'.d == s.d.(fb := r.fbId)
      && s'.k == s.k.(dumbs := s.k.dumbs[r.handle := DumbRequest(s.d.width, s.d.height, 32)],
                      fbs := s.k.fbs[r.fbId := LegacyFb(s.d, r)])
  {
  }

  /** `SetCrtc` before any frame keeps the kernel consistent. */
  lemma SetCrtcKeepsCoherent(s: Sys, r: CrtcReplies)
    requires Coherent(s) && s.d.prevFb == 0 && r.fbId != 0 && r.handle !in s.k.dumbs
    ensures Coherent(SetCrtcSpec(s, r).0)
  {
  }

  // ---- the destructor ----------------------------------------------------------

  /**
   * The destructor removes `fb_id_` and closes the descriptor; every other
   * framebuffer (the one of `Init`, once a frame was shown) and every dumb
   * buffer stays.
   */
  lemma TeardownReleases(s: Sys)
    ensures var k' := TeardownSpec(s);
      && (s.d.fb != 0 && s.d.fd in s.k.fds ==> s.d.fb !in k'.fbs)
      && (s.d.fd >= 0 ==> s.d.fd !in k'.fds)
      && (forall id :: id in s.k.fbs && id != s.d.fb ==> id in k'.fbs)
      && k'.dumbs == s.k.dumbs && k'.mapped == s.k.mapped
      && (s.d.fb == 0 && s.d.fd < 0 ==> k' == s.k)
  {
  }
}
