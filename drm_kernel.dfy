/**
 * The display subsystem as the presenter sees it through its file
 * descriptor. The kernel is foreign code: only the bookkeeping it exposes is
 * modelled (open descriptors, live dumb buffers, process mappings,
 * registered framebuffers, the framebuffer the CRTC scans out), and every
 * call's success and returned ids are supplied by the caller as a reply.
 *
 * Each call is given once as a pure transition on `KState` and once as a
 * method of `Kernel` that performs it. The presenter's methods call the
 * methods. Its specifications, and the lemmas about them, compose the
 * transitions, because a function or lemma cannot call a method. Each method
 * ensures that its new state is the transition's result, which ties the two.
 */
module DrmKernel {
  import opened Common

  /** The `width`, `height` and `bpp` of a `DRM_IOCTL_MODE_CREATE_DUMB` request. */
  datatype DumbRequest = DumbRequest(width: nat, height: nat, bpp: nat)

  /** One entry of the handles/pitches/offsets arrays of a framebuffer. */
  datatype FbPlane = FbPlane(handle: nat, pitch: nat, offset: nat)

  /** `drmModeAddFB2` takes a fourcc; the legacy `drmModeAddFB` a depth and bpp. */
  datatype FbFormat = Fourcc(code: nat) | DepthBpp(depth: nat, bpp: nat)

  datatype FbDesc = FbDesc(width: nat, height: nat, format: FbFormat, planes: seq<FbPlane>)

  datatype KState = KState(
    fds: set<int>,                 // open descriptors on the device node
    dumbs: map<nat, DumbRequest>,  // live dumb-buffer handles and their requests
    mapped: set<nat>,              // handles whose memory is mapped into the process
    fbs: map<nat, FbDesc>,         // registered framebuffer ids
    bound: nat)                    // framebuffer the CRTC scans out, 0 for none

  /** Facts every reachable kernel state has. */
  predicate Consistent(k: KState)
  {
    && 0 !in k.fbs
    && (k.bound == 0 || k.bound in k.fbs)
    && k.mapped <= k.dumbs.Keys
  }

  const NoObjects := KState({}, map[], {}, map[], 0)

  // ---- pure transitions, one per call -------------------------------------

  /** `open` returns a descriptor, or -1 on failure. */
  function Opened(k: KState, fd: int): KState
  {
    if fd >= 0 then k.(fds := k.fds + {fd}) else k
  }

  function Closed(k: KState, fd: int): KState
  {
    k.(fds := k.fds - {fd})
  }

  function CreatedDumb(k: KState, fd: int, ok: bool, handle: nat, req: DumbRequest): (KState, bool)
  {
    if ok && fd in k.fds then (k.(dumbs := k.dumbs[handle := req]), true) else (k, false)
  }

  /** `DRM_IOCTL_MODE_MAP_DUMB` only reports an offset; it changes nothing. */
  function MapDumbOk(k: KState, fd: int, ok: bool, handle: nat): bool
  {
    ok && fd in k.fds && handle in k.dumbs
  }

  function Mmapped(k: KState, fd: int, ok: bool, handle: nat): (KState, bool)
  {
    if ok && fd in k.fds && handle in k.dumbs then (k.(mapped := k.mapped + {handle}), true) else (k, false)
  }

  /** `munmap` works on the address alone and does not consult the descriptor. */
  function Unmapped(k: KState, handle: nat): KState
  {
    k.(mapped := k.mapped - {handle})
  }

  function DestroyedDumb(k: KState, fd: int, handle: nat): KState
  {
    if fd in k.fds then k.(dumbs := k.dumbs - {handle}) else k
  }

  /** Registration needs every used plane (non-zero handle) to name a live dumb buffer. */
  predicate PlanesLive(k: KState, desc: FbDesc)
  {
    forall p | p in desc.planes :: p.handle == 0 || p.handle in k.dumbs
  }

  function AddedFb(k: KState, fd: int, ok: bool, id: nat, desc: FbDesc): (KState, bool)
  {
    if ok && fd in k.fds && PlanesLive(k, desc)
    then (k.(fbs := k.fbs[id := desc]), true)
    else (k, false)
  }

  /** Removing the framebuffer that is on screen turns the CRTC off. */
  function RemovedFb(k: KState, fd: int, id: nat): KState
  {
    if fd in k.fds && id in k.fbs
    then k.(fbs := k.fbs - {id}, bound := if k.bound == id then 0 else k.bound)
    else k
  }

  function CrtcSet(k: KState, fd: int, ok: bool, fb: nat): (KState, bool)
  {
    if ok && fd in k.fds && fb in k.fbs then (k.(bound := fb), true) else (k, false)
  }

  // ---- the kernel object --------------------------------------------------

  class Kernel {
    var fds: set<int>
    var dumbs: map<nat, DumbRequest>
    var mapped: set<nat>
    var fbs: map<nat, FbDesc>
    var bound: nat

    function State(): KState
      reads this
    {
      KState(fds, dumbs, mapped, fbs, bound)
    }

    constructor ()
      ensures State() == NoObjects
    {
      fds, dumbs, mapped, fbs, bound := {}, map[], {}, map[], 0;
    }

    /** `open(DRM_DEVICE, O_RDWR | O_CLOEXEC)`; `reply` is the descriptor it returns. */
    method Open(reply: int) returns (fd: int)
      modifies this
      ensures fd == reply && State() == Opened(old(State()), reply)
    {
      fd := reply;
      if fd >= 0 {
        fds := fds + {fd};
      }
    }

    method Close(fd: int)
      modifies this
      ensures State() == Closed(old(State()), fd)
    {
      fds := fds - {fd};
    }

    method CreateDumb(fd: int, ok: bool, handle: nat, req: DumbRequest) returns (success: bool)
      modifies this
      ensures (State(), success) == CreatedDumb(old(State()), fd, ok, handle, req)
    {
      success := ok && fd in fds;
      if success {
        dumbs := dumbs[handle := req];
      }
    }

    method MapDumb(fd: int, ok: bool, handle: nat) returns (success: bool)
      ensures success == MapDumbOk(State(), fd, ok, handle)
    {
      success := ok && fd in fds && handle in dumbs;
    }

    method Mmap(fd: int, ok: bool, handle: nat) returns (success: bool)
      modifies this
      ensures (State(), success) == Mmapped(old(State()), fd, ok, handle)
    {
      success := ok && fd in fds && handle in dumbs;
      if success {
        mapped := mapped + {handle};
      }
    }

    method Munmap(handle: nat)
      modifies this
      ensures State() == Unmapped(old(State()), handle)
    {
      mapped := mapped - {handle};
    }

    method DestroyDumb(fd: int, handle: nat)
      modifies this
      ensures State() == DestroyedDumb(old(State()), fd, handle)
    {
      if fd in fds {
        dumbs := dumbs - {handle};
      }
    }

    method AddFb(fd: int, ok: bool, id: nat, desc: FbDesc) returns (success: bool)
      modifies this
      ensures (State(), success) == AddedFb(old(State()), fd, ok, id, desc)
    {
      success := ok && fd in fds && PlanesLive(State(), desc);
      if success {
        fbs := fbs[id := desc];
      }
    }

    method RmFb(fd: int, id: nat)
      modifies this
      ensures State() == RemovedFb(old(State()), fd, id)
    {
      if fd in fds && id in fbs {
        fbs := fbs - {id};
        if bound == id {
          bound := 0;
        }
      }
    }

    method SetCrtc(fd: int, ok: bool, fb: nat) returns (success: bool)
      modifies this
      ensures (State(), success) == CrtcSet(old(State()), fd, ok, fb)
    {
      success := ok && fd in fds && fb in fbs;
      if success {
        bound := fb;
      }
    }
  }
}
