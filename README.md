# v4l2_demo display and dump core, modelled in Dafny

This project models three pieces of a Rockchip camera/decoder demo.

1. **The DRM presenter `DrmDisplay`.** It does five things:
   - opens the display device;
   - finds a connector, mode and CRTC;
   - checks that some plane supports the pixel format;
   - shows a 32-bit dumb buffer at start-up;
   - shows each decoded NV12 frame. For each frame it creates a dumb buffer, maps it, copies the decoder's packed frame into it with 16-aligned row pitches, registers the buffer as a two-plane framebuffer, binds it to the CRTC and retires the previous frame's framebuffer.
2. **The MPP frame dump `dump_mpp_frame_to_file`.** It serialises one decoded frame, in its pixel format, to a file. It also covers the buffer sizes that `init_packet_and_frame` requests.
3. **The V4L2 capture tool's format table.** This covers the case-insensitive selection of a format by name, and the fourcc and driver-version decodings it prints.

The kernel is seen only through its bookkeeping. `DrmKernel.KState` records:
- open descriptors;
- live dumb buffers and the requests they were made with;
- mapped buffers;
- registered framebuffers;
- the framebuffer on screen.

Each kernel call is given twice: as a pure transition on that state, and as a method of the class `DrmKernel.Kernel`, which has these five fields. Whether a call succeeds, and which ids it returns, are replies passed in by the caller.

Each state-changing `DrmDisplay` method is proved equal to a pure specification over the members and the kernel state (`InitSpec`, `FindSpec`, `SetCrtcSpec`, `CreateDumbBufferSpec`, `PresentSpec`, `TeardownSpec`), for example `(Snapshot(), err) == PresentSpec(old(Snapshot()), r)`. A thrown `std::runtime_error` becomes a returned `Failure`. The lemmas are stated on those specifications.

The copy loops write into an `array` (the mapped memory). They are proved to produce `Nv12Copy.Restrided`, a pair of row-copy families, whose byte-level properties are lemmas.

The dump is a method that appends a sequence for each `fwrite`. It is proved equal to `MppDump.DumpSpec`. The semi-planar cases de-interleave into an array `tmp`. That array's starting contents are indeterminate, so they are passed in as `junk`.

Unsigned 32-bit members and arithmetic (`uint32_t`, `RK_U32`) are reduced modulo 2^32 with `Common.Wrap32`. `ALIGN`/`MPP_ALIGN` by 16 is `(v + 15) - (v + 15) % 16`. That equals the mask `& ~15` because Dafny's `%` by a positive divisor is non-negative, as two's-complement masking is.

The code behaves as follows, which a reader may not expect:
- **The retired dumb buffer is never destroyed.** After a frame is shown, only the previous framebuffer is removed, so one dumb buffer stays allocated per shown frame (`ShownFramesLeakDumbs`).
- **A failed `drmModeSetCrtc` in `DisplayFrame` leaks.** The new framebuffer is removed and the buffer unmapped, but the new dumb buffer stays allocated and `fb_id_` keeps naming the removed framebuffer (`PresentSetCrtcFailureLeaks`).
- **There is no CRTC fallback once a connector matched.** If that connector's encoder has no CRTC, `crtc_id_` keeps its old value and `Init` fails when it was 0 (`NoFallbackAfterMatch`, `InitMatchWithoutCrtcFails`).
- **The framebuffer `Init` registers is never removed by later frames** (`InitFbNeverRemoved`). The destructor removes only the current `fb_id_`.

## Model

| member | source | states |
|---|---|---|
| Common.Align16 | drm/DrmDisplay.cpp:8 | `ALIGN(v, 16)` is a multiple of 16 with `v <= r < v + 16` |
| Common.Align16IsLeast | drm/DrmDisplay.cpp:8 | `ALIGN(v, 16)` is at most every multiple of 16 that is at least `v` |
| Common.AlignU32 | drm/DrmDisplay.cpp:150 | the macro on a `uint32_t` operand gives a multiple of 16 below 2^32, equal to `Align16` when `v + 15` does not wrap |
| Common.Wrap32 | drm/DrmDisplay.h:25-27 | a value stored in a `uint32_t` member is below 2^32 and unchanged when already in range |
| DrmKernel.Kernel.Open | drm/DrmDisplay.cpp:15-16 | returns the reply; a non-negative descriptor becomes open |
| DrmKernel.Kernel.Close | drm/DrmDisplay.cpp:286-288 | the descriptor is no longer open, nothing else changes |
| DrmKernel.Kernel.CreateDumb | drm/DrmDisplay.cpp:156-162 | succeeds only on an open descriptor and then records the handle with its request |
| DrmKernel.Kernel.MapDumb | drm/DrmDisplay.cpp:166-167 | succeeds only for a live handle on an open descriptor and changes no state |
| DrmKernel.Kernel.Mmap | drm/DrmDisplay.cpp:173-174 | succeeds only for a live handle and then marks it mapped |
| DrmKernel.Kernel.Munmap | drm/DrmDisplay.cpp:224 | the handle is no longer mapped |
| DrmKernel.Kernel.DestroyDumb | drm/DrmDisplay.cpp:168-169 | the handle is no longer a live dumb buffer |
| DrmKernel.Kernel.AddFb | drm/DrmDisplay.cpp:250-251 | registers the framebuffer only when every plane handle in use is a live dumb buffer |
| DrmKernel.Kernel.RmFb | drm/DrmDisplay.cpp:218 | unregisters the id; removing the bound framebuffer leaves nothing on screen |
| DrmKernel.Kernel.SetCrtc | drm/DrmDisplay.cpp:139-141 | binds a registered framebuffer, otherwise fails and changes nothing |
| DrmDiscovery.FirstUsable | drm/DrmDisplay.cpp:77-90 | the index of the first fetched, connected connector with modes; none exactly when no connector qualifies |
| DrmDiscovery.DiscoverFirstMatch | drm/DrmDisplay.cpp:87-99 | the first usable connector sets `conn_id_` and `mode_ = modes[0]`; the encoder's CRTC is taken only when both ids are non-zero |
| DrmDiscovery.NoFallbackAfterMatch | drm/DrmDisplay.cpp:93-108 | once a connector matched, the CRTC list is never used: without an encoder CRTC the old `crtc_id_` stays |
| DrmDiscovery.DiscoverFallback | drm/DrmDisplay.cpp:104-108 | with no usable connector, connector and mode stay and `crtc_id_` becomes `crtcs[0]` if there is one |
| DrmDiscovery.DiscoverSkipsExample | drm/DrmDisplay.cpp:77-102 | an unfetchable and a disconnected connector are skipped; the third one and its encoder's CRTC are picked |
| DrmDiscovery.FormatSearch | drm/DrmDisplay.cpp:36-49 | the nested search with `break` returns true exactly when some fetched plane lists the format |
| Nv12Layout.LayoutOfFits | drm/DrmDisplay.cpp:149-153 | without wrap-around both pitches are the least multiple of 16 at least the width, `y_size = pitch * ALIGN(height)` and `uv_size = pitch * ALIGN(height / 2)`, and the copy ends inside the two planes |
| Nv12Layout.LayoutOfAligned | drm/DrmDisplay.cpp:150-153 | the four layout constants equal their unwrapped products when the frame fits in 32 bits |
| Nv12Layout.Layout1080p | drm/DrmDisplay.cpp:149-153 | 1920x1080 gives pitch 1920, chroma offset 1920 * 1088 and chroma size 1920 * 544 |
| Nv12Layout.RequestTooSmallFor1080p | drm/DrmDisplay.cpp:156-159 | the 1920x1080 request is 3110400 bytes, which is less than the copy's 3125760 bytes even rounded up to a page |
| Nv12Layout.AlignedRequestCoversFootprint | drm/DrmDisplay.cpp:182-192 | a request of the aligned pitch by both aligned plane heights always covers everything the copy writes |
| Nv12Copy.MemCpy | drm/DrmDisplay.cpp:183-185 | one `memcpy` replaces exactly `n` bytes at the offset with the source bytes |
| Nv12Copy.CopyRows | drm/DrmDisplay.cpp:182-186 | the loop of row copies leaves the destination equal to the row-copy family `RowsCopied` |
| Nv12Copy.CopyNv12 | drm/DrmDisplay.cpp:182-192 | the luma loop and the chroma loop leave the buffer equal to `Restrided` |
| Nv12Copy.RestridedLuma | drm/DrmDisplay.cpp:182-186 | `dest[i * y_pitch + j] == src[i * width + j]` for `i < height`, `j < width` |
| Nv12Copy.RestridedChroma | drm/DrmDisplay.cpp:188-192 | `dest[y_size + i * uv_pitch + j] == src[width * height + i * width + j]` for `i < height / 2`, `j < width` |
| Nv12Copy.RestridedPadding | drm/DrmDisplay.cpp:182-192 | every byte outside all copied luma and chroma rows keeps its old value |
| Nv12Copy.RowsCopiedAt | drm/DrmDisplay.cpp:182-186 | row `i` of a family of row copies holds source row `i` at offset `dOff + i * dp` |
| Nv12Copy.RowsCopiedOutside | drm/DrmDisplay.cpp:182-186 | a byte outside every row of a family is not changed by it |
| Presenter.DrmDisplay.constructor | drm/DrmDisplay.h:24-36 | a fresh presenter has `drm_fd_ = -1`, all ids and sizes 0 and a zeroed mode |
| Presenter.DrmDisplay.Init | drm/DrmDisplay.cpp:13-60 | open, discovery, plane-format check and `SetCrtc` in that order, equal to `InitSpec` |
| Presenter.DrmDisplay.FindDisplayResources | drm/DrmDisplay.cpp:62-115 | the connector loop with its `found` flag equals the first-match discovery `Discover`; a zero CRTC fails |
| Presenter.DrmDisplay.SetCrtc | drm/DrmDisplay.cpp:119-145 | rejects a zero connector or mode width, then creates the buffer and binds `fb_id_`, equal to `SetCrtcSpec` |
| Presenter.DrmDisplay.CreateDumbBuffer | drm/DrmDisplay.cpp:231-256 | a 32 bpp dumb buffer and a depth-24 framebuffer; a failed `drmModeAddFB` destroys the buffer |
| Presenter.CreateDumbBufferReportsFirstFailure | drm/DrmDisplay.cpp:238-255 | fails with the create error when the ioctl fails, else with the `AddFB` error when `drmModeAddFB` fails, else succeeds |
| Presenter.CreateDumbBufferFailureRestores | drm/DrmDisplay.cpp:238-255 | after either failure the presenter and the kernel are exactly as before; a failed `drmModeAddFB` leaves no dumb buffer behind |
| Presenter.CreateDumbBufferSuccess | drm/DrmDisplay.cpp:231-256 | on success the kernel gains the dumb buffer and the framebuffer over it, nothing else changes, and `fb_id_` names the new framebuffer |
| Presenter.DrmDisplay.DisplayFrame | drm/DrmDisplay.cpp:147-229 | members and kernel follow `PresentSpec`; the mapped memory holds the re-strided frame exactly when create, map and `mmap` succeeded, and is untouched otherwise |
| Presenter.DrmDisplay.CheckFormatSupport | drm/DrmDisplay.cpp:259-279 | true exactly when the plane list was fetched and some fetched plane lists the format |
| Presenter.DrmDisplay.Teardown | drm/DrmDisplay.cpp:282-289 | the destructor's effect on the kernel equals `TeardownSpec` |
| Presenter.PresentReportsFirstFailure | drm/DrmDisplay.cpp:161-221 | the error is that of the first failing step among create, map, `mmap`, `AddFB2` and `SetCrtc`, and none when all succeed |
| Presenter.PresentEarlyFailureRestores | drm/DrmDisplay.cpp:165-213 | a map, `mmap` or `AddFB2` failure leaves presenter and kernel exactly as before the call |
| Presenter.PresentSetCrtcFailureLeaks | drm/DrmDisplay.cpp:216-221 | a `SetCrtc` failure removes the new framebuffer and unmaps, keeps the new dumb buffer, and sets `fb_id_` to the removed id |
| Presenter.PresentSuccessRetiresOnlyFb | drm/DrmDisplay.cpp:223-228 | a shown frame is bound, `prev_fb_id_ = fb_id_` is the new id, only the previous framebuffer is removed and no dumb buffer is destroyed |
| Presenter.FirstFrameRetiresNothing | drm/DrmDisplay.cpp:225-227 | with `prev_fb_id_ == 0` no framebuffer is removed |
| Presenter.PresentPreservesCoherent | drm/DrmDisplay.cpp:161-228 | every outcome keeps the kernel consistent and the last shown framebuffer on screen |
| Presenter.FrameFb1080p | drm/DrmDisplay.cpp:195-197 | the 1920x1080 framebuffer uses one handle twice, pitches 1920 and offsets 0 and 1920 * 1088 |
| Presenter.ShownFramesLeakDumbs | drm/DrmDisplay.cpp:156-228 | after `n` shown frames `n` more dumb buffers are live, while only the last frame framebuffer remains and is on screen |
| Presenter.ShownStep | drm/DrmDisplay.cpp:216-228 | one shown frame adds one dumb handle and swaps the previous framebuffer for the new one |
| Presenter.InitFbNeverRemoved | drm/DrmDisplay.cpp:225-228 | the framebuffer registered by `Init` stays registered through any run of shown frames |
| Presenter.InitSucceedsIff | drm/DrmDisplay.cpp:13-60 | `Init` succeeds exactly when open, resources, a CRTC, the plane list, the format, a connector with a mode, creation, registration and binding all succeed |
| Presenter.InitSuccessShows | drm/DrmDisplay.cpp:119-145 | a successful `Init` stores the sizes and format and puts its legacy framebuffer on screen |
| Presenter.InitFallbackAlwaysFails | drm/DrmDisplay.cpp:104-123 | with no usable connector and no connector or mode set earlier, `Init` fails and creates no dumb buffer or framebuffer |
| Presenter.InitMatchWithoutCrtcFails | drm/DrmDisplay.cpp:87-114 | a matched connector without an encoder CRTC fails with "No available CRTC found" and leaves the descriptor open |
| Presenter.InitFormatCheckClosesFd | drm/DrmDisplay.cpp:29-56 | a missing plane list or an unsupported format closes the descriptor and sets `drm_fd_ = -1` |
| Presenter.InitEstablishesCoherent | drm/DrmDisplay.cpp:13-60 | `Init` on a presenter that has shown no frame leaves a consistent kernel |
| Presenter.SetCrtcKeepsCoherent | drm/DrmDisplay.cpp:119-145 | `SetCrtc` before any frame keeps the kernel consistent |
| Presenter.TeardownReleases | drm/DrmDisplay.cpp:282-289 | the destructor removes `fb_id_` when non-zero and closes a non-negative descriptor; every other framebuffer and every dumb buffer stays |
| MppBuffers.Decoder.constructor | mpp/mppdecode.h:63-70 | a fresh decoder has acquired no group, packet, frame or buffer. The groups, packet and frame have no initializer, so `false` means "not acquired", not a null handle |
| MppBuffers.Decoder.InitPacketAndFrame | mpp/mppdecode.cpp:119-163 | the five acquisitions in order, equal to `InitBuffersSpec` |
| MppBuffers.InitBuffersSucceedsIff | mpp/mppdecode.cpp:125-162 | the result is 0 or -1, and 0 exactly when all five acquisitions succeed |
| MppBuffers.InitBuffersSuccess | mpp/mppdecode.cpp:146-161 | on success the frame buffer has `hor_stride * ver_stride * 4` bytes, packet buffer `width * height * 2`, and the frame carries the frame buffer |
| MppBuffers.InitBuffersFailureKeepsEarlier | mpp/mppdecode.cpp:126-157 | a failure keeps everything acquired before it and acquires nothing after it |
| MppBuffers.FrameBufferNoWrap | mpp/mppdecode.cpp:121-146 | without wrap-around the strides are the 16-aligned sizes and the frame buffer holds at least four bytes per pixel |
| MppBuffers.Buffers1080p | mpp/mppdecode.cpp:146-152 | 1920x1080 requests 8355840 frame bytes and 4147200 packet bytes |
| MppBuffers.FrameBufferHolds420sp | mpp/mppdecode.cpp:307-323 | a frame buffer of that size holds every row the YUV420SP dump reads |
| MppDump.RowsAt | mpp/mppdecode.cpp:314-317 | byte `j` of row `i` of strided rows is `base[start + i * stride + j]`, at output position `i * len + j` |
| MppDump.RowsSnoc | mpp/mppdecode.cpp:314-317 | one more row appends exactly the next `len` bytes at `start + n * stride` |
| MppDump.AppendRows | mpp/mppdecode.cpp:290-291 | the `fwrite` loop appends the strided rows and leaves the row address at `start + n * stride` |
| MppDump.Deinterleave | mpp/mppdecode.cpp:293-300 | the nested loops leave `tmp` equal to the de-interleave `Split` of its old contents |
| MppDump.StoredPair | mpp/mppdecode.cpp:295-296 | storing one U/V pair advances the staged de-interleave by one pair |
| MppDump.SplitAt | mpp/mppdecode.cpp:293-300 | pair `(i, j)`'s U byte lands at `u0 + i * cols + j` and its V byte at `v0 + i * cols + j` |
| MppDump.SplitOutside | mpp/mppdecode.cpp:286-300 | bytes of `tmp` outside both blocks keep their old contents |
| MppDump.SplitCovers | mpp/mppdecode.cpp:293-300 | every byte inside the two blocks is independent of `tmp`'s old contents |
| MppDump.DumpFrame | mpp/mppdecode.cpp:252-395 | the bytes written equal `DumpSpec` for every format case |
| MppDump.DumpWritesNothing | mpp/mppdecode.cpp:263-274 | a null file, frame or buffer, or an unhandled format, writes nothing |
| MppDump.Dump400 | mpp/mppdecode.cpp:375-388 | YUV400 writes exactly the `width * height` luma bytes |
| MppDump.LumaAt | mpp/mppdecode.cpp:290-291 | the luma part has `width * height` bytes, byte `i * width + j` read from `i * h_stride + j` |
| MppDump.Dump420sp | mpp/mppdecode.cpp:307-323 | YUV420SP writes `width * height + (height / 2) * width` bytes, chroma row `i` read from `h_stride * v_stride + i * h_stride` |
| MppDump.Dump420p | mpp/mppdecode.cpp:324-343 | YUV420P writes U rows at stride `h_stride / 2`, then V rows that continue where the U rows stopped |
| MppDump.Dump444sp | mpp/mppdecode.cpp:344-374 | YUV444SP writes all U bytes then all V bytes, chroma rows `2 * h_stride` apart, `3 * width * height` bytes in all |
| MppDump.Dump422sp | mpp/mppdecode.cpp:280-306 | YUV422SP for every width writes `2 * width * height` bytes. Each row puts `width / 2` even chroma bytes into the U block at `width * height`, and its odd bytes into the V block at `width * height + width * height / 2` |
| MppDump.Dump422spUnstoredFromTmp | mpp/mppdecode.cpp:288-302 | every written chroma byte outside the two blocks is the old content of `tmp` at the same offset |
| MppDump.Dump422spOddWidthLeaksTmp | mpp/mppdecode.cpp:286-302 | for a 3x2 frame, an output byte depends on the uninitialised contents of `tmp` |
| MppDump.Dump422spIntendedIgnoresTmp | mpp/mppdecode.cpp:286-302 | with `tmp_v` after the `(width / 2) * height` U bytes, no output byte depends on `tmp`'s old contents |
| MppDump.Dump422spIntendedAgreesWhenEven | mpp/mppdecode.cpp:286-302 | for even widths the corrected dump equals the dump as written |
| V4l2Formats.FourccCharsOfFourcc | v4l2_capture.c:83-87 | the shift-and-mask decoding returns the four characters a code was built from, low byte first |
| V4l2Formats.FourccOfFourccChars | v4l2_capture.c:100-104 | every 32-bit code is rebuilt from its four decoded characters |
| V4l2Formats.CodesDistinct | v4l2_capture.c:37-44 | the five table fourccs are pairwise distinct |
| V4l2Formats.DecodeVersion | v4l2_capture.c:63-66 | each printed version component is below 256 |
| V4l2Formats.DecodeEncodeVersion | v4l2_capture.c:63-66 | components below 256 survive encoding and decoding |
| V4l2Formats.EncodeDecodeVersion | v4l2_capture.c:63-66 | decoding keeps exactly the low 24 bits of the version |
| V4l2Formats.FirstMatch | v4l2_capture.c:150-161 | a found index names a non-sentinel entry whose name matches ignoring ASCII case |
| V4l2Formats.FirstMatchStopsAtSentinel | v4l2_capture.c:151-158 | the lookup never reads past the sentinel, and every entry up to the match has a name |
| V4l2Formats.FirstMatchReaches | v4l2_capture.c:151-158 | a matching entry before any sentinel is always found, at or before its index |
| V4l2Formats.CaptureFormat.constructor | v4l2_capture.c:27-28 | the defaults are YUYV, single-planar |
| V4l2Formats.CaptureFormat.SetFormatByName | v4l2_capture.c:150-161 | returns 1 and sets both globals from the first matching entry, or returns 0 and changes neither |
| V4l2Formats.SetFormatAcceptsIff | v4l2_capture.c:37-44 | a name is accepted exactly when it equals one of YUYV, MJPG, NV12, NV21, YUV420 ignoring ASCII case |
| V4l2Formats.MultiplanarExactly | v4l2_capture.c:38-42 | the selected multi-planar flag is 1 exactly for NV12, NV21 and YUV420 |
| V4l2Formats.LowerCaseNv12 | v4l2_capture.c:153 | "nv12" selects the NV12 entry, multi-planar |
| V4l2Formats.PrefixRejected | v4l2_capture.c:153 | "YUV42", a proper prefix of a name, matches nothing |

## Left out

- Console output (`std::cout`, `printf`, `MPP_ERR`, the colour macros) and `strerror` texts are not modelled. A `Failure` constructor stands for each distinct message.
- The internals of the kernel, libdrm and MPP calls are foreign. Their success and returned ids are replies given to the model.
- Kernel.Close: closing the last descriptor does not free the kernel objects it owns. The model keeps them, because object lifetime after close is kernel-internal.
- The dumb-buffer replies `create.size` and `create.pitch` of `DisplayFrame` are not modelled. The code never checks the size, so the copy's requirement is stated as a precondition (see `DisplayFrame` below).
- `drmModeModeInfo` is reduced to `hdisplay`, `vdisplay` and `vrefresh`. No other field is read.
- `dumb_handle_`, `pitch_` and `mapped_ptr_` are declared in drm/DrmDisplay.h:37-39 but never used.
- `InitRed`, `DisplayRed`, `CreateRedBuffer` and the presenter's constructor are declared but have no definition in the repository. The model's constructor gives the member initializers only.
- `mppDecode::init`, `decode`, the destructor and `set_out_file_name` are out of scope: they are sequences of vendor calls and C-string plumbing. The rest of the decoder's members are also left out.
- main.cpp, the V4L2 device setup, buffer mapping, streaming, the `select` loop, file writes, option parsing and the format listing loops of v4l2_capture.c are device I/O and start-up code.
- The V4L2 fourcc constants are built from their characters as Linux's `videodev2.h` defines them; that header is not part of this model.
- The unused `tmp` that the YUV400 case allocates and frees is not modelled, since nothing reads or writes it.
- Memory allocation failure (`new` throwing) and threading are not modelled.
- DisplayFrame: requires, only when the copy is reached (create, map and `mmap` succeed), that the mapped memory hold the copy's footprint and the source hold a packed frame. The code checks neither; without them its copy is undefined behaviour. The same requirement also excludes layouts whose 32-bit arithmetic wraps, which the code handles without undefined behaviour. Examples: a width within 15 of 2^32, where the aligned pitch wraps below the width; or `y_pitch * ALIGN(height)` wrapping, as for a 2^28 x 1 frame whose `y_size` is 0. For those layouts the model states nothing about the copy.
- CaseEq, SetFormatByName: a name is compared over its whole length. `strcasecmp` stops at the first NUL, but a name from the command line cannot contain one, so a name with a `'\0'` in it stands for nothing the program can be given.
- InitPacketAndFrame: requires that the `int` arithmetic in `MPP_ALIGN` and `width * height * 2` does not overflow, since signed overflow is undefined in C++. The conversion of a negative packet size to `size_t` is not modelled; the size is kept as an `int`.
- DumpFrame: requires every read of the frame buffer and every write of `tmp` to be in bounds, which the code assumes; address arithmetic is unbounded.
- Dump444sp, Dump422sp, Dump422spUnstoredFromTmp: stated only where `width * height * 2` (respectively `width * height`) and `h_stride * 2` do not wrap in 32 bits.
- LayoutOfFits, AlignedRequestCoversFootprint: stated only where the layout arithmetic does not wrap in 32 bits.

## Findings

| source | as written | input that shows it | evidently intended | confidence | as-written member | corrected member |
|---|---|---|---|---|---|---|
| drm/DrmDisplay.cpp:156-159 | the NV12 dumb buffer is requested as `width_` by `height_ * 3 / 2` at 8 bpp, while the copy uses 16-aligned pitches and plane heights | 1920x1080: 3110400 bytes requested (3112960 after page rounding), but the chroma rows end at byte 3125760 | request the aligned pitch by the aligned luma and chroma heights | not executed; the driver may round the size up further | Nv12Layout.RequestTooSmallFor1080p | Nv12Layout.AlignedRequestCoversFootprint |
| mpp/mppdecode.cpp:288 | YUV422SP sets `tmp_v = tmp + width * height / 2`, but each row stores only `width / 2` U bytes | 3x2 frame: U bytes go to `tmp[0..2)`, V bytes to `tmp[3..5)`, and bytes 2 and 5 of the six chroma bytes written are never stored | `tmp_v = tmp + (width / 2) * height`, and write only the two blocks | not executed | MppDump.Dump422spOddWidthLeaksTmp | MppDump.Dump422spIntendedIgnoresTmp |

`DisplayFrame` and `DumpFrame` model the code as written. `DisplayFrame` states the copy's footprint as a precondition on the mapped memory, so it does not depend on the request size. The corrected YUV422SP dump, `Out422spIntended`, is proved to agree with the one written for every even width (`Dump422spIntendedAgreesWhenEven`). For every width, `Dump422sp` states where the stored chroma bytes land in the dump as written, and `Dump422spUnstoredFromTmp` states that every other chroma byte it writes comes from `tmp`.
