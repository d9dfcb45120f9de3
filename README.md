# Desktop-duplication capture core of Captura, modelled in Dafny

This project models the integer and bookkeeping side of Captura's
desktop-duplication capture pipeline, and proves properties of that model.

- **Pointer reconciliation and metadata buffering** (`Duplication`, after
  `Port/DuplicationManager.cs`):
  - `GetMouse` merges one output's pointer report into the shared
    `PointerInfo`, using the writer/visibility/timestamp tie-break rule.
  - `GetMouse` also grows the pointer-shape buffer as a high-water mark.
  - `GetFrame` acquires a frame. It keeps high-water-mark move and dirty
    buffers and derives the rectangle counts from byte sizes.
  - `DoneWithFrame` releases the frame.
- **Rotation-aware compositing** (`Display`, after `Port/DisplayManager.cs`):
  - `SetMoveRect` and the `destDirty` transform are modelled for rotations
    0/90/180/270 and for unnamed enumeration values.
  - `CopyMove` issues its sequence of region copies, recorded in a GPU
    operation log.
  - `SetDirtyVert` writes a vertex slot in place.
  - `CopyDirty` keeps a vertex cache that only grows, and counts the draw.
  - `ProcessFrame` dispatches moves and dirty rectangles.
- **CPU frame pool** (`Pool`, after `ImagePool.cs`):
  - the free queue and the list of all frames;
  - `Get`, the release handler and `Dispose`;
  - `ReusableFrame`'s constructor, `Dispose` and `CopyTo`;
  - a corrected pair, `Lend` and `Reclaim`, that records which loan each
    handed-out frame is on, so that a repeated `Dispose` is ignored.
- **Single-output capture state machine** (`Duplicator`, after
  `DesktopDuplicator.cs`):
  - the acquisition slot;
  - `Capture`, `BeginAcquireTask`, `ReleaseFrame` and `ProcessFrame`;
  - the constructor's sizing and its `DuplicateOutput` error mapping.
  - `CaptureStep` is a pure description of one `Capture` call. The lemmas
    about runs of calls are stated over it.

Shared types live in three more modules:

- `Base`: `Option`, `byte`, exceptions, C#'s 32-bit `int` wrap-around and the
  high-water-mark rule.
- `Dxgi`: the platform's value types.
- `PortTypes`: `PointerInfo`, `FrameData` and `Vertex` from
  `Port/PointerInfo.cs`.

Platform calls are parameters of the operations that make them.
`AcquireNextFrame`'s outcome, the metadata calls' byte counts,
`ReleaseFrame`'s result and the mapped staging memory are all such
parameters. Calls whose effect is on the GPU are appended to operation logs:
`Display.GpuOp` and `Duplicator.Event`. Two more things are parameters: the
outcome of the acquisition task at the time it is awaited, and the
`DuplicateOutput` failure in the constructor.

Two behaviours of the code are worth knowing before the table:

- The stored pointer timestamp can decrease. While the stored pointer is
  invisible, a visible report from another output of any age is accepted
  (`Duplication.AcceptedReportMayBeOlder`).
- A second `Dispose` of a frame enqueues it again (finding 2 below).

## Model

| member | source | states |
|---|---|---|
| Base.Int32 | src/DesktopDuplication/ImagePool.cs:43 | C#'s unchecked `int` result: in [-2^31, 2^31), congruent to the true value modulo 2^32, and equal to it inside the range |
| Base.ImageBytesWraps | src/DesktopDuplication/ImagePool.cs:43 | `Width * Height * 4` is exact for a 1000x1000 frame; it wraps to -2^31 for 32768x16384 and to 0 for 65536x16384 |
| Base.Grow | src/DesktopDuplication/Port/DuplicationManager.cs:135-143 | one request against a buffer: the new size is at least the old size and the request, and is one of the two |
| Base.CapacityAfter | src/DesktopDuplication/Port/DuplicationManager.cs:135-143 | after any sequence of frames, a high-water-mark buffer is at least its initial size and at least every size requested |
| Base.CapacityIsMaximum | src/DesktopDuplication/Port/DuplicationManager.cs:135-143 | it is exactly the maximum: either the initial size or one of the requested sizes |
| Base.ReallocatesIffGrows | src/DesktopDuplication/Port/DuplicationManager.cs:80-90 | a sequence of requests reallocates at least once exactly when the capacity ends larger than it began |
| Base.FittingRequestsKeepBuffer | src/DesktopDuplication/Port/DuplicationManager.cs:135-143 | requests that all fit cause no reallocation and leave the capacity unchanged |
| Base.SingleGrowth | src/DesktopDuplication/Port/DuplicationManager.cs:135-143 | one oversized request followed by fitting ones reallocates exactly once, to that request's size |
| PortTypes.PointerInfo.constructor | src/DesktopDuplication/Port/PointerInfo.cs:10-19 | a new pointer record has a null shape buffer, buffer size 0, writer 0 (output 0's reports count as the last writer's), timestamp 0, and is invisible |
| PortTypes.FrameData.constructor | src/DesktopDuplication/Port/PointerInfo.cs:44-52 | a new frame record has no frame, no metadata arrays and zero counts |
| Dxgi.SurfaceOffset | src/DesktopDuplication/Port/DisplayManager.cs:186-187 | the offset that, added to a desktop-relative coordinate, gives the shared-surface coordinate: adding OffsetX and OffsetY back gives the output's desktop corner |
| Duplication.UpdateAccepted | src/DesktopDuplication/Port/DuplicationManager.cs:50-67 | a report from the last writer is always accepted; a report from another output is accepted iff it is visible and not older than a visible stored state |
| Duplication.AcceptedReportMayBeOlder | src/DesktopDuplication/Port/DuplicationManager.cs:55-64 | for every stored timestamp and every older visible report from an output other than the last writer, the report is accepted while the stored pointer is invisible, so the timestamp can decrease |
| Duplication.NewerVisibleReportWins | src/DesktopDuplication/Port/DuplicationManager.cs:61-64 | a visible report with an equal or newer timestamp is accepted, whoever wrote last |
| Duplication.DuplicationManager.constructor | src/DesktopDuplication/Port/DuplicationManager.cs:14-19 | a new manager holds no image, no metadata buffers and a metadata size of 0, and satisfies the buffer invariant |
| Duplication.DuplicationManager.InitDupl | src/DesktopDuplication/Port/DuplicationManager.cs:23-32 | binds the manager to its output number and that output's description |
| Duplication.DuplicationManager.GetMouse | src/DesktopDuplication/Port/DuplicationManager.cs:41-99 | with no pointer update, nothing changes. Otherwise position, writer, timestamp and visibility follow UpdateAccepted, and the position is translated by the output's offset on the desktop. A non-zero shape size grows the buffer as a high-water mark: it is reallocated exactly when too small, and its size never decreases. The shape information, or the platform error, comes from the reply |
| Duplication.DuplicationManager.GetFrame | src/DesktopDuplication/Port/DuplicationManager.cs:101-155 | Timeout is true iff WaitTimeout. A timeout or a failure changes nothing, and a failure throws "Failed to acquire frame". Frame and FrameInfo are never written. The metadata size never decreases, and the buffers are reallocated, to size/24 and size/16 records, iff the size grows. Counts are reported bytes / record size and the arrays are the buffers. No metadata keeps the previous counts |
| Duplication.DuplicationManager.DoneWithFrame | src/DesktopDuplication/Port/DuplicationManager.cs:157-164 | a successful release drops the acquired image. A failed release throws the platform error and keeps the image. Releasing with no image throws a null dereference |
| Duplication.BytesFitBuffer | src/DesktopDuplication/Port/DuplicationManager.cs:145-153 | a reply that reports no more bytes than the buffer holds gives counts within the buffers' lengths |
| Display.SetMoveRect | src/DesktopDuplication/Port/DisplayManager.cs:73-146 | Identity/Unspecified: source at the source point with the destination's size, destination unchanged. 90: equal extents, width and height swapped. 180: equal extents, unchanged. 270: both heights equal destW, destination width destH, source width srcY+destH-srcX, and the widths agree iff srcX = srcY. Any other value: both rectangles empty |
| Display.MovePair | src/DesktopDuplication/Port/DisplayManager.cs:178-217 | one move issues two copies: shared surface to staging, then staging to shared surface. The staged box is the source rectangle at its own coordinates, the box read from the shared surface is that rectangle translated by the surface offset, and the copy back reads the staged box |
| Display.MoveCopies | src/DesktopDuplication/Port/DisplayManager.cs:176-218 | n moves issue exactly 2n region copies |
| Display.MoveCopiesInOrder | src/DesktopDuplication/Port/DisplayManager.cs:176-218 | copy 2i takes move i's source rectangle, translated to the shared surface, into staging at the source's corner; copy 2i+1 takes it back to the destination's translated corner |
| Display.DestDirty | src/DesktopDuplication/Port/DisplayManager.cs:232-269 | the transform keeps the dirty rectangle's area under every rotation. 90 and 270 swap its sides and 180 keeps them. A rotation other than 90/180/270 leaves the rectangle itself |
| Display.TexCorners | src/DesktopDuplication/Port/DisplayManager.cs:239-284 | every named rotation writes four texture coordinates and an unnamed one writes none; Identity samples (L,B), (L,T), (R,B), (R,T) |
| Display.TexCornersSampleEachCorner | src/DesktopDuplication/Port/DisplayManager.cs:239-284 | for every named rotation, the four coordinates are the dirty rectangle's four corners, each once |
| Display.DirtyQuad | src/DesktopDuplication/Port/DisplayManager.cs:221-311 | vertices 3 and 4 equal vertices 2 and 1. Vertex 0's position ends at (R,T), because its first write is overwritten, and vertex 1 is at (L,T) and vertex 2 at (R,B) of destDirty plus the offset. Vertex 5's position is never written. Coordinates follow TexCorners, or are untouched for an unnamed rotation |
| Display.LeftBottomCornerMissing | src/DesktopDuplication/Port/DisplayManager.cs:286-307 | for a non-degenerate rectangle, none of the five written positions is the (L,B) corner |
| Display.SetDirtyVert | src/DesktopDuplication/Port/DisplayManager.cs:221-311 | the slot array afterwards is DirtyQuad of its previous contents |
| Display.FillSlot | src/DesktopDuplication/Port/DisplayManager.cs:357-363 | an empty slot gets a fresh array of six vertices. An existing slot keeps its array. The array then holds the rectangle's quad, and no other slot changes |
| Display.FillSlots | src/DesktopDuplication/Port/DisplayManager.cs:355-364 | each slot below DirtyCount holds its rectangle's quad, built from its own earlier contents. Slots above are untouched, and the slots stay distinct six-vertex arrays |
| Display.DisplayManager.constructor | src/DesktopDuplication/Port/DisplayManager.cs:20-26 | no staging surface, no render target view, no vertex cache |
| Display.DisplayManager.IssueMove | src/DesktopDuplication/Port/DisplayManager.cs:178-217 | one move appends exactly its two copies: out of the shared surface into staging at the source's corner, then back to the destination's translated corner |
| Display.DisplayManager.CopyMove | src/DesktopDuplication/Port/DisplayManager.cs:155-219 | the staging surface is created once, sized to the desktop bounds, and then the moves' copies are appended in order |
| Display.DisplayManager.CopyDirty | src/DesktopDuplication/Port/DisplayManager.cs:313-400 | the render target view is created once. The cache is reallocated iff it is null or shorter than DirtyCount, then to exactly DirtyCount slots, and it never shrinks. Every slot below DirtyCount holds its rectangle's six vertices and the rest are untouched. Exactly 6·DirtyCount vertices are drawn |
| Display.DisplayManager.ProcessFrame | src/DesktopDuplication/Port/DisplayManager.cs:37-71 | no metadata means no operation and leaves the cache and every slot's vertices untouched. Otherwise moves are applied before dirty rectangles, each only when its count is positive: the staging surface and the render target view are made on first use, the slots hold their rectangles' quads as CopyDirty states, and without dirty rectangles the cache is untouched. A missing frame throws a null dereference |
| Display.CopyDirtyAsWritten | src/DesktopDuplication/Port/DisplayManager.cs:350-363 | as written, any DirtyCount > 0 throws a null dereference, because the new slot holds six null vertex references |
| Pool.ReusableFrame.constructor | src/DesktopDuplication/ImagePool.cs:38-44 | the frame has the given size and a zeroed buffer of Width·Height·4 bytes, as 32-bit arithmetic computes it |
| Pool.ReusableFrame.Dispose | src/DesktopDuplication/ImagePool.cs:46-49 | the subscribed pool enqueues the frame at the back, and a frame already queued ends up queued twice. No other pool state changes |
| Pool.ReusableFrame.DisposeLease | src/DesktopDuplication/ImagePool.cs:46-49 | corrected: the frame returns to the back of the queue only while the loan it names is current, and that loan ends; a second or stale Dispose changes nothing. The loan invariant is kept |
| Pool.ReusableFrame.CopyTo | src/DesktopDuplication/ImagePool.cs:60-63 | it completes iff buffer ≠ null and 0 ≤ length ≤ both lengths. Then buffer[..length] equals the image's prefix and the rest is unchanged. Otherwise it raises ArrayCopy's exception and changes nothing |
| Pool.ImagePool.constructor | src/DesktopDuplication/ImagePool.cs:76-87 | an empty pool of the given frame size |
| Pool.ImagePool.Get | src/DesktopDuplication/ImagePool.cs:89-110 | A non-empty queue gives its front (FIFO), leaving the frame list unchanged. An empty one gives a fresh frame of the pool's size subscribed to the pool and appended to the list, or an overflow for a negative size. The pool invariant is kept, and with no duplicates queued the frame handed out is no longer queued |
| Pool.ImagePool.OnReleased | src/DesktopDuplication/ImagePool.cs:98-104 | the released frame joins the back of the queue, and the invariant is kept: every queued frame is an allocated frame of the pool's size |
| Pool.ImagePool.Lend | src/DesktopDuplication/ImagePool.cs:89-110 | corrected Get: as Get (the queue's front, or with an empty queue a fresh frame with a fresh buffer, the queue left empty), and the frame is recorded on a new loan numbered by the count of loans so far. It is never a frame already on loan, and the invariant (no frame queued twice, no lent frame queued) is kept |
| Pool.ImagePool.Reclaim | src/DesktopDuplication/ImagePool.cs:98-104 | corrected release handler: the frame joins the back of the queue iff the token is its current loan, which then ends; otherwise nothing changes |
| Pool.ImagePool.Dispose | src/DesktopDuplication/ImagePool.cs:112-118 | destroying every frame changes no pool state |
| Pool.ReusableFrame.Destroy | src/DesktopDuplication/ImagePool.cs:67-69 | has no effect: the method may change nothing |
| Pool.DisposedFrameIsReused | src/DesktopDuplication/ImagePool.cs:89-104 | on a fresh pool, a frame handed out and disposed is the one the next Get returns |
| Pool.DoubleDisposeShares | src/DesktopDuplication/ImagePool.cs:93-104 | as written, on a fresh pool: Get, Dispose twice, Get, Get hands the same frame out twice |
| Pool.DoubleDisposeLeasedSeparates | src/DesktopDuplication/ImagePool.cs:46-49 | corrected: Lend, Dispose twice, Lend, Lend hands out two different frames |
| Pool.StaleDisposeIgnored | src/DesktopDuplication/ImagePool.cs:46-49 | corrected: a Dispose repeated after the frame went out on a new loan does not return it, so the next Lend hands out another frame |
| Duplicator.Rectangle.Region | src/DesktopDuplication/DesktopDuplicator.cs:110 | the copied region starts at the rectangle's corner and has its width and height |
| Duplicator.DuplicateOutputError | src/DesktopDuplication/DesktopDuplicator.cs:59-70 | NotCurrentlyAvailable maps to an Exception with the "maximum number of applications" message, and Unsupported to NotSupportedException with its message; any other code propagates unchanged |
| Duplicator.Awaited | src/DesktopDuplication/DesktopDuplicator.cs:93-95 | awaiting a completed task gives its outcome again; a running task gives the platform's outcome |
| Duplicator.DeliverCopy | src/DesktopDuplication/DesktopDuplicator.cs:117-143 | the delivery is a new frame iff the 32-bit size is non-negative, and the byte copy is made exactly then; otherwise it is the pool's overflow. The calls start with the re-arm and end with the unmap |
| Duplicator.CaptureStep | src/DesktopDuplication/DesktopDuplicator.cs:84-129 | one call as written: the slot is never empty afterwards, and a new frame leaves a running acquisition (AtMostOneInFlight states the arming) |
| Duplicator.CaptureStepCorrected | src/DesktopDuplication/DesktopDuplicator.cs:84-129 | one call as intended: the same, and the slot never keeps a timed-out task |
| Duplicator.FirstCaptureOnlyArms | src/DesktopDuplication/DesktopDuplicator.cs:86-91 | the first Capture arms exactly one 5000 ms acquisition, returns the repeat sentinel and makes no other call |
| Duplicator.TimeoutRepeats | src/DesktopDuplication/DesktopDuplicator.cs:93-100 | as written, a timeout returns the repeat sentinel with no release, no new acquisition and no pool Get, and keeps the timed-out task |
| Duplicator.AcquireFailureRaises | src/DesktopDuplication/DesktopDuplicator.cs:101-104 | a failed acquisition raises "Failed to acquire next frame." and makes no call |
| Duplicator.ReleaseFailureRaises | src/DesktopDuplication/DesktopDuplicator.cs:146-159 | a failed release of a running acquisition raises "Failed to release frame." after the copy and the release, arms nothing, and leaves the completed acquisition in the slot |
| Duplicator.NewFrameOrder | src/DesktopDuplication/DesktopDuplicator.cs:106-135 | a new frame is delivered iff a running acquisition acquired a frame that was then released. Its calls are, in order: copy of the capture region, release, one new acquisition, map, one pool Get, a copy of exactly Width·Height·4 bytes, and unmap |
| Duplicator.AtMostOneInFlight | src/DesktopDuplication/DesktopDuplicator.cs:79-117 | a call arms at most one acquisition, and one is running after the call iff the call armed it |
| Duplicator.CorrectedAtMostOneInFlight | src/DesktopDuplication/DesktopDuplicator.cs:79-117 | the corrected step also arms at most one acquisition, and one is running after the call iff the call armed it |
| Duplicator.StepEventsReleased | src/DesktopDuplication/DesktopDuplicator.cs:106-117 | within one call, the copied-out frame is released before the next acquisition is armed and before the call returns |
| Duplicator.StepKeepsRearmsReleased | src/DesktopDuplication/DesktopDuplicator.cs:106-117 | a call appended to any log of earlier calls that keeps the release-before-re-arm property keeps it |
| Duplicator.CorrectedStepKeepsRearmsReleased | src/DesktopDuplication/DesktopDuplicator.cs:97-117 | the corrected step keeps the same release-before-re-arm property |
| Duplicator.RunKeepsRearmsReleased | src/DesktopDuplication/DesktopDuplicator.cs:84-129 | over any sequence of calls, written or corrected, no acquisition is armed while an acquired frame is unreleased, and every copied-out frame is released by the end |
| Duplicator.RunFrom | src/DesktopDuplication/DesktopDuplicator.cs:84-129 | a run of n calls delivers n results |
| Duplicator.StalledAfterTimeout | src/DesktopDuplication/DesktopDuplicator.cs:95-100 | as written, once an acquisition times out, every later call returns the repeat sentinel and calls nothing, whatever the platform would deliver |
| Duplicator.StuckAfterReleaseFailure | src/DesktopDuplication/DesktopDuplicator.cs:93-110 | once a release has failed, every later call, written or corrected, raises on the disposed resource and calls nothing, whatever the platform would deliver. The exception's class, a null dereference, is assumed |
| Duplicator.CorrectedAgreesExceptTimeout | src/DesktopDuplication/DesktopDuplicator.cs:97-100 | the corrected step differs from the written one exactly on an awaited timeout |
| Duplicator.CorrectedRecoversFromTimeout | src/DesktopDuplication/DesktopDuplicator.cs:79-100 | after arming and three timeouts, a successful acquisition is delivered by the corrected step; as written it is never delivered |
| Duplicator.ArmedRunRecovers | src/DesktopDuplication/DesktopDuplicator.cs:79-100 | from a running acquisition, the corrected step re-arms after each of three timeouts and then delivers the acquired frame |
| Duplicator.DesktopDuplicator.Init | src/DesktopDuplication/DesktopDuplicator.cs:36-57 | the pool and the staging texture are both sized from the capture rectangle, and no acquisition is armed |
| Duplicator.DesktopDuplicator.Create | src/DesktopDuplication/DesktopDuplicator.cs:36-73 | a capturer is made iff DuplicateOutput succeeds; otherwise the failure is raised as DuplicateOutputError maps it |
| Duplicator.DesktopDuplicator.BeginAcquireTask | src/DesktopDuplication/DesktopDuplicator.cs:79-82 | the slot holds a running acquisition with the 5000 ms timeout |
| Duplicator.DesktopDuplicator.ReleaseFrame | src/DesktopDuplication/DesktopDuplicator.cs:146-159 | the release is made; a failing one raises "Failed to release frame." |
| Duplicator.DesktopDuplicator.ProcessFrame | src/DesktopDuplication/DesktopDuplicator.cs:131-144 | one pool Get. The frame's whole buffer of Width·Height·4 bytes becomes the mapped memory's prefix, and every other frame's buffer is unchanged. The frame is the queue's front or a fresh one, and a negative size raises an overflow. The pool's queue loses its front, or with an empty queue the fresh frame, with a fresh buffer, is appended to the frame list; the loan record is unchanged |
| Duplicator.DesktopDuplicator.AwaitAcquisition | src/DesktopDuplication/DesktopDuplicator.cs:93-95 | a running task completes with the platform's outcome and stores its frame information and resource; a completed task gives the same outcome again |
| Duplicator.DesktopDuplicator.CopyAcquired | src/DesktopDuplication/DesktopDuplicator.cs:106-128 | copy, dispose the resource and release, then (unless the release fails) re-arm, map, fill a pooled frame and unmap, with the pool and the buffers changed as ProcessFrame states. The pool's queue loses its front, or with an empty queue the fresh frame, with a fresh buffer, is appended to the frame list; the loan record is unchanged |
| Duplicator.DesktopDuplicator.Capture | src/DesktopDuplication/DesktopDuplicator.cs:84-129 | the new slot, the delivery and the calls made are those of CaptureStepCorrected, so an acquisition left in the slot by a failed release raises (a null dereference, by assumption). A delivered frame is the pool's front or a fresh frame holding the mapped bytes, no other frame's buffer changes, and no other delivery touches the pool. The acquired resource is disposed once copied. The pool's queue loses its front, or with an empty queue the fresh frame, with a fresh buffer, is appended to the frame list; the loan record is unchanged |
| Duplicator.ConsecutiveCapturesDiffer | src/DesktopDuplication/ImagePool.cs:89-95 | two calls that both deliver a new frame deliver different frames, as long as no frame waits twice in the pool's queue |

## Left out

- Direct3D and DXGI resource work is not modelled: no textures, views, shaders,
  buffer objects, `QueryInterface`, and no `DuplicateOutput` itself. Of the
  resources' `Dispose` calls, only the acquired desktop resource's is tracked,
  as `desktopResource` becoming `None`. Only the calls' order and arguments are logged
  (`GpuOp`, `Event`), or their replies are parameters.
- Floating point in SetDirtyVert is not modelled. Positions are kept as the
  integer pixel coordinates before the division by the surface centre.
  Texture coordinates are kept as the integer edges before the division by
  the frame size (`Pos`, `TexCoord`).
- Row pitch of the mapped staging texture: the copy treats the mapped memory
  as Width·Height·4 contiguous bytes, as the source's copy does (`mapped` is
  a parameter).
- Pinning and marshalling are not modelled: `GCHandle`, `Marshal.SizeOf`,
  `AllocHGlobal`/`FreeHGlobal`, and the contents `GetFramePointerShape` and
  the metadata calls write. The shape buffer is a fresh array of the
  requested size. The record sizes are the constants 24 and 16.
- Concurrency is not modelled. The pool's `lock` and the acquisition
  `Task.Run` are sequential: a task's outcome is fixed when `Capture` awaits
  it.
- `Port/ThreadManager.cs` is not part of this model; it spawns the worker
  tasks and creates devices and shaders. `AllocatedTexture.cs`,
  `MfWriterProvider.cs`, `MfItem.cs` and `IBitmapFrame.cs` are not part of
  it either: they are wrappers, descriptors and an interface.
- `DummyBitmapEditor`, `GetEditor` and `SaveGif` in ImagePool.cs are GDI code
  or unimplemented, and are not modelled.
- The best-effort `Dispose` methods, which swallow every error, are not
  modelled: `DesktopDuplicator.Dispose` and `DuplicationManager.Dispose`.
  `DisplayManager.Dispose` is left out too.
- Duplication.DuplicationManager.GetFrame takes the source's test against
  `Result.WaitTimeout` to recognise the duplication API's wait timeout, the
  condition the capturer tests as `SharpDX.DXGI.ResultCode.WaitTimeout`. The
  library's values for the two constants are not part of this model. If they
  differ, a timeout takes the failure path and throws "Failed to acquire
  frame", which the model does not show.
- Duplication.DuplicationManager.InitDupl: output enumeration and
  `DuplicateOutput` failures are not modelled. The output's description is a
  parameter.
- Display.SetDirtyVert: the slot must have exactly six vertices. The source
  only ever passes such slots.
- Duplicator.Rectangle.Region: the `Right`/`Bottom` additions are not wrapped
  to 32 bits. Only the frame size `Width * Height * 4` is (`Base.ImageBytes`).
- Duplicator.DesktopDuplicator.Capture takes the mapped memory to be at least
  Width·Height·4 bytes long, which the platform guarantees for the staging
  texture. Of the exceptions other than `SharpDXException`, two are
  modelled: the pool's overflow for a negative 32-bit frame size, and the
  exception on a disposed resource after a failed release, whose class is
  assumed to be a null dereference.
- Duplicator.DesktopDuplicator.Capture re-arms after a timeout, as
  CaptureStepCorrected does. The code as written is Duplicator.CaptureStep;
  see the third finding.
- Duplicator.DesktopDuplicator.ProcessFrame and
  Duplicator.DesktopDuplicator.CopyAcquired take the same length requirement
  on the mapped memory.
- Display.DisplayManager.ProcessFrame requires each positive count to lie
  within its array. The manager's GetFrame hands over such counts when the
  platform's byte counts fit the total (Duplication.BytesFitBuffer); the
  out-of-range exception is not modelled.
- Display.DisplayManager.ProcessFrame completes for any DirtyCount > 0, because
  it calls the corrected CopyDirty. The code as written throws a null
  dereference there (the first finding, Display.CopyDirtyAsWritten).
- Display.DisplayManager.CopyMove requires the count to lie within the array,
  and Display.DisplayManager.CopyDirty requires it to be between 0 and the
  array's length, for the same reason.
- Duplicator.DesktopDuplicator.Create: exceptions from constructing the device
  and from creating the staging texture are not modelled.
- Pool.ReusableFrame.constructor requires the 32-bit size to be non-negative.
  The pool's Get raises the overflow before calling it.

## Findings

| source | as written | input that shows it | evidently intended | confidence | as-written member | corrected member |
|---|---|---|---|---|---|---|
| src/DesktopDuplication/Port/DisplayManager.cs:358 | `new Vertex[NUMVERTICES]` makes six null references, because `Vertex` is a class; SetDirtyVert's first write dereferences `Vertices[0]` | any frame with DirtyCount = 1, under any rotation, on a fresh manager | each slot holds six vertex objects that SetDirtyVert fills | high; not executed | Display.CopyDirtyAsWritten | Display.DisplayManager.CopyDirty |
| src/DesktopDuplication/ImagePool.cs:46-49 | each Dispose raises Released, and the handler enqueues the frame again | Get, then Dispose twice, then Get twice: both Gets return the same frame | a Dispose returns the frame only for the Get it answers, so each buffer has one owner at a time | medium; not executed | Pool.DoubleDisposeShares | Pool.ImagePool.Lend |
| src/DesktopDuplication/DesktopDuplicator.cs:97-100 | a timeout returns the repeat sentinel but keeps the faulted task, so every later Capture rethrows the same timeout | arm, then one timeout (an unchanged desktop for 5 s), then a new frame; it is never delivered | a timeout starts a new acquisition, so capture resumes when the desktop changes | high; not executed | Duplicator.StalledAfterTimeout | Duplicator.CorrectedRecoversFromTimeout |
