/** One output's duplication session on the multi-output path
    (Port/DuplicationManager.cs): merging its pointer reports into the shared
    pointer state, acquiring frames with their move/dirty metadata into
    high-water-mark buffers, and releasing them. */
module Duplication {
  import opened Base
  import opened Dxgi
  import opened PortTypes

  /** Poll timeout of TryAcquireNextFrame on this path, in milliseconds. The
      platform's wait itself is not modelled; its outcome is a parameter. */
  const PollTimeoutMs := 500

  /** Whether an output's pointer report replaces the shared position. A report
      from the output that wrote last always does. A report from another output
      does exactly when it says the pointer is visible and is not older than a
      visible stored state. */
  function UpdateAccepted(storedVisible: bool, lastWriter: int, lastTime: int,
                          output: int, report: PointerPosition, reportTime: int): (accept: bool)
    ensures lastWriter == output ==> accept
    ensures lastWriter != output ==>
              (accept <==> report.visible && !(storedVisible && lastTime > reportTime))
  {
    // An invisible report from an output that did not write last is ignored.
    var hiddenByOther := !report.visible && lastWriter != output;
    // Of two outputs that both see the pointer, the newer report wins.
    var olderThanOther := report.visible && storedVisible && lastWriter != output && lastTime > reportTime;
    !hiddenByOther && !olderThanOther
  }

  /** The stored timestamp is not monotone: when the stored state is invisible, a
      visible report from another output is accepted however old it is. */
  lemma AcceptedReportMayBeOlder(lastWriter: int, lastTime: int, output: int, report: PointerPosition, reportTime: int)
    requires lastWriter != output && report.visible && lastTime > reportTime
    ensures UpdateAccepted(false, lastWriter, lastTime, output, report, reportTime)
  {
  }

  /** Of two outputs that both report a visible pointer, a report not older than
      the stored one wins, whoever wrote last. */
  lemma NewerVisibleReportWins(storedVisible: bool, lastWriter: int, lastTime: int,
                               output: int, report: PointerPosition, reportTime: int)
    requires report.visible && reportTime >= lastTime
    ensures UpdateAccepted(storedVisible, lastWriter, lastTime, output, report, reportTime)
  {
  }

  class DuplicationManager {
    var outputNumber: int
    var outputDescription: OutputDescription
    var acquiredDesktopImage: Option<Texture>
    var moveBuffer: array?<MoveRect>
    var dirtyBuffer: array?<Rect>
    var metadataSize: int

    /** The metadata buffers exist once some frame carried metadata, and each
        holds as many records as metadataSize bytes can. */
    ghost predicate Valid()
      reads this
    {
      && metadataSize >= 0
      && (moveBuffer == null <==> metadataSize == 0)
      && (dirtyBuffer == null <==> metadataSize == 0)
      && (moveBuffer != null ==> moveBuffer.Length == metadataSize / SizeOfMoveRect)
      && (dirtyBuffer != null ==> dirtyBuffer.Length == metadataSize / SizeOfRect)
    }

    /** A manager before InitDupl: every field at its default value. */
    constructor ()
      ensures Valid()
      ensures outputNumber == 0 && acquiredDesktopImage == None && metadataSize == 0
    {
      outputNumber := 0;
      outputDescription := OutputDescription(EmptyRect, Unspecified);
      acquiredDesktopImage := None;
      moveBuffer := null;
      dirtyBuffer := null;
      metadataSize := 0;
    }

    /** Binds the manager to an output and its description. */
    method InitDupl(output: int, description: OutputDescription)
      modifies this`outputNumber, this`outputDescription
      ensures outputNumber == output && outputDescription == description
    {
      outputNumber := output;
      outputDescription := description;
    }

    /** Merges this output's pointer report into the shared state and refreshes
        the pointer shape; `shape` is what GetFramePointerShape replies. */
    method GetMouse(pointer: PointerInfo, info: FrameInfo, offsetX: int, offsetY: int,
                    shape: Reply<ShapeInfo>) returns (status: Status)
      modifies pointer
      // No pointer update in this frame: nothing changes.
      ensures info.lastMouseUpdateTime == 0 ==> unchanged(pointer) && status == Completed
      // Position, visibility, writer and timestamp follow the tie-break rule.
      ensures info.lastMouseUpdateTime != 0 ==>
        if UpdateAccepted(old(pointer.visible), old(pointer.whoUpdatedPositionLast),
                          old(pointer.lastTimeStamp), outputNumber,
                          info.pointerPosition, info.lastMouseUpdateTime)
        then
          var offset := SurfaceOffset(outputDescription, offsetX, offsetY);
          && pointer.position == Point(info.pointerPosition.position.x + offset.x,
                                       info.pointerPosition.position.y + offset.y)
          && pointer.whoUpdatedPositionLast == outputNumber
          && pointer.lastTimeStamp == info.lastMouseUpdateTime
          && pointer.visible == info.pointerPosition.visible
        else
          && pointer.position == old(pointer.position)
          && pointer.whoUpdatedPositionLast == old(pointer.whoUpdatedPositionLast)
          && pointer.lastTimeStamp == old(pointer.lastTimeStamp)
          && pointer.visible == old(pointer.visible)
      // The shape buffer is a high-water mark, replaced exactly when too small.
      ensures pointer.bufferSize ==
                (if info.lastMouseUpdateTime != 0 && info.pointerShapeBufferSize != 0
                 then Grow(old(pointer.bufferSize), info.pointerShapeBufferSize)
                 else old(pointer.bufferSize))
      ensures pointer.bufferSize >= old(pointer.bufferSize)
      ensures if info.lastMouseUpdateTime != 0 && info.pointerShapeBufferSize != 0
                 && info.pointerShapeBufferSize > old(pointer.bufferSize)
              then fresh(pointer.ptrShapeBuffer) && pointer.ptrShapeBuffer.Length == info.pointerShapeBufferSize
              else pointer.ptrShapeBuffer == old(pointer.ptrShapeBuffer)
      // The shape information is refreshed whenever a shape was reported.
      ensures if info.lastMouseUpdateTime != 0 && info.pointerShapeBufferSize != 0
              then (match shape
                    case Replied(s) => pointer.shapeInfo == s && status == Completed
                    case CallFailed(code) =>
                      pointer.shapeInfo == old(pointer.shapeInfo) && status == Threw(PlatformException(code)))
              else pointer.shapeInfo == old(pointer.shapeInfo) && status == Completed
    {
      if info.lastMouseUpdateTime == 0 {
        return Completed;
      }
      if UpdateAccepted(pointer.visible, pointer.whoUpdatedPositionLast, pointer.lastTimeStamp,
                        outputNumber, info.pointerPosition, info.lastMouseUpdateTime) {
        var offset := SurfaceOffset(outputDescription, offsetX, offsetY);
        pointer.position := Point(info.pointerPosition.position.x + offset.x,
                                  info.pointerPosition.position.y + offset.y);
        pointer.whoUpdatedPositionLast := outputNumber;
        pointer.lastTimeStamp := info.lastMouseUpdateTime;
        pointer.visible := info.pointerPosition.visible;
      }
      if info.pointerShapeBufferSize == 0 {
        return Completed;
      }
      if info.pointerShapeBufferSize > pointer.bufferSize {
        // The old buffer is freed and a buffer of the reported size allocated.
        pointer.ptrShapeBuffer := new byte[info.pointerShapeBufferSize];
        pointer.bufferSize := info.pointerShapeBufferSize;
      }
      match shape
      case Replied(s) =>
        pointer.shapeInfo := s;
        status := Completed;
      case CallFailed(code) =>
        status := Threw(PlatformException(code));
    }

    /** Acquires the next frame. `acquire` is how TryAcquireNextFrame ended;
        `moveReply` and `dirtyReply` are the byte counts GetFrameMoveRects and
        GetFrameDirtyRects report, or their failures. The contents the platform
        writes into the two buffers are not modelled. */
    method GetFrame(data: FrameData, acquire: AcquireResult, moveReply: Reply<nat>, dirtyReply: Reply<nat>)
      returns (timeout: bool, status: Status)
      requires Valid()
      modifies this`acquiredDesktopImage, this`moveBuffer, this`dirtyBuffer, this`metadataSize
      modifies data`moveCount, data`moveRects, data`dirtyCount, data`dirtyRects
      ensures Valid()
      ensures timeout <==> acquire.WaitTimeout?
      // The frame and its information are never assigned here.
      ensures data.frame == old(data.frame) && data.frameInfo == old(data.frameInfo)
      ensures metadataSize >= old(metadataSize)
      // A timeout or a failure changes nothing.
      ensures !acquire.Acquired? ==>
        && unchanged(this) && unchanged(data)
        && status == (if acquire.WaitTimeout? then Completed
                      else Threw(Exception(General, "Failed to acquire frame")))
      ensures acquire.Acquired? ==> acquiredDesktopImage == Some(acquire.resource)
      // Metadata buffers: a high-water mark in bytes, reallocated exactly on growth.
      ensures acquire.Acquired? ==>
        var total := acquire.info.totalMetadataBufferSize;
        && metadataSize == (if total > 0 then Grow(old(metadataSize), total) else old(metadataSize))
        && (if total > old(metadataSize)
            then && fresh(moveBuffer) && moveBuffer.Length == total / SizeOfMoveRect
                 && fresh(dirtyBuffer) && dirtyBuffer.Length == total / SizeOfRect
            else moveBuffer == old(moveBuffer) && dirtyBuffer == old(dirtyBuffer))
      // Without metadata the counts and arrays of the previous frame stay.
      ensures acquire.Acquired? && acquire.info.totalMetadataBufferSize == 0 ==>
        && status == Completed
        && data.moveCount == old(data.moveCount) && data.moveRects == old(data.moveRects)
        && data.dirtyCount == old(data.dirtyCount) && data.dirtyRects == old(data.dirtyRects)
      // With metadata the counts are the reported byte sizes over the record sizes.
      ensures acquire.Acquired? && acquire.info.totalMetadataBufferSize > 0 ==>
        match moveReply
        case CallFailed(code) =>
          && status == Threw(PlatformException(code))
          && data.moveCount == old(data.moveCount) && data.moveRects == old(data.moveRects)
          && data.dirtyCount == old(data.dirtyCount) && data.dirtyRects == old(data.dirtyRects)
        case Replied(moveBytes) =>
          && data.moveCount == moveBytes / SizeOfMoveRect && data.moveRects == moveBuffer
          && match dirtyReply
             case CallFailed(code) =>
               && status == Threw(PlatformException(code))
               && data.dirtyCount == old(data.dirtyCount) && data.dirtyRects == old(data.dirtyRects)
             case Replied(dirtyBytes) =>
               && status == Completed
               && data.dirtyCount == dirtyBytes / SizeOfRect && data.dirtyRects == dirtyBuffer
      // A count the platform reports within the total fits the buffer it refers to.
      ensures acquire.Acquired? && acquire.info.totalMetadataBufferSize > 0 && moveReply.Replied?
              && moveReply.value <= acquire.info.totalMetadataBufferSize ==>
                data.moveRects != null && 0 <= data.moveCount <= data.moveRects.Length
      ensures acquire.Acquired? && acquire.info.totalMetadataBufferSize > 0 && dirtyReply.Replied?
              && moveReply.Replied? && dirtyReply.value <= acquire.info.totalMetadataBufferSize ==>
                data.dirtyRects != null && 0 <= data.dirtyCount <= data.dirtyRects.Length
    {
      match acquire
      case WaitTimeout =>
        return true, Completed;
      case AcquireFailed(_) =>
        return false, Threw(Exception(General, "Failed to acquire frame"));
      case Acquired(info, resource) =>
        timeout := false;
        // The previous image is disposed and replaced by the new one.
        acquiredDesktopImage := Some(resource);
        var total := info.totalMetadataBufferSize;
        if total == 0 {
          return false, Completed;
        }
        if total > metadataSize {
          moveBuffer := new MoveRect[total / SizeOfMoveRect];
          dirtyBuffer := new Rect[total / SizeOfRect];
          metadataSize := total;
        }
        BytesFitBuffer(total, metadataSize);
        match moveReply
        case CallFailed(code) =>
          return false, Threw(PlatformException(code));
        case Replied(moveBytes) =>
          data.moveCount := moveBytes / SizeOfMoveRect;
          data.moveRects := moveBuffer;
          if moveBytes <= total {
            BytesFitBuffer(moveBytes, total);
          }
        match dirtyReply
        case CallFailed(code) =>
          return false, Threw(PlatformException(code));
        case Replied(dirtyBytes) =>
          data.dirtyCount := dirtyBytes / SizeOfRect;
          data.dirtyRects := dirtyBuffer;
          if dirtyBytes <= total {
            BytesFitBuffer(dirtyBytes, total);
          }
          status := Completed;
    }

    /** Releases the acquired frame back to the platform and drops the image. */
    method DoneWithFrame(release: CallResult) returns (status: Status)
      modifies this`acquiredDesktopImage
      ensures status.Completed? <==> release.Succeeded? && old(acquiredDesktopImage).Some?
      ensures release.Failed? ==>
                status == Threw(PlatformException(release.code)) && acquiredDesktopImage == old(acquiredDesktopImage)
      // Disposing an image that is not there dereferences null.
      ensures release.Succeeded? && old(acquiredDesktopImage).None? ==> status == Threw(NullDereference)
      ensures release.Succeeded? ==> acquiredDesktopImage == None
    {
      if release.Failed? {
        return Threw(PlatformException(release.code));
      }
      if acquiredDesktopImage.None? {
        return Threw(NullDereference);
      }
      acquiredDesktopImage := None;
      status := Completed;
    }
  }

  /** Fewer bytes never hold more records. */
  lemma BytesFitBuffer(bytes: nat, capacity: nat)
    requires bytes <= capacity
    ensures bytes / SizeOfMoveRect <= capacity / SizeOfMoveRect
    ensures bytes / SizeOfRect <= capacity / SizeOfRect
  {
  }
}
