/** Value types of the desktop-duplication platform interface (DXGI) and of the
    Direct3D wrappers, as the capture pipeline sees them. GPU resources are
    opaque handles; platform calls are represented by the replies they give. */
module Dxgi {

  datatype Point = Point(x: int, y: int)

  /** RawRectangle: four edges in pixels. Nothing forces left <= right. */
  datatype Rect = Rect(left: int, top: int, right: int, bottom: int) {
    function Width(): int { right - left }
    function Height(): int { bottom - top }

    /** The same rectangle moved by `delta`. */
    function Translate(delta: Point): Rect
    {
      Rect(left + delta.x, top + delta.y, right + delta.x, bottom + delta.y)
    }
  }

  /** The rectangle `new RawRectangle()` yields. */
  const EmptyRect := Rect(0, 0, 0, 0)

  /** OutputDuplicateMoveRectangle: the pixels of DestinationRect came from the
      equally sized region whose top-left corner is SourcePoint. */
  datatype MoveRect = MoveRect(sourcePoint: Point, destinationRect: Rect)

  /** Marshal.SizeOf of the two metadata records: a POINT and a RECT, and a RECT. */
  const SizeOfMoveRect: nat := 24
  const SizeOfRect: nat := 16

  /** DisplayModeRotation. The enumeration's named values, and any other integer
      a C# enumeration variable may hold. */
  datatype Rotation = Unspecified | Identity | Rotate90 | Rotate180 | Rotate270 | Unnamed(value: int)

  /** The parts of OutputDescription the core reads. */
  datatype OutputDescription = OutputDescription(desktopBounds: Rect, rotation: Rotation)

  /** Where an output's own pixel (0, 0) lies on the shared desktop surface: its
      desktop bounds' top-left corner, less the top-left corner of the whole
      desktop (OffsetX, OffsetY). Pointer positions, move copies and dirty-quad
      vertices are all translated by it. */
  function SurfaceOffset(desk: OutputDescription, offsetX: int, offsetY: int): (p: Point)
    ensures p.x + offsetX == desk.desktopBounds.left && p.y + offsetY == desk.desktopBounds.top
  {
    Point(desk.desktopBounds.left - offsetX, desk.desktopBounds.top - offsetY)
  }

  /** Width and height of a texture or surface. */
  datatype Extent = Extent(width: int, height: int)

  /** A Texture2D: an opaque handle and the size in its description. */
  datatype Texture = Texture(handle: nat, width: int, height: int)

  /** OutputDuplicatePointerPosition. */
  datatype PointerPosition = PointerPosition(position: Point, visible: bool)

  /** The parts of OutputDuplicateFrameInformation the core reads. The two sizes
      are unsigned in the platform's definition. */
  datatype FrameInfo = FrameInfo(
    lastMouseUpdateTime: int,
    pointerPosition: PointerPosition,
    pointerShapeBufferSize: nat,
    totalMetadataBufferSize: nat)

  /** The all-zero frame information of a fresh FrameData. */
  const NoFrameInfo := FrameInfo(0, PointerPosition(Point(0, 0), false), 0, 0)

  /** OutputDuplicatePointerShapeInformation. */
  datatype ShapeInfo = ShapeInfo(shapeType: int, width: int, height: int, pitch: int, hotSpot: Point)

  const NoShapeInfo := ShapeInfo(0, 0, 0, 0, Point(0, 0))

  /** How an attempt to acquire the next desktop frame ended. */
  datatype AcquireResult =
    | Acquired(info: FrameInfo, resource: Texture)
    | WaitTimeout
    | AcquireFailed(code: int)

  /** How a platform call that fills a caller's buffer ended: with the value it
      reports (for the metadata calls, the number of bytes it needed), or failed. */
  datatype Reply<T> = Replied(value: T) | CallFailed(code: int)

  /** How a platform call that returns nothing ended. */
  datatype CallResult = Succeeded | Failed(code: int)

  /** The result codes DuplicateOutput can fail with that the core tells apart. */
  datatype DuplicateFailure = NotCurrentlyAvailable | Unsupported | OtherFailure(code: int)
}
