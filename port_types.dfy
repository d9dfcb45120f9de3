/** The data records shared between the multi-output duplication manager, the
    compositor and their worker threads (Port/PointerInfo.cs). */
module PortTypes {
  import opened Base
  import opened Dxgi

  /** Pointer state shared by every output. Each output's manager merges its
      reports into it. */
  class PointerInfo {
    var ptrShapeBuffer: array?<byte>   // the unmanaged shape buffer; null stands for IntPtr.Zero
    var shapeInfo: ShapeInfo
    var position: Point
    var visible: bool
    var bufferSize: int
    var whoUpdatedPositionLast: int
    var lastTimeStamp: int

    /** A new PointerInfo: every field at its default value. */
    constructor ()
      ensures ptrShapeBuffer == null && shapeInfo == NoShapeInfo
      ensures position == Point(0, 0) && !visible && bufferSize == 0
      ensures whoUpdatedPositionLast == 0 && lastTimeStamp == 0
    {
      ptrShapeBuffer := null;
      shapeInfo := NoShapeInfo;
      position := Point(0, 0);
      visible := false;
      bufferSize := 0;
      whoUpdatedPositionLast := 0;
      lastTimeStamp := 0;
    }
  }

  /** One acquired frame and its metadata. The two arrays are the manager's own
      reusable buffers, which the platform fills. */
  class FrameData {
    var frame: Option<Texture>
    var frameInfo: FrameInfo
    var moveRects: array?<MoveRect>
    var dirtyRects: array?<Rect>
    var dirtyCount: int
    var moveCount: int

    /** A new FrameData: no frame, no metadata. */
    constructor ()
      ensures frame == None && frameInfo == NoFrameInfo
      ensures moveRects == null && dirtyRects == null && dirtyCount == 0 && moveCount == 0
    {
      frame := None;
      frameInfo := NoFrameInfo;
      moveRects := null;
      dirtyRects := null;
      dirtyCount := 0;
      moveCount := 0;
    }
  }

  /** A vertex position, kept as the integer pixel coordinates on the shared
      surface before they are normalised to device space. */
  datatype Pos = Pos(x: int, y: int)

  /** A texture coordinate, kept as the integer pixel edges in the frame texture
      before they are divided by its width and height. */
  datatype TexCoord = TexCoord(u: int, v: int)

  /** Vertex: a position and a texture coordinate. */
  datatype Vertex = Vertex(pos: Pos, texCoord: TexCoord)

  /** The value a newly allocated vertex holds. */
  const DefaultVertex := Vertex(Pos(0, 0), TexCoord(0, 0))
}
