/** The compositor of the multi-output path (Port/DisplayManager.cs): applies one
    output's move rectangles (two region copies through a staging surface) and
    dirty rectangles (one textured quad each) to the shared desktop surface,
    taking the output's rotation and position into account. Direct3D calls are
    recorded in an operation log; the floating-point normalisation of vertex
    positions and texture coordinates is not modelled. */
module Display {
  import opened Base
  import opened Dxgi
  import opened PortTypes

  const NUMVERTICES := 6
  const BPP := 4

  /** A surface a region copy reads or writes. */
  datatype Surface = Shared(texture: Texture) | Staging

  /** The Direct3D operations the compositor issues, in the order it issues them. */
  datatype GpuOp =
    | CreateStaging(extent: Extent)
    | CopyRegion(source: Surface, box: Rect, target: Surface, x: int, y: int)
    | CreateRenderTarget(surface: Texture)
    | Draw(vertexCount: int)

  function BoundsExtent(desk: OutputDescription): Extent
  {
    Extent(desk.desktopBounds.Width(), desk.desktopBounds.Height())
  }

  /** Source and destination rectangles of one move, in the frame texture's own
      (unrotated) coordinates. Under Rotate270 the source's left edge is the
      source point's x, not its y, so source and destination agree in width
      only when the two coordinates are equal. */
  function SetMoveRect(desk: OutputDescription, move: MoveRect, texWidth: int, texHeight: int): (rects: (Rect, Rect))
    ensures var srcX, srcY, dest := move.sourcePoint.x, move.sourcePoint.y, move.destinationRect;
      match desk.rotation
      case Unspecified | Identity =>
        && rects.0.left == srcX && rects.0.top == srcY
        && rects.0.Width() == dest.Width() && rects.0.Height() == dest.Height()
        && rects.1 == dest
      case Rotate90 =>
        && rects.0.Width() == rects.1.Width() == dest.Height()
        && rects.0.Height() == rects.1.Height() == dest.Width()
      case Rotate180 =>
        && rects.0.Width() == rects.1.Width() == dest.Width()
        && rects.0.Height() == rects.1.Height() == dest.Height()
      case Rotate270 =>
        && rects.0.Height() == rects.1.Height() == dest.Width()
        && rects.1.Width() == dest.Height()
        && rects.0.Width() == srcY + dest.Height() - srcX
        && (rects.0.Width() == rects.1.Width() <==> srcX == srcY)
      case Unnamed(_) => rects.0 == EmptyRect && rects.1 == EmptyRect
  {
    var srcX, srcY := move.sourcePoint.x, move.sourcePoint.y;
    var dest := move.destinationRect;
    var destW, destH := dest.right - dest.left, dest.bottom - dest.top;
    match desk.rotation
    case Unspecified | Identity =>
      (Rect(srcX, srcY, srcX + destW, srcY + destH), dest)
    case Rotate90 =>
      (Rect(texHeight - (srcY + destH), srcX, texHeight - srcY, srcX + destW),
       Rect(texHeight - dest.bottom, dest.left, texHeight - dest.top, dest.right))
    case Rotate180 =>
      (Rect(texWidth - (srcX + destW), texHeight - (srcY + destH), texWidth - srcX, texHeight - srcY),
       Rect(texWidth - dest.right, texHeight - dest.bottom, texWidth - dest.left, texHeight - dest.top))
    case Rotate270 =>
      (Rect(srcX, texWidth - (srcX + destW), srcY + destH, texWidth - srcX),
       Rect(dest.top, texWidth - dest.right, dest.bottom, texWidth - dest.left))
    case Unnamed(_) =>
      (EmptyRect, EmptyRect)
  }

  /** The two copies one move issues: out of the shared surface into the staging
      surface, then back to the shared surface at the destination. */
  function MovePair(move: MoveRect, shared: Texture, desk: OutputDescription,
                    offsetX: int, offsetY: int, texWidth: int, texHeight: int): (ops: seq<GpuOp>)
    ensures |ops| == 2 && ops[0].CopyRegion? && ops[1].CopyRegion?
    ensures ops[0].source == Shared(shared) && ops[0].target == Staging
    ensures ops[1].source == Staging && ops[1].target == Shared(shared)
    // The region leaves the shared surface, is kept in staging at its own
    // coordinates, and is read back from there.
    ensures ops[0].box == ops[1].box.Translate(SurfaceOffset(desk, offsetX, offsetY))
    ensures ops[0].x == ops[1].box.left && ops[0].y == ops[1].box.top
  {
    var rects := SetMoveRect(desk, move, texWidth, texHeight);
    var offset := SurfaceOffset(desk, offsetX, offsetY);
    [CopyRegion(Shared(shared), rects.0.Translate(offset), Staging, rects.0.left, rects.0.top),
     CopyRegion(Staging, rects.0, Shared(shared), rects.1.left + offset.x, rects.1.top + offset.y)]
  }

  /** The copies a list of moves issues, move by move. */
  function MoveCopies(moves: seq<MoveRect>, shared: Texture, desk: OutputDescription,
                      offsetX: int, offsetY: int, texWidth: int, texHeight: int): (ops: seq<GpuOp>)
    ensures |ops| == 2 * |moves|
    decreases |moves|
  {
    if moves == [] then []
    else
      MoveCopies(moves[..|moves| - 1], shared, desk, offsetX, offsetY, texWidth, texHeight)
        + MovePair(moves[|moves| - 1], shared, desk, offsetX, offsetY, texWidth, texHeight)
  }

  /** One more move appends its two copies. */
  lemma MoveCopiesExtend(moves: seq<MoveRect>, i: int, shared: Texture, desk: OutputDescription,
                         offsetX: int, offsetY: int, texWidth: int, texHeight: int)
    requires 0 <= i < |moves|
    ensures MoveCopies(moves[..i + 1], shared, desk, offsetX, offsetY, texWidth, texHeight)
            == MoveCopies(moves[..i], shared, desk, offsetX, offsetY, texWidth, texHeight)
               + MovePair(moves[i], shared, desk, offsetX, offsetY, texWidth, texHeight)
  {
    assert moves[..i + 1][..i] == moves[..i];
  }

  /** Move i issues copies 2i and 2i+1: the first takes the source rectangle,
      placed on the shared surface, into the staging surface at the source
      rectangle's own position; the second takes it back to the destination
      rectangle's position on the shared surface. */
  lemma {:induction false} MoveCopiesInOrder(moves: seq<MoveRect>, shared: Texture, desk: OutputDescription,
                                             offsetX: int, offsetY: int, texWidth: int, texHeight: int, i: int)
    requires 0 <= i < |moves|
    ensures var ops := MoveCopies(moves, shared, desk, offsetX, offsetY, texWidth, texHeight);
      var rects := SetMoveRect(desk, moves[i], texWidth, texHeight);
      var offset := SurfaceOffset(desk, offsetX, offsetY);
      && ops[2 * i] == CopyRegion(Shared(shared), rects.0.Translate(offset), Staging, rects.0.left, rects.0.top)
      && ops[2 * i + 1] == CopyRegion(Staging, rects.0, Shared(shared), rects.1.left + offset.x, rects.1.top + offset.y)
    decreases |moves|
  {
    var init := moves[..|moves| - 1];
    if i < |init| {
      MoveCopiesInOrder(init, shared, desk, offsetX, offsetY, texWidth, texHeight, i);
      assert init[i] == moves[i];
    }
  }

  /** The dirty rectangle in the unrotated desktop's coordinates. Each rotation
      keeps the rectangle's area; 90 and 270 degrees swap its sides. */
  function DestDirty(desk: OutputDescription, dirty: Rect): (r: Rect)
    ensures r.Width() * r.Height() == dirty.Width() * dirty.Height()
    ensures desk.rotation.Rotate90? || desk.rotation.Rotate270? ==>
              r.Width() == dirty.Height() && r.Height() == dirty.Width()
    ensures desk.rotation.Rotate180? ==> r.Width() == dirty.Width() && r.Height() == dirty.Height()
    ensures !(desk.rotation.Rotate90? || desk.rotation.Rotate180? || desk.rotation.Rotate270?) ==> r == dirty
  {
    var width := desk.desktopBounds.Width();
    var height := desk.desktopBounds.Height();
    match desk.rotation
    case Rotate90 => Rect(width - dirty.bottom, dirty.left, width - dirty.top, dirty.right)
    case Rotate180 => Rect(width - dirty.right, height - dirty.bottom, width - dirty.left, height - dirty.top)
    case Rotate270 => Rect(dirty.top, height - dirty.right, dirty.bottom, height - dirty.left)
    case _ => dirty
  }

  /** The four corners of a rectangle as texture coordinates. */
  function Corners(r: Rect): multiset<TexCoord>
  {
    multiset{TexCoord(r.left, r.top), TexCoord(r.right, r.top), TexCoord(r.left, r.bottom), TexCoord(r.right, r.bottom)}
  }

  /** Texture coordinates of vertices 0, 1, 2 and 5 for each named rotation; an
      unnamed rotation writes none. */
  function TexCorners(rotation: Rotation, dirty: Rect): (t: Option<seq<TexCoord>>)
    ensures t.Some? <==> !rotation.Unnamed?
    ensures t.Some? ==> |t.value| == 4
    ensures rotation.Identity? || rotation.Unspecified? ==>
              t == Some([TexCoord(dirty.left, dirty.bottom), TexCoord(dirty.left, dirty.top),
                         TexCoord(dirty.right, dirty.bottom), TexCoord(dirty.right, dirty.top)])
  {
    var l, t, r, b := dirty.left, dirty.top, dirty.right, dirty.bottom;
    match rotation
    case Rotate90 => Some([TexCoord(r, b), TexCoord(l, b), TexCoord(r, t), TexCoord(l, t)])
    case Rotate180 => Some([TexCoord(r, t), TexCoord(r, b), TexCoord(l, t), TexCoord(l, b)])
    case Rotate270 => Some([TexCoord(l, t), TexCoord(r, t), TexCoord(l, b), TexCoord(r, b)])
    case Unspecified | Identity => Some([TexCoord(l, b), TexCoord(l, t), TexCoord(r, b), TexCoord(r, t)])
    case Unnamed(_) => None
  }

  /** The multiset of a four-element sequence, element by element. */
  lemma FourElements(s: seq<TexCoord>)
    requires |s| == 4
    ensures multiset(s) == multiset{s[0]} + multiset{s[1]} + multiset{s[2]} + multiset{s[3]}
  {
    assert s == s[..3] + [s[3]];
    assert s[..3] == s[..2] + [s[2]];
    assert s[..2] == [s[0]] + [s[1]];
  }

  /** The texture coordinates each named rotation writes, taken to their
      multiset, one rotation at a time. */
  lemma Rotate90SamplesEachCorner(rotation: Rotation, r: Rect)
    requires rotation.Rotate90?
    ensures multiset(TexCorners(rotation, r).value) == Corners(r)
  {
    FourElements(TexCorners(rotation, r).value);
  }

  lemma Rotate180SamplesEachCorner(rotation: Rotation, r: Rect)
    requires rotation.Rotate180?
    ensures multiset(TexCorners(rotation, r).value) == Corners(r)
  {
    FourElements(TexCorners(rotation, r).value);
  }

  lemma Rotate270SamplesEachCorner(rotation: Rotation, r: Rect)
    requires rotation.Rotate270?
    ensures multiset(TexCorners(rotation, r).value) == Corners(r)
  {
    FourElements(TexCorners(rotation, r).value);
  }

  lemma IdentitySamplesEachCorner(rotation: Rotation, r: Rect)
    requires rotation.Identity? || rotation.Unspecified?
    ensures multiset(TexCorners(rotation, r).value) == Corners(r)
  {
    FourElements(TexCorners(rotation, r).value);
  }

  /** Every named rotation samples each corner of the dirty rectangle exactly
      once: no corner is sampled twice and none is left out. */
  lemma TexCornersSampleEachCorner(rotation: Rotation, dirty: Rect)
    requires !rotation.Unnamed?
    ensures TexCorners(rotation, dirty).Some?
    ensures multiset(TexCorners(rotation, dirty).value) == Corners(dirty)
  {
    match rotation {
      case Rotate90 => Rotate90SamplesEachCorner(rotation, dirty);
      case Rotate180 => Rotate180SamplesEachCorner(rotation, dirty);
      case Rotate270 => Rotate270SamplesEachCorner(rotation, dirty);
      case Unspecified => IdentitySamplesEachCorner(rotation, dirty);
      case Identity => IdentitySamplesEachCorner(rotation, dirty);
    }
  }

  /** The six vertices of a dirty rectangle's quad after SetDirtyVert, given the
      six it found. Vertices 3 and 4 repeat vertices 2 and 1. Vertex 0 ends at
      the (right, top) corner: its first position, (left, bottom), is
      overwritten, and vertex 5 keeps the position it had. */
  function DirtyQuad(prev: seq<Vertex>, dirty: Rect, offsetX: int, offsetY: int, desk: OutputDescription): (r: seq<Vertex>)
    requires |prev| == NUMVERTICES
    ensures |r| == NUMVERTICES
    ensures r[3] == r[2] && r[4] == r[1]
    ensures var d, o := DestDirty(desk, dirty), SurfaceOffset(desk, offsetX, offsetY);
      && r[0].pos == Pos(d.right + o.x, d.top + o.y)
      && r[1].pos == Pos(d.left + o.x, d.top + o.y)
      && r[2].pos == Pos(d.right + o.x, d.bottom + o.y)
      && r[5].pos == prev[5].pos
    ensures match TexCorners(desk.rotation, dirty)
      case Some(t) =>
        r[0].texCoord == t[0] && r[1].texCoord == t[1] && r[2].texCoord == t[2] && r[5].texCoord == t[3]
      case None =>
        && r[0].texCoord == prev[0].texCoord && r[1].texCoord == prev[1].texCoord
        && r[2].texCoord == prev[2].texCoord && r[5].texCoord == prev[5].texCoord
  {
    var d, o := DestDirty(desk, dirty), SurfaceOffset(desk, offsetX, offsetY);
    var tex := match TexCorners(desk.rotation, dirty)
               case Some(t) => t
               case None => [prev[0].texCoord, prev[1].texCoord, prev[2].texCoord, prev[5].texCoord];
    var v0 := Vertex(Pos(d.right + o.x, d.top + o.y), tex[0]);
    var v1 := Vertex(Pos(d.left + o.x, d.top + o.y), tex[1]);
    var v2 := Vertex(Pos(d.right + o.x, d.bottom + o.y), tex[2]);
    [v0, v1, v2, v2, v1, Vertex(prev[5].pos, tex[3])]
  }

  /** For a dirty rectangle with non-zero sides, none of the five positions
      SetDirtyVert writes is the (left, bottom) corner: the two triangles do not
      cover the rectangle. */
  lemma LeftBottomCornerMissing(prev: seq<Vertex>, dirty: Rect, offsetX: int, offsetY: int, desk: OutputDescription)
    requires |prev| == NUMVERTICES
    requires dirty.Width() != 0 && dirty.Height() != 0
    ensures var d, o := DestDirty(desk, dirty), SurfaceOffset(desk, offsetX, offsetY);
      forall k :: 0 <= k < 5 ==> DirtyQuad(prev, dirty, offsetX, offsetY, desk)[k].pos != Pos(d.left + o.x, d.bottom + o.y)
  {
  }

  /** Fills one slot's six vertices for a dirty rectangle, in place: the field
      writes are made in the order the source makes them, on local copies of the
      six vertices, which are then stored back. */
  method SetDirtyVert(vertices: array<Vertex>, dirty: Rect, offsetX: int, offsetY: int, desk: OutputDescription)
    requires vertices.Length == NUMVERTICES
    modifies vertices
    ensures vertices[..] == DirtyQuad(old(vertices[..]), dirty, offsetX, offsetY, desk)
  {
    var d := DestDirty(desk, dirty);
    var o := SurfaceOffset(desk, offsetX, offsetY);
    var v0, v1, v2, v3, v4, v5 := vertices[0], vertices[1], vertices[2], vertices[3], vertices[4], vertices[5];
    match TexCorners(desk.rotation, dirty) {
      case Some(t) =>
        v0 := v0.(texCoord := t[0]);
        v1 := v1.(texCoord := t[1]);
        v2 := v2.(texCoord := t[2]);
        v5 := v5.(texCoord := t[3]);
      case None =>
    }
    v0 := v0.(pos := Pos(d.left + o.x, d.bottom + o.y));
    v1 := v1.(pos := Pos(d.left + o.x, d.top + o.y));
    v2 := v2.(pos := Pos(d.right + o.x, d.bottom + o.y));
    v3 := v3.(pos := v2.pos);
    v4 := v4.(pos := v1.pos);
    v0 := v0.(pos := Pos(d.right + o.x, d.top + o.y));
    v3 := v3.(texCoord := v2.texCoord);
    v4 := v4.(texCoord := v1.texCoord);
    vertices[0], vertices[1], vertices[2], vertices[3], vertices[4], vertices[5] := v0, v1, v2, v3, v4, v5;
  }

  /** Operations that precede the region copies: the staging surface, sized to
      the output's desktop bounds, is created on first use only. */
  function StagingOps(moveSurface: Option<Extent>, desk: OutputDescription): seq<GpuOp>
  {
    if moveSurface.None? then [CreateStaging(BoundsExtent(desk))] else []
  }

  /** Operations that precede the draw: the render target view is created on
      first use only. */
  function TargetOps(renderTarget: Option<Texture>, shared: Texture): seq<GpuOp>
  {
    if renderTarget.None? then [CreateRenderTarget(shared)] else []
  }

  /** The six vertices a corrected CopyDirty allocates with a new slot. */
  function FreshSlot(): seq<Vertex>
  {
    seq(NUMVERTICES, _ => DefaultVertex)
  }

  /** The vertex arrays held in a vertex cache's slots. */
  ghost function SlotSet(cache: array<array?<Vertex>>): set<array?<Vertex>>
    reads cache
  {
    set i | 0 <= i < cache.Length && cache[i] != null :: cache[i]
  }

  /** Every slot of a vertex cache is empty or its own array of six vertices. */
  ghost predicate SlotsFormed(cache: array<array?<Vertex>>)
    reads cache
  {
    && (forall i :: 0 <= i < cache.Length && cache[i] != null ==> cache[i].Length == NUMVERTICES)
    && (forall i, j :: 0 <= i < j < cache.Length && cache[i] != null ==> cache[i] != cache[j])
  }

  /** The vertices slot contents `slot` starts from: its own, or those of the
      array a corrected CopyDirty allocates for an empty slot. */
  ghost function StartOf(slot: array?<Vertex>): seq<Vertex>
    reads slot
  {
    if slot == null then FreshSlot() else slot[..]
  }

  /** One iteration of CopyDirty's loop: slot i gets an array of six vertices
      if it has none, and that array is filled for the dirty rectangle. */
  method FillSlot(cache: array<array?<Vertex>>, i: int, dirty: Rect, offsetX: int, offsetY: int, desk: OutputDescription)
    requires 0 <= i < cache.Length
    requires cache[i] != null ==> cache[i].Length == NUMVERTICES
    modifies cache, cache[i]
    ensures cache[i] != null && cache[i].Length == NUMVERTICES
    ensures if old(cache[i]) == null then fresh(cache[i]) else cache[i] == old(cache[i])
    ensures cache[i][..] == DirtyQuad(old(StartOf(cache[i])), dirty, offsetX, offsetY, desk)
    ensures forall j :: 0 <= j < cache.Length && j != i ==> cache[j] == old(cache[j])
  {
    if cache[i] == null {
      cache[i] := new Vertex[NUMVERTICES](_ => DefaultVertex);
      assert cache[i][..] == FreshSlot();
    }
    SetDirtyVert(cache[i], dirty, offsetX, offsetY, desk);
  }

  /** CopyDirty's loop over the first dirtyCount slots of a vertex cache. */
  method FillSlots(cache: array<array?<Vertex>>, dirtyRects: array<Rect>, dirtyCount: int,
                   offsetX: int, offsetY: int, desk: OutputDescription)
    requires 0 <= dirtyCount <= cache.Length && dirtyCount <= dirtyRects.Length
    requires SlotsFormed(cache)
    modifies cache, SlotSet(cache)
    ensures SlotsFormed(cache)
    ensures forall j :: 0 <= j < dirtyCount ==>
      && cache[j] != null && (cache[j] == old(cache[j]) || fresh(cache[j]))
      && cache[j][..] == DirtyQuad(old(StartOf(cache[j])), dirtyRects[j], offsetX, offsetY, desk)
    ensures forall j :: dirtyCount <= j < cache.Length ==>
      cache[j] == old(cache[j]) && (cache[j] != null ==> cache[j][..] == old(cache[j][..]))
  {
    var i := 0;
    while i < dirtyCount
      invariant 0 <= i <= dirtyCount
      invariant SlotsFormed(cache)
      invariant forall j :: i <= j < cache.Length ==>
        cache[j] == old(cache[j]) && (cache[j] != null ==> cache[j][..] == old(cache[j][..]))
      invariant forall j :: 0 <= j < i ==>
        && cache[j] != null && (cache[j] == old(cache[j]) || fresh(cache[j]))
        && cache[j][..] == DirtyQuad(old(StartOf(cache[j])), dirtyRects[j], offsetX, offsetY, desk)
    {
      FillSlot(cache, i, dirtyRects[i], offsetX, offsetY, desk);
      i := i + 1;
    }
  }

  class DisplayManager {
    var moveSurface: Option<Extent>
    var renderTargetView: Option<Texture>
    var dirtyVertexBuffer: array?<array?<Vertex>>
    var ops: seq<GpuOp>

    /** The vertex arrays held in the cache's slots. */
    ghost function Slots(): set<array?<Vertex>>
      reads this, dirtyVertexBuffer
    {
      if dirtyVertexBuffer == null then {} else SlotSet(dirtyVertexBuffer)
    }

    /** Every slot of the vertex cache is empty or its own array of six vertices. */
    ghost predicate Valid()
      reads this, dirtyVertexBuffer
    {
      dirtyVertexBuffer != null ==> SlotsFormed(dirtyVertexBuffer)
    }

    /** A manager before its first frame: no staging surface, no render target
        view, no vertex cache. */
    constructor ()
      ensures Valid()
      ensures moveSurface == None && renderTargetView == None && dirtyVertexBuffer == null && ops == []
    {
      moveSurface := None;
      renderTargetView := None;
      dirtyVertexBuffer := null;
      ops := [];
    }

    /** One move: the source region is copied out of the shared surface into
        the staging surface and then back to the shared surface at the
        destination. */
    method IssueMove(shared: Texture, move: MoveRect, offsetX: int, offsetY: int,
                     desk: OutputDescription, texWidth: int, texHeight: int)
      modifies this`ops
      ensures ops == old(ops) + MovePair(move, shared, desk, offsetX, offsetY, texWidth, texHeight)
    {
      var rects := SetMoveRect(desk, move, texWidth, texHeight);
      var offset := SurfaceOffset(desk, offsetX, offsetY);
      ops := ops + [CopyRegion(Shared(shared), rects.0.Translate(offset), Staging, rects.0.left, rects.0.top)];
      ops := ops + [CopyRegion(Staging, rects.0, Shared(shared), rects.1.left + offset.x, rects.1.top + offset.y)];
    }

    /** Applies the first moveCount move rectangles: two copies each, through the
        staging surface. */
    method CopyMove(shared: Texture, moves: array<MoveRect>, moveCount: int, offsetX: int, offsetY: int,
                    desk: OutputDescription, texWidth: int, texHeight: int)
      requires moveCount <= moves.Length
      modifies this`moveSurface, this`ops
      ensures moveSurface == Some(if old(moveSurface).None? then BoundsExtent(desk) else old(moveSurface).value)
      ensures ops == old(ops) + StagingOps(old(moveSurface), desk)
                     + MoveCopies(moves[..if moveCount < 0 then 0 else moveCount], shared, desk,
                                  offsetX, offsetY, texWidth, texHeight)
    {
      if moveSurface.None? {
        moveSurface := Some(BoundsExtent(desk));
        ops := ops + [CreateStaging(BoundsExtent(desk))];
      }
      ghost var before, surface := ops, moveSurface;
      var i := 0;
      while i < moveCount
        invariant 0 <= i && (i <= moveCount || i == 0)
        invariant moveSurface == surface
        invariant ops == before + MoveCopies(moves[..i], shared, desk, offsetX, offsetY, texWidth, texHeight)
      {
        IssueMove(shared, moves[i], offsetX, offsetY, desk, texWidth, texHeight);
        MoveCopiesExtend(moves[..], i, shared, desk, offsetX, offsetY, texWidth, texHeight);
        i := i + 1;
      }
    }

    /** Draws the first dirtyCount dirty rectangles of `source` onto the shared
        surface, one six-vertex quad each, reusing the vertex cache. */
    method CopyDirty(source: Texture, shared: Texture, dirtyRects: array<Rect>, dirtyCount: int,
                     offsetX: int, offsetY: int, desk: OutputDescription)
      requires Valid()
      requires 0 <= dirtyCount <= dirtyRects.Length
      modifies this`renderTargetView, this`dirtyVertexBuffer, this`ops, dirtyVertexBuffer, Slots()
      ensures Valid()
      ensures renderTargetView == Some(if old(renderTargetView).None? then shared else old(renderTargetView).value)
      ensures ops == old(ops) + TargetOps(old(renderTargetView), shared) + [Draw(NUMVERTICES * dirtyCount)]
      // The cache is replaced exactly when missing or too short, and then by one of exactly dirtyCount slots.
      ensures dirtyVertexBuffer != null && dirtyVertexBuffer.Length >= dirtyCount
      ensures if old(dirtyVertexBuffer == null || dirtyVertexBuffer.Length < dirtyCount)
              then fresh(dirtyVertexBuffer) && dirtyVertexBuffer.Length == dirtyCount
              else dirtyVertexBuffer == old(dirtyVertexBuffer)
      ensures old(dirtyVertexBuffer) != null ==> dirtyVertexBuffer.Length >= old(dirtyVertexBuffer.Length)
      // Each of the first dirtyCount slots holds its rectangle's quad.
      ensures forall i :: 0 <= i < dirtyCount ==>
        && dirtyVertexBuffer[i] != null && dirtyVertexBuffer[i].Length == NUMVERTICES
        && dirtyVertexBuffer[i][..] ==
             DirtyQuad(if old(dirtyVertexBuffer == null || dirtyVertexBuffer.Length < dirtyCount)
                       then FreshSlot() else old(StartOf(dirtyVertexBuffer[i])),
                       dirtyRects[i], offsetX, offsetY, desk)
      // The slots beyond them are untouched.
      ensures old(dirtyVertexBuffer != null && dirtyVertexBuffer.Length >= dirtyCount) ==>
        forall i :: dirtyCount <= i < dirtyVertexBuffer.Length ==>
          && dirtyVertexBuffer[i] == old(dirtyVertexBuffer[i])
          && (dirtyVertexBuffer[i] != null ==> dirtyVertexBuffer[i][..] == old(dirtyVertexBuffer[i][..]))
    {
      if renderTargetView.None? {
        renderTargetView := Some(shared);
        ops := ops + [CreateRenderTarget(shared)];
      }
      if dirtyVertexBuffer == null || dirtyVertexBuffer.Length < dirtyCount {
        dirtyVertexBuffer := new array?<Vertex>[dirtyCount](_ => null);
      }
      FillSlots(dirtyVertexBuffer, dirtyRects, dirtyCount, offsetX, offsetY, desk);
      ops := ops + [Draw(NUMVERTICES * dirtyCount)];
    }

    /** Applies a frame's metadata: its moves first, then its dirty rectangles,
        each only when there are some. */
    method ProcessFrame(data: FrameData, shared: Texture, offsetX: int, offsetY: int, desk: OutputDescription)
      returns (status: Status)
      requires Valid()
      requires data.moveCount > 0 ==> data.moveRects != null && data.moveCount <= data.moveRects.Length
      requires data.dirtyCount > 0 ==> data.dirtyRects != null && data.dirtyCount <= data.dirtyRects.Length
      modifies this, dirtyVertexBuffer, Slots()
      ensures Valid()
      ensures data.frameInfo.totalMetadataBufferSize == 0 || data.frame.None? ==>
        && moveSurface == old(moveSurface) && renderTargetView == old(renderTargetView) && ops == old(ops)
      // Without a dirty rectangle to draw, the vertex cache and every slot's vertices are untouched.
      ensures data.frameInfo.totalMetadataBufferSize == 0 || data.frame.None? || data.dirtyCount <= 0 ==>
        && dirtyVertexBuffer == old(dirtyVertexBuffer)
        && (dirtyVertexBuffer != null ==>
              forall i :: 0 <= i < dirtyVertexBuffer.Length ==>
                && dirtyVertexBuffer[i] == old(dirtyVertexBuffer[i])
                && (dirtyVertexBuffer[i] != null ==> dirtyVertexBuffer[i][..] == old(dirtyVertexBuffer[i][..])))
      // With metadata, the staging surface and the render target view are made on first use.
      ensures data.frameInfo.totalMetadataBufferSize != 0 && data.frame.Some? ==>
        && moveSurface == (if data.moveCount > 0
                           then Some(if old(moveSurface).None? then BoundsExtent(desk) else old(moveSurface).value)
                           else old(moveSurface))
        && renderTargetView == (if data.dirtyCount > 0
                                then Some(if old(renderTargetView).None? then shared else old(renderTargetView).value)
                                else old(renderTargetView))
      // Dirty rectangles leave the cache as CopyDirty states.
      ensures data.frameInfo.totalMetadataBufferSize != 0 && data.frame.Some? && data.dirtyCount > 0 ==>
        && dirtyVertexBuffer != null && dirtyVertexBuffer.Length >= data.dirtyCount
        && (if old(dirtyVertexBuffer == null || dirtyVertexBuffer.Length < data.dirtyCount)
            then fresh(dirtyVertexBuffer) && dirtyVertexBuffer.Length == data.dirtyCount
            else dirtyVertexBuffer == old(dirtyVertexBuffer))
        && (forall i :: 0 <= i < data.dirtyCount ==>
              && dirtyVertexBuffer[i] != null && dirtyVertexBuffer[i].Length == NUMVERTICES
              && dirtyVertexBuffer[i][..] ==
                   DirtyQuad(if old(dirtyVertexBuffer == null || dirtyVertexBuffer.Length < data.dirtyCount)
                             then FreshSlot() else old(StartOf(dirtyVertexBuffer[i])),
                             data.dirtyRects[i], offsetX, offsetY, desk))
        && (old(dirtyVertexBuffer != null && dirtyVertexBuffer.Length >= data.dirtyCount) ==>
              forall i :: data.dirtyCount <= i < dirtyVertexBuffer.Length ==>
                && dirtyVertexBuffer[i] == old(dirtyVertexBuffer[i])
                && (dirtyVertexBuffer[i] != null ==> dirtyVertexBuffer[i][..] == old(dirtyVertexBuffer[i][..])))
      ensures status == (if data.frameInfo.totalMetadataBufferSize != 0 && data.frame.None?
                         then Threw(NullDereference) else Completed)
      ensures data.frameInfo.totalMetadataBufferSize != 0 && data.frame.Some? ==>
        ops == old(ops)
               + (if data.moveCount > 0
                  then StagingOps(old(moveSurface), desk)
                       + MoveCopies(data.moveRects[..data.moveCount], shared, desk, offsetX, offsetY,
                                    data.frame.value.width, data.frame.value.height)
                  else [])
               + (if data.dirtyCount > 0
                  then TargetOps(old(renderTargetView), shared) + [Draw(NUMVERTICES * data.dirtyCount)]
                  else [])
    {
      if data.frameInfo.totalMetadataBufferSize == 0 {
        return Completed;
      }
      if data.frame.None? {
        // Data.Frame.Description dereferences the missing frame.
        return Threw(NullDereference);
      }
      var desc := data.frame.value;
      ghost var moveOps := if data.moveCount > 0
        then StagingOps(moveSurface, desk)
             + MoveCopies(data.moveRects[..data.moveCount], shared, desk, offsetX, offsetY, desc.width, desc.height)
        else [];
      ghost var dirtyOps := if data.dirtyCount > 0
        then TargetOps(renderTargetView, shared) + [Draw(NUMVERTICES * data.dirtyCount)]
        else [];
      if data.moveCount > 0 {
        CopyMove(shared, data.moveRects, data.moveCount, offsetX, offsetY, desk, desc.width, desc.height);
      }
      assert ops == old(ops) + moveOps;
      ghost var moved := ops;
      if data.dirtyCount > 0 {
        CopyDirty(desc, shared, data.dirtyRects, data.dirtyCount, offsetX, offsetY, desk);
      }
      assert ops == moved + dirtyOps;
      status := Completed;
    }
  }

  /** CopyDirty as written in the source, as far as its first dirty rectangle:
      `new Vertex[NUMVERTICES]` makes an array of six null references (None
      here), and SetDirtyVert's first statement dereferences element 0. Slots
      made this way are never filled, which the precondition states. */
  method CopyDirtyAsWritten(buffer: array?<array?<Option<Vertex>>>, dirtyCount: int)
    returns (cache: array?<array?<Option<Vertex>>>, status: Status)
    requires 0 <= dirtyCount
    requires buffer != null ==> forall i :: 0 <= i < buffer.Length && buffer[i] != null ==>
               buffer[i].Length == NUMVERTICES && forall k :: 0 <= k < NUMVERTICES ==> buffer[i][k] == None
    modifies buffer
    ensures status == (if dirtyCount > 0 then Threw(NullDereference) else Completed)
    ensures if buffer == null || buffer.Length < dirtyCount
            then fresh(cache) && cache != null && cache.Length == dirtyCount
            else cache == buffer
  {
    cache := buffer;
    if cache == null || cache.Length < dirtyCount {
      cache := new array?<Option<Vertex>>[dirtyCount](_ => null);
    }
    if dirtyCount == 0 {
      return cache, Completed;
    }
    if cache[0] == null {
      cache[0] := new Option<Vertex>[NUMVERTICES](_ => None);
    }
    var vertices := cache[0];
    assert vertices[0] == None;
    // SetDirtyVert's first write, to a texture coordinate or to a position
    // of vertex 0, goes through the null reference.
    status := Threw(NullDereference);
  }
}
