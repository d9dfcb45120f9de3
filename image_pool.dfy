/** The pool of reusable frame buffers (ImagePool.cs). A frame handed out by
    Get goes back into the pool's queue when its consumer disposes it, and the
    next Get hands it out again instead of allocating. */
module Pool {
  import opened Base

  /** A 32-bit-per-pixel frame buffer. `released` is the pool whose release
      handler is subscribed to the frame's Released event, or null when no
      handler is. */
  class ReusableFrame {
    const width: int
    const height: int
    const imageData: array<byte>
    var released: ImagePool?

    /** A frame of the given size with a zeroed buffer of ImageBytes(width,
        height) bytes, and no handler. */
    constructor (width: int, height: int)
      requires ImageBytes(width, height) >= 0
      ensures this.width == width && this.height == height
      ensures imageData.Length == ImageBytes(width, height) && fresh(imageData)
      ensures forall i :: 0 <= i < imageData.Length ==> imageData[i] == 0
      ensures released == null
    {
      this.width := width;
      this.height := height;
      imageData := new byte[ImageBytes(width, height)](_ => 0);
      released := null;
    }

    /** Raises Released: the subscribed pool, if any, enqueues the frame, even
        when it is already queued. */
    method Dispose()
      requires released != null ==> released.Valid() && this in released.frames
      modifies released
      ensures released == old(released)
      ensures released != null ==>
        && released.queue == old(released.queue) + [this]
        && released.frames == old(released.frames)
        && released.lent == old(released.lent) && released.issued == old(released.issued)
        && released.Valid()
        // A second release of a frame still waiting leaves it queued twice.
        && (this in old(released.queue) ==> !Distinct(released.queue))
    {
      if released != null {
        ghost var before := released.queue;
        released.OnReleased(this);
        if this in before {
          var k :| 0 <= k < |before| && before[k] == this;
          assert released.queue[k] == released.queue[|before|];
        }
      }
    }

    /** Dispose as evidently intended: `token` is the loan number the pool's
        Lend handed out with the frame, and the pool takes the frame back only
        while that loan is current, so a second or stale Dispose does nothing. */
    method DisposeLease(token: nat)
      requires released != null ==> released.Leased() && this in released.frames
      modifies released
      ensures released == old(released)
      ensures released != null ==>
        && released.Leased()
        && released.frames == old(released.frames) && released.issued == old(released.issued)
        && if this in old(released.lent) && old(released.lent)[this] == token
           then released.queue == old(released.queue) + [this] && released.lent == old(released.lent) - {this}
           else released.queue == old(released.queue) && released.lent == old(released.lent)
    {
      if released != null {
        released.Reclaim(this, token);
      }
    }

    /** Array.Copy(ImageData, buffer, length): the first `length` bytes of the
        image into `buffer`, or the exception Array.Copy raises. */
    method CopyTo(buffer: array?<byte>, length: int) returns (status: Status)
      modifies buffer
      ensures buffer == null ==> status == Threw(Exception(ArgumentNull, ""))
      ensures buffer != null && length < 0 ==> status == Threw(Exception(ArgumentOutOfRange, ""))
      ensures buffer != null && 0 <= length && (length > imageData.Length || length > buffer.Length) ==>
                status == Threw(Exception(InvalidArgument, ""))
      ensures status.Completed? <==>
                buffer != null && 0 <= length <= imageData.Length && length <= buffer.Length
      ensures status.Completed? ==>
                buffer[..length] == old(imageData[..length]) && buffer[length..] == old(buffer[length..])
      ensures status.Threw? && buffer != null ==> buffer[..] == old(buffer[..])
    {
      if buffer == null {
        return Threw(Exception(ArgumentNull, ""));
      }
      if length < 0 {
        return Threw(Exception(ArgumentOutOfRange, ""));
      }
      if length > imageData.Length || length > buffer.Length {
        return Threw(Exception(InvalidArgument, ""));
      }
      // Array.Copy reads the source as it was before the copy, also when the
      // two arrays are one.
      forall i | 0 <= i < length {
        buffer[i] := imageData[i];
      }
      status := Completed;
    }

    /** The frame's buffer is managed memory: destroying it is a no-op. */
    method Destroy()
    {
    }
  }

  /** No frame appears twice in a queue. */
  predicate Distinct(q: seq<ReusableFrame>)
  {
    forall i, j :: 0 <= i < j < |q| ==> q[i] != q[j]
  }

  class ImagePool {
    const width: int
    const height: int
    /** Every frame the pool has allocated, in allocation order. */
    var frames: seq<ReusableFrame>
    /** The frames waiting to be handed out again, oldest first. */
    var queue: seq<ReusableFrame>
    /** The corrected pool's loans: every frame Lend has handed out and not yet
        taken back, with the number of that loan. The code as written keeps no
        such record; only Lend and Reclaim use it. */
    var lent: map<ReusableFrame, nat>
    /** How many loans Lend has made. */
    var issued: nat

    /** Every allocated frame has this pool's size and release handler, the
        allocations and their buffers are distinct, and only allocated frames
        wait in the queue. */
    ghost predicate Valid()
      reads this, frames
    {
      && Distinct(frames)
      && (forall i, j :: 0 <= i < j < |frames| ==> frames[i].imageData != frames[j].imageData)
      && (forall i :: 0 <= i < |frames| ==>
            && frames[i].released == this
            && frames[i].width == width && frames[i].height == height
            && frames[i].imageData.Length == ImageBytes(width, height))
      && (forall f :: f in queue ==> f in frames)
    }

    /** Besides Valid: no frame waits twice, a frame on loan is not waiting,
        and every loan number is one already issued. */
    ghost predicate Leased()
      reads this, frames
    {
      && Valid()
      && Distinct(queue)
      && (forall f :: f in lent ==> f in frames && f !in queue && lent[f] < issued)
    }

    /** An empty pool for frames of the given size. */
    constructor (width: int, height: int)
      ensures this.width == width && this.height == height
      ensures frames == [] && queue == [] && lent == map[] && issued == 0
      ensures Valid() && Leased()
    {
      this.width := width;
      this.height := height;
      frames := [];
      queue := [];
      lent := map[];
      issued := 0;
    }

    /** The oldest queued frame, or else a new frame subscribed to this pool.
        A size whose 32-bit computation is negative makes the allocation throw. */
    method Get() returns (frame: ReusableFrame?, status: Status)
      requires Valid()
      modifies this
      ensures Valid()
      ensures old(queue) != [] ==>
        && frame == old(queue)[0] && status == Completed
        && queue == old(queue)[1..] && frames == old(frames)
      ensures old(queue) == [] && ImageBytes(width, height) < 0 ==>
        && frame == null && status == Threw(Exception(Overflow, ""))
        && queue == old(queue) && frames == old(frames)
      ensures old(queue) == [] && ImageBytes(width, height) >= 0 ==>
        && frame != null && fresh(frame) && fresh(frame.imageData) && status == Completed
        && frame.width == width && frame.height == height && frame.released == this
        && queue == [] && frames == old(frames) + [frame]
      ensures Distinct(old(queue)) ==> Distinct(queue) && (frame != null ==> frame !in queue)
      ensures lent == old(lent) && issued == old(issued)
    {
      if |queue| > 0 {
        frame := queue[0];
        queue := queue[1..];
        assert forall f :: f in queue ==> f in old(queue);
        return frame, Completed;
      }
      if ImageBytes(width, height) < 0 {
        return null, Threw(Exception(Overflow, ""));
      }
      var created := new ReusableFrame(width, height);
      created.released := this;
      frames := frames + [created];
      frame := created;
      status := Completed;
    }

    /** The handler subscribed to a frame's Released event: the frame joins the
        back of the queue. */
    method OnReleased(frame: ReusableFrame)
      requires Valid() && frame in frames
      modifies this`queue
      ensures queue == old(queue) + [frame]
      ensures Valid()
    {
      queue := queue + [frame];
    }

    /** Get as evidently intended: the frame is handed out on a new loan,
        numbered by `token`. It is never a frame already on loan. */
    method Lend() returns (frame: ReusableFrame?, token: nat, status: Status)
      requires Leased()
      modifies this
      ensures Leased()
      ensures status.Completed? <==> frame != null
      ensures frame != null ==>
        && frame !in old(lent) && frame in frames && frame !in queue
        && token == old(issued) && issued == old(issued) + 1 && lent == old(lent)[frame := token]
      ensures old(queue) != [] ==> frame == old(queue)[0] && queue == old(queue)[1..] && frames == old(frames)
      ensures old(queue) == [] && ImageBytes(width, height) >= 0 ==>
        && frame != null && fresh(frame) && fresh(frame.imageData)
        && queue == [] && frames == old(frames) + [frame]
      ensures frame == null ==>
        && status == Threw(Exception(Overflow, ""))
        && queue == old(queue) && frames == old(frames) && lent == old(lent) && issued == old(issued)
    {
      frame, status := Get();
      token := issued;
      if frame != null {
        lent := lent[frame := issued];
        issued := issued + 1;
      }
    }

    /** The release handler as evidently intended: the frame joins the back of
        the queue only if `token` is its current loan, which then ends. */
    method Reclaim(frame: ReusableFrame, token: nat)
      requires Leased() && frame in frames
      modifies this`queue, this`lent
      ensures Leased()
      ensures if frame in old(lent) && old(lent)[frame] == token
              then queue == old(queue) + [frame] && lent == old(lent) - {frame}
              else queue == old(queue) && lent == old(lent)
    {
      if frame in lent && lent[frame] == token {
        lent := lent - {frame};
        OnReleased(frame);
      }
    }

    /** Destroys every allocated frame, which releases nothing. */
    method Dispose()
      requires Valid()
      ensures Valid() && frames == old(frames) && queue == old(queue)
    {
      var i := 0;
      while i < |frames|
        invariant 0 <= i <= |frames|
      {
        frames[i].Destroy();
        i := i + 1;
      }
    }
  }

  /** A frame handed out, used and disposed comes back from the next Get:
      the pool reuses it instead of allocating. */
  method DisposedFrameIsReused(width: int, height: int) returns (first: ReusableFrame?, second: ReusableFrame?)
    requires ImageBytes(width, height) >= 0
    ensures first != null && first == second
  {
    var pool := new ImagePool(width, height);
    var status;
    first, status := pool.Get();
    first.Dispose();
    second, status := pool.Get();
  }

  /** Disposing one frame twice queues it twice, so two later Gets hand the
      same buffer to two consumers at once. */
  method DoubleDisposeShares(width: int, height: int) returns (first: ReusableFrame?, second: ReusableFrame?)
    requires ImageBytes(width, height) >= 0
    ensures first != null && first == second
  {
    var pool := new ImagePool(width, height);
    var frame, status := pool.Get();
    frame.Dispose();
    frame.Dispose();
    first, status := pool.Get();
    second, status := pool.Get();
  }

  /** With loans, disposing one frame twice returns it once: the next two
      Lends hand out two different frames. */
  method DoubleDisposeLeasedSeparates(width: int, height: int) returns (first: ReusableFrame?, second: ReusableFrame?)
    requires ImageBytes(width, height) >= 0
    ensures first != null && second != null && first != second
  {
    var pool := new ImagePool(width, height);
    var frame, token, status := pool.Lend();
    frame.DisposeLease(token);
    frame.DisposeLease(token);
    var t1, t2;
    first, t1, status := pool.Lend();
    second, t2, status := pool.Lend();
  }

  /** A stale Dispose, made after the frame went out again on a new loan,
      does not take it from its new holder: the next Lend hands out another
      frame. */
  method StaleDisposeIgnored(width: int, height: int) returns (held: ReusableFrame?, next: ReusableFrame?)
    requires ImageBytes(width, height) >= 0
    ensures held != null && next != null && held != next
  {
    var pool := new ImagePool(width, height);
    var frame, token, status := pool.Lend();
    frame.DisposeLease(token);
    var t1, t2;
    held, t1, status := pool.Lend();
    frame.DisposeLease(token);
    next, t2, status := pool.Lend();
  }
}
