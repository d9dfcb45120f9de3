/** Small value types shared by every part of the capture pipeline, and the
    high-water-mark rule that all of its reusable buffers follow. */
module Base {

  datatype Option<T> = None | Some(value: T)

  /** An unsigned 8-bit value, the element of every pixel and shape buffer. */
  newtype byte = x: int | 0 <= x < 256

  /** The exception classes the core raises, or lets through from the platform wrappers. */
  datatype ExceptionKind =
    | General            // System.Exception with a message of the pipeline's own
    | NotSupported       // System.NotSupportedException
    | NullReference      // a dereference of a null reference
    | ArgumentOutOfRange // System.ArgumentOutOfRangeException
    | InvalidArgument    // System.ArgumentException
    | ArgumentNull       // System.ArgumentNullException
    | Overflow           // System.OverflowException: an array of negative size
    | Platform(code: int) // a SharpDXException carrying the failing HRESULT

  datatype Exception = Exception(kind: ExceptionKind, message: string)

  /** How a call that returns nothing ended: normally, or by throwing. */
  datatype Status = Completed | Threw(error: Exception)

  /** The SharpDXException a failing platform call raises; its message is the
      wrapper's and is not modelled. */
  function PlatformException(code: int): Exception
  {
    Exception(Platform(code), "")
  }

  /** The NullReferenceException of a dereference of null. */
  const NullDereference := Exception(NullReference, "")

  const TwoTo32 := 0x1_0000_0000
  const TwoTo31 := 0x8000_0000

  /** The value C#'s unchecked 32-bit `int` arithmetic gives for the
      mathematical result x: x reduced modulo 2^32 into [-2^31, 2^31). */
  function Int32(x: int): (r: int)
    ensures -TwoTo31 <= r < TwoTo31
    ensures (x - r) % TwoTo32 == 0
    ensures -TwoTo31 <= x < TwoTo31 ==> r == x
  {
    var m := x % TwoTo32;
    if m >= TwoTo31 then m - TwoTo32 else m
  }

  /** The byte size of a 32-bit-per-pixel image, `Width * Height * 4`, as the
      32-bit multiplication computes it. */
  function ImageBytes(width: int, height: int): int
  {
    Int32(width * height * 4)
  }

  /** Within the 32-bit range the size is the true product; a product that
      reaches 2^31 wraps to a negative size or a too-small one. */
  lemma ImageBytesWraps()
    ensures ImageBytes(1000, 1000) == 4000000
    ensures ImageBytes(32768, 16384) == -TwoTo31
    ensures ImageBytes(65536, 16384) == 0
  {
  }

  /** Capacity of a high-water-mark buffer after one request: the buffer is
      replaced by one of the requested size exactly when the request does not fit. */
  function Grow(capacity: int, request: int): (c: int)
    ensures c >= capacity && c >= request
    ensures c == capacity || c == request
  {
    if request > capacity then request else capacity
  }

  /** Capacity after a sequence of requests, each applied with Grow. */
  function CapacityAfter(capacity: int, requests: seq<int>): (c: int)
    ensures c >= capacity
    ensures forall i :: 0 <= i < |requests| ==> requests[i] <= c
    decreases |requests|
  {
    if requests == [] then capacity
    else
      var c := CapacityAfter(Grow(capacity, requests[0]), requests[1..]);
      assert forall i :: 1 <= i < |requests| ==> requests[i] == requests[1..][i - 1];
      c
  }

  /** Number of reallocations a sequence of requests causes. */
  function Reallocations(capacity: int, requests: seq<int>): nat
    decreases |requests|
  {
    if requests == [] then 0
    else (if requests[0] > capacity then 1 else 0) + Reallocations(Grow(capacity, requests[0]), requests[1..])
  }

  /** The final capacity is the largest of the initial capacity and the requests. */
  lemma {:induction false} CapacityIsMaximum(capacity: int, requests: seq<int>)
    ensures CapacityAfter(capacity, requests) == capacity || CapacityAfter(capacity, requests) in requests
    decreases |requests|
  {
    if requests != [] {
      var g := Grow(capacity, requests[0]);
      CapacityIsMaximum(g, requests[1..]);
      var c := CapacityAfter(g, requests[1..]);
      if c != g {
        assert c in requests[1..];
      }
    }
  }

  /** A buffer is reallocated at least once exactly when its capacity ends up larger. */
  lemma {:induction false} ReallocatesIffGrows(capacity: int, requests: seq<int>)
    ensures Reallocations(capacity, requests) > 0 <==> CapacityAfter(capacity, requests) > capacity
    decreases |requests|
  {
    if requests != [] {
      ReallocatesIffGrows(Grow(capacity, requests[0]), requests[1..]);
    }
  }

  /** Requests that all fit cause no reallocation and leave the capacity alone. */
  lemma {:induction false} FittingRequestsKeepBuffer(capacity: int, requests: seq<int>)
    requires forall i :: 0 <= i < |requests| ==> requests[i] <= capacity
    ensures Reallocations(capacity, requests) == 0
    ensures CapacityAfter(capacity, requests) == capacity
    decreases |requests|
  {
    if requests != [] {
      assert requests[0] <= capacity;
      FittingRequestsKeepBuffer(capacity, requests[1..]);
    }
  }

  /** One request larger than the capacity followed by requests no larger than it:
      exactly one reallocation, sized for that request. */
  lemma SingleGrowth(capacity: int, big: int, rest: seq<int>)
    requires capacity < big
    requires forall i :: 0 <= i < |rest| ==> rest[i] <= big
    ensures Reallocations(capacity, [big] + rest) == 1
    ensures CapacityAfter(capacity, [big] + rest) == big
  {
    assert ([big] + rest)[1..] == rest;
    FittingRequestsKeepBuffer(big, rest);
  }
}
