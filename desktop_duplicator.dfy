/** The single-output capturer (DesktopDuplicator.cs): every Capture call
    either arms the first acquisition, reports that the desktop has not
    changed, or copies the acquired desktop region through a CPU-readable
    staging texture into a pooled frame. The acquisition runs as a task; its
    outcome is a parameter of the Capture call that awaits it, and the calls
    made on the platform are recorded in an event log. */
module Duplicator {
  import opened Base
  import opened Dxgi
  import opened Pool

  /** The timeout, in milliseconds, every acquisition waits for a new frame. */
  const AcquireTimeoutMs := 5000

  const AcquireFailedMessage := "Failed to acquire next frame."
  const ReleaseFailedMessage := "Failed to release frame."
  const NotAvailableMessage := "There is already the maximum number of applications using the Desktop Duplication API running, please close one of the applications and try again."
  const UnsupportedMessage := "Desktop Duplication is not supported on this system.\nIf you have multiple graphic cards, try running Captura on integrated graphics."

  /** System.Drawing.Rectangle: the captured part of the desktop. */
  datatype Rectangle = Rectangle(x: int, y: int, width: int, height: int) {
    /** The region copied out of each acquired desktop image. */
    function Region(): (r: Rect)
      ensures r.left == x && r.top == y && r.Width() == width && r.Height() == height
    {
      Rect(x, y, x + width, y + height)
    }
  }

  /** The acquisition slot: no task yet, a task still running, or a task that
      has completed with an outcome. Awaiting a completed task gives the same
      outcome again, however often it is awaited. */
  datatype Task = NotStarted | InFlight | Done(outcome: AcquireResult)

  /** The platform calls Capture makes, in order. */
  datatype Event =
    | BeginAcquire(timeoutMs: int)            // Task.Run of AcquireNextFrame
    | CopyRegion(resource: Texture, region: Rect)
    | ReleaseFrame
    | MapStaging
    | PoolGet
    | CopyBytes(count: int)
    | UnmapStaging

  /** What Capture gives its caller: RepeatFrame.Instance, a new frame, or an exception. */
  datatype Delivery = Repeat | NewFrame | Raised(error: Exception)

  /** One Capture call: the new acquisition slot, the delivery and the calls made. */
  datatype Step = Step(task: Task, delivery: Delivery, events: seq<Event>)

  /** The inputs of one Capture call: the outcome of the running acquisition,
      should Capture await it, and the reply to ReleaseFrame. */
  datatype Input = Input(pending: AcquireResult, release: CallResult)

  /** The exception the constructor raises when DuplicateOutput fails. */
  function DuplicateOutputError(failure: DuplicateFailure): (e: Exception)
    ensures failure.NotCurrentlyAvailable? <==> e.kind.General?
    ensures failure.Unsupported? <==> e.kind.NotSupported?
    ensures failure.NotCurrentlyAvailable? ==> e.message == NotAvailableMessage
    ensures failure.Unsupported? ==> e.message == UnsupportedMessage
    ensures failure.OtherFailure? ==> e == PlatformException(failure.code)
  {
    match failure
    case NotCurrentlyAvailable => Exception(General, NotAvailableMessage)
    case Unsupported => Exception(NotSupported, UnsupportedMessage)
    case OtherFailure(code) => PlatformException(code)
  }

  /** The outcome Capture sees when it awaits the slot's task. */
  function Awaited(task: Task, pending: AcquireResult): (r: AcquireResult)
    requires !task.NotStarted?
    ensures task.Done? ==> r == task.outcome
    ensures task.InFlight? ==> r == pending
  {
    if task.Done? then task.outcome else pending
  }

  /** After the acquired region has been copied and the frame released: arm
      the next acquisition, map the staging texture, take a pooled frame, copy
      `bytes` bytes into it and unmap, also when the pool throws. */
  function DeliverCopy(bytes: int): (d: (Delivery, seq<Event>))
    ensures d.0.NewFrame? <==> bytes >= 0
    ensures !d.0.NewFrame? ==> d.0 == Raised(Exception(Overflow, ""))
    ensures d.0.NewFrame? <==> CopyBytes(bytes) in d.1
    ensures |d.1| >= 2 && d.1[0] == BeginAcquire(AcquireTimeoutMs) && d.1[|d.1| - 1] == UnmapStaging
  {
    if bytes < 0 then
      (Raised(Exception(Overflow, "")), [BeginAcquire(AcquireTimeoutMs), MapStaging, PoolGet, UnmapStaging])
    else
      (NewFrame, [BeginAcquire(AcquireTimeoutMs), MapStaging, PoolGet, CopyBytes(bytes), UnmapStaging])
  }

  /** One Capture call as written. */
  function CaptureStep(task: Task, input: Input, region: Rect, bytes: int): (s: Step)
    ensures !s.task.NotStarted?
    ensures s.delivery.NewFrame? ==> s.task == InFlight
  {
    if task.NotStarted? then Step(InFlight, Repeat, [BeginAcquire(AcquireTimeoutMs)])
    else
      var outcome := Awaited(task, input.pending);
      match outcome
      case WaitTimeout => Step(Done(outcome), Repeat, [])
      case AcquireFailed(_) => Step(Done(outcome), Raised(Exception(General, AcquireFailedMessage)), [])
      case Acquired(_, resource) =>
        if task.Done? then
          // Only a failed release leaves an acquired task in the slot, and that
          // call's using block has disposed the resource, so QueryInterface on
          // the disposed wrapper throws. The exception's class is assumed: a
          // disposed wrapper's native pointer is null.
          Step(task, Raised(NullDereference), [])
        else
        var released := [CopyRegion(resource, region), ReleaseFrame];
        if input.release.Failed? then
          Step(Done(outcome), Raised(Exception(General, ReleaseFailedMessage)), released)
        else
          var (delivery, rest) := DeliverCopy(bytes);
          Step(InFlight, delivery, released + rest)
  }

  /** One Capture call as evidently intended: a timeout arms a new
      acquisition instead of keeping the timed-out task. */
  function CaptureStepCorrected(task: Task, input: Input, region: Rect, bytes: int): (s: Step)
    ensures !s.task.NotStarted? && s.task != Done(WaitTimeout)
    ensures s.delivery.NewFrame? ==> s.task == InFlight
  {
    if !task.NotStarted? && Awaited(task, input.pending).WaitTimeout? then
      Step(InFlight, Repeat, [BeginAcquire(AcquireTimeoutMs)])
    else CaptureStep(task, input, region, bytes)
  }

  /** The number of acquisitions an event list starts. */
  function Arms(events: seq<Event>): nat
  {
    |set k | 0 <= k < |events| && events[k].BeginAcquire?|
  }

  /** The first Capture arms exactly one acquisition and repeats the previous
      frame, without touching the pool. */
  lemma FirstCaptureOnlyArms(input: Input, region: Rect, bytes: int)
    ensures var s := CaptureStep(NotStarted, input, region, bytes);
      s.delivery == Repeat && s.task == InFlight && s.events == [BeginAcquire(AcquireTimeoutMs)]
  {
  }

  /** A timeout repeats the previous frame: no release, no new acquisition,
      no pool Get, and the timed-out task stays in the slot. */
  lemma TimeoutRepeats(task: Task, input: Input, region: Rect, bytes: int)
    requires !task.NotStarted? && Awaited(task, input.pending).WaitTimeout?
    ensures var s := CaptureStep(task, input, region, bytes);
      s.delivery == Repeat && s.events == [] && s.task == Done(WaitTimeout)
  {
  }

  /** A failed acquisition raises "Failed to acquire next frame." without any
      platform call. */
  lemma AcquireFailureRaises(task: Task, input: Input, region: Rect, bytes: int)
    requires !task.NotStarted? && Awaited(task, input.pending).AcquireFailed?
    ensures var s := CaptureStep(task, input, region, bytes);
      s.delivery == Raised(Exception(General, AcquireFailedMessage)) && s.events == []
  {
  }

  /** A failed release raises "Failed to release frame." after the copy and
      the release, without arming a new acquisition and without a pool Get;
      the completed acquisition stays in the slot. */
  lemma ReleaseFailureRaises(input: Input, region: Rect, bytes: int)
    requires input.pending.Acquired? && input.release.Failed?
    ensures var s := CaptureStep(InFlight, input, region, bytes);
      && s.delivery == Raised(Exception(General, ReleaseFailedMessage))
      && s.events == [CopyRegion(input.pending.resource, region), ReleaseFrame]
      && Arms(s.events) == 0
      && s.task == Done(input.pending)
  {
  }

  /** A new frame is delivered exactly when an acquired frame was released;
      the call then copies the capture region of the acquired resource,
      releases it, arms the next acquisition, takes one pooled frame and
      copies exactly `bytes` bytes into it, in that order. */
  lemma NewFrameOrder(task: Task, input: Input, region: Rect, bytes: int)
    requires !task.NotStarted?
    ensures var s := CaptureStep(task, input, region, bytes);
      var outcome := Awaited(task, input.pending);
      && (s.delivery == NewFrame <==> task.InFlight? && outcome.Acquired? && input.release.Succeeded? && bytes >= 0)
      && (s.delivery == NewFrame ==>
            s.events == [CopyRegion(outcome.resource, region), ReleaseFrame, BeginAcquire(AcquireTimeoutMs),
                         MapStaging, PoolGet, CopyBytes(bytes), UnmapStaging])
  {
  }

  /** At most one acquisition is in flight: a Capture call arms at most one,
      and an acquisition is running after the call exactly when the call armed
      it, so the one before has always been awaited. */
  lemma AtMostOneInFlight(task: Task, input: Input, region: Rect, bytes: int)
    ensures var s := CaptureStep(task, input, region, bytes);
      Arms(s.events) <= 1 && (s.task.InFlight? <==> Arms(s.events) == 1)
  {
    var s := CaptureStep(task, input, region, bytes);
    var armed := set k | 0 <= k < |s.events| && s.events[k].BeginAcquire?;
    if s.task.InFlight? {
      var at := if task.NotStarted? then 0 else 2;
      assert s.events[at].BeginAcquire?;
      assert forall k :: 0 <= k < |s.events| && k != at ==> !s.events[k].BeginAcquire?;
      assert armed == {at};
    } else {
      assert forall k :: 0 <= k < |s.events| ==> !s.events[k].BeginAcquire?;
      assert armed == {};
    }
  }

  /** The corrected step keeps the same bound: its re-arm after a timeout is
      the call's only acquisition. */
  lemma CorrectedAtMostOneInFlight(task: Task, input: Input, region: Rect, bytes: int)
    ensures var s := CaptureStepCorrected(task, input, region, bytes);
      Arms(s.events) <= 1 && (s.task.InFlight? <==> Arms(s.events) == 1)
  {
    if !task.NotStarted? && Awaited(task, input.pending).WaitTimeout? {
      var s := CaptureStepCorrected(task, input, region, bytes);
      assert (set k | 0 <= k < |s.events| && s.events[k].BeginAcquire?) == {0};
    } else {
      AtMostOneInFlight(task, input, region, bytes);
    }
  }

  // ---- Release before re-arm -------------------------------------------------

  /** Some release happens strictly between positions j and k of the log. */
  predicate ReleasedBetween(log: seq<Event>, j: int, k: int)
    requires 0 <= j <= k <= |log|
  {
    exists m :: j < m < k && log[m].ReleaseFrame?
  }

  /** No acquisition is armed while a copied-out frame has not been released. */
  predicate RearmsReleased(log: seq<Event>)
  {
    forall j, k :: 0 <= j < k < |log| && log[j].CopyRegion? && log[k].BeginAcquire? ==> ReleasedBetween(log, j, k)
  }

  /** Every frame copied out in the log has been released by its end. */
  predicate AllReleased(log: seq<Event>)
  {
    forall j :: 0 <= j < |log| && log[j].CopyRegion? ==> ReleasedBetween(log, j, |log|)
  }

  /** Logs that each keep both properties keep them when one follows the other. */
  lemma AppendKeepsRearmsReleased(log: seq<Event>, events: seq<Event>)
    requires RearmsReleased(log) && AllReleased(log)
    requires RearmsReleased(events) && AllReleased(events)
    ensures RearmsReleased(log + events) && AllReleased(log + events)
  {
    var all := log + events;
    var n := |log|;
    forall j, k | 0 <= j < k < |all| && all[j].CopyRegion? && all[k].BeginAcquire?
      ensures ReleasedBetween(all, j, k)
    {
      if k < n {
        assert log[j].CopyRegion? && log[k].BeginAcquire?;
        var m :| j < m < k && log[m].ReleaseFrame?;
        assert all[m] == log[m];
      } else if j < n {
        assert log[j].CopyRegion?;
        var m :| j < m < n && log[m].ReleaseFrame?;
        assert all[m] == log[m];
      } else {
        assert events[j - n].CopyRegion? && events[k - n].BeginAcquire?;
        var m :| j - n < m < k - n && events[m].ReleaseFrame?;
        assert all[m + n] == events[m];
      }
    }
    forall j | 0 <= j < |all| && all[j].CopyRegion?
      ensures ReleasedBetween(all, j, |all|)
    {
      if j < n {
        assert log[j].CopyRegion?;
        var m :| j < m < n && log[m].ReleaseFrame?;
        assert all[m] == log[m];
      } else {
        assert events[j - n].CopyRegion?;
        var m :| j - n < m < |events| && events[m].ReleaseFrame?;
        assert all[m + n] == events[m];
      }
    }
  }

  /** The calls of one Capture call keep both properties on their own: the
      copied-out frame is released before the next acquisition is armed and
      before the call returns. */
  lemma StepEventsReleased(task: Task, input: Input, region: Rect, bytes: int)
    ensures var e := CaptureStep(task, input, region, bytes).events;
      RearmsReleased(e) && AllReleased(e)
  {
    var e := CaptureStep(task, input, region, bytes).events;
    if |e| >= 2 {
      assert e[1].ReleaseFrame?;
      assert forall j :: 0 <= j < |e| && e[j].CopyRegion? ==> j == 0;
      assert ReleasedBetween(e, 0, |e|);
      if |e| > 2 {
        assert forall k :: 0 <= k < |e| && e[k].BeginAcquire? ==> k == 2;
        assert ReleasedBetween(e, 0, 2);
      }
    }
  }

  /** Over any sequence of Capture calls no acquisition is armed while an
      acquired frame is held, and no call returns holding one. */
  lemma StepKeepsRearmsReleased(log: seq<Event>, task: Task, input: Input, region: Rect, bytes: int)
    requires RearmsReleased(log) && AllReleased(log)
    ensures var s := CaptureStep(task, input, region, bytes);
      RearmsReleased(log + s.events) && AllReleased(log + s.events)
  {
    StepEventsReleased(task, input, region, bytes);
    AppendKeepsRearmsReleased(log, CaptureStep(task, input, region, bytes).events);
  }

  /** The corrected step keeps the same properties. */
  lemma CorrectedStepKeepsRearmsReleased(log: seq<Event>, task: Task, input: Input, region: Rect, bytes: int)
    requires RearmsReleased(log) && AllReleased(log)
    ensures var s := CaptureStepCorrected(task, input, region, bytes);
      RearmsReleased(log + s.events) && AllReleased(log + s.events)
  {
    StepEventsReleased(task, input, region, bytes);
    AppendKeepsRearmsReleased(log, CaptureStepCorrected(task, input, region, bytes).events);
  }

  // ---- Runs --------------------------------------------------------------------

  /** The outcome of a sequence of Capture calls: the final slot, what each
      call delivered, and all calls made. */
  datatype Run = Run(task: Task, deliveries: seq<Delivery>, log: seq<Event>)

  function RunFrom(task: Task, inputs: seq<Input>, region: Rect, bytes: int, corrected: bool): (r: Run)
    ensures |r.deliveries| == |inputs|
    decreases |inputs|
  {
    if inputs == [] then Run(task, [], [])
    else
      var s := if corrected then CaptureStepCorrected(task, inputs[0], region, bytes)
               else CaptureStep(task, inputs[0], region, bytes);
      var rest := RunFrom(s.task, inputs[1..], region, bytes, corrected);
      Run(rest.task, [s.delivery] + rest.deliveries, s.events + rest.log)
  }

  /** Once an acquisition has timed out, every later Capture repeats the
      previous frame and calls nothing on the platform, whatever the desktop
      does: the timed-out task is never replaced. */
  lemma {:induction false} StalledAfterTimeout(inputs: seq<Input>, region: Rect, bytes: int)
    ensures var r := RunFrom(Done(WaitTimeout), inputs, region, bytes, false);
      && r.task == Done(WaitTimeout) && r.log == []
      && forall i :: 0 <= i < |inputs| ==> r.deliveries[i] == Repeat
    decreases |inputs|
  {
    if inputs != [] {
      StalledAfterTimeout(inputs[1..], region, bytes);
      var r := RunFrom(Done(WaitTimeout), inputs, region, bytes, false);
      var rest := RunFrom(Done(WaitTimeout), inputs[1..], region, bytes, false);
      assert r.deliveries == [Repeat] + rest.deliveries;
    }
  }

  /** After a failed release the slot keeps the acquisition whose resource
      that call disposed, so every later Capture raises a null dereference and
      calls nothing, whatever the platform would deliver, with either step. */
  lemma {:induction false} StuckAfterReleaseFailure(outcome: AcquireResult, inputs: seq<Input>, region: Rect, bytes: int, corrected: bool)
    requires outcome.Acquired?
    ensures var r := RunFrom(Done(outcome), inputs, region, bytes, corrected);
      && r.task == Done(outcome) && r.log == []
      && forall i :: 0 <= i < |inputs| ==> r.deliveries[i] == Raised(NullDereference)
    decreases |inputs|
  {
    if inputs != [] {
      StuckAfterReleaseFailure(outcome, inputs[1..], region, bytes, corrected);
      var r := RunFrom(Done(outcome), inputs, region, bytes, corrected);
      var rest := RunFrom(Done(outcome), inputs[1..], region, bytes, corrected);
      assert r.deliveries == [Raised(NullDereference)] + rest.deliveries;
    }
  }

  /** Over a whole run of Capture calls, written or corrected, no
      acquisition is armed while an acquired frame is held, and every frame
      copied out has been released by the end. */
  lemma {:induction false} RunKeepsRearmsReleased(task: Task, inputs: seq<Input>, region: Rect, bytes: int, corrected: bool)
    ensures var log := RunFrom(task, inputs, region, bytes, corrected).log;
      RearmsReleased(log) && AllReleased(log)
    decreases |inputs|
  {
    if inputs != [] {
      var s := if corrected then CaptureStepCorrected(task, inputs[0], region, bytes)
               else CaptureStep(task, inputs[0], region, bytes);
      RunKeepsRearmsReleased(s.task, inputs[1..], region, bytes, corrected);
      if corrected {
        CorrectedStepKeepsRearmsReleased([], task, inputs[0], region, bytes);
      } else {
        StepKeepsRearmsReleased([], task, inputs[0], region, bytes);
      }
      assert [] + s.events == s.events;
      AppendKeepsRearmsReleased(s.events, RunFrom(s.task, inputs[1..], region, bytes, corrected).log);
    }
  }

  /** The corrected step differs from the written one only on a timeout. */
  lemma CorrectedAgreesExceptTimeout(task: Task, input: Input, region: Rect, bytes: int)
    ensures CaptureStepCorrected(task, input, region, bytes) != CaptureStep(task, input, region, bytes)
            <==> !task.NotStarted? && Awaited(task, input.pending).WaitTimeout?
  {
  }

  /** With the corrected step a timeout re-arms, so the next acquisition that
      succeeds is delivered: after arming, three timeouts and a new frame,
      the fifth call delivers it. */
  lemma {:induction false} CorrectedRecoversFromTimeout(info: FrameInfo, resource: Texture, region: Rect, bytes: nat)
    ensures var timeout := Input(WaitTimeout, Succeeded);
      var inputs := [timeout, timeout, timeout, timeout, Input(Acquired(info, resource), Succeeded)];
      && RunFrom(NotStarted, inputs, region, bytes, true).deliveries == [Repeat, Repeat, Repeat, Repeat, NewFrame]
      && RunFrom(NotStarted, inputs, region, bytes, false).deliveries == [Repeat, Repeat, Repeat, Repeat, Repeat]
  {
    var timeout := Input(WaitTimeout, Succeeded);
    var last := Input(Acquired(info, resource), Succeeded);
    var inputs := [timeout, timeout, timeout, timeout, last];
    assert inputs[1..] == [timeout, timeout, timeout, last];
    // Corrected: each timeout re-arms, so the fifth call awaits a running acquisition.
    ArmedRunRecovers(info, resource, region, bytes);
    // As written: the second call keeps the timed-out task for good.
    assert inputs[1..][1..] == [timeout, timeout, last];
    StalledAfterTimeout(inputs[1..][1..], region, bytes);
    var w2 := RunFrom(Done(WaitTimeout), inputs[1..][1..], region, bytes, false);
    assert w2.deliveries == [Repeat, Repeat, Repeat];
    var w1 := RunFrom(InFlight, inputs[1..], region, bytes, false);
    assert w1.deliveries == [Repeat] + w2.deliveries;
  }

  /** The corrected run from an armed slot: three timeouts, each re-armed,
      then the acquired frame is delivered. */
  lemma {:induction false} ArmedRunRecovers(info: FrameInfo, resource: Texture, region: Rect, bytes: nat)
    ensures var timeout := Input(WaitTimeout, Succeeded);
      var inputs := [timeout, timeout, timeout, Input(Acquired(info, resource), Succeeded)];
      RunFrom(InFlight, inputs, region, bytes, true).deliveries == [Repeat, Repeat, Repeat, NewFrame]
  {
    var timeout := Input(WaitTimeout, Succeeded);
    var last := Input(Acquired(info, resource), Succeeded);
    var inputs := [timeout, timeout, timeout, last];
    assert inputs[1..] == [timeout, timeout, last];
    assert inputs[2..] == [timeout, last];
    assert inputs[3..] == [last];
    assert inputs[1..][1..] == inputs[2..] && inputs[2..][1..] == inputs[3..];
    var r3 := RunFrom(InFlight, inputs[3..], region, bytes, true);
    assert r3.deliveries == [NewFrame];
    var r2 := RunFrom(InFlight, inputs[2..], region, bytes, true);
    assert r2.deliveries == [Repeat] + r3.deliveries;
    var r1 := RunFrom(InFlight, inputs[1..], region, bytes, true);
    assert r1.deliveries == [Repeat] + r2.deliveries;
  }

  // ---- The capturer ------------------------------------------------------------

  class DesktopDuplicator {
    const rect: Rectangle
    const includeCursor: bool
    const pool: ImagePool
    /** The size of the CPU-readable staging texture the region is copied into. */
    const staging: Extent
    var task: Task
    var frameInfo: FrameInfo
    var desktopResource: Option<Texture>
    var events: seq<Event>

    /** The pool and the staging texture are both sized from the capture rectangle. */
    ghost predicate PoolValid()
      reads this, pool, pool.frames
    {
      && pool.Valid()
      && pool.width == rect.width && pool.height == rect.height
      && staging == Extent(rect.width, rect.height)
    }

    /** Besides PoolValid: an acquisition left completed in the slot has had
        its resource disposed, which only a failed release leaves behind. */
    ghost predicate Valid()
      reads this, pool, pool.frames
    {
      && PoolValid()
      && (task.Done? && task.outcome.Acquired? ==> desktopResource == None)
    }

    /** The buffers of the frames the pool has allocated. */
    ghost function PoolBuffers(): set<object>
      reads this, pool, pool.frames
    {
      set i | 0 <= i < |pool.frames| :: pool.frames[i].imageData
    }

    /** The fields the constructor sets before DuplicateOutput is called. */
    constructor Init(rect: Rectangle, includeCursor: bool)
      ensures this.rect == rect && this.includeCursor == includeCursor
      ensures fresh(pool) && pool.frames == [] && pool.queue == [] && Valid()
      ensures task == NotStarted && desktopResource == None && events == []
    {
      this.rect := rect;
      this.includeCursor := includeCursor;
      pool := new ImagePool(rect.width, rect.height);
      staging := Extent(rect.width, rect.height);
      task := NotStarted;
      frameInfo := NoFrameInfo;
      desktopResource := None;
      events := [];
    }

    /** The constructor: a capturer for `rect`, or the exception DuplicateOutput's
        failure maps to. */
    static method Create(rect: Rectangle, includeCursor: bool, duplicate: Option<DuplicateFailure>)
      returns (d: DesktopDuplicator?, status: Status)
      ensures duplicate.None? <==> d != null
      ensures d != null ==> fresh(d) && d.rect == rect && d.Valid() && d.task == NotStarted && d.events == []
      ensures status == (if duplicate.None? then Completed else Threw(DuplicateOutputError(duplicate.value)))
    {
      var created := new DesktopDuplicator.Init(rect, includeCursor);
      if duplicate.Some? {
        return null, Threw(DuplicateOutputError(duplicate.value));
      }
      return created, Completed;
    }

    /** Starts an acquisition of the next frame with the 5000 ms timeout. */
    method BeginAcquireTask()
      modifies this`task, this`events
      ensures task == InFlight && events == old(events) + [BeginAcquire(AcquireTimeoutMs)]
    {
      task := InFlight;
      events := events + [BeginAcquire(AcquireTimeoutMs)];
    }

    /** Releases the acquired frame; a failing release raises "Failed to release frame.". */
    method ReleaseFrame(release: CallResult) returns (status: Status)
      modifies this`events
      ensures events == old(events) + [Event.ReleaseFrame]
      ensures status == (if release.Failed? then Threw(Exception(General, ReleaseFailedMessage)) else Completed)
    {
      events := events + [Event.ReleaseFrame];
      if release.Failed? {
        return Threw(Exception(General, ReleaseFailedMessage));
      }
      return Completed;
    }

    /** Takes a frame from the pool and copies Width * Height * 4 bytes of the
        mapped staging texture into it. */
    method ProcessFrame(mapped: seq<byte>) returns (frame: ReusableFrame?, status: Status)
      requires PoolValid()
      requires |mapped| >= ImageBytes(rect.width, rect.height)
      modifies pool, this`events, PoolBuffers()
      ensures PoolValid()
      // The buffers of the other frames, which their consumers may hold, are not touched.
      ensures forall g :: g in old(pool.frames) && g != frame ==> g.imageData[..] == old(g.imageData[..])
      ensures var n := ImageBytes(rect.width, rect.height);
        events == old(events) + [PoolGet] + (if n < 0 then [] else [CopyBytes(n)])
      ensures status.Completed? <==> frame != null
      ensures status == (if ImageBytes(rect.width, rect.height) < 0 then Threw(Exception(Overflow, "")) else Completed)
      ensures ImageBytes(rect.width, rect.height) < 0 ==>
        status == Threw(Exception(Overflow, "")) && pool.queue == old(pool.queue) && pool.frames == old(pool.frames)
      ensures frame != null ==>
        && frame.width == rect.width && frame.height == rect.height
        && frame.imageData.Length == ImageBytes(rect.width, rect.height)
        && frame.imageData[..] == mapped[..ImageBytes(rect.width, rect.height)]
        && (old(pool.queue) != [] ==>
              frame == old(pool.queue)[0] && pool.queue == old(pool.queue)[1..] && pool.frames == old(pool.frames))
        && (old(pool.queue) == [] ==>
              && fresh(frame) && fresh(frame.imageData)
              && pool.queue == [] && pool.frames == old(pool.frames) + [frame])
      ensures pool.lent == old(pool.lent) && pool.issued == old(pool.issued)
    {
      if pool.queue != [] {
        // Only frames of the pool's size are queued, so the size is not negative.
        assert pool.queue[0] in pool.frames;
      }
      frame, status := pool.Get();
      events := events + [PoolGet];
      if frame == null {
        return;
      }
      var n := ImageBytes(rect.width, rect.height);
      assert frame in pool.frames;
      // The first Width * Height * 4 bytes of the mapped texture fill the frame's buffer.
      forall i | 0 <= i < n {
        frame.imageData[i] := mapped[i];
      }
      events := events + [CopyBytes(n)];
    }

    /** Awaits the slot's task. A running task completes with `pending`; when
        it acquired a frame, its out parameters store the frame information
        and the resource. A completed task gives its outcome again. */
    method AwaitAcquisition(pending: AcquireResult) returns (outcome: AcquireResult)
      requires !task.NotStarted?
      modifies this`task, this`frameInfo, this`desktopResource
      ensures outcome == Awaited(old(task), pending) && task == Done(outcome)
      ensures old(task).InFlight? && pending.Acquired? ==>
        frameInfo == pending.info && desktopResource == Some(pending.resource)
      ensures !(old(task).InFlight? && pending.Acquired?) ==>
        frameInfo == old(frameInfo) && desktopResource == old(desktopResource)
    {
      if task.InFlight? {
        task := Done(pending);
        if pending.Acquired? {
          frameInfo := pending.info;
          desktopResource := Some(pending.resource);
        }
      }
      outcome := task.outcome;
    }

    /** The rest of a Capture call once the awaited acquisition has delivered
        `resource`: copy the capture region into the staging texture, release
        the frame, arm the next acquisition, and copy the mapped staging
        texture into a pooled frame between a map and an unmap. The using
        block disposes the resource once it has been copied. */
    method CopyAcquired(resource: Texture, release: CallResult, mapped: seq<byte>)
      returns (delivery: Delivery, frame: ReusableFrame?)
      requires PoolValid()
      requires |mapped| >= ImageBytes(rect.width, rect.height)
      modifies this`task, this`events, this`desktopResource, pool, PoolBuffers()
      ensures PoolValid()
      ensures desktopResource == None
      ensures forall g :: g in old(pool.frames) && g != frame ==> g.imageData[..] == old(g.imageData[..])
      ensures var released := [CopyRegion(resource, rect.Region()), Event.ReleaseFrame];
        if release.Failed? then
          && delivery == Raised(Exception(General, ReleaseFailedMessage))
          && events == old(events) + released && task == old(task)
        else
          && delivery == DeliverCopy(ImageBytes(rect.width, rect.height)).0
          && events == old(events) + released + DeliverCopy(ImageBytes(rect.width, rect.height)).1
          && task == InFlight
      ensures delivery.NewFrame? <==> frame != null
      ensures frame != null ==>
        && frame.width == rect.width && frame.height == rect.height
        && frame.imageData[..] == mapped[..ImageBytes(rect.width, rect.height)]
        && (old(pool.queue) != [] ==>
              frame == old(pool.queue)[0] && pool.queue == old(pool.queue)[1..] && pool.frames == old(pool.frames))
        && (old(pool.queue) == [] ==>
              && fresh(frame) && fresh(frame.imageData)
              && pool.queue == [] && pool.frames == old(pool.frames) + [frame])
      ensures !delivery.NewFrame? ==> pool.queue == old(pool.queue) && pool.frames == old(pool.frames)
      ensures pool.lent == old(pool.lent) && pool.issued == old(pool.issued)
    {
      events := events + [CopyRegion(resource, rect.Region())];
      desktopResource := None;
      var released := ReleaseFrame(release);
      if released.Threw? {
        return Raised(released.error), null;
      }
      BeginAcquireTask();
      events := events + [MapStaging];
      var status;
      frame, status := ProcessFrame(mapped);
      // The finally block unmaps whether or not ProcessFrame threw.
      events := events + [UnmapStaging];
      delivery := if status.Completed? then NewFrame else Raised(status.error);
      ghost var n := ImageBytes(rect.width, rect.height);
      assert events == old(events) + [CopyRegion(resource, rect.Region()), Event.ReleaseFrame]
                       + ([BeginAcquire(AcquireTimeoutMs), MapStaging, PoolGet]
                          + (if n < 0 then [] else [CopyBytes(n)]) + [UnmapStaging]);
    }

    /** One Capture call, with the outcome of the running acquisition, the
        reply to ReleaseFrame and the mapped staging texture as inputs. A
        timeout arms a new acquisition (CaptureStepCorrected); otherwise the
        call is the one written. */
    method Capture(input: Input, mapped: seq<byte>) returns (delivery: Delivery, frame: ReusableFrame?)
      requires Valid()
      requires |mapped| >= ImageBytes(rect.width, rect.height)
      modifies this, pool, PoolBuffers()
      ensures Valid()
      ensures var s := CaptureStepCorrected(old(task), input, rect.Region(), ImageBytes(rect.width, rect.height));
        task == s.task && delivery == s.delivery && events == old(events) + s.events
      // An acquisition that completes while awaited stores its frame information;
      // its resource is disposed once copied.
      ensures old(task).InFlight? && input.pending.Acquired? ==>
        frameInfo == input.pending.info && desktopResource == None
      ensures !(old(task).InFlight? && input.pending.Acquired?) ==>
        frameInfo == old(frameInfo) && desktopResource == old(desktopResource)
      ensures delivery.NewFrame? <==> frame != null
      ensures frame != null ==>
        && frame.width == rect.width && frame.height == rect.height
        && frame.imageData[..] == mapped[..ImageBytes(rect.width, rect.height)]
        && (old(pool.queue) != [] ==>
              frame == old(pool.queue)[0] && pool.queue == old(pool.queue)[1..] && pool.frames == old(pool.frames))
        && (old(pool.queue) == [] ==>
              && fresh(frame) && fresh(frame.imageData)
              && pool.queue == [] && pool.frames == old(pool.frames) + [frame])
      ensures !delivery.NewFrame? ==> pool.queue == old(pool.queue) && pool.frames == old(pool.frames)
      ensures pool.lent == old(pool.lent) && pool.issued == old(pool.issued)
      ensures forall g :: g in old(pool.frames) && g != frame ==> g.imageData[..] == old(g.imageData[..])
    {
      if task.NotStarted? {
        BeginAcquireTask();
        return Repeat, null;
      }
      var outcome := AwaitAcquisition(input.pending);
      match outcome {
        case WaitTimeout =>
          // Arm a new acquisition: the code as written keeps the timed-out
          // task in the slot, and every later call sees its timeout again.
          BeginAcquireTask();
          return Repeat, null;
        case AcquireFailed(_) =>
          return Raised(Exception(General, AcquireFailedMessage)), null;
        case Acquired(_, resource) =>
          if desktopResource.None? {
            // The slot kept an acquisition whose resource was disposed.
            return Raised(NullDereference), null;
          }
          delivery, frame := CopyAcquired(resource, input.release, mapped);
      }
    }
  }

  /** Two Capture calls that both deliver a new frame deliver two different
      frames, as long as no frame waits twice in the pool's queue: each
      delivered buffer has one consumer. */
  method ConsecutiveCapturesDiffer(d: DesktopDuplicator, first: Input, second: Input, mapped: seq<byte>)
    returns (a: ReusableFrame?, b: ReusableFrame?)
    requires d.Valid() && Distinct(d.pool.queue)
    requires |mapped| >= ImageBytes(d.rect.width, d.rect.height)
    modifies d, d.pool, d.PoolBuffers()
    ensures a != null && b != null ==> a != b
  {
    var delivered;
    delivered, a := d.Capture(first, mapped);
    delivered, b := d.Capture(second, mapped);
  }
}
