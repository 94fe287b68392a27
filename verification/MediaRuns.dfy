/** What holds over every run of the media bridge: drops, keyframe requests, counters and the
    HDR verdict, for any interleaving of submissions, requests and renderer callbacks. */
module MediaRuns {
  import opened Basics
  import opened HevcSps
  import opened FlatBufferPool
  import opened VideoWindow
  import opened MediaBridge

  datatype Event =
    | Submission(frame: Frame)
    | KeyframeRequest
    | Setup(matches: bool)
    | Start(nowMs: real)
    | Stop
    | Cleanup

  ghost predicate EventFits(e: Event) { e.Submission? ==> FrameFits(e.frame) }

  ghost function Step(b: Bridge, s: Settings, e: Event): Bridge
    requires EventFits(e) && s.fps > 0
  {
    match e
    case Submission(f) => SubmitFrame(b, s, f).bridge
    case KeyframeRequest => b.(idrRequested := true)
    case Setup(matches) => SetupVideo(b, s, matches)
    case Start(now) => StartVideo(b, now)
    case Stop => StopVideo(b)
    case Cleanup => CleanupVideo(b)
  }

  ghost predicate IsRun(states: seq<Bridge>, s: Settings, events: seq<Event>) {
    && s.fps > 0 && |states| == |events| + 1 && states[0] == NEW_BRIDGE
    && forall k | 0 <= k < |events| :: EventFits(events[k]) && states[k + 1] == Step(states[k], s, events[k])
  }

  /** How the k-th event ended, when it is a submission. */
  ghost function KindAt(states: seq<Bridge>, s: Settings, events: seq<Event>, k: nat): Option<Kind>
    requires IsRun(states, s, events) && k < |events|
  {
    if events[k].Submission? then Some(SubmitFrame(states[k], s, events[k].frame).kind) else None
  }

  ghost predicate SentAt(states: seq<Bridge>, s: Settings, events: seq<Event>, k: nat)
    requires IsRun(states, s, events) && k < |events|
  {
    KindAt(states, s, events, k).Some? && KindAt(states, s, events, k).value.Sent?
  }

  // ----------------------------------------------------------- one frame

  /** A submission that reaches the drop policy is exactly one of dropped, invalid, thrown and
      sent, by what the caller can see; an IDR frame is never dropped. */
  lemma KindIsDecidedByTheFrame(b: Bridge, s: Settings, f: Frame)
    requires FrameFits(f) && !IsRefused(b, f)
    ensures var kind := SubmitFrame(b, s, f).kind;
            var late := b.deadlineUs > 0 && 0 < f.receivedUs && f.receivedUs + b.deadlineUs < f.nowUs;
            && ((kind == Dropped || kind == DroppedAsking) <==> late && !f.idr)
            && (kind == DroppedAsking <==> late && !f.idr && !b.waitingForIdr)
            && (kind == Invalid <==> !(late && !f.idr) && !Complete(f.unit))
            && (kind == Threw <==> !(late && !f.idr) && Complete(f.unit) && f.sendThrows)
            && (kind.Sent? <==> !(late && !f.idr) && Complete(f.unit) && !f.sendThrows)
            && kind != Refused
  {
    hide CheckHdr, Submit, PrefixFor, Joined;
  }

  // ------------------------------------------------------ late-drop protocol

  lemma WaitingEndsOnlyWithSentIdr(b: Bridge, s: Settings, e: Event)
    requires EventFits(e) && s.fps > 0 && b.waitingForIdr && !Step(b, s, e).waitingForIdr
    ensures e.Submission? && e.frame.idr && SubmitFrame(b, s, e.frame).kind == Sent(false)
  {
    hide CheckHdr, Submit, Flattened, FrameFits;
  }

  lemma {:induction false} WaitingUntilSentIdr(states: seq<Bridge>, s: Settings, events: seq<Event>, i: nat, j: nat)
    returns (k: nat)
    requires IsRun(states, s, events) && i <= j < |states|
    requires states[i].waitingForIdr && !states[j].waitingForIdr
    ensures i <= k < j && SentAt(states, s, events, k) && events[k].frame.idr
    decreases j
  {
    hide Step, EventFits;
    if states[j - 1].waitingForIdr {
      k := j - 1;
      assert states[k + 1] == Step(states[k], s, events[k]);
      WaitingEndsOnlyWithSentIdr(states[k], s, events[k]);
    } else {
      k := WaitingUntilSentIdr(states, s, events, i, j - 1);
    }
  }

  lemma AskingSetsWaiting(b: Bridge, s: Settings, f: Frame)
    requires FrameFits(f) && SubmitFrame(b, s, f).kind == DroppedAsking
    ensures !b.waitingForIdr && SubmitFrame(b, s, f).bridge.waitingForIdr
  {
    hide CheckHdr, Submit, Flattened, FrameFits;
  }

  /** Between two requests for an IDR made by the drop policy, an IDR frame was sent. */
  lemma DropRequestsAreSeparatedByIdr(states: seq<Bridge>, s: Settings, events: seq<Event>, i: nat, j: nat)
    returns (k: nat)
    requires IsRun(states, s, events) && i < j < |events|
    requires KindAt(states, s, events, i) == KindAt(states, s, events, j) == Some(DroppedAsking)
    ensures i < k < j && SentAt(states, s, events, k) && events[k].frame.idr
  {
    hide SubmitFrame, EventFits;
    assert EventFits(events[i]) && EventFits(events[j]);
    EventHasFittingFrame(events[i]);
    EventHasFittingFrame(events[j]);
    AskingSetsWaiting(states[i], s, events[i].frame);
    AskingSetsWaiting(states[j], s, events[j].frame);
    assert states[i + 1] == Step(states[i], s, events[i]);
    k := WaitingUntilSentIdr(states, s, events, i + 1, j);
  }

  lemma EventHasFittingFrame(e: Event)
    requires EventFits(e) && e.Submission?
    ensures FrameFits(e.frame)
  {}

  // ---------------------------------------------------------- keyframe requests

  /** A request is pending: one was made since the last completed send. */
  ghost predicate RequestedSinceSend(states: seq<Bridge>, s: Settings, events: seq<Event>, j: nat)
    requires IsRun(states, s, events) && j <= |events|
  {
    exists i | 0 <= i < j ::
      events[i] == KeyframeRequest && forall k | i < k < j :: !SentAt(states, s, events, k)
  }

  lemma PendingAfter(b: Bridge, s: Settings, e: Event)
    requires EventFits(e) && s.fps > 0
    ensures Step(b, s, e).idrRequested <==>
            e == KeyframeRequest
            || (b.idrRequested && !(e.Submission? && SubmitFrame(b, s, e.frame).kind.Sent?))
  {
    hide CheckHdr, Submit, Flattened, FrameFits;
  }

  lemma {:induction false} PendingIffRequested(states: seq<Bridge>, s: Settings, events: seq<Event>, j: nat)
    requires IsRun(states, s, events) && j <= |events|
    ensures states[j].idrRequested <==> RequestedSinceSend(states, s, events, j)
  {
    hide Step, SubmitFrame, EventFits;
    if j > 0 {
      PendingIffRequested(states, s, events, j - 1);
      assert states[(j - 1) + 1] == Step(states[j - 1], s, events[j - 1]);
      PendingAfter(states[j - 1], s, events[j - 1]);
      RequestedStep(states, s, events, j);
    }
  }

  lemma RequestedStep(states: seq<Bridge>, s: Settings, events: seq<Event>, j: nat)
    requires IsRun(states, s, events) && 0 < j <= |events|
    ensures RequestedSinceSend(states, s, events, j) <==>
            events[j - 1] == KeyframeRequest
            || (RequestedSinceSend(states, s, events, j - 1) && !SentAt(states, s, events, j - 1))
  {
    hide IsRun, SentAt;
    if RequestedSinceSend(states, s, events, j) {
      var i :| 0 <= i < j && events[i] == KeyframeRequest && forall k | i < k < j :: !SentAt(states, s, events, k);
      if i < j - 1 {
        assert !SentAt(states, s, events, j - 1);
        assert events[i] == KeyframeRequest && forall k | i < k < j - 1 :: !SentAt(states, s, events, k);
      }
    }
    if events[j - 1] != KeyframeRequest && RequestedSinceSend(states, s, events, j - 1)
       && !SentAt(states, s, events, j - 1) {
      var i :| 0 <= i < j - 1 && events[i] == KeyframeRequest
               && forall k | i < k < j - 1 :: !SentAt(states, s, events, k);
      assert forall k | i < k < j :: !SentAt(states, s, events, k);
    }
  }

  lemma ForwardedIffPending(b: Bridge, s: Settings, f: Frame)
    requires FrameFits(f) && SubmitFrame(b, s, f).kind.Sent?
    ensures SubmitFrame(b, s, f).kind == Sent(b.idrRequested)
  {
    hide CheckHdr, Submit, Flattened, FrameFits;
  }

  /** A completed send forwards a request exactly when one was made since the previous completed
      send: requests survive drops, invalid units and failed sends, and are forwarded once. */
  lemma SendForwardsPendingRequest(states: seq<Bridge>, s: Settings, events: seq<Event>, j: nat)
    requires IsRun(states, s, events) && j < |events| && SentAt(states, s, events, j)
    ensures KindAt(states, s, events, j) == Some(Sent(RequestedSinceSend(states, s, events, j)))
  {
    hide SubmitFrame, RequestedSinceSend;
    assert EventFits(events[j]);
    PendingIffRequested(states, s, events, j);
    ForwardedIffPending(states[j], s, events[j].frame);
  }

  // ----------------------------------------------------------------- counters

  ghost function CountDrops(states: seq<Bridge>, s: Settings, events: seq<Event>, j: nat): nat
    requires IsRun(states, s, events) && j <= |events|
  {
    if j == 0 then 0
    else
      CountDrops(states, s, events, j - 1)
      + if KindAt(states, s, events, j - 1) in {Some(Dropped), Some(DroppedAsking)} then 1 else 0
  }

  ghost function CountSent(states: seq<Bridge>, s: Settings, events: seq<Event>, j: nat): nat
    requires IsRun(states, s, events) && j <= |events|
  {
    if j == 0 then 0
    else CountSent(states, s, events, j - 1) + if SentAt(states, s, events, j - 1) then 1 else 0
  }

  /** The bytes of a sent unit: its payload, and the delimiter put in front of some AV1 units. */
  ghost function BytesSent(states: seq<Bridge>, s: Settings, events: seq<Event>, j: nat): nat
    requires IsRun(states, s, events) && j <= |events|
  {
    if j == 0 then 0
    else
      BytesSent(states, s, events, j - 1)
      + if SentAt(states, s, events, j - 1) then SizeOf(s, events[j - 1]) else 0
  }

  ghost function SizeOf(s: Settings, e: Event): nat
    requires EventFits(e)
  {
    if e.Submission? && e.frame.unit.Some? then
      var u := e.frame.unit.value;
      |PrefixFor(s.codec, u)| + (if u.fullLength > 0 then u.fullLength else 0)
    else 0
  }

  lemma CountersAfter(b: Bridge, s: Settings, e: Event)
    requires EventFits(e) && s.fps > 0
    ensures var t := Step(b, s, e);
            var kind := if e.Submission? then Some(SubmitFrame(b, s, e.frame).kind) else None;
            && t.lateDrops == b.lateDrops + (if kind in {Some(Dropped), Some(DroppedAsking)} then 1 else 0)
            && t.frames == b.frames + (if kind.Some? && kind.value.Sent? then 1 else 0)
            && t.bytes == b.bytes + (if kind.Some? && kind.value.Sent? then SizeOf(s, e) else 0)
  {
    hide CheckHdr, Submit, IsLate, PrefixFor, Joined;
  }

  lemma {:induction false} CountersMatchKinds(states: seq<Bridge>, s: Settings, events: seq<Event>, j: nat)
    requires IsRun(states, s, events) && j <= |events|
    ensures states[j].lateDrops == CountDrops(states, s, events, j)
    ensures states[j].frames == CountSent(states, s, events, j)
    ensures states[j].bytes == BytesSent(states, s, events, j)
  {
    hide Step, SubmitFrame, EventFits, SizeOf;
    if j > 0 {
      CountersMatchKinds(states, s, events, j - 1);
      assert states[(j - 1) + 1] == Step(states[j - 1], s, events[j - 1]);
      CountersAfter(states[j - 1], s, events[j - 1]);
    }
  }

  // -------------------------------------------------------------- HDR verdict

  /** The verdict so far: never both passed and failed, the handler told exactly of a failure,
      and passed only with all three pieces of evidence. */
  ghost predicate VerdictOk(h: Hdr) {
    && !(h.complete && h.failed)
    && h.handlerCalls == (if h.failed then 1 else 0)
    && (h.complete ==> h.active && h.rec2020 && h.main10)
  }

  lemma CheckKeepsVerdict(b: Bridge, s: Settings, f: Frame, bytes: seq<byte>)
    requires VerdictOk(b.hdr)
    ensures VerdictOk(CheckHdr(b, s, f, bytes))
    ensures b.hdr.failed ==> CheckHdr(b, s, f, bytes) == b.hdr
    ensures b.hdr.complete ==> CheckHdr(b, s, f, bytes).complete
  {
    hide FirstSps;
  }

  lemma {:induction false} VerdictIsSound(states: seq<Bridge>, s: Settings, events: seq<Event>, j: nat)
    requires IsRun(states, s, events) && j <= |events|
    ensures VerdictOk(states[j].hdr)
  {
    hide CheckHdr, Submit, Flattened, IsLate;
    if j > 0 {
      VerdictIsSound(states, s, events, j - 1);
      assert states[(j - 1) + 1] == Step(states[j - 1], s, events[j - 1]);
      VerdictStep(states[j - 1], s, events[j - 1]);
    }
  }

  lemma HdrAfter(b: Bridge, s: Settings, e: Event)
    requires EventFits(e) && s.fps > 0
    ensures Step(b, s, e).hdr == b.hdr
            || (e.Submission? && e.frame.unit.Some? && Flattened(s.codec, e.frame.unit.value).Some?
                && Step(b, s, e).hdr == CheckHdr(b, s, e.frame, Flattened(s.codec, e.frame.unit.value).value))
  {
    hide CheckHdr, Submit, Flattened, IsLate;
  }

  lemma VerdictStep(b: Bridge, s: Settings, e: Event)
    requires EventFits(e) && s.fps > 0 && VerdictOk(b.hdr)
    ensures VerdictOk(Step(b, s, e).hdr)
    ensures b.hdr.failed ==> Step(b, s, e).hdr == b.hdr
    ensures b.hdr.complete ==> Step(b, s, e).hdr.complete
  {
    hide CheckHdr, Flattened, Step, VerdictOk;
    HdrAfter(b, s, e);
    if Step(b, s, e).hdr != b.hdr {
      CheckKeepsVerdict(b, s, e.frame, Flattened(s.codec, e.frame.unit.value).value);
    }
  }

  /** The verdict, once given, stands. */
  lemma {:induction false} VerdictStands(states: seq<Bridge>, s: Settings, events: seq<Event>, i: nat, j: nat)
    requires IsRun(states, s, events) && i <= j < |states|
    ensures states[i].hdr.failed ==> states[j].hdr == states[i].hdr
    ensures states[i].hdr.complete ==> states[j].hdr.complete && !states[j].hdr.failed
    decreases j
  {
    hide Step, EventFits;
    VerdictIsSound(states, s, events, j);
    if i < j {
      VerdictStands(states, s, events, i, j - 1);
      VerdictIsSound(states, s, events, j - 1);
      assert states[(j - 1) + 1] == Step(states[j - 1], s, events[j - 1]);
      VerdictStep(states[j - 1], s, events[j - 1]);
    }
  }

  /** The bytes a submission hands to validation, if it gets that far. */
  ghost function Validated(b: Bridge, s: Settings, e: Event): Option<seq<byte>>
    requires EventFits(e)
  {
    if e.Submission? && !IsRefused(b, e.frame) && !IsLate(b, e.frame) then Flattened(s.codec, e.frame.unit.value)
    else None
  }

  lemma HdrAfterExactly(b: Bridge, s: Settings, e: Event)
    requires EventFits(e) && s.fps > 0
    ensures Step(b, s, e).hdr == match Validated(b, s, e)
                                 case None => b.hdr
                                 case Some(bytes) => CheckHdr(b, s, e.frame, bytes)
    ensures Validated(b, s, e).Some? ==> e.Submission?
  {
    hide CheckHdr, Submit, Flattened, IsLate;
  }

  /** What a stream can show for itself. */
  datatype Evidence = HdrActive | Rec2020 | Main10Set

  ghost predicate Shows(s: Settings, f: Frame, bytes: seq<byte>, what: Evidence) {
    match what
    case HdrActive => f.hdrActive
    case Rec2020 => f.rec2020
    case Main10Set => s.codec == Hevc && FirstSps(bytes).Some? && IsMain10(FirstSps(bytes).value)
  }

  /** Some unit validated before event j showed it. */
  ghost predicate Seen(states: seq<Bridge>, s: Settings, events: seq<Event>, j: nat, what: Evidence)
    requires IsRun(states, s, events) && j <= |events|
  {
    j > 0
    && (Seen(states, s, events, j - 1, what)
        || (Validated(states[j - 1], s, events[j - 1]).Some?
            && Shows(s, events[j - 1].frame, Validated(states[j - 1], s, events[j - 1]).value, what)))
  }

  lemma EvidenceAfter(b: Bridge, s: Settings, f: Frame, bytes: seq<byte>)
    requires s.hdr && !CheckHdr(b, s, f, bytes).failed
    requires s.codec == Av1 ==> (b.hdr.main10 <==> b.hdr.active && b.hdr.rec2020)
    ensures var h := CheckHdr(b, s, f, bytes);
            && !b.hdr.failed
            && (h.active <==> b.hdr.active || Shows(s, f, bytes, HdrActive))
            && (h.rec2020 <==> b.hdr.rec2020 || Shows(s, f, bytes, Rec2020))
            && (s.codec == Hevc ==> (h.main10 <==> b.hdr.main10 || Shows(s, f, bytes, Main10Set)))
            && (s.codec == Av1 ==> (h.main10 <==> h.active && h.rec2020))
            && (h.complete <==> b.hdr.complete || (h.active && h.rec2020 && h.main10))
  {
    hide FirstSps, IsMain10;
  }

  lemma {:induction false} FlagsAreEvidence(states: seq<Bridge>, s: Settings, events: seq<Event>, j: nat)
    requires IsRun(states, s, events) && j <= |events| && s.hdr && !states[j].hdr.failed
    ensures var h := states[j].hdr;
            && (h.active <==> Seen(states, s, events, j, HdrActive))
            && (h.rec2020 <==> Seen(states, s, events, j, Rec2020))
            && (s.codec == Hevc ==> (h.main10 <==> Seen(states, s, events, j, Main10Set)))
            && (s.codec == Av1 ==> (h.main10 <==> h.active && h.rec2020))
            && (h.complete ==> h.active && h.rec2020 && h.main10)
            && (h.active && h.rec2020 && h.main10 ==> h.complete)
  {
    hide Step, EventFits, Validated, Shows, CheckHdr;
    VerdictIsSound(states, s, events, j);
    if j > 0 {
      var b, e := states[j - 1], events[j - 1];
      assert states[(j - 1) + 1] == Step(b, s, e);
      HdrAfterExactly(b, s, e);
      VerdictStands(states, s, events, j - 1, j);
      FlagsAreEvidence(states, s, events, j - 1);
      match Validated(b, s, e)
      case None =>
      case Some(bytes) => EvidenceAfter(b, s, e.frame, bytes);
    }
  }

  /** While no failure is recorded, an HDR stream has passed exactly when the units validated so
      far have shown the HDR flag, Rec. 2020, and for HEVC a Main 10 4:2:0 parameter set as the
      first set of some unit. */
  lemma PassedExactlyWithEvidence(states: seq<Bridge>, s: Settings, events: seq<Event>, j: nat)
    requires IsRun(states, s, events) && j <= |events| && s.hdr && s.codec != H264 && !states[j].hdr.failed
    ensures states[j].hdr.complete <==>
            && Seen(states, s, events, j, HdrActive) && Seen(states, s, events, j, Rec2020)
            && (s.codec == Hevc ==> Seen(states, s, events, j, Main10Set))
  {
    hide IsRun, Seen;
    FlagsAreEvidence(states, s, events, j);
  }

  /** A failure has one of two causes: a first parameter set that is not Main 10 4:2:0 before any
      was, or incomplete evidence at or after the deadline. */
  lemma FailureHasACause(b: Bridge, s: Settings, f: Frame, bytes: seq<byte>)
    requires VerdictOk(b.hdr) && !b.hdr.failed && CheckHdr(b, s, f, bytes).failed
    ensures s.hdr && !CheckHdr(b, s, f, bytes).complete
    ensures || (s.codec == Hevc && !b.hdr.main10 && FirstSps(bytes).Some? && !IsMain10(FirstSps(bytes).value))
            || (b.hdrDeadlineMs.Some? && f.checkedAtMs >= b.hdrDeadlineMs.value)
  {
    hide FirstSps, IsMain10;
  }

  // ------------------------------------------------------------ the deadline

  lemma FloorOfQuotient(n: real, d: nat)
    requires n >= 0.0 && d > 0
    ensures var q := (n / d as real).Floor;
            q >= 0 && (q * d) as real <= n < ((q + 1) * d) as real
  {
    var x := n / d as real;
    var q := x.Floor;
    assert q as real <= x < (q + 1) as real;
    QuotientTimes(n, d as real);
    ProductBelow(q, x, d, n);
    ProductAbove(q + 1, x, d, n);
  }

  lemma ProductBelow(q: int, x: real, d: nat, n: real)
    requires d > 0 && q as real <= x && x * d as real == n
    ensures (q * d) as real <= n
  {
    Scale(q as real, x, d as real);
    ProductAsReal(q, d);
  }

  lemma ProductAbove(q: int, x: real, d: nat, n: real)
    requires d > 0 && x < q as real && x * d as real == n
    ensures n < (q * d) as real
  {
    Scale(x, q as real, d as real);
    ProductAsReal(q, d);
  }

  lemma QuotientTimes(n: real, d: real)
    requires d > 0.0
    ensures n / d * d == n && (n >= 0.0 ==> n / d >= 0.0)
  {}

  lemma ProductAsReal(a: int, b: int)
    ensures (a * b) as real == a as real * b as real
  {}

  lemma Scale(a: real, b: real, d: real)
    requires d > 0.0
    ensures a <= b ==> a * d <= b * d
    ensures a < b ==> a * d < b * d
  {}

  /** The deadline is one and a half or three frame intervals, cut to whole microseconds; in the
      smoothest mode there is none, and no frame is ever late. */
  lemma DeadlineIsInFrameIntervals(s: Settings)
    requires s.fps > 0
    ensures var d := DeadlineUs(s);
            match s.latency
            case LowestLatency => d * s.fps <= 1_500_000 < (d + 1) * s.fps
            case Balanced => d * s.fps <= 3_000_000 < (d + 1) * s.fps
            case Smoothest => d == 0
    ensures s.latency == Smoothest ==>
              forall b: Bridge, f: Frame :: !IsLate(SetupVideo(b, s, true), f)
  {
    var interval := 1_000_000.0 / s.fps as real;
    FloorOfQuotient(1_500_000.0, s.fps);
    FloorOfQuotient(3_000_000.0, s.fps);
    assert interval * 1.5 == 1_500_000.0 / s.fps as real;
    assert interval * 3.0 == 3_000_000.0 / s.fps as real;
  }

  // --------------------------------------------------- the statistics window

  /** In every reachable state the window's sums are those of at most one interval a frame. */
  lemma {:induction false} WindowHoldsIntervals(states: seq<Bridge>, s: Settings, events: seq<Event>, j: nat)
    returns (xs: seq<real>)
    requires IsRun(states, s, events) && j <= |events|
    ensures Holds(states[j].window, xs)
  {
    hide Step, EventFits, Holds;
    if j == 0 {
      xs := [];
      NothingHeld();
    } else {
      xs := WindowHoldsIntervals(states, s, events, j - 1);
      assert states[(j - 1) + 1] == Step(states[j - 1], s, events[j - 1]);
      WindowAfter(states[j - 1], s, events[j - 1]);
      if states[j].window != states[j - 1].window {
        var now := events[j - 1].frame.sentAtMs;
        var ys := SubmitHolds(states[j - 1].window, xs, now);
        xs := if Closes(Record(states[j - 1].window, now), now) then [] else ys;
      }
    }
  }

  lemma NothingHeld()
    ensures Holds(EMPTY_WINDOW, [])
  {}

  lemma WindowAfter(b: Bridge, s: Settings, e: Event)
    requires EventFits(e) && s.fps > 0
    ensures Step(b, s, e).window == b.window
            || (e.Submission? && Step(b, s, e).window == Submit(b.window, e.frame.sentAtMs))
  {
    hide CheckHdr, Submit, Flattened, IsLate;
  }

  /** Every report published in a run: its variance is negative only if the window had no
      interval at all, and the running sums obey Cauchy-Schwarz. */
  lemma ReportsAreSound(states: seq<Bridge>, s: Settings, events: seq<Event>, j: nat)
    returns (ys: seq<real>)
    requires IsRun(states, s, events) && j < |events| && SentAt(states, s, events, j)
    ensures var w := Record(states[j].window, events[j].frame.sentAtMs);
            && Holds(w, ys) && w.frames > 0
            && w.sum * w.sum <= (w.frames as real) * w.squares
            && (Variance(w, s.fps) >= 0.0 <==> ys != [])
  {
    hide Step, EventFits, Holds, Variance, Record;
    var xs := WindowHoldsIntervals(states, s, events, j);
    ys := RecordedWindowIsSound(states[j].window, xs, events[j].frame.sentAtMs, s.fps);
  }

  lemma RecordedWindowIsSound(w: Window, xs: seq<real>, now: real, fps: nat) returns (ys: seq<real>)
    requires Holds(w, xs) && fps > 0
    ensures var r := Record(w, now);
            && Holds(r, ys) && r.frames > 0
            && r.sum * r.sum <= (r.frames as real) * r.squares
            && (Variance(r, fps) >= 0.0 <==> ys != [])
  {
    hide *;
    ys := SubmitHolds(w, xs, now);
    RecordCountsFrame(w, now);
    VarianceIsMeanSquareDistance(Record(w, now), ys, fps);
    SumsSatisfyCauchySchwarz(Record(w, now), ys);
  }

  lemma RecordCountsFrame(w: Window, now: real)
    ensures Record(w, now).frames == w.frames + 1
  {}

  // ------------------------------------------------- when frames may be sent

  /** The last renderer callback that touched the started flag was a start. */
  ghost predicate StartedSince(events: seq<Event>, i: nat, j: nat) {
    i < j <= |events| && events[i].Start? && forall k | i < k < j :: events[k] != Stop && events[k] != Cleanup
  }

  lemma FlagsAfter(b: Bridge, s: Settings, e: Event)
    requires EventFits(e) && s.fps > 0 && (b.started || b.configured ==> b.active)
    ensures var t := Step(b, s, e);
            && (t.started || t.configured ==> t.active)
            && (t.started ==> e.Start? || (b.started && e != Stop && e != Cleanup))
            && (t.configured ==> e == Setup(true) || (b.configured && e != Setup(false) && e != Cleanup))
            && t.hdrDeadlineMs == (if e.Start? && b.active then Some(e.nowMs + 2000.0) else b.hdrDeadlineMs)
  {
    hide CheckHdr, Submit, Flattened, IsLate;
  }

  lemma {:induction false} FlagsFollowCallbacks(states: seq<Bridge>, s: Settings, events: seq<Event>, j: nat)
    returns (i: nat, c: nat)
    requires IsRun(states, s, events) && j <= |events|
    ensures states[j].started || states[j].configured ==> states[j].active
    ensures states[j].started ==> StartedSince(events, i, j)
    ensures states[j].configured ==>
              c < j && events[c] == Setup(true)
              && forall k | c < k < j :: events[k] != Setup(false) && events[k] != Cleanup
  {
    hide Step, EventFits;
    i, c := 0, 0;
    if j > 0 {
      i, c := FlagsFollowCallbacks(states, s, events, j - 1);
      assert states[(j - 1) + 1] == Step(states[j - 1], s, events[j - 1]);
      FlagsAfter(states[j - 1], s, events[j - 1]);
      if events[j - 1].Start? { i := j - 1; }
      if events[j - 1] == Setup(true) { c := j - 1; }
    }
  }

  /** A frame is sent only after an accepted setup and a start that no rejected setup, stop or
      cleanup has undone. */
  lemma FramesNeedSetupAndStart(states: seq<Bridge>, s: Settings, events: seq<Event>, j: nat)
    returns (i: nat, c: nat)
    requires IsRun(states, s, events) && j < |events| && SentAt(states, s, events, j)
    ensures StartedSince(events, i, j)
    ensures c < j && events[c] == Setup(true)
    ensures forall k | c < k < j :: events[k] != Setup(false) && events[k] != Cleanup
  {
    hide StartedSince, IsRun, CheckHdr, Submit, Flattened, IsLate;
    i, c := FlagsFollowCallbacks(states, s, events, j);
  }

  /** The HDR deadline in force is two seconds after some start, so a timeout cannot come earlier. */
  lemma {:induction false} HdrDeadlineIsTwoSecondsAfterStart(states: seq<Bridge>, s: Settings,
                                                             events: seq<Event>, j: nat)
    returns (i: nat)
    requires IsRun(states, s, events) && j <= |events| && states[j].hdrDeadlineMs.Some?
    ensures i < j && events[i].Start? && states[j].hdrDeadlineMs == Some(events[i].nowMs + 2000.0)
    ensures forall k | i < k < j && events[k].Start? :: !states[k].active
  {
    hide Step, EventFits;
    if j > 0 {
      var b, e := states[j - 1], events[j - 1];
      assert states[(j - 1) + 1] == Step(b, s, e);
      var f, c := FlagsFollowCallbacks(states, s, events, j - 1);
      FlagsAfter(b, s, e);
      if e.Start? && b.active {
        i := j - 1;
      } else {
        i := HdrDeadlineIsTwoSecondsAfterStart(states, s, events, j - 1);
      }
    }
  }
}
