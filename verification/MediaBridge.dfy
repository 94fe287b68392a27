/** The video side of the media bridge: late-frame drops, keyframe requests, the HDR verdict
    and the statistics window. One decode unit is submitted at a time. */
module MediaBridge {
  import opened Basics
  import opened HevcSps
  import opened FlatBufferPool
  import opened VideoWindow

  datatype Codec = H264 | Hevc | Av1

  datatype LatencyMode = LowestLatency | Balanced | Smoothest

  datatype Settings = Settings(codec: Codec, hdr: bool, fps: nat, latency: LatencyMode)

  /** A decode unit with the two clocks read while it is handled, and whether the sender throws. */
  datatype Frame = Frame(unit: Option<DecodeUnit>, idr: bool, receivedUs: nat, hdrActive: bool, rec2020: bool,
                         nowUs: nat, checkedAtMs: real, sentAtMs: real, sendThrows: bool)

  /** How a submission ended. */
  datatype Kind = Refused | DroppedAsking | Dropped | Invalid | Threw | Sent(forwarded: bool)

  datatype Reply = NeedIdr | Accepted

  function ReplyOf(k: Kind): Reply {
    match k
    case Dropped | Sent(false) => Accepted
    case _ => NeedIdr
  }

  datatype Hdr = Hdr(active: bool, rec2020: bool, main10: bool, complete: bool, failed: bool, handlerCalls: nat)

  datatype Bridge = Bridge(active: bool, configured: bool, started: bool, deadlineUs: nat,
                           idrRequested: bool, waitingForIdr: bool,
                           lateDrops: nat, frames: nat, bytes: nat,
                           hdr: Hdr, hdrDeadlineMs: Option<real>, window: Window)

  const NEW_HDR := Hdr(false, false, false, false, false, 0)
  const NEW_BRIDGE := Bridge(false, false, false, 0, false, false, 0, 0, 0, NEW_HDR, None, EMPTY_WINDOW)

  const TEMPORAL_DELIMITER: seq<byte> := [0x12, 0x00]

  // ------------------------------------------------------- specification

  function DeadlineUs(s: Settings): nat
    requires s.fps > 0
  {
    var interval := 1_000_000.0 / s.fps as real;
    match s.latency
    case LowestLatency => (interval * 1.5).Floor as nat
    case Balanced => (interval * 3.0).Floor as nat
    case Smoothest => 0
  }

  predicate IsLate(b: Bridge, f: Frame) {
    && b.deadlineUs > 0 && f.receivedUs > 0 && f.nowUs > f.receivedUs && !f.idr
    && f.nowUs - f.receivedUs > b.deadlineUs
  }

  /** AV1 units without a temporal delimiter get one put in front. */
  function PrefixFor(codec: Codec, u: DecodeUnit): seq<byte>
    requires forall e | e in u.chain :: Readable(e)
  {
    if codec == Av1 && u.chain != [] && u.chain[0].data.Some? then
      var first := u.chain[0];
      assert Readable(first);
      if first.length >= 2 && first.data.value[..2] == TEMPORAL_DELIMITER then [] else TEMPORAL_DELIMITER
    else []
  }

  function Flattened(codec: Codec, u: DecodeUnit): Option<seq<byte>>
    requires Fits(Some(u))
  {
    if !Rejected(Some(u)) && (forall e | e in u.chain :: Usable(e)) && |Joined(u.chain)| == u.fullLength
    then Some(PrefixFor(codec, u) + Joined(u.chain)) else None
  }

  predicate IsMain10(info: SpsInfo) {
    && info.main10CompatibleProfile && info.chromaFormatIdc == 1
    && info.bitDepthLuma == 10 && info.bitDepthChroma == 10
  }

  function Fail(h: Hdr): Hdr {
    if h.failed then h else h.(failed := true, handlerCalls := h.handlerCalls + 1)
  }

  function Observe(h: Hdr, f: Frame): Hdr {
    h.(active := h.active || f.hdrActive, rec2020 := h.rec2020 || f.rec2020)
  }

  function VerifyMain10(h: Hdr, codec: Codec, bytes: seq<byte>): Hdr {
    if h.main10 then h
    else
      match codec
      case Av1 => h.(main10 := h.active && h.rec2020)
      case Hevc =>
        (match FirstSps(bytes)
         case None => h
         case Some(info) => if IsMain10(info) then h.(main10 := true) else Fail(h))
      case H264 => h
  }

  function Complete10(h: Hdr): Hdr {
    if h.active && h.rec2020 && h.main10 then h.(complete := true) else h
  }

  function CheckHdr(b: Bridge, s: Settings, f: Frame, bytes: seq<byte>): Hdr {
    if !s.hdr || b.hdr.failed then b.hdr
    else
      var h := Complete10(VerifyMain10(Observe(b.hdr, f), s.codec, bytes));
      if !h.complete && b.hdrDeadlineMs.Some? && f.checkedAtMs >= b.hdrDeadlineMs.value then Fail(h) else h
  }

  datatype Submitted = Submitted(bridge: Bridge, kind: Kind)

  ghost predicate FrameFits(f: Frame) { Fits(f.unit) }

  function SubmitFrame(b: Bridge, s: Settings, f: Frame): Submitted
    requires FrameFits(f)
  {
    if !b.active || !b.configured || !b.started || f.unit == None then Submitted(b, Refused)
    else if IsLate(b, f) then
      Submitted(b.(lateDrops := b.lateDrops + 1, waitingForIdr := true),
                if b.waitingForIdr then Dropped else DroppedAsking)
    else
      match Flattened(s.codec, f.unit.value)
      case None => Submitted(b, Invalid)
      case Some(bytes) =>
        var checked := b.(hdr := CheckHdr(b, s, f, bytes));
        if f.sendThrows then Submitted(checked, Threw)
        else
          Submitted(checked.(waitingForIdr := b.idrRequested || (b.waitingForIdr && !f.idr),
                             frames := b.frames + 1, bytes := b.bytes + |bytes|,
                             window := Submit(b.window, f.sentAtMs), idrRequested := false),
                    Sent(b.idrRequested))
  }

  function SetupVideo(b: Bridge, s: Settings, matches: bool): Bridge
    requires s.fps > 0
  {
    if matches then b.(active := true, configured := true, deadlineUs := DeadlineUs(s))
    else b.(active := true, configured := false)
  }

  function StartVideo(b: Bridge, nowMs: real): Bridge {
    if b.active then b.(started := true, hdrDeadlineMs := Some(nowMs + 2000.0)) else b
  }

  function StopVideo(b: Bridge): Bridge { if b.active then b.(started := false) else b }

  function CleanupVideo(b: Bridge): Bridge {
    if b.active then b.(active := false, started := false, configured := false) else b
  }

  // --------------------------------------------------- the bridge as it runs

  class MoonlightMediaBridge {
    const settings: Settings
    var active: bool
    var videoConfigured: bool
    var videoStarted: bool
    var frameDeadlineUs: nat
    var moonlightIdrRequested: bool
    var waitingForMoonlightIdr: bool
    var lateFrameDrops: nat
    var videoFrames: nat
    var videoBytes: nat
    var observedHdrActive: bool
    var observedRec2020: bool
    var main10Verified: bool
    var hdrValidationComplete: bool
    var hdrValidationFailed: bool
    var handlerCalls: nat
    var hdrValidationDeadline: Option<real>
    var lastSubmitTime: Option<real>
    var windowStartTime: Option<real>
    var windowFrameCount: nat
    var windowIntervalSumMs: real
    var windowIntervalSqSumMs: real
    var currentReport: Option<Report>

    ghost function HdrState(): Hdr
      reads this
    {
      Hdr(observedHdrActive, observedRec2020, main10Verified, hdrValidationComplete, hdrValidationFailed, handlerCalls)
    }

    ghost function WindowState(): Window
      reads this
    {
      Window(lastSubmitTime, windowStartTime, windowFrameCount, windowIntervalSumMs, windowIntervalSqSumMs)
    }

    ghost function Abs(): Bridge
      reads this
    {
      Bridge(active, videoConfigured, videoStarted, frameDeadlineUs, moonlightIdrRequested, waitingForMoonlightIdr,
             lateFrameDrops, videoFrames, videoBytes, HdrState(), hdrValidationDeadline, WindowState())
    }

    constructor (settings: Settings)
      ensures this.settings == settings && Abs() == NEW_BRIDGE && currentReport == None
      ensures Abs() == Bridge(false, false, false, 0, false, false, 0, 0, 0, Hdr(false, false, false, false, false, 0),
                              None, Window(None, None, 0, 0.0, 0.0))
    {
      this.settings := settings;
      active, videoConfigured, videoStarted, frameDeadlineUs := false, false, false, 0;
      moonlightIdrRequested, waitingForMoonlightIdr := false, false;
      lateFrameDrops, videoFrames, videoBytes := 0, 0, 0;
      observedHdrActive, observedRec2020, main10Verified := false, false, false;
      hdrValidationComplete, hdrValidationFailed, handlerCalls, hdrValidationDeadline := false, false, 0, None;
      lastSubmitTime, windowStartTime, windowFrameCount := None, None, 0;
      windowIntervalSumMs, windowIntervalSqSumMs, currentReport := 0.0, 0.0, None;
    }

    method OnWebRtcKeyframeRequest()
      modifies this
      ensures Abs() == old(Abs()).(idrRequested := true) && currentReport == old(currentReport)
    {
      moonlightIdrRequested := true;
    }

    method VideoSetup(matches: bool)
      requires settings.fps > 0
      modifies this
      ensures Abs() == SetupVideo(old(Abs()), settings, matches)
    {
      active := true;
      if !matches {
        videoConfigured := false;
        return;
      }
      var interval := 1_000_000.0 / settings.fps as real;
      match settings.latency {
        case LowestLatency => frameDeadlineUs := (interval * 1.5).Floor as nat;
        case Balanced => frameDeadlineUs := (interval * 3.0).Floor as nat;
        case Smoothest => frameDeadlineUs := 0;
      }
      videoConfigured := true;
    }

    method VideoStart(nowMs: real)
      modifies this
      ensures Abs() == StartVideo(old(Abs()), nowMs)
    {
      if active {
        videoStarted := true;
        hdrValidationDeadline := Some(nowMs + 2000.0);
      }
    }

    method VideoStop()
      modifies this
      ensures Abs() == StopVideo(old(Abs()))
    {
      if active {
        videoStarted := false;
      }
    }

    method VideoCleanup()
      modifies this
      ensures Abs() == CleanupVideo(old(Abs()))
    {
      if active {
        active := false;
        videoStarted := false;
        videoConfigured := false;
      }
    }

    method FailHdrValidation()
      modifies `hdrValidationFailed, `handlerCalls
      ensures HdrState() == Fail(old(HdrState()))
    {
      if hdrValidationFailed {
        return;
      }
      hdrValidationFailed := true;
      handlerCalls := handlerCalls + 1;
    }

    /** Main 10 evidence: from the first parameter set for HEVC, from the frame flags for AV1. */
    method ProbeMain10(flattened: seq<byte>)
      modifies `main10Verified, `hdrValidationFailed, `handlerCalls
      ensures HdrState() == VerifyMain10(old(HdrState()), settings.codec, flattened)
    {
      if !main10Verified {
        if settings.codec == Av1 {
          if observedHdrActive && observedRec2020 {
            main10Verified := true;
          }
        } else if settings.codec == Hevc {
          var sps := ParseHevcSps(flattened);
          if sps.Some? {
            if !IsMain10(sps.value) {
              FailHdrValidation();
            } else {
              main10Verified := true;
            }
          }
        }
      }
    }

    method ValidateHdr(f: Frame, flattened: seq<byte>)
      modifies `observedHdrActive, `observedRec2020, `main10Verified, `hdrValidationComplete, `hdrValidationFailed,
               `handlerCalls
      ensures HdrState() == CheckHdr(old(Abs()), settings, f, flattened)
      ensures WindowState() == old(WindowState())
    {
      hide FirstSps, IsMain10, VerifyMain10;
      if settings.hdr && !hdrValidationFailed {
        if f.hdrActive {
          observedHdrActive := true;
        }
        if f.rec2020 {
          observedRec2020 := true;
        }
        ProbeMain10(flattened);
        if observedHdrActive && observedRec2020 && main10Verified && !hdrValidationComplete {
          hdrValidationComplete := true;
        }
        if !hdrValidationComplete && hdrValidationDeadline.Some? && f.checkedAtMs >= hdrValidationDeadline.value {
          FailHdrValidation();
        }
      }
    }

    method RecordFrame(now: real)
      requires settings.fps > 0
      modifies `lastSubmitTime, `windowStartTime, `windowFrameCount, `windowIntervalSumMs, `windowIntervalSqSumMs,
               `currentReport
      ensures WindowState() == Submit(old(WindowState()), now)
      ensures var report := Reported(old(WindowState()), now, settings.fps);
              currentReport == if report.Some? then report else old(currentReport)
    {
      var intervalMs := 0.0;
      if lastSubmitTime.Some? {
        intervalMs := now - lastSubmitTime.value;
      }
      lastSubmitTime := Some(now);
      if windowStartTime == None {
        windowStartTime := Some(now);
      }
      windowFrameCount := windowFrameCount + 1;
      if intervalMs > 0.0 && intervalMs < 1000.0 {
        windowIntervalSumMs := windowIntervalSumMs + intervalMs;
        windowIntervalSqSumMs := windowIntervalSqSumMs + intervalMs * intervalMs;
      }
      var windowElapsed := now - windowStartTime.value;
      if windowElapsed >= 500.0 {
        var avgIntervalMs := if windowFrameCount > 0 && windowIntervalSumMs > 0.0
                             then windowIntervalSumMs / windowFrameCount as real
                             else 1000.0 / settings.fps as real;
        var variance := 0.0;
        if windowFrameCount > 1 {
          variance := windowIntervalSqSumMs / windowFrameCount as real - avgIntervalMs * avgIntervalMs;
        }
        ghost var recorded := Record(old(WindowState()), now);
        assert WindowState() == recorded && avgIntervalMs == Average(recorded, settings.fps);
        assert Report(windowFrameCount, avgIntervalMs, variance) == ReportOf(recorded, settings.fps);
        currentReport := Some(Report(windowFrameCount, avgIntervalMs, variance));
        windowStartTime := Some(now);
        windowFrameCount := 0;
        windowIntervalSumMs := 0.0;
        windowIntervalSqSumMs := 0.0;
      }
    }

    /** The deadline policy: the reply for a frame that is dropped. */
    method DropIfLate(f: Frame) returns (reply: Option<Reply>)
      modifies `lateFrameDrops, `waitingForMoonlightIdr
      ensures reply == if !IsLate(old(Abs()), f) then None
                       else Some(if old(waitingForMoonlightIdr) then Accepted else NeedIdr)
      ensures Abs() == if IsLate(old(Abs()), f)
                       then old(Abs()).(lateDrops := old(lateFrameDrops) + 1, waitingForIdr := true)
                       else old(Abs())
    {
      if frameDeadlineUs > 0 && f.receivedUs > 0 && f.nowUs > f.receivedUs && !f.idr {
        var frameAgeUs := f.nowUs - f.receivedUs;
        if frameAgeUs > frameDeadlineUs {
          lateFrameDrops := lateFrameDrops + 1;
          if !waitingForMoonlightIdr {
            waitingForMoonlightIdr := true;
            return Some(NeedIdr);
          }
          return Some(Accepted);
        }
      }
      return None;
    }

    /** What follows a send that did not throw. */
    method AfterSend(f: Frame, size: nat) returns (reply: Reply)
      requires settings.fps > 0
      modifies `waitingForMoonlightIdr, `videoFrames, `videoBytes, `moonlightIdrRequested, `lastSubmitTime,
               `windowStartTime, `windowFrameCount, `windowIntervalSumMs, `windowIntervalSqSumMs, `currentReport
      ensures HdrState() == old(HdrState())
      ensures waitingForMoonlightIdr <==> old(moonlightIdrRequested) || (old(waitingForMoonlightIdr) && !f.idr)
      ensures videoFrames == old(videoFrames) + 1 && videoBytes == old(videoBytes) + size
      ensures !moonlightIdrRequested && WindowState() == Submit(old(WindowState()), f.sentAtMs)
      ensures var report := Reported(old(WindowState()), f.sentAtMs, settings.fps);
              currentReport == if report.Some? then report else old(currentReport)
      ensures reply == if old(moonlightIdrRequested) then NeedIdr else Accepted
    {
      hide Submit, Reported;
      if f.idr {
        waitingForMoonlightIdr := false;
      }
      videoFrames := videoFrames + 1;
      videoBytes := videoBytes + size;
      RecordFrame(f.sentAtMs);
      if moonlightIdrRequested {
        moonlightIdrRequested := false;
        waitingForMoonlightIdr := true;
        return NeedIdr;
      }
      return Accepted;
    }

    /** A frame that is not dropped: flatten, validate, send, count. */
    method SendFrame(f: Frame) returns (reply: Reply)
      requires FrameFits(f) && settings.fps > 0 && !IsRefused(Abs(), f) && !IsLate(Abs(), f)
      modifies this
      ensures Abs() == SubmitFrame(old(Abs()), settings, f).bridge
      ensures reply == ReplyOf(SubmitFrame(old(Abs()), settings, f).kind)
    {
      hide SubmitFrame, CheckHdr, Submit, Flattened, IsLate, Reported, Fits, HdrState, WindowState;
      var flattened := Flattened(settings.codec, f.unit.value);
      ghost var b := Abs();
      FlattenedFrame(b, settings, f);
      reply := NeedIdr;
      if flattened.Some? {
        ValidateHdr(f, flattened.value);
        assert Abs() == b.(hdr := CheckHdr(b, settings, f, flattened.value));
        if !f.sendThrows {
          reply := AfterSend(f, |flattened.value|);
        }
      }
    }

    /** The submit callback: a reply, and the whole new state. */
    method SubmitVideo(f: Frame) returns (reply: Reply)
      requires FrameFits(f) && settings.fps > 0
      modifies this
      ensures Abs() == SubmitFrame(old(Abs()), settings, f).bridge
      ensures reply == ReplyOf(SubmitFrame(old(Abs()), settings, f).kind)
      ensures reply == NeedIdr <==>
                || !old(active) || !old(videoConfigured) || !old(videoStarted) || f.unit == None
                || (IsLate(old(Abs()), f) && !old(waitingForMoonlightIdr))
                || (!IsLate(old(Abs()), f)
                    && (!Complete(f.unit) || f.sendThrows || old(moonlightIdrRequested)))
    {
      hide SubmitFrame, IsLate, Fits, HdrState, WindowState;
      RepliesBySight(Abs(), settings, f);
      if !active || !videoConfigured || !videoStarted || f.unit == None {
        RefusedFrame(Abs(), settings, f);
        return NeedIdr;
      }
      ghost var b := Abs();
      var dropped := DropIfLate(f);
      if dropped.Some? {
        LateFrame(b, settings, f);
        return dropped.value;
      }
      reply := SendFrame(f);
    }
  }

  predicate IsRefused(b: Bridge, f: Frame) { !b.active || !b.configured || !b.started || f.unit == None }

  lemma RefusedFrame(b: Bridge, s: Settings, f: Frame)
    requires FrameFits(f) && IsRefused(b, f)
    ensures SubmitFrame(b, s, f) == Submitted(b, Refused)
  {}

  lemma LateFrame(b: Bridge, s: Settings, f: Frame)
    requires FrameFits(f) && !IsRefused(b, f) && IsLate(b, f)
    ensures SubmitFrame(b, s, f) == Submitted(b.(lateDrops := b.lateDrops + 1, waitingForIdr := true),
                                              if b.waitingForIdr then Dropped else DroppedAsking)
  {}

  lemma FlattenedFrame(b: Bridge, s: Settings, f: Frame)
    requires FrameFits(f) && !IsRefused(b, f) && !IsLate(b, f)
    ensures SubmitFrame(b, s, f) ==
            match Flattened(s.codec, f.unit.value)
            case None => Submitted(b, Invalid)
            case Some(bytes) =>
              var checked := b.(hdr := CheckHdr(b, s, f, bytes));
              if f.sendThrows then Submitted(checked, Threw)
              else
                Submitted(checked.(waitingForIdr := b.idrRequested || (b.waitingForIdr && !f.idr),
                                   frames := b.frames + 1, bytes := b.bytes + |bytes|,
                                   window := Submit(b.window, f.sentAtMs), idrRequested := false),
                          Sent(b.idrRequested))
  {
    hide CheckHdr, Submit, Flattened, IsLate;
  }

  /** The reply without the outcome in between. */
  lemma RepliesBySight(b: Bridge, s: Settings, f: Frame)
    requires FrameFits(f)
    ensures ReplyOf(SubmitFrame(b, s, f).kind) == NeedIdr <==>
            || IsRefused(b, f)
            || (IsLate(b, f) && !b.waitingForIdr)
            || (!IsLate(b, f) && (!Complete(f.unit) || f.sendThrows || b.idrRequested))
  {
    hide CheckHdr, Submit, IsLate, PrefixFor, Joined;
  }
}
