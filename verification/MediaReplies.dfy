/** What the media bridge answers, forwards and concludes, in terms a caller can see: the reply
    to each decode unit, the bytes handed on, and the Main 10 verdict. */
module MediaReplies {
  import opened Basics
  import opened BitStream
  import opened AnnexB
  import opened HevcSps
  import SpsEncoding
  import opened FlatBufferPool
  import opened MediaBridge
  import opened MediaRuns

  // --------------------------------------------------------- whole units

  /** Every entry has data, and the entries add up to the length the unit declares. */
  ghost predicate Whole(u: DecodeUnit) {
    && u.chain != [] && (forall e | e in u.chain :: e.data.Some? && e.length > 0)
    && LengthBefore(u.chain, |u.chain|) == u.fullLength
  }

  lemma {:induction false} JoinedLength(chain: seq<Entry>)
    requires forall e | e in chain :: Readable(e) && Usable(e)
    ensures |Joined(chain)| == LengthBefore(chain, |chain|) && (chain != [] ==> LengthBefore(chain, |chain|) > 0)
  {
    if chain != [] {
      assert chain[0] in chain && forall e | e in chain[1..] :: e in chain;
      JoinedLength(chain[1..]);
      LengthBeforeLater(chain, |chain|);
      FirstIsJoined(chain);
      hide Joined, LengthBefore;
    } else {
      NothingJoined();
    }
  }

  lemma FirstIsJoined(chain: seq<Entry>)
    requires chain != [] && forall e | e in chain :: Readable(e) && Usable(e)
    ensures chain[0] in chain && forall e | e in chain[1..] :: e in chain
    ensures |Joined(chain)| == chain[0].length + |Joined(chain[1..])|
  {
    assert chain[0] in chain;
  }

  lemma NothingJoined()
    ensures Joined([]) == [] && LengthBefore([], 0) == 0
  {}

  lemma WholeIsComplete(u: DecodeUnit)
    requires Fits(Some(u))
    ensures Whole(u) <==> Complete(Some(u))
  {
    if forall e | e in u.chain :: Usable(e) { JoinedLength(u.chain); }
  }

  // --------------------------------------------------------------- replies

  /** The frame is past its deadline, and may be dropped for it. */
  ghost predicate Overdue(b: Bridge, f: Frame) {
    && b.deadlineUs > 0 && f.receivedUs > 0 && f.nowUs > f.receivedUs + b.deadlineUs && !f.idr
  }

  /** Moonlight is asked for an IDR frame exactly when the submission is refused; when the frame
      is dropped and none is awaited yet; when its unit is not whole; when the send throws; and
      when it is sent while a receiver's request is pending. In all other cases it is told that
      all is well. */
  lemma NeedIdrExactlyWhen(b: Bridge, s: Settings, f: Frame)
    requires FrameFits(f)
    ensures ReplyOf(SubmitFrame(b, s, f).kind) == NeedIdr <==>
            || !b.active || !b.configured || !b.started || f.unit == None
            || (Overdue(b, f) && !b.waitingForIdr)
            || (!Overdue(b, f) && (!Whole(f.unit.value) || f.sendThrows || b.idrRequested))
    ensures ReplyOf(SubmitFrame(b, s, f).kind) == NeedIdr || ReplyOf(SubmitFrame(b, s, f).kind) == Accepted
  {
    hide Whole;
    if !IsRefused(b, f) {
      KindIsDecidedByTheFrame(b, s, f);
      WholeIsComplete(f.unit.value);
      if SubmitFrame(b, s, f).kind.Sent? { ForwardedIffPending(b, s, f); }
      hide SubmitFrame, Complete;
    }
  }

  /** An IDR frame is awaited: a drop or a forwarded request asked for one, and none was sent
      since, other than one that itself forwarded a request. */
  ghost predicate AwaitsIdr(states: seq<Bridge>, s: Settings, events: seq<Event>, j: nat)
    requires IsRun(states, s, events) && j <= |events|
  {
    exists i | 0 <= i < j ::
      Asks(states, s, events, i) && forall k | i < k < j :: !Settles(states, s, events, k)
  }

  ghost predicate Asks(states: seq<Bridge>, s: Settings, events: seq<Event>, k: nat)
    requires IsRun(states, s, events) && k < |events|
  {
    KindAt(states, s, events, k) in {Some(Dropped), Some(DroppedAsking), Some(Sent(true))}
  }

  ghost predicate Settles(states: seq<Bridge>, s: Settings, events: seq<Event>, k: nat)
    requires IsRun(states, s, events) && k < |events|
  {
    KindAt(states, s, events, k) == Some(Sent(false)) && events[k].frame.idr
  }

  lemma WaitingAfter(b: Bridge, s: Settings, e: Event)
    requires EventFits(e) && s.fps > 0
    ensures var kind := if e.Submission? then Some(SubmitFrame(b, s, e.frame).kind) else None;
            Step(b, s, e).waitingForIdr <==>
            kind in {Some(Dropped), Some(DroppedAsking), Some(Sent(true))}
            || (b.waitingForIdr && !(kind == Some(Sent(false)) && e.frame.idr))
  {
    hide CheckHdr, VideoWindow.Submit, Flattened, FrameFits;
  }

  lemma AwaitsStep(states: seq<Bridge>, s: Settings, events: seq<Event>, j: nat)
    requires IsRun(states, s, events) && 0 < j <= |events|
    ensures AwaitsIdr(states, s, events, j) <==>
            Asks(states, s, events, j - 1)
            || (AwaitsIdr(states, s, events, j - 1) && !Settles(states, s, events, j - 1))
  {
    hide IsRun, Asks, Settles;
    if AwaitsIdr(states, s, events, j) {
      var i :| 0 <= i < j && Asks(states, s, events, i) && forall k | i < k < j :: !Settles(states, s, events, k);
      if i < j - 1 {
        assert !Settles(states, s, events, j - 1);
        assert Asks(states, s, events, i) && forall k | i < k < j - 1 :: !Settles(states, s, events, k);
      }
    }
    if !Asks(states, s, events, j - 1) && AwaitsIdr(states, s, events, j - 1) && !Settles(states, s, events, j - 1) {
      var i :| 0 <= i < j - 1 && Asks(states, s, events, i)
               && forall k | i < k < j - 1 :: !Settles(states, s, events, k);
      assert forall k | i < k < j :: !Settles(states, s, events, k);
    }
  }

  lemma {:induction false} WaitingIffAwaited(states: seq<Bridge>, s: Settings, events: seq<Event>, j: nat)
    requires IsRun(states, s, events) && j <= |events|
    ensures states[j].waitingForIdr <==> AwaitsIdr(states, s, events, j)
  {
    hide Step, SubmitFrame, EventFits, AwaitsIdr;
    if j > 0 {
      WaitingIffAwaited(states, s, events, j - 1);
      assert states[(j - 1) + 1] == Step(states[j - 1], s, events[j - 1]);
      WaitingAfter(states[j - 1], s, events[j - 1]);
      AwaitsStep(states, s, events, j);
    } else {
      NothingAwaited(states, s, events);
    }
  }

  lemma NothingAwaited(states: seq<Bridge>, s: Settings, events: seq<Event>)
    requires IsRun(states, s, events)
    ensures !AwaitsIdr(states, s, events, 0) && !states[0].waitingForIdr
  {}

  // ------------------------------------------------------ the callbacks

  /** The renderer was set up, well or not, and not cleaned up since. */
  ghost predicate IsActive(events: seq<Event>, j: nat)
    requires j <= |events|
  {
    j > 0 && match events[j - 1]
             case Setup(_) => true
             case Cleanup => false
             case _ => IsActive(events, j - 1)
  }

  /** The last setup was of a matching format, and it was not cleaned up since. */
  ghost predicate IsConfigured(events: seq<Event>, j: nat)
    requires j <= |events|
  {
    j > 0 && match events[j - 1]
             case Setup(matches) => matches
             case Cleanup => false
             case _ => IsConfigured(events, j - 1)
  }

  /** It was started while active, and neither stopped nor cleaned up since. */
  ghost predicate IsStarted(events: seq<Event>, j: nat)
    requires j <= |events|
  {
    j > 0 && match events[j - 1]
             case Start(_) => IsActive(events, j - 1)
             case Stop => false
             case Cleanup => false
             case _ => IsStarted(events, j - 1)
  }

  /** Some setup was of a matching format. */
  ghost predicate EverConfigured(events: seq<Event>, j: nat)
    requires j <= |events|
  {
    j > 0 && (events[j - 1] == Setup(true) || EverConfigured(events, j - 1))
  }

  lemma CallbacksSetFlags(b: Bridge, s: Settings, e: Event)
    requires EventFits(e) && s.fps > 0
    ensures var t := Step(b, s, e);
            match e
            case Setup(matches) => t.active && t.configured == matches && t.started == b.started
                                   && t.deadlineUs == if matches then DeadlineUs(s) else b.deadlineUs
            case Start(_) =>
              t.active == b.active && t.configured == b.configured && t.started == (b.started || b.active)
                             && t.deadlineUs == b.deadlineUs
            case Stop => t.active == b.active && t.configured == b.configured && t.started == (b.started && !b.active)
                         && t.deadlineUs == b.deadlineUs
            case Cleanup => !t.active && t.configured == (b.configured && !b.active)
                            && t.started == (b.started && !b.active) && t.deadlineUs == b.deadlineUs
            case _ => t.active == b.active && t.configured == b.configured && t.started == b.started
                      && t.deadlineUs == b.deadlineUs
  {
    hide CheckHdr, VideoWindow.Submit, Flattened, IsLate, DeadlineUs;
  }

  /** Over every run the bridge's flags and its deadline are what the callbacks made them. */
  lemma {:induction false} FlagsAreTheCallbacks(states: seq<Bridge>, s: Settings, events: seq<Event>, j: nat)
    requires IsRun(states, s, events) && j <= |events|
    ensures var b := states[j];
            && b.active == IsActive(events, j) && b.configured == IsConfigured(events, j)
            && b.started == IsStarted(events, j) && (b.configured || b.started ==> b.active)
            && b.deadlineUs == if EverConfigured(events, j) then DeadlineUs(s) else 0
  {
    hide Step, EventFits, DeadlineUs;
    if j > 0 {
      FlagsAreTheCallbacks(states, s, events, j - 1);
      assert EventFits(events[j - 1]) && states[(j - 1) + 1] == Step(states[j - 1], s, events[j - 1]);
      CallbacksSetFlags(states[j - 1], s, events[j - 1]);
    }
  }

  /** A frame that came later than the deadline of the last matching setup allows. */
  ghost predicate CameLate(s: Settings, events: seq<Event>, j: nat, f: Frame)
    requires j <= |events| && s.fps > 0
  {
    && EverConfigured(events, j) && DeadlineUs(s) > 0
    && f.receivedUs > 0 && f.nowUs > f.receivedUs + DeadlineUs(s) && !f.idr
  }

  /** The reply to a unit at any point of any run, by the events alone: an IDR frame is asked for
      exactly when the renderer is not set up and started; when the frame came late and none is
      awaited; when its unit is not whole; when the send throws; and when it is sent while a
      receiver's request is pending. */
  lemma RepliesFollowTheRun(states: seq<Bridge>, s: Settings, events: seq<Event>, j: nat)
    requires IsRun(states, s, events) && j < |events| && events[j].Submission?
    ensures var f := events[j].frame;
            var late := CameLate(s, events, j, f);
            && EventFits(events[j])
            && (ReplyOf(SubmitFrame(states[j], s, f).kind) == NeedIdr <==>
                || !IsConfigured(events, j) || !IsStarted(events, j) || f.unit == None
                || (late && !AwaitsIdr(states, s, events, j))
                || (!late && (!Whole(f.unit.value) || f.sendThrows || RequestedSinceSend(states, s, events, j))))
  {
    hide SubmitFrame, Whole, AwaitsIdr, RequestedSinceSend, ReplyOf, DeadlineUs;
    hide IsConfigured, IsStarted, EverConfigured;
    assert EventFits(events[j]);
    EventHasFittingFrame(events[j]);
    FlagsAreTheCallbacks(states, s, events, j);
    WaitingIffAwaited(states, s, events, j);
    PendingIffRequested(states, s, events, j);
    NeedIdrExactlyWhen(states[j], s, events[j].frame);
  }

  // ------------------------------------------------------- the bytes handed on

  /** H.264 and HEVC units are handed on as they are. An AV1 unit always begins with a temporal
      delimiter (12 00): its own if its first entry begins with one, else one put in front. */
  lemma UnitsAreHandedOnWhole(codec: Codec, u: DecodeUnit)
    requires Fits(Some(u))
    ensures Flattened(codec, u).Some? <==> Whole(u)
    ensures Flattened(codec, u).Some? ==>
              var bytes, own := Flattened(codec, u).value, BeginsWithDelimiter(u.chain[0]);
              && bytes == (if codec == Av1 && !own then [0x12, 0x00] else []) + Joined(u.chain)
              && (codec == Av1 ==> |bytes| >= 2 && bytes[0] == 0x12 && bytes[1] == 0x00)
  {
    WholeIsComplete(u);
    if Flattened(codec, u).Some? {
      var first := u.chain[0];
      assert Usable(first) && Readable(first);
      var joined := Joined(u.chain);
      assert joined == first.data.value[..first.length] + Joined(u.chain[1..]);
      hide Joined, Whole;
      if first.length >= 2 { assert first.data.value[..2] == [first.data.value[0], first.data.value[1]]; }
      assert [] + joined == joined;
    }
  }

  ghost predicate BeginsWithDelimiter(e: Entry)
    requires e.data.Some? && e.length > 0 && Readable(e)
  {
    e.length >= 2 && e.data.value[0] == 0x12 && e.data.value[1] == 0x00
  }

  // ------------------------------------------------------------ the verdict

  /** A stream is Main 10 with 4:2:0 chroma at ten bits. */
  ghost predicate IsTenBit420(s: SpsEncoding.Sps)
    requires |s.compatibility| == 32
  {
    && (s.profileIdc == 2 || s.compatibility[2] == 1)
    && s.chromaFormat == 1 && s.lumaMinus8 == 2 && s.chromaMinus8 == 2
  }

  /** The first parameter set of an HEVC unit decides: ten bits and 4:2:0 of a Main 10 compatible
      profile verify it, anything else fails the stream. */
  lemma FirstSetDecides(h: Hdr, before: seq<Unit>, long: bool, header: seq<byte>, s: SpsEncoding.Sps,
                        more: seq<bit>, after: seq<Unit>)
    requires SpsEncoding.WellFormed(s) && SpsEncoding.IsSpsHeader(header) && !h.main10
    requires AllClean(before) && AllClean(after) && forall u | u in before :: SpsOf(u.nal) == None
    ensures VerifyMain10(h, Hevc, Stream(before + [Unit(long, SpsEncoding.SpsNal(header, s, more))] + after))
         == if IsTenBit420(s) then h.(main10 := true)
            else h.(failed := true, handlerCalls := h.handlerCalls + if h.failed then 0 else 1)
  {
    hide FirstSps, Stream, SpsEncoding.SpsNal, SpsOf;
    SpsEncoding.ParseInvertsEncode(before, long, header, s, more, after);
  }

  /** Exactly when a stream fails: a first parameter set that is not Main 10 4:2:0 at ten bits
      before any was, or evidence missing at or after the deadline. */
  lemma FailsExactlyWhen(b: Bridge, s: Settings, f: Frame, bytes: seq<byte>)
    requires s.hdr && !b.hdr.failed && VerdictOk(b.hdr)
    ensures var h := CheckHdr(b, s, f, bytes);
            var sps := FirstSps(bytes);
            var main10 := sps.Some? && sps.value.main10CompatibleProfile && sps.value.chromaFormatIdc == 1
                          && sps.value.bitDepthLuma == 10 && sps.value.bitDepthChroma == 10;
            h.failed <==>
            || (s.codec == Hevc && !b.hdr.main10 && sps.Some? && !main10)
            || (!h.complete && b.hdrDeadlineMs.Some? && f.checkedAtMs >= b.hdrDeadlineMs.value)
  {
    hide FirstSps;
  }
}
