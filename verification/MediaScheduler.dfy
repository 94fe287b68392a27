/** The two-clock scheduler that plays an H.264 file and an Opus file side by side. Times are
    counted in sixtieths of a microsecond, in which both clocks are whole numbers. */
module MediaScheduler {
  import opened Basics
  import H264 = H264Reader
  import Opus = OpusFile

  const VIDEO_FRAME_RATE := 60
  const VIDEO_RTP_CLOCK_RATE := 90000
  const TICKS_PER_FRAME := 1_000_000
  const TICKS_PER_MICROSECOND := 60
  const LONGEST_PACKET_TICKS := 7_200_000

  /** What the scheduler knows of its files. */
  datatype Media = Media(units: nat, firstIdr: Option<nat>, audio: Opus.Sample, videoStart: nat, audioStart: nat)

  ghost predicate Playable(m: Media) {
    && m.units > 0 && (m.firstIdr.Some? ==> m.firstIdr.value < m.units)
    && m.audio.counts != [] && |m.audio.packets| == |m.audio.counts| && Opus.WholeUnitCounts(m.audio.counts)
    && m.videoStart < TWO_TO_THE_32 && m.audioStart < TWO_TO_THE_32
  }

  /** Files the two readers accept can be played. */
  lemma AcceptedFilesArePlayable(data: seq<byte>, nals: seq<H264.Nal>, video: H264.Sample, i: nat,
                                 audio: Opus.Sample, ogg: seq<seq<byte>>)
    requires H264.Tiles(data, nals, 0) && H264.IsSampleOf(data, nals, video)
    requires video.firstIdr.Some? ==> H264.IsFirstIdr(data, nals, i)
    requires Opus.IsSampleOf(audio, ogg)
    ensures Playable(Media(|video.accessUnits|, video.firstIdr, audio, 0, 0))
  {
    hide H264.Tiles, H264.IsFirstIdr, Opus.HeadersOk;
    Opus.SamplesHaveWholeUnits(audio, ogg);
    if video.firstIdr.Some? { H264.FirstIdrUnit(data, nals, video, i); }
  }

  datatype Stream = Stream(videoSent: nat, videoIndex: nat, audioSent: nat, audioIndex: nat,
                           audioElapsedUs: nat, audioSamples: nat, keyframeRequested: bool)

  const NEW_STREAM := Stream(0, 0, 0, 0, 0, 0, false)

  datatype Send =
    | VideoSend(unit: nat, at: nat, rtp: nat)
    | AudioSend(packet: nat, at: nat, rtp: nat)

  function VideoTime(s: Stream): nat { s.videoSent * TICKS_PER_FRAME }

  function AudioTime(s: Stream): nat { s.audioElapsedUs * TICKS_PER_MICROSECOND }

  function VideoRtp(m: Media, frames: nat): nat {
    (m.videoStart + frames * VIDEO_RTP_CLOCK_RATE / VIDEO_FRAME_RATE % TWO_TO_THE_32) % TWO_TO_THE_32
  }

  function AudioRtp(m: Media, samples: nat): nat {
    (m.audioStart + samples % TWO_TO_THE_32) % TWO_TO_THE_32
  }

  predicate SendsVideo(s: Stream) { VideoTime(s) <= AudioTime(s) }

  /** The unit a video turn sends: the first IDR if a keyframe was asked for and there is one. */
  function UnitToSend(m: Media, s: Stream): nat {
    if s.keyframeRequested && m.firstIdr.Some? then m.firstIdr.value else s.videoIndex
  }

  ghost predicate InRange(m: Media, s: Stream) { s.videoIndex < m.units && s.audioIndex < |m.audio.counts| }

  function SendOf(m: Media, s: Stream): Send {
    if SendsVideo(s) then VideoSend(UnitToSend(m, s), VideoTime(s), VideoRtp(m, s.videoSent))
    else AudioSend(s.audioIndex, AudioTime(s), AudioRtp(m, s.audioSamples))
  }

  function AfterSend(m: Media, s: Stream): Stream
    requires InRange(m, s)
  {
    if SendsVideo(s) then
      var next := UnitToSend(m, s) + 1;
      s.(videoSent := s.videoSent + 1, videoIndex := if next == m.units then 0 else next, keyframeRequested := false)
    else
      var i := s.audioIndex;
      s.(audioSent := s.audioSent + 1, audioIndex := if i + 1 == |m.audio.counts| then 0 else i + 1,
         audioElapsedUs := s.audioElapsedUs + Opus.PacketDuration(m.audio, i),
         audioSamples := s.audioSamples + m.audio.counts[i])
  }

  /** Before a turn the receiver may have asked for a keyframe; the request stays until a video turn. */
  function Ask(s: Stream, asked: bool): Stream { s.(keyframeRequested := s.keyframeRequested || asked) }

  // ----------------------------------------------------------- invariant

  /** All samples of the first k packets sent, the file repeating. */
  function CyclicSum(counts: seq<nat>, k: nat): nat
    requires counts != []
  {
    if k == 0 then 0 else CyclicSum(counts, k - 1) + counts[(k - 1) % |counts|]
  }

  ghost predicate Inv(m: Media, s: Stream) {
    && Playable(m) && InRange(m, s)
    && s.audioIndex == s.audioSent % |m.audio.counts|
    && s.audioSamples == CyclicSum(m.audio.counts, s.audioSent) && s.audioSamples % 120 == 0
    && s.audioElapsedUs * Opus.SAMPLE_RATE == s.audioSamples * 1_000_000
    && VideoTime(s) <= AudioTime(s) + TICKS_PER_FRAME
    && AudioTime(s) < VideoTime(s) + LONGEST_PACKET_TICKS
  }

  lemma NextInCycle(k: nat, n: nat)
    requires n > 0
    ensures (k + 1) % n == if k % n + 1 == n then 0 else k % n + 1
  {
    var q, r := k / n, k % n;
    assert k == n * q + r;
    if r + 1 == n {
      assert k + 1 == n * (q + 1) + 0;
      RemainderIs(k + 1, n, q + 1, 0);
    } else {
      RemainderIs(k + 1, n, q, r + 1);
    }
  }

  lemma RemainderIs(x: nat, n: nat, q: nat, r: nat)
    requires r < n && x == n * q + r
    ensures x % n == r
  {
    var d := x / n - q;
    assert n * d == r - x % n;
    if d >= 1 { Multiple(n, d); } else if d <= -1 { Multiple(n, -d); }
  }

  lemma Multiple(n: nat, d: int)
    requires n > 0 && d >= 1
    ensures n * d >= n && n * (0 - d) + n <= 0
  {}

  lemma SendKeepsInv(m: Media, s: Stream)
    requires Inv(m, s)
    ensures Inv(m, AfterSend(m, s))
  {
    hide CyclicSum, Opus.PacketDuration;
    if !SendsVideo(s) {
      var i := s.audioIndex;
      CountIsWhole(m, i);
      PacketKeepsTime(s.audioElapsedUs, s.audioSamples, Opus.PacketDuration(m.audio, i), m.audio.counts[i]);
      NextInCycle(s.audioSent, |m.audio.counts|);
      CyclicStep(m.audio.counts, s.audioSent);
    }
  }

  lemma CountIsWhole(m: Media, i: nat)
    requires Playable(m) && i < |m.audio.counts|
    ensures var n := m.audio.counts[i];
            && n % 120 == 0 && Opus.PacketDuration(m.audio, i) * Opus.SAMPLE_RATE == n * 1_000_000
            && 0 < Opus.PacketDuration(m.audio, i) <= 120_000
  {
    var n := m.audio.counts[i];
    assert 0 < n <= Opus.LONGEST_PACKET;
    Opus.DurationIsExact(n);
  }

  lemma PacketKeepsTime(elapsed: nat, samples: nat, duration: nat, n: nat)
    requires elapsed * Opus.SAMPLE_RATE == samples * 1_000_000 && samples % 120 == 0
    requires duration * Opus.SAMPLE_RATE == n * 1_000_000 && n % 120 == 0
    ensures (elapsed + duration) * Opus.SAMPLE_RATE == (samples + n) * 1_000_000 && (samples + n) % 120 == 0
  {}

  lemma CyclicStep(counts: seq<nat>, k: nat)
    requires counts != []
    ensures CyclicSum(counts, k + 1) == CyclicSum(counts, k) + counts[k % |counts|]
  {}

  lemma AskKeepsInv(m: Media, s: Stream, asked: bool)
    requires Inv(m, s)
    ensures Inv(m, Ask(s, asked))
  {}

  // ---------------------------------------------------------------- runs

  /** The state before turn k, for the requests that arrived before each turn. */
  ghost function Before(m: Media, asked: seq<bool>, k: nat): (s: Stream)
    requires Playable(m) && k < |asked|
    ensures Inv(m, s)
  {
    if k == 0 then
      NewStreamIsInv(m);
      AskKeepsInv(m, NEW_STREAM, asked[0]);
      Ask(NEW_STREAM, asked[0])
    else
      var s := Before(m, asked, k - 1);
      SendKeepsInv(m, s);
      AskKeepsInv(m, AfterSend(m, s), asked[k]);
      Ask(AfterSend(m, s), asked[k])
  }

  lemma NewStreamIsInv(m: Media)
    requires Playable(m)
    ensures Inv(m, NEW_STREAM)
  {}

  lemma FirstTurn(m: Media, asked: seq<bool>)
    requires Playable(m)
    ensures Inv(m, NEW_STREAM) && NEW_STREAM == Stream(0, 0, 0, 0, 0, 0, false)
    ensures asked != [] ==> Before(m, asked, 0) == Ask(NEW_STREAM, asked[0])
  {
    NewStreamIsInv(m);
  }

  /** A turn written out field by field. */
  lemma TurnByFields(m: Media, asked: seq<bool>, k: nat)
    requires Playable(m) && k < |asked|
    ensures var s, next := Before(m, asked, k), AfterSend(m, Before(m, asked, k));
            && Inv(m, next) && InRange(m, s) && |m.audio.packets| == |m.audio.counts|
            && (k + 1 < |asked| ==> Before(m, asked, k + 1) == Ask(next, asked[k + 1]))
            && if s.videoSent * TICKS_PER_FRAME <= s.audioElapsedUs * TICKS_PER_MICROSECOND then
                 var unit := if s.keyframeRequested && m.firstIdr.Some? then m.firstIdr.value else s.videoIndex;
                 && SendOf(m, s) == VideoSend(unit, s.videoSent * TICKS_PER_FRAME, VideoRtp(m, s.videoSent))
                 && next == s.(videoSent := s.videoSent + 1, keyframeRequested := false,
                               videoIndex := if unit + 1 == m.units then 0 else unit + 1)
               else
                 && SendOf(m, s) == AudioSend(s.audioIndex, s.audioElapsedUs * TICKS_PER_MICROSECOND,
                                              AudioRtp(m, s.audioSamples))
                 && next == s.(audioSent := s.audioSent + 1,
                               audioIndex := if s.audioIndex + 1 == |m.audio.packets| then 0 else s.audioIndex + 1,
                               audioElapsedUs := s.audioElapsedUs + Opus.PacketDuration(m.audio, s.audioIndex),
                               audioSamples := s.audioSamples + m.audio.counts[s.audioIndex])
  {
    hide Inv, VideoRtp, AudioRtp, Playable;
    var s := Before(m, asked, k);
    InvIsInRange(m, s);
    SendKeepsInv(m, s);
  }

  /** The sending loop, until the turns end or a send throws at turn `failsAt`. */
  method StreamTestMedia(m: Media, asked: seq<bool>, failsAt: nat) returns (sends: seq<Send>)
    requires Playable(m)
    ensures |sends| == if failsAt < |asked| then failsAt else |asked|
    ensures forall k | 0 <= k < |sends| :: sends[k] == SendOf(m, Before(m, asked, k))
  {
    hide Inv, Playable, SendOf, AfterSend, Before, VideoRtp, AudioRtp;
    sends := [];
    var videoFramesSent, audioPacketsSent, audioSamplesSent := 0, 0, 0;
    var audioElapsed: nat := 0;
    var videoFrameIndex, audioPacketIndex, keyframeRequested := 0, 0, false;
    FirstTurn(m, asked);
    while |sends| < |asked|
      invariant |sends| <= failsAt && |sends| <= |asked|
      invariant var s := Stream(videoFramesSent, videoFrameIndex, audioPacketsSent, audioPacketIndex,
                                audioElapsed, audioSamplesSent, keyframeRequested);
                Inv(m, s) && (|sends| < |asked| ==> Before(m, asked, |sends|) == Ask(s, asked[|sends|]))
      invariant forall k | 0 <= k < |sends| :: sends[k] == SendOf(m, Before(m, asked, k))
      decreases |asked| - |sends|
    {
      keyframeRequested := keyframeRequested || asked[|sends|];
      ghost var s := Before(m, asked, |sends|);
      if |sends| == failsAt {
        break;
      }
      TurnByFields(m, asked, |sends|);
      if videoFramesSent * TICKS_PER_FRAME <= audioElapsed * TICKS_PER_MICROSECOND {
        if keyframeRequested {
          if m.firstIdr.Some? {
            videoFrameIndex := m.firstIdr.value;
          }
        }
        keyframeRequested := false;
        var send := VideoSend(videoFrameIndex, videoFramesSent * TICKS_PER_FRAME, VideoRtp(m, videoFramesSent));
        sends := sends + [send];
        videoFramesSent := videoFramesSent + 1;
        videoFrameIndex := videoFrameIndex + 1;
        if videoFrameIndex == m.units {
          videoFrameIndex := 0;
        }
      } else {
        var send := AudioSend(audioPacketIndex, audioElapsed * TICKS_PER_MICROSECOND, AudioRtp(m, audioSamplesSent));
        sends := sends + [send];
        audioPacketsSent := audioPacketsSent + 1;
        audioElapsed := audioElapsed + Opus.PacketDuration(m.audio, audioPacketIndex);
        audioSamplesSent := audioSamplesSent + m.audio.counts[audioPacketIndex];
        audioPacketIndex := audioPacketIndex + 1;
        if audioPacketIndex == |m.audio.packets| {
          audioPacketIndex := 0;
        }
      }
    }
  }

  lemma InvIsInRange(m: Media, s: Stream)
    requires Inv(m, s)
    ensures InRange(m, s) && |m.audio.packets| == |m.audio.counts|
  {}

  // ----------------------------------------------------------- guarantees

  lemma NextSendIsNotEarlier(m: Media, s: Stream, asked: bool)
    requires Inv(m, s)
    ensures SendOf(m, Ask(AfterSend(m, s), asked)).at >= SendOf(m, s).at
  {
    hide CyclicSum, Playable, VideoRtp, AudioRtp;
  }

  /** Send times never go back. */
  lemma {:induction false} SendTimesNeverDecrease(m: Media, asked: seq<bool>, i: nat, j: nat)
    requires Playable(m) && i <= j < |asked|
    ensures SendOf(m, Before(m, asked, i)).at <= SendOf(m, Before(m, asked, j)).at
    decreases j
  {
    hide SendOf, Inv, Ask, AfterSend;
    if i < j {
      SendTimesNeverDecrease(m, asked, i, j - 1);
      NextSendIsNotEarlier(m, Before(m, asked, j - 1), asked[j]);
    }
  }

  /** At every turn: indices in range; video at most one frame ahead of audio, audio less than
      120 ms ahead of video; and audio time is exactly the samples sent, loops included. */
  lemma ClocksStayTogether(m: Media, asked: seq<bool>, k: nat)
    requires Playable(m) && k < |asked|
    ensures var s := Before(m, asked, k);
            && s.videoIndex < m.units && s.audioIndex == s.audioSent % |m.audio.counts|
            && UnitToSend(m, s) < m.units
            && VideoTime(s) <= AudioTime(s) + TICKS_PER_FRAME
            && AudioTime(s) < VideoTime(s) + 120_000 * TICKS_PER_MICROSECOND
            && s.audioSamples == CyclicSum(m.audio.counts, s.audioSent)
            && s.audioElapsedUs * Opus.SAMPLE_RATE == s.audioSamples * 1_000_000
  {
    hide CyclicSum;
    var s := Before(m, asked, k);
  }

  /** One frame is 1500 ticks of the RTP clock, across the 32-bit wrap. */
  lemma VideoRtpAdvancesByOneFrame(m: Media, frames: nat)
    requires m.videoStart < TWO_TO_THE_32
    ensures VideoRtp(m, frames + 1) == (VideoRtp(m, frames) + 1500) % TWO_TO_THE_32
  {
    assert frames * VIDEO_RTP_CLOCK_RATE / VIDEO_FRAME_RATE == frames * 1500;
    assert (frames + 1) * VIDEO_RTP_CLOCK_RATE / VIDEO_FRAME_RATE == frames * 1500 + 1500;
    WrapsOnce(m.videoStart, frames * 1500, 1500);
  }

  lemma WrapsOnce(start: nat, x: nat, step: nat)
    ensures (start + (x + step) % TWO_TO_THE_32) % TWO_TO_THE_32
         == ((start + x % TWO_TO_THE_32) % TWO_TO_THE_32 + step) % TWO_TO_THE_32
  {}

  /** Between two audio packets the RTP timestamp advances by the first one's samples. */
  lemma AudioRtpAdvancesBySamples(m: Media, s: Stream)
    requires Inv(m, s) && !SendsVideo(s)
    ensures AudioRtp(m, AfterSend(m, s).audioSamples)
         == (AudioRtp(m, s.audioSamples) + m.audio.counts[s.audioIndex]) % TWO_TO_THE_32
  {
    hide CyclicSum;
    WrapsOnce(m.audioStart, s.audioSamples, m.audio.counts[s.audioIndex]);
  }

  /** A keyframe request is answered by the next video turn with the file's first IDR unit. */
  lemma NextVideoAfterRequestIsIdr(m: Media, asked: seq<bool>, i: nat, j: nat)
    requires Playable(m) && i <= j < |asked| && asked[i] && m.firstIdr.Some?
    requires SendsVideo(Before(m, asked, j)) && forall k | i <= k < j :: !SendsVideo(Before(m, asked, k))
    ensures SendOf(m, Before(m, asked, j)).VideoSend? && SendOf(m, Before(m, asked, j)).unit == m.firstIdr.value
  {
    hide Inv, SendsVideo;
    RequestIsKept(m, asked, i, j);
  }

  lemma {:induction false} RequestIsKept(m: Media, asked: seq<bool>, i: nat, j: nat)
    requires Playable(m) && i <= j < |asked| && asked[i]
    requires forall k | i <= k < j :: !SendsVideo(Before(m, asked, k))
    ensures Before(m, asked, j).keyframeRequested
    decreases j
  {
    hide Inv, SendsVideo;
    if i < j {
      RequestIsKept(m, asked, i, j - 1);
      assert !SendsVideo(Before(m, asked, j - 1));
    }
  }

  // ---------------------------------------------------- what is sent, and when

  /** How many video units, or audio packets, were sent before turn k. */
  ghost function Sends(m: Media, asked: seq<bool>, k: nat, video: bool): nat
    requires Playable(m) && k < |asked|
  {
    if k == 0 then 0
    else Sends(m, asked, k - 1, video) + if SendOf(m, Before(m, asked, k - 1)).VideoSend? == video then 1 else 0
  }

  lemma TurnCounts(m: Media, s: Stream)
    requires InRange(m, s)
    ensures AfterSend(m, s).videoSent == s.videoSent + if SendOf(m, s).VideoSend? then 1 else 0
    ensures AfterSend(m, s).audioSent == s.audioSent + if SendOf(m, s).VideoSend? then 0 else 1
  {}

  lemma {:induction false} CountersAreSends(m: Media, asked: seq<bool>, k: nat)
    requires Playable(m) && k < |asked|
    ensures Before(m, asked, k).videoSent == Sends(m, asked, k, true)
    ensures Before(m, asked, k).audioSent == Sends(m, asked, k, false)
  {
    hide Inv, SendOf, AfterSend;
    if k > 0 {
      CountersAreSends(m, asked, k - 1);
      var s := Before(m, asked, k - 1);
      InvIsInRange(m, s);
      TurnCounts(m, s);
    }
  }

  /** When a send is on time, after so many video units and audio packets: the n-th unit n/60 of
      a second after the start, with 1500 ticks of its clock for each unit before it; a packet
      when the packets before it have played, to the sample at 48 kHz, the file repeating. */
  ghost predicate OnTime(m: Media, send: Send, video: nat, audio: nat)
    requires m.audio.counts != []
  {
    var samples := CyclicSum(m.audio.counts, audio);
    match send
    case VideoSend(_, at, rtp) =>
      at * 60 == video * 60_000_000 && rtp == (m.videoStart + 1500 * video) % 0x1_0000_0000
    case AudioSend(packet, at, rtp) =>
      && at * 48_000 == samples * 60_000_000 && rtp == (m.audioStart + samples) % 0x1_0000_0000
      && packet == audio % |m.audio.counts|
  }

  /** Over every run each send is on time. */
  lemma SendsAreOnTime(m: Media, asked: seq<bool>, k: nat)
    requires Playable(m) && k < |asked|
    ensures OnTime(m, SendOf(m, Before(m, asked, k)), Sends(m, asked, k, true), Sends(m, asked, k, false))
  {
    hide OnTime, Inv, SendOf;
    CountersAreSends(m, asked, k);
    TurnIsOnTime(m, Before(m, asked, k));
  }

  lemma TurnIsOnTime(m: Media, s: Stream)
    requires Inv(m, s) && m.audio.counts != []
    ensures OnTime(m, SendOf(m, s), s.videoSent, s.audioSent)
  {
    hide CyclicSum, Playable, AudioRtp, VideoRtp;
    VideoRtpIs(m, s.videoSent);
    AudioRtpIs(m, s.audioSamples);
  }

  lemma VideoRtpIs(m: Media, frames: nat)
    ensures VideoRtp(m, frames) == (m.videoStart + 1500 * frames) % 0x1_0000_0000
  {
    assert frames * VIDEO_RTP_CLOCK_RATE / VIDEO_FRAME_RATE == frames * 1500;
    WrappedSum(m.videoStart, frames * 1500);
  }

  lemma AudioRtpIs(m: Media, samples: nat)
    ensures AudioRtp(m, samples) == (m.audioStart + samples) % 0x1_0000_0000
  {
    WrappedSum(m.audioStart, samples);
  }

  lemma WrappedSum(start: nat, x: nat)
    ensures (start + x % TWO_TO_THE_32) % TWO_TO_THE_32 == (start + x) % 0x1_0000_0000
  {}

  /** Units follow one another round the file too: after one comes the next, or the first after
      the last, unless a keyframe was asked for in between and the file has one. */
  lemma UnitsFollowOneAnother(m: Media, asked: seq<bool>, i: nat, j: nat)
    requires Playable(m) && i < j < |asked|
    requires SendsVideo(Before(m, asked, i)) && SendsVideo(Before(m, asked, j))
    requires forall k | i < k < j :: !SendsVideo(Before(m, asked, k))
    ensures var first, next := SendOf(m, Before(m, asked, i)).unit, SendOf(m, Before(m, asked, j)).unit;
            next == if Before(m, asked, j).keyframeRequested && m.firstIdr.Some? then m.firstIdr.value
                    else if first + 1 == m.units then 0 else first + 1
    ensures Before(m, asked, j).keyframeRequested <==> exists k | i < k <= j :: asked[k]
  {
    hide Inv, SendsVideo;
    IndexIsKept(m, asked, i, j);
    SentUnit(m, Before(m, asked, i));
    SentUnit(m, Before(m, asked, j));
  }

  lemma SentUnit(m: Media, s: Stream)
    requires SendsVideo(s)
    ensures SendOf(m, s).VideoSend? && SendOf(m, s).unit == UnitToSend(m, s)
  {}

  lemma AfterVideo(m: Media, s: Stream, asked: bool)
    requires InRange(m, s) && SendsVideo(s)
    ensures var t := Ask(AfterSend(m, s), asked);
            t.videoIndex == (if UnitToSend(m, s) + 1 == m.units then 0 else UnitToSend(m, s) + 1)
            && t.keyframeRequested == asked
  {}

  lemma AfterAudio(m: Media, s: Stream, asked: bool)
    requires InRange(m, s) && !SendsVideo(s)
    ensures var t := Ask(AfterSend(m, s), asked);
            t.videoIndex == s.videoIndex && t.keyframeRequested == (s.keyframeRequested || asked)
  {}

  lemma {:induction false} IndexIsKept(m: Media, asked: seq<bool>, i: nat, j: nat)
    requires Playable(m) && i < j < |asked| && SendsVideo(Before(m, asked, i))
    requires forall k | i < k < j :: !SendsVideo(Before(m, asked, k))
    ensures var unit := UnitToSend(m, Before(m, asked, i));
            Before(m, asked, j).videoIndex == if unit + 1 == m.units then 0 else unit + 1
    ensures Before(m, asked, j).keyframeRequested <==> exists k | i < k <= j :: asked[k]
    decreases j
  {
    hide Inv, SendsVideo, AfterSend, Ask, UnitToSend;
    var s := Before(m, asked, j - 1);
    InvIsInRange(m, s);
    if i == j - 1 {
      AfterVideo(m, s, asked[j]);
      assert asked[j] ==> exists k | i < k <= j :: asked[k];
    } else {
      IndexIsKept(m, asked, i, j - 1);
      AfterAudio(m, s, asked[j]);
      assert asked[j] ==> exists k | i < k <= j :: asked[k];
      if k :| i < k <= j - 1 && asked[k] { assert i < k <= j && asked[k]; }
    }
  }

  /** The first unit sent is the file's first, or its first IDR if a keyframe was asked for. */
  lemma FirstUnitIsFirst(m: Media, asked: seq<bool>)
    requires Playable(m) && asked != []
    ensures SendOf(m, Before(m, asked, 0))
         == VideoSend(if asked[0] && m.firstIdr.Some? then m.firstIdr.value else 0, 0, m.videoStart)
  {
    hide Inv;
  }
}
