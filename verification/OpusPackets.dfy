/** A builder of Opus packets, written from RFC 6716 section 3.2, and the proof that the reader
    counts the frames that were put in, and accepts nothing that does not begin as a packet of
    at most 120 ms does. */
module OpusPackets {
  import opened Basics
  import opened OggDemux
  import opened OpusFile

  type Frame = seq<byte>

  /** The four frame packings: one frame; two of equal length; two with the first one's length;
      and a counted list of equal frames or, with `lengths`, of any, and perhaps padding. */
  datatype Packing = One | TwoEqual | TwoSized | Counted(lengths: bool, padding: Option<nat>)

  ghost predicate AllShort(frames: seq<Frame>) { forall f | f in frames :: |f| <= 1275 }

  ghost predicate AllEqual(frames: seq<Frame>) { forall f, g | f in frames && g in frames :: |f| == |g| }

  ghost predicate Packable(p: Packing, frames: seq<Frame>) {
    && AllShort(frames)
    && match p
       case One => |frames| == 1
       case TwoEqual => |frames| == 2 && AllEqual(frames)
       case TwoSized => |frames| == 2
       case Counted(lengths, _) => 1 <= |frames| <= 63 && (!lengths ==> AllEqual(frames))
  }

  /** The frame count code, the low two bits of the first byte. */
  function Code(p: Packing): nat {
    match p case One => 0 case TwoEqual => 1 case TwoSized => 2 case Counted(_, _) => 3
  }

  function Toc(configuration: nat, stereo: bool, p: Packing): byte
    requires configuration < 32
  {
    configuration * 8 + (if stereo then 4 else 0) + Code(p)
  }

  /** Section 3.2.5: the count byte holds a flag for lengths, one for padding, and the count. */
  function CountByte(lengths: bool, padded: bool, count: nat): byte
    requires count < 64
  {
    (if lengths then 128 else 0) + (if padded then 64 else 0) + count
  }

  /** Section 3.2.1: one byte below 252, else two with the low part first. */
  function LengthBytes(n: nat): seq<byte>
    requires n <= 1275
  {
    if n < 252 then [n] else [252 + n % 4, (n - 252 - n % 4) / 4]
  }

  function PaddingLength(n: nat): seq<byte> { if n < 255 then [n] else [255] + PaddingLength(n - 254) }

  function Joined(frames: seq<Frame>): seq<byte> { if frames == [] then [] else frames[0] + Joined(frames[1..]) }

  function Lengths(frames: seq<Frame>): seq<byte>
    requires AllShort(frames)
  {
    if |frames| <= 1 then [] else LengthBytes(|frames[0]|) + Lengths(frames[1..])
  }

  /** What a packet begins with: its table-of-contents byte, and the count byte if it is counted. */
  function Start(configuration: nat, stereo: bool, p: Packing, frames: seq<Frame>): seq<byte>
    requires configuration < 32 && Packable(p, frames)
  {
    [Toc(configuration, stereo, p)]
    + if p.Counted? then [CountByte(p.lengths, p.padding.Some?, |frames|)] else []
  }

  function Body(p: Packing, frames: seq<Frame>): seq<byte>
    requires Packable(p, frames)
  {
    match p
    case One | TwoEqual => Joined(frames)
    case TwoSized => LengthBytes(|frames[0]|) + Joined(frames)
    case Counted(lengths, padding) =>
      (if padding.Some? then PaddingLength(padding.value) else [])
      + (if lengths then Lengths(frames) else [])
      + Joined(frames)
      + (if padding.Some? then seq(padding.value, _ => 0) else [])
  }

  function Build(configuration: nat, stereo: bool, p: Packing, frames: seq<Frame>): seq<byte>
    requires configuration < 32 && Packable(p, frames)
  {
    Start(configuration, stereo, p, frames) + Body(p, frames)
  }

  /** Samples at 48 kHz of so many frames, by the durations of table 2. */
  function Duration(configuration: nat, count: nat): nat
    requires configuration < 32
  {
    120 * FRAME_SIZES[configuration] * count
  }

  // ---------------------------------------------------------- both directions

  lemma TocFields(configuration: nat, stereo: bool, p: Packing)
    requires configuration < 32
    ensures Toc(configuration, stereo, p) as nat / 8 == configuration
    ensures Toc(configuration, stereo, p) as nat % 4 == Code(p)
  {}

  lemma CountField(lengths: bool, padded: bool, count: nat)
    requires count < 64
    ensures CountByte(lengths, padded, count) as nat % 64 == count
  {}

  /** Any data that begins as this packet does is counted as its frames, if they fit in 120 ms. */
  lemma BeginningIsCounted(data: Packet, configuration: nat, stereo: bool, p: Packing, frames: seq<Frame>)
    requires configuration < 32 && Packable(p, frames) && Start(configuration, stereo, p, frames) <= data
    ensures SampleCount(data) == if Duration(configuration, |frames|) <= 5760
                                 then Ok(Duration(configuration, |frames|)) else Err(TooLong)
  {
    hide Toc, CountByte, SamplesPerFrame, AllShort, AllEqual;
    var start := Start(configuration, stereo, p, frames);
    assert data[0] == start[0];
    if p.Counted? {
      assert data[1] == start[1];
      CountField(p.lengths, p.padding.Some?, |frames|);
    }
    TocFields(configuration, stereo, p);
    FrameSizesFollowTheTable(configuration);
  }

  /** A packet built from any frames counts as many frames as were put in, each of the duration
      of its configuration; beyond 120 ms it is refused. */
  lemma BuiltPacketIsCounted(configuration: nat, stereo: bool, p: Packing, frames: seq<Frame>)
    requires configuration < 32 && Packable(p, frames)
    ensures SampleCount(Build(configuration, stereo, p, frames))
         == if Duration(configuration, |frames|) <= 5760 then Ok(Duration(configuration, |frames|)) else Err(TooLong)
  {
    hide SampleCount, Start, Body;
    assert Start(configuration, stereo, p, frames) <= Build(configuration, stereo, p, frames);
    BeginningIsCounted(Build(configuration, stereo, p, frames), configuration, stereo, p, frames);
  }

  /** The data begins as a packet of that many frames of that configuration does. */
  ghost predicate BeginsAs(data: Packet, configuration: nat, count: nat) {
    && configuration < 32
    && exists stereo, p, frames ::
         Packable(p, frames) && |frames| == count && Start(configuration, stereo, p, frames) <= data
  }

  ghost predicate Lasts(data: Packet, n: nat) {
    exists configuration: nat, count: nat ::
      BeginsAs(data, configuration, count) && 0 < n == Duration(configuration, count) <= 5760
  }

  function Silence(count: nat): (frames: seq<Frame>)
    ensures |frames| == count && AllShort(frames) && AllEqual(frames)
  {
    seq(count, _ => [])
  }

  lemma TocParts(b: byte)
    ensures b / 8 < 32 && b == b / 8 * 8 + (if b / 4 % 2 == 1 then 4 else 0) + b % 4
  {}

  lemma CountParts(b: byte)
    ensures b == (if b / 128 == 1 then 128 else 0) + (if b / 64 % 2 == 1 then 64 else 0) + b % 64
  {}

  lemma AcceptedBegins(data: Packet) returns (configuration: nat, count: nat)
    requires SampleCount(data).Ok?
    ensures BeginsAs(data, configuration, count)
  {
    hide SamplesPerFrame;
    var toc: nat := data[0];
    var stereo := toc / 4 % 2 == 1;
    configuration := toc / 8;
    count := if toc % 4 == 0 then 1 else if toc % 4 == 3 then data[1] % 64 else 2;
    var p := match toc % 4
             case 0 => One case 1 => TwoEqual case 2 => TwoSized
             case _ => Counted(data[1] / 128 == 1, if data[1] / 64 % 2 == 1 then Some(0) else None);
    var frames := Silence(count);
    assert Packable(p, frames);
    TocParts(data[0]);
    assert Toc(configuration, stereo, p) == data[0];
    if toc % 4 == 3 {
      CountParts(data[1]);
      assert CountByte(p.lengths, p.padding.Some?, count) == data[1];
    }
    hide Toc, CountByte, Packable;
    assert Start(configuration, stereo, p, frames) <= data;
  }

  /** Nothing else is accepted: a packet counts n samples if and only if it begins as a packet
      of some frames that last n samples, at most 120 ms, does. */
  lemma CountsExactlyItsFrames(data: Packet, n: nat)
    ensures SampleCount(data) == Ok(n) <==> Lasts(data, n)
  {
    hide SampleCount, Start, Packable, SamplesPerFrame;
    if SampleCount(data) == Ok(n) {
      var configuration, count := AcceptedBegins(data);
      BeginningLasts(data, configuration, count);
      PacketsAreWholeUnits(data);
    }
    forall configuration: nat, count: nat
      | BeginsAs(data, configuration, count) && 0 < n == Duration(configuration, count) <= 5760
      ensures SampleCount(data) == Ok(n)
    {
      BeginningLasts(data, configuration, count);
    }
  }

  lemma BeginningLasts(data: Packet, configuration: nat, count: nat)
    requires BeginsAs(data, configuration, count)
    ensures SampleCount(data) == if Duration(configuration, count) <= 5760
                                 then Ok(Duration(configuration, count)) else Err(TooLong)
  {
    hide SampleCount, Start;
    var stereo, p, frames :|
      Packable(p, frames) && |frames| == count && Start(configuration, stereo, p, frames) <= data;
    BeginningIsCounted(data, configuration, stereo, p, frames);
  }

  // ------------------------------------------------------------- the headers

  /** The identification header of RFC 7845 section 5.1: "OpusHead", the version, the channels,
      the pre-skip and the input sample rate least byte first, the gain, and the mapping. */
  function Identification(version: byte, channels: byte, preSkip: nat, rate: nat, gain: seq<byte>,
                          mapping: seq<byte>): seq<byte>
    requires preSkip < 0x1_0000 && rate < TWO_TO_THE_32 && |gain| == 2
  {
    [79, 112, 117, 115, 72, 101, 97, 100] + [version, channels] + [preSkip % 256, preSkip / 256] + Bytes32(rate)
      + gain + mapping
  }

  /** Section 5.2: the comment header begins with "OpusTags". */
  ghost predicate IsComment(tags: seq<byte>) { [79, 112, 117, 115, 84, 97, 103, 115] <= tags }

  /** The headers of a file are accepted exactly for the major version 0, some channel and the
      rate 48000, and the channels and the pre-skip are read back. */
  lemma HeadersAreReadBack(s: Sample, version: byte, channels: byte, preSkip: nat, rate: nat, gain: seq<byte>,
                           mapping: seq<byte>, tags: seq<byte>, audio: seq<Packet>)
    requires preSkip < 0x1_0000 && rate < TWO_TO_THE_32 && |gain| == 2 && mapping != []
    ensures var ogg := [Identification(version, channels, preSkip, rate, gain, mapping), tags] + audio;
            && (HeadersOk(ogg) <==> version <= 15 && channels > 0 && rate == 48000 && IsComment(tags) && audio != [])
            && (IsSampleOf(s, ogg) ==> s.channels == channels && s.preSkip == preSkip && s.packets == audio)
  {
    hide SampleCount, Bytes32, LittleEndian32;
    var id := Identification(version, channels, preSkip, rate, gain, mapping);
    var ogg := [id, tags] + audio;
    assert ogg[2..] == audio;
    assert id[12..16] == Bytes32(rate) && id[10..12] == [preSkip % 256, preSkip / 256];
    assert id[..8] == [79, 112, 117, 115, 72, 101, 97, 100];
    NumberOfBytes(rate);
  }
}
