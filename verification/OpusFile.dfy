/** The Opus packets of a sample file and how long they play (RFC 6716 section 3.1). */
module OpusFile {
  import opened Basics
  import opened OggDemux

  const SAMPLE_RATE := 48000
  const LONGEST_PACKET := 5760
  const OPUS_HEAD: seq<byte> := [0x4F, 0x70, 0x75, 0x73, 0x48, 0x65, 0x61, 0x64]
  const OPUS_TAGS: seq<byte> := [0x4F, 0x70, 0x75, 0x73, 0x54, 0x61, 0x67, 0x73]

  datatype OpusError =
    | Container(error: OggError) | MissingHeaders | BadIdentification | BadFormat
    | EmptyPacket | TruncatedFrameCount | ZeroFrames | TooLong

  // ------------------------------------------------------------- packets

  /** Samples per frame, from the upper five bits of the table-of-contents byte. */
  function SamplesPerFrame(configuration: nat): nat {
    if configuration >= 16 then
      (match configuration % 4 case 0 => 120 case 1 => 240 case 2 => 480 case _ => 960)
    else if configuration >= 12 then (if configuration % 2 == 0 then 480 else 960)
    else if configuration % 4 == 3 then 2880
    else (match configuration % 4 case 0 => 480 case 1 => 960 case _ => 1920)
  }

  function SampleCount(packet: Packet): Result<nat, OpusError> {
    if packet == [] then Err(EmptyPacket)
    else
      var toc: nat := packet[0];
      if toc % 4 == 3 && |packet| < 2 then Err(TruncatedFrameCount)
      else
        var frames := match toc % 4 case 0 => 1 case 3 => (packet[1] % 64) as int case _ => 2;
        if frames == 0 then Err(ZeroFrames)
        else if SamplesPerFrame(toc / 8) * frames > LONGEST_PACKET then Err(TooLong)
        else Ok(SamplesPerFrame(toc / 8) * frames)
  }

  /** The frame sizes of table 2 of RFC 6716, in units of 2.5 ms. */
  const FRAME_SIZES: seq<nat> := [4, 8, 16, 24, 4, 8, 16, 24, 4, 8, 16, 24, 4, 8, 4, 8,
                                 1, 2, 4, 8, 1, 2, 4, 8, 1, 2, 4, 8, 1, 2, 4, 8]

  lemma FrameSizesFollowTheTable(configuration: nat)
    requires configuration < 32
    ensures SamplesPerFrame(configuration) == 120 * FRAME_SIZES[configuration]
  {
    if configuration < 8 {
    } else if configuration < 16 {
    } else if configuration < 24 {
    } else {
    }
  }

  /** Every accepted packet lasts a whole number of 2.5 ms units, at most 120 ms. */
  lemma PacketsAreWholeUnits(packet: Packet)
    requires SampleCount(packet).Ok?
    ensures var n := SampleCount(packet).value; 0 < n <= LONGEST_PACKET && n % 120 == 0
  {
    var toc: nat := packet[0];
    FrameSizesFollowTheTable(toc / 8);
    var frames := match toc % 4 case 0 => 1 case 3 => (packet[1] % 64) as int case _ => 2;
    WholeUnits(FRAME_SIZES[toc / 8], frames);
  }

  lemma WholeUnits(units: nat, frames: nat)
    ensures (120 * units) * frames % 120 == 0
  {
    assert (120 * units) * frames == 120 * (units * frames);
  }

  // ---------------------------------------------------------------- files

  datatype Sample = Sample(packets: seq<Packet>, counts: seq<nat>, channels: nat, preSkip: nat)

  function LittleEndian16(b: seq<byte>): nat
    requires |b| == 2
  {
    (b[0] as int) + 256 * (b[1] as int)
  }

  ghost predicate HeadersOk(ogg: seq<Packet>) {
    && |ogg| >= 3 && OPUS_HEAD <= ogg[0] && OPUS_TAGS <= ogg[1]
    && |ogg[0]| >= 19 && ogg[0][8] <= 15
    && ogg[0][9] != 0 && LittleEndian32(ogg[0][12..16]) == SAMPLE_RATE
  }

  /** The sample is the stream's packets after its two headers, each with its sample count. */
  ghost predicate IsSampleOf(s: Sample, ogg: seq<Packet>) {
    && HeadersOk(ogg) && s.packets == ogg[2..] && s.channels == ogg[0][9]
    && s.preSkip == LittleEndian16(ogg[0][10..12])
    && |s.counts| == |s.packets| > 0
    && forall i | 0 <= i < |s.packets| :: SampleCount(s.packets[i]) == Ok(s.counts[i])
  }

  method OpenOpusFile(data: seq<byte>) returns (r: Result<Sample, OpusError>)
    ensures match Demux(data, [], None)
            case Err(e) => r == Err(Container(e))
            case Ok(ogg) =>
              && (r.Ok? <==> HeadersOk(ogg) && forall i | 2 <= i < |ogg| :: SampleCount(ogg[i]).Ok?)
              && (r.Ok? ==> IsSampleOf(r.value, ogg))
  {
    hide Demux, SampleCount;
    var extracted := ExtractOggPackets(data);
    if extracted.Err? {
      return Err(Container(extracted.error));
    }
    var ogg := extracted.value;
    if |ogg| < 3 || !(OPUS_HEAD <= ogg[0]) || !(OPUS_TAGS <= ogg[1]) {
      return Err(MissingHeaders);
    }
    if |ogg[0]| < 19 || ogg[0][8] > 15 {
      return Err(BadIdentification);
    }
    var channels, preSkip := ogg[0][9], LittleEndian16(ogg[0][10..12]);
    if channels == 0 || LittleEndian32(ogg[0][12..16]) != SAMPLE_RATE {
      return Err(BadFormat);
    }
    var packets, counts: seq<nat> := ogg[2..], [];
    for i := 0 to |packets|
      invariant |counts| == i
      invariant forall k | 0 <= k < i :: SampleCount(packets[k]) == Ok(counts[k])
    {
      var count := SampleCount(packets[i]);
      if count.Err? {
        assert ogg[i + 2] == packets[i];
        return Err(count.error);
      }
      counts := counts + [count.value];
    }
    assert forall i | 2 <= i < |ogg| :: ogg[i] == packets[i - 2];
    return Ok(Sample(packets, counts, channels, preSkip));
  }

  // ------------------------------------------------------------ durations

  function PacketDuration(s: Sample, i: nat): nat
    requires i < |s.counts|
  {
    s.counts[i] * 1_000_000 / SAMPLE_RATE
  }

  function SumOf(counts: seq<nat>): nat {
    if counts == [] then 0 else SumOf(counts[..|counts| - 1]) + counts[|counts| - 1]
  }

  function TotalPacketDuration(s: Sample): nat { SumOf(s.counts) * 1_000_000 / SAMPLE_RATE }

  ghost predicate WholeUnitCounts(counts: seq<nat>) {
    forall i | 0 <= i < |counts| :: 0 < counts[i] <= LONGEST_PACKET && counts[i] % 120 == 0
  }

  lemma SamplesHaveWholeUnits(s: Sample, ogg: seq<Packet>)
    requires IsSampleOf(s, ogg)
    ensures WholeUnitCounts(s.counts)
  {
    hide SampleCount;
    forall i | 0 <= i < |s.counts| ensures 0 < s.counts[i] <= LONGEST_PACKET && s.counts[i] % 120 == 0 {
      PacketsAreWholeUnits(s.packets[i]);
    }
  }

  /** 120 samples are exactly 2500 microseconds. */
  lemma DurationIsExact(n: nat)
    requires n % 120 == 0
    ensures n * 1_000_000 / SAMPLE_RATE == n / 120 * 2500
    ensures n * 1_000_000 / SAMPLE_RATE * SAMPLE_RATE == n * 1_000_000
  {
    var units := n / 120;
    assert n == 120 * units;
    assert n * 1_000_000 == SAMPLE_RATE * (2500 * units);
  }

  function SumOfDurations(s: Sample, k: nat): nat
    requires k <= |s.counts|
  {
    if k == 0 then 0 else SumOfDurations(s, k - 1) + PacketDuration(s, k - 1)
  }

  lemma {:induction false} DurationsAdd(s: Sample, k: nat)
    requires WholeUnitCounts(s.counts) && k <= |s.counts|
    ensures SumOf(s.counts[..k]) % 120 == 0
    ensures SumOfDurations(s, k) == SumOf(s.counts[..k]) * 1_000_000 / SAMPLE_RATE
  {
    if k > 0 {
      DurationsAdd(s, k - 1);
      assert s.counts[..k][..k - 1] == s.counts[..k - 1];
      var before, last := SumOf(s.counts[..k - 1]), s.counts[k - 1];
      DurationIsExact(before);
      DurationIsExact(last);
      DurationIsExact(before + last);
    }
  }

  /** No time is lost to rounding: the total is the sum of the packets' durations. */
  lemma TotalIsSumOfDurations(s: Sample, ogg: seq<Packet>)
    requires IsSampleOf(s, ogg)
    ensures TotalPacketDuration(s) == SumOfDurations(s, |s.counts|)
    ensures TotalPacketDuration(s) * SAMPLE_RATE == SumOf(s.counts) * 1_000_000
  {
    hide IsSampleOf;
    SamplesHaveWholeUnits(s, ogg);
    DurationsAdd(s, |s.counts|);
    assert s.counts[..|s.counts|] == s.counts;
    DurationIsExact(SumOf(s.counts));
  }
}
