/** Ogg pages (RFC 3533 section 6): taking a single logical stream apart into packets, and
    the proof that the demuxer accepts exactly the streams that carry its result. */
module OggDemux {
  import opened Basics

  type Packet = seq<byte>
  type Segment = seq<byte>

  const CAPTURE_PATTERN: seq<byte> := [0x4F, 0x67, 0x67, 0x53]
  const FULL_SEGMENT := 255
  const HEADER_SIZE := 27

  datatype OggError =
    | InvalidCapturePattern | UnsupportedVersion | UnexpectedStreamOrSequence
    | InvalidContinuedFlag | TruncatedSegmentTable | TruncatedPayload | IncompletePacket

  // ---------------------------------------------------- packets and lacing

  /** Packets completed by the segments so far, and the bytes of the one still open. */
  datatype Fed = Fed(packets: seq<Packet>, current: Packet)

  function Add(f: Fed, segment: Segment): Fed {
    if |segment| < FULL_SEGMENT then Fed(f.packets + [f.current + segment], [])
    else Fed(f.packets, f.current + segment)
  }

  function Feed(segments: seq<Segment>): Fed {
    if segments == [] then Fed([], [])
    else Add(Feed(segments[..|segments| - 1]), segments[|segments| - 1])
  }

  /** The lacing of RFC 3533: full segments, then one shorter, possibly empty, segment. */
  function Lacing(packet: Packet): (r: seq<Segment>)
    ensures r != []
  {
    if |packet| < 255 then [packet]
    else [packet[..255]] + Lacing(packet[255..])
  }

  function LacingOfAll(packets: seq<Packet>): seq<Segment> {
    if packets == [] then []
    else LacingOfAll(packets[..|packets| - 1]) + Lacing(packets[|packets| - 1])
  }

  /** A packet is open exactly when the last segment was a full one. */
  predicate Unfinished(segments: seq<Segment>) {
    segments != [] && |segments[|segments| - 1]| == 255
  }

  ghost predicate SegmentsFit(segments: seq<Segment>) {
    forall k | 0 <= k < |segments| :: |segments[k]| <= 255
  }

  function TrailingRun(segments: seq<Segment>): nat {
    if Unfinished(segments) then 1 + TrailingRun(segments[..|segments| - 1]) else 0
  }

  /** Why the continued-packet flag can be compared with the emptiness of the open packet. */
  lemma {:induction false} OpenPacketLength(segments: seq<Segment>)
    requires SegmentsFit(segments)
    ensures |Feed(segments).current| == FULL_SEGMENT * TrailingRun(segments)
    ensures Feed(segments).current != [] <==> Unfinished(segments)
  {
    if segments != [] {
      OpenPacketLength(segments[..|segments| - 1]);
    }
  }

  lemma {:induction false} FeedLacing(before: seq<Segment>, packet: Packet)
    ensures Feed(before + Lacing(packet)) == Fed(Feed(before).packets + [Feed(before).current + packet], [])
    decreases |packet|
  {
    hide Feed;
    if |packet| < FULL_SEGMENT {
      FeedOne(before, packet);
    } else {
      var first, rest := packet[..FULL_SEGMENT], packet[FULL_SEGMENT..];
      assert before + Lacing(packet) == before + [first] + Lacing(rest);
      FeedOne(before, first);
      FeedLacing(before + [first], rest);
      assert Feed(before).current + first + rest == Feed(before).current + packet;
    }
  }

  lemma FeedOne(before: seq<Segment>, segment: Segment)
    ensures var fed := Feed(before);
            Feed(before + [segment])
            == if |segment| < FULL_SEGMENT then Fed(fed.packets + [fed.current + segment], [])
               else Fed(fed.packets, fed.current + segment)
  {
    assert (before + [segment])[..|before|] == before;
  }

  lemma FeedNothing()
    ensures Feed([]) == Fed([], [])
  {}

  lemma {:induction false} FeedInvertsLacing(packets: seq<Packet>)
    ensures Feed(LacingOfAll(packets)) == Fed(packets, [])
  {
    hide Feed, Lacing;
    FeedNothing();
    if packets != [] {
      var n := |packets| - 1;
      FeedInvertsLacing(packets[..n]);
      FeedLacing(LacingOfAll(packets[..n]), packets[n]);
      assert [] + packets[n] == packets[n];
      assert packets == packets[..n] + [packets[n]];
    }
  }

  /** The full segments of an open packet. */
  function Full(open: Packet): seq<Segment> {
    if |open| < FULL_SEGMENT then [] else [open[..FULL_SEGMENT]] + Full(open[FULL_SEGMENT..])
  }

  lemma {:induction false} FullThen(open: Packet, segment: Segment)
    requires |open| % FULL_SEGMENT == 0
    ensures |segment| < FULL_SEGMENT ==> Lacing(open + segment) == Full(open) + [segment]
    ensures |segment| == FULL_SEGMENT ==> Full(open + segment) == Full(open) + [segment]
  {
    if |open| >= FULL_SEGMENT {
      FullThen(open[FULL_SEGMENT..], segment);
      assert (open + segment)[..FULL_SEGMENT] == open[..FULL_SEGMENT];
      assert (open + segment)[FULL_SEGMENT..] == open[FULL_SEGMENT..] + segment;
    } else {
      assert open == [] && open + segment == segment;
      if |segment| == FULL_SEGMENT { assert segment[..FULL_SEGMENT] == segment; }
    }
  }

  lemma NothingOpen()
    ensures Full([]) == []
  {}

  lemma LacingGrows(packets: seq<Packet>, packet: Packet)
    ensures LacingOfAll(packets + [packet]) == LacingOfAll(packets) + Lacing(packet)
  {
    hide Lacing;
    assert (packets + [packet])[..|packets|] == packets;
  }

  lemma LacingOfAdded(f: Fed, segment: Segment)
    requires |f.current| % FULL_SEGMENT == 0 && |segment| <= FULL_SEGMENT
    ensures |Add(f, segment).current| % FULL_SEGMENT == 0
    ensures LacingOfAll(Add(f, segment).packets) + Full(Add(f, segment).current)
            == LacingOfAll(f.packets) + Full(f.current) + [segment]
  {
    hide Lacing, Full, LacingOfAll;
    FullThen(f.current, segment);
    LacingGrows(f.packets, f.current + segment);
    NothingOpen();
  }

  /** No two segment lists assemble to the same packets: the list is the packets' lacing. */
  lemma {:induction false} LacingInvertsFeed(segments: seq<Segment>)
    requires SegmentsFit(segments)
    ensures |Feed(segments).current| % FULL_SEGMENT == 0
    ensures segments == LacingOfAll(Feed(segments).packets) + Full(Feed(segments).current)
  {
    hide Lacing, Full, Add;
    if segments == [] {
      NothingOpen();
    } else {
      var n := |segments| - 1;
      LacingInvertsFeed(segments[..n]);
      LacingOfAdded(Feed(segments[..n]), segments[n]);
      assert segments == segments[..n] + [segments[n]];
    }
  }

  // ------------------------------------------------------- segment tables

  function Sum(table: seq<byte>): nat {
    if table == [] then 0 else Sum(table[..|table| - 1]) + table[|table| - 1]
  }

  /** The payload cut where the table says. */
  function Cut(payload: seq<byte>, table: seq<byte>): (r: seq<Segment>)
    requires Sum(table) <= |payload|
    ensures |r| == |table|
  {
    if table == [] then []
    else
      var n := |table| - 1;
      Cut(payload, table[..n]) + [payload[Sum(table[..n])..Sum(table)]]
  }

  function Table(segments: seq<Segment>): (r: seq<byte>)
    requires SegmentsFit(segments)
    ensures |r| == |segments|
  {
    seq(|segments|, k requires 0 <= k < |segments| => |segments[k]|)
  }

  function Payload(segments: seq<Segment>): seq<byte> {
    if segments == [] then []
    else Payload(segments[..|segments| - 1]) + segments[|segments| - 1]
  }

  lemma {:induction false} CutIgnoresTail(payload: seq<byte>, tail: seq<byte>, table: seq<byte>)
    requires Sum(table) <= |payload|
    ensures Cut(payload + tail, table) == Cut(payload, table)
  {
    if table != [] {
      var n := |table| - 1;
      CutIgnoresTail(payload, tail, table[..n]);
      assert (payload + tail)[Sum(table[..n])..Sum(table)] == payload[Sum(table[..n])..Sum(table)];
    }
  }

  lemma TableGrows(segments: seq<Segment>)
    requires SegmentsFit(segments) && segments != []
    ensures var n := |segments| - 1;
            && SegmentsFit(segments[..n]) && Table(segments)[..n] == Table(segments[..n])
            && Table(segments)[n] == |segments[n]|
  {}

  lemma CutGrows(payload: seq<byte>, segment: Segment, table: seq<byte>)
    requires |segment| <= 255 && Sum(table) == |payload|
    ensures Sum(table + [|segment|]) == |payload + segment|
    ensures Cut(payload + segment, table + [|segment|]) == Cut(payload, table) + [segment]
  {
    var longer := table + [|segment|];
    assert longer[..|table|] == table;
    CutIgnoresTail(payload, segment, table);
    assert (payload + segment)[Sum(table)..Sum(longer)] == segment;
  }

  lemma {:induction false} CutInvertsPayload(segments: seq<Segment>)
    requires SegmentsFit(segments)
    ensures Sum(Table(segments)) == |Payload(segments)|
    ensures Cut(Payload(segments), Table(segments)) == segments
  {
    hide Cut, Sum, Table, SegmentsFit;
    if segments == [] {
      CutNothing();
    } else {
      var n := |segments| - 1;
      TableGrows(segments);
      CutInvertsPayload(segments[..n]);
      CutGrows(Payload(segments[..n]), segments[n], Table(segments[..n]));
      assert Table(segments) == Table(segments[..n]) + [|segments[n]|];
      assert segments == segments[..n] + [segments[n]];
    }
  }

  lemma CutNothing()
    ensures Table([]) == [] && Sum([]) == 0 && Cut([], []) == []
  {}

  lemma {:induction false} PayloadInvertsCut(payload: seq<byte>, table: seq<byte>)
    requires Sum(table) <= |payload|
    ensures SegmentsFit(Cut(payload, table))
    ensures Table(Cut(payload, table)) == table
    ensures Payload(Cut(payload, table)) == payload[..Sum(table)]
  {
    if table != [] {
      var n := |table| - 1;
      PayloadInvertsCut(payload, table[..n]);
      var front := Cut(payload, table[..n]);
      assert Cut(payload, table)[..n] == front;
      assert forall k | 0 <= k < n :: table[k] == Table(front)[k];
    }
  }

  // --------------------------------------------------------------- pages

  function LittleEndian32(b: seq<byte>): (n: nat)
    requires |b| == 4
    ensures n < TWO_TO_THE_32
  {
    (b[0] as int) + 256 * (b[1] as int) + 0x1_0000 * (b[2] as int) + 0x100_0000 * (b[3] as int)
  }

  function Bytes32(n: nat): (b: seq<byte>)
    requires n < TWO_TO_THE_32
    ensures |b| == 4
  {
    [n % 256, n / 256 % 256, n / 256 / 256 % 256, n / 256 / 256 / 256]
  }

  lemma NumberOfBytes(n: nat)
    requires n < TWO_TO_THE_32
    ensures LittleEndian32(Bytes32(n)) == n
  {}

  lemma BytesOfNumber(b: seq<byte>)
    requires |b| == 4
    ensures Bytes32(LittleEndian32(b)) == b
  {
    var n := LittleEndian32(b);
    assert n / 256 == (b[1] as int) + 256 * (b[2] as int) + 0x1_0000 * (b[3] as int);
    assert n / 256 / 256 == (b[2] as int) + 256 * (b[3] as int);
  }

  /** A page of version 0. The granule position and checksum are carried but not looked at. */
  datatype Page = Page(headerType: byte, granule: seq<byte>, serial: nat, sequence: nat,
                       checksum: seq<byte>, segments: seq<Segment>)

  ghost predicate WellFormed(p: Page) {
    && |p.granule| == 8 && |p.checksum| == 4
    && p.serial < TWO_TO_THE_32 && p.sequence < TWO_TO_THE_32
    && |p.segments| <= 255 && SegmentsFit(p.segments)
  }

  function PageHeader(p: Page): (r: seq<byte>)
    requires WellFormed(p)
    ensures |r| == HEADER_SIZE
  {
    [79, 103, 103, 83] + [0, p.headerType] + p.granule + Bytes32(p.serial) + Bytes32(p.sequence)
      + p.checksum + [|p.segments|]
  }

  function PageBytes(p: Page): seq<byte>
    requires WellFormed(p)
  {
    PageHeader(p) + Table(p.segments) + Payload(p.segments)
  }

  ghost predicate AllWellFormed(pages: seq<Page>) {
    forall k | 0 <= k < |pages| :: WellFormed(pages[k])
  }

  ghost function StreamBytes(pages: seq<Page>): seq<byte>
    requires AllWellFormed(pages)
  {
    if pages == [] then []
    else assert WellFormed(pages[0]); PageBytes(pages[0]) + StreamBytes(pages[1..])
  }

  function SegmentsOf(pages: seq<Page>): seq<Segment> {
    if pages == [] then [] else pages[0].segments + SegmentsOf(pages[1..])
  }

  // ------------------------------------------------------------ demuxing

  /** The logical stream found on the first page and the sequence number expected next. */
  datatype Position = Position(serial: nat, expected: nat)

  function Next(sequence: nat): nat { (sequence + 1) % TWO_TO_THE_32 }

  datatype Parsed = Bad(error: OggError) | Parsed(page: Page, rest: seq<byte>)

  /** One page off the front of the data, checked in the code's order. */
  function ParsePage(data: seq<byte>, open: bool, position: Option<Position>): Parsed {
    if |data| < HEADER_SIZE || data[..4] != CAPTURE_PATTERN then Bad(InvalidCapturePattern)
    else if data[4] != 0 then Bad(UnsupportedVersion)
    else
      var headerType, serial, sequence := data[5], LittleEndian32(data[14..18]), LittleEndian32(data[18..22]);
      if position.Some? && position.value != Position(serial, sequence) then Bad(UnexpectedStreamOrSequence)
      else if (headerType % 2 == 1) != open then Bad(InvalidContinuedFlag)
      else if HEADER_SIZE + data[26] > |data| then Bad(TruncatedSegmentTable)
      else
        var payload := HEADER_SIZE + data[26];
        var table := data[HEADER_SIZE..payload];
        if payload + Sum(table) > |data| then Bad(TruncatedPayload)
        else Parsed(Page(headerType, data[6..14], serial, sequence, data[22..26], Cut(data[payload..], table)),
                    data[payload + Sum(table)..])
  }

  lemma ParsedIsShorter(data: seq<byte>, open: bool, position: Option<Position>)
    requires ParsePage(data, open, position).Parsed?
    ensures |ParsePage(data, open, position).rest| < |data|
  {}

  function Demux(data: seq<byte>, segments: seq<Segment>, position: Option<Position>):
    Result<seq<Packet>, OggError>
    decreases |data|
  {
    if data == [] then
      if Feed(segments).current != [] then Err(IncompletePacket) else Ok(Feed(segments).packets)
    else
      match ParsePage(data, Feed(segments).current != [], position)
      case Bad(error) => Err(error)
      case Parsed(page, rest) =>
        ParsedIsShorter(data, Feed(segments).current != [], position);
        Demux(rest, segments + page.segments, Some(Position(page.serial, Next(page.sequence))))
  }

  /** The demuxer as it runs: one pass, one open packet, offsets into the file. */
  method ExtractOggPackets(data: seq<byte>) returns (r: Result<seq<Packet>, OggError>)
    ensures r == Demux(data, [], None)
  {
    hide Demux, Feed, ParsePage, Cut, Sum, LittleEndian32;
    var packets, currentPacket: Packet := [], [];
    var offset := 0;
    var streamSerial: nat, expectedSequence: nat := 0, 0;
    var foundStream := false;
    ghost var segments: seq<Segment> := [];
    assert data[0..] == data;
    FeedNothing();
    while offset < |data|
      invariant offset <= |data|
      invariant Feed(segments) == Fed(packets, currentPacket)
      invariant Demux(data[offset..], segments,
                      if foundStream then Some(Position(streamSerial, expectedSequence)) else None)
             == Demux(data, [], None)
    {
      ghost var position := if foundStream then Some(Position(streamSerial, expectedSequence)) else None;
      ghost var at := data[offset..];
      DemuxStep(at, segments, position);
      if offset + 27 > |data| || data[offset..offset + 4] != CAPTURE_PATTERN {
        ParseAtOffset(data, offset, currentPacket != [], position);
        return Err(InvalidCapturePattern);
      }
      if data[offset + 4] != 0 {
        ParseAtOffset(data, offset, currentPacket != [], position);
        return Err(UnsupportedVersion);
      }
      var headerType := data[offset + 5];
      var pageSerial := LittleEndian32(data[offset + 14..offset + 18]);
      var pageSequence := LittleEndian32(data[offset + 18..offset + 22]);
      ParseAtOffset(data, offset, currentPacket != [], position);
      if !foundStream {
        streamSerial, expectedSequence, foundStream := pageSerial, pageSequence, true;
      }
      if pageSerial != streamSerial || pageSequence != expectedSequence {
        return Err(UnexpectedStreamOrSequence);
      }
      expectedSequence := (expectedSequence + 1) % TWO_TO_THE_32;
      if (headerType % 2 == 1) != (currentPacket != []) {
        return Err(InvalidContinuedFlag);
      }
      var segmentTableOffset := offset + 27;
      var payloadOffset := segmentTableOffset + data[offset + 26];
      if payloadOffset > |data| {
        return Err(TruncatedSegmentTable);
      }
      var pagePayloadSize := PayloadSize(data[segmentTableOffset..payloadOffset]);
      if payloadOffset + pagePayloadSize > |data| {
        return Err(TruncatedPayload);
      }
      packets, currentPacket := AppendSegments(data[segmentTableOffset..payloadOffset], data[payloadOffset..],
                                               packets, currentPacket, segments);
      segments := segments + Cut(data[payloadOffset..], data[segmentTableOffset..payloadOffset]);
      offset := payloadOffset + pagePayloadSize;
    }
    assert data[offset..] == [];
    DemuxEnds(segments, if foundStream then Some(Position(streamSerial, expectedSequence)) else None);
    if currentPacket != [] {
      return Err(IncompletePacket);
    }
    return Ok(packets);
  }

  lemma DemuxEnds(segments: seq<Segment>, position: Option<Position>)
    ensures Demux([], segments, position) ==
            if Feed(segments).current != [] then Err(IncompletePacket) else Ok(Feed(segments).packets)
  {
    hide Feed;
  }

  lemma DemuxStep(data: seq<byte>, segments: seq<Segment>, position: Option<Position>)
    requires data != []
    ensures Demux(data, segments, position) ==
            match ParsePage(data, Feed(segments).current != [], position)
            case Bad(error) => Err(error)
            case Parsed(page, rest) =>
              Demux(rest, segments + page.segments, Some(Position(page.serial, Next(page.sequence))))
  {
    hide ParsePage, Feed;
  }

  /** The page parser read at an offset of the whole file. */
  lemma ParseAtOffset(data: seq<byte>, offset: nat, open: bool, position: Option<Position>)
    requires offset < |data|
    ensures ParsePage(data[offset..], open, position) == PageAt(data, offset, open, position)
  {
    var at := data[offset..];
    if offset + 27 <= |data| {
      assert at[..4] == data[offset..offset + 4];
      assert at[14..18] == data[offset + 14..offset + 18] && at[18..22] == data[offset + 18..offset + 22];
      assert at[6..14] == data[offset + 6..offset + 14] && at[22..26] == data[offset + 22..offset + 26];
      var payload := HEADER_SIZE + at[26];
      if payload <= |at| {
        assert at[HEADER_SIZE..payload] == data[offset + HEADER_SIZE..offset + payload];
        assert at[payload..] == data[offset + payload..];
        var size := Sum(at[HEADER_SIZE..payload]);
        if payload + size <= |at| {
          assert at[payload + size..] == data[offset + payload + size..];
        }
      }
    }
  }

  function PageAt(data: seq<byte>, offset: nat, open: bool, position: Option<Position>): Parsed
    requires offset < |data|
  {
    if offset + 27 > |data| || data[offset..offset + 4] != CAPTURE_PATTERN then Bad(InvalidCapturePattern)
    else if data[offset + 4] != 0 then Bad(UnsupportedVersion)
    else
      var headerType := data[offset + 5];
      var serial := LittleEndian32(data[offset + 14..offset + 18]);
      var sequence := LittleEndian32(data[offset + 18..offset + 22]);
      if position.Some? && position.value != Position(serial, sequence) then Bad(UnexpectedStreamOrSequence)
      else if (headerType % 2 == 1) != open then Bad(InvalidContinuedFlag)
      else
        var payload := offset + HEADER_SIZE + data[offset + 26];
        if payload > |data| then Bad(TruncatedSegmentTable)
        else
          var table := data[offset + HEADER_SIZE..payload];
          if payload + Sum(table) > |data| then Bad(TruncatedPayload)
          else Parsed(Page(headerType, data[offset + 6..offset + 14], serial, sequence,
                           data[offset + 22..offset + 26], Cut(data[payload..], table)),
                      data[payload + Sum(table)..])
  }

  method PayloadSize(table: seq<byte>) returns (size: nat)
    ensures size == Sum(table)
  {
    size := 0;
    for index := 0 to |table|
      invariant size == Sum(table[..index])
    {
      assert table[..index + 1][..index] == table[..index];
      size := size + table[index];
    }
    assert table[..|table|] == table;
  }

  method AppendSegments(table: seq<byte>, payload: seq<byte>, packets0: seq<Packet>, current0: Packet,
                        ghost segments: seq<Segment>)
    returns (packets: seq<Packet>, currentPacket: Packet)
    requires Sum(table) <= |payload| && Feed(segments) == Fed(packets0, current0)
    ensures Feed(segments + Cut(payload, table)) == Fed(packets, currentPacket)
  {
    packets, currentPacket := packets0, current0;
    var packetOffset: nat := 0;
    assert segments + Cut(payload, table[..0]) == segments;
    for index := 0 to |table|
      invariant packetOffset == Sum(table[..index]) <= |payload|
      invariant Feed(segments + Cut(payload, table[..index])) == Fed(packets, currentPacket)
    {
      SumOfPrefix(table, index + 1);
      assert table[..index + 1][..index] == table[..index];
      var segmentSize: nat := table[index];
      ghost var segment := payload[packetOffset..packetOffset + segmentSize];
      ghost var before := segments + Cut(payload, table[..index]);
      assert segments + Cut(payload, table[..index + 1]) == before + [segment];
      assert (before + [segment])[..|before|] == before;
      currentPacket := currentPacket + payload[packetOffset..packetOffset + segmentSize];
      packetOffset := packetOffset + segmentSize;
      if segmentSize < 255 {
        packets, currentPacket := packets + [currentPacket], [];
      }
    }
    assert table[..|table|] == table;
  }

  lemma {:induction false} SumOfPrefix(table: seq<byte>, n: nat)
    requires n <= |table|
    ensures Sum(table[..n]) <= Sum(table)
  {
    if n < |table| {
      assert table[..|table| - 1][..n] == table[..n];
      SumOfPrefix(table[..|table| - 1], n);
    } else {
      assert table[..n] == table;
    }
  }
}
