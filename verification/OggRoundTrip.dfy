/** Which files the Ogg demuxer accepts, and with which packets: exactly the single logical
    streams of RFC 3533 section 6 that lace those packets, however they are cut into pages. */
module OggRoundTrip {
  import opened Basics
  import opened OggDemux

  /** Consecutive pages of one logical stream: one serial number, sequence numbers counting up
      from any first one modulo 2^32, the continued flag set exactly when a packet is open. */
  ghost predicate Chained(pages: seq<Page>) {
    forall k | 0 <= k < |pages| ::
      && pages[k].serial == pages[0].serial
      && pages[k].sequence == (pages[0].sequence + k) % 0x1_0000_0000
      && (pages[k].headerType % 2 == 1 <==> Unfinished(SegmentsOf(pages[..k])))
  }

  /** The pages carry the packets: their segments, over page boundaries, are the packets' lacing. */
  ghost predicate Carries(pages: seq<Page>, packets: seq<Packet>) {
    AllWellFormed(pages) && Chained(pages) && SegmentsOf(pages) == LacingOfAll(packets)
  }

  /** The same chain read page by page, as the demuxer sees it. */
  ghost predicate Follows(pages: seq<Page>, segments: seq<Segment>, position: Option<Position>) {
    pages == []
    || (&& WellFormed(pages[0])
        && (position.Some? ==> position.value == Position(pages[0].serial, pages[0].sequence))
        && (pages[0].headerType % 2 == 1 <==> Unfinished(segments))
        && Follows(pages[1..], segments + pages[0].segments,
                   Some(Position(pages[0].serial, Next(pages[0].sequence)))))
  }

  // --------------------------------------------------- pages, both ways

  lemma HeaderFields(p: Page)
    requires WellFormed(p)
    ensures var h := PageHeader(p);
            && h[..4] == CAPTURE_PATTERN && h[4] == 0 && h[5] == p.headerType && h[6..14] == p.granule
            && h[14..18] == Bytes32(p.serial) && h[18..22] == Bytes32(p.sequence)
            && h[22..26] == p.checksum && h[26] == |p.segments|
  {
    hide Bytes32, SegmentsFit;
  }

  lemma Layout<T>(header: seq<T>, table: seq<T>, payload: seq<T>, rest: seq<T>)
    requires |header| == HEADER_SIZE
    ensures var data := header + table + payload + rest;
            && (forall i | 0 <= i < HEADER_SIZE :: data[i] == header[i])
            && (forall i, j | 0 <= i <= j <= HEADER_SIZE :: data[i..j] == header[i..j])
            && data[HEADER_SIZE..HEADER_SIZE + |table|] == table
            && data[HEADER_SIZE + |table|..] == payload + rest
            && data[HEADER_SIZE + |table| + |payload|..] == rest
  {}

  /** A page is parsed back whole, whatever follows it. */
  lemma ParseInvertsPage(p: Page, rest: seq<byte>, open: bool, position: Option<Position>)
    requires WellFormed(p) && (p.headerType % 2 == 1 <==> open)
    requires position.Some? ==> position.value == Position(p.serial, p.sequence)
    ensures ParsePage(PageBytes(p) + rest, open, position) == Parsed(p, rest)
  {
    hide PageHeader, Cut, Sum, Table, Payload, Bytes32, LittleEndian32;
    Layout(PageHeader(p), Table(p.segments), Payload(p.segments), rest);
    HeaderFields(p);
    NumberOfBytes(p.serial);
    NumberOfBytes(p.sequence);
    CutInvertsPayload(p.segments);
    CutIgnoresTail(Payload(p.segments), rest, Table(p.segments));
  }

  /** What parses is the bytes of the page it parses as. */
  lemma PageInvertsParse(data: seq<byte>, open: bool, position: Option<Position>)
    requires ParsePage(data, open, position).Parsed?
    ensures var r := ParsePage(data, open, position);
            && WellFormed(r.page) && data == PageBytes(r.page) + r.rest
            && (r.page.headerType % 2 == 1 <==> open)
            && (position.Some? ==> position.value == Position(r.page.serial, r.page.sequence))
  {
    hide Cut, Sum, Table, Payload, Bytes32, LittleEndian32, PageHeader;
    var r := ParsePage(data, open, position);
    var payload: nat := HEADER_SIZE + data[26];
    var table := data[HEADER_SIZE..payload];
    PayloadInvertsCut(data[payload..], table);
    BytesOfNumber(data[14..18]);
    BytesOfNumber(data[18..22]);
    HeaderFields(r.page);
    SameHeader(data[..HEADER_SIZE], PageHeader(r.page));
    assert data == data[..HEADER_SIZE] + table + data[payload..][..Sum(table)] + data[payload + Sum(table)..];
  }

  lemma SameHeader(a: seq<byte>, b: seq<byte>)
    requires |a| == |b| == HEADER_SIZE
    requires a[..4] == b[..4] && a[4] == b[4] && a[5] == b[5] && a[6..14] == b[6..14] && a[14..18] == b[14..18]
    requires a[18..22] == b[18..22] && a[22..26] == b[22..26] && a[26] == b[26]
    ensures a == b
  {
    assert a == a[..4] + [a[4], a[5]] + a[6..14] + a[14..18] + a[18..22] + a[22..26] + [a[26]];
    assert b == b[..4] + [b[4], b[5]] + b[6..14] + b[14..18] + b[18..22] + b[22..26] + [b[26]];
  }

  // ------------------------------------------------- streams, both ways

  lemma {:induction false} FollowsAreWellFormed(pages: seq<Page>, segments: seq<Segment>, position: Option<Position>)
    requires Follows(pages, segments, position)
    ensures AllWellFormed(pages)
  {
    hide WellFormed;
    if pages != [] {
      FollowsAreWellFormed(pages[1..], segments + pages[0].segments,
                           Some(Position(pages[0].serial, Next(pages[0].sequence))));
      assert forall k | 1 <= k < |pages| :: pages[k] == pages[1..][k - 1];
    }
  }

  lemma {:induction false} DemuxOfStream(pages: seq<Page>, segments: seq<Segment>, position: Option<Position>)
    requires Follows(pages, segments, position) && AllWellFormed(pages) && SegmentsFit(segments)
    ensures var all := segments + SegmentsOf(pages);
            Demux(StreamBytes(pages), segments, position) ==
            if Unfinished(all) then Err(IncompletePacket) else Ok(Feed(all).packets)
  {
    hide PageBytes, ParsePage, Feed, Unfinished, Demux;
    OpenPacketLength(segments);
    if pages == [] {
      DemuxEnds(segments, position);
      assert segments + SegmentsOf(pages) == segments;
    } else {
      var p, more := pages[0], StreamBytes(pages[1..]);
      ParseInvertsPage(p, more, Feed(segments).current != [], position);
      PageIsNotEmpty(p);
      DemuxStep(PageBytes(p) + more, segments, position);
      DemuxOfStream(pages[1..], segments + p.segments, Some(Position(p.serial, Next(p.sequence))));
      assert segments + p.segments + SegmentsOf(pages[1..]) == segments + SegmentsOf(pages);
    }
  }

  lemma PageIsNotEmpty(p: Page)
    requires WellFormed(p)
    ensures PageBytes(p) != []
  {}

  /** Accepted data is the bytes of pages that follow one another. */
  lemma {:induction false} StreamOfDemux(data: seq<byte>, segments: seq<Segment>, position: Option<Position>)
    returns (pages: seq<Page>)
    requires Demux(data, segments, position).Ok? && SegmentsFit(segments)
    ensures Follows(pages, segments, position) && AllWellFormed(pages) && data == StreamBytes(pages)
    ensures !Unfinished(segments + SegmentsOf(pages)) && SegmentsFit(segments + SegmentsOf(pages))
    ensures Demux(data, segments, position).value == Feed(segments + SegmentsOf(pages)).packets
    decreases |data|
  {
    hide PageBytes, ParsePage, Feed, Unfinished, Demux;
    OpenPacketLength(segments);
    if data == [] {
      pages := [];
      DemuxEnds(segments, position);
      assert segments + SegmentsOf(pages) == segments;
    } else {
      var open := Feed(segments).current != [];
      DemuxStep(data, segments, position);
      PageInvertsParse(data, open, position);
      ParsedIsShorter(data, open, position);
      var page, rest := ParsePage(data, open, position).page, ParsePage(data, open, position).rest;
      var later := StreamOfDemux(rest, segments + page.segments, Some(Position(page.serial, Next(page.sequence))));
      pages := [page] + later;
      assert pages[1..] == later;
      FollowsAreWellFormed(pages, segments, position);
      assert segments + page.segments + SegmentsOf(later) == segments + SegmentsOf(pages);
    }
  }

  // ------------------------------- page-by-page and whole-stream conditions

  ghost predicate InOrder(pages: seq<Page>, segments: seq<Segment>, serial: nat, sequence: nat) {
    forall k | 0 <= k < |pages| ::
      && pages[k].serial == serial && pages[k].sequence == (sequence + k) % TWO_TO_THE_32
      && (pages[k].headerType % 2 == 1 <==> Unfinished(segments + SegmentsOf(pages[..k])))
  }

  lemma SegmentsOfPrefix(pages: seq<Page>, k: nat)
    requires 0 < k <= |pages|
    ensures SegmentsOf(pages[..k]) == pages[0].segments + SegmentsOf(pages[1..][..k - 1])
  {
    assert pages[..k][1..] == pages[1..][..k - 1];
  }

  lemma NextIs(sequence: nat, k: nat)
    requires k > 0
    ensures (sequence + k) % TWO_TO_THE_32 == (Next(sequence) + (k - 1)) % TWO_TO_THE_32
  {}

  lemma InOrderStep(pages: seq<Page>, segments: seq<Segment>, serial: nat, sequence: nat)
    requires pages != [] && sequence < TWO_TO_THE_32
    ensures InOrder(pages, segments, serial, sequence) <==>
            && pages[0].serial == serial && pages[0].sequence == sequence
            && (pages[0].headerType % 2 == 1 <==> Unfinished(segments))
            && InOrder(pages[1..], segments + pages[0].segments, serial, Next(sequence))
  {
    hide Unfinished, Next;
    var later := pages[1..];
    assert segments + SegmentsOf(pages[..0]) == segments;
    forall k | 1 <= k < |pages|
      ensures pages[k] == later[k - 1]
      ensures (sequence + k) % TWO_TO_THE_32 == (Next(sequence) + (k - 1)) % TWO_TO_THE_32
      ensures segments + SegmentsOf(pages[..k]) == segments + pages[0].segments + SegmentsOf(later[..k - 1])
    {
      SegmentsOfPrefix(pages, k);
      NextIs(sequence, k);
    }
  }

  lemma {:induction false} FollowsIffInOrder(pages: seq<Page>, segments: seq<Segment>, at: Position)
    requires AllWellFormed(pages) && at.expected < TWO_TO_THE_32
    ensures Follows(pages, segments, Some(at)) <==> InOrder(pages, segments, at.serial, at.expected)
  {
    hide InOrder, Unfinished;
    if pages == [] {
      NothingIsInOrder(segments, at);
    } else {
      assert WellFormed(pages[0]);
      InOrderStep(pages, segments, at.serial, at.expected);
      FollowsIffInOrder(pages[1..], segments + pages[0].segments, Position(at.serial, Next(at.expected)));
    }
  }

  lemma NothingIsInOrder(segments: seq<Segment>, at: Position)
    ensures InOrder([], segments, at.serial, at.expected)
  {}

  lemma FollowsIffChained(pages: seq<Page>)
    requires AllWellFormed(pages)
    ensures Follows(pages, [], None) <==> Chained(pages)
  {
    hide Unfinished, SegmentsOf;
    if pages != [] {
      assert WellFormed(pages[0]);
      FromTheStart(pages);
      FollowsIffInOrder(pages, [], Position(pages[0].serial, pages[0].sequence));
      assert Follows(pages, [], None)
          == Follows(pages, [], Some(Position(pages[0].serial, pages[0].sequence)));
    }
  }

  lemma FromTheStart(pages: seq<Page>)
    requires pages != []
    ensures InOrder(pages, [], pages[0].serial, pages[0].sequence) <==> Chained(pages)
  {
    hide Unfinished, SegmentsOf;
    assert forall k | 0 <= k < |pages| :: [] + SegmentsOf(pages[..k]) == SegmentsOf(pages[..k]);
  }

  lemma {:induction false} SegmentsOfFit(pages: seq<Page>)
    requires AllWellFormed(pages)
    ensures SegmentsFit(SegmentsOf(pages))
  {
    if pages != [] {
      assert WellFormed(pages[0]);
      SegmentsOfFit(pages[1..]);
    }
  }

  lemma CarriedIsExtracted(pages: seq<Page>, packets: seq<Packet>)
    requires Carries(pages, packets)
    ensures Demux(StreamBytes(pages), [], None) == Ok(packets)
  {
    hide Feed, Demux, Unfinished, LacingOfAll, Chained, WellFormed, SegmentsOf, StreamBytes;
    FollowsIffChained(pages);
    DemuxOfStream(pages, [], None);
    assert [] + SegmentsOf(pages) == SegmentsOf(pages);
    SegmentsOfFit(pages);
    FeedInvertsLacing(packets);
    OpenPacketLength(SegmentsOf(pages));
  }

  lemma ExtractedIsCarried(data: seq<byte>, packets: seq<Packet>) returns (pages: seq<Page>)
    requires Demux(data, [], None) == Ok(packets)
    ensures Carries(pages, packets) && data == StreamBytes(pages)
  {
    hide Feed, Demux, Unfinished, LacingOfAll, Chained, WellFormed, SegmentsOf, StreamBytes;
    pages := StreamOfDemux(data, [], None);
    assert [] + SegmentsOf(pages) == SegmentsOf(pages);
    FollowsIffChained(pages);
    LacingInvertsFeed(SegmentsOf(pages));
    OpenPacketLength(SegmentsOf(pages));
    NothingOpen();
    assert LacingOfAll(packets) + [] == LacingOfAll(packets);
  }

  /** The demuxer is the exact inverse of lacing into pages: a file yields these packets if and
      only if it is a stream that carries them, for every division into pages. */
  lemma ExtractsExactlyWhatIsCarried(data: seq<byte>, packets: seq<Packet>)
    ensures Demux(data, [], None) == Ok(packets)
            <==> exists pages :: Carries(pages, packets) && data == StreamBytes(pages)
  {
    hide Demux, Chained, SegmentsOf, LacingOfAll, AllWellFormed, StreamBytes;
    if Demux(data, [], None) == Ok(packets) {
      var pages := ExtractedIsCarried(data, packets);
    }
    forall pages | Carries(pages, packets) && data == StreamBytes(pages)
      ensures Demux(data, [], None) == Ok(packets)
    {
      CarriedIsExtracted(pages, packets);
    }
  }
}
