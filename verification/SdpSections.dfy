/** A session description written from its lines (RFC 8866 section 5), and what the gateway and
    the TV make of it: only the video section counts, and the TV writes right below its head. */
module SdpSections {
  import opened Basics
  import opened Decimals
  import opened SdpBandwidth

  /** A line holds no line break. */
  ghost predicate IsLine(l: string) { forall i | 0 <= i < |l| :: l[i] != '\r' && l[i] != '\n' }

  ghost predicate StartsWith(l: string, word: string) { word <= l }

  /** Lines after a first one, each preceded by its line break. */
  function Below(lines: seq<string>): string {
    if lines == [] then "" else "\r\n" + lines[0] + Below(lines[1..])
  }

  /** Attribute lines: none begins another section. */
  ghost predicate AreAttributes(lines: seq<string>) {
    forall l | l in lines :: IsLine(l) && !StartsWith(l, "m=")
  }

  /** What the reader is to find: the first bandwidth line of the section that holds a number. */
  function FirstRate(lines: seq<string>): Option<int> {
    if lines == [] then None
    else if RateOf(lines[0]).Some? then RateOf(lines[0])
    else FirstRate(lines[1..])
  }

  /** A later section, or nothing. */
  ghost predicate IsTail(tail: string) { tail == "" || StartsWith(tail, "\r\nm=") }

  // ---------------------------------------------------------- line ends

  lemma NoBreakIn(line: string, rest: string, pattern: string, i: nat)
    requires IsLine(line) && i < |line| && pattern != "" && pattern[0] == '\r'
    ensures !At(line + rest, pattern, i)
  {
    assert (line + rest)[i] == line[i];
    NotAt(line + rest, pattern, i, 0);
  }

  lemma FirstBreak(line: string, rest: string)
    requires IsLine(line) && (rest == "" || StartsWith(rest, "\r\n"))
    ensures Find(line + rest, "\r\n", 0) == if rest == "" then None else Some(|line|)
  {
    hide Find, At;
    var all := line + rest;
    forall i: nat | i < |line| ensures !At(all, "\r\n", i) { NoBreakIn(line, rest, "\r\n", i); }
    if rest == "" {
      forall i: nat ensures !At(all, "\r\n", i) { if i >= |line| { BeyondEnd(all, "\r\n", i); } }
      FindNone(all, "\r\n", 0);
    } else {
      AtFront(rest, "\r\n");
      OccurrenceShifts(line, rest, "\r\n", 0);
      FindIs(all, "\r\n", 0, |line|);
    }
  }

  lemma BeyondEnd(s: string, pattern: string, i: nat)
    requires i >= |s| && pattern != ""
    ensures !At(s, pattern, i)
  {}

  lemma AtFront(s: string, pattern: string)
    requires StartsWith(s, pattern)
    ensures At(s, pattern, 0)
  {}

  lemma FrontIffStarts(s: string, pattern: string)
    ensures At(s, pattern, 0) <==> StartsWith(s, pattern)
  {
    if |pattern| <= |s| { assert s[0..0 + |pattern|] == s[..|pattern|]; }
  }

  // --------------------------------------------------------- the reader

  lemma LineAlone(line: string, rest: string)
    requires IsLine(line) && (rest == "" || StartsWith(rest, "\r\n"))
    ensures FirstLine(line + rest) == line
  {
    hide Find;
    FirstBreak(line, rest);
    assert (line + rest)[..|line|] == line;
    assert rest == "" ==> line + rest == line;
  }

  /** A stray carriage return before the line break is dropped. */
  lemma StrayReturnIsDropped(line: string, rest: string)
    requires IsLine(line)
    ensures FirstLine(line + "\r" + ("\r\n" + rest)) == line
  {
    hide Find, At;
    var front := line + "\r";
    var all := front + ("\r\n" + rest);
    forall i: nat | i < |front| ensures !At(all, "\r\n", i) {
      assert all[i] == front[i] && all[i + 1] == if i + 1 < |front| then front[i + 1] else '\r';
      if i < |line| { NotAt(all, "\r\n", i, 0); } else { NotAt(all, "\r\n", i, 1); }
    }
    AtFront("\r\n" + rest, "\r\n");
    OccurrenceShifts(front, "\r\n" + rest, "\r\n", 0);
    FindIs(all, "\r\n", 0, |front|);
    assert all[..|front|] == front && front[..|line|] == line;
  }

  lemma BelowBegins(lines: seq<string>)
    ensures lines != [] ==> StartsWith(Below(lines), "\r\n") && Below(lines)[2..] == lines[0] + Below(lines[1..])
  {}

  /** The lines of a section are read one after the other. */
  lemma {:induction false} SectionIsReadByLine(first: string, lines: seq<string>)
    requires IsLine(first) && forall l | l in lines :: IsLine(l)
    ensures SectionRate(first + Below(lines)) == FirstRate([first] + lines)
    decreases |lines|
  {
    hide Find, RateOf, FirstLine, IsLine, StartsWith;
    var section := first + Below(lines);
    BelowBegins(lines);
    LineAlone(first, Below(lines));
    FirstBreak(first, Below(lines));
    assert ([first] + lines)[1..] == lines;
    if lines != [] {
      assert lines[0] in lines && forall l | l in lines[1..] :: l in lines;
      assert section[|first| + 2..] == Below(lines)[2..];
      SectionIsReadByLine(lines[0], lines[1..]);
      assert [lines[0]] + lines[1..] == lines;
      EmptyLineHasNoRate(section, first);
    } else {
      assert section == first;
      NoLines(first);
    }
  }

  lemma NoLines(first: string)
    ensures FirstRate([first] + []) == RateOf(first)
    ensures RateOf("") == None
  {
    assert ([first] + [])[1..] == [];
  }

  lemma EmptyLineHasNoRate(section: string, first: string)
    requires section != ""
    ensures section == "" ==> RateOf(first) == None
  {}

  // -------------------------------------------------- where the section ends

  lemma {:induction false} NoSectionInside(first: string, lines: seq<string>, tail: string, i: nat)
    requires IsLine(first) && AreAttributes(lines) && IsTail(tail) && i < |first + Below(lines)|
    ensures !At(first + Below(lines) + tail, "\r\nm=", i)
    decreases |lines|
  {
    hide At, StartsWith;
    var all := first + Below(lines) + tail;
    if i < |first| {
      assert all == first + (Below(lines) + tail);
      NoBreakIn(first, Below(lines) + tail, "\r\nm=", i);
    } else {
      var l, later := lines[0], Below(lines[1..]);
      assert l in lines && forall k | k in lines[1..] :: k in lines;
      assert all == first + "\r\n" + (l + later + tail);
      if i == |first| {
        BreakBelow(lines[1..], tail);
        assert l + later + tail == l + (later + tail);
        NoSectionAtBreak(first, l, later + tail);
      } else if i == |first| + 1 {
        NotAt(all, "\r\nm=", i, 0);
      } else {
        NoSectionInside(l, lines[1..], tail, i - |first| - 2);
        OccurrenceShifts(first + "\r\n", l + later + tail, "\r\nm=", i - |first| - 2);
      }
    }
  }

  lemma BreakBelow(lines: seq<string>, tail: string)
    requires IsTail(tail)
    ensures Below(lines) + tail == "" || StartsWith(Below(lines) + tail, "\r\n")
  {}

  /** A line break before a line that does not begin with m= begins no section. */
  lemma NoSectionAtBreak(first: string, l: string, rest: string)
    requires IsLine(l) && !StartsWith(l, "m=") && (rest == "" || StartsWith(rest, "\r\n"))
    ensures !At(first + "\r\n" + (l + rest), "\r\nm=", |first|)
  {
    var all := first + "\r\n" + (l + rest);
    assert rest != "" ==> rest[0] == "\r\n"[0];
    assert |all| == |first| + 2 + |l| + |rest|;
    if l == "" || l[0] != 'm' {
      assert |all| > |first| + 2 ==> all[|first| + 2] == (l + rest)[0];
      NotAt(all, "\r\nm=", |first|, 2);
    } else {
      assert |all| > |first| + 3 ==> all[|first| + 3] == (l + rest)[1];
      assert |l| >= 2 ==> l[..2] == [l[0], l[1]] && "m=" == ['m', '='];
      NotAt(all, "\r\nm=", |first|, 3);
    }
  }

  /** The text of the video section: its m= line and the lines below it. */
  ghost function VideoText(video: string, lines: seq<string>): string { video + Below(lines) }

  ghost predicate IsVideoLine(video: string) { IsLine(video) && StartsWith(video, "m=video ") }

  /** No video section before: the text before it holds no such words, and ends with its line. */
  ghost predicate IsHead(head: string) {
    (forall i: nat :: !At(head, "m=video ", i)) && (head == "" || head[|head| - 1] == '\n')
  }

  lemma SectionIsFound(head: string, video: string, lines: seq<string>, tail: string)
    requires IsHead(head) && IsVideoLine(video) && AreAttributes(lines) && IsTail(tail)
    ensures VideoSection(head + (VideoText(video, lines) + tail)) == VideoText(video, lines)
  {
    hide Find, At, IsLine, StartsWith;
    var text := VideoText(video, lines);
    var sdp, rest := head + (text + tail), text + tail;
    forall i: nat | i < |head| ensures !At(sdp, "m=video ", i) {
      OccurrenceStaysLeft(head, rest, "m=video ", i);
    }
    VideoAtFront(video, Below(lines) + tail);
    assert rest == video + (Below(lines) + tail);
    OccurrenceShifts(head, rest, "m=video ", 0);
    FindIs(sdp, "m=video ", 0, |head|);
    SectionStops(head, video, lines, tail);
  }

  lemma VideoAtFront(video: string, rest: string)
    requires IsVideoLine(video)
    ensures At(video + rest, "m=video ", 0) && |video| >= 8
  {
    assert (video + rest)[0..0 + 8] == video[..8];
  }

  lemma SectionStops(head: string, video: string, lines: seq<string>, tail: string)
    requires IsVideoLine(video) && AreAttributes(lines) && IsTail(tail)
    requires Find(head + (VideoText(video, lines) + tail), VIDEO, 0) == Some(|head|)
    ensures VideoSection(head + (VideoText(video, lines) + tail)) == VideoText(video, lines)
  {
    hide Find, At, VideoText, IsLine, AreAttributes;
    var text := VideoText(video, lines);
    var sdp := head + (text + tail);
    NextSectionOnly(head, video, lines, tail);
    if tail == "" {
      assert sdp == head + text;
      forall i: nat | |head| + 1 <= i ensures !At(sdp, "\r\nm=", i) {
        if i >= |head| + |text| { BeyondEnd(sdp, "\r\nm=", i); }
      }
      FindNone(sdp, "\r\nm=", |head| + 1);
    } else {
      AtFront(tail, "\r\nm=");
      assert sdp == head + text + tail;
      OccurrenceShifts(head + text, tail, "\r\nm=", 0);
      FindIs(sdp, "\r\nm=", |head| + 1, |head| + |text|);
    }
    Middle(head, text, tail);
  }

  lemma Middle(head: string, text: string, tail: string)
    ensures (head + (text + tail))[|head|..|head| + |text|] == text
    ensures tail == "" ==> (head + (text + tail))[|head|..] == text
  {}

  lemma NextSectionOnly(head: string, video: string, lines: seq<string>, tail: string)
    requires IsVideoLine(video) && AreAttributes(lines) && IsTail(tail)
    ensures |VideoText(video, lines)| > 0
    ensures forall i: nat | |head| + 1 <= i < |head| + |VideoText(video, lines)| ::
              !At(head + (VideoText(video, lines) + tail), "\r\nm=", i)
  {
    hide At, IsLine, AreAttributes, IsTail;
    var rest := VideoText(video, lines) + tail;
    forall i: nat | |head| + 1 <= i < |head| + |VideoText(video, lines)| ensures !At(head + rest, "\r\nm=", i) {
      NoSectionInside(video, lines, tail, i - |head|);
      OccurrenceShifts(head, rest, "\r\nm=", i - |head|);
    }
  }

  // ---------------------------------------------------------- what is read

  /** A bandwidth line that holds a 32-bit number, and which. */
  ghost predicate NamesRate(line: string, rate: int) {
    exists digits: string ::
      && digits != "" && AllDigits(digits)
      && ((line == "b=AS:" + digits && rate == DecimalValue(digits) <= 0x7FFF_FFFF)
          || (line == "b=AS:-" + digits && rate == 0 - DecimalValue(digits) >= -0x8000_0000))
  }

  lemma RateOfLine(line: string, rate: int)
    ensures RateOf(line) == Some(rate) <==> NamesRate(line, rate)
  {
    hide DecimalValue, NamesRate;
    FrontIffStarts(line, "b=AS:");
    if RateOf(line) == Some(rate) { ReadRateIsNamed(line, rate); }
    if NamesRate(line, rate) { NamedRateIsRead(line, rate); }
  }

  lemma ReadRateIsNamed(line: string, rate: int)
    requires RateOf(line) == Some(rate) && StartsWith(line, "b=AS:")
    ensures NamesRate(line, rate)
  {
    hide DecimalValue;
    var value := line[5..];
    assert line == "b=AS:" + value;
    if value[0] == '-' {
      assert value == "-" + value[1..];
      assert line == "b=AS:-" + value[1..];
    }
  }

  lemma NamedRateIsRead(line: string, rate: int)
    requires NamesRate(line, rate)
    ensures RateOf(line) == Some(rate)
  {
    hide DecimalValue;
    var digits: string :|
      && digits != "" && AllDigits(digits)
      && ((line == "b=AS:" + digits && rate == DecimalValue(digits) <= 0x7FFF_FFFF)
          || (line == "b=AS:-" + digits && rate == 0 - DecimalValue(digits) >= -0x8000_0000));
    assert IsDigit(digits[0]);
    if line == "b=AS:" + digits {
      assert line[0..0 + 5] == "b=AS:" && line[5..] == digits;
    } else {
      assert line[0..0 + 5] == "b=AS:" && line[5..] == "-" + digits && ("-" + digits)[1..] == digits;
    }
  }

  ghost predicate NamesNone(line: string) { forall rate :: !NamesRate(line, rate) }

  lemma NoRateOfLine(line: string)
    requires NamesNone(line)
    ensures RateOf(line) == None
  {
    hide RateOf, NamesRate;
    if RateOf(line).Some? { RateOfLine(line, RateOf(line).value); }
  }

  lemma {:induction false} RateBelow(skipped: seq<string>, line: string, more: seq<string>)
    requires forall l | l in skipped :: NamesNone(l)
    requires RateOf(line).Some?
    ensures FirstRate(skipped + [line] + more) == RateOf(line)
    decreases |skipped|
  {
    hide RateOf, NamesNone;
    var all := skipped + [line] + more;
    if skipped != [] {
      assert skipped[0] in skipped && forall l | l in skipped[1..] :: l in skipped;
      NoRateOfLine(skipped[0]);
      assert all[1..] == skipped[1..] + [line] + more;
      RateBelow(skipped[1..], line, more);
    }
  }

  lemma {:induction false} NoRates(lines: seq<string>)
    requires forall l | l in lines :: NamesNone(l)
    ensures FirstRate(lines) == None
  {
    hide RateOf, NamesNone;
    if lines != [] {
      assert lines[0] in lines && forall l | l in lines[1..] :: l in lines;
      NoRateOfLine(lines[0]);
      NoRates(lines[1..]);
    }
  }

  /** Only the video section counts: of its bandwidth lines the first that holds a 32-bit number
      is read, whatever malformed ones before it, the lines after it, and the sections before
      and after it say. */
  lemma VideoRateIsRead(head: string, video: string, skipped: seq<string>, line: string, rate: int,
                        more: seq<string>, tail: string)
    requires IsHead(head) && IsVideoLine(video) && IsTail(tail) && NamesRate(line, rate)
    requires AreAttributes(skipped) && AreAttributes([line] + more) && forall l | l in skipped :: NamesNone(l)
    ensures var lines := skipped + ([line] + more);
            SectionRate(VideoSection(head + (video + Below(lines) + tail))) == Some(rate)
  {
    hide SectionRate, VideoSection, At, RateOf, Below, NamesRate, NamesNone;
    var lines := skipped + ([line] + more);
    SectionIsFound(head, video, lines, tail);
    SectionIsReadByLine(video, lines);
    VideoLineNamesNone(video);
    assert [video] + lines == [video] + skipped + [line] + more;
    RateOfLine(line, rate);
    RateBelow([video] + skipped, line, more);
  }

  lemma VideoLineNamesNone(video: string)
    requires IsVideoLine(video)
    ensures NamesNone(video)
  {
    assert video[0] == "m=video "[0] != "b=AS:"[0];
    forall rate: int ensures !NamesRate(video, rate) {
      assert forall digits: string :: ("b=AS:" + digits)[0] == 'b' && ("b=AS:-" + digits)[0] == 'b';
    }
  }

  /** And without one in the video section nothing is read, however many the others have. */
  lemma OtherRatesAreIgnored(head: string, video: string, lines: seq<string>, tail: string)
    requires IsHead(head) && IsVideoLine(video) && IsTail(tail) && AreAttributes(lines)
    requires forall l | l in lines :: NamesNone(l)
    ensures SectionRate(VideoSection(head + (video + Below(lines) + tail))) == None
  {
    hide SectionRate, VideoSection, At, RateOf, Below, NamesNone;
    SectionIsFound(head, video, lines, tail);
    SectionIsReadByLine(video, lines);
    VideoLineNamesNone(video);
    NoRates([video] + lines);
  }

  // ---------------------------------------------------------- what is written

  /** The TV writes its line right below the first m=video line, or below a connection line
      there; everything else stays as it is. */
  lemma WritesBelowTheVideoLine(head: string, video: string, connection: string, rest: string, rate: nat)
    requires rate > 0 && IsLine(video) && StartsWith(video, "m=video")
    requires (forall i: nat :: !At(head, "m=video", i)) && (head == "" || head[|head| - 1] == '\n')
    requires connection == "" || (|connection| >= 4 && StartsWith(connection, "c=")
                                  && IsLine(connection[..|connection| - 2])
                                  && connection[|connection| - 2..] == "\r\n")
    requires !StartsWith(rest, "c=") || connection != ""
    requires Without(head + video + "\r\n" + connection + rest, "b=AS:")
    ensures Inject(head + video + "\r\n" + connection + rest, rate)
         == head + video + "\r\n" + connection + ("b=AS:" + Decimal(rate) + "\r\n") + rest
  {
    hide Find, At, Without;
    var sdp := head + video + "\r\n" + connection + rest;
    FindNone(sdp, "b=AS:", 0) by { hide *; WithoutMeansNone(sdp, "b=AS:"); }
    PlaceOfInsertion(head, video, connection, rest);
    var at := |head| + |video| + 2 + |connection|;
    assert sdp[..at] == head + video + "\r\n" + connection && sdp[at..] == rest;
  }

  /** Without a rate to write nothing is written. */
  lemma NothingToWrite(sdp: string, rate: int)
    requires rate <= 0 || sdp == ""
    ensures Inject(sdp, rate) == sdp
  {}

  lemma WithoutMeansNone(s: string, pattern: string)
    requires Without(s, pattern)
    ensures forall i: nat | 0 <= i :: !At(s, pattern, i)
  {}

  lemma PlaceOfInsertion(head: string, video: string, connection: string, rest: string)
    requires IsLine(video) && StartsWith(video, "m=video")
    requires (forall i: nat :: !At(head, "m=video", i)) && (head == "" || head[|head| - 1] == '\n')
    requires connection == "" || (|connection| >= 4 && StartsWith(connection, "c=")
                                  && IsLine(connection[..|connection| - 2])
                                  && connection[|connection| - 2..] == "\r\n")
    requires !StartsWith(rest, "c=") || connection != ""
    ensures InsertionPoint(head + video + "\r\n" + connection + rest)
         == Some(|head| + |video| + 2 + |connection|)
  {
    hide Find, At, IsLine;
    var sdp := head + video + "\r\n" + connection + rest;
    var below := connection + rest;
    var after := "\r\n" + below;
    assert sdp == head + (video + after);
    forall i: nat | i < |head| ensures !At(sdp, "m=video", i) {
      OccurrenceStaysLeft(head, video + after, "m=video", i);
    }
    AtFront(video + after, "m=video");
    OccurrenceShifts(head, video + after, "m=video", 0);
    FindIs(sdp, "m=video", 0, |head|);
    BreakAfter(head, video, after);
    var lineEnd := |head| + |video|;
    assert sdp == head + video + "\r\n" + below;
    OccurrenceShifts(head + video + "\r\n", below, "c=", 0);
    if connection == "" {
      assert below == rest;
      FrontIffStarts(rest, "c=");
    } else {
      AtFront(below, "c=");
      var line := connection[..|connection| - 2];
      assert connection == line + "\r\n";
      assert sdp == head + video + "\r\n" + (line + ("\r\n" + rest));
      BreakAfter(head + video + "\r\n", line, "\r\n" + rest);
    }
  }

  lemma BreakAfter(before: string, line: string, after: string)
    requires IsLine(line) && StartsWith(after, "\r\n")
    ensures Find(before + (line + after), "\r\n", |before|) == Some(|before| + |line|)
  {
    hide Find, At;
    var all := before + (line + after);
    forall i: nat | |before| <= i < |before| + |line| ensures !At(all, "\r\n", i) {
      NoBreakIn(line, after, "\r\n", i - |before|);
      OccurrenceShifts(before, line + after, "\r\n", i - |before|);
    }
    AtFront(after, "\r\n");
    OccurrenceShifts(line, after, "\r\n", 0);
    OccurrenceShifts(before, line + after, "\r\n", |line|);
    FindIs(all, "\r\n", |before|, |before| + |line|);
  }

  // ------------------------------------------------------- what is replaced

  /** Lines, each ended by a line break. */
  function Ended(lines: seq<string>): string {
    if lines == [] then "" else lines[0] + ("\r\n" + Ended(lines[1..]))
  }

  ghost predicate IsRateLine(l: string) {
    |l| > 5 && StartsWith(l, "b=AS:") && AllDigits(l[5..])
  }

  /** A bandwidth line, or a line that does not speak of bandwidth at all. */
  ghost predicate IsPlain(l: string) { IsRateLine(l) || Without(l + "\r\n", "b=AS:") }

  ghost function WithRate(lines: seq<string>, rate: nat): (r: seq<string>)
    ensures |r| == |lines|
  {
    if lines == [] then []
    else [if IsRateLine(lines[0]) then "b=AS:" + Decimal(rate) else lines[0]] + WithRate(lines[1..], rate)
  }

  lemma DigitsAreReplaced(digits: string, rest: string, rate: nat)
    requires digits != "" && AllDigits(digits) && !StartsWithDigit(rest)
    ensures ReplaceAll("b=AS:" + digits + rest, rate) == "b=AS:" + Decimal(rate) + ReplaceAll(rest, rate)
  {
    hide DigitRun, StartsWithDigit, AllDigits;
    KeyInFront(digits, rest);
    DigitsEnd(digits, rest);
    assert KeyedAt0("b=AS:" + digits + rest);
  }

  lemma BreakIsCopied(rest: string, rate: nat)
    ensures ReplaceAll("\r\n" + rest, rate) == "\r\n" + ReplaceAll(rest, rate)
  {
    var s := "\r\n" + rest;
    KeyIsCopied(s, rate, '\r');
    assert s[0] == '\r' && s[1..] == "\n" + rest;
    KeyIsCopied(s[1..], rate, '\n');
    assert s[1..][1..] == rest;
    assert "\r\n" + ReplaceAll(rest, rate) == ['\r'] + (['\n'] + ReplaceAll(rest, rate));
  }

  /** Injecting into a description that has rates replaces every one of them, and changes no
      other line. */
  lemma {:induction false} EveryRateIsReplaced(lines: seq<string>, rate: nat)
    requires forall l | l in lines :: IsPlain(l)
    ensures ReplaceAll(Ended(lines), rate) == Ended(WithRate(lines, rate))
  {
    hide ReplaceAll, IsPlain, IsRateLine, Without;
    if lines == [] {
      NothingIsReplaced(rate);
    } else {
      var l, rest := lines[0], Ended(lines[1..]);
      assert l in lines && forall k | k in lines[1..] :: k in lines;
      EveryRateIsReplaced(lines[1..], rate);
      LineIsReplaced(l, rest, rate);
    }
  }

  lemma NothingIsReplaced(rate: nat)
    ensures ReplaceAll("", rate) == ""
  {}

  lemma LineIsReplaced(l: string, rest: string, rate: nat)
    requires IsPlain(l)
    ensures ReplaceAll(l + ("\r\n" + rest), rate)
         == (if IsRateLine(l) then "b=AS:" + Decimal(rate) else l) + ("\r\n" + ReplaceAll(rest, rate))
  {
    hide ReplaceAll, Without, At;
    BreakIsCopied(rest, rate);
    if IsRateLine(l) {
      assert l == "b=AS:" + l[5..];
      assert !StartsWithDigit("\r\n" + rest);
      DigitsAreReplaced(l[5..], "\r\n" + rest, rate);
      assert "b=AS:" + l[5..] + ("\r\n" + rest) == l + ("\r\n" + rest);
    } else {
      assert l + ("\r\n" + rest) == (l + "\r\n") + rest;
      LinesAreCopied(l + "\r\n", rest, rate);
      assert (l + "\r\n") + ReplaceAll(rest, rate) == l + ("\r\n" + ReplaceAll(rest, rate));
    }
  }
}
