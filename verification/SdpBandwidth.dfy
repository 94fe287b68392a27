/** The video bandwidth line of an SDP (RFC 8866 section 5.8): the TV writes it into its answer,
    the gateway reads it back. */
module SdpBandwidth {
  import opened Basics
  import opened Decimals

  const KEY := "b=AS:"
  const CR_LF := "\r\n"
  const ANY_VIDEO := "m=video"
  const VIDEO := "m=video "
  const NEXT_MEDIA := "\r\nm="
  const CONNECTION := "c="
  const LARGEST_INT := 0x7FFF_FFFF

  // -------------------------------------------------------------- search

  predicate At(s: string, pattern: string, i: nat) { i + |pattern| <= |s| && s[i..i + |pattern|] == pattern }

  /** The least position at or after `from` where the pattern occurs. */
  function Find(s: string, pattern: string, from: nat): (r: Option<nat>)
    ensures r.Some? ==> from <= r.value && At(s, pattern, r.value)
    ensures forall i: nat | from <= i && (r.Some? ==> i < r.value) :: !At(s, pattern, i)
    decreases |s| - from
  {
    if from > |s| then None
    else if At(s, pattern, from) then Some(from)
    else Find(s, pattern, from + 1)
  }

  lemma FindIs(s: string, pattern: string, from: nat, at: nat)
    requires from <= at && At(s, pattern, at) && forall i: nat | from <= i < at :: !At(s, pattern, i)
    ensures Find(s, pattern, from) == Some(at)
  {}

  lemma FindNone(s: string, pattern: string, from: nat)
    requires forall i: nat | from <= i :: !At(s, pattern, i)
    ensures Find(s, pattern, from) == None
  {}

  ghost predicate Without(s: string, pattern: string) { forall i: nat :: !At(s, pattern, i) }

  // ------------------------------------------------------------- the writer

  /** Where the TV puts a new line: after the first m=video line and a c= line right below it. */
  function InsertionPoint(sdp: string): (r: Option<nat>)
    ensures r.Some? ==> 2 <= r.value <= |sdp|
  {
    match Find(sdp, ANY_VIDEO, 0)
    case None => None
    case Some(video) =>
      (match Find(sdp, CR_LF, video)
       case None => None
       case Some(lineEnd) =>
         if !At(sdp, CONNECTION, lineEnd + 2) then Some(lineEnd + 2)
         else
           match Find(sdp, CR_LF, lineEnd + 2)
           case None => Some(lineEnd + 2)
           case Some(connectionEnd) => Some(connectionEnd + 2))
  }

  function DigitRun(s: string): (n: nat)
    ensures n <= |s| && AllDigits(s[..n]) && (n < |s| ==> !IsDigit(s[n]))
  {
    if s == "" || !IsDigit(s[0]) then 0
    else
      assert s[1..][..DigitRun(s[1..])] == s[1..1 + DigitRun(s[1..])];
      assert forall i | 1 <= i < 1 + DigitRun(s[1..]) :: s[i] == s[1..][i - 1];
      1 + DigitRun(s[1..])
  }

  /** Whether a key with at least one digit begins here. */
  predicate KeyedAt0(s: string) { At(s, KEY, 0) && DigitRun(s[|KEY|..]) > 0 }

  /** Every key with its digits replaced, left to right. */
  function ReplaceAll(s: string, rate: nat): string {
    if s == "" then ""
    else if KeyedAt0(s) then KEY + Decimal(rate) + ReplaceAll(s[|KEY| + DigitRun(s[|KEY|..])..], rate)
    else [s[0]] + ReplaceAll(s[1..], rate)
  }

  function Line(rate: nat): string { KEY + Decimal(rate) + CR_LF }

  function Inject(sdp: string, rate: int): string {
    if sdp == "" || rate <= 0 then sdp
    else if Find(sdp, KEY, 0).Some? then ReplaceAll(sdp, rate)
    else
      match InsertionPoint(sdp)
      case None => sdp
      case Some(at) => sdp[..at] + Line(rate) + sdp[at..]
  }

  // ------------------------------------------------------------- the reader

  function VideoSection(sdp: string): string {
    match Find(sdp, VIDEO, 0)
    case None => ""
    case Some(begin) =>
      match Find(sdp, NEXT_MEDIA, begin + 1)
      case None => sdp[begin..]
      case Some(end) => sdp[begin..end]
  }

  /** A whole text as a 32-bit integer, with an optional minus sign. */
  function WholeInt(s: string): Option<int> {
    var digits := if s != "" && s[0] == '-' then s[1..] else s;
    if digits == "" || !AllDigits(digits) then None
    else
      var v: int := if s[0] == '-' then 0 - DecimalValue(digits) else DecimalValue(digits);
      if -LARGEST_INT - 1 <= v <= LARGEST_INT then Some(v) else None
  }

  function FirstLine(section: string): string {
    var lineEnd := Find(section, CR_LF, 0);
    var line := if lineEnd.Some? then section[..lineEnd.value] else section;
    if line != "" && line[|line| - 1] == '\r' then line[..|line| - 1] else line
  }

  function RateOf(line: string): Option<int> {
    if At(line, KEY, 0) then WholeInt(line[|KEY|..]) else None
  }

  function SectionRate(section: string): Option<int> {
    if section == "" then None
    else if RateOf(FirstLine(section)).Some? then RateOf(FirstLine(section))
    else
      match Find(section, CR_LF, 0)
      case None => None
      case Some(lineEnd) => SectionRate(section[lineEnd + 2..])
  }

  /** The reader as it runs. */
  method VideoBandwidthKbps(sdp: string) returns (r: Option<int>)
    ensures r == SectionRate(VideoSection(sdp))
  {
    hide Find, VideoSection, WholeInt, At;
    var section := VideoSection(sdp);
    while section != ""
      invariant SectionRate(section) == SectionRate(VideoSection(sdp))
      decreases |section|
    {
      var lineEnd := Find(section, CR_LF, 0);
      OneLine(section);
      var line := if lineEnd.Some? then section[..lineEnd.value] else section;
      if line != "" && line[|line| - 1] == '\r' {
        line := line[..|line| - 1];
      }
      if At(line, KEY, 0) {
        AtFits(line);
        var parsed := WholeInt(line[|KEY|..]);
        if parsed.Some? {
          return parsed;
        }
      }
      if lineEnd == None {
        break;
      }
      section := section[lineEnd.value + 2..];
    }
    return None;
  }

  lemma OneLine(section: string)
    ensures Find(section, CR_LF, 0).Some? ==> Find(section, CR_LF, 0).value + 2 <= |section|
  {}

  lemma AtFits(line: string)
    requires At(line, KEY, 0)
    ensures |KEY| <= |line|
  {}

  // ------------------------------------------ patterns around an inserted line

  predicate OneLiner(pattern: string) { pattern != "" && '\n' !in pattern }

  ghost predicate EndsLine(s: string) { |s| >= 2 && s[|s| - 2..] == CR_LF }

  /** An occurrence of a one-line pattern cannot reach over a line end. */
  lemma OccurrenceStaysLeft(left: string, right: string, pattern: string, i: nat)
    requires OneLiner(pattern) && i < |left| && left[|left| - 1] == '\n'
    ensures At(left + right, pattern, i) <==> At(left, pattern, i)
  {
    var all := left + right;
    if i + |pattern| <= |left| {
      assert all[i..i + |pattern|] == left[i..i + |pattern|];
    } else if i + |pattern| <= |all| {
      assert all[i..i + |pattern|][|left| - 1 - i] == '\n';
      assert pattern[|left| - 1 - i] in pattern;
    }
  }

  lemma LineEndsInFeed(s: string)
    requires EndsLine(s)
    ensures s != "" && s[|s| - 1] == '\n'
  {
    assert s[|s| - 1] == s[|s| - 2..][1];
  }

  lemma OccurrenceShifts(left: string, right: string, pattern: string, i: nat)
    ensures At(left + right, pattern, |left| + i) <==> At(right, pattern, i)
  {
    if i + |pattern| <= |right| {
      assert (left + right)[|left| + i..|left| + i + |pattern|] == right[i..i + |pattern|];
    }
  }

  lemma PartIsWithout(s: string, from: nat, to: nat, pattern: string)
    requires Without(s, pattern) && from <= to <= |s|
    ensures Without(s[from..to], pattern)
  {
    forall i: nat ensures !At(s[from..to], pattern, i) {
      assert !At(s, pattern, from + i);
      if i + |pattern| <= to - from {
        PartOfPart(s, from, to, i, i + |pattern|);
      }
    }
  }

  lemma PartOfPart(s: string, from: nat, to: nat, i: nat, j: nat)
    requires from <= to <= |s| && i <= j <= to - from
    ensures s[from..to][i..j] == s[from + i..from + j]
  {
    var a, b := s[from..to][i..j], s[from + i..from + j];
    assert forall k | 0 <= k < |a| :: a[k] == s[from + i + k] == b[k];
  }

  lemma AtChars(s: string, pattern: string, i: nat)
    requires At(s, pattern, i)
    ensures forall k | 0 <= k < |pattern| :: s[i + k] == pattern[k]
  {
    forall k | 0 <= k < |pattern| ensures s[i + k] == pattern[k] {
      assert s[i..i + |pattern|][k] == s[i + k];
    }
  }

  lemma IsLineEnd(s: string, i: nat)
    ensures At(s, CR_LF, i) <==> i + 2 <= |s| && s[i] == '\r' && s[i + 1] == '\n'
  {
    if i + 2 <= |s| { assert s[i..i + 2] == [s[i], s[i + 1]]; }
  }

  lemma NotAt(s: string, pattern: string, i: nat, k: nat)
    requires k < |pattern| && (i + k < |s| ==> s[i + k] != pattern[k])
    ensures !At(s, pattern, i)
  {
    if i + |pattern| <= |s| { assert s[i..i + |pattern|][k] == s[i + k]; }
  }

  // ------------------------------------------------------ reading sections

  lemma FirstLineHasNoRate(section: string, end: nat)
    requires end <= |section| && Without(section[..end], KEY)
    requires |FirstLine(section)| <= end
    ensures RateOf(FirstLine(section)) == None
  {
    hide Find;
    assert !At(section[..end], KEY, 0);
    var line := FirstLine(section);
    assert line == section[..|line|];
    if |line| >= |KEY| { assert section[..end][0..0 + |KEY|] == line[0..0 + |KEY|]; }
  }

  lemma {:induction false} SectionWithoutKeyHasNoRate(section: string)
    requires Without(section, KEY)
    ensures SectionRate(section) == None
    decreases |section|
  {
    hide Find, RateOf, At;
    if section != "" {
      assert section[..|section|] == section;
      FirstLineIsPrefix(section);
      FirstLineHasNoRate(section, |section|);
      OneLine(section);
      var lineEnd := Find(section, CR_LF, 0);
      if lineEnd.Some? {
        PartIsWithout(section, lineEnd.value + 2, |section|, KEY);
        assert section[lineEnd.value + 2..|section|] == section[lineEnd.value + 2..];
        SectionWithoutKeyHasNoRate(section[lineEnd.value + 2..]);
      }
    }
  }

  lemma FirstLineIsPrefix(section: string)
    ensures |FirstLine(section)| <= |section|
    ensures Find(section, CR_LF, 0).Some? ==> |FirstLine(section)| <= Find(section, CR_LF, 0).value
  {}

  lemma LineEndInside(lines: string, rest: string)
    requires EndsLine(lines)
    ensures Find(lines + rest, CR_LF, 0).Some?
    ensures var e := Find(lines + rest, CR_LF, 0).value;
            e + 2 == |lines| || (e + 4 <= |lines| && EndsLine(lines[e + 2..]))
  {
    var all := lines + rest;
    var last := |lines| - 2;
    hide Find, At;
    assert lines[last..] == [lines[last], lines[last + 1]];
    assert all[last] == lines[last] == '\r' && all[last + 1] == lines[last + 1] == '\n';
    IsLineEnd(all, last);
    var e := Find(all, CR_LF, 0).value;
    IsLineEnd(all, e);
    assert e <= last && e + 1 != last;
    if e + 4 <= |lines| { assert lines[e + 2..][last - (e + 2)..] == lines[last..]; }
  }

  /** Lines without the key are read over. */
  lemma {:induction false} LinesAreSkipped(lines: string, rest: string)
    requires EndsLine(lines) && Without(lines, KEY)
    ensures SectionRate(lines + rest) == SectionRate(rest)
    decreases |lines|
  {
    hide Find, RateOf, At, EndsLine, FirstLine;
    var all := lines + rest;
    LineEndInside(lines, rest);
    var e := Find(all, CR_LF, 0).value;
    FirstLineIsPrefix(all);
    assert all[..|lines|] == lines;
    EndsLineIsLong(lines);
    FirstLineHasNoRate(all, |lines|);
    assert SectionRate(all) == SectionRate(all[e + 2..]);
    if e + 2 == |lines| {
      assert all[e + 2..] == rest;
    } else {
      assert all[e + 2..] == lines[e + 2..] + rest;
      PartIsWithout(lines, e + 2, |lines|, KEY);
      assert lines[e + 2..|lines|] == lines[e + 2..];
      LinesAreSkipped(lines[e + 2..], rest);
    }
  }

  lemma EndsLineIsLong(lines: string)
    requires EndsLine(lines)
    ensures |lines| >= 2
  {}

  lemma DecimalReadsBack(rate: nat)
    requires 1 <= rate <= LARGEST_INT
    ensures WholeInt(Decimal(rate)) == Some(rate)
  {
    var s := Decimal(rate);
    ValueOfDecimal(rate);
    assert IsDigit(s[0]);
  }

  /** An injected line is read as its rate, whether the section ends or goes on after it. */
  lemma InjectedLineIsRead(rate: nat, rest: string)
    requires 1 <= rate <= LARGEST_INT && (rest == "" || At(rest, CR_LF, 0))
    ensures SectionRate(KEY + Decimal(rate) + rest) == Some(rate)
  {
    hide WholeInt;
    var text := KEY + Decimal(rate);
    var section := text + rest;
    DecimalReadsBack(rate);
    forall i: nat | i < |text| ensures !At(section, CR_LF, i) {
      assert section[i] == text[i];
      if i >= |KEY| { assert text[i] == Decimal(rate)[i - |KEY|]; }
      if i + 2 <= |section| { assert section[i..i + 2][0] == section[i]; }
    }
    if rest != "" {
      OccurrenceShifts(text, rest, CR_LF, 0);
      FindIs(section, CR_LF, 0, |text|);
    } else {
      assert section == text;
      FindNone(section, CR_LF, 0);
    }
    assert section[..|text|] == text;
    LastIsDigit(rate);
    assert FirstLine(section) == text;
    assert text[0..0 + |KEY|] == KEY && text[|KEY|..] == Decimal(rate);
  }

  lemma LastIsDigit(rate: nat)
    ensures var text := KEY + Decimal(rate); IsDigit(text[|text| - 1])
  {
    var d := Decimal(rate);
    assert IsDigit(d[|d| - 1]);
  }

  // ------------------------------------------------------- the round trip

  /** Whether the reader's video section begins before the point of insertion. */
  predicate ReaderSees(sdp: string) {
    && InsertionPoint(sdp).Some? && Find(sdp, VIDEO, 0).Some?
    && Find(sdp, VIDEO, 0).value < InsertionPoint(sdp).value
  }

  /** From the first m=video to the insertion point there is one line end, or two with a
      connection line between them. */
  lemma InsertionShape(sdp: string)
    requires InsertionPoint(sdp).Some?
    ensures var at := InsertionPoint(sdp).value;
            && Find(sdp, ANY_VIDEO, 0).Some? && Find(sdp, ANY_VIDEO, 0).value < at
            && EndsLine(sdp[..at])
            && forall i: nat | Find(sdp, ANY_VIDEO, 0).value <= i < at - 2 && At(sdp, CR_LF, i) ::
                 At(sdp, CONNECTION, i + 2)
  {
    hide Find, At;
    var at := InsertionPoint(sdp).value;
    var lineEnd := Find(sdp, CR_LF, Find(sdp, ANY_VIDEO, 0).value).value;
    IsLineEnd(sdp, at - 2);
    assert sdp[..at][at - 2..] == [sdp[at - 2], sdp[at - 1]];
    AtChars(sdp, CR_LF, lineEnd);
    NotAt(sdp, CR_LF, lineEnd + 1, 0);
  }

  lemma SectionReachesTheLine(sdp: string, rate: nat, begin: nat)
    requires ReaderSees(sdp) && begin == Find(sdp, VIDEO, 0).value
    ensures var at := InsertionPoint(sdp).value;
            var all := sdp[..at] + Line(rate) + sdp[at..];
            forall i: nat | begin < i < at + |Line(rate)| - 2 :: !At(all, NEXT_MEDIA, i)
  {
    hide Find, InsertionPoint;
    var at := InsertionPoint(sdp).value;
    var all := sdp[..at] + Line(rate) + sdp[at..];
    InsertionShape(sdp);
    VideoIsAnyVideo(sdp, begin);
    LineHasNoReturn(rate);
    assert forall i | 0 <= i < |Line(rate)| :: all[at + i] == Line(rate)[i];
    assert sdp[at - 1] == sdp[..at][at - 2..][1] == '\n';
    forall i: nat | begin < i < at + |Line(rate)| - 2 ensures !At(all, NEXT_MEDIA, i) {
      if i < at - 2 {
        NoMediaBeforeInsertion(sdp, all, at, i);
      } else if i == at - 2 {
        NotAt(all, NEXT_MEDIA, i, 2);
      } else if i == at - 1 {
        NotAt(all, NEXT_MEDIA, i, 0);
      } else {
        assert all[i] == Line(rate)[i - at];
        NotAt(all, NEXT_MEDIA, i, 0);
      }
    }
  }

  lemma NoMediaBeforeInsertion(sdp: string, all: string, at: nat, i: nat)
    requires i < at - 2 && at <= |sdp| && at <= |all| && all[..at] == sdp[..at]
    requires At(sdp, CR_LF, i) ==> At(sdp, CONNECTION, i + 2)
    ensures !At(all, NEXT_MEDIA, i)
  {
    assert forall k | 0 <= k < at :: all[k] == all[..at][k] == sdp[..at][k] == sdp[k];
    IsLineEnd(sdp, i);
    if At(sdp, CR_LF, i) {
      AtChars(sdp, CONNECTION, i + 2);
      assert sdp[i + 2] == 'c';
      NotAt(all, NEXT_MEDIA, i, 2);
    } else if sdp[i] != '\r' {
      NotAt(all, NEXT_MEDIA, i, 0);
    } else {
      NotAt(all, NEXT_MEDIA, i, 1);
    }
  }

  lemma LineHasNoReturn(rate: nat)
    ensures var line := Line(rate);
            line[0] == 'b' && forall i | 0 <= i < |line| - 2 :: line[i] != '\r' && line[i] != 'm'
  {
    var d := Decimal(rate);
    assert forall i | 0 <= i < |d| :: IsDigit(d[i]);
    assert forall i | |KEY| <= i < |KEY| + |d| :: Line(rate)[i] == d[i - |KEY|];
  }

  lemma VideoIsAnyVideo(sdp: string, begin: nat)
    requires At(sdp, VIDEO, begin) && Find(sdp, ANY_VIDEO, 0).Some?
    ensures Find(sdp, ANY_VIDEO, 0).value <= begin
  {
    assert sdp[begin..begin + |ANY_VIDEO|] == sdp[begin..begin + |VIDEO|][..|ANY_VIDEO|];
    assert At(sdp, ANY_VIDEO, begin);
  }

  lemma SectionBeginsWhereItDid(sdp: string, rate: nat, i: nat)
    requires InsertionPoint(sdp).Some? && i < InsertionPoint(sdp).value
    ensures var at := InsertionPoint(sdp).value;
            At(sdp[..at] + Line(rate) + sdp[at..], VIDEO, i) <==> At(sdp, VIDEO, i)
  {
    hide InsertionPoint, At;
    var at := InsertionPoint(sdp).value;
    InsertionShape(sdp);
    LineEndsInFeed(sdp[..at]);
    OccurrenceStaysLeft(sdp[..at], Line(rate) + sdp[at..], VIDEO, i);
    OccurrenceStaysLeft(sdp[..at], sdp[at..], VIDEO, i);
    assert sdp[..at] + sdp[at..] == sdp;
    assert sdp[..at] + (Line(rate) + sdp[at..]) == sdp[..at] + Line(rate) + sdp[at..];
  }

  function Injected(sdp: string, rate: nat): string
    requires InsertionPoint(sdp).Some?
  {
    var at := InsertionPoint(sdp).value;
    sdp[..at] + Line(rate) + sdp[at..]
  }

  lemma SectionBegin(sdp: string, rate: nat)
    requires ReaderSees(sdp)
    ensures Find(Injected(sdp, rate), VIDEO, 0) == Find(sdp, VIDEO, 0)
  {
    hide Find, InsertionPoint, At, Line;
    var begin := Find(sdp, VIDEO, 0).value;
    forall i: nat | i <= begin ensures At(Injected(sdp, rate), VIDEO, i) <==> At(sdp, VIDEO, i) {
      SectionBeginsWhereItDid(sdp, rate, i);
    }
    FindIs(Injected(sdp, rate), VIDEO, 0, begin);
  }

  /** The section ends at or after the rate, and not inside its line end. */
  lemma SectionEnd(sdp: string, rate: nat) returns (end: nat)
    requires ReaderSees(sdp)
    ensures var begin, all := Find(sdp, VIDEO, 0).value, Injected(sdp, rate);
            var rateEnd := InsertionPoint(sdp).value + |KEY + Decimal(rate)|;
            && rateEnd <= end <= |all| && end != rateEnd + 1 && rateEnd + 2 <= |all|
            && VideoSection(all) == all[begin..end]
  {
    hide Find, InsertionPoint, At;
    var begin, all, at := Find(sdp, VIDEO, 0).value, Injected(sdp, rate), InsertionPoint(sdp).value;
    SectionBegin(sdp, rate);
    SectionReachesTheLine(sdp, rate, begin);
    var rateEnd := at + |KEY + Decimal(rate)|;
    assert all[rateEnd + 1] == Line(rate)[|Line(rate)| - 1] == '\n';
    NotAt(all, NEXT_MEDIA, rateEnd + 1, 0);
    var next := Find(all, NEXT_MEDIA, begin + 1);
    end := if next.Some? then next.value else |all|;
    if next.Some? { AtChars(all, NEXT_MEDIA, end); AtIsInside(all, NEXT_MEDIA, end); }
  }

  lemma AtIsInside(s: string, pattern: string, i: nat)
    requires At(s, pattern, i)
    ensures i + |pattern| <= |s|
  {}

  lemma SectionPieces(sdp: string, rate: nat) returns (rest: string)
    requires ReaderSees(sdp)
    ensures Find(sdp, VIDEO, 0).value < InsertionPoint(sdp).value
    ensures VideoSection(Injected(sdp, rate))
         == sdp[Find(sdp, VIDEO, 0).value..InsertionPoint(sdp).value] + (KEY + Decimal(rate) + rest)
    ensures rest == "" || At(rest, CR_LF, 0)
  {
    hide Find, InsertionPoint, At, VideoSection;
    var begin, at := Find(sdp, VIDEO, 0).value, InsertionPoint(sdp).value;
    var end := SectionEnd(sdp, rate);
    var text, after := KEY + Decimal(rate), sdp[at..];
    assert Injected(sdp, rate) == sdp[..at] + text + (CR_LF + after) == sdp[..at] + text + CR_LF + after;
    CutFrom(sdp[..at], text, CR_LF + after, begin, end);
    rest := Injected(sdp, rate)[at + |text|..end];
    RestIsALineEnd(sdp[..at] + text, after, end);
    assert sdp[..at][begin..] == sdp[begin..at];
  }

  lemma InjectedIsRead(sdp: string, rate: nat)
    requires Without(sdp, KEY) && 1 <= rate <= LARGEST_INT && ReaderSees(sdp)
    ensures SectionRate(VideoSection(Injected(sdp, rate))) == Some(rate)
  {
    hide Find, InsertionPoint, At, VideoSection, SectionRate, Without, Injected, EndsLine;
    var begin, at := Find(sdp, VIDEO, 0).value, InsertionPoint(sdp).value;
    var rest := SectionPieces(sdp, rate);
    InsertionShape(sdp);
    LinesEndLine(sdp, begin, at);
    PartIsWithout(sdp, begin, at, KEY);
    LinesAreSkipped(sdp[begin..at], KEY + Decimal(rate) + rest);
    InjectedLineIsRead(rate, rest);
  }

  lemma CutFrom<T>(a: seq<T>, b: seq<T>, c: seq<T>, begin: nat, end: nat)
    requires begin <= |a| && |a| + |b| <= end <= |a + b + c|
    ensures (a + b + c)[begin..end] == a[begin..] + (b + (a + b + c)[|a| + |b|..end])
  {}

  lemma LinesEndLine(sdp: string, begin: nat, at: nat)
    requires At(sdp, VIDEO, begin) && begin < at <= |sdp| && EndsLine(sdp[..at])
    ensures EndsLine(sdp[begin..at])
  {
    assert sdp[at - 1] == sdp[..at][at - 2..][1] == '\n';
    assert sdp[begin] == sdp[begin..begin + |VIDEO|][0] == 'm';
    assert sdp[begin..at][|sdp[begin..at]| - 2..] == sdp[..at][at - 2..];
  }

  /** What follows the rate inside the section is nothing, or begins with the line's end. */
  lemma RestIsALineEnd(before: string, after: string, end: nat)
    requires |before| <= end <= |before + CR_LF + after|
    requires end == |before| || end >= |before| + 2
    ensures var rest := (before + CR_LF + after)[|before|..end]; rest == "" || At(rest, CR_LF, 0)
  {
    var rest := (before + CR_LF + after)[|before|..end];
    if end >= |before| + 2 { assert rest[0..0 + 2] == CR_LF; }
  }

  /** Without a video section before the insertion point the reader meets no rate at all. */
  lemma InjectedIsMissed(sdp: string, rate: nat)
    requires Without(sdp, KEY) && InsertionPoint(sdp).Some? && !ReaderSees(sdp)
    ensures SectionRate(VideoSection(Injected(sdp, rate))) == None
  {
    hide SectionRate, InsertionPoint, At, Without;
    var at, all := InsertionPoint(sdp).value, Injected(sdp, rate);
    var front := sdp[..at] + Line(rate);
    forall i: nat | i < |front| ensures !At(all, VIDEO, i) {
      if i < at { SectionBeginsWhereItDid(sdp, rate, i); } else { NoVideoInLine(sdp, rate, i); }
    }
    var begin := Find(all, VIDEO, 0);
    if begin.Some? {
      var next := Find(all, NEXT_MEDIA, begin.value + 1);
      AtIsInside(all, VIDEO, begin.value);
      if next.Some? { AtIsInside(all, NEXT_MEDIA, next.value); }
      var end := if next.Some? then next.value else |all|;
      CutAfter(front, sdp[at..], begin.value, end);
      PartIsWithout(sdp, at + (begin.value - |front|), at + (end - |front|), KEY);
      assert sdp[at..][begin.value - |front|..end - |front|]
          == sdp[at + (begin.value - |front|)..at + (end - |front|)];
      SectionWithoutKeyHasNoRate(all[begin.value..end]);
      assert VideoSection(all) == all[begin.value..end];
    } else {
      NothingHasNoRate();
    }
  }

  lemma CutAfter<T>(front: seq<T>, back: seq<T>, begin: nat, end: nat)
    requires |front| <= begin <= end <= |front + back|
    ensures (front + back)[begin..end] == back[begin - |front|..end - |front|]
  {}

  lemma NothingHasNoRate()
    ensures SectionRate("") == None
  {}

  lemma NoVideoInLine(sdp: string, rate: nat, i: nat)
    requires InsertionPoint(sdp).Some? && InsertionPoint(sdp).value <= i < InsertionPoint(sdp).value + |Line(rate)|
    ensures !At(Injected(sdp, rate), VIDEO, i)
  {
    hide InsertionPoint;
    var at, line := InsertionPoint(sdp).value, Line(rate);
    LineHasNoReturn(rate);
    assert Injected(sdp, rate)[i] == line[i - at];
    assert line[|line| - 2] == '\r' && line[|line| - 1] == '\n';
    NotAt(Injected(sdp, rate), VIDEO, i, 0);
  }

  /** The round trip, exactly: for an SDP that carries no bandwidth line yet, the gateway reads
      the TV's rate back if and only if its video section begins before the insertion point;
      otherwise it reads none. */
  lemma GatewayReadsInjectedRate(sdp: string, rate: nat)
    requires Without(sdp, KEY) && 1 <= rate <= LARGEST_INT
    ensures SectionRate(VideoSection(Inject(sdp, rate))) == if ReaderSees(sdp) then Some(rate) else None
  {
    hide SectionRate, InsertionPoint, At, VideoSection;
    FindNone(sdp, KEY, 0);
    if InsertionPoint(sdp) == None {
      NoInsertionNoVideo(sdp);
      WholeIsWithout(sdp);
    } else if ReaderSees(sdp) {
      NotEmpty(sdp);
      InjectedIsRead(sdp, rate);
    } else {
      NotEmpty(sdp);
      InjectedIsMissed(sdp, rate);
    }
  }

  lemma NotEmpty(sdp: string)
    requires InsertionPoint(sdp).Some?
    ensures sdp != ""
  {}

  lemma NoInsertionNoVideo(sdp: string)
    requires InsertionPoint(sdp) == None
    ensures !ReaderSees(sdp)
  {}

  lemma WholeIsWithout(sdp: string)
    requires Without(sdp, KEY)
    ensures SectionRate(VideoSection(sdp)) == None
  {
    hide Without, SectionRate;
    var begin := Find(sdp, VIDEO, 0);
    if begin.Some? {
      var next := Find(sdp, NEXT_MEDIA, begin.value + 1);
      var end := if next.Some? then next.value else |sdp|;
      PartIsWithout(sdp, begin.value, end, KEY);
      SectionWithoutKeyHasNoRate(sdp[begin.value..end]);
      assert VideoSection(sdp) == sdp[begin.value..end];
    } else {
      NothingHasNoRate();
    }
  }

  /** The usual SDP: the first m=video is followed by a space and its line is ended. */
  lemma UsualSdpIsSeen(sdp: string)
    requires Find(sdp, ANY_VIDEO, 0).Some?
    requires At(sdp, VIDEO, Find(sdp, ANY_VIDEO, 0).value)
    requires Find(sdp, CR_LF, Find(sdp, ANY_VIDEO, 0).value).Some?
    ensures ReaderSees(sdp)
  {
    var v := Find(sdp, ANY_VIDEO, 0).value;
    forall i: nat | i < v ensures !At(sdp, VIDEO, i) {
      if At(sdp, VIDEO, i) { VideoIsAnyVideo(sdp, i); }
    }
    FindIs(sdp, VIDEO, 0, v);
  }

  // -------------------------------------------------------- writing again

  lemma KeyIsCopied(s: string, rate: nat, c: char)
    requires c != 'b'
    ensures (ReplaceAll(s, rate) != "" && ReplaceAll(s, rate)[0] == c) <==> (s != "" && s[0] == c)
    ensures s != "" && s[0] == c ==> ReplaceAll(s, rate) == [c] + ReplaceAll(s[1..], rate)
  {
    hide At;
    if s != "" && KeyedAt0(s) {
      AtChars(s, KEY, 0);
      assert s[0 + 0] == KEY[0] == 'b';
    }
  }

  predicate StartsWithDigit(s: string) { s != "" && IsDigit(s[0]) }

  lemma DigitIsCopied(s: string, rate: nat)
    ensures StartsWithDigit(ReplaceAll(s, rate)) <==> StartsWithDigit(s)
  {
    if s != "" { KeyIsCopied(s, rate, if s[0] == 'b' then '0' else s[0]); }
    if ReplaceAll(s, rate) != "" && ReplaceAll(s, rate)[0] != 'b' { KeyIsCopied(s, rate, ReplaceAll(s, rate)[0]); }
  }

  lemma KeyByChars(s: string)
    ensures At(s, KEY, 0) <==>
            |s| >= 5 && s[0] == 'b' && s[1] == '=' && s[2] == 'A' && s[3] == 'S' && s[4] == ':'
  {
    if |s| >= 5 {
      assert s[0..5] == [s[0], s[1], s[2], s[3], s[4]];
      assert KEY == ['b', '=', 'A', 'S', ':'];
    }
  }

  /** The key's own characters, and a digit after it, one by one. */
  lemma KeyedByChars(s: string)
    ensures KeyedAt0(s) <==> |s| >= 6 && s[0] == 'b' && s[1] == '=' && s[2] == 'A' && s[3] == 'S' && s[4] == ':'
                             && IsDigit(s[5])
  {
    hide At;
    KeyByChars(s);
    if |s| >= 6 { assert s[5..][0] == s[5]; }
  }

  /** What is left of a key after a first character is copied unchanged. */
  lemma UnkeyedStaysUnkeyed(s: string, rate: nat)
    requires s != "" && !KeyedAt0(s)
    ensures !KeyedAt0([s[0]] + ReplaceAll(s[1..], rate))
  {
    hide ReplaceAll, KeyedAt0, At;
    var r := [s[0]] + ReplaceAll(s[1..], rate);
    KeyedByChars(s);
    KeyedByChars(r);
    KeyIsCopied(s[1..], rate, '=');
    if |s| > 1 && s[1] == '=' {
      KeyIsCopied(s[2..], rate, 'A');
      assert s[1..][1..] == s[2..];
      if |s| > 2 && s[2] == 'A' {
        KeyIsCopied(s[3..], rate, 'S');
        assert s[2..][1..] == s[3..];
        if |s| > 3 && s[3] == 'S' {
          KeyIsCopied(s[4..], rate, ':');
          assert s[3..][1..] == s[4..];
          if |s| > 4 && s[4] == ':' {
            DigitIsCopied(s[5..], rate);
            assert s[4..][1..] == s[5..];
          }
        }
      }
    }
  }

  lemma DigitsEnd(digits: string, rest: string)
    requires AllDigits(digits) && !StartsWithDigit(rest)
    ensures DigitRun(digits + rest) == |digits|
  {
    if digits != "" {
      DigitsEnd(digits[1..], rest);
      assert (digits + rest)[1..] == digits[1..] + rest;
    } else {
      assert digits + rest == rest;
    }
  }

  lemma ReplacedKey(rate: nat, rest: string, other: nat)
    requires !StartsWithDigit(rest)
    ensures ReplaceAll(KEY + Decimal(rate) + rest, other) == KEY + Decimal(other) + ReplaceAll(rest, other)
  {
    hide DigitRun, StartsWithDigit, AllDigits;
    var digits := Decimal(rate);
    var s := KEY + digits + rest;
    KeyInFront(digits, rest);
    DigitsEnd(digits, rest);
    assert KeyedAt0(s);
  }

  lemma KeyInFront(digits: string, rest: string)
    ensures var s := KEY + digits + rest;
            At(s, KEY, 0) && s[|KEY|..] == digits + rest && s[|KEY| + |digits|..] == rest
  {
    var s := KEY + digits + rest;
    assert s[0..0 + |KEY|] == KEY;
  }

  lemma {:induction false} ReplacingTwice(s: string, first: nat, second: nat)
    ensures ReplaceAll(ReplaceAll(s, first), second) == ReplaceAll(s, second)
    decreases |s|
  {
    hide KeyedAt0, DigitRun;
    if s != "" {
      if KeyedAt0(s) {
        KeyedHasRoom(s);
        var rest := s[|KEY| + DigitRun(s[|KEY|..])..];
        ReplacingTwice(rest, first, second);
        RestHasNoDigit(s);
        DigitIsCopied(rest, first);
        ReplacedKey(first, ReplaceAll(rest, first), second);
      } else {
        ReplacingTwice(s[1..], first, second);
        UnkeyedStaysUnkeyed(s, first);
        var r := [s[0]] + ReplaceAll(s[1..], first);
        assert r[1..] == ReplaceAll(s[1..], first);
        assert ReplaceAll(r, second) == [r[0]] + ReplaceAll(r[1..], second);
      }
    }
  }

  lemma KeyedHasRoom(s: string)
    requires KeyedAt0(s)
    ensures |KEY| <= |s|
  {}

  lemma RestHasNoDigit(s: string)
    requires KeyedAt0(s)
    ensures !StartsWithDigit(s[|KEY| + DigitRun(s[|KEY|..])..])
  {
    var n := DigitRun(s[|KEY|..]);
    if |KEY| + n < |s| { assert s[|KEY| + n..][0] == s[|KEY|..][n]; }
  }

  lemma {:induction false} ReplacingNothing(s: string, rate: nat)
    requires Without(s, KEY)
    ensures ReplaceAll(s, rate) == s
    decreases |s|
  {
    hide At;
    if s != "" {
      assert !At(s, KEY, 0);
      PartIsWithout(s, 1, |s|, KEY);
      assert s[1..|s|] == s[1..];
      ReplacingNothing(s[1..], rate);
    }
  }

  lemma LineIsNotKeyed(lines: string, rest: string)
    requires Without(lines, KEY) && lines != "" && lines[|lines| - 1] == '\n'
    ensures !KeyedAt0(lines + rest)
  {
    hide At;
    assert !At(lines, KEY, 0);
    OccurrenceStaysLeft(lines, rest, KEY, 0);
  }

  /** Ended lines without the key are copied, whatever follows them. */
  lemma {:induction false} LinesAreCopied(lines: string, rest: string, rate: nat)
    requires Without(lines, KEY) && (lines != "" ==> lines[|lines| - 1] == '\n')
    ensures ReplaceAll(lines + rest, rate) == lines + ReplaceAll(rest, rate)
    decreases |lines|
  {
    hide At, KeyedAt0, Without;
    if lines == "" {
      assert lines + rest == rest && lines + ReplaceAll(rest, rate) == ReplaceAll(rest, rate);
    } else {
      LineIsNotKeyed(lines, rest);
      PartIsWithout(lines, 1, |lines|, KEY);
      assert lines[1..|lines|] == lines[1..] && (lines + rest)[1..] == lines[1..] + rest;
      LinesAreCopied(lines[1..], rest, rate);
    }
  }

  lemma KeyAtFrontIsCopied(s: string, rate: nat)
    requires At(s, KEY, 0)
    ensures At(ReplaceAll(s, rate), KEY, 0)
  {
    hide At;
    var r := ReplaceAll(s, rate);
    KeyByChars(s);
    if KeyedAt0(s) {
      KeyInFront(Decimal(rate), ReplaceAll(s[|KEY| + DigitRun(s[|KEY|..])..], rate));
    } else {
      KeyIsCopied(s[1..], rate, '=');
      KeyIsCopied(s[2..], rate, 'A');
      KeyIsCopied(s[3..], rate, 'S');
      KeyIsCopied(s[4..], rate, ':');
      assert s[1..][1..] == s[2..] && s[2..][1..] == s[3..] && s[3..][1..] == s[4..] && s[4..][1..] == s[5..];
      var r1, r2 := ReplaceAll(s[1..], rate), ReplaceAll(s[2..], rate);
      var r3, r4 := ReplaceAll(s[3..], rate), ReplaceAll(s[4..], rate);
      assert r == ['b'] + r1 && r1 == ['='] + r2 && r2 == ['A'] + r3 && r3 == ['S'] + r4;
      assert r4[0] == ':';
      KeyByChars(r);
    }
  }

  lemma {:induction false} KeyStays(s: string, rate: nat, i: nat) returns (j: nat)
    requires At(s, KEY, i)
    ensures At(ReplaceAll(s, rate), KEY, j)
    decreases |s|
  {
    hide At;
    AtIsInside(s, KEY, i);
    if KeyedAt0(s) || i == 0 {
      j := 0;
      KeyAtFrontIsCopied(s, rate);
    } else {
      assert [s[0]] + s[1..] == s;
      OccurrenceShifts([s[0]], s[1..], KEY, i - 1);
      j := KeyStays(s[1..], rate, i - 1);
      OccurrenceShifts([s[0]], ReplaceAll(s[1..], rate), KEY, j);
      j := j + 1;
    }
  }

  lemma InjectedLineIsReplaced(sdp: string, first: nat, second: nat)
    requires Without(sdp, KEY) && InsertionPoint(sdp).Some?
    ensures At(Injected(sdp, first), KEY, InsertionPoint(sdp).value)
    ensures ReplaceAll(Injected(sdp, first), second) == Injected(sdp, second)
  {
    hide InsertionPoint, At, ReplaceAll, Without;
    var at := InsertionPoint(sdp).value;
    var lines, after := sdp[..at], sdp[at..];
    InsertionShape(sdp);
    LineEndsInFeed(lines);
    assert lines[at - 2..] + after == sdp[at - 2..];
    PartIsWithout(sdp, 0, at, KEY);
    PartIsWithout(sdp, at - 2, |sdp|, KEY);
    assert sdp[0..at] == lines && sdp[at - 2..|sdp|] == CR_LF + after;
    var tail := KEY + Decimal(first) + (CR_LF + after);
    assert Injected(sdp, first) == lines + tail;
    KeyInFront(Decimal(first), CR_LF + after);
    OccurrenceShifts(lines, tail, KEY, 0);
    LinesAreCopied(lines, tail, second);
    ReplacedKey(first, CR_LF + after, second);
    ReplacingNothing(CR_LF + after, second);
    assert Injected(sdp, second) == lines + (KEY + Decimal(second) + (CR_LF + after));
  }

  /** The last rate wins, for every SDP text: injecting over an injected rate is injecting into
      the original. */
  lemma LastInjectionWins(sdp: string, first: int, second: int)
    requires first > 0 && second > 0
    ensures Inject(Inject(sdp, first), second) == Inject(sdp, second)
  {
    hide InsertionPoint, At, ReplaceAll, Find;
    var key := Find(sdp, KEY, 0);
    if sdp == "" {
    } else if key.Some? {
      var replaced := ReplaceAll(sdp, first);
      var j := KeyStays(sdp, first, key.value);
      AtIsInside(replaced, KEY, j);
      assert Find(replaced, KEY, 0).Some?;
      ReplacingTwice(sdp, first, second);
    } else if InsertionPoint(sdp).Some? {
      assert Without(sdp, KEY);
      InjectedLineIsReplaced(sdp, first, second);
      AtIsInside(Injected(sdp, first), KEY, InsertionPoint(sdp).value);
      assert Find(Injected(sdp, first), KEY, 0).Some?;
    }
  }
}
