/** Host names (RFC 1123 section 2.1) and host:port endpoints of a Sunshine server. */
module SunshineEndpoint {
  import opened Basics
  import opened Decimals

  const DEFAULT_HTTP_PORT := 47989
  const LONGEST_HOST := 253
  const LONGEST_LABEL := 63

  predicate IsAlphanumeric(c: char) { '0' <= c <= '9' || 'a' <= c <= 'z' || 'A' <= c <= 'Z' }

  /** Letters, digits and the hyphen, one by one. */
  predicate IsLabelChar(c: char) {
    || c in {'0', '1', '2', '3', '4', '5', '6', '7', '8', '9', '-'}
    || c in {'a', 'b', 'c', 'd', 'e', 'f', 'g', 'h', 'i', 'j', 'k', 'l', 'm',
             'n', 'o', 'p', 'q', 'r', 's', 't', 'u', 'v', 'w', 'x', 'y', 'z'}
    || c in {'A', 'B', 'C', 'D', 'E', 'F', 'G', 'H', 'I', 'J', 'K', 'L', 'M',
             'N', 'O', 'P', 'Q', 'R', 'S', 'T', 'U', 'V', 'W', 'X', 'Y', 'Z'}
  }

  lemma LabelCharsAreRanges(c: char)
    ensures IsLabelChar(c) <==> IsAlphanumeric(c) || c == '-'
  {}

  // ------------------------------------------------------------ grammar

  /** The pieces between the dots. */
  function Labels(s: string): (r: seq<string>)
    ensures r != []
  {
    if s == "" then [""]
    else
      var later := Labels(s[1..]);
      if s[0] == '.' then [""] + later else [[s[0]] + later[0]] + later[1..]
  }

  predicate IsLabel(l: string) {
    && 1 <= |l| <= 63 && l[0] != '-' && l[|l| - 1] != '-'
    && forall i | 0 <= i < |l| :: IsLabelChar(l[i])
  }

  ghost predicate AllLabels(s: string) { forall l | l in Labels(s) :: IsLabel(l) }

  /** The grammar: at most 253 characters, dot-separated labels of 1 to 63 letters, digits and
      hyphens, none beginning or ending with a hyphen. */
  ghost predicate IsHost(s: string) { |s| <= 253 && AllLabels(s) }

  ghost predicate Dotless(s: string) { forall i | 0 <= i < |s| :: s[i] != '.' }

  lemma {:induction false} LabelThenDot(part: string, rest: string)
    requires Dotless(part)
    ensures Labels(part + "." + rest) == [part] + Labels(rest)
  {
    var all := part + "." + rest;
    if part == "" {
      assert all[1..] == rest;
    } else {
      LabelThenDot(part[1..], rest);
      assert all[1..] == part[1..] + "." + rest;
      assert [part[0]] + part[1..] == part;
    }
  }

  lemma {:induction false} LabelAlone(part: string)
    requires Dotless(part)
    ensures Labels(part) == [part]
  {
    if part != "" {
      LabelAlone(part[1..]);
      assert [part[0]] + part[1..] == part;
    }
  }

  lemma LaterLabel(s: string, k: nat)
    requires s != "" && k < |Labels(s[1..])|
    ensures var later, labels := Labels(s[1..]), Labels(s);
            if s[0] == '.' then k + 1 < |labels| && labels[k + 1] == later[k]
            else k < |labels| && labels[k] == if k == 0 then [s[0]] + later[0] else later[k]
  {}

  lemma FirstLabel(s: string)
    requires s != "" && s[0] != '.'
    ensures Labels(s)[0] != "" && Labels(s)[0][0] == s[0]
  {}

  /** Every character is a dot or lies in some label. */
  lemma {:induction false} CharLiesInLabel(s: string, i: nat)
    requires i < |s| && s[i] != '.'
    ensures exists l :: l in Labels(s) && s[i] in l
  {
    hide Labels;
    if i == 0 {
      FirstLabel(s);
      assert Labels(s)[0] in Labels(s);
    } else {
      CharLiesInLabel(s[1..], i - 1);
      var later := Labels(s[1..]);
      var l :| l in later && s[1..][i - 1] in l;
      var k :| 0 <= k < |later| && later[k] == l;
      LaterLabel(s, k);
      var m := if s[0] == '.' then k + 1 else k;
      assert s[i] in Labels(s)[m];
      assert Labels(s)[m] in Labels(s);
    }
  }

  lemma HostCharsAreFine(s: string, i: nat)
    requires AllLabels(s) && i < |s|
    ensures s[i] == '.' || IsLabelChar(s[i])
  {
    if s[i] != '.' {
      CharLiesInLabel(s, i);
      var l :| l in Labels(s) && s[i] in l;
      assert IsLabel(l);
    }
  }

  lemma {:induction false} EndsWithDot(s: string)
    requires s != "" && s[|s| - 1] == '.'
    ensures "" in Labels(s)
  {
    var later := Labels(s[1..]);
    if |s| == 1 {
      assert later == [""];
    } else {
      EndsWithDot(s[1..]);
      var k :| 0 <= k < |later| && later[k] == "";
      if s[0] == '.' { assert Labels(s)[k + 1] == ""; } else if k > 0 { assert Labels(s)[k] == ""; } else {
        LastLabelIsEmpty(s[1..]);
        assert Labels(s)[|later| - 1] == later[|later| - 1];
      }
    }
  }

  lemma {:induction false} LastLabelIsEmpty(s: string)
    requires s != "" && s[|s| - 1] == '.'
    ensures |Labels(s)| > 1 && Labels(s)[|Labels(s)| - 1] == ""
  {
    if |s| > 1 { LastLabelIsEmpty(s[1..]); }
  }

  /** The scan has read `index` characters and stands `length` characters into a piece. */
  ghost predicate Scanned(host: string, index: nat, length: nat, startsWithHyphen: bool) {
    && length <= index <= |host|
    && Dotless(host[index - length..index])
    && (AllLabels(host) <==> AllLabels(host[index - length..index] + host[index..]))
    && (forall i | index - length <= i < index :: IsLabelChar(host[i]))
    && (startsWithHyphen <==> length > 0 && host[index - length] == '-')
  }

  lemma ScanStarts(host: string)
    ensures Scanned(host, 0, 0, false)
  {
    hide AllLabels, IsLabelChar;
    assert host[0..0] + host[0..] == host;
  }

  lemma ScanDot(host: string, index: nat, length: nat, hyphen: bool)
    requires Scanned(host, index, length, hyphen) && index < |host| && host[index] == '.'
    ensures length == 0 || length > LONGEST_LABEL || hyphen || host[index - 1] == '-' ==> !AllLabels(host)
    ensures !(length == 0 || length > LONGEST_LABEL || hyphen || host[index - 1] == '-') ==>
              Scanned(host, index + 1, 0, false)
  {
    hide AllLabels, IsLabelChar, IsLabel, Labels;
    var current, rest := host[index - length..index], host[index + 1..];
    assert current + host[index..] == current + "." + rest;
    LabelThenDot(current, rest);
    SplitAllLabels(current, rest);
    LabelSoFar(host, index, length);
    assert host[index + 1..index + 1] + host[index + 1..] == rest;
  }

  lemma DotIsNoLabelChar()
    ensures !IsLabelChar('.')
  {}

  lemma ScanLabelChar(host: string, index: nat, length: nat, hyphen: bool)
    requires Scanned(host, index, length, hyphen) && index < |host| && IsLabelChar(host[index])
    ensures Scanned(host, index + 1, length + 1, if length == 0 then host[index] == '-' else hyphen)
  {
    hide AllLabels, IsLabelChar;
    DotIsNoLabelChar();
    var current := host[index - length..index];
    assert host[index + 1 - (length + 1)..index + 1] == current + [host[index]];
    assert current + host[index..] == current + [host[index]] + host[index + 1..];
  }

  lemma ScanEnds(host: string, length: nat, hyphen: bool)
    requires Scanned(host, |host|, length, hyphen) && host != ""
    ensures AllLabels(host) <==> 0 < length <= LONGEST_LABEL && !hyphen && host[|host| - 1] != '-'
  {
    hide IsLabelChar, IsLabel, Labels;
    var last := host[|host| - length..|host|];
    assert last + host[|host|..] == last;
    LabelAlone(last);
    LabelSoFar(host, |host|, length);
  }

  /** The one-pass check accepts exactly the grammar. */
  method IsValidSunshineHost(host: string) returns (r: bool)
    ensures r <==> IsHost(host)
  {
    hide Scanned, Labels, AllLabels, IsLabelChar;
    if host == "" || |host| > LONGEST_HOST || host[0] == '.' || host[|host| - 1] == '.' {
      NotAHost(host);
      return false;
    }
    var labelLength := 0;
    var labelStartsWithHyphen := false;
    ScanStarts(host);
    for index := 0 to |host|
      invariant labelLength >= 0 && Scanned(host, index, labelLength, labelStartsWithHyphen)
      invariant index == 0 ==> labelLength == 0
    {
      var character := host[index];
      LabelCharsAreRanges(character);
      if character == '.' {
        ScanDot(host, index, labelLength, labelStartsWithHyphen);
        if labelLength == 0 || labelLength > LONGEST_LABEL || labelStartsWithHyphen || host[index - 1] == '-' {
          return false;
        }
        labelLength := 0;
        labelStartsWithHyphen := false;
      } else if IsAlphanumeric(character) || character == '-' {
        ScanLabelChar(host, index, labelLength, labelStartsWithHyphen);
        if labelLength == 0 {
          labelStartsWithHyphen := character == '-';
        }
        labelLength := labelLength + 1;
      } else {
        if AllLabels(host) { HostCharsAreFine(host, index); }
        return false;
      }
    }
    ScanEnds(host, labelLength, labelStartsWithHyphen);
    return labelLength > 0 && labelLength <= LONGEST_LABEL && !labelStartsWithHyphen && host[|host| - 1] != '-';
  }

  lemma NotAHost(host: string)
    requires host == "" || |host| > LONGEST_HOST || host[0] == '.' || host[|host| - 1] == '.'
    ensures !IsHost(host)
  {
    if |host| <= LONGEST_HOST {
      if host == "" {
        assert Labels(host)[0] == "";
      } else if host[0] == '.' {
        assert Labels(host)[0] == "";
      } else {
        EndsWithDot(host);
      }
      assert "" in Labels(host) && !IsLabel("");
    }
  }

  lemma SplitAllLabels(current: string, rest: string)
    requires Labels(current + "." + rest) == [current] + Labels(rest)
    ensures AllLabels(current + "." + rest) <==> IsLabel(current) && AllLabels(rest)
  {
    hide Labels, IsLabel;
    var all := [current] + Labels(rest);
    assert all[0] == current;
  }

  /** What the counters say about the label read so far. */
  lemma LabelSoFar(host: string, index: nat, length: nat)
    requires length <= index <= |host| && forall i | index - length <= i < index :: IsLabelChar(host[i])
    ensures IsLabel(host[index - length..index]) <==>
            0 < length <= LONGEST_LABEL && host[index - length] != '-' && host[index - 1] != '-'
  {
    hide IsLabelChar;
    var part := host[index - length..index];
    assert forall i | 0 <= i < |part| :: part[i] == host[index - length + i];
  }

  // ---------------------------------------------------------- endpoints

  datatype Endpoint = Endpoint(host: string, port: nat)

  /** What an endpoint text means: a host alone on the default port, or host, colon and a port of
      at most five digits between 1 and 65535. */
  ghost predicate Denotes(text: string, e: Endpoint) {
    && IsHost(e.host)
    && ((text == e.host && e.port == 47989)
        || (exists digits: string ::
              && AllDigits(digits) && text == e.host + ":" + digits && 1 <= |digits| <= 5
              && DecimalValue(digits) == e.port && 1 <= e.port <= 65535))
  }

  function LastColon(text: string): (r: Option<nat>)
    ensures r.Some? ==> r.value < |text| && text[r.value] == ':'
    ensures forall i | (if r.Some? then r.value + 1 else 0) <= i < |text| :: text[i] != ':'
  {
    if text == "" then None
    else if text[|text| - 1] == ':' then Some(|text| - 1)
    else LastColon(text[..|text| - 1])
  }

  lemma HostHasNoColon(host: string, i: nat)
    requires IsHost(host) && i < |host|
    ensures host[i] != ':'
  {
    HostCharsAreFine(host, i);
  }

  lemma ColonIsSeparator(text: string, host: string, digits: string)
    requires AllDigits(digits) && text == host + ":" + digits
    ensures LastColon(text) == Some(|host|)
  {
    assert text[|host|] == ':';
    assert forall i | |host| < i < |text| :: text[i] == digits[i - |host| - 1];
  }

  /** The parser returns an endpoint exactly when the text denotes it. */
  method ParseSunshineEndpoint(text: string) returns (r: Option<Endpoint>)
    ensures forall e :: r == Some(e) <==> Denotes(text, e)
  {
    hide IsHost, IsLabelChar;
    var separator := LastColon(text);
    if separator == None {
      var valid := IsValidSunshineHost(text);
      WithoutColon(text);
      return if valid then Some(Endpoint(text, DEFAULT_HTTP_PORT)) else None;
    }
    var host, port := text[..separator.value], text[separator.value + 1..];
    WithColon(text, host, port);
    var valid := IsValidSunshineHost(host);
    if !valid || port == "" || |port| > 5 {
      return None;
    }
    var value := 0;
    for index := 0 to |port|
      invariant AllDigits(port[..index]) && value == DecimalValue(port[..index])
    {
      if !IsDigit(port[index]) {
        return None;
      }
      OneMoreDigit(port, index);
      value := value * 10 + DigitOf(port[index]);
    }
    assert port[..|port|] == port;
    if value == 0 || value > 65535 {
      return None;
    }
    return Some(Endpoint(host, value));
  }

  lemma OneMoreDigit(s: string, index: nat)
    requires index < |s| && AllDigits(s[..index]) && IsDigit(s[index])
    ensures AllDigits(s[..index + 1])
    ensures DecimalValue(s[..index + 1]) == 10 * DecimalValue(s[..index]) + DigitOf(s[index])
  {
    assert s[..index + 1][..index] == s[..index];
  }

  lemma WithoutColon(text: string)
    requires LastColon(text) == None
    ensures forall e :: Denotes(text, e) <==> IsHost(text) && e == Endpoint(text, DEFAULT_HTTP_PORT)
  {
    hide IsHost, DecimalValue;
    forall host: string, digits: string ensures text != host + ":" + digits {
      var split := host + ":" + digits;
      assert split[|host|] == ':';
    }
  }

  lemma WithColon(text: string, host: string, port: string)
    requires LastColon(text).Some? && host == text[..LastColon(text).value] && port == text[LastColon(text).value + 1..]
    ensures forall e :: Denotes(text, e) <==>
            && IsHost(host) && AllDigits(port) && 1 <= |port| <= 5
            && e == Endpoint(host, DecimalValue(port)) && 1 <= e.port <= 65535
  {
    var c := LastColon(text).value;
    assert text == host + ":" + port;
    if IsHost(text) { HostHasNoColon(text, c); }
    hide IsHost, DecimalValue;
    forall e | Denotes(text, e)
      ensures IsHost(host) && AllDigits(port) && 1 <= |port| <= 5
              && e == Endpoint(host, DecimalValue(port)) && 1 <= e.port <= 65535
    {
      var digits: string :|
        && AllDigits(digits) && text == e.host + ":" + digits && 1 <= |digits| <= 5
        && DecimalValue(digits) == e.port && 1 <= e.port <= 65535;
      ColonIsSeparator(text, e.host, digits);
      assert e.host == text[..c] && digits == text[c + 1..];
    }
  }

  function Format(e: Endpoint): string { e.host + ":" + Decimal(e.port) }

  /** Every host and port survives formatting and parsing. */
  lemma FormattedDenotes(e: Endpoint)
    requires IsHost(e.host) && 1 <= e.port <= 65535
    ensures forall other :: Denotes(Format(e), other) <==> other == e
  {
    hide IsHost, LastColon;
    var digits := Decimal(e.port);
    ValueOfDecimal(e.port);
    FivePowers();
    DecimalIsShort(e.port, 5);
    ColonIsSeparator(Format(e), e.host, digits);
    var text := Format(e);
    assert text[..|e.host|] == e.host && text[|e.host| + 1..] == digits;
    WithColon(text, e.host, digits);
  }

  lemma FivePowers()
    ensures PowerOfTen(5) == 100000
  {
    assert PowerOfTen(2) == 100;
    assert PowerOfTen(4) == 10000;
  }
}
