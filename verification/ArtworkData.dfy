/** Artwork as it travels: bytes in base64 (RFC 4648 section 4) inside an answer, and out again
    in a data URL (RFC 2397). */
module ArtworkData {
  import opened Basics
  import opened Artwork

  /** Table 1: capitals, small letters, digits, plus and slash. */
  function Digit(v: nat): char
    requires v < 64
  {
    if v < 26 then 'A' + v as char
    else if v < 52 then 'a' + (v - 26) as char
    else if v < 62 then '0' + (v - 52) as char
    else if v == 62 then '+' else '/'
  }

  ghost predicate IsDigit(c: char) { exists v: nat :: v < 64 && Digit(v) == c }

  /** Three bytes in four digits; the last one or two are filled up with equals signs. */
  function Base64(bytes: seq<byte>): string {
    if bytes == [] then ""
    else if |bytes| == 1 then [Digit(bytes[0] / 4), Digit(bytes[0] % 4 * 16), '=', '=']
    else if |bytes| == 2 then
      [Digit(bytes[0] / 4), Digit(bytes[0] % 4 * 16 + bytes[1] / 16), Digit(bytes[1] % 16 * 4), '=']
    else
      [Digit(bytes[0] / 4), Digit(bytes[0] % 4 * 16 + bytes[1] / 16), Digit(bytes[1] % 16 * 4 + bytes[2] / 64),
       Digit(bytes[2] % 64)] + Base64(bytes[3..])
  }

  lemma DigitsAreBase64(v: nat)
    requires v < 64
    ensures IsBase64Char(Digit(v))
  {}

  lemma Base64CharsAreDigits(c: char)
    ensures IsBase64Char(c) <==> IsDigit(c)
  {
    if IsBase64Char(c) { assert Digit(ValueOf(c)) == c; }
  }

  // -------------------------------------------------- what is accepted

  function Padding(n: nat): nat { if n % 3 == 0 then 0 else 3 - n % 3 }

  lemma {:induction false} EncodedShape(bytes: seq<byte>)
    ensures |Base64(bytes)| == 4 * ((|bytes| + 2) / 3)
    ensures EndsInPadding(Base64(bytes), Padding(|bytes|))
  {
    hide Digit, IsBase64Char;
    if |bytes| >= 1 { DigitsAreBase64(bytes[0] / 4); }
    if |bytes| == 1 { DigitsAreBase64(bytes[0] % 4 * 16); }
    if |bytes| >= 2 { DigitsAreBase64(bytes[0] % 4 * 16 + bytes[1] / 16); }
    if |bytes| == 2 { DigitsAreBase64(bytes[1] % 16 * 4); }
    if |bytes| >= 3 {
      DigitsAreBase64(bytes[1] % 16 * 4 + bytes[2] / 64);
      DigitsAreBase64(bytes[2] % 64);
      EncodedShape(bytes[3..]);
      LongerPadding(Base64(bytes)[..4], Base64(bytes[3..]), Padding(|bytes| - 3));
      assert Base64(bytes) == Base64(bytes)[..4] + Base64(bytes[3..]);
    }
  }

  lemma LongerPadding(front: string, rest: string, padding: nat)
    requires EndsInPadding(rest, padding) && forall i | 0 <= i < |front| :: IsBase64Char(front[i])
    ensures EndsInPadding(front + rest, padding)
  {
    hide IsBase64Char;
    var s := front + rest;
    assert forall i | |front| <= i < |s| :: s[i] == rest[i - |front|];
  }

  function Encoded(id: AppId, mime: string, bytes: seq<byte>): Answer {
    Answer(Some(id), true, Some(mime), Some(Base64(bytes)))
  }

  /** Every image is accepted in the three formats, unless it is empty or its text is longer
      than twelve mebibytes; in any other format none is. */
  lemma EncodedIsAccepted(id: AppId, mime: string, bytes: seq<byte>)
    ensures ValidArtwork(Encoded(id, mime, bytes)) <==>
            && (mime == "image/jpeg" || mime == "image/png" || mime == "image/webp")
            && bytes != [] && 4 * ((|bytes| + 2) / 3) <= 12_582_912
  {
    hide Base64, EndsInPadding;
    EncodedShape(bytes);
  }

  /** And nothing but base64 text is: whole groups of four, digits of the alphabet, at most two
      equals signs at the very end. */
  lemma AcceptedIsBase64(a: Answer)
    requires ValidArtwork(a)
    ensures var s := a.data.value;
            && 0 < |s| <= 12_582_912 && |s| % 4 == 0
            && (forall i | 0 <= i < |s| - 2 :: IsDigit(s[i]))
            && (forall i | |s| - 2 <= i < |s| :: IsDigit(s[i]) || s[i] == '=')
            && (s[|s| - 2] == '=' ==> s[|s| - 1] == '=')
  {
    var s := a.data.value;
    forall i | 0 <= i < |s| ensures IsBase64Char(s[i]) <==> IsDigit(s[i]) { Base64CharsAreDigits(s[i]); }
    hide IsBase64Char, IsDigit;
  }

  // --------------------------------------------------------- and out again

  function ValueOf(c: char): nat {
    if 'A' <= c <= 'Z' then (c as int) - ('A' as int)
    else if 'a' <= c <= 'z' then (c as int) - ('a' as int) + 26
    else if '0' <= c <= '9' then (c as int) - ('0' as int) + 52
    else if c == '+' then 62 else 63
  }

  lemma ValueOfDigit(v: nat)
    requires v < 64
    ensures ValueOf(Digit(v)) == v && Digit(v) != '='
  {}

  function Decode(s: string): seq<int> {
    if |s| < 4 then []
    else
      var a, b, c, d := ValueOf(s[0]), ValueOf(s[1]), ValueOf(s[2]), ValueOf(s[3]);
      if s[2] == '=' then [a * 4 + b / 16]
      else if s[3] == '=' then [a * 4 + b / 16, b % 16 * 16 + c / 4]
      else [a * 4 + b / 16, b % 16 * 16 + c / 4, c % 4 * 64 + d] + Decode(s[4..])
  }

  lemma BitsAreRegrouped(x: byte, y: byte, z: byte)
    ensures x / 4 < 64 && x % 4 * 16 + y / 16 < 64 && y % 16 * 4 + z / 64 < 64
    ensures x / 4 * 4 + (x % 4 * 16 + y / 16) / 16 == x
    ensures (x % 4 * 16 + y / 16) % 16 * 16 + (y % 16 * 4 + z / 64) / 4 == y
    ensures (y % 16 * 4 + z / 64) % 4 * 64 + z % 64 == z
  {}

  lemma GroupIsDecoded(x: byte, y: byte, z: byte, rest: string)
    ensures x / 4 < 64 && x % 4 * 16 + y / 16 < 64 && y % 16 * 4 + z / 64 < 64
    ensures Decode([Digit(x / 4), Digit(x % 4 * 16 + y / 16), Digit(y % 16 * 4 + z / 64), Digit(z % 64)] + rest)
         == [x, y, z] + Decode(rest)
    ensures Decode([Digit(x / 4), Digit(x % 4 * 16 + y / 16), Digit(y % 16 * 4), '=']) == [x, y]
    ensures Decode([Digit(x / 4), Digit(x % 4 * 16), '=', '=']) == [x]
  {
    hide Digit, ValueOf;
    BitsAreRegrouped(x, y, z);
    BitsAreRegrouped(x, y, 0);
    BitsAreRegrouped(x, 0, 0);
    ValueOfDigit(x / 4);
    ValueOfDigit(x % 4 * 16 + y / 16);
    ValueOfDigit(x % 4 * 16);
    ValueOfDigit(y % 16 * 4 + z / 64);
    ValueOfDigit(y % 16 * 4);
    ValueOfDigit(z % 64);
    var s := [Digit(x / 4), Digit(x % 4 * 16 + y / 16), Digit(y % 16 * 4 + z / 64), Digit(z % 64)] + rest;
    assert s[4..] == rest;
  }

  lemma {:induction false} DecodeInvertsBase64(bytes: seq<byte>)
    ensures Decode(Base64(bytes)) == bytes
  {
    hide Digit, Decode;
    if bytes == [] {
      NothingDecodes();
    } else if |bytes| == 1 {
      GroupIsDecoded(bytes[0], 0, 0, "");
    } else if |bytes| == 2 {
      GroupIsDecoded(bytes[0], bytes[1], 0, "");
    } else {
      GroupIsDecoded(bytes[0], bytes[1], bytes[2], Base64(bytes[3..]));
      DecodeInvertsBase64(bytes[3..]);
      assert bytes == [bytes[0], bytes[1], bytes[2]] + bytes[3..];
    }
  }

  lemma NothingDecodes()
    ensures Decode("") == []
  {}

  function FirstComma(s: string): (n: nat)
    ensures n <= |s| && (n < |s| ==> s[n] == ',') && forall i | 0 <= i < n :: s[i] != ','
  {
    if s == "" || s[0] == ',' then 0 else 1 + FirstComma(s[1..])
  }

  /** What a browser makes of a data URL: the type, and the text after the first comma. */
  function ParseDataUrl(url: string): Option<(string, string)> {
    var comma := FirstComma(url);
    if comma < |url| && comma >= 12 && url[..5] == "data:" && url[comma - 7..comma] == ";base64"
    then Some((url[5..comma - 7], url[comma + 1..])) else None
  }

  lemma DataUrlIsParsed(a: Answer)
    requires ValidArtwork(a)
    ensures ParseDataUrl(DataUrl(a)) == Some((a.mimeType.value, a.data.value))
  {
    hide IsBase64;
    var mime, data := a.mimeType.value, a.data.value;
    SupportedHasNoComma(mime);
    hide ValidArtwork;
    var head := "data:" + mime + ";base64";
    assert DataUrl(a) == head + ("," + data);
    CommaAfter(head, data);
    assert head[..5] == "data:" && head[|head| - 7..] == ";base64" && head[5..|head| - 7] == mime;
  }

  lemma SupportedHasNoComma(mime: string)
    requires mime in {"image/jpeg", "image/png", "image/webp"}
    ensures forall i | 0 <= i < |mime| :: mime[i] != ','
  {}

  lemma CommaAfter(head: string, data: string)
    requires forall i | 0 <= i < |head| :: head[i] != ','
    ensures var url := head + ("," + data);
            && FirstComma(url) == |head| < |url| && url[|head| + 1..] == data
            && forall i, j | 0 <= i <= j <= |head| :: url[i..j] == head[i..j]
  {
    var url := head + ("," + data);
    assert url[|head|] == ',';
    assert forall i | 0 <= i < |head| :: url[i] == head[i];
  }

  /** An image that is answered reaches its tile as it was: the tile is given a data URL of its
      type that decodes to its bytes, and it stays loaded. */
  lemma ArtworkReachesTheTile(l: Loader, id: AppId, mime: string, bytes: seq<byte>)
    requires Settled(l) && l.inFlight == Some(id) && ValidArtwork(Encoded(id, mime, bytes))
    ensures var l' := HandleAnswer(l, Encoded(id, mime, bytes));
            && id in l'.loaded && ParseDataUrl(l'.loaded[id]) == Some((mime, Base64(bytes)))
            && Decode(Base64(bytes)) == bytes
            && l'.shown == l.shown + if id in l.currentIds then [Shown(id, Some(l'.loaded[id]))] else []
  {
    hide ValidArtwork, ParseDataUrl, DataUrl, Base64, Decode, Settled, Artwork.Inv;
    var a := Encoded(id, mime, bytes);
    DataUrlIsParsed(a);
    DecodeInvertsBase64(bytes);
    PumpKeepsLoaded(Record(l, id, a));
  }

  lemma {:induction false} PumpKeepsLoaded(l: Loader)
    ensures Pump(l).loaded == l.loaded && Pump(l).shown == l.shown
    decreases |l.pending|
  {
    if l.inFlight == None && l.pending != [] && !Wanted(l, l.pending[0]) {
      PumpKeepsLoaded(l.(pending := l.pending[1..], pendingIds := l.pendingIds - {l.pending[0]}));
    }
  }

  /** Anything else marks the application unavailable, and its tile is told so. */
  lemma OtherAnswersShowNothing(l: Loader, id: AppId, a: Answer)
    requires l.inFlight == Some(id) && a.appId == Some(id) && !ValidArtwork(a)
    ensures var l' := HandleAnswer(l, a);
            && id in l'.unavailable && l'.loaded == l.loaded
            && l'.shown == l.shown + if id in l.currentIds then [Shown(id, None)] else []
  {
    hide ValidArtwork;
    PumpKeepsLoaded(Record(l, id, a));
    PumpKeepsUnavailable(Record(l, id, a));
  }

  lemma {:induction false} PumpKeepsUnavailable(l: Loader)
    ensures Pump(l).unavailable == l.unavailable
    decreases |l.pending|
  {
    if l.inFlight == None && l.pending != [] && !Wanted(l, l.pending[0]) {
      PumpKeepsUnavailable(l.(pending := l.pending[1..], pendingIds := l.pendingIds - {l.pending[0]}));
    }
  }
}
