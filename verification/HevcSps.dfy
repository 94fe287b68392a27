/** The HEVC sequence parameter set: what the gateway reads from it, and the scan of an
    Annex B stream for the first one (ITU-T H.265 sections 7.3.1.1, 7.3.2.2.1 and 7.3.3).
    Each Parse function says what a reading method may return for the bits still ahead. */
module HevcSps {
  import opened Basics
  import opened BitStream
  import opened AnnexB

  const SPS_NAL_TYPE := 33
  const PROFILE_BITS := 88
  const LEVEL_BITS := 8

  datatype SpsInfo = SpsInfo(profileIdc: int, main10CompatibleProfile: bool, chromaFormatIdc: int,
                             bitDepthLuma: int, bitDepthChroma: int)

  // ------------------------------------------------------------- syntax

  datatype General = General(subLayers: nat, profileIdc: nat, main10: bool)

  function ParseGeneral(bits: seq<bit>): Read<General> {
    match Take(bits, 4) case Fail => Fail case Got(_, b0) =>
    match Number(b0, 3) case Fail => Fail case Got(subLayers, b1) =>
    match Take(b1, 1) case Fail => Fail case Got(_, b2) =>
    match Take(b2, 3) case Fail => Fail case Got(_, b3) =>
    match Number(b3, 5) case Fail => Fail case Got(profileIdc, b4) =>
    match Take(b4, 32) case Fail => Fail case Got(compatibility, b5) =>
    match Take(b5, 48) case Fail => Fail case Got(_, b6) =>
    match Take(b6, 8) case Fail => Fail case Got(_, b7) =>
    Got(General(subLayers, profileIdc, profileIdc == 2 || compatibility[2] == 1), b7)
  }

  datatype Present = Present(profile: bool, level: bool)

  function ParsePresence(bits: seq<bit>, count: nat): Read<seq<Present>> {
    if count == 0 then Got([], bits)
    else
      match Take(bits, 1) case Fail => Fail case Got(p, b0) =>
      match Take(b0, 1) case Fail => Fail case Got(l, b1) =>
      match ParsePresence(b1, count - 1) case Fail => Fail case Got(more, rest) =>
      Got([Present(p[0] == 1, l[0] == 1)] + more, rest)
  }

  function SkipIf(bits: seq<bit>, present: bool, count: nat): Read<seq<bit>> {
    if present then Take(bits, count) else Got([], bits)
  }

  function SkipLayers(bits: seq<bit>, present: seq<Present>): Read<()> {
    if present == [] then Got((), bits)
    else
      match SkipIf(bits, present[0].profile, PROFILE_BITS) case Fail => Fail case Got(_, b0) =>
      match SkipIf(b0, present[0].level, LEVEL_BITS) case Fail => Fail case Got(_, b1) =>
      SkipLayers(b1, present[1..])
  }

  function ParseSubLayers(bits: seq<bit>, count: nat): Read<()> {
    match ParsePresence(bits, count) case Fail => Fail case Got(present, b0) =>
    match Take(b0, if count > 0 then (8 - count) * 2 else 0) case Fail => Fail case Got(_, b1) =>
    SkipLayers(b1, present)
  }

  function SkipGolombs(bits: seq<bit>, count: nat): Read<()> {
    if count == 0 then Got((), bits)
    else match ExpGolomb(bits) case Fail => Fail case Got(_, b0) => SkipGolombs(b0, count - 1)
  }

  function ParseChroma(bits: seq<bit>): Read<nat> {
    match ExpGolomb(bits) case Fail => Fail case Got(_, b0) =>
    match ExpGolomb(b0) case Fail => Fail case Got(chroma, b1) =>
    if chroma > 3 then Fail
    else match SkipIf(b1, chroma == 3, 1) case Fail => Fail case Got(_, b2) => Got(chroma, b2)
  }

  function SkipPicture(bits: seq<bit>): Read<()> {
    match SkipGolombs(bits, 2) case Fail => Fail case Got(_, b0) =>
    match Take(b0, 1) case Fail => Fail case Got(window, b1) =>
    SkipGolombs(b1, if window[0] == 1 then 4 else 0)
  }

  datatype Depths = Depths(luma: nat, chroma: nat)

  function ParseDepths(bits: seq<bit>): Read<Depths> {
    match ExpGolomb(bits) case Fail => Fail case Got(luma, b0) =>
    match ExpGolomb(b0) case Fail => Fail case Got(chroma, b1) =>
    if luma > 8 || chroma > 8 then Fail else Got(Depths(luma, chroma), b1)
  }

  function ParseSps(bits: seq<bit>): Option<SpsInfo> {
    match ParseGeneral(bits) case Fail => None case Got(general, b0) =>
    match ParseSubLayers(b0, general.subLayers) case Fail => None case Got(_, b1) =>
    match ParseChroma(b1) case Fail => None case Got(chroma, b2) =>
    match SkipPicture(b2) case Fail => None case Got(_, b3) =>
    match ParseDepths(b3) case Fail => None case Got(depths, _) =>
    Some(SpsInfo(general.profileIdc, general.main10, chroma, depths.luma + 8, depths.chroma + 8))
  }

  function SpsOf(nal: seq<byte>): Option<SpsInfo> {
    if |nal| < 3 || nal[0] / 2 % 64 != SPS_NAL_TYPE then None
    else ParseSps(BitsOf(Unescape(nal[2..], 0)))
  }

  /** The first unit of the stream that parses as a parameter set. */
  function FirstSps(bytes: seq<byte>): Option<SpsInfo>
    decreases |bytes|
  {
    var code := StartCodeLength(bytes, 0);
    if bytes == [] then None
    else if code == 0 then FirstSps(bytes[1..])
    else
      var end := NextStart(bytes, code);
      match SpsOf(bytes[code..end])
      case Some(info) => Some(info)
      case None => FirstSps(bytes[end..])
  }

  // -------------------------------------------------------- the parser

  /** One flag bit. */
  method ReadFlag(reader: BitReader) returns (r: Option<bool>)
    requires reader.Valid()
    modifies reader
    ensures reader.Valid()
    ensures var bits := old(reader.Rest());
            if bits == [] then r == None && reader.Rest() == bits
            else r == Some(bits[0] == 1) && reader.Rest() == bits[1..]
  {
    ghost var bits := reader.Rest();
    var b := reader.ReadBits(1);
    if b == None {
      return None;
    }
    OneBit(bits);
    return Some(b.value != 0);
  }

  method ReadGeneral(reader: BitReader) returns (r: Option<General>)
    requires reader.Valid()
    modifies reader
    ensures reader.Valid()
    ensures match ParseGeneral(old(reader.Rest()))
            case Fail => r == None
            case Got(v, rest) => r == Some(v) && reader.Rest() == rest
  {
    var ok := reader.Skip(4);
    if !ok {
      return None;
    }
    var maxSubLayersMinus1 := reader.ReadBits(3);
    if maxSubLayersMinus1 == None {
      return None;
    }
    ok := reader.Skip(1);
    if !ok {
      return None;
    }
    ok := reader.Skip(3);
    if !ok {
      return None;
    }
    var profileIdc := reader.ReadBits(5);
    if profileIdc == None {
      return None;
    }
    var compatible := ReadCompatibility(reader);
    if compatible == None {
      return None;
    }
    ok := reader.Skip(48);
    if !ok {
      return None;
    }
    ok := reader.Skip(8);
    if !ok {
      return None;
    }
    return Some(General(maxSubLayersMinus1.value, profileIdc.value, profileIdc.value == 2 || compatible.value));
  }

  /** The 32 compatibility flags; only flag 2 is used. */
  method ReadCompatibility(reader: BitReader) returns (r: Option<bool>)
    requires reader.Valid()
    modifies reader
    ensures reader.Valid()
    ensures match Take(old(reader.Rest()), 32)
            case Fail => r == None
            case Got(flags, rest) => r == Some(flags[2] == 1) && reader.Rest() == rest
  {
    hide BitReader.Rest, BitReader.Valid;
    var profileCompatibility := new bool[32];
    ghost var start := reader.Rest();
    for index := 0 to 32
      invariant reader.Valid() && index <= |start| && reader.Rest() == start[index..]
      invariant forall k | 0 <= k < index :: profileCompatibility[k] == (start[k] == 1)
    {
      var b := ReadFlag(reader);
      if b == None {
        return None;
      }
      profileCompatibility[index] := b.value;
    }
    return Some(profileCompatibility[2]);
  }

  ghost function Prepend(read: seq<Present>, r: Read<seq<Present>>): Read<seq<Present>> {
    match r case Fail => Fail case Got(more, rest) => Got(read + more, rest)
  }

  method ReadPresence(reader: BitReader, count: nat, profilePresent: array<bool>, levelPresent: array<bool>)
    returns (ok: bool)
    requires reader.Valid() && count <= profilePresent.Length == levelPresent.Length == 7
    requires profilePresent != levelPresent
    modifies reader, profilePresent, levelPresent
    ensures reader.Valid()
    ensures match ParsePresence(old(reader.Rest()), count)
            case Fail => !ok
            case Got(present, rest) =>
              && ok && reader.Rest() == rest && |present| == count
              && forall k | 0 <= k < count :: present[k] == Present(profilePresent[k], levelPresent[k])
  {
    hide ParsePresence, Prepend, BitReader.Rest, BitReader.Valid;
    ghost var start, read := reader.Rest(), [];
    PrependNothing(ParsePresence(start, count));
    for index := 0 to count
      invariant reader.Valid() && |read| == index
      invariant forall k | 0 <= k < index :: read[k] == Present(profilePresent[k], levelPresent[k])
      invariant Prepend(read, ParsePresence(reader.Rest(), count - index)) == ParsePresence(start, count)
    {
      ghost var bits := reader.Rest();
      PresenceStep(read, bits, count - index);
      var profile := ReadFlag(reader);
      var level := ReadFlag(reader);
      if profile == None || level == None {
        return false;
      }
      assert bits[1..][0] == bits[1] && bits[1..][1..] == bits[2..];
      profilePresent[index] := profile.value;
      levelPresent[index] := level.value;
      read := read + [Present(bits[0] == 1, bits[1] == 1)];
    }
    PresenceEnds(read, reader.Rest());
    return true;
  }

  lemma PrependNothing(r: Read<seq<Present>>)
    ensures Prepend([], r) == r
  {
    assert r.Got? ==> [] + r.value == r.value;
  }

  lemma PresenceEnds(read: seq<Present>, bits: seq<bit>)
    ensures Prepend(read, ParsePresence(bits, 0)) == Got(read, bits)
  {
    assert read + [] == read;
  }

  lemma PresenceStep(read: seq<Present>, bits: seq<bit>, count: nat)
    requires count > 0
    ensures Prepend(read, ParsePresence(bits, count)) ==
            if |bits| < 2 then Fail
            else Prepend(read + [Present(bits[0] == 1, bits[1] == 1)], ParsePresence(bits[2..], count - 1))
  {
    if |bits| >= 2 {
      assert bits[1..][1..] == bits[2..];
      match ParsePresence(bits[2..], count - 1)
      case Fail =>
      case Got(more, rest) =>
        var one := Present(bits[0] == 1, bits[1] == 1);
        assert read + ([one] + more) == read + [one] + more;
    }
  }

  method ReadSubLayers(reader: BitReader, count: nat) returns (ok: bool)
    requires reader.Valid() && count <= 7
    modifies reader
    ensures reader.Valid()
    ensures match ParseSubLayers(old(reader.Rest()), count)
            case Fail => !ok
            case Got(_, rest) => ok && reader.Rest() == rest
  {
    hide Number, ParsePresence, BitReader.Rest, BitReader.Valid;
    var profilePresent, levelPresent := new bool[7], new bool[7];
    ghost var start := reader.Rest();
    ok := ReadPresence(reader, count, profilePresent, levelPresent);
    if !ok {
      return false;
    }
    if count > 0 {
      ok := reader.Skip((8 - count) * 2);
      if !ok {
        return false;
      }
    }
    ghost var present := ParsePresence(start, count).value;
    ghost var layers := reader.Rest();
    assert present[0..] == present;
    for index := 0 to count
      invariant reader.Valid()
      invariant forall k | 0 <= k < count :: present[k] == Present(profilePresent[k], levelPresent[k])
      invariant SkipLayers(reader.Rest(), present[index..]) == SkipLayers(layers, present)
    {
      assert present[index..][1..] == present[index + 1..];
      if profilePresent[index] {
        ok := reader.Skip(PROFILE_BITS);
        if !ok {
          return false;
        }
      }
      if levelPresent[index] {
        ok := reader.Skip(LEVEL_BITS);
        if !ok {
          return false;
        }
      }
    }
    return true;
  }

  method ReadChroma(reader: BitReader) returns (r: Option<nat>)
    requires reader.Valid()
    modifies reader
    ensures reader.Valid()
    ensures match ParseChroma(old(reader.Rest()))
            case Fail => r == None
            case Got(v, rest) => r == Some(v) && reader.Rest() == rest
  {
    hide ExpGolomb;
    var sequenceId := reader.ReadUnsignedExpGolomb();
    var chromaFormat := reader.ReadUnsignedExpGolomb();
    if sequenceId == None || chromaFormat == None || chromaFormat.value > 3 {
      return None;
    }
    if chromaFormat.value == 3 {
      var ok := reader.Skip(1);
      if !ok {
        return None;
      }
    }
    return chromaFormat;
  }

  method ReadPicture(reader: BitReader) returns (ok: bool)
    requires reader.Valid()
    modifies reader
    ensures reader.Valid()
    ensures match SkipPicture(old(reader.Rest()))
            case Fail => !ok
            case Got(_, rest) => ok && reader.Rest() == rest
  {
    hide ExpGolomb;
    ghost var start := reader.Rest();
    var width := reader.ReadUnsignedExpGolomb();
    ghost var b0 := reader.Rest();
    var height := reader.ReadUnsignedExpGolomb();
    ghost var b1 := reader.Rest();
    TwoGolombs(start);
    var conformanceWindow := reader.ReadBits(1);
    if width == None || height == None || conformanceWindow == None {
      return false;
    }
    OneBit(b1);
    if conformanceWindow.value != 0 {
      ghost var window := reader.Rest();
      for index := 0 to 4
        invariant reader.Valid()
        invariant SkipGolombs(reader.Rest(), 4 - index) == SkipGolombs(window, 4)
      {
        var offset := reader.ReadUnsignedExpGolomb();
        if offset == None {
          return false;
        }
      }
    }
    return true;
  }

  lemma TwoGolombs(bits: seq<bit>)
    ensures SkipGolombs(bits, 2) ==
            match ExpGolomb(bits) case Fail => Fail case Got(_, b0) =>
            match ExpGolomb(b0) case Fail => Fail case Got(_, b1) => Got((), b1)
  {
    hide ExpGolomb;
    match ExpGolomb(bits)
    case Fail =>
    case Got(_, b0) =>
      assert SkipGolombs(bits, 2) == SkipGolombs(b0, 1);
      match ExpGolomb(b0)
      case Fail =>
      case Got(_, b1) => assert SkipGolombs(b1, 0) == Got((), b1);
  }

  method ReadDepths(reader: BitReader) returns (r: Option<Depths>)
    requires reader.Valid()
    modifies reader
    ensures reader.Valid()
    ensures match ParseDepths(old(reader.Rest()))
            case Fail => r == None
            case Got(v, rest) => r == Some(v) && reader.Rest() == rest
  {
    hide ExpGolomb;
    var luma := reader.ReadUnsignedExpGolomb();
    var chroma := reader.ReadUnsignedExpGolomb();
    if luma == None || chroma == None || luma.value > 8 || chroma.value > 8 {
      return None;
    }
    return Some(Depths(luma.value, chroma.value));
  }

  lemma SubLayersAtMostSeven(bits: seq<bit>)
    ensures ParseGeneral(bits).Got? ==> ParseGeneral(bits).value.subLayers <= 7
  {
    if ParseGeneral(bits).Got? {
      ValueBound(bits[4..][..3]);
      assert Power2(3) == 8;
    }
  }

  method ReadSps(reader: BitReader) returns (r: Option<SpsInfo>)
    requires reader.Valid()
    modifies reader
    ensures r == ParseSps(old(reader.Rest()))
  {
    hide ParseGeneral, ParseSubLayers, ParseChroma, SkipPicture, ParseDepths, BitReader.Rest, BitReader.Valid;
    SubLayersAtMostSeven(reader.Rest());
    var general := ReadGeneral(reader);
    if general == None {
      return None;
    }
    var ok := ReadSubLayers(reader, general.value.subLayers);
    if !ok {
      return None;
    }
    var chroma := ReadChroma(reader);
    if chroma == None {
      return None;
    }
    ok := ReadPicture(reader);
    if !ok {
      return None;
    }
    var depths := ReadDepths(reader);
    if depths == None {
      return None;
    }
    return Some(SpsInfo(general.value.profileIdc, general.value.main10, chroma.value,
                        depths.value.luma + 8, depths.value.chroma + 8));
  }

  method ParseSpsNal(nal: seq<byte>) returns (r: Option<SpsInfo>)
    ensures r == SpsOf(nal)
  {
    hide ParseSps, BitsOf, Unescape;
    if |nal| < 3 || nal[0] / 2 % 64 != SPS_NAL_TYPE {
      return None;
    }
    var bytes := Rbsp(nal[2..]);
    var reader := new BitReader(bytes);
    r := ReadSps(reader);
  }

  method ParseHevcSps(annexB: seq<byte>) returns (r: Option<SpsInfo>)
    ensures r == FirstSps(annexB)
  {
    hide SpsOf, StartCodeLength, NextStart;
    var offset := 0;
    assert annexB[0..] == annexB;
    while offset < |annexB|
      invariant offset <= |annexB|
      invariant FirstSps(annexB[offset..]) == FirstSps(annexB)
    {
      SuffixScan(annexB, offset);
      var prefix := StartCodeLength(annexB, offset);
      if prefix == 0 {
        assert annexB[offset..][1..] == annexB[offset + 1..];
        offset := offset + 1;
        continue;
      }
      var nalStart := offset + prefix;
      var nalEnd := nalStart;
      while nalEnd < |annexB| && StartCodeLength(annexB, nalEnd) == 0
        invariant nalStart <= nalEnd <= |annexB|
        invariant forall i | nalStart <= i < nalEnd :: StartCodeLength(annexB, i) == 0
      {
        nalEnd := nalEnd + 1;
      }
      NextStartIs(annexB, nalStart, nalEnd);
      SliceOfSuffix(annexB, offset, nalStart, nalEnd);
      var parsed := ParseSpsNal(annexB[nalStart..nalEnd]);
      if parsed != None {
        return parsed;
      }
      offset := nalEnd;
    }
    return None;
  }

  lemma SliceOfSuffix<T>(s: seq<T>, offset: nat, start: nat, end: nat)
    requires offset <= start <= end <= |s|
    ensures s[offset..][start - offset..end - offset] == s[start..end]
    ensures s[offset..][end - offset..] == s[end..]
  {}

  lemma SuffixScan(bytes: seq<byte>, offset: nat)
    requires offset <= |bytes|
    ensures StartCodeLength(bytes[offset..], 0) == StartCodeLength(bytes, offset)
    ensures var code := StartCodeLength(bytes, offset);
            NextStart(bytes[offset..], code) + offset == NextStart(bytes, offset + code)
  {
    hide StartCodeLength, NextStart;
    var suffix := bytes[offset..];
    assert bytes[..offset] + suffix == bytes;
    forall i: nat ensures StartCodeLength(suffix, i) == StartCodeLength(bytes, offset + i) {
      ShiftStartCode(bytes[..offset], suffix, i);
    }
    var code := StartCodeLength(bytes, offset);
    var n := NextStart(suffix, code);
    forall i | offset + code <= i < offset + n ensures StartCodeLength(bytes, i) == 0 {
      assert StartCodeLength(suffix, i - offset) == StartCodeLength(bytes, offset + (i - offset));
    }
    NextStartIs(bytes, offset + code, offset + n);
  }
}
