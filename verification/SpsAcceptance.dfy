/** The converse of SpsEncoding's bit-level round trip: the parser accepts nothing but
    well-formed sequence parameter sets, so it accepts exactly those. */
module SpsAcceptance {
  import opened Basics
  import opened BitStream
  import AnnexB
  import opened HevcSps
  import opened SpsEncoding

  // -------------------------------------------------------------- fields

  lemma Taken(bits: seq<bit>, count: nat)
    requires Take(bits, count).Got?
    ensures |Take(bits, count).value| == count && bits == Take(bits, count).value + Take(bits, count).rest
  {}

  lemma NumberTaken(bits: seq<bit>, count: nat)
    requires Number(bits, count).Got?
    ensures var r := Number(bits, count); r.value < Power2(count) && bits == Bits(count, r.value) + r.rest
  {
    hide Value, Bits, Power2;
    BitsInvertsValue(bits[..count]);
    ValueBound(bits[..count]);
  }

  lemma Log2Is(value: nat, n: nat)
    requires Power2(n) <= value < Power2(n + 1)
    ensures value > 0 && Log2(value) == n
  {
    hide Power2;
    var m := Log2(value);
    if m < n { Power2Monotone(m + 1, n); }
    if n < m { Power2Monotone(n + 1, m); }
  }

  /** Every ue(v) that is read is the code of its value, and no value is beyond the range. */
  lemma UeTaken(bits: seq<bit>)
    requires ExpGolomb(bits).Got?
    ensures var r := ExpGolomb(bits); IsUe(r.value) && bits == Ue(r.value) + r.rest
  {
    hide Power2, LeadingZeros, Value, Number, Bits, Log2;
    var zeros := LeadingZeros(bits);
    var suffix := Number(bits[zeros + 1..], zeros);
    NumberTaken(bits[zeros + 1..], zeros);
    Power2Doubles(zeros);
    Log2Is(Power2(zeros) + suffix.value, zeros);
    Power2Monotone(zeros, 31);
    Power2Of32();
    assert bits[..zeros] == Zeros(zeros);
    assert bits == bits[..zeros] + [bits[zeros]] + bits[zeros + 1..];
    assert Zeros(zeros) + [1] + (Bits(zeros, suffix.value) + suffix.rest)
        == (Zeros(zeros) + [1] + Bits(zeros, suffix.value)) + suffix.rest;
  }

  lemma {:induction false} UesTaken(bits: seq<bit>, count: nat) returns (values: seq<nat>)
    requires SkipGolombs(bits, count).Got?
    ensures |values| == count && (forall v | v in values :: IsUe(v))
    ensures bits == UeList(values, SkipGolombs(bits, count).rest)
    decreases count
  {
    hide ExpGolomb, Ue, IsUe;
    values := [];
    if count > 0 {
      UeTaken(bits);
      var first := ExpGolomb(bits);
      var later := UesTaken(first.rest, count - 1);
      values := [first.value] + later;
      assert values[1..] == later;
    }
  }

  // --------------------------------------------------------------- parts

  /** A set with nothing in it, for the parts to be filled in. */
  const BLANK := Sps([], [], [], [], 0, [], [], [], [], 0, 0, [], 0, 0, None, 0, 0)

  lemma GeneralTaken(bits: seq<bit>) returns (s: Sps)
    requires ParseGeneral(bits).Got?
    ensures |s.vpsId| == 4 && |s.nesting| == 1 && |s.spaceAndTier| == 3 && s.profileIdc < 32
    ensures |s.compatibility| == 32 && |s.constraints| == 48 && |s.level| == 8 && |s.layers| <= 7
    ensures ParseGeneral(bits).value
         == General(|s.layers|, s.profileIdc, s.profileIdc == 2 || s.compatibility[2] == 1)
    ensures bits == GeneralBits(s, ParseGeneral(bits).rest)
  {
    hide Take, Number, Bits;
    SmallPowers();
    var vps := Take(bits, 4);
    Taken(bits, 4);
    var subLayers := Number(vps.rest, 3);
    NumberTaken(vps.rest, 3);
    var nesting := Take(subLayers.rest, 1);
    Taken(subLayers.rest, 1);
    var space := Take(nesting.rest, 3);
    Taken(nesting.rest, 3);
    var profile := Number(space.rest, 5);
    NumberTaken(space.rest, 5);
    var compatibility := Take(profile.rest, 32);
    Taken(profile.rest, 32);
    var constraints := Take(compatibility.rest, 48);
    Taken(compatibility.rest, 48);
    var level := Take(constraints.rest, 8);
    Taken(constraints.rest, 8);
    s := BLANK.(vpsId := vps.value, layers := seq(subLayers.value, _ => Layer(None, None)), nesting := nesting.value,
                spaceAndTier := space.value, profileIdc := profile.value, compatibility := compatibility.value,
                constraints := constraints.value, level := level.value);
  }

  lemma {:induction false} PresenceTaken(bits: seq<bit>, count: nat, layers: seq<Layer>)
    requires ParsePresence(bits, count).Got? && PresentOf(layers) == ParsePresence(bits, count).value
    ensures |layers| == count && bits == PresenceBits(layers, ParsePresence(bits, count).rest)
    decreases count
  {
    hide Take;
    if count > 0 {
      Taken(bits, 1);
      var p := Take(bits, 1);
      Taken(p.rest, 1);
      var l := Take(p.rest, 1);
      assert layers != [];
      var present := ParsePresence(l.rest, count - 1).value;
      assert PresentOf(layers)[1..] == PresentOf(layers[1..]);
      assert ParsePresence(bits, count).value[1..] == present;
      PresenceTaken(l.rest, count - 1, layers[1..]);
      assert p.value == Flag(layers[0].profile.Some?) && l.value == Flag(layers[0].level.Some?);
    }
  }

  lemma OptionalTaken(bits: seq<bit>, present: bool, count: nat) returns (field: Option<seq<bit>>)
    requires SkipIf(bits, present, count).Got?
    ensures field.Some? == present && (present ==> |field.value| == count)
    ensures bits == OptionalBits(field, SkipIf(bits, present, count).rest)
  {
    field := if present then Some(Take(bits, count).value) else None;
  }

  lemma {:induction false} LayersTaken(bits: seq<bit>, present: seq<Present>) returns (layers: seq<Layer>)
    requires SkipLayers(bits, present).Got?
    ensures PresentOf(layers) == present && (forall l | l in layers :: WellFormedLayer(l))
    ensures bits == LayerBits(layers, SkipLayers(bits, present).rest)
    decreases |present|
  {
    hide SkipIf, OptionalBits;
    layers := [];
    if present != [] {
      var profile := OptionalTaken(bits, present[0].profile, PROFILE_BITS);
      var b0 := SkipIf(bits, present[0].profile, PROFILE_BITS).rest;
      var level := OptionalTaken(b0, present[0].level, LEVEL_BITS);
      var b1 := SkipIf(b0, present[0].level, LEVEL_BITS).rest;
      var later := LayersTaken(b1, present[1..]);
      layers := [Layer(profile, level)] + later;
      assert layers[1..] == later;
      assert present == [Present(profile.Some?, level.Some?)] + present[1..];
    }
  }

  lemma SubLayersTaken(bits: seq<bit>, count: nat) returns (layers: seq<Layer>, reserved: seq<bit>)
    requires count <= 7 && ParseSubLayers(bits, count).Got?
    ensures |layers| == count && (forall l | l in layers :: WellFormedLayer(l))
    ensures |reserved| == if layers == [] then 0 else (8 - |layers|) * 2
    ensures bits == PresenceBits(layers, reserved + LayerBits(layers, ParseSubLayers(bits, count).rest))
  {
    hide Take, SkipLayers, ParsePresence, PresenceBits, LayerBits, PresentOf, WellFormedLayer;
    var presence := ParsePresence(bits, count);
    var width := if count > 0 then (8 - count) * 2 else 0;
    Taken(presence.rest, width);
    var skipped := Take(presence.rest, width);
    reserved := skipped.value;
    layers := LayersTaken(skipped.rest, presence.value);
    PresenceTaken(bits, count, layers);
  }

  lemma ChromaTaken(bits: seq<bit>, s: Sps) returns (s': Sps)
    requires ParseChroma(bits).Got?
    ensures s' == s.(id := s'.id, chromaFormat := ParseChroma(bits).value, separatePlanes := s'.separatePlanes)
    ensures IsUe(s'.id) && s'.chromaFormat <= 3 && |s'.separatePlanes| == (if s'.chromaFormat == 3 then 1 else 0)
    ensures bits == ChromaBits(s', ParseChroma(bits).rest)
  {
    hide ExpGolomb, Ue, IsUe;
    UeTaken(bits);
    var id := ExpGolomb(bits);
    UeTaken(id.rest);
    var chroma := ExpGolomb(id.rest);
    var planes := SkipIf(chroma.rest, chroma.value == 3, 1);
    s' := s.(id := id.value, chromaFormat := chroma.value, separatePlanes := planes.value);
    assert chroma.rest == planes.value + planes.rest;
  }

  lemma PictureTaken(bits: seq<bit>, s: Sps) returns (s': Sps)
    requires SkipPicture(bits).Got?
    ensures s' == s.(width := s'.width, height := s'.height, window := s'.window)
    ensures IsUe(s'.width) && IsUe(s'.height)
    ensures s'.window.Some? ==> |s'.window.value| == 4 && forall v | v in s'.window.value :: IsUe(v)
    ensures bits == PictureBits(s', SkipPicture(bits).rest)
  {
    hide SkipGolombs, UeList, IsUe, Take;
    var size := UesTaken(bits, 2);
    var b0 := SkipGolombs(bits, 2).rest;
    Taken(b0, 1);
    var window := Take(b0, 1);
    var offsets := UesTaken(window.rest, if window.value[0] == 1 then 4 else 0);
    s' := s.(width := size[0], height := size[1], window := if window.value[0] == 1 then Some(offsets) else None);
    assert size == [s'.width, s'.height];
    assert window.value == Flag(s'.window.Some?);
    if s'.window == None { NoUes(window.rest, offsets); }
  }

  lemma NoUes(bits: seq<bit>, values: seq<nat>)
    requires SkipGolombs(bits, 0).Got? && values == []
    ensures SkipGolombs(bits, 0).rest == bits == UeList(values, bits)
  {}

  lemma DepthsTaken(bits: seq<bit>, s: Sps) returns (s': Sps)
    requires ParseDepths(bits).Got?
    ensures s' == s.(lumaMinus8 := ParseDepths(bits).value.luma, chromaMinus8 := ParseDepths(bits).value.chroma)
    ensures s'.lumaMinus8 <= 8 && s'.chromaMinus8 <= 8
    ensures bits == DepthBits(s', ParseDepths(bits).rest)
  {
    hide ExpGolomb, Ue, IsUe;
    UeTaken(bits);
    UeTaken(ExpGolomb(bits).rest);
    s' := s.(lumaMinus8 := ParseDepths(bits).value.luma, chromaMinus8 := ParseDepths(bits).value.chroma);
  }

  // ------------------------------------------------------------- the set

  ghost predicate Encodes(s: Sps, more: seq<bit>, bits: seq<bit>, info: SpsInfo) {
    WellFormed(s) && SpsBits(s, more) == bits && InfoOf(s) == info
  }

  /** The bits are those of some well-formed set, followed by anything. */
  ghost predicate HoldsSet(bits: seq<bit>, info: SpsInfo) { exists s, more :: Encodes(s, more, bits, info) }

  lemma AcceptedIsEncoded(bits: seq<bit>) returns (s: Sps, more: seq<bit>)
    requires ParseSps(bits).Some?
    ensures Encodes(s, more, bits, ParseSps(bits).value)
  {
    hide ParseGeneral, ParseSubLayers, ParseChroma, SkipPicture, ParseDepths;
    hide GeneralBits, PresenceBits, LayerBits, ChromaBits, PictureBits, DepthBits, IsUe, WellFormedLayer;
    s := GeneralTaken(bits);
    var general := ParseGeneral(bits);
    var layers, reserved := SubLayersTaken(general.rest, general.value.subLayers);
    var b1 := ParseSubLayers(general.rest, general.value.subLayers).rest;
    var s1 := ChromaTaken(b1, s.(layers := layers, reserved := reserved));
    var b2 := ParseChroma(b1).rest;
    var s2 := PictureTaken(b2, s1);
    var b3 := SkipPicture(b2).rest;
    var s3 := DepthsTaken(b3, s2);
    more := ParseDepths(b3).rest;
    SameParts(s, s1, s2, s3, general.rest, b2, b3);
    s := s3;
  }

  /** Each part's bits depend on its own fields only. */
  lemma SameParts(s0: Sps, s1: Sps, s2: Sps, s3: Sps, b0: seq<bit>, b2: seq<bit>, b3: seq<bit>)
    requires |s0.layers| == |s1.layers| <= 7
    requires s1 == s0.(layers := s1.layers, reserved := s1.reserved, id := s1.id, chromaFormat := s1.chromaFormat,
                       separatePlanes := s1.separatePlanes)
    requires s2 == s1.(width := s2.width, height := s2.height, window := s2.window)
    requires s3 == s2.(lumaMinus8 := s3.lumaMinus8, chromaMinus8 := s3.chromaMinus8)
    ensures GeneralBits(s3, b0) == GeneralBits(s0, b0)
    ensures ChromaBits(s3, b2) == ChromaBits(s1, b2) && PictureBits(s3, b3) == PictureBits(s2, b3)
  {
    hide Bits, Ue, UeList;
  }

  /** The parser accepts exactly the bits of well-formed sets, and reports what they say. */
  lemma AcceptsExactlyWellFormedSets(bits: seq<bit>, info: SpsInfo)
    ensures ParseSps(bits) == Some(info) <==> HoldsSet(bits, info)
  {
    hide ParseSps, SpsBits, InfoOf, WellFormed;
    if ParseSps(bits) == Some(info) {
      var s, more := AcceptedIsEncoded(bits);
    }
    forall s, more | Encodes(s, more, bits, info) ensures ParseSps(bits) == Some(info) {
      ParseInvertsBits(s, more);
    }
  }

  /** A NAL unit yields a record exactly when its type is 33, whatever its forbidden bit, and its
      bytes, emulation prevention removed, are the bits of a well-formed set. */
  lemma AcceptedUnits(nal: seq<byte>, info: SpsInfo)
    ensures SpsOf(nal) == Some(info) <==>
              && |nal| >= 3 && (nal[0] == 66 || nal[0] == 67 || nal[0] == 194 || nal[0] == 195)
              && HoldsSet(BitsOf(AnnexB.Unescape(nal[2..], 0)), info)
  {
    hide ParseSps, HoldsSet;
    if |nal| >= 3 && (nal[0] == 66 || nal[0] == 67 || nal[0] == 194 || nal[0] == 195) {
      var bits := BitsOf(AnnexB.Unescape(nal[2..], 0));
      AcceptsExactlyWellFormedSets(bits, info);
      assert SpsOf(nal) == ParseSps(bits);
    }
  }

  /** A unit of another type yields nothing: picture and video parameter sets, slices. */
  lemma OtherTypesYieldNothing(nal: seq<byte>)
    requires nal == [] || nal[0] / 2 % 64 != 33
    ensures SpsOf(nal) == None
  {}
}
