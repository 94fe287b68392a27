/** An encoder of sequence parameter sets, written from the syntax tables of ITU-T H.265
    (sections 7.3.1.1, 7.3.2.2.1, 7.3.3 and 9.2), and the proof that the gateway's scan of
    any stream holding such a set gives back exactly what was encoded. */
module SpsEncoding {
  import opened Basics
  import opened BitStream
  import opened AnnexB
  import opened HevcSps

  // ------------------------------------------------------ numbers as bits

  lemma {:induction false} ValueInvertsBits(count: nat, value: nat)
    requires value < Power2(count)
    ensures Value(Bits(count, value)) == value
  {
    if count > 0 {
      ValueInvertsBits(count - 1, value / 2);
      assert Bits(count, value)[..count - 1] == Bits(count - 1, value / 2);
    }
  }

  function Zeros(count: nat): (r: seq<bit>)
    ensures |r| == count && forall i | 0 <= i < count :: r[i] == 0
  {
    seq(count, i => 0)
  }

  function Log2(value: nat): (n: nat)
    requires value > 0
    ensures Power2(n) <= value < Power2(n + 1)
  {
    if value == 1 then 0 else 1 + Log2(value / 2)
  }

  /** ue(v) of section 9.2: as many zeros as the binary form of v + 1 has bits after its first. */
  function Ue(value: nat): seq<bit> {
    var zeros := Log2(value + 1);
    Zeros(zeros) + [1] + Bits(zeros, value + 1 - Power2(zeros))
  }

  lemma ReadsNumber(count: nat, value: nat, rest: seq<bit>)
    requires count <= 32 && value < Power2(count)
    ensures Number(Bits(count, value) + rest, count) == Got(value, rest)
  {
    var bits := Bits(count, value) + rest;
    assert bits[..count] == Bits(count, value) && bits[count..] == rest;
    ValueInvertsBits(count, value);
  }

  lemma ReadsTaken(taken: seq<bit>, rest: seq<bit>)
    ensures Take(taken + rest, |taken|) == Got(taken, rest)
  {
    assert (taken + rest)[..|taken|] == taken && (taken + rest)[|taken|..] == rest;
  }

  /** Every value up to 2^32 - 2 comes back, whatever follows. */
  lemma ExpGolombInvertsUe(value: nat, rest: seq<bit>)
    requires value <= TWO_TO_THE_32 - 2
    ensures ExpGolomb(Ue(value) + rest) == Got(value, rest)
  {
    hide Power2, LeadingZeros, Value;
    var zeros := Log2(value + 1);
    if zeros >= 32 {
      Power2Monotone(32, zeros);
      Power2Of32();
      assert false;
    }
    Power2Doubles(zeros);
    var suffix := Bits(zeros, value + 1 - Power2(zeros));
    var bits := Ue(value) + rest;
    assert bits == Zeros(zeros) + ([1] + (suffix + rest));
    assert bits[zeros] == 1 && forall i | 0 <= i < zeros :: bits[i] == 0;
    ZerosAre(bits, zeros);
    assert bits[zeros + 1..] == suffix + rest;
    ReadsNumber(zeros, value + 1 - Power2(zeros), rest);
  }

  lemma Power2Doubles(n: nat)
    ensures Power2(n + 1) == 2 * Power2(n)
  {}

  // ----------------------------------------------------- bits into bytes

  function Pack(bits: seq<bit>): (r: seq<byte>)
    requires |bits| % 8 == 0
    ensures |r| == |bits| / 8
  {
    if bits == [] then []
    else
      ByteValue(bits[..8]);
      [Value(bits[..8])] + Pack(bits[8..])
  }

  lemma ByteValue(bits: seq<bit>)
    requires |bits| == 8
    ensures Value(bits) < 256
  {
    hide Value;
    ValueBound(bits);
    assert Power2(8) == 256;
  }

  lemma {:induction false} BitsInvertsValue(bits: seq<bit>)
    ensures Bits(|bits|, Value(bits)) == bits
  {
    if bits != [] {
      BitsInvertsValue(bits[..|bits| - 1]);
      assert Value(bits) / 2 == Value(bits[..|bits| - 1]);
    }
  }

  lemma {:induction false} BitsOfInvertsPack(bits: seq<bit>)
    requires |bits| % 8 == 0
    ensures BitsOf(Pack(bits)) == bits
  {
    hide Value, Bits;
    if bits != [] {
      BitsInvertsValue(bits[..8]);
      BitsOfInvertsPack(bits[8..]);
      assert Pack(bits)[1..] == Pack(bits[8..]);
      assert bits == bits[..8] + bits[8..];
    }
  }

  lemma {:induction false} ValueNotZero(bits: seq<bit>, i: nat)
    requires i < |bits| && bits[i] == 1
    ensures Value(bits) > 0
  {
    if i < |bits| - 1 { ValueNotZero(bits[..|bits| - 1], i); }
  }

  lemma {:induction false} LastPacked(bits: seq<bit>)
    requires |bits| % 8 == 0 && bits != []
    ensures Pack(bits)[|bits| / 8 - 1] == Value(bits[|bits| - 8..])
  {
    if |bits| > 8 {
      LastPacked(bits[8..]);
      assert bits[8..][|bits| - 16..] == bits[|bits| - 8..];
    } else {
      assert bits[..8] == bits[0..];
    }
  }

  /** rbsp_trailing_bits: a one bit, then zeros to the byte boundary. */
  function Aligned(bits: seq<bit>): (r: seq<bit>)
    ensures |r| % 8 == 0 && r != []
  {
    bits + [1] + Zeros(7 - |bits| % 8)
  }

  lemma AlignedEndsNonZero(bits: seq<bit>)
    ensures Pack(Aligned(bits)) != []
    ensures Pack(Aligned(bits))[|Pack(Aligned(bits))| - 1] != 0
  {
    hide Value, Pack;
    var all := Aligned(bits);
    LastPacked(all);
    var last := all[|all| - 8..];
    ValueNotZero(last, |bits| % 8);
  }

  // -------------------------------------------------- the parameter set

  /** A sub-layer: its 88 profile bits and 8 level bits, each if present. */
  datatype Layer = Layer(profile: Option<seq<bit>>, level: Option<seq<bit>>)

  /** Every field of seq_parameter_set_rbsp up to the bit depths, in order. */
  datatype Sps = Sps(
    vpsId: seq<bit>, layers: seq<Layer>, nesting: seq<bit>, spaceAndTier: seq<bit>, profileIdc: nat,
    compatibility: seq<bit>, constraints: seq<bit>, level: seq<bit>, reserved: seq<bit>,
    id: nat, chromaFormat: nat, separatePlanes: seq<bit>, width: nat, height: nat,
    window: Option<seq<nat>>, lumaMinus8: nat, chromaMinus8: nat)

  predicate IsUe(value: nat) { value <= TWO_TO_THE_32 - 2 }

  predicate WellFormedLayer(l: Layer) {
    && (l.profile.Some? ==> |l.profile.value| == 88)
    && (l.level.Some? ==> |l.level.value| == 8)
  }

  /** The standard's field widths and ranges, and nothing else. */
  ghost predicate WellFormed(s: Sps) {
    && |s.vpsId| == 4 && |s.layers| <= 7 && |s.nesting| == 1 && |s.spaceAndTier| == 3
    && s.profileIdc < 32 && |s.compatibility| == 32 && |s.constraints| == 48 && |s.level| == 8
    && |s.reserved| == (if s.layers == [] then 0 else (8 - |s.layers|) * 2)
    && (forall l | l in s.layers :: WellFormedLayer(l))
    && IsUe(s.id) && s.chromaFormat <= 3 && |s.separatePlanes| == (if s.chromaFormat == 3 then 1 else 0)
    && IsUe(s.width) && IsUe(s.height)
    && (s.window.Some? ==> |s.window.value| == 4 && forall v | v in s.window.value :: IsUe(v))
    && s.lumaMinus8 <= 8 && s.chromaMinus8 <= 8
  }

  function Flag(b: bool): seq<bit> { if b then [1] else [0] }

  function PresenceBits(layers: seq<Layer>, rest: seq<bit>): seq<bit> {
    if layers == [] then rest
    else Flag(layers[0].profile.Some?) + (Flag(layers[0].level.Some?) + PresenceBits(layers[1..], rest))
  }

  function OptionalBits(field: Option<seq<bit>>, rest: seq<bit>): seq<bit> {
    if field.Some? then field.value + rest else rest
  }

  function LayerBits(layers: seq<Layer>, rest: seq<bit>): seq<bit> {
    if layers == [] then rest
    else OptionalBits(layers[0].profile, OptionalBits(layers[0].level, LayerBits(layers[1..], rest)))
  }

  function GeneralBits(s: Sps, rest: seq<bit>): seq<bit>
    requires |s.layers| <= 7
  {
    s.vpsId + (Bits(3, |s.layers|) + (s.nesting + (s.spaceAndTier + (Bits(5, s.profileIdc)
      + (s.compatibility + (s.constraints + (s.level + rest)))))))
  }

  function UeList(values: seq<nat>, rest: seq<bit>): seq<bit> {
    if values == [] then rest else Ue(values[0]) + UeList(values[1..], rest)
  }

  function PictureBits(s: Sps, rest: seq<bit>): seq<bit> {
    UeList([s.width, s.height],
           Flag(s.window.Some?) + (if s.window.Some? then UeList(s.window.value, rest) else rest))
  }

  function ChromaBits(s: Sps, rest: seq<bit>): seq<bit> {
    Ue(s.id) + (Ue(s.chromaFormat) + (s.separatePlanes + rest))
  }

  function DepthBits(s: Sps, rest: seq<bit>): seq<bit> {
    Ue(s.lumaMinus8) + (Ue(s.chromaMinus8) + rest)
  }

  /** The set's bits, followed by the fields the gateway does not read. */
  function SpsBits(s: Sps, more: seq<bit>): seq<bit>
    requires |s.layers| <= 7
  {
    GeneralBits(s, PresenceBits(s.layers, s.reserved + LayerBits(s.layers,
      ChromaBits(s, PictureBits(s, DepthBits(s, more))))))
  }

  function InfoOf(s: Sps): SpsInfo
    requires |s.compatibility| == 32
  {
    SpsInfo(s.profileIdc, s.profileIdc == 2 || s.compatibility[2] == 1, s.chromaFormat,
            s.lumaMinus8 + 8, s.chromaMinus8 + 8)
  }

  // ------------------------------------------- each part is read back

  lemma ReadsGeneral(s: Sps, rest: seq<bit>)
    requires WellFormed(s)
    ensures ParseGeneral(GeneralBits(s, rest)) ==
            Got(General(|s.layers|, s.profileIdc, s.profileIdc == 2 || s.compatibility[2] == 1), rest)
  {
    hide Bits, Take, Number, IsUe, WellFormedLayer;
    SmallPowers();
    var r7 := s.level + rest;
    var r6 := s.constraints + r7;
    var r5 := s.compatibility + r6;
    var r4 := Bits(5, s.profileIdc) + r5;
    var r3 := s.spaceAndTier + r4;
    var r2 := s.nesting + r3;
    var r1 := Bits(3, |s.layers|) + r2;
    ReadsTaken(s.vpsId, r1);
    ReadsNumber(3, |s.layers|, r2);
    ReadsTaken(s.nesting, r3);
    ReadsTaken(s.spaceAndTier, r4);
    ReadsNumber(5, s.profileIdc, r5);
    ReadsTaken(s.compatibility, r6);
    ReadsTaken(s.constraints, r7);
    ReadsTaken(s.level, rest);
  }

  lemma SmallPowers()
    ensures Power2(3) == 8 && Power2(5) == 32
  {}

  function PresentOf(layers: seq<Layer>): (r: seq<Present>)
    ensures |r| == |layers|
  {
    if layers == [] then []
    else [Present(layers[0].profile.Some?, layers[0].level.Some?)] + PresentOf(layers[1..])
  }

  lemma {:induction false} ReadsPresence(layers: seq<Layer>, rest: seq<bit>)
    ensures ParsePresence(PresenceBits(layers, rest), |layers|) == Got(PresentOf(layers), rest)
  {
    hide Take;
    if layers != [] {
      var tail := PresenceBits(layers[1..], rest);
      ReadsTaken(Flag(layers[0].profile.Some?), Flag(layers[0].level.Some?) + tail);
      ReadsTaken(Flag(layers[0].level.Some?), tail);
      ReadsPresence(layers[1..], rest);
    }
  }

  lemma ReadsOptional(field: Option<seq<bit>>, width: nat, rest: seq<bit>)
    requires field.Some? ==> |field.value| == width
    ensures SkipIf(OptionalBits(field, rest), field.Some?, width).Got?
    ensures SkipIf(OptionalBits(field, rest), field.Some?, width).rest == rest
  {
    if field.Some? { ReadsTaken(field.value, rest); }
  }

  lemma {:induction false} ReadsLayers(layers: seq<Layer>, rest: seq<bit>)
    requires forall l | l in layers :: WellFormedLayer(l)
    ensures SkipLayers(LayerBits(layers, rest), PresentOf(layers)) == Got((), rest)
  {
    hide SkipIf, OptionalBits;
    if layers != [] {
      var tail := LayerBits(layers[1..], rest);
      assert WellFormedLayer(layers[0]);
      ReadsOptional(layers[0].profile, PROFILE_BITS, OptionalBits(layers[0].level, tail));
      ReadsOptional(layers[0].level, LEVEL_BITS, tail);
      ReadsLayers(layers[1..], rest);
      assert PresentOf(layers)[1..] == PresentOf(layers[1..]);
    }
  }

  lemma ReadsSubLayers(s: Sps, rest: seq<bit>)
    requires WellFormed(s)
    ensures ParseSubLayers(PresenceBits(s.layers, s.reserved + LayerBits(s.layers, rest)), |s.layers|)
            == Got((), rest)
  {
    hide Take, SkipLayers, ParsePresence, LayerBits, PresenceBits, PresentOf;
    ReadsPresence(s.layers, s.reserved + LayerBits(s.layers, rest));
    ReadsTaken(s.reserved, LayerBits(s.layers, rest));
    ReadsLayers(s.layers, rest);
  }

  lemma {:induction false} ReadsGolombs(values: seq<nat>, rest: seq<bit>)
    requires forall v | v in values :: IsUe(v)
    ensures SkipGolombs(UeList(values, rest), |values|) == Got((), rest)
  {
    hide ExpGolomb, Ue;
    if values != [] {
      assert IsUe(values[0]);
      ExpGolombInvertsUe(values[0], UeList(values[1..], rest));
      ReadsGolombs(values[1..], rest);
    }
  }

  lemma ReadsChroma(s: Sps, rest: seq<bit>)
    requires WellFormed(s)
    ensures ParseChroma(ChromaBits(s, rest)) == Got(s.chromaFormat, rest)
  {
    hide ExpGolomb, Ue, Take;
    ExpGolombInvertsUe(s.id, Ue(s.chromaFormat) + (s.separatePlanes + rest));
    ExpGolombInvertsUe(s.chromaFormat, s.separatePlanes + rest);
    ReadsTaken(s.separatePlanes, rest);
    if s.chromaFormat != 3 { assert s.separatePlanes + rest == rest; }
  }

  lemma ReadsPicture(s: Sps, rest: seq<bit>)
    requires WellFormed(s)
    ensures SkipPicture(PictureBits(s, rest)) == Got((), rest)
  {
    hide SkipGolombs, UeList, Take;
    var tail := if s.window.Some? then UeList(s.window.value, rest) else rest;
    ReadsGolombs([s.width, s.height], Flag(s.window.Some?) + tail);
    ReadsTaken(Flag(s.window.Some?), tail);
    if s.window.Some? {
      ReadsGolombs(s.window.value, rest);
    } else {
      NoGolombs(rest);
    }
  }

  lemma NoGolombs(rest: seq<bit>)
    ensures SkipGolombs(rest, 0) == Got((), rest)
  {}

  lemma ReadsDepths(s: Sps, rest: seq<bit>)
    requires WellFormed(s)
    ensures ParseDepths(DepthBits(s, rest)) == Got(Depths(s.lumaMinus8, s.chromaMinus8), rest)
  {
    hide ExpGolomb, Ue;
    ExpGolombInvertsUe(s.lumaMinus8, Ue(s.chromaMinus8) + rest);
    ExpGolombInvertsUe(s.chromaMinus8, rest);
  }

  /** Bits level: the parser gives back the record, whatever bits follow it. */
  lemma ParseInvertsBits(s: Sps, more: seq<bit>)
    requires WellFormed(s)
    ensures ParseSps(SpsBits(s, more)) == Some(InfoOf(s))
  {
    hide ParseGeneral, ParseSubLayers, ParseChroma, SkipPicture, ParseDepths;
    hide GeneralBits, PresenceBits, LayerBits, ChromaBits, PictureBits, DepthBits;
    var b3 := DepthBits(s, more);
    var b2 := PictureBits(s, b3);
    var b1 := ChromaBits(s, b2);
    var b0 := PresenceBits(s.layers, s.reserved + LayerBits(s.layers, b1));
    ReadsGeneral(s, b0);
    ReadsSubLayers(s, b1);
    ReadsChroma(s, b2);
    ReadsPicture(s, b3);
    ReadsDepths(s, more);
  }

  // ------------------------------------------------------ the whole stream

  /** A two-byte NAL unit header of type 33 (section 7.3.1.2): a forbidden zero bit, six bits of
      type, six of layer id whatever they are, and three of a temporal id that is not zero. */
  predicate IsSpsHeader(header: seq<byte>) {
    |header| == 2 && (header[0] == 66 || header[0] == 67) && header[1] % 8 != 0
  }

  /** The NAL unit of a parameter set: header, then the escaped bytes of its aligned bits. */
  function SpsNal(header: seq<byte>, s: Sps, more: seq<bit>): seq<byte>
    requires |s.layers| <= 7
  {
    header + Escape(Pack(Aligned(SpsBits(s, more))), 0)
  }

  lemma SpsNalIsClean(header: seq<byte>, s: Sps, more: seq<bit>)
    requires IsSpsHeader(header) && |s.layers| <= 7
    ensures CleanNal(SpsNal(header, s, more)) && EmulationFree(SpsNal(header, s, more))
  {
    hide SpsBits, Pack, Escape, CleanNal;
    AlignedEndsNonZero(SpsBits(s, more));
    EscapedNalIsClean(header, Pack(Aligned(SpsBits(s, more))));
  }

  lemma SpsNalParses(header: seq<byte>, s: Sps, more: seq<bit>)
    requires IsSpsHeader(header) && WellFormed(s)
    ensures SpsOf(SpsNal(header, s, more)) == Some(InfoOf(s))
  {
    hide SpsBits, Pack, Escape, Unescape, ParseSps, Aligned, Zeros, BitsOf;
    var bits := SpsBits(s, more);
    var payload := Pack(Aligned(bits));
    AlignedEndsNonZero(bits);
    EscapeKeepsLast(payload, 0);
    UnescapeInvertsEscape(payload, 0);
    BitsOfInvertsPack(Aligned(bits));
    assert SpsNal(header, s, more)[2..] == Escape(payload, 0);
    var trailing := [1] + Zeros(7 - |bits| % 8);
    AlignedIsLonger(s, more, trailing);
    ParseInvertsBits(s, more + trailing);
  }

  lemma AlignedIsLonger(s: Sps, more: seq<bit>, trailing: seq<bit>)
    requires |s.layers| <= 7 && trailing == [1] + Zeros(7 - |SpsBits(s, more)| % 8)
    ensures Aligned(SpsBits(s, more)) == SpsBits(s, more + trailing)
  {
    hide SpsBits, Zeros;
    BitsThenMore(s, more, trailing);
  }

  lemma {:induction false} PresenceThenMore(layers: seq<Layer>, rest: seq<bit>, more: seq<bit>)
    ensures PresenceBits(layers, rest) + more == PresenceBits(layers, rest + more)
  {
    if layers != [] { PresenceThenMore(layers[1..], rest, more); }
  }

  lemma {:induction false} LayersThenMore(layers: seq<Layer>, rest: seq<bit>, more: seq<bit>)
    ensures LayerBits(layers, rest) + more == LayerBits(layers, rest + more)
  {
    if layers != [] { LayersThenMore(layers[1..], rest, more); }
  }

  lemma {:induction false} GolombsThenMore(values: seq<nat>, rest: seq<bit>, more: seq<bit>)
    ensures UeList(values, rest) + more == UeList(values, rest + more)
  {
    hide Ue;
    if values != [] { GolombsThenMore(values[1..], rest, more); }
  }

  lemma PictureThenMore(s: Sps, rest: seq<bit>, more: seq<bit>)
    ensures PictureBits(s, rest) + more == PictureBits(s, rest + more)
  {
    hide UeList;
    var tail := if s.window.Some? then UeList(s.window.value, rest) else rest;
    GolombsThenMore([s.width, s.height], Flag(s.window.Some?) + tail, more);
    if s.window.Some? { GolombsThenMore(s.window.value, rest, more); }
    assert Flag(s.window.Some?) + tail + more == Flag(s.window.Some?) + (tail + more);
  }

  lemma GeneralThenMore(s: Sps, rest: seq<bit>, more: seq<bit>)
    requires |s.layers| <= 7
    ensures GeneralBits(s, rest) + more == GeneralBits(s, rest + more)
  {
    hide Bits;
  }

  lemma BitsThenMore(s: Sps, rest: seq<bit>, more: seq<bit>)
    requires |s.layers| <= 7
    ensures SpsBits(s, rest) + more == SpsBits(s, rest + more)
  {
    hide GeneralBits, PresenceBits, LayerBits, PictureBits, Ue;
    var d := DepthBits(s, rest);
    assert d + more == DepthBits(s, rest + more);
    var p := PictureBits(s, d);
    PictureThenMore(s, d, more);
    var c := ChromaBits(s, p);
    assert c + more == ChromaBits(s, p + more);
    var l := LayerBits(s.layers, c);
    LayersThenMore(s.layers, c, more);
    assert s.reserved + l + more == s.reserved + (l + more);
    PresenceThenMore(s.layers, s.reserved + l, more);
    GeneralThenMore(s, PresenceBits(s.layers, s.reserved + l), more);
  }

  /** Units that are no parameter set are passed over, and the first that parses is returned. */
  lemma {:induction false} ScanFindsFirst(before: seq<Unit>, unit: Unit, after: seq<Unit>)
    requires AllClean(before + [unit] + after)
    requires SpsOf(unit.nal).Some? && forall u | u in before :: SpsOf(u.nal) == None
    ensures FirstSps(Stream(before + [unit] + after)) == SpsOf(unit.nal)
  {
    hide SpsOf, NextStart, StartCodeLength, CleanNal, Stream;
    var units := before + [unit] + after;
    StreamStartsWithCode(units);
    FirstUnitEnds(units);
    if before != [] {
      assert units[1..] == before[1..] + [unit] + after;
      assert forall u | u in units[1..] :: u in units;
      ScanFindsFirst(before[1..], unit, after);
    }
  }

  /** The round trip on whole streams: any clean units before that hold no parameter set,
      3- or 4-byte start codes, any header of type 33, any well-formed set, any later fields. */
  lemma ParseInvertsEncode(before: seq<Unit>, long: bool, header: seq<byte>, s: Sps, more: seq<bit>,
                           after: seq<Unit>)
    requires WellFormed(s) && IsSpsHeader(header)
    requires AllClean(before) && AllClean(after) && forall u | u in before :: SpsOf(u.nal) == None
    ensures FirstSps(Stream(before + [Unit(long, SpsNal(header, s, more))] + after)) == Some(InfoOf(s))
  {
    hide SpsOf, Stream, CleanNal, SpsNal, FirstSps;
    SpsNalIsClean(header, s, more);
    SpsNalParses(header, s, more);
    ScanFindsFirst(before, Unit(long, SpsNal(header, s, more)), after);
  }
}
