/** Splitting an H.264 Annex B file into access units at its access unit delimiters
    (ITU-T H.264 Annex B and section 7.4.1.2.3). */
module H264Reader {
  import opened Basics
  import opened AnnexB

  const IDR_TYPE := 5
  const SPS_TYPE := 7
  const PPS_TYPE := 8
  const AUD_TYPE := 9

  datatype StartCode = StartCode(offset: nat, size: nat)

  datatype SplitError = NoStartCode | EmptyNal | NoDelimiter

  datatype Flags = Flags(sps: bool, pps: bool, idr: bool, longStartCodes: bool, shortStartCodes: bool)

  datatype Sample = Sample(accessUnits: seq<seq<byte>>, firstIdr: Option<nat>, has: Flags)

  /** The least position at or after `from` where a start code begins, with its length. */
  ghost predicate Found(data: seq<byte>, from: nat, r: Option<StartCode>) {
    match r
    case None => forall i | from <= i < |data| :: StartCodeLength(data, i) == 0
    case Some(code) =>
      && from <= code.offset < |data| && code.size == StartCodeLength(data, code.offset) > 0
      && forall i | from <= i < code.offset :: StartCodeLength(data, i) == 0
  }

  method FindStartCode(data: seq<byte>, from: nat) returns (r: Option<StartCode>)
    ensures Found(data, from, r)
  {
    var index := from;
    while index + 2 < |data|
      invariant from <= index
      invariant forall i | from <= i < index && i < |data| :: StartCodeLength(data, i) == 0
    {
      if data[index] != 0 || data[index + 1] != 0 {
        index := index + 1;
        continue;
      }
      if index + 3 < |data| && data[index + 2] == 0 && data[index + 3] == 1 {
        return Some(StartCode(index, 4));
      }
      if data[index + 2] == 1 {
        return Some(StartCode(index, 3));
      }
      index := index + 1;
    }
    return None;
  }

  /** A NAL unit in place: its start code's offset, its header byte's offset and its end. */
  datatype Nal = Nal(offset: nat, header: nat, end: nat)

  function Least(a: nat, b: nat): nat { if a <= b then a else b }

  function NalAt(data: seq<byte>, offset: nat): (n: Nal)
    requires offset < |data| && StartCodeLength(data, offset) != 0
    ensures n.offset == offset < n.end <= |data| && n.header <= |data|
    ensures n.header < n.end || n.header == n.end == |data|
    ensures n.end < |data| ==> StartCodeLength(data, n.end) != 0
  {
    var header := offset + StartCodeLength(data, offset);
    Nal(offset, header, NextStart(data, Least(header + 1, |data|)))
  }

  /** The NAL units from a start code on: each reaches to the next start code past its header. */
  function Nals(data: seq<byte>, offset: nat): (r: seq<Nal>)
    requires offset < |data| && StartCodeLength(data, offset) != 0
    decreases |data| - offset
  {
    var n := NalAt(data, offset);
    [n] + if n.end == |data| then [] else Nals(data, n.end)
  }

  /** Adjacent NAL units that reach from `start` to the end of the data. */
  ghost predicate Tiles(data: seq<byte>, nals: seq<Nal>, start: nat) {
    && nals != [] && nals[0].offset == start && nals[|nals| - 1].end == |data|
    && (forall i | 0 <= i < |nals| :: 0 <= nals[i].offset < |data| && StartCodeLength(data, nals[i].offset) != 0
                                      && nals[i] == NalAt(data, nals[i].offset))
    && (forall i | 0 <= i < |nals| - 1 :: nals[i].end == nals[i + 1].offset)
  }

  lemma {:induction false} NalsTile(data: seq<byte>, offset: nat)
    requires offset < |data| && StartCodeLength(data, offset) != 0
    ensures Tiles(data, Nals(data, offset), offset)
    decreases |data| - offset
  {
    hide StartCodeLength, NalAt, Tiles;
    var n := NalAt(data, offset);
    LastTiles(data, n);
    if n.end != |data| {
      NalsTile(data, n.end);
      OneMoreTiles(data, n, Nals(data, n.end));
    }
  }

  lemma LastTiles(data: seq<byte>, n: Nal)
    requires n.offset < |data| && StartCodeLength(data, n.offset) != 0 && n == NalAt(data, n.offset)
    ensures n.end == |data| ==> Tiles(data, [n], n.offset) && [n] + [] == [n]
  {
    hide StartCodeLength, NalAt;
  }

  lemma OneMoreTiles(data: seq<byte>, n: Nal, later: seq<Nal>)
    requires n.offset < |data| && StartCodeLength(data, n.offset) != 0 && n == NalAt(data, n.offset)
    requires Tiles(data, later, n.end)
    ensures Tiles(data, [n] + later, n.offset)
  {
    hide StartCodeLength, NalAt;
    var all := [n] + later;
    assert forall i | 1 <= i < |all| :: all[i] == later[i - 1];
  }

  function TypeOf(data: seq<byte>, n: Nal): nat {
    if n.header < |data| then data[n.header] % 32 else 0
  }

  predicate IsAud(data: seq<byte>, n: Nal) { n.header < |data| && TypeOf(data, n) == AUD_TYPE }

  predicate IsIdr(data: seq<byte>, n: Nal) { n.header < |data| && TypeOf(data, n) == IDR_TYPE }

  // ------------------------------------------------ the splitter's state

  datatype Split = Split(units: seq<seq<byte>>, current: seq<byte>, foundAud: bool, firstIdr: Option<nat>)

  function Step(data: seq<byte>, s: Split, n: Nal): Split
    requires n.offset <= n.end <= |data|
  {
    var firstIdr := if IsIdr(data, n) && s.firstIdr == None then Some(|s.units|) else s.firstIdr;
    var cut := IsAud(data, n) && s.foundAud && s.current != [];
    Split(if cut then s.units + [s.current] else s.units,
          (if cut then [] else s.current) + data[n.offset..n.end],
          s.foundAud || IsAud(data, n), firstIdr)
  }

  ghost predicate Inside(data: seq<byte>, nals: seq<Nal>) {
    forall i | 0 <= i < |nals| :: nals[i].offset < nals[i].end <= |data|
  }

  function Run(data: seq<byte>, nals: seq<Nal>): Split
    requires Inside(data, nals)
  {
    if nals == [] then Split([], [], false, None)
    else Step(data, Run(data, nals[..|nals| - 1]), nals[|nals| - 1])
  }

  // ------------------------------- what the result is, without the splitter

  function AudOffsets(data: seq<byte>, nals: seq<Nal>): seq<nat> {
    if nals == [] then []
    else
      var n := |nals| - 1;
      AudOffsets(data, nals[..n]) + if IsAud(data, nals[n]) then [nals[n].offset] else []
  }

  /** The access unit a NAL unit belongs to: whatever precedes the first delimiter joins unit 0. */
  function UnitOf(data: seq<byte>, nals: seq<Nal>, i: nat): nat
    requires i < |nals|
  {
    var auds := |AudOffsets(data, nals[..i + 1])|;
    if auds == 0 then 0 else auds - 1
  }

  /** Where unit k begins: at its delimiter, except that unit 0 begins with the file. */
  function CutAt(auds: seq<nat>, k: nat, end: nat): nat {
    if k == 0 then 0 else if k < |auds| then auds[k] else end
  }

  ghost predicate IsFirstIdr(data: seq<byte>, nals: seq<Nal>, i: nat) {
    i < |nals| && IsIdr(data, nals[i]) && forall j | 0 <= j < i :: !IsIdr(data, nals[j])
  }

  /** Unit k is the stretch from one delimiter to the next. */
  ghost predicate IsCut(data: seq<byte>, unit: seq<byte>, auds: seq<nat>, k: nat, end: nat) {
    && CutAt(auds, k, end) < CutAt(auds, k + 1, end) <= |data|
    && unit == data[CutAt(auds, k, end)..CutAt(auds, k + 1, end)]
  }

  /** The units are the stretches between the delimiters. */
  ghost predicate CutsMatch(data: seq<byte>, units: seq<seq<byte>>, auds: seq<nat>, end: nat) {
    forall k | 0 <= k < |units| :: IsCut(data, units[k], auds, k, end)
  }

  ghost predicate NamesFirstIdr(data: seq<byte>, nals: seq<Nal>, firstIdr: Option<nat>) {
    && (firstIdr == None <==> forall i | 0 <= i < |nals| :: !IsIdr(data, nals[i]))
    && (forall i: nat | IsFirstIdr(data, nals, i) :: firstIdr == Some(UnitOf(data, nals, i)))
  }

  ghost predicate Has(data: seq<byte>, nals: seq<Nal>, kind: nat) {
    exists i :: 0 <= i < |nals| && nals[i].header < |data| && TypeOf(data, nals[i]) == kind
  }

  ghost predicate HasCode(nals: seq<Nal>, size: nat) {
    exists i :: 0 <= i < |nals| && nals[i].header - nals[i].offset == size
  }

  ghost predicate Describes(data: seq<byte>, nals: seq<Nal>, has: Flags) {
    && (has.sps <==> Has(data, nals, SPS_TYPE)) && (has.pps <==> Has(data, nals, PPS_TYPE))
    && (has.idr <==> Has(data, nals, IDR_TYPE))
    && (has.longStartCodes <==> HasCode(nals, 4)) && (has.shortStartCodes <==> HasCode(nals, 3))
  }

  /** The promise: as many units as delimiters, cut at the delimiters; the unit of the first
      IDR; and which NAL types and start codes were seen. */
  ghost predicate IsSampleOf(data: seq<byte>, nals: seq<Nal>, s: Sample) {
    && |s.accessUnits| == |AudOffsets(data, nals)| > 0
    && CutsMatch(data, s.accessUnits, AudOffsets(data, nals), |data|)
    && NamesFirstIdr(data, nals, s.firstIdr)
    && Describes(data, nals, s.has)
  }

  // --------------------------------------------------- the splitter's proof

  function EndOf(nals: seq<Nal>): nat { if nals == [] then 0 else nals[|nals| - 1].end }

  ghost predicate Touching(nals: seq<Nal>) {
    && (nals != [] ==> nals[0].offset == 0)
    && forall i | 0 <= i < |nals| - 1 :: nals[i].end == nals[i + 1].offset
  }

  ghost predicate Rising(auds: seq<nat>, end: nat) {
    forall k | 0 <= k < |auds| :: auds[k] < end && (k > 0 ==> auds[k - 1] < auds[k])
  }

  /** What the splitter has done by `end`: finished units, and the open one since the last cut. */
  ghost predicate HasSplit(data: seq<byte>, s: Split, auds: seq<nat>, end: nat) {
    && end <= |data| && Rising(auds, end)
    && (s.foundAud <==> auds != []) && (end > 0 <==> s.current != [])
    && |s.units| == (if auds == [] then 0 else |auds| - 1)
    && CutsMatch(data, s.units, auds, end)
    && CutAt(auds, |s.units|, end) <= end && s.current == data[CutAt(auds, |s.units|, end)..end]
  }

  lemma CutsStay(data: seq<byte>, units: seq<seq<byte>>, auds: seq<nat>, end: nat, more: seq<nat>, later: nat)
    requires CutsMatch(data, units, auds, end) && (units == [] || |units| < |auds|) && auds <= more
    ensures CutsMatch(data, units, more, later)
  {
    forall k | 0 <= k < |units| ensures IsCut(data, units[k], more, k, later) {
      assert IsCut(data, units[k], auds, k, end);
      assert more[k] == auds[k] && more[k + 1] == auds[k + 1];
    }
  }

  lemma OneMoreCut(data: seq<byte>, units: seq<seq<byte>>, last: seq<byte>, auds: seq<nat>, end: nat)
    requires CutsMatch(data, units, auds, end)
    requires CutAt(auds, |units|, end) < CutAt(auds, |units| + 1, end) <= |data|
    requires last == data[CutAt(auds, |units|, end)..CutAt(auds, |units| + 1, end)]
    ensures CutsMatch(data, units + [last], auds, end)
  {
    var more := units + [last];
    forall k | 0 <= k < |more| ensures IsCut(data, more[k], auds, k, end) {
      if k < |units| { assert more[k] == units[k]; }
    }
  }

  lemma StepSplits(data: seq<byte>, s: Split, auds: seq<nat>, n: Nal)
    requires HasSplit(data, s, auds, n.offset) && n.offset < n.end <= |data|
    ensures HasSplit(data, Step(data, s, n), auds + if IsAud(data, n) then [n.offset] else [], n.end)
  {
    hide IsIdr, TypeOf, IsAud, CutsMatch;
    var t := Step(data, s, n);
    var from := CutAt(auds, |s.units|, n.offset);
    assert data[from..n.offset] + data[n.offset..n.end] == data[from..n.end];
    if IsAud(data, n) {
      var more := auds + [n.offset];
      CutsStay(data, s.units, auds, n.offset, more, n.end);
      if auds != [] {
        OneMoreCut(data, s.units, s.current, more, n.end);
        assert [] + data[n.offset..n.end] == t.current;
      }
    } else {
      assert auds + [] == auds;
      CutsStay(data, s.units, auds, n.offset, auds, n.end);
    }
  }

  lemma PrefixTouches(data: seq<byte>, nals: seq<Nal>)
    requires Inside(data, nals) && Touching(nals) && nals != []
    ensures var n := |nals| - 1;
            Inside(data, nals[..n]) && Touching(nals[..n]) && EndOf(nals[..n]) == nals[n].offset
  {}

  lemma {:induction false} RunSplits(data: seq<byte>, nals: seq<Nal>)
    requires Inside(data, nals) && Touching(nals)
    ensures HasSplit(data, Run(data, nals), AudOffsets(data, nals), EndOf(nals))
  {
    hide Inside, Touching, Step, IsAud;
    if nals == [] {
      NothingSplit(data);
    } else {
      hide HasSplit;
      var n := |nals| - 1;
      PrefixTouches(data, nals);
      RunSplits(data, nals[..n]);
      LastIsInside(data, nals);
      StepSplits(data, Run(data, nals[..n]), AudOffsets(data, nals[..n]), nals[n]);
    }
  }

  lemma LastIsInside(data: seq<byte>, nals: seq<Nal>)
    requires Inside(data, nals) && nals != []
    ensures nals[|nals| - 1].offset < nals[|nals| - 1].end <= |data|
  {}

  lemma NothingSplit(data: seq<byte>)
    ensures HasSplit(data, Split([], [], false, None), [], 0)
  {}

  lemma RunStep(data: seq<byte>, nals: seq<Nal>)
    requires Inside(data, nals) && nals != []
    ensures var n := |nals| - 1;
            Run(data, nals).firstIdr == if IsIdr(data, nals[n]) && Run(data, nals[..n]).firstIdr == None
                                        then Some(|Run(data, nals[..n]).units|)
                                        else Run(data, nals[..n]).firstIdr
  {
    hide IsIdr, IsAud;
  }

  lemma {:induction false} RunNamesFirstIdr(data: seq<byte>, nals: seq<Nal>)
    requires Inside(data, nals) && Touching(nals)
    ensures NamesFirstIdr(data, nals, Run(data, nals).firstIdr)
  {
    hide IsAud, IsIdr, AudOffsets, Touching, Inside, Run;
    if nals == [] {
      NothingRead(data);
    } else {
      var n := |nals| - 1;
      PrefixTouches(data, nals);
      RunNamesFirstIdr(data, nals[..n]);
      RunSplits(data, nals[..n]);
      RunStep(data, nals);
      var s := Run(data, nals[..n]);
      NamesOneMore(data, nals, s.firstIdr, |s.units|);
    }
  }

  lemma NamesOneMore(data: seq<byte>, nals: seq<Nal>, firstIdr: Option<nat>, units: nat)
    requires nals != [] && NamesFirstIdr(data, nals[..|nals| - 1], firstIdr)
    requires var auds := |AudOffsets(data, nals[..|nals| - 1])|; units == if auds == 0 then 0 else auds - 1
    ensures NamesFirstIdr(data, nals,
              if IsIdr(data, nals[|nals| - 1]) && firstIdr == None then Some(units) else firstIdr)
  {
    hide IsAud, IsIdr, AudOffsets;
    var n := |nals| - 1;
    var front := nals[..n];
    assert forall j | 0 <= j < n :: front[j] == nals[j];
    if IsIdr(data, nals[n]) && firstIdr == None {
      assert nals[..n + 1] == nals;
      IdrIsNoDelimiter(data, nals);
    }
    forall i: nat | IsFirstIdr(data, nals, i) && i < n
      ensures firstIdr == Some(UnitOf(data, nals, i))
    {
      assert front[..i + 1] == nals[..i + 1];
      assert IsFirstIdr(data, front, i);
    }
  }

  lemma IdrIsNoDelimiter(data: seq<byte>, nals: seq<Nal>)
    requires nals != [] && IsIdr(data, nals[|nals| - 1])
    ensures AudOffsets(data, nals) == AudOffsets(data, nals[..|nals| - 1])
  {}

  lemma LastUnitClosed(data: seq<byte>, s: Split, auds: seq<nat>)
    requires HasSplit(data, s, auds, |data|) && auds != [] && data != []
    ensures |s.units + [s.current]| == |auds| && CutsMatch(data, s.units + [s.current], auds, |data|)
  {}

  // -------------------------------------------------------- the constructor

  function See(data: seq<byte>, has: Flags, n: Nal): Flags {
    var t := TypeOf(data, n);
    Flags(has.sps || t == SPS_TYPE, has.pps || t == PPS_TYPE, has.idr || t == IDR_TYPE,
          has.longStartCodes || n.header - n.offset == 4, has.shortStartCodes || n.header - n.offset == 3)
  }

  lemma SeenOneMore(data: seq<byte>, nals: seq<Nal>, n: Nal, has: Flags)
    requires Describes(data, nals, has) && n.header < |data|
    ensures Describes(data, nals + [n], See(data, has, n))
  {
    hide Has, HasCode;
    forall t: nat ensures Has(data, nals + [n], t) <==> Has(data, nals, t) || TypeOf(data, n) == t {
      HasOneMore(data, nals, n, t);
    }
    HasCodeOneMore(nals, n, 3);
    HasCodeOneMore(nals, n, 4);
  }

  lemma HasOneMore(data: seq<byte>, nals: seq<Nal>, n: Nal, t: nat)
    ensures Has(data, nals + [n], t) <==> Has(data, nals, t) || (n.header < |data| && TypeOf(data, n) == t)
  {
    var more := nals + [n];
    assert more[|nals|] == n && forall i | 0 <= i < |nals| :: more[i] == nals[i];
  }

  lemma HasCodeOneMore(nals: seq<Nal>, n: Nal, size: nat)
    ensures HasCode(nals + [n], size) <==> HasCode(nals, size) || n.header - n.offset == size
  {
    var more := nals + [n];
    assert more[|nals|] == n && forall i | 0 <= i < |nals| :: more[i] == nals[i];
  }

  lemma NalIs(data: seq<byte>, code: StartCode, next: Option<StartCode>)
    requires code.offset < |data| && code.size == StartCodeLength(data, code.offset) > 0
    requires Found(data, code.offset + code.size + 1, next)
    ensures NalAt(data, code.offset)
         == Nal(code.offset, code.offset + code.size, if next.Some? then next.value.offset else |data|)
  {
    hide StartCodeLength, NextStart;
    var end := if next.Some? then next.value.offset else |data|;
    NextStartIs(data, Least(code.offset + code.size + 1, |data|), end);
  }

  lemma NothingRead(data: seq<byte>)
    ensures Inside(data, []) && Run(data, []) == Split([], [], false, None)
    ensures Describes(data, [], Flags(false, false, false, false, false))
  {}

  lemma RunOneMore(data: seq<byte>, read: seq<Nal>, n: Nal)
    requires Inside(data, read) && n.offset < n.end <= |data|
    ensures Inside(data, read + [n]) && Run(data, read + [n]) == Step(data, Run(data, read), n)
  {
    assert (read + [n])[..|read|] == read;
  }

  lemma EmptyIsLast(data: seq<byte>, nals: seq<Nal>, i: nat)
    requires Tiles(data, nals, 0) && i < |nals|
    ensures nals[i].header >= nals[i].end ==> i == |nals| - 1 && nals[i].header == |data|
    ensures i < |nals| - 1 ==> nals[i].end == nals[i + 1].offset < |data|
    ensures i == |nals| - 1 ==> nals[i].end == |data|
    ensures nals[i] == NalAt(data, nals[i].offset) && 0 < StartCodeLength(data, nals[i].offset)
  {
    hide NextStart, StartCodeLength, NalAt;
    assert i < |nals| - 1 ==> nals[i].end == nals[i + 1].offset;
  }

  lemma TilesTouch(data: seq<byte>, nals: seq<Nal>)
    requires Tiles(data, nals, 0)
    ensures Inside(data, nals) && Touching(nals) && EndOf(nals) == |data|
  {
    hide NextStart, StartCodeLength;
  }

  lemma {:induction false} DelimitersAreFound(data: seq<byte>, nals: seq<Nal>)
    ensures AudOffsets(data, nals) != [] <==> Has(data, nals, AUD_TYPE)
  {
    hide TypeOf;
    if nals != [] {
      var n := |nals| - 1;
      DelimitersAreFound(data, nals[..n]);
      assert nals == nals[..n] + [nals[n]];
      HasOneMore(data, nals[..n], nals[n], AUD_TYPE);
    }
  }

  /** The finished split is the promised sample, or there was no delimiter. */
  lemma SplitIsSample(data: seq<byte>, nals: seq<Nal>, has: Flags)
    requires data != [] && Tiles(data, nals, 0) && Inside(data, nals) && Describes(data, nals, has)
    ensures var s := Run(data, nals);
            && s.current != [] && (s.foundAud <==> Has(data, nals, AUD_TYPE))
            && (s.foundAud ==> IsSampleOf(data, nals, Sample(s.units + [s.current], s.firstIdr, has)))
  {
    hide Tiles, Run, AudOffsets, Inside, Touching, NamesFirstIdr, Describes, Has;
    TilesTouch(data, nals);
    RunSplits(data, nals);
    RunNamesFirstIdr(data, nals);
    DelimitersAreFound(data, nals);
    if Run(data, nals).foundAud { LastUnitClosed(data, Run(data, nals), AudOffsets(data, nals)); }
  }

  method ReadAnnexB(data: seq<byte>) returns (r: Result<Sample, SplitError>)
    ensures data == [] || StartCodeLength(data, 0) == 0 ==> r == Err(NoStartCode)
    ensures data != [] && StartCodeLength(data, 0) != 0 ==>
              var nals := Nals(data, 0);
              if nals[|nals| - 1].header == |data| then r == Err(EmptyNal)
              else if !Has(data, nals, AUD_TYPE) then r == Err(NoDelimiter)
              else r.Ok? && IsSampleOf(data, nals, r.value)
  {
    hide StartCodeLength, IsSampleOf, Run, Nals, Has, Describes, NalAt, Tiles, Inside;
    var startCode := FindStartCode(data, 0);
    if startCode == None || startCode.value.offset != 0 {
      return Err(NoStartCode);
    }
    var s := Split([], [], false, None);
    var has := Flags(false, false, false, false, false);
    ghost var nals: seq<Nal> := Nals(data, 0);
    ghost var read: seq<Nal> := [];
    NalsTile(data, 0);
    NothingRead(data);
    FirstNal(data);
    EmptyIsLast(data, nals, 0);
    while startCode != None
      invariant |read| <= |nals| && read == nals[..|read|] && Inside(data, read)
      invariant Run(data, read) == s && Describes(data, read, has)
      invariant startCode == None ==> read == nals && nals[|nals| - 1].header < |data|
      invariant startCode.Some? ==>
                  && |read| < |nals| && startCode.value.offset == nals[|read|].offset < |data|
                  && startCode.value.size == StartCodeLength(data, startCode.value.offset)
      decreases |nals| - |read|
    {
      var nalHeaderOffset := startCode.value.offset + startCode.value.size;
      EmptyIsLast(data, nals, |read|);
      var nextStartCode := FindStartCode(data, nalHeaderOffset + 1);
      var nalEnd := if nextStartCode.Some? then nextStartCode.value.offset else |data|;
      NalIs(data, startCode.value, nextStartCode);
      var nal := Nal(startCode.value.offset, nalHeaderOffset, nalEnd);
      if nalHeaderOffset >= nalEnd {
        return Err(EmptyNal);
      }
      RunOneMore(data, read, nal);
      SeenOneMore(data, read, nal, has);
      s, has := SplitStep(data, s, has, nal);
      read := read + [nal];
      if |read| < |nals| { EmptyIsLast(data, nals, |read|); }
      startCode := nextStartCode;
    }
    SplitIsSample(data, nals, has);
    if !s.foundAud {
      return Err(NoDelimiter);
    }
    return Ok(Sample(if s.current != [] then s.units + [s.current] else s.units, s.firstIdr, has));
  }

  lemma FirstNal(data: seq<byte>)
    requires data != [] && StartCodeLength(data, 0) != 0
    ensures Nals(data, 0) != [] && Nals(data, 0)[0].offset == 0
  {}

  /** The loop body, in the code's order. */
  method SplitStep(data: seq<byte>, s: Split, has: Flags, n: Nal) returns (s': Split, has': Flags)
    requires n.offset < n.header < n.end <= |data|
    ensures s' == Step(data, s, n) && has' == See(data, has, n)
  {
    var accessUnits, current, foundAud, firstIdr := s.units, s.current, s.foundAud, s.firstIdr;
    var nalType := data[n.header] % 32;
    has' := Flags(has.sps || nalType == 7, has.pps || nalType == 8, has.idr || nalType == 5,
                  has.longStartCodes || n.header - n.offset == 4, has.shortStartCodes || n.header - n.offset == 3);
    if nalType == 5 && firstIdr == None {
      firstIdr := Some(|accessUnits|);
    }
    if nalType == 9 {
      if foundAud && current != [] {
        accessUnits, current := accessUnits + [current], [];
      }
      foundAud := true;
    }
    current := current + data[n.offset..n.end];
    s' := Split(accessUnits, current, foundAud, firstIdr);
  }

  // ------------------------------------------- what a reader may rely on

  function Concat(units: seq<seq<byte>>): seq<byte> {
    if units == [] then [] else Concat(units[..|units| - 1]) + units[|units| - 1]
  }

  lemma {:induction false} ConcatOfCuts(data: seq<byte>, units: seq<seq<byte>>, auds: seq<nat>, k: nat)
    requires CutsMatch(data, units, auds, |data|) && k <= |units| == |auds|
    ensures CutAt(auds, k, |data|) <= |data| && Concat(units[..k]) == data[..CutAt(auds, k, |data|)]
  {
    if k > 0 {
      ConcatOfCuts(data, units, auds, k - 1);
      assert units[..k][..k - 1] == units[..k - 1];
      var last := units[k - 1];
      assert CutAt(auds, k - 1, |data|) < CutAt(auds, k, |data|) <= |data|;
      assert last == data[CutAt(auds, k - 1, |data|)..CutAt(auds, k, |data|)];
    }
  }

  /** Nothing is lost, added or moved: the units concatenate to the file. */
  lemma UnitsConcatenateToFile(data: seq<byte>, nals: seq<Nal>, s: Sample)
    requires IsSampleOf(data, nals, s)
    ensures Concat(s.accessUnits) == data
  {
    hide AudOffsets, NamesFirstIdr, Describes, Concat;
    var units := s.accessUnits;
    ConcatOfCuts(data, units, AudOffsets(data, nals), |units|);
    assert units[..|units|] == units;
  }

  ghost predicate StartsWithAud(unit: seq<byte>) {
    var code := StartCodeLength(unit, 0);
    code != 0 && code < |unit| && unit[code] % 32 == AUD_TYPE
  }

  lemma {:induction false} AudAt(data: seq<byte>, nals: seq<Nal>, k: nat) returns (i: nat)
    requires k < |AudOffsets(data, nals)|
    ensures i < |nals| && IsAud(data, nals[i]) && AudOffsets(data, nals)[k] == nals[i].offset
    ensures |AudOffsets(data, nals[..i])| == k && |AudOffsets(data, nals[..i + 1])| == k + 1
  {
    hide IsAud;
    var n := |nals| - 1;
    if k < |AudOffsets(data, nals[..n])| {
      i := AudAt(data, nals[..n], k);
      assert nals[..n][..i] == nals[..i] && nals[..n][..i + 1] == nals[..i + 1];
    } else {
      i := n;
      assert nals[..n + 1] == nals;
    }
  }

  lemma CodeOfPrefix(data: seq<byte>, from: nat, to: nat)
    requires from <= to <= |data| && StartCodeLength(data, from) != 0
    requires from + StartCodeLength(data, from) < to
    ensures StartCodeLength(data[from..to], 0) == StartCodeLength(data, from)
  {}

  lemma {:induction false} AudOffsetsRise(data: seq<byte>, nals: seq<Nal>, m: nat)
    requires m <= |nals|
    ensures AudOffsets(data, nals[..m]) <= AudOffsets(data, nals)
  {
    hide IsAud;
    if m == |nals| {
      assert nals[..m] == nals;
    } else {
      assert nals[..|nals| - 1][..m] == nals[..m];
      AudOffsetsRise(data, nals[..|nals| - 1], m);
    }
  }

  /** NAL unit i lies inside the access unit UnitOf names. */
  lemma NalLiesInItsUnit(data: seq<byte>, nals: seq<Nal>, i: nat)
    requires Inside(data, nals) && Touching(nals) && EndOf(nals) == |data| && i < |nals|
    requires AudOffsets(data, nals) != []
    ensures var auds, k := AudOffsets(data, nals), UnitOf(data, nals, i);
            && k < |auds|
            && CutAt(auds, k, |data|) <= nals[i].offset < nals[i].end <= CutAt(auds, k + 1, |data|)
  {
    hide IsAud, AudOffsets, Inside;
    var auds := AudOffsets(data, nals);
    UpTo(data, nals, i + 1);
    RunSplits(data, nals[..i + 1]);
    LastIsInside(data, nals[..i + 1]);
    AudOffsetsRise(data, nals, i + 1);
    LastCut(data, nals, i);
    var mine := AudOffsets(data, nals[..i + 1]);
    if |mine| < |auds| {
      NextCut(data, nals, i);
    }
    RunSplits(data, nals);
  }

  lemma UpTo(data: seq<byte>, nals: seq<Nal>, m: nat)
    requires Inside(data, nals) && Touching(nals) && 0 < m <= |nals|
    ensures Inside(data, nals[..m]) && Touching(nals[..m]) && EndOf(nals[..m]) == nals[m - 1].end
  {}

  /** The last delimiter up to NAL unit i does not come after it. */
  lemma LastCut(data: seq<byte>, nals: seq<Nal>, i: nat)
    requires Inside(data, nals) && Touching(nals) && i < |nals|
    ensures var mine := AudOffsets(data, nals[..i + 1]);
            mine != [] ==> mine[|mine| - 1] <= nals[i].offset
  {
    hide IsAud, HasSplit;
    UpTo(data, nals, i + 1);
    var front := nals[..i + 1];
    assert front[..i] == nals[..i];
    if i > 0 {
      UpTo(data, nals, i);
      RunSplits(data, nals[..i]);
      SplitRises(data, Run(data, nals[..i]), AudOffsets(data, nals[..i]), nals[i - 1].end);
    }
  }

  lemma SplitRises(data: seq<byte>, s: Split, auds: seq<nat>, end: nat)
    requires HasSplit(data, s, auds, end)
    ensures Rising(auds, end)
  {}

  /** The next delimiter does not come before its end. */
  lemma NextCut(data: seq<byte>, nals: seq<Nal>, i: nat)
    requires Inside(data, nals) && Touching(nals) && i < |nals|
    requires |AudOffsets(data, nals[..i + 1])| < |AudOffsets(data, nals)|
    ensures nals[i].end <= AudOffsets(data, nals)[|AudOffsets(data, nals[..i + 1])|]
  {
    hide AudOffsets, IsAud;
    var k := |AudOffsets(data, nals[..i + 1])|;
    var j := AudAt(data, nals, k);
    if j <= i {
      assert nals[..i + 1][..j + 1] == nals[..j + 1];
      AudOffsetsRise(data, nals[..i + 1], j + 1);
      assert false;
    }
    OffsetsRise(data, nals, i, j);
  }

  lemma {:induction false} OffsetsRise(data: seq<byte>, nals: seq<Nal>, i: nat, j: nat)
    requires Inside(data, nals) && Touching(nals) && i < j < |nals|
    ensures nals[i].end <= nals[j].offset
  {
    if i < j - 1 {
      OffsetsRise(data, nals, i, j - 1);
      assert nals[j - 1].end == nals[(j - 1) + 1].offset;
    } else {
      assert nals[i].end == nals[i + 1].offset;
    }
  }

  /** Every access unit but the first begins with a delimiter; the first does if the file does. */
  lemma UnitsStartWithDelimiters(data: seq<byte>, nals: seq<Nal>, s: Sample, k: nat)
    requires Tiles(data, nals, 0) && IsSampleOf(data, nals, s) && k < |s.accessUnits|
    requires k > 0 || IsAud(data, nals[0])
    ensures StartsWithAud(s.accessUnits[k])
  {
    hide NamesFirstIdr, Describes, AudOffsets, StartCodeLength, NextStart, Touching, Inside;
    var auds, unit := AudOffsets(data, nals), s.accessUnits[k];
    assert IsCut(data, unit, auds, k, |data|);
    TilesTouch(data, nals);
    var i := 0;
    if k > 0 { i := AudAt(data, nals, k); }
    EmptyIsLast(data, nals, i);
    NalLiesInItsUnit(data, nals, i);
    if k == 0 { FirstAud(data, nals); }
    var from, to := CutAt(auds, k, |data|), CutAt(auds, k + 1, |data|);
    assert nals[i].offset == from && from <= to <= |data|;
    assert unit == data[from..to];
    CodeOfPrefix(data, from, to);
  }

  lemma FirstAud(data: seq<byte>, nals: seq<Nal>)
    requires nals != [] && IsAud(data, nals[0])
    ensures UnitOf(data, nals, 0) == 0
  {
    var first := nals[..0 + 1];
    assert first[..0] == [] && |AudOffsets(data, first)| == 1;
  }

  /** The first-IDR index is in range; its unit holds the earliest IDR NAL unit whole, and no
      earlier unit holds any. */
  lemma FirstIdrUnit(data: seq<byte>, nals: seq<Nal>, s: Sample, i: nat)
    requires Tiles(data, nals, 0) && IsSampleOf(data, nals, s) && IsFirstIdr(data, nals, i)
    ensures s.firstIdr.Some? && s.firstIdr.value < |s.accessUnits|
    ensures var auds, k := AudOffsets(data, nals), s.firstIdr.value;
            CutAt(auds, k, |data|) <= nals[i].offset < nals[i].end <= CutAt(auds, k + 1, |data|)
    ensures forall j | 0 <= j < |nals| && UnitOf(data, nals, j) < s.firstIdr.value :: !IsIdr(data, nals[j])
  {
    hide Describes, AudOffsets, StartCodeLength, IsIdr, Tiles, CutsMatch, Inside, Touching, UnitOf, CutAt;
    assert s.firstIdr == Some(UnitOf(data, nals, i));
    hide NamesFirstIdr;
    TilesTouch(data, nals);
    NalLiesInItsUnit(data, nals, i);
    forall j | 0 <= j < |nals| && UnitOf(data, nals, j) < s.firstIdr.value ensures !IsIdr(data, nals[j]) {
      if j >= i { UnitsRise(data, nals, i, j); }
    }
  }

  lemma UnitsRise(data: seq<byte>, nals: seq<Nal>, i: nat, j: nat)
    requires i <= j < |nals|
    ensures UnitOf(data, nals, i) <= UnitOf(data, nals, j)
  {
    hide AudOffsets;
    assert nals[..j + 1][..i + 1] == nals[..i + 1];
    AudOffsetsRise(data, nals[..j + 1], i + 1);
  }
}
