/** H.264 files written from their parts, and the proof that the splitter gives the parts back:
    access units of clean NAL units, each begun by its delimiter (ITU-T H.264 Annex B and
    table 7-1: type 5 is an IDR slice, 7 and 8 the parameter sets, 9 the delimiter). */
module H264Files {
  import opened Basics
  import opened AnnexB
  import opened H264Reader

  function Kind(u: Unit): nat { if u.nal == [] then 0 else u.nal[0] % 32 }

  /** An access unit: a delimiter, then NAL units that are none. */
  ghost predicate IsAccessUnit(g: seq<Unit>) {
    && g != [] && AllClean(g) && Kind(g[0]) == 9 && forall j | 1 <= j < |g| :: Kind(g[j]) != 9
  }

  ghost predicate AreAccessUnits(groups: seq<seq<Unit>>) { forall k | 0 <= k < |groups| :: IsAccessUnit(groups[k]) }

  function Flat(groups: seq<seq<Unit>>): seq<Unit> {
    if groups == [] then [] else Flat(groups[..|groups| - 1]) + groups[|groups| - 1]
  }

  function File(groups: seq<seq<Unit>>): seq<byte> { Stream(Flat(groups)) }

  ghost predicate HasKind(g: seq<Unit>, kind: nat) { exists j :: 0 <= j < |g| && Kind(g[j]) == kind }

  // ------------------------------------------------------- where units lie

  function Offset(units: seq<Unit>, i: nat): nat
    requires i <= |units|
  {
    |Stream(units[..i])|
  }

  function Place(units: seq<Unit>, i: nat): Nal
    requires i < |units|
  {
    var header := Offset(units, i) + |AnnexB.StartCode(units[i].long)|;
    Nal(Offset(units, i), header, header + |units[i].nal|)
  }

  lemma {:induction false} StreamInParts(a: seq<Unit>, b: seq<Unit>)
    ensures Stream(a + b) == Stream(a) + Stream(b)
  {
    if a == [] {
      assert a + b == b;
    } else {
      assert (a + b)[1..] == a[1..] + b;
      StreamInParts(a[1..], b);
      assert Stream(a) + Stream(b) == AnnexB.StartCode(a[0].long) + a[0].nal + (Stream(a[1..]) + Stream(b));
    }
  }

  /** The stream around unit i: what precedes it, its code, itself, what follows. */
  lemma Around(units: seq<Unit>, i: nat)
    requires i < |units|
    ensures var u := units[i];
            && Stream(units) == Stream(units[..i]) + (AnnexB.StartCode(u.long) + u.nal + Stream(units[i + 1..]))
            && Offset(units, i + 1) == Place(units, i).end <= |Stream(units)|
            && Offset(units, 0) == 0 && Offset(units, |units|) == |Stream(units)|
  {
    hide Stream;
    assert units == units[..i] + units[i..];
    StreamInParts(units[..i], units[i..]);
    SuffixIs(units, i);
    assert units[..i + 1] == units[..i] + [units[i]];
    StreamInParts(units[..i], [units[i]]);
    StreamEnds(units[i]);
    assert units[..|units|] == units && units[..0] == [];
  }

  lemma StreamEnds(u: Unit)
    ensures Stream([u]) == AnnexB.StartCode(u.long) + u.nal && Stream([]) == []
  {
    assert [u][1..] == [];
  }

  lemma HeaderByte(units: seq<Unit>, i: nat)
    requires i < |units| && CleanNal(units[i].nal)
    ensures Place(units, i).header < |Stream(units)|
    ensures Stream(units)[Place(units, i).header] == units[i].nal[0]
    ensures TypeOf(Stream(units), Place(units, i)) == Kind(units[i])
  {
    hide Stream;
    Around(units, i);
    var u := units[i];
    AfterTwo(Stream(units[..i]), AnnexB.StartCode(u.long), u.nal, Stream(units[i + 1..]));
  }

  lemma AfterTwo(a: seq<byte>, b: seq<byte>, c: seq<byte>, d: seq<byte>)
    requires c != []
    ensures (a + (b + c + d))[|a| + |b|] == c[0] && |a| + |b| < |a + (b + c + d)|
  {}

  /** The reader's scan stops where unit i ends. */
  lemma NalIsPlaced(units: seq<Unit>, i: nat)
    requires AllClean(units) && i < |units|
    ensures var data, at := Stream(units), Offset(units, i);
            at < |data| && StartCodeLength(data, at) != 0 && NalAt(data, at) == Place(units, i)
  {
    hide StartCodeLength, NextStart, CleanNal, Stream;
    var u, prefix, rest := units[i], Stream(units[..i]), units[i + 1..];
    Around(units, i);
    StreamStartsWithCode(units[i..]);
    SuffixIs(units, i);
    ShiftStartCode(prefix, AnnexB.StartCode(u.long) + u.nal + Stream(rest), 0);
    NotEmpty(u.nal);
    NextStartAfter(prefix, AnnexB.StartCode(u.long), u.nal, rest);
  }

  lemma NextStartAfter(prefix: seq<byte>, code: seq<byte>, nal: seq<byte>, rest: seq<Unit>)
    requires CleanNal(nal) && nal != []
    ensures NextStart(prefix + (code + nal + Stream(rest)), |prefix| + |code| + 1) == |prefix| + |code| + |nal|
  {
    hide *;
    CodeFreeUntilNext(code, nal, rest);
    ScanShifts(prefix, code + nal + Stream(rest), |code|, |code| + 1, |code| + |nal|);
  }

  lemma ScanShifts(prefix: seq<byte>, suffix: seq<byte>, from: nat, later: nat, end: nat)
    requires from <= later <= end <= |suffix| && NextStart(suffix, from) == end
    ensures NextStart(prefix + suffix, |prefix| + later) == |prefix| + end
  {
    hide *;
    var all := prefix + suffix;
    forall j | |prefix| + later <= j < |prefix| + end ensures StartCodeLength(all, j) == 0 {
      ShiftStartCode(prefix, suffix, j - |prefix|);
    }
    ShiftStartCode(prefix, suffix, end);
    NextStartIs(all, |prefix| + later, |prefix| + end);
  }

  lemma NotEmpty(nal: seq<byte>)
    requires CleanNal(nal)
    ensures nal != []
  {}

  lemma SuffixIs(units: seq<Unit>, i: nat)
    requires i < |units|
    ensures Stream(units[i..]) == AnnexB.StartCode(units[i].long) + units[i].nal + Stream(units[i + 1..])
  {
    assert units[i..][1..] == units[i + 1..];
  }

  ghost function Places(units: seq<Unit>, i: nat): (r: seq<Nal>)
    requires i <= |units|
    ensures |r| == |units| - i && forall k | 0 <= k < |r| :: r[k] == Place(units, i + k)
    decreases |units| - i
  {
    if i == |units| then [] else [Place(units, i)] + Places(units, i + 1)
  }

  lemma {:induction false} NalsArePlaced(units: seq<Unit>, i: nat)
    requires AllClean(units) && i < |units|
    ensures var data, at := Stream(units), Offset(units, i);
            at < |data| && StartCodeLength(data, at) != 0 && Nals(data, at) == Places(units, i)
    decreases |units| - i
  {
    hide StartCodeLength, NalAt, Stream, CleanNal;
    NalIsPlaced(units, i);
    Around(units, i);
    if i + 1 < |units| {
      NalsArePlaced(units, i + 1);
      NalIsPlaced(units, i + 1);
    }
  }

  // ---------------------------------------------------- groups and cuts

  function First(groups: seq<seq<Unit>>, k: nat): nat
    requires k <= |groups|
  {
    |Flat(groups[..k])|
  }

  /** Unit m of group k, among all units. */
  lemma {:induction false} GroupIsInFlat(groups: seq<seq<Unit>>, k: nat)
    requires k < |groups|
    ensures First(groups, k + 1) == First(groups, k) + |groups[k]| <= |Flat(groups)|
    ensures Flat(groups)[First(groups, k)..First(groups, k + 1)] == groups[k]
    ensures Flat(groups)[..First(groups, k)] == Flat(groups[..k])
    decreases |groups|
  {
    var n := |groups| - 1;
    assert groups[..n + 1] == groups && groups[..k + 1][..k] == groups[..k];
    if k < n {
      GroupIsInFlat(groups[..n], k);
      assert groups[..n][..k] == groups[..k] && groups[..n][..k + 1] == groups[..k + 1];
    }
  }

  lemma {:induction false} FlatIsClean(groups: seq<seq<Unit>>)
    requires AreAccessUnits(groups)
    ensures AllClean(Flat(groups))
  {
    hide CleanNal;
    if groups != [] {
      var n := |groups| - 1;
      assert forall k | 0 <= k < n :: groups[..n][k] == groups[k];
      FlatIsClean(groups[..n]);
      assert IsAccessUnit(groups[n]);
    }
  }

  /** The NAL units of the first m units of group k hold k + 1 delimiters, if m is not 0. */
  lemma {:induction false} DelimitersSoFar(groups: seq<seq<Unit>>, k: nat, m: nat)
    requires AreAccessUnits(groups) && k < |groups| && m <= |groups[k]|
    ensures First(groups, k) + m <= |Flat(groups)|
    ensures var all := Flat(groups);
            AudOffsets(File(groups), Places(all, 0)[..First(groups, k) + m])
            == Starts(groups, if m == 0 then k else k + 1)
    decreases k, m
  {
    hide IsAud, Stream, CleanNal, Flat, IsAccessUnit, Starts, Place;
    var all, at := Flat(groups), First(groups, k);
    GroupIsInFlat(groups, k);
    var nals := Places(all, 0);
    if m > 0 {
      DelimitersSoFar(groups, k, m - 1);
      var i := at + m - 1;
      KindOfPlace(groups, k, m - 1);
      OneMoreNal(File(groups), nals, i);
      StartsStep(groups, k);
      PlaceIsAt(all, i);
      assert m == 1 ==> i == at;
    } else if k > 0 {
      GroupIsInFlat(groups, k - 1);
      GroupIsNotEmpty(groups, k - 1);
      DelimitersSoFar(groups, k - 1, |groups[k - 1]|);
    } else {
      NothingBefore(groups);
      NoStarts(groups);
    }
  }

  lemma OneMoreNal(data: seq<byte>, nals: seq<Nal>, i: nat)
    requires i < |nals|
    ensures AudOffsets(data, nals[..i + 1])
         == AudOffsets(data, nals[..i]) + if IsAud(data, nals[i]) then [nals[i].offset] else []
  {
    hide IsAud;
    assert nals[..i + 1][..i] == nals[..i];
  }

  lemma PlaceIsAt(units: seq<Unit>, i: nat)
    requires i < |units|
    ensures Place(units, i).offset == Offset(units, i)
  {}

  lemma NoStarts(groups: seq<seq<Unit>>)
    ensures Starts(groups, 0) == []
  {}

  lemma NothingBefore(groups: seq<seq<Unit>>)
    ensures First(groups, 0) == 0
  {
    assert groups[..0] == [];
  }

  /** Offsets of the first k access units. */
  ghost function Starts(groups: seq<seq<Unit>>, k: nat): (r: seq<nat>)
    requires k <= |groups|
    ensures |r| == k && forall j | 0 <= j < k :: r[j] == StartOf(groups, j)
  {
    if k == 0 then [] else Starts(groups, k - 1) + [StartOf(groups, k - 1)]
  }

  ghost function StartOf(groups: seq<seq<Unit>>, k: nat): nat
    requires k <= |groups|
  {
    |File(groups[..k])|
  }

  lemma StartsStep(groups: seq<seq<Unit>>, k: nat)
    requires k < |groups|
    ensures First(groups, k) <= |Flat(groups)|
    ensures Starts(groups, k + 1) == Starts(groups, k) + [Offset(Flat(groups), First(groups, k))]
  {
    GroupIsInFlat(groups, k);
  }

  lemma KindOfPlace(groups: seq<seq<Unit>>, k: nat, m: nat)
    requires AreAccessUnits(groups) && k < |groups| && m < |groups[k]|
    ensures First(groups, k) + m < |Flat(groups)|
    ensures var i, all := First(groups, k) + m, Flat(groups);
            && all[i] == groups[k][m]
            && (IsAud(File(groups), Place(all, i)) <==> m == 0)
            && (IsIdr(File(groups), Place(all, i)) <==> Kind(groups[k][m]) == 5)
  {
    hide Stream, CleanNal, Flat, TypeOf;
    var all, at := Flat(groups), First(groups, k);
    GroupIsInFlat(groups, k);
    FlatIsClean(groups);
    assert IsAccessUnit(groups[k]);
    assert all[at + m] == all[at..First(groups, k + 1)][m];
    HeaderByte(all, at + m);
  }

  lemma CutsAreStarts(groups: seq<seq<Unit>>, k: nat)
    requires AreAccessUnits(groups) && k <= |groups| && groups != []
    ensures CutAt(Starts(groups, |groups|), k, |File(groups)|) == StartOf(groups, k)
  {
    assert groups[..0] == [] && groups[..|groups|] == groups;
  }

  /** The bytes between two starts are the access unit's. */
  lemma GroupBytes(groups: seq<seq<Unit>>, k: nat)
    requires k < |groups|
    ensures StartOf(groups, k) <= StartOf(groups, k + 1) <= |File(groups)|
    ensures File(groups)[StartOf(groups, k)..StartOf(groups, k + 1)] == Stream(groups[k])
  {
    hide Stream;
    var all, at, end := Flat(groups), First(groups, k), First(groups, k + 1);
    GroupIsInFlat(groups, k);
    assert groups[..k + 1][..k] == groups[..k];
    assert all == all[..at] + groups[k] + all[end..];
    StreamInParts(all[..at], groups[k]);
    StreamInParts(all[..at] + groups[k], all[end..]);
    AnnexB.Split(Stream(all[..at]), Stream(groups[k]), Stream(all[end..]));
  }

  lemma NalsOfFile(groups: seq<seq<Unit>>)
    requires AreAccessUnits(groups) && groups != []
    ensures var data, all := File(groups), Flat(groups);
            && data != [] && StartCodeLength(data, 0) != 0 && Nals(data, 0) == Places(all, 0) && all != []
            && AudOffsets(data, Nals(data, 0)) == Starts(groups, |groups|)
  {
    hide Stream, Nals, StartCodeLength, AudOffsets, Places, AreAccessUnits, Starts, Flat;
    DelimitersOfFile(groups);
    FlatIsClean(groups);
    NalsArePlaced(Flat(groups), 0);
    Around(Flat(groups), 0);
  }

  lemma DelimitersOfFile(groups: seq<seq<Unit>>)
    requires AreAccessUnits(groups) && groups != []
    ensures Flat(groups) != []
    ensures AudOffsets(File(groups), Places(Flat(groups), 0)) == Starts(groups, |groups|)
  {
    hide File, AudOffsets, IsAccessUnit, Starts;
    var n := |groups| - 1;
    GroupIsNotEmpty(groups, n);
    DelimitersSoFar(groups, n, |groups[n]|);
    assert First(groups, n) + |groups[n]| == |Flat(groups)|;
    WholeSeq(Places(Flat(groups), 0));
  }

  lemma WholeSeq<T>(s: seq<T>)
    ensures s[..|s|] == s
  {}

  lemma GroupIsNotEmpty(groups: seq<seq<Unit>>, k: nat)
    requires AreAccessUnits(groups) && k < |groups|
    ensures groups[k] != []
  {
    assert IsAccessUnit(groups[k]);
  }

  /** Which group a unit is in. */
  lemma {:induction false} GroupOf(groups: seq<seq<Unit>>, i: nat) returns (k: nat, m: nat)
    requires i < |Flat(groups)|
    ensures k < |groups| && m < |groups[k]| && i == First(groups, k) + m
    ensures Flat(groups)[i] == groups[k][m]
    decreases |groups|
  {
    var n := |groups| - 1;
    if i >= |Flat(groups[..n])| {
      k, m := n, i - |Flat(groups[..n])|;
    } else {
      k, m := GroupOf(groups[..n], i);
      assert groups[..n][..k] == groups[..k];
    }
  }

  lemma UnitOfIsGroup(groups: seq<seq<Unit>>, k: nat, m: nat)
    requires AreAccessUnits(groups) && k < |groups| && m < |groups[k]|
    ensures First(groups, k) + m < |Flat(groups)|
    ensures UnitOf(File(groups), Places(Flat(groups), 0), First(groups, k) + m) == k
  {
    hide Flat, Stream, AudOffsets;
    GroupIsInFlat(groups, k);
    DelimitersSoFar(groups, k, m + 1);
  }

  // ---------------------------------------------------------- reading back

  /** A file of access units is accepted. */
  lemma FileIsAccepted(groups: seq<seq<Unit>>)
    requires AreAccessUnits(groups) && groups != []
    ensures var data := File(groups);
            && data != [] && StartCodeLength(data, 0) != 0
            && Nals(data, 0)[|Nals(data, 0)| - 1].header != |data| && Has(data, Nals(data, 0), AUD_TYPE)
  {
    hide Stream, CleanNal, Nals, StartCodeLength, AudOffsets, Has;
    NalsOfFile(groups);
    FlatIsClean(groups);
    var all := Flat(groups);
    HeaderByte(all, |all| - 1);
    DelimitersAreFound(File(groups), Nals(File(groups), 0));
  }

  /** Whether NAL unit m of group k is an IDR slice, where it lies in the file. */
  lemma IdrAt(groups: seq<seq<Unit>>, k: nat, m: nat)
    requires AreAccessUnits(groups) && k < |groups| && m < |groups[k]|
    ensures var i, nals := First(groups, k) + m, Places(Flat(groups), 0);
            i < |nals| && (IsIdr(File(groups), nals[i]) <==> Kind(groups[k][m]) == 5) &&
            UnitOf(File(groups), nals, i) == k
  {
    hide Stream, UnitOf, IsIdr, Flat;
    KindOfPlace(groups, k, m);
    UnitOfIsGroup(groups, k, m);
  }

  /** What the reader gives for it: the access units byte for byte, and as first IDR the first
      one that holds a NAL unit of type 5, or none if none does. */
  lemma FileIsReadBack(groups: seq<seq<Unit>>, s: Sample)
    requires AreAccessUnits(groups) && groups != []
    requires var data := File(groups);
             data != [] && StartCodeLength(data, 0) != 0 && IsSampleOf(data, Nals(data, 0), s)
    ensures |s.accessUnits| == |groups|
    ensures forall k | 0 <= k < |groups| :: s.accessUnits[k] == Stream(groups[k])
    ensures s.firstIdr == None <==> forall k | 0 <= k < |groups| :: !HasKind(groups[k], 5)
    ensures s.firstIdr.Some? ==>
              && s.firstIdr.value < |groups| && HasKind(groups[s.firstIdr.value], 5)
              && forall k | 0 <= k < s.firstIdr.value :: !HasKind(groups[k], 5)
  {
    hide Stream, Nals, StartCodeLength, AudOffsets, Describes, NamesFirstIdr, IsAccessUnit;
    NalsOfFile(groups);
    forall k | 0 <= k < |groups| ensures s.accessUnits[k] == Stream(groups[k]) {
      assert IsCut(File(groups), s.accessUnits[k], Starts(groups, |groups|), k, |File(groups)|);
      CutsAreStarts(groups, k);
      CutsAreStarts(groups, k + 1);
      GroupBytes(groups, k);
    }
    FirstIdrIsFound(groups, s.firstIdr);
  }

  lemma FirstIdrIsFound(groups: seq<seq<Unit>>, firstIdr: Option<nat>)
    requires AreAccessUnits(groups) && groups != []
    requires NamesFirstIdr(File(groups), Places(Flat(groups), 0), firstIdr)
    ensures firstIdr == None <==> forall k | 0 <= k < |groups| :: !HasKind(groups[k], 5)
    ensures firstIdr.Some? ==>
              && firstIdr.value < |groups| && HasKind(groups[firstIdr.value], 5)
              && forall k | 0 <= k < firstIdr.value :: !HasKind(groups[k], 5)
  {
    hide File, IsIdr, UnitOf, AreAccessUnits, Flat, Places, HasKind;
    var data, nals := File(groups), Places(Flat(groups), 0);
    if i: nat :| i < |nals| && IsIdr(data, nals[i]) {
      var first := FirstOf(data, nals, i);
      var k := GroupOfFirst(groups, first);
    } else {
      forall k | 0 <= k < |groups| ensures !HasKind(groups[k], 5) { NoneAtAll(groups, k); }
    }
  }

  lemma GroupOfFirst(groups: seq<seq<Unit>>, first: nat) returns (k: nat)
    requires AreAccessUnits(groups) && IsFirstIdr(File(groups), Places(Flat(groups), 0), first)
    ensures k < |groups| && UnitOf(File(groups), Places(Flat(groups), 0), first) == k && HasKind(groups[k], 5)
    ensures forall j | 0 <= j < k :: !HasKind(groups[j], 5)
  {
    hide File, IsIdr, UnitOf, AreAccessUnits, Flat, First, Kind;
    var m: nat;
    k, m := GroupOf(groups, first);
    IdrAt(groups, k, m);
    forall j | 0 <= j < k ensures !HasKind(groups[j], 5) { NoneEarlier(groups, first, j, k, m); }
  }

  lemma NoneEarlier(groups: seq<seq<Unit>>, first: nat, j: nat, k: nat, m: nat)
    requires AreAccessUnits(groups) && IsFirstIdr(File(groups), Places(Flat(groups), 0), first)
    requires j < k < |groups| && first == First(groups, k) + m
    ensures !HasKind(groups[j], 5)
  {
    hide Stream, IsIdr, UnitOf, IsAccessUnit, Flat, Places;
    forall p | 0 <= p < |groups[j]| ensures Kind(groups[j][p]) != 5 {
      IdrAt(groups, j, p);
      EarlierGroup(groups, j, p, k);
    }
  }

  lemma NoneAtAll(groups: seq<seq<Unit>>, k: nat)
    requires AreAccessUnits(groups) && k < |groups|
    requires forall i | 0 <= i < |Places(Flat(groups), 0)| :: !IsIdr(File(groups), Places(Flat(groups), 0)[i])
    ensures !HasKind(groups[k], 5)
  {
    hide Stream, IsIdr, UnitOf, IsAccessUnit, Flat, Places;
    forall p | 0 <= p < |groups[k]| ensures Kind(groups[k][p]) != 5 {
      IdrAt(groups, k, p);
    }
  }

  lemma {:induction false} EarlierGroup(groups: seq<seq<Unit>>, j: nat, p: nat, k: nat)
    requires j < k < |groups| && p < |groups[j]|
    ensures First(groups, j) + p < First(groups, k)
  {
    hide Flat;
    GroupIsInFlat(groups, j);
    if j + 1 < k {
      GroupIsInFlat(groups, k - 1);
      EarlierGroup(groups, j, p, k - 1);
    }
  }

  lemma {:induction false} FirstOf(data: seq<byte>, nals: seq<Nal>, i: nat) returns (first: nat)
    requires i < |nals| && IsIdr(data, nals[i])
    ensures first <= i && IsFirstIdr(data, nals, first)
    decreases i
  {
    hide IsIdr;
    if j :| 0 <= j < i && IsIdr(data, nals[j]) { first := FirstOf(data, nals, j); } else { first := i; }
  }

  /** And which kinds it saw. */
  lemma FileIsDescribed(groups: seq<seq<Unit>>, s: Sample)
    requires AreAccessUnits(groups) && groups != []
    requires var data := File(groups);
             data != [] && StartCodeLength(data, 0) != 0 && IsSampleOf(data, Nals(data, 0), s)
    ensures s.has.sps <==> HasKind(Flat(groups), 7)
    ensures s.has.pps <==> HasKind(Flat(groups), 8)
    ensures s.has.idr <==> HasKind(Flat(groups), 5)
    ensures s.has.longStartCodes <==> exists u :: u in Flat(groups) && u.long
    ensures s.has.shortStartCodes <==> exists u :: u in Flat(groups) && !u.long
  {
    hide Stream, Nals, StartCodeLength, AudOffsets, NamesFirstIdr, IsAccessUnit, CutsMatch;
    hide HasKind, Has, Places, HasCode;
    NalsOfFile(groups);
    FlatIsClean(groups);
    var all := Flat(groups);
    KindsAreSeen(all, 5);
    KindsAreSeen(all, 7);
    KindsAreSeen(all, 8);
    CodesAreSeen(all);
  }

  lemma KindsAreSeen(units: seq<Unit>, kind: nat)
    requires AllClean(units)
    ensures Has(Stream(units), Places(units, 0), kind) <==> HasKind(units, kind)
  {
    hide Stream, TypeOf, CleanNal;
    var nals := Places(units, 0);
    forall i | 0 <= i < |units|
      ensures nals[i].header < |Stream(units)| && TypeOf(Stream(units), nals[i]) == Kind(units[i])
    {
      HeaderByte(units, i);
    }
  }

  lemma CodesAreSeen(units: seq<Unit>)
    ensures HasCode(Places(units, 0), 4) <==> exists u :: u in units && u.long
    ensures HasCode(Places(units, 0), 3) <==> exists u :: u in units && !u.long
  {
    hide HasCode, Places, Stream;
    CodeIsSeen(units, true);
    CodeIsSeen(units, false);
    assert forall u | u in units :: u.long == true || u.long == false;
  }

  lemma CodeIsSeen(units: seq<Unit>, long: bool)
    ensures HasCode(Places(units, 0), if long then 4 else 3) <==> exists u :: u in units && u.long == long
  {
    hide Stream, Place, AnnexB.StartCode;
    var nals, size := Places(units, 0), if long then 4 else 3;
    if HasCode(nals, size) {
      var i :| 0 <= i < |nals| && nals[i].header - nals[i].offset == size;
      CodeSize(units, i);
      assert units[i] in units;
    }
    if u :| u in units && u.long == long {
      var i :| 0 <= i < |units| && units[i] == u;
      CodeSize(units, i);
      assert nals[i].header - nals[i].offset == size;
    }
  }

  lemma CodeSize(units: seq<Unit>, i: nat)
    requires i < |units|
    ensures var n := Places(units, 0)[i]; n.header - n.offset == if units[i].long then 4 else 3
  {
    hide Stream;
  }
}
