/** Annex B byte streams: start codes, and emulation prevention inside a NAL unit
    (ITU-T H.265 section 7.3.1.1 and Annex B). */
module AnnexB {
  import opened Basics

  /** Length of the start code at an offset, or 0. */
  function StartCodeLength(bytes: seq<byte>, offset: nat): (n: nat)
    ensures n == 0 || n == 3 || n == 4
    ensures offset + n <= |bytes| || n == 0
  {
    if offset + 3 <= |bytes| && bytes[offset] == 0 && bytes[offset + 1] == 0 && bytes[offset + 2] == 1 then 3
    else if offset + 4 <= |bytes| && bytes[offset] == 0 && bytes[offset + 1] == 0 && bytes[offset + 2] == 0
            && bytes[offset + 3] == 1 then 4
    else 0
  }

  /** The first start code at or after an offset, or the end of the stream. */
  function NextStart(bytes: seq<byte>, from: nat): (n: nat)
    requires from <= |bytes|
    ensures from <= n <= |bytes|
    ensures forall i | from <= i < n :: StartCodeLength(bytes, i) == 0
    ensures n < |bytes| ==> StartCodeLength(bytes, n) != 0
    decreases |bytes| - from
  {
    if from == |bytes| || StartCodeLength(bytes, from) != 0 then from else NextStart(bytes, from + 1)
  }

  lemma NextStartIs(bytes: seq<byte>, from: nat, n: nat)
    requires from <= n <= |bytes|
    requires forall i | from <= i < n :: StartCodeLength(bytes, i) == 0
    requires n < |bytes| ==> StartCodeLength(bytes, n) != 0
    ensures NextStart(bytes, from) == n
  {
    hide StartCodeLength;
    var m := NextStart(bytes, from);
  }

  /** A NAL unit as Annex B allows it between start codes: no three bytes 00 00 00 or
      00 00 01 inside, and no trailing zero. */
  ghost predicate CleanNal(nal: seq<byte>) {
    && nal != [] && nal[|nal| - 1] != 0
    && forall i | 0 <= i && i + 2 < |nal| :: !(nal[i] == 0 && nal[i + 1] == 0 && nal[i + 2] <= 1)
  }

  datatype Unit = Unit(long: bool, nal: seq<byte>)

  function StartCode(long: bool): seq<byte> { if long then [0, 0, 0, 1] else [0, 0, 1] }

  function Stream(units: seq<Unit>): seq<byte> {
    if units == [] then [] else StartCode(units[0].long) + units[0].nal + Stream(units[1..])
  }

  ghost predicate AllClean(units: seq<Unit>) { forall u | u in units :: CleanNal(u.nal) }

  lemma StreamStartsWithCode(units: seq<Unit>)
    ensures if units == [] then Stream(units) == []
            else StartCodeLength(Stream(units), 0) == |StartCode(units[0].long)| > 0
  {}

  /** Inside a clean NAL no start code begins, whatever unit follows it. */
  lemma NoCodeInsideNal(nal: seq<byte>, units: seq<Unit>, i: nat)
    requires CleanNal(nal) && i < |nal|
    ensures StartCodeLength(nal + Stream(units), i) == 0
  {
    var all := nal + Stream(units);
    if i + 2 < |nal| {
      assert !(nal[i] == 0 && nal[i + 1] == 0 && nal[i + 2] <= 1);
      assert all[i] == nal[i] && all[i + 1] == nal[i + 1] && all[i + 2] == nal[i + 2];
    } else {
      assert all[|nal| - 1] != 0 && i <= |nal| - 1 <= i + 1;
    }
  }

  lemma ShiftStartCode(prefix: seq<byte>, bytes: seq<byte>, i: nat)
    ensures StartCodeLength(prefix + bytes, |prefix| + i) == StartCodeLength(bytes, i)
  {
    assert forall k | 0 <= k < |bytes| :: (prefix + bytes)[|prefix| + k] == bytes[k];
  }

  lemma Split<T>(a: seq<T>, b: seq<T>, c: seq<T>)
    ensures a + b + c == a + (b + c)
    ensures (a + b + c)[|a|..|a| + |b|] == b
    ensures (a + b + c)[|a| + |b|..] == c
  {}

  lemma NoCodeAt(code: seq<byte>, nal: seq<byte>, units: seq<Unit>, k: nat)
    requires CleanNal(nal) && k < |nal|
    ensures StartCodeLength(code + (nal + Stream(units)), |code| + k) == 0
  {
    hide *;
    NoCodeInsideNal(nal, units, k);
    ShiftStartCode(code, nal + Stream(units), k);
  }

  lemma CodeAtEnd(code: seq<byte>, nal: seq<byte>, units: seq<Unit>)
    ensures units != [] ==> StartCodeLength(code + nal + Stream(units), |code| + |nal|) != 0
    ensures units == [] ==> Stream(units) == []
  {
    hide StartCodeLength;
    StreamStartsWithCode(units);
    ShiftStartCode(code + nal, Stream(units), 0);
  }

  lemma CodeFreeUntilNext(code: seq<byte>, nal: seq<byte>, units: seq<Unit>)
    requires CleanNal(nal)
    ensures NextStart(code + nal + Stream(units), |code|) == |code| + |nal|
  {
    hide *;
    var all := code + nal + Stream(units);
    assert all == code + (nal + Stream(units));
    forall i | |code| <= i < |code| + |nal| ensures StartCodeLength(all, i) == 0 {
      NoCodeAt(code, nal, units, i - |code|);
    }
    CodeAtEnd(code, nal, units);
    NextStartIs(all, |code|, |code| + |nal|);
  }

  /** The scan finds exactly the units of a clean stream. */
  lemma FirstUnitEnds(units: seq<Unit>)
    requires units != [] && AllClean(units)
    ensures var code := |StartCode(units[0].long)|;
            && NextStart(Stream(units), code) == code + |units[0].nal|
            && Stream(units)[code..code + |units[0].nal|] == units[0].nal
            && Stream(units)[code + |units[0].nal|..] == Stream(units[1..])
  {
    hide StartCodeLength, NextStart, CleanNal;
    CodeFreeUntilNext(StartCode(units[0].long), units[0].nal, units[1..]);
    Split(StartCode(units[0].long), units[0].nal, Stream(units[1..]));
  }

  // ------------------------------------------------- emulation prevention

  function NextZeros(b: byte, zeros: nat): nat { if b == 0 then zeros + 1 else 0 }

  /** Drops the 03 after two zeros; `zeros` counts the zeros just passed. */
  function Unescape(payload: seq<byte>, zeros: nat): seq<byte> {
    if payload == [] then []
    else if zeros >= 2 && payload[0] == 3 then Unescape(payload[1..], 0)
    else [payload[0]] + Unescape(payload[1..], NextZeros(payload[0], zeros))
  }

  /** The encoder's side: a 03 before any byte up to 03 that follows two zeros. */
  function Escape(payload: seq<byte>, zeros: nat): seq<byte> {
    if payload == [] then []
    else if zeros >= 2 && payload[0] <= 3 then
      [3, payload[0]] + Escape(payload[1..], NextZeros(payload[0], 0))
    else [payload[0]] + Escape(payload[1..], NextZeros(payload[0], zeros))
  }

  lemma {:induction false} UnescapeInvertsEscape(payload: seq<byte>, zeros: nat)
    ensures Unescape(Escape(payload, zeros), zeros) == payload
  {
    if payload != [] {
      var e := Escape(payload, zeros);
      if zeros >= 2 && payload[0] <= 3 {
        var tail := Escape(payload[1..], NextZeros(payload[0], 0));
        assert e[1..] == [payload[0]] + tail && e[1..][1..] == tail;
        UnescapeInvertsEscape(payload[1..], NextZeros(payload[0], 0));
      } else {
        assert e[1..] == Escape(payload[1..], NextZeros(payload[0], zeros));
        UnescapeInvertsEscape(payload[1..], NextZeros(payload[0], zeros));
      }
    }
  }

  /** No byte up to 02 follows two zeros, counting the zeros before the sequence. */
  ghost predicate NoEmulation(e: seq<byte>, zeros: nat) {
    e == [] || ((zeros >= 2 ==> e[0] > 2) && NoEmulation(e[1..], NextZeros(e[0], zeros)))
  }

  lemma {:induction false} EscapePreventsEmulation(payload: seq<byte>, zeros: nat)
    ensures NoEmulation(Escape(payload, zeros), zeros)
  {
    if payload != [] {
      var e := Escape(payload, zeros);
      if zeros >= 2 && payload[0] <= 3 {
        var tail := Escape(payload[1..], NextZeros(payload[0], 0));
        EscapePreventsEmulation(payload[1..], NextZeros(payload[0], 0));
        assert e[1..] == [payload[0]] + tail && e[1..][1..] == tail;
        assert NoEmulation(e[1..], 0);
      } else {
        assert e[1..] == Escape(payload[1..], NextZeros(payload[0], zeros));
        EscapePreventsEmulation(payload[1..], NextZeros(payload[0], zeros));
      }
    }
  }

  lemma {:induction false} NoEmulationAt(e: seq<byte>, zeros: nat, i: nat)
    requires NoEmulation(e, zeros) && i + 2 < |e|
    ensures !(e[i] == 0 && e[i + 1] == 0 && e[i + 2] <= 2)
  {
    if i > 0 {
      NoEmulationAt(e[1..], NextZeros(e[0], zeros), i - 1);
    } else {
      assert e[1..][0] == e[1] && e[1..][1..][0] == e[2];
      assert NoEmulation(e[1..], NextZeros(e[0], zeros));
      assert NoEmulation(e[1..][1..], NextZeros(e[1], NextZeros(e[0], zeros)));
    }
  }

  lemma {:induction false} EscapeKeepsLast(payload: seq<byte>, zeros: nat)
    requires payload != []
    ensures var e := Escape(payload, zeros); |e| >= |payload| && e[|e| - 1] == payload[|payload| - 1]
  {
    if |payload| > 1 {
      EscapeKeepsLast(payload[1..], NextZeros(payload[0], if zeros >= 2 && payload[0] <= 3 then 0 else zeros));
    }
  }

  /** None of the sequences that emulation prevention excludes: 00 00 00, 00 00 01, 00 00 02. */
  ghost predicate EmulationFree(nal: seq<byte>) {
    forall i | 0 <= i && i + 2 < |nal| :: !(nal[i] == 0 && nal[i + 1] == 0 && nal[i + 2] <= 2)
  }

  /** A two-byte header without zeros followed by an escaped payload is a clean NAL. */
  lemma EscapedNalIsClean(header: seq<byte>, payload: seq<byte>)
    requires |header| == 2 && header[0] != 0 && header[1] != 0
    requires payload != [] && payload[|payload| - 1] != 0
    ensures CleanNal(header + Escape(payload, 0)) && EmulationFree(header + Escape(payload, 0))
  {
    hide *;
    var e := Escape(payload, 0);
    EscapePreventsEmulation(payload, 0);
    EscapeKeepsLast(payload, 0);
    HeaderKeepsClean(header, e);
  }

  lemma HeaderKeepsClean(header: seq<byte>, e: seq<byte>)
    requires |header| == 2 && header[0] != 0 && header[1] != 0
    requires e != [] && e[|e| - 1] != 0 && NoEmulation(e, 0)
    ensures CleanNal(header + e) && EmulationFree(header + e)
  {
    hide NoEmulation;
    forall k | 0 <= k && k + 2 < |e| ensures !(e[k] == 0 && e[k + 1] == 0 && e[k + 2] <= 2) {
      NoEmulationAt(e, 0, k);
    }
    var nal := header + e;
    forall i | 0 <= i && i + 2 < |nal| ensures !(nal[i] == 0 && nal[i + 1] == 0 && nal[i + 2] <= 2) {
      if i >= 2 {
        var k := i - 2;
        assert nal[i] == e[k] && nal[i + 1] == e[k + 1] && nal[i + 2] == e[k + 2];
      }
    }
  }

  /** The in-place form: one pass with a running zero count. */
  method Rbsp(payload: seq<byte>) returns (result: seq<byte>)
    ensures result == Unescape(payload, 0)
  {
    result := [];
    var zeroCount := 0;
    for i := 0 to |payload|
      invariant zeroCount >= 0
      invariant result + Unescape(payload[i..], zeroCount) == Unescape(payload, 0)
    {
      var b := payload[i];
      assert payload[i..][1..] == payload[i + 1..];
      if zeroCount >= 2 && b == 3 {
        zeroCount := 0;
      } else {
        assert result + ([b] + Unescape(payload[i + 1..], NextZeros(b, zeroCount)))
            == (result + [b]) + Unescape(payload[i + 1..], NextZeros(b, zeroCount));
        result := result + [b];
        zeroCount := if b == 0 then zeroCount + 1 else 0;
      }
    }
  }
}
