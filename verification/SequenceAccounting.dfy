/** Per-controller sequence accounting over an unordered, lossy channel.
    Counters are uint64 and wrap; the lemmas say when they are exact. */
module SequenceAccounting {
  import opened Basics

  datatype Diagnostics = Diagnostics(received: nat, accepted: nat, gaps: nat, stale: nat, last: Option<nat>)

  const FRESH: Diagnostics := Diagnostics(0, 0, 0, 0, None)

  /** A sum of two uint64 values, wrapped to 64 bits. */
  function Wrap(sum: nat): nat { if sum < TWO_TO_THE_64 then sum else sum - TWO_TO_THE_64 }

  predicate IsStale(d: Diagnostics, sequence: nat) {
    d.last.Some? && sequence <= d.last.value
  }

  function Hear(d: Diagnostics, sequence: nat): Diagnostics {
    if IsStale(d, sequence) then
      d.(received := Wrap(d.received + 1), stale := Wrap(d.stale + 1))
    else
      var gaps := if d.last.Some? && sequence > Wrap(d.last.value + 1)
                  then Wrap(d.gaps + (sequence - d.last.value - 1)) else d.gaps;
      Diagnostics(Wrap(d.received + 1), Wrap(d.accepted + 1), gaps, d.stale, Some(sequence))
  }

  /** The diagnostics after hearing the given sequence numbers in arrival order. */
  function HearAll(arrivals: seq<nat>): Diagnostics {
    if arrivals == [] then FRESH
    else Hear(HearAll(arrivals[..|arrivals| - 1]), arrivals[|arrivals| - 1])
  }

  /** Arrival i is a record: larger than everything heard before it. */
  ghost predicate IsRecord(arrivals: seq<nat>, i: nat)
    requires i < |arrivals|
  {
    forall j | 0 <= j < i :: arrivals[j] < arrivals[i]
  }

  ghost function RecordCount(arrivals: seq<nat>): nat {
    if arrivals == [] then 0
    else RecordCount(arrivals[..|arrivals| - 1]) + (if IsRecord(arrivals, |arrivals| - 1) then 1 else 0)
  }

  ghost predicate AllUint64(arrivals: seq<nat>) {
    forall i | 0 <= i < |arrivals| :: arrivals[i] < 0x1_0000_0000_0000_0000
  }

  /** The highest sequence number heard is what the bridge remembers. */
  lemma {:induction false} LastIsMaximum(arrivals: seq<nat>)
    ensures HearAll(arrivals).last.None? <==> arrivals == []
    ensures arrivals != [] ==>
              var last := HearAll(arrivals).last.value;
              last in arrivals && forall i | 0 <= i < |arrivals| :: arrivals[i] <= last
  {
    if arrivals != [] {
      var front := arrivals[..|arrivals| - 1];
      LastIsMaximum(front);
      assert arrivals == front + [arrivals[|arrivals| - 1]];
    }
  }

  /** Every arrival order: a state is accepted exactly when it is a strict left-to-right maximum. */
  lemma AcceptedExactlyTheRecords(arrivals: seq<nat>, i: nat)
    requires i < |arrivals|
    ensures !IsStale(HearAll(arrivals[..i]), arrivals[i]) <==> IsRecord(arrivals, i)
  {
    var before := arrivals[..i];
    LastIsMaximum(before);
    if i > 0 {
      var last := HearAll(before).last.value;
      var k :| 0 <= k < |before| && before[k] == last;
      assert arrivals[k] == last;
      assert forall j | 0 <= j < i :: arrivals[j] == before[j];
    }
  }

  /** received = accepted + stale, and the counters are the true counts until 2^64 messages. */
  lemma {:induction false} CountersAreCounts(arrivals: seq<nat>)
    requires |arrivals| < 0x1_0000_0000_0000_0000
    ensures var d := HearAll(arrivals);
            d.received == |arrivals| && d.accepted == RecordCount(arrivals)
            && d.received == d.accepted + d.stale
  {
    if arrivals != [] {
      var n := |arrivals| - 1;
      CountersAreCounts(arrivals[..n]);
      AcceptedExactlyTheRecords(arrivals, n);
    }
  }

  /** Gaps and accepted states together span the whole range heard, with no uint64 wrap
      even when the top sequence number is reached. */
  lemma {:induction false} GapsAreExact(arrivals: seq<nat>)
    requires AllUint64(arrivals) && arrivals != []
    ensures var d := HearAll(arrivals);
            RecordCount(arrivals) + d.gaps == d.last.value - arrivals[0] + 1
    ensures HearAll(arrivals).gaps < 0x1_0000_0000_0000_0000 - 1 && RecordCount(arrivals) > 0
  {
    var n := |arrivals| - 1;
    var front := arrivals[..n];
    AcceptedExactlyTheRecords(arrivals, n);
    LastIsMaximum(arrivals);
    if n == 0 {
      assert front == [];
      assert IsRecord(arrivals, 0);
      assert RecordCount(front) == 0;
    } else {
      assert AllUint64(front);
      LastIsMaximum(front);
      GapsAreExact(front);
      assert front[0] == arrivals[0];
    }
  }
}
