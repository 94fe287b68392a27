/** Every sequence of flatten, move construction, move assignment and destruction over one
    pool: who holds which slot, what a lease's bytes are, and how large the pool grows. */
module PoolRuns {
  import opened Basics
  import opened FlatBufferPool

  datatype Event = Took(slot: nat) | Gave(slot: nat)

  /** `promised` remembers, for each lease object, the bytes it was flattened with. */
  datatype System = System(pool: Pool, leases: map<nat, Lease>, promised: map<nat, seq<byte>>, log: seq<Event>)

  datatype Call =
    | CallFlatten(unit: Option<DecodeUnit>, prefix: seq<byte>, id: nat)
    | CallDefault(id: nat)
    | CallMoveConstruct(from: nat, to: nat)
    | CallMoveAssign(from: nat, to: nat)
    | CallDestroy(id: nat)

  ghost predicate Enabled(s: System, c: Call) {
    match c
    case CallFlatten(unit, _, id) => Fits(unit) && id !in s.leases
    case CallDefault(id) => id !in s.leases
    case CallMoveConstruct(from, to) => from in s.leases && to !in s.leases
    case CallMoveAssign(from, to) => from in s.leases && to in s.leases
    case CallDestroy(id) => id in s.leases
  }

  function GiveBack(s: System, id: nat): System
    requires id in s.leases
  {
    if s.leases[id].held then
      s.(pool := Release(s.pool, s.leases[id].slotIndex), log := s.log + [Gave(s.leases[id].slotIndex)])
    else s
  }

  function Put(s: System, id: nat, l: Lease, bytes: seq<byte>): System {
    s.(leases := s.leases[id := l], promised := s.promised[id := bytes])
  }

  function Move(s: System, from: nat, to: nat): System
    requires from in s.leases && from in s.promised
  {
    Put(Put(s, to, s.leases[from], s.promised[from]), from, MovedFrom(s.leases[from]), [])
  }

  ghost function Flattened(s: System, c: Call): System
    requires c.CallFlatten? && WellFormed(s.pool) && Fits(c.unit)
  {
    var o := FlattenUnit(s.pool, c.unit, c.prefix);
    var took := if o.slot.Some? then [Took(o.slot.value)] else [];
    var gave := if o.slot.Some? && o.lease == None then [Gave(o.slot.value)] else [];
    var t := s.(pool := o.pool, log := s.log + took + gave);
    if o.lease.Some? then Put(t, c.id, o.lease.value, c.prefix + Joined(c.unit.value.chain)) else t
  }

  ghost function Step(s: System, c: Call): System
    requires Enabled(s, c) && WellFormed(s.pool) && s.promised.Keys == s.leases.Keys
  {
    match c
    case CallFlatten(_, _, _) => Flattened(s, c)
    case CallDefault(id) => Put(s, id, NO_LEASE, [])
    case CallMoveConstruct(from, to) => Move(s, from, to)
    case CallMoveAssign(from, to) => if from == to then s else Move(GiveBack(s, to), from, to)
    case CallDestroy(id) =>
      var t := GiveBack(s, id);
      t.(leases := t.leases - {id}, promised := t.promised - {id})
  }

  // ------------------------------------------------------------- the log

  /** Whether a slot is out: its last event is a Took. */
  function Out(log: seq<Event>, slot: nat): bool {
    if log == [] then false
    else
      var last := log[|log| - 1];
      if last.slot == slot then last.Took? else Out(log[..|log| - 1], slot)
  }

  /** A slot is taken only while in, and given back only while out. */
  ghost predicate Alternates(log: seq<Event>) {
    log == []
    || (Alternates(log[..|log| - 1])
        && (log[|log| - 1].Took? <==> !Out(log[..|log| - 1], log[|log| - 1].slot)))
  }

  function Balance(log: seq<Event>): int {
    if log == [] then 0 else Balance(log[..|log| - 1]) + if log[|log| - 1].Took? then 1 else -1
  }

  /** The most slots ever out at once. */
  function Peak(log: seq<Event>): (n: int)
    ensures n >= 0
  {
    if log == [] then 0
    else
      var before := Peak(log[..|log| - 1]);
      if Balance(log) > before then Balance(log) else before
  }

  function CountTook(log: seq<Event>, slot: nat): nat {
    if log == [] then 0
    else CountTook(log[..|log| - 1], slot) + if log[|log| - 1] == Took(slot) then 1 else 0
  }

  function CountGave(log: seq<Event>, slot: nat): nat {
    if log == [] then 0
    else CountGave(log[..|log| - 1], slot) + if log[|log| - 1] == Gave(slot) then 1 else 0
  }

  /** In an alternating log every acquisition has been released exactly once, or is still out. */
  lemma {:induction false} AlternatingBalances(log: seq<Event>, slot: nat)
    requires Alternates(log)
    ensures CountTook(log, slot) == CountGave(log, slot) + if Out(log, slot) then 1 else 0
  {
    if log != [] {
      AlternatingBalances(log[..|log| - 1], slot);
    }
  }

  // ------------------------------------------------------- pool and log

  function Max(a: int, b: int): int { if a >= b then a else b }

  ghost predicate PoolMatchesLog(p: Pool, log: seq<Event>, initial: nat) {
    && WellFormed(p) && Alternates(log)
    && (forall i: nat :: Out(log, i) <==> i < |p.slots| && p.slots[i].inUse)
    && Balance(log) == ActiveLeases(p.slots)
    && |p.slots| == Max(initial, Peak(log))
  }

  lemma LogGrows(log: seq<Event>, e: Event)
    ensures Balance(log + [e]) == Balance(log) + if e.Took? then 1 else -1
    ensures Peak(log + [e]) == Max(Peak(log), Balance(log + [e]))
    ensures forall i: nat :: Out(log + [e], i) == if e.slot == i then e.Took? else Out(log, i)
    ensures Alternates(log) && (e.Took? <==> !Out(log, e.slot)) ==> Alternates(log + [e])
  {
    assert (log + [e])[..|log|] == log;
  }

  function Bit(s: Slot): nat { if s.inUse then 1 else 0 }

  lemma {:induction false} ActiveAfterUpdate(slots: seq<Slot>, i: nat, s: Slot)
    requires i < |slots|
    ensures ActiveLeases(slots[i := s]) == ActiveLeases(slots) - Bit(slots[i]) + Bit(s)
  {
    var n := |slots| - 1;
    if i < n {
      assert slots[i := s][..n] == slots[..n][i := s];
      ActiveAfterUpdate(slots[..n], i, s);
    } else {
      assert slots[i := s][..n] == slots[..n];
    }
  }

  lemma {:induction false} AllActive(slots: seq<Slot>)
    requires forall i | 0 <= i < |slots| :: slots[i].inUse
    ensures ActiveLeases(slots) == |slots|
  {
    if slots != [] {
      AllActive(slots[..|slots| - 1]);
    }
  }

  lemma AcquireKeepsLog(p: Pool, log: seq<Event>, initial: nat)
    requires PoolMatchesLog(p, log, initial)
    ensures PoolMatchesLog(Acquire(p).pool, log + [Took(Acquire(p).slot)], initial)
    ensures !Out(log, Acquire(p).slot)
  {
    hide Search, Out, Balance, Peak, Alternates, ActiveLeases;
    var a := Acquire(p);
    LogGrows(log, Took(a.slot));
    match Search(p, 0)
    case Some(idx) =>
      ActiveAfterUpdate(p.slots, idx, p.slots[idx].(inUse := true));
    case None =>
      forall i | 0 <= i < |p.slots| ensures p.slots[i].inUse { NothingFreeMeansAllUsed(p, i); }
      AllActive(p.slots);
      AllActive(a.pool.slots);
  }

  lemma FillKeepsLog(p: Pool, log: seq<Event>, initial: nat, i: nat, buffer: seq<byte>)
    requires PoolMatchesLog(p, log, initial) && i < |p.slots|
    ensures PoolMatchesLog(p.(slots := p.slots[i := Slot(buffer, p.slots[i].inUse)]), log, initial)
  {
    hide Out, Balance, Peak, Alternates, ActiveLeases;
    ActiveAfterUpdate(p.slots, i, Slot(buffer, p.slots[i].inUse));
  }

  lemma ReleaseKeepsLog(p: Pool, log: seq<Event>, initial: nat, i: nat)
    requires PoolMatchesLog(p, log, initial) && Out(log, i)
    ensures PoolMatchesLog(Release(p, i), log + [Gave(i)], initial)
  {
    hide Out, Balance, Peak, Alternates, ActiveLeases;
    LogGrows(log, Gave(i));
    ActiveAfterUpdate(p.slots, i, p.slots[i].(inUse := false));
    PeakIsReached(log);
  }

  lemma {:induction false} PeakIsReached(log: seq<Event>)
    ensures Balance(log) <= Peak(log)
  {
    if log != [] { PeakIsReached(log[..|log| - 1]); }
  }

  // ------------------------------------------------------------- leases

  ghost predicate Holds(s: System, id: nat) { id in s.leases && s.leases[id].held }

  ghost predicate LeaseOk(s: System, id: nat) {
    id in s.leases && id in s.promised &&
    var l := s.leases[id];
    l.held ==>
      && l.slotIndex < |s.pool.slots| && s.pool.slots[l.slotIndex].inUse
      && l.size <= |s.pool.slots[l.slotIndex].buffer|
      && View(s.pool, l) == s.promised[id]
  }

  ghost predicate Distinct(leases: map<nat, Lease>) {
    forall a, b | a in leases && b in leases && a != b && leases[a].held && leases[b].held ::
      leases[a].slotIndex != leases[b].slotIndex
  }

  ghost predicate Owned(leases: map<nat, Lease>, slot: nat) {
    exists id :: id in leases && leases[id].held && leases[id].slotIndex == slot
  }

  ghost predicate Inv(s: System, initial: nat) {
    && PoolMatchesLog(s.pool, s.log, initial)
    && s.promised.Keys == s.leases.Keys
    && (forall id | id in s.leases :: LeaseOk(s, id))
    && Distinct(s.leases)
    && (forall i | 0 <= i < |s.pool.slots| && s.pool.slots[i].inUse :: Owned(s.leases, i))
  }

  // ------------------------------------------------------- every step

  /** Nothing but slot k differs, and at most slot k is new. */
  ghost predicate SameElsewhere(p: Pool, q: Pool, k: nat) {
    && |p.slots| <= |q.slots|
    && (forall i | 0 <= i < |p.slots| && i != k :: q.slots[i] == p.slots[i])
    && (|q.slots| == |p.slots| || (k == |p.slots| && |q.slots| == k + 1))
  }

  ghost predicate IsFree(p: Pool, k: nat) { k < |p.slots| ==> !p.slots[k].inUse }

  lemma AcquireTouches(p: Pool)
    requires WellFormed(p)
    ensures var a := Acquire(p); SameElsewhere(p, a.pool, a.slot) && IsFree(p, a.slot) && a.pool.slots[a.slot].inUse
  {
    hide Search;
  }

  /** The bytes of a complete unit: prefix, then the chain, and nothing else. */
  lemma FilledBytes(old_: seq<byte>, prefix: seq<byte>, payload: seq<byte>, total: nat)
    requires total == |prefix| + |payload|
    ensures Overwritten(Resized(old_, total), 0, prefix + payload) == prefix + payload
  {}

  function SlotEvents(o: Outcome): seq<Event> {
    if o.slot == None then []
    else [Took(o.slot.value)] + if o.lease == None then [Gave(o.slot.value)] else []
  }

  lemma FlattenFacts(p: Pool, log: seq<Event>, initial: nat, u: Option<DecodeUnit>, prefix: seq<byte>)
    requires PoolMatchesLog(p, log, initial) && Fits(u)
    ensures var o := FlattenUnit(p, u, prefix);
            && PoolMatchesLog(o.pool, log + SlotEvents(o), initial)
            && (o.lease.Some? <==> Complete(u))
            && (o.slot == None ==> o.lease == None && o.pool == p)
            && (o.slot.Some? ==>
                  var k := o.slot.value;
                  && SameElsewhere(p, o.pool, k) && IsFree(p, k) && k < |o.pool.slots|
                  && (o.pool.slots[k].inUse <==> o.lease.Some?)
                  && (o.lease.Some? ==>
                        && o.lease.value == Lease(true, k, |prefix + Joined(u.value.chain)|)
                        && o.pool.slots[k].buffer == prefix + Joined(u.value.chain)))
  {
    hide Acquire, Alternates, Out, Balance, Peak, Overwritten, Resized, PoolMatchesLog;
    LogIsWellFormed(p, log, initial);
    if !Rejected(u) {
      var a, payload := Acquire(p), Joined(u.value.chain);
      var total := |prefix| + u.value.fullLength;
      var start := a.pool.slots[a.slot].buffer;
      AcquireTouches(p);
      AcquireKeepsLog(p, log, initial);
      if |payload| == u.value.fullLength { FilledBytes(start, prefix, payload, total); }
      var buffer := Overwritten(Resized(start, total), 0, prefix + payload);
      FillKeepsLog(a.pool, log + [Took(a.slot)], initial, a.slot, buffer);
      var filled := a.pool.(slots := a.pool.slots[a.slot := Slot(buffer, true)]);
      if FlattenUnit(p, u, prefix).lease == None {
        TookIsOut(log, a.slot);
        ReleaseKeepsLog(filled, log + [Took(a.slot)], initial, a.slot);
        assert log + SlotEvents(FlattenUnit(p, u, prefix)) == log + [Took(a.slot)] + [Gave(a.slot)];
      } else {
        assert log + SlotEvents(FlattenUnit(p, u, prefix)) == log + [Took(a.slot)];
      }
    } else {
      assert log + [] == log;
    }
  }

  lemma LogIsWellFormed(p: Pool, log: seq<Event>, initial: nat)
    requires PoolMatchesLog(p, log, initial)
    ensures WellFormed(p)
  {}

  lemma TookIsOut(log: seq<Event>, k: nat)
    ensures Out(log + [Took(k)], k)
  {}

  ghost predicate LeasesOk(s: System) {
    && s.promised.Keys == s.leases.Keys
    && (forall id | id in s.leases :: LeaseOk(s, id))
    && Distinct(s.leases)
    && (forall i | 0 <= i < |s.pool.slots| && s.pool.slots[i].inUse :: Owned(s.leases, i))
  }

  lemma FlattenKeepsLeases(s: System, c: Call)
    requires c.CallFlatten? && WellFormed(s.pool) && LeasesOk(s) && Enabled(s, c)
    requires var o := FlattenUnit(s.pool, c.unit, c.prefix);
             && (o.slot == None ==> o.lease == None && o.pool == s.pool)
             && (o.slot.Some? ==>
                   var k := o.slot.value;
                   && SameElsewhere(s.pool, o.pool, k) && IsFree(s.pool, k) && k < |o.pool.slots|
                   && (o.pool.slots[k].inUse <==> o.lease.Some?)
                   && (o.lease.Some? ==>
                         && o.lease.value == Lease(true, k, |c.prefix + Joined(c.unit.value.chain)|)
                         && o.pool.slots[k].buffer == c.prefix + Joined(c.unit.value.chain)))
    ensures LeasesOk(Flattened(s, c))
  {
    hide FlattenUnit, WellFormed, Fits, Joined;
    var t := Flattened(s, c);
    forall id | id in s.leases ensures id in t.leases && LeaseOk(t, id) && t.leases[id] == s.leases[id] {
      assert LeaseOk(s, id);
    }
    forall i | 0 <= i < |t.pool.slots| && t.pool.slots[i].inUse ensures Owned(t.leases, i) {
      if i < |s.pool.slots| && s.pool.slots[i].inUse {
        assert Owned(s.leases, i);
        var id :| id in s.leases && s.leases[id].held && s.leases[id].slotIndex == i;
        assert t.leases[id] == s.leases[id];
      } else {
        assert t.leases[c.id].slotIndex == i;
      }
    }
  }

  /** Giving a lease's slot back and forgetting that lease leaves the others as they were. */
  lemma GiveBackKeepsLeases(s: System, id: nat)
    requires LeasesOk(s) && id in s.leases
    ensures LeasesOk(Put(GiveBack(s, id), id, NO_LEASE, []))
  {
    var t := Put(GiveBack(s, id), id, NO_LEASE, []);
    forall other | other in t.leases ensures LeaseOk(t, other) {
      assert LeaseOk(s, other) && LeaseOk(s, id);
    }
    forall i | 0 <= i < |t.pool.slots| && t.pool.slots[i].inUse ensures Owned(t.leases, i) {
      assert LeaseOk(s, id) && Owned(s.leases, i);
      var other :| other in s.leases && s.leases[other].held && s.leases[other].slotIndex == i;
      assert other != id && t.leases[other] == s.leases[other];
    }
  }

  /** Moving into an object that holds nothing. */
  lemma MoveKeepsLeases(s: System, from: nat, to: nat)
    requires LeasesOk(s) && from in s.leases && from != to && (to in s.leases ==> !s.leases[to].held)
    ensures LeasesOk(Move(s, from, to))
  {
    var t := Move(s, from, to);
    forall id | id in t.leases ensures LeaseOk(t, id) {
      assert LeaseOk(s, from);
      if id in s.leases { assert LeaseOk(s, id); }
    }
    forall i | 0 <= i < |t.pool.slots| && t.pool.slots[i].inUse ensures Owned(t.leases, i) {
      assert Owned(s.leases, i);
      var id :| id in s.leases && s.leases[id].held && s.leases[id].slotIndex == i;
      if id == from { assert t.leases[to] == s.leases[from]; } else { assert t.leases[id] == s.leases[id]; }
    }
  }

  lemma ForgetKeepsLeases(s: System, id: nat)
    requires LeasesOk(s) && id in s.leases && !s.leases[id].held
    ensures LeasesOk(s.(leases := s.leases - {id}, promised := s.promised - {id}))
  {
    var t := s.(leases := s.leases - {id}, promised := s.promised - {id});
    forall other | other in t.leases ensures LeaseOk(t, other) { assert LeaseOk(s, other); }
    forall i | 0 <= i < |t.pool.slots| && t.pool.slots[i].inUse ensures Owned(t.leases, i) {
      assert Owned(s.leases, i);
      var o :| o in s.leases && s.leases[o].held && s.leases[o].slotIndex == i;
      assert t.leases[o] == s.leases[o];
    }
  }

  lemma StepKeepsLeases(s: System, c: Call, initial: nat)
    requires Inv(s, initial) && Enabled(s, c)
    ensures LeasesOk(Step(s, c))
  {
    hide LeaseOk, Distinct, Owned, PoolMatchesLog, FlattenUnit, Fits, WellFormed;
    LogIsWellFormed(s.pool, s.log, initial);
    match c
    case CallFlatten(unit, prefix, id) =>
      FlattenFacts(s.pool, s.log, initial, unit, prefix);
      FlattenKeepsLeases(s, c);
    case CallDefault(id) => NothingKeepsLeases(s, id);
    case CallMoveConstruct(from, to) => MoveKeepsLeases(s, from, to);
    case CallMoveAssign(from, to) =>
      if from != to {
        GiveBackKeepsLeases(s, to);
        var t := Put(GiveBack(s, to), to, NO_LEASE, []);
        MoveKeepsLeases(t, from, to);
        SameMove(GiveBack(s, to), from, to);
      }
    case CallDestroy(id) =>
      GiveBackKeepsLeases(s, id);
      ForgetKeepsLeases(Put(GiveBack(s, id), id, NO_LEASE, []), id);
      SameForget(GiveBack(s, id), id);
  }

  lemma NothingKeepsLeases(s: System, id: nat)
    requires LeasesOk(s) && id !in s.leases
    ensures LeasesOk(Put(s, id, NO_LEASE, []))
  {
    var t := Put(s, id, NO_LEASE, []);
    forall other | other in t.leases ensures LeaseOk(t, other) {
      if other != id { assert LeaseOk(s, other); }
    }
    forall i | 0 <= i < |t.pool.slots| && t.pool.slots[i].inUse ensures Owned(t.leases, i) {
      assert Owned(s.leases, i);
      var o :| o in s.leases && s.leases[o].held && s.leases[o].slotIndex == i;
      assert t.leases[o] == s.leases[o];
    }
  }

  lemma SameMove(s: System, from: nat, to: nat)
    requires from in s.leases && from in s.promised && from != to
    ensures Move(Put(s, to, NO_LEASE, []), from, to) == Move(s, from, to)
  {
    assert s.leases[to := NO_LEASE][to := s.leases[from]] == s.leases[to := s.leases[from]];
    assert s.promised[to := []][to := s.promised[from]] == s.promised[to := s.promised[from]];
  }

  lemma SameForget(s: System, id: nat)
    ensures Put(s, id, NO_LEASE, []).leases - {id} == s.leases - {id}
    ensures Put(s, id, NO_LEASE, []).promised - {id} == s.promised - {id}
  {}

  lemma GiveBackKeepsLog(s: System, id: nat, initial: nat)
    requires Inv(s, initial) && id in s.leases
    ensures PoolMatchesLog(GiveBack(s, id).pool, GiveBack(s, id).log, initial)
  {
    if s.leases[id].held {
      assert LeaseOk(s, id);
      ReleaseKeepsLog(s.pool, s.log, initial, s.leases[id].slotIndex);
    }
  }

  lemma StepKeepsInv(s: System, c: Call, initial: nat)
    requires Inv(s, initial) && Enabled(s, c)
    ensures Inv(Step(s, c), initial)
  {
    hide LeaseOk, Distinct, Owned, PoolMatchesLog, FlattenUnit, Fits, WellFormed;
    StepKeepsLeases(s, c, initial);
    LogIsWellFormed(s.pool, s.log, initial);
    match c
    case CallFlatten(unit, prefix, _) =>
      FlattenFacts(s.pool, s.log, initial, unit, prefix);
      var o := FlattenUnit(s.pool, unit, prefix);
      var took := if o.slot.Some? then [Took(o.slot.value)] else [];
      var gave := if o.slot.Some? && o.lease == None then [Gave(o.slot.value)] else [];
      assert s.log + SlotEvents(o) == s.log + took + gave;
    case CallDefault(_) =>
    case CallMoveConstruct(_, _) =>
    case CallMoveAssign(from, to) => GiveBackKeepsLog(s, to, initial);
    case CallDestroy(id) => GiveBackKeepsLog(s, id, initial);
  }

  // -------------------------------------------------------------- runs

  ghost predicate IsRun(states: seq<System>, calls: seq<Call>, initial: nat) {
    && |states| == |calls| + 1
    && states[0].leases == map[] && states[0].promised == map[] && states[0].log == []
    && states[0].pool == Pool(seq(Max(1, initial), _ => Slot([], false)), 0)
    && forall k | 0 <= k < |calls| ::
         && WellFormed(states[k].pool) && states[k].promised.Keys == states[k].leases.Keys
         && Enabled(states[k], calls[k]) && states[k + 1] == Step(states[k], calls[k])
  }

  lemma StartIsInv(s: System, initial: nat)
    requires s.leases == map[] && s.promised == map[] && s.log == []
    requires s.pool == Pool(seq(Max(1, initial), _ => Slot([], false)), 0)
    ensures Inv(s, Max(1, initial))
  {
    NoneActive(s.pool.slots);
  }

  lemma {:induction false} NoneActive(slots: seq<Slot>)
    requires forall i | 0 <= i < |slots| :: !slots[i].inUse
    ensures ActiveLeases(slots) == 0
  {
    if slots != [] { NoneActive(slots[..|slots| - 1]); }
  }

  lemma {:induction false} RunKeepsInv(states: seq<System>, calls: seq<Call>, initial: nat, k: nat)
    requires IsRun(states, calls, initial) && k < |states|
    ensures Inv(states[k], Max(1, initial))
  {
    hide Inv, Step, Enabled, WellFormed;
    if k == 0 {
      StartIsInv(states[0], initial);
    } else {
      RunKeepsInv(states, calls, initial, k - 1);
      StepKeepsInv(states[k - 1], calls[k - 1], Max(1, initial));
    }
  }

  // --------------------------------------------------------- guarantees

  function HeldBelow(leases: map<nat, Lease>, k: nat): set<nat> {
    set id | id in leases && leases[id].held && leases[id].slotIndex < k
  }

  lemma OwnerIsNew(leases: map<nat, Lease>, k: nat, id: nat)
    requires Distinct(leases) && k > 0 && id in leases && leases[id].held && leases[id].slotIndex == k - 1
    ensures |HeldBelow(leases, k)| == |HeldBelow(leases, k - 1)| + 1
  {
    var below := HeldBelow(leases, k - 1);
    assert id !in below;
    assert HeldBelow(leases, k) == below + {id};
  }

  lemma NoOwner(leases: map<nat, Lease>, k: nat)
    requires k > 0 && forall id | id in leases && leases[id].held :: leases[id].slotIndex != k - 1
    ensures HeldBelow(leases, k) == HeldBelow(leases, k - 1)
  {}

  lemma OneMoreBelow(s: System, k: nat)
    requires LeasesOk(s) && 0 < k <= |s.pool.slots|
    ensures |HeldBelow(s.leases, k)| == |HeldBelow(s.leases, k - 1)| + Bit(s.pool.slots[k - 1])
  {
    hide View, HeldBelow, Distinct;
    if s.pool.slots[k - 1].inUse {
      assert Owned(s.leases, k - 1);
      var id :| id in s.leases && s.leases[id].held && s.leases[id].slotIndex == k - 1;
      OwnerIsNew(s.leases, k, id);
    } else {
      assert forall id | id in s.leases :: LeaseOk(s, id);
      NoOwner(s.leases, k);
    }
  }

  lemma {:induction false} HeldBelowCount(s: System, k: nat)
    requires LeasesOk(s) && k <= |s.pool.slots|
    ensures |HeldBelow(s.leases, k)| == ActiveLeases(s.pool.slots[..k])
  {
    hide LeasesOk, HeldBelow;
    if k == 0 {
      NothingBelowZero(s.leases);
    } else {
      HeldBelowCount(s, k - 1);
      OneMoreBelow(s, k);
      assert s.pool.slots[..k][..k - 1] == s.pool.slots[..k - 1];
    }
  }

  lemma NothingBelowZero(leases: map<nat, Lease>)
    ensures HeldBelow(leases, 0) == {}
  {}

  ghost function Held(leases: map<nat, Lease>): set<nat> { set id | id in leases && leases[id].held }

  /** The number of slots in use is the number of lease objects that hold one. */
  lemma InUseCountsLiveLeases(s: System, initial: nat)
    requires Inv(s, initial)
    ensures |Held(s.leases)| == ActiveLeases(s.pool.slots)
  {
    var n := |s.pool.slots|;
    HeldBelowCount(s, n);
    assert s.pool.slots[..n] == s.pool.slots;
    forall id | id in s.leases ensures LeaseOk(s, id) {}
    assert HeldBelow(s.leases, n) == Held(s.leases);
  }

  /** After any run: live leases hold distinct slots, each with its own bytes; the slots in use
      are as many as the live leases; the pool is as large as it first was or as the most slots
      ever out at once; and every acquisition was released at most once, exactly once if its
      slot is free now. */
  lemma PoolSafety(states: seq<System>, calls: seq<Call>, initial: nat, k: nat)
    requires IsRun(states, calls, initial) && k < |states|
    ensures var s := states[k];
            && Distinct(s.leases)
            && |Held(s.leases)| == ActiveLeases(s.pool.slots) == Balance(s.log)
            && |s.pool.slots| == Max(Max(1, initial), Peak(s.log))
            && Alternates(s.log)
            && (forall i: nat :: CountTook(s.log, i) - CountGave(s.log, i)
                                 == if i < |s.pool.slots| && s.pool.slots[i].inUse then 1 else 0)
  {
    hide LeaseOk, Owned, Step, IsRun, WellFormed, Enabled;
    RunKeepsInv(states, calls, initial, k);
    var s := states[k];
    InUseCountsLiveLeases(s, Max(1, initial));
    forall i: nat ensures CountTook(s.log, i) - CountGave(s.log, i) == if Out(s.log, i) then 1 else 0 {
      AlternatingBalances(s.log, i);
    }
  }

  /** flatten yields a lease exactly for a complete unit, viewing prefix then chain; otherwise
      every lease, and the number of slots in use, is what it was. */
  lemma FlattenYieldsTheUnit(s: System, c: Call, initial: nat)
    requires Inv(s, initial) && c.CallFlatten? && Enabled(s, c)
    ensures var t := Step(s, c);
            && (Complete(c.unit) ==>
                  && t.leases.Keys == s.leases.Keys + {c.id} && LeaseOk(t, c.id) && t.leases[c.id].held
                  && View(t.pool, t.leases[c.id]) == c.prefix + Joined(c.unit.value.chain)
                  && (forall a | a in s.leases && s.leases[a].held ::
                        s.leases[a].slotIndex != t.leases[c.id].slotIndex))
            && (!Complete(c.unit) ==>
                  t.leases == s.leases && ActiveLeases(t.pool.slots) == ActiveLeases(s.pool.slots))
  {
    hide FlattenUnit, Alternates, Out, Balance, Peak, Complete, Owned;
    var t := Step(s, c);
    FlattenFacts(s.pool, s.log, initial, c.unit, c.prefix);
    StepKeepsInv(s, c, initial);
    if Complete(c.unit) {
      assert LeaseOk(t, c.id);
      forall a | a in s.leases && s.leases[a].held ensures s.leases[a].slotIndex != t.leases[c.id].slotIndex {
        assert LeaseOk(s, a);
      }
    } else {
      assert t.leases == s.leases;
      InUseCountsLiveLeases(s, initial);
      InUseCountsLiveLeases(t, initial);
    }
  }

  predicate Touches(c: Call, id: nat) {
    match c
    case CallFlatten(_, _, other) => other == id
    case CallDefault(other) => other == id
    case CallMoveConstruct(from, to) => from == id || to == id
    case CallMoveAssign(from, to) => from != to && (from == id || to == id)
    case CallDestroy(other) => other == id
  }

  /** A lease object a call does not name keeps its slot and its bytes. */
  lemma OthersStay(s: System, c: Call, id: nat, initial: nat)
    requires Inv(s, initial) && Enabled(s, c) && id in s.leases && !Touches(c, id)
    ensures var t := Step(s, c);
            id in t.leases && t.leases[id] == s.leases[id] && LeaseOk(t, id) && LeaseOk(s, id)
            && View(t.pool, t.leases[id]) == View(s.pool, s.leases[id])
  {
    hide FlattenUnit, PoolMatchesLog, Owned, Distinct, Fits;
    LogIsWellFormed(s.pool, s.log, initial);
    StepKeepsInv(s, c, initial);
    assert LeaseOk(s, id) && LeaseOk(Step(s, c), id);
  }

  /** Over any stretch of a run in which no call names it, a lease's bytes never change. */
  lemma {:induction false} BytesAreStable(states: seq<System>, calls: seq<Call>, initial: nat, id: nat, i: nat, j: nat)
    requires IsRun(states, calls, initial) && i <= j < |states| && id in states[i].leases
    requires forall k | i <= k < j :: !Touches(calls[k], id)
    ensures id in states[j].leases && states[j].leases[id] == states[i].leases[id]
    ensures LeaseOk(states[i], id) && LeaseOk(states[j], id)
    ensures View(states[j].pool, states[j].leases[id]) == View(states[i].pool, states[i].leases[id])
    decreases j
  {
    hide PoolMatchesLog, Owned, Distinct, Step, Enabled, Touches, LeaseOk, View;
    RunKeepsInv(states, calls, initial, i);
    RunKeepsInv(states, calls, initial, j);
    LeaseFits(states[i], id, Max(1, initial));
    if i < j {
      BytesAreStable(states, calls, initial, id, i, j - 1);
      RunKeepsInv(states, calls, initial, j - 1);
      OthersStay(states[j - 1], calls[j - 1], id, Max(1, initial));
    }
  }

  lemma LeaseFits(s: System, id: nat, initial: nat)
    requires Inv(s, initial) && id in s.leases
    ensures LeaseOk(s, id)
    ensures s.leases[id].held ==>
              s.leases[id].slotIndex < |s.pool.slots|
              && s.leases[id].size <= |s.pool.slots[s.leases[id].slotIndex].buffer|
  {}

  /** A move carries slot and bytes to the new object and leaves the old one empty. */
  lemma MoveCarriesTheBytes(s: System, from: nat, to: nat, c: Call, initial: nat)
    requires Inv(s, initial) && Enabled(s, c) && from != to
    requires c == CallMoveConstruct(from, to) || c == CallMoveAssign(from, to)
    ensures var t := Step(s, c);
            && t.leases[to] == s.leases[from] && !t.leases[from].held
            && LeaseOk(t, to) && LeaseOk(s, from)
            && View(t.pool, t.leases[to]) == View(s.pool, s.leases[from])
  {
    hide PoolMatchesLog, Owned, Distinct;
    LogIsWellFormed(s.pool, s.log, initial);
    StepKeepsInv(s, c, initial);
    assert LeaseOk(s, from) && LeaseOk(Step(s, c), to);
  }
}
