/** A pool of byte buffers handed out under move-only leases. Calls are atomic. */
module FlatBufferPool {
  import opened Basics

  /** One link of a decode unit's buffer chain; the data pointer may be null. */
  datatype Entry = Entry(data: Option<seq<byte>>, length: int)

  /** The chain is empty exactly when the source's bufferList is null. */
  datatype DecodeUnit = DecodeUnit(chain: seq<Entry>, fullLength: int)

  datatype Slot = Slot(buffer: seq<byte>, inUse: bool)

  datatype Pool = Pool(slots: seq<Slot>, nextSlot: nat)

  /** A lease views the first `size` bytes of its slot; a lease that was moved from holds nothing. */
  datatype Lease = Lease(held: bool, slotIndex: nat, size: nat)

  const NO_LEASE := Lease(false, 0, 0)

  function MovedFrom(l: Lease): Lease { Lease(false, l.slotIndex, 0) }

  ghost predicate WellFormed(p: Pool) { p.slots != [] && p.nextSlot < |p.slots| }

  predicate Usable(e: Entry) { e.data.Some? && e.length > 0 }

  /** What memcpy needs of an entry: as many bytes as it declares. */
  ghost predicate Readable(e: Entry) { Usable(e) ==> e.length <= |e.data.value| }

  /** The bytes copied before the first unusable entry. */
  function Joined(chain: seq<Entry>): seq<byte>
    requires forall e | e in chain :: Readable(e)
  {
    if chain == [] || !Usable(chain[0]) then []
    else assert Readable(chain[0]); chain[0].data.value[..chain[0].length] + Joined(chain[1..])
  }

  /** What the source demands: readable entries that do not overrun the declared length. */
  ghost predicate Fits(u: Option<DecodeUnit>) {
    u.Some? ==> (forall e | e in u.value.chain :: Readable(e))
                && (u.value.fullLength > 0 ==> |Joined(u.value.chain)| <= u.value.fullLength)
  }

  predicate Rejected(u: Option<DecodeUnit>) {
    u == None || u.value.chain == [] || u.value.fullLength <= 0
  }

  /** The units that flatten: every entry usable, and exactly the declared number of bytes. */
  ghost predicate Complete(u: Option<DecodeUnit>)
    requires Fits(u)
  {
    && !Rejected(u) && (forall e | e in u.value.chain :: Usable(e))
    && |Joined(u.value.chain)| == u.value.fullLength
  }

  // ------------------------------------------------------- specification

  /** The first free slot in cyclic order from nextSlot, skipping the first i. */
  function Search(p: Pool, i: nat): (r: Option<nat>)
    requires i <= |p.slots|
    ensures r.Some? ==> r.value < |p.slots| && !p.slots[r.value].inUse
    decreases |p.slots| - i
  {
    if i == |p.slots| then None
    else
      var idx := (p.nextSlot + i) % |p.slots|;
      if !p.slots[idx].inUse then Some(idx) else Search(p, i + 1)
  }

  datatype Acquired = Acquired(pool: Pool, slot: nat)

  function Acquire(p: Pool): (r: Acquired)
    requires WellFormed(p)
    ensures WellFormed(r.pool) && r.slot < |r.pool.slots|
  {
    match Search(p, 0)
    case Some(idx) => Acquired(Pool(p.slots[idx := p.slots[idx].(inUse := true)], (idx + 1) % |p.slots|), idx)
    case None => Acquired(Pool(p.slots + [Slot([], true)], 0), |p.slots|)
  }

  function Release(p: Pool, slot: nat): (r: Pool)
    ensures WellFormed(p) ==> WellFormed(r)
  {
    if slot < |p.slots| then p.(slots := p.slots[slot := p.slots[slot].(inUse := false)]) else p
  }

  function Resized(buffer: seq<byte>, size: nat): (r: seq<byte>)
    ensures |r| == size
  {
    if |buffer| >= size then buffer[..size] else buffer + seq(size - |buffer|, _ => 0)
  }

  function Overwritten(buffer: seq<byte>, at: nat, bytes: seq<byte>): (r: seq<byte>)
    requires at + |bytes| <= |buffer|
    ensures |r| == |buffer|
  {
    buffer[..at] + bytes + buffer[at + |bytes|..]
  }

  datatype Outcome = Outcome(pool: Pool, lease: Option<Lease>, slot: Option<nat>)

  function FlattenUnit(p: Pool, u: Option<DecodeUnit>, prefix: seq<byte>): (r: Outcome)
    requires WellFormed(p) && Fits(u)
    ensures WellFormed(r.pool)
  {
    if Rejected(u) then Outcome(p, None, None)
    else
      var a := Acquire(p);
      var bytes := prefix + Joined(u.value.chain);
      var buffer := Overwritten(Resized(a.pool.slots[a.slot].buffer, |prefix| + u.value.fullLength), 0, bytes);
      var filled := a.pool.(slots := a.pool.slots[a.slot := Slot(buffer, true)]);
      if (forall e | e in u.value.chain :: Usable(e)) && |Joined(u.value.chain)| == u.value.fullLength then
        Outcome(filled, Some(Lease(true, a.slot, |buffer|)), Some(a.slot))
      else Outcome(Release(filled, a.slot), None, Some(a.slot))
  }

  function View(p: Pool, l: Lease): seq<byte>
    requires l.held ==> l.slotIndex < |p.slots| && l.size <= |p.slots[l.slotIndex].buffer|
  {
    if l.held then p.slots[l.slotIndex].buffer[..l.size] else []
  }

  function ActiveLeases(slots: seq<Slot>): (n: nat)
    ensures n <= |slots|
  {
    if slots == [] then 0
    else ActiveLeases(slots[..|slots| - 1]) + if slots[|slots| - 1].inUse then 1 else 0
  }

  // --------------------------------------------------------------- order

  function LengthBefore(chain: seq<Entry>, i: nat): int
    requires i <= |chain|
  {
    if i == 0 then 0 else LengthBefore(chain, i - 1) + chain[i - 1].length
  }

  lemma {:induction false} LengthBeforeLater(chain: seq<Entry>, i: nat)
    requires 0 < i <= |chain|
    ensures LengthBefore(chain, i) == chain[0].length + LengthBefore(chain[1..], i - 1)
  {
    if i > 1 { LengthBeforeLater(chain, i - 1); }
  }

  /** Byte j of entry i comes after all bytes of the entries before it. */
  lemma {:induction false} EntriesAreJoinedInOrder(chain: seq<Entry>, i: nat, j: nat)
    requires (forall e | e in chain :: Readable(e) && Usable(e)) && i < |chain|
    requires chain[i].data.Some? && j < chain[i].length <= |chain[i].data.value|
    ensures 0 <= LengthBefore(chain, i) + j < |Joined(chain)|
    ensures Joined(chain)[LengthBefore(chain, i) + j] == chain[i].data.value[j]
    decreases i
  {
    assert chain[0] in chain && chain[i] in chain && forall e | e in chain[1..] :: e in chain;
    if i > 0 {
      EntriesAreJoinedInOrder(chain[1..], i - 1, j);
      LengthBeforeLater(chain, i);
    }
  }

  // -------------------------------------------------------------- search

  /** The slot that is looked at after i others, going round from `next`. */
  function Turn(next: nat, n: nat, i: nat): (slot: nat)
    requires n > 0
    ensures slot < n
  {
    (next + i) % n
  }

  lemma SearchStep(p: Pool, i: nat)
    requires WellFormed(p) && i < |p.slots|
    ensures var slot := Turn(p.nextSlot, |p.slots|, i);
            Search(p, i) == if p.slots[slot].inUse then Search(p, i + 1) else Some(slot)
  {}

  /** The search goes round from nextSlot and stops at the first free slot. */
  lemma {:induction false} SearchIsFirst(p: Pool, i: nat) returns (k: nat)
    requires WellFormed(p) && i <= |p.slots| && Search(p, i).Some?
    ensures i <= k < |p.slots| && Search(p, i) == Some(Turn(p.nextSlot, |p.slots|, k))
    ensures forall j | i <= j < k :: p.slots[Turn(p.nextSlot, |p.slots|, j)].inUse
    decreases |p.slots| - i
  {
    hide Turn;
    k := i;
    if i < |p.slots| {
      SearchStep(p, i);
      if p.slots[Turn(p.nextSlot, |p.slots|, i)].inUse { k := SearchIsFirst(p, i + 1); }
    }
  }

  lemma ModuloOnce(a: nat, n: nat)
    requires 0 < n && a < 2 * n
    ensures a % n == if a < n then a else a - n
  {
    if a >= n {
      assert a == n * 1 + (a - n);
      assert (a - n) % n == a - n;
    }
  }

  lemma {:induction false} SearchSkipsOnlyUsed(p: Pool, i: nat, j: nat)
    requires WellFormed(p) && i <= j < |p.slots|
    requires Search(p, i) == None || !p.slots[(p.nextSlot + j) % |p.slots|].inUse
    ensures Search(p, i) == None ==> p.slots[(p.nextSlot + j) % |p.slots|].inUse
    decreases j - i
  {
    if i < j && p.slots[(p.nextSlot + i) % |p.slots|].inUse {
      SearchSkipsOnlyUsed(p, i + 1, j);
    }
  }

  /** The pool grows only when every slot is taken. */
  lemma NothingFreeMeansAllUsed(p: Pool, idx: nat)
    requires WellFormed(p) && Search(p, 0) == None && idx < |p.slots|
    ensures p.slots[idx].inUse
  {
    var j := if idx >= p.nextSlot then idx - p.nextSlot else idx + |p.slots| - p.nextSlot;
    ModuloOnce(p.nextSlot + j, |p.slots|);
    SearchSkipsOnlyUsed(p, 0, j);
  }

  /** Slots take turns: one that was just given back is not taken again while another is free. */
  lemma SlotsTakeTurns(p: Pool, other: nat)
    requires WellFormed(p)
    requires var a := Acquire(p); other < |a.pool.slots| && other != a.slot && !a.pool.slots[other].inUse
    ensures var a := Acquire(p); Acquire(Release(a.pool, a.slot)).slot != a.slot
  {
    hide Search, Turn;
    var a := Acquire(p);
    var q := Release(a.pool, a.slot);
    assert q.slots[other] == a.pool.slots[other];
    if Search(q, 0) == Some(a.slot) {
      var k := SearchIsFirst(q, 0);
      if Search(p, 0).Some? {
        NextIsAfter(a.slot, |q.slots|);
        var j := NextRound(a.slot, |q.slots|, k, other);
      } else {
        NothingFreeMeansAllUsed(p, other);
      }
    }
  }

  lemma NextIsAfter(slot: nat, n: nat)
    requires slot < n
    ensures (slot + 1) % n == if slot + 1 == n then 0 else slot + 1
  {}

  /** Going round from the slot after one, every other slot comes before it. */
  lemma NextRound(slot: nat, n: nat, k: nat, other: nat) returns (j: nat)
    requires slot < n && other < n && other != slot && k < n
    requires Turn(if slot + 1 == n then 0 else slot + 1, n, k) == slot
    ensures j < k && Turn(if slot + 1 == n then 0 else slot + 1, n, j) == other
  {
    var next := if slot + 1 == n then 0 else slot + 1;
    j := if other > slot then other - slot - 1 else other + n - slot - 1;
    ModuloOnce(next + k, n);
    ModuloOnce(next + j, n);
  }

  // ------------------------------------------------- the pool as it runs

  class FlatBufferPool {
    var slots: seq<Slot>
    var nextSlot: nat

    ghost function Abs(): Pool
      reads this
    {
      Pool(slots, nextSlot)
    }

    constructor (slotCount: nat)
      ensures WellFormed(Abs()) && nextSlot == 0
      ensures |slots| == (if slotCount < 1 then 1 else slotCount)
      ensures forall s | s in slots :: s == Slot([], false)
    {
      slots := seq(if slotCount < 1 then 1 else slotCount, _ => Slot([], false));
      nextSlot := 0;
    }

    method AcquireSlot() returns (acquiredIndex: nat)
      requires WellFormed(Abs())
      modifies this
      ensures Acquired(Abs(), acquiredIndex) == Acquire(old(Abs()))
    {
      var i := 0;
      while i < |slots|
        invariant i <= |slots| && Abs() == old(Abs())
        invariant Search(Abs(), i) == Search(Abs(), 0)
      {
        var idx := (nextSlot + i) % |slots|;
        if !slots[idx].inUse {
          slots := slots[idx := slots[idx].(inUse := true)];
          nextSlot := (idx + 1) % |slots|;
          return idx;
        }
        i := i + 1;
      }
      slots := slots + [Slot([], true)];
      nextSlot := 0;
      return |slots| - 1;
    }

    method Flatten(decodeUnit: Option<DecodeUnit>, prefix: seq<byte>) returns (r: Option<Lease>)
      requires WellFormed(Abs()) && Fits(decodeUnit)
      modifies this
      ensures var o := FlattenUnit(old(Abs()), decodeUnit, prefix);
              Abs() == o.pool && r == o.lease
    {
      if decodeUnit == None || decodeUnit.value.chain == [] || decodeUnit.value.fullLength <= 0 {
        return None;
      }
      var chain, fullLength := decodeUnit.value.chain, decodeUnit.value.fullLength;
      var totalBytes := |prefix| + fullLength;
      hide Acquire, Joined, Overwritten, Resized;
      var acquiredIndex := AcquireSlot();
      var buffer, copiedPayload, usable :=
        CopyChain(Resized(slots[acquiredIndex].buffer, totalBytes), prefix, chain);
      slots := slots[acquiredIndex := slots[acquiredIndex].(buffer := buffer)];
      if !usable {
        ReleaseSlot(acquiredIndex);
        return None;
      }
      if copiedPayload != fullLength {
        ReleaseSlot(acquiredIndex);
        return None;
      }
      return Some(Lease(true, acquiredIndex, totalBytes));
    }

    method ReleaseSlot(slotIndex: nat)
      modifies this
      ensures Abs() == Release(old(Abs()), slotIndex)
    {
      if slotIndex < |slots| {
        slots := slots[slotIndex := slots[slotIndex].(inUse := false)];
      }
    }

    method CountActive() returns (count: nat)
      ensures count == ActiveLeases(slots)
    {
      count := 0;
      for i := 0 to |slots|
        invariant count == ActiveLeases(slots[..i])
      {
        assert slots[..i + 1][..i] == slots[..i];
        if slots[i].inUse {
          count := count + 1;
        }
      }
      assert slots[..|slots|] == slots;
    }
  }

  class FlatBufferLease {
    var pool: FlatBufferPool?
    var slotIndex: nat
    var size: nat

    function Abs(): Lease
      reads this
    {
      Lease(pool != null, slotIndex, size)
    }

    ghost function Owner(): set<object>
      reads this
    {
      if pool == null then {} else {pool}
    }

    constructor (pool: FlatBufferPool?, slotIndex: nat, size: nat)
      ensures this.pool == pool && Abs() == Lease(pool != null, slotIndex, size)
    {
      this.pool, this.slotIndex, this.size := pool, slotIndex, size;
    }

    /** Move construction. */
    constructor MovedOutOf(other: FlatBufferLease)
      modifies other
      ensures pool == old(other.pool) && Abs() == old(other.Abs())
      ensures other.pool == null && other.Abs() == MovedFrom(old(other.Abs()))
    {
      pool, slotIndex, size := other.pool, other.slotIndex, other.size;
      new;
      other.pool := null;
      other.size := 0;
    }

    /** Move assignment: this lease's slot goes back first; assigning a lease to itself does nothing. */
    method MoveAssign(other: FlatBufferLease)
      modifies this, other, Owner()
      ensures this == other ==> Abs() == old(Abs()) && pool == old(pool)
      ensures this == other && pool != null ==> pool.Abs() == old(pool.Abs())
      ensures this != other ==> pool == old(other.pool) && Abs() == old(other.Abs())
                                && other.pool == null && other.Abs() == MovedFrom(old(other.Abs()))
      ensures this != other && old(pool) != null ==>
                old(pool).Abs() == Release(old(pool.Abs()), old(slotIndex))
    {
      if this != other {
        if pool != null {
          pool.ReleaseSlot(slotIndex);
        }
        pool, slotIndex, size := other.pool, other.slotIndex, other.size;
        other.pool := null;
        other.size := 0;
      }
    }

    /** The destructor's body. */
    method Destroy()
      modifies Owner()
      ensures pool != null ==> pool.Abs() == Release(old(pool.Abs()), slotIndex)
    {
      if pool != null {
        pool.ReleaseSlot(slotIndex);
      }
    }
  }

  /** Copies the prefix, then entry after entry until one is unusable. */
  method CopyChain(start: seq<byte>, prefix: seq<byte>, chain: seq<Entry>)
    returns (buffer: seq<byte>, copiedPayload: nat, usable: bool)
    requires forall e | e in chain :: Readable(e)
    requires |prefix| + |Joined(chain)| <= |start|
    ensures buffer == Overwritten(start, 0, prefix + Joined(chain)) && copiedPayload == |Joined(chain)|
    ensures usable <==> forall e | e in chain :: Usable(e)
  {
    buffer, copiedPayload := Overwritten(start, 0, prefix), 0;
    ghost var all := Joined(chain);
    assert chain[0..] == chain && prefix + all[..0] == prefix;
    for entry := 0 to |chain|
      invariant copiedPayload <= |all| && all[copiedPayload..] == Joined(chain[entry..])
      invariant buffer == Overwritten(start, 0, prefix + all[..copiedPayload])
      invariant forall k | 0 <= k < entry :: Usable(chain[k])
    {
      assert chain[entry..][0] == chain[entry] && chain[entry..][1..] == chain[entry + 1..];
      if chain[entry].data == None || chain[entry].length <= 0 {
        assert all[..copiedPayload] == all && !Usable(chain[entry]);
        return buffer, copiedPayload, false;
      }
      assert Readable(chain[entry]);
      var bytes := chain[entry].data.value[..chain[entry].length];
      NextBytes(all, copiedPayload, bytes, Joined(chain[entry + 1..]));
      WriteMore(start, prefix, all, copiedPayload, |bytes|);
      buffer := Overwritten(buffer, |prefix| + copiedPayload, bytes);
      copiedPayload := copiedPayload + |bytes|;
    }
    assert all[..copiedPayload] == all;
    return buffer, copiedPayload, true;
  }

  lemma NextBytes(all: seq<byte>, at: nat, bytes: seq<byte>, rest: seq<byte>)
    requires at <= |all| && all[at..] == bytes + rest
    ensures at + |bytes| <= |all| && all[at..at + |bytes|] == bytes && all[at + |bytes|..] == rest
  {
    assert |all[at..]| == |bytes| + |rest|;
    assert all[at..][..|bytes|] == bytes && all[at..][|bytes|..] == rest;
  }

  lemma WriteMore(start: seq<byte>, prefix: seq<byte>, all: seq<byte>, at: nat, length: nat)
    requires at + length <= |all| && |prefix| + |all| <= |start|
    ensures Overwritten(Overwritten(start, 0, prefix + all[..at]), |prefix| + at, all[at..at + length])
         == Overwritten(start, 0, prefix + all[..at + length])
  {
    assert all[..at] + all[at..at + length] == all[..at + length];
  }
}
