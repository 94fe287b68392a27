/** Bits of a byte buffer, most significant first, and the reader that walks over them.
    The specification reads from a sequence of remaining bits. */
module BitStream {
  import opened Basics

  type bit = b: int | 0 <= b < 2

  function Power2(n: nat): (p: nat)
    ensures p > 0
  {
    if n == 0 then 1 else 2 * Power2(n - 1)
  }

  /** The lowest `count` binary digits of a number, most significant first. */
  function Bits(count: nat, value: nat): (r: seq<bit>)
    ensures |r| == count
  {
    if count == 0 then [] else Bits(count - 1, value / 2) + [value % 2]
  }

  function BitsOf(bytes: seq<byte>): (r: seq<bit>)
    ensures |r| == 8 * |bytes|
  {
    if bytes == [] then [] else Bits(8, bytes[0]) + BitsOf(bytes[1..])
  }

  /** Binary value, first bit most significant. */
  function Value(bits: seq<bit>): nat {
    if bits == [] then 0 else 2 * Value(bits[..|bits| - 1]) + bits[|bits| - 1]
  }

  /** A read that failed, or a value with the bits after it. */
  datatype Read<+T> = Fail | Got(value: T, rest: seq<bit>)

  function Take(bits: seq<bit>, count: int): Read<seq<bit>> {
    if count < 0 || count > |bits| then Fail else Got(bits[..count], bits[count..])
  }

  function Number(bits: seq<bit>, count: int): Read<nat> {
    if count < 0 || count > 32 || count > |bits| then Fail else Got(Value(bits[..count]), bits[count..])
  }

  /** The number of zeros before the first one bit. */
  function LeadingZeros(bits: seq<bit>): (n: nat)
    ensures n <= |bits|
    ensures forall i | 0 <= i < n :: bits[i] == 0
    ensures n < |bits| ==> bits[n] == 1
  {
    if bits == [] || bits[0] == 1 then 0 else 1 + LeadingZeros(bits[1..])
  }

  /** ue(v): at most 31 zeros, a one, and as many suffix bits. */
  function ExpGolomb(bits: seq<bit>): Read<nat> {
    var zeros := LeadingZeros(bits);
    if zeros > 31 || zeros == |bits| then Fail
    else
      match Number(bits[zeros + 1..], zeros)
      case Fail => Fail
      case Got(suffix, rest) => var v: nat := Power2(zeros) - 1 + suffix; Got(v, rest)
  }

  lemma {:induction false} ValueBound(bits: seq<bit>)
    ensures Value(bits) < Power2(|bits|)
  {
    if bits != [] {
      ValueBound(bits[..|bits| - 1]);
    }
  }

  lemma {:induction false} Power2Monotone(m: nat, n: nat)
    requires m <= n
    ensures Power2(m) <= Power2(n)
  {
    if m < n {
      Power2Monotone(m, n - 1);
    }
  }

  lemma Power2Of32()
    ensures Power2(32) == TWO_TO_THE_32 && Power2(31) == 0x8000_0000
  {
    assert Power2(8) == 256;
    assert Power2(12) == 0x1000;
    assert Power2(16) == 0x1_0000;
    assert Power2(20) == 0x10_0000;
    assert Power2(24) == 0x100_0000;
    assert Power2(28) == 0x1000_0000;
    assert Power2(31) == 0x8000_0000;
  }

  lemma MultipleAtLeast(p: int, d: int)
    requires p > 0
    ensures d >= 1 ==> p * d >= p
    ensures d <= -1 ==> p * d <= -p
  {}

  lemma QuotientIs(x: nat, p: nat, q: nat, r: nat)
    requires r < p && x == p * q + r
    ensures x / p == q
  {
    var d, m := x / p - q, x % p;
    assert x == p * (q + d) + m;
    assert p * d == r - m;
    MultipleAtLeast(p, d);
  }

  lemma TwiceProduct(p: nat, q: nat)
    ensures (2 * p) * q == 2 * (p * q)
  {}

  lemma HalfThenDivide(v: nat, p: nat)
    requires p > 0
    ensures v / 2 / p == v / (2 * p)
  {
    var half := v / 2;
    var q, r := half / p, half % p;
    assert half == p * q + r;
    TwiceProduct(p, q);
    QuotientIs(v, 2 * p, q, 2 * r + v % 2);
  }

  /** Digit j is what a shift right and a mask with one leave. */
  lemma {:induction false} BitIsShift(count: nat, value: nat, j: nat)
    requires j < count
    ensures Bits(count, value)[j] == value / Power2(count - 1 - j) % 2
  {
    if j < count - 1 {
      BitIsShift(count - 1, value / 2, j);
      HalfThenDivide(value, Power2(count - 2 - j));
    }
  }

  lemma {:induction false} BitInByte(bytes: seq<byte>, k: nat)
    requires k < 8 * |bytes|
    ensures BitsOf(bytes)[k] == Bits(8, bytes[k / 8])[k % 8]
  {
    if k >= 8 {
      BitInByte(bytes[1..], k - 8);
      assert (k - 8) / 8 == k / 8 - 1 && (k - 8) % 8 == k % 8;
    }
  }

  lemma BitAt(bytes: seq<byte>, k: nat)
    requires k < 8 * |bytes|
    ensures k / 8 < |bytes| && BitsOf(bytes)[k] == bytes[k / 8] / Power2(7 - k % 8) % 2
  {
    hide BitsOf, Bits, Power2;
    BitInByte(bytes, k);
    BitIsShift(8, bytes[k / 8], k % 8);
  }

  class BitReader {
    const bytes: seq<byte>
    var bitOffset: nat

    ghost predicate Valid()
      reads this
    {
      bitOffset <= 8 * |bytes|
    }

    /** The bits not read yet. */
    ghost function Rest(): seq<bit>
      reads this
      requires Valid()
    {
      BitsOf(bytes)[bitOffset..]
    }

    constructor (bytes: seq<byte>)
      ensures Valid() && Rest() == BitsOf(bytes) && this.bytes == bytes
    {
      this.bytes := bytes;
      bitOffset := 0;
    }

    /** Up to 32 bits as a uint32; a read past the end fails and moves nothing. */
    method ReadBits(count: int) returns (r: Option<nat>)
      requires Valid()
      modifies this
      ensures Valid()
      ensures match Number(old(Rest()), count)
              case Fail => r == None && Rest() == old(Rest())
              case Got(v, rest) => r == Some(v) && Rest() == rest && v < TWO_TO_THE_32
    {
      if count < 0 || count > 32 || bitOffset + count > |bytes| * 8 {
        return None;
      }
      hide Value, Power2, Bits, BitsOf;
      var value := 0;
      NoValue(old(Rest()));
      for index := 0 to count
        invariant bitOffset == old(bitOffset) + index
        invariant value == Value(old(Rest())[..index])
        invariant value < Power2(index)
      {
        BitAt(bytes, bitOffset);
        var b := bytes[bitOffset / 8] / Power2(7 - bitOffset % 8) % 2;
        assert b == old(Rest())[index];
        assert old(Rest())[..index + 1] == old(Rest())[..index] + [b as bit];
        ValueSnoc(old(Rest())[..index], b);
        FitsWord(value, b, index);
        value := (value * 2) % TWO_TO_THE_32 + b;
        bitOffset := bitOffset + 1;
      }
      Power2Monotone(count, 32);
      Power2Of32();
      return Some(value);
    }

    method Skip(count: int) returns (ok: bool)
      requires Valid()
      modifies this
      ensures Valid()
      ensures match Take(old(Rest()), count)
              case Fail => !ok && Rest() == old(Rest())
              case Got(_, rest) => ok && Rest() == rest
    {
      if count < 0 || bitOffset + count > |bytes| * 8 {
        return false;
      }
      bitOffset := bitOffset + count;
      return true;
    }

    method ReadUnsignedExpGolomb() returns (r: Option<nat>)
      requires Valid()
      modifies this
      ensures Valid()
      ensures match ExpGolomb(old(Rest()))
              case Fail => r == None
              case Got(v, rest) => r == Some(v) && Rest() == rest && v < TWO_TO_THE_32
    {
      hide Value, LeadingZeros, BitsOf, Power2;
      ghost var start := Rest();
      var leadingZeros := CountZeros();
      if leadingZeros.None? {
        return None;
      }
      ghost var n := leadingZeros.value;
      var suffix := ReadBits(leadingZeros.value);
      if suffix.None? {
        return None;
      }
      ValueBound(start[n + 1..][..n]);
      GolombFitsWord(n, suffix.value);
      return Some((Power2(leadingZeros.value) - 1 + suffix.value) % TWO_TO_THE_32);
    }

    /** Reads the zeros and the one bit that ends them. */
    method CountZeros() returns (r: Option<nat>)
      requires Valid()
      modifies this
      ensures Valid()
      ensures var zeros := LeadingZeros(old(Rest()));
              if zeros > 31 || zeros == |old(Rest())| then r == None
              else r == Some(zeros) && Rest() == old(Rest())[zeros + 1..]
    {
      var leadingZeros := 0;
      ghost var start := Rest();
      while true
        invariant Valid() && leadingZeros <= 31 && leadingZeros <= |start|
        invariant Rest() == start[leadingZeros..]
        invariant forall i | 0 <= i < leadingZeros :: start[i] == 0
        decreases 32 - leadingZeros
      {
        ghost var before := Rest();
        var b := ReadBits(1);
        if b.None? {
          ZerosAre(start, leadingZeros);
          return None;
        }
        OneBit(before);
        if b.value != 0 {
          break;
        }
        leadingZeros := leadingZeros + 1;
        if leadingZeros > 31 {
          ZerosAtLeast(start, leadingZeros);
          return None;
        }
      }
      ZerosAre(start, leadingZeros);
      return Some(leadingZeros);
    }
  }

  lemma NoValue(bits: seq<bit>)
    ensures Value(bits[..0]) == 0 < Power2(0)
  {}

  lemma ValueSnoc(bits: seq<bit>, b: bit)
    ensures Value(bits + [b]) == 2 * Value(bits) + b
  {
    assert (bits + [b])[..|bits|] == bits;
  }

  lemma OneBit(bits: seq<bit>)
    requires bits != []
    ensures Value(bits[..1]) == bits[0]
  {
    assert bits[..1][..0] == [];
  }

  lemma GolombFitsWord(zeros: nat, suffix: nat)
    requires zeros <= 31 && suffix < Power2(zeros)
    ensures (Power2(zeros) - 1 + suffix) % TWO_TO_THE_32 == Power2(zeros) - 1 + suffix
    ensures Power2(zeros) - 1 + suffix < TWO_TO_THE_32
  {
    hide Power2;
    Power2Monotone(zeros, 31);
    Power2Of32();
  }

  /** Shifting in one more bit below 32 never loses the top bit. */
  lemma FitsWord(value: nat, b: nat, index: nat)
    requires value < Power2(index) && b < 2 && index < 32
    ensures (value * 2) % TWO_TO_THE_32 == value * 2 && value * 2 + b < Power2(index + 1)
  {
    Power2Monotone(index + 1, 32);
    Power2Of32();
  }

  lemma {:induction false} ZerosAtLeast(bits: seq<bit>, n: nat)
    requires n <= |bits| && forall i | 0 <= i < n :: bits[i] == 0
    ensures LeadingZeros(bits) >= n
  {
    if n > 0 {
      ZerosAtLeast(bits[1..], n - 1);
    }
  }

  lemma ZerosAre(bits: seq<bit>, n: nat)
    requires n <= |bits| && forall i | 0 <= i < n :: bits[i] == 0
    requires n < |bits| ==> bits[n] == 1
    ensures LeadingZeros(bits) == n
  {
    ZerosAtLeast(bits, n);
  }
}
