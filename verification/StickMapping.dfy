/** Conversion of normalised stick and trigger values, and of stick deflection to
    mouse motion. Doubles are modelled as reals. */
module StickMapping {

  datatype Pad = Pad(buttons: set<GamepadProtocol.Button>, leftTrigger: int, rightTrigger: int,
                     leftStickX: int, leftStickY: int, rightStickX: int, rightStickY: int)

  import GamepadProtocol

  const NEUTRAL: Pad := Pad({}, 0, 0, 0, 0, 0, 0)

  /** C's lround: to the nearest integer, halves away from zero. */
  function Lround(x: real): int {
    if x >= 0.0 then (x + 0.5).Floor else -((-x + 0.5).Floor)
  }

  function Clamp(x: real, low: real, high: real): real
    requires low <= high
  {
    if x < low then low else if x > high then high else x
  }

  function MapTrigger(value: real): int {
    Lround(Clamp(value, 0.0, 1.0) * 255.0)
  }

  function MapStick(value: real, invert: bool): int {
    var clamped := Clamp(value, -1.0, 1.0);
    Lround((if invert then -clamped else clamped) * 32767.0)
  }

  function ToPad(m: GamepadProtocol.StateMessage): Pad {
    Pad(m.buttons, MapTrigger(m.leftTrigger), MapTrigger(m.rightTrigger),
        MapStick(m.leftStickX, false), MapStick(m.leftStickY, true),
        MapStick(m.rightStickX, false), MapStick(m.rightStickY, true))
  }

  // ------------------------------------------- what a pad says of a state

  /** The C standard's words for lround: within one half, halves away from zero. */
  ghost predicate IsRounded(n: int, x: real) {
    var d := n as real - x;
    -0.5 <= d <= 0.5 && (d == 0.5 ==> n > 0) && (d == -0.5 ==> n < 0)
  }

  lemma LroundIsRounded(x: real)
    ensures IsRounded(Lround(x), x)
  {}

  lemma RoundedIsUnique(m: int, n: int, x: real)
    requires IsRounded(m, x) && IsRounded(n, x)
    ensures m == n
  {}

  /** A trigger reads 0 at rest and 255 when pulled through, and is proportional between. */
  ghost predicate TriggerReads(n: int, value: real) {
    && (value <= 0.0 ==> n == 0) && (value >= 1.0 ==> n == 255)
    && (0.0 < value < 1.0 ==> IsRounded(n, value * 255.0))
  }

  /** A stick axis reads -32767 to 32767, and is proportional between. */
  ghost predicate StickReads(n: int, value: real) {
    && (value <= -1.0 ==> n == -32767) && (value >= 1.0 ==> n == 32767)
    && (-1.0 < value < 1.0 ==> IsRounded(n, value * 32767.0))
  }

  /** Control by control, the pad says what the state says; down is positive in a state and
      negative on a pad. */
  ghost predicate ShowsState(p: Pad, m: GamepadProtocol.StateMessage) {
    && p.buttons == m.buttons
    && TriggerReads(p.leftTrigger, m.leftTrigger) && TriggerReads(p.rightTrigger, m.rightTrigger)
    && StickReads(p.leftStickX, m.leftStickX) && StickReads(-p.leftStickY, m.leftStickY)
    && StickReads(p.rightStickX, m.rightStickX) && StickReads(-p.rightStickY, m.rightStickY)
  }

  lemma TriggerReadsMapped(value: real)
    ensures TriggerReads(MapTrigger(value), value)
  {
    LroundIsRounded(value * 255.0);
    LroundIsRounded(255.0);
  }

  lemma StickReadsMapped(value: real)
    ensures StickReads(MapStick(value, false), value) && StickReads(-MapStick(value, true), value)
  {
    LroundIsRounded(value * 32767.0);
    MapStickIsOddAndMonotone(value, value, false);
  }

  lemma PadShowsState(m: GamepadProtocol.StateMessage)
    ensures ShowsState(ToPad(m), m)
  {
    hide MapTrigger, MapStick, TriggerReads, StickReads;
    TriggerReadsMapped(m.leftTrigger);
    TriggerReadsMapped(m.rightTrigger);
    StickReadsMapped(m.leftStickX);
    StickReadsMapped(m.leftStickY);
    StickReadsMapped(m.rightStickX);
    StickReadsMapped(m.rightStickY);
  }

  lemma TriggerReadingIsUnique(a: int, b: int, value: real)
    requires TriggerReads(a, value) && TriggerReads(b, value)
    ensures a == b
  {
    if 0.0 < value < 1.0 { RoundedIsUnique(a, b, value * 255.0); }
  }

  lemma StickReadingIsUnique(a: int, b: int, value: real)
    requires StickReads(a, value) && StickReads(b, value)
    ensures a == b
  {
    if -1.0 < value < 1.0 { RoundedIsUnique(a, b, value * 32767.0); }
  }

  /** Each field follows its own control alone: states that agree on one control are shown by
      pads that agree on its field, whatever the other controls do. */
  lemma ControlsAreIndependent(p: Pad, m: GamepadProtocol.StateMessage, q: Pad, n: GamepadProtocol.StateMessage)
    requires ShowsState(p, m) && ShowsState(q, n)
    ensures m.buttons == n.buttons ==> p.buttons == q.buttons
    ensures m.leftTrigger == n.leftTrigger ==> p.leftTrigger == q.leftTrigger
    ensures m.rightTrigger == n.rightTrigger ==> p.rightTrigger == q.rightTrigger
    ensures m.leftStickX == n.leftStickX ==> p.leftStickX == q.leftStickX
    ensures m.leftStickY == n.leftStickY ==> p.leftStickY == q.leftStickY
    ensures m.rightStickX == n.rightStickX ==> p.rightStickX == q.rightStickX
    ensures m.rightStickY == n.rightStickY ==> p.rightStickY == q.rightStickY
  {
    hide TriggerReads, StickReads;
    if m.leftTrigger == n.leftTrigger { TriggerReadingIsUnique(p.leftTrigger, q.leftTrigger, m.leftTrigger); }
    if m.rightTrigger == n.rightTrigger { TriggerReadingIsUnique(p.rightTrigger, q.rightTrigger, m.rightTrigger); }
    if m.leftStickX == n.leftStickX { StickReadingIsUnique(p.leftStickX, q.leftStickX, m.leftStickX); }
    if m.leftStickY == n.leftStickY { StickReadingIsUnique(-p.leftStickY, -q.leftStickY, m.leftStickY); }
    if m.rightStickX == n.rightStickX { StickReadingIsUnique(p.rightStickX, q.rightStickX, m.rightStickX); }
    if m.rightStickY == n.rightStickY { StickReadingIsUnique(-p.rightStickY, -q.rightStickY, m.rightStickY); }
  }

  ghost predicate AtRest(m: GamepadProtocol.StateMessage) {
    && m.buttons == {} && m.leftTrigger == 0.0 == m.rightTrigger
    && m.leftStickX == 0.0 == m.leftStickY && m.rightStickX == 0.0 == m.rightStickY
  }

  /** The ends of every control, and the state at rest. */
  lemma EndsAreFixed(p: Pad, m: GamepadProtocol.StateMessage)
    requires ShowsState(p, m)
    ensures m.leftTrigger == 1.0 ==> p.leftTrigger == 255
    ensures m.rightTrigger == 1.0 ==> p.rightTrigger == 255
    ensures m.leftStickX == 1.0 ==> p.leftStickX == 32767
    ensures m.leftStickY == 1.0 ==> p.leftStickY == -32767
    ensures m.rightStickX == 1.0 ==> p.rightStickX == 32767
    ensures m.rightStickY == 1.0 ==> p.rightStickY == -32767
    ensures AtRest(m) ==> p == NEUTRAL == Pad({}, 0, 0, 0, 0, 0, 0)
  {}

  lemma LroundMonotone(x: real, y: real)
    requires x <= y
    ensures Lround(x) <= Lround(y)
  {
    if x < 0.0 <= y {
      assert -x + 0.5 >= 0.5;
    }
  }

  /** The stick map is odd, monotone, flips with its invert flag and fits int16. */
  lemma MapStickIsOddAndMonotone(x: real, y: real, invert: bool)
    ensures MapStick(-x, invert) == -MapStick(x, invert)
    ensures MapStick(x, true) == -MapStick(x, false)
    ensures x <= y ==> MapStick(x, false) <= MapStick(y, false)
    ensures -32767 <= MapStick(x, invert) <= 32767
  {
    var cx, cy := Clamp(x, -1.0, 1.0), Clamp(y, -1.0, 1.0);
    assert Clamp(-x, -1.0, 1.0) == -cx;
    assert (-cx) * 32767.0 == -(cx * 32767.0);
    if x <= y {
      LroundMonotone(cx * 32767.0, cy * 32767.0);
    }
    LroundMonotone(-32767.0, cx * 32767.0);
    LroundMonotone(cx * 32767.0, 32767.0);
  }

  lemma MapTriggerIsMonotone(x: real, y: real)
    ensures x <= y ==> MapTrigger(x) <= MapTrigger(y)
    ensures 0 <= MapTrigger(x) <= 255
  {
    var cx, cy := Clamp(x, 0.0, 1.0), Clamp(y, 0.0, 1.0);
    if x <= y {
      LroundMonotone(cx * 255.0, cy * 255.0);
    }
    LroundMonotone(0.0, cx * 255.0);
    LroundMonotone(cx * 255.0, 255.0);
  }

  /** Cubed deflection before the dead zone is taken off. */
  function Motion(raw: int): real {
    var s := raw as real / 32766.0 * 4.0;
    s * s * s
  }

  function Unclamped(raw: int): int {
    var delta := Motion(raw);
    Lround(if delta > 2.0 || delta < -2.0 then delta - 2.0 else 0.0)
  }

  function Accelerate(raw: int): int {
    var d := Unclamped(raw);
    if d < -32768 then -32768 else if d > 32767 then 32767 else d
  }

  function Abs(x: int): nat { if x < 0 then -x else x }

  function UseLeft(p: Pad): bool {
    Abs(p.leftStickX) + Abs(p.leftStickY) > Abs(p.rightStickX) + Abs(p.rightStickY)
  }

  /** Motion follows the stick that is deflected further; the vertical axis is inverted. */
  function MouseDelta(p: Pad): (int, int) {
    var rawX := if UseLeft(p) then p.leftStickX else p.rightStickX;
    var rawY := if UseLeft(p) then -p.leftStickY else -p.rightStickY;
    (Accelerate(rawX), Accelerate(rawY))
  }

  /** The state of the stick that is pushed further on the pad, the right one if equally far. */
  ghost function FurtherStick(p: Pad): (int, int) {
    var left := Abs(p.leftStickX) + Abs(p.leftStickY);
    var right := Abs(p.rightStickX) + Abs(p.rightStickY);
    if right >= left then (p.rightStickX, p.rightStickY) else (p.leftStickX, p.leftStickY)
  }

  /** Where the pointer goes: right and left with the further stick's x, up and down with its y,
      from a third of full deflection on, and faster to the left and up than back. */
  lemma PointerFollowsTheFurtherStick(p: Pad)
    requires -32767 <= p.leftStickX <= 32767 && -32767 <= p.leftStickY <= 32767
    requires -32767 <= p.rightStickX <= 32767 && -32767 <= p.rightStickY <= 32767
    ensures var (x, y) := FurtherStick(p);
            var (dx, dy) := MouseDelta(p);
            && (dx > 0 <==> x >= 11118) && (dx < 0 <==> x <= -10321)
            && (dy > 0 <==> y <= -11118) && (dy < 0 <==> y >= 10321)
            && (x == 32767 ==> dx == 62) && (x == -32767 ==> dx == -66)
            && (y == -32767 ==> dy == 62) && (y == 32767 ==> dy == -66)
  {
    hide Accelerate;
    var (x, y) := FurtherStick(p);
    Thresholds(x);
    Thresholds(-y);
  }

  lemma Thresholds(raw: int)
    requires -32767 <= raw <= 32767
    ensures Accelerate(raw) > 0 <==> raw >= 11118
    ensures Accelerate(raw) < 0 <==> raw <= -10321
    ensures Accelerate(32767) == 62 && Accelerate(-32767) == -66
  {
    hide Accelerate;
    AtTheThresholds();
    if raw >= 11118 {
      AccelerateIsMonotoneAndUnclamped(11118, raw);
    } else {
      AccelerateIsMonotoneAndUnclamped(raw, 11117);
    }
    if raw <= -10321 {
      AccelerateIsMonotoneAndUnclamped(raw, -10321);
    } else {
      AccelerateIsMonotoneAndUnclamped(-10320, raw);
    }
  }

  lemma AtTheThresholds()
    ensures Accelerate(11118) == 1 && Accelerate(11117) == 0
    ensures Accelerate(-10321) == -4 && Accelerate(-10320) == 0
    ensures Accelerate(32767) == 62 && Accelerate(-32767) == -66
  {}

  lemma CubeMonotone(x: real, y: real)
    requires x <= y
    ensures x * x * x <= y * y * y
  {
    var d := y - x;
    assert y * y * y - x * x * x == d * (y * y + x * y + x * x);
    assert y * y + x * y + x * x == ((x + y) * (x + y) + x * x + y * y) / 2.0;
    SquareNonNegative(x + y);
    SquareNonNegative(x);
    SquareNonNegative(y);
    NonNegativeProduct(d, y * y + x * y + x * x);
  }

  lemma SquareNonNegative(x: real)
    ensures x * x >= 0.0
  {}

  lemma NonNegativeProduct(x: real, y: real)
    requires x >= 0.0 && y >= 0.0
    ensures x * y >= 0.0
  {}

  lemma MotionMonotone(a: int, b: int)
    requires a <= b
    ensures Motion(a) <= Motion(b)
  {
    CubeMonotone(a as real / 32766.0 * 4.0, b as real / 32766.0 * 4.0);
  }

  /** Mouse motion is monotone in the raw coordinate of the chosen stick, and for every
      int16 coordinate and its negation the int16 clamp never binds. */
  lemma AccelerateIsMonotoneAndUnclamped(a: int, b: int)
    requires -32768 <= a <= b <= 32768
    ensures Accelerate(a) <= Accelerate(b)
    ensures Accelerate(a) == Unclamped(a) && -67 <= Accelerate(a) <= 63
  {
    UnclampedMonotone(a, b);
    UnclampedMonotone(-32768, a);
    UnclampedMonotone(a, 32768);
    Extremes();
    UnclampedMonotone(-32768, b);
    UnclampedMonotone(b, 32768);
  }

  lemma UnclampedMonotone(a: int, b: int)
    requires a <= b
    ensures Unclamped(a) <= Unclamped(b)
  {
    MotionMonotone(a, b);
    var da, db := Motion(a), Motion(b);
    LroundMonotone(if da > 2.0 || da < -2.0 then da - 2.0 else 0.0,
                   if db > 2.0 || db < -2.0 then db - 2.0 else 0.0);
  }

  lemma Extremes()
    ensures Unclamped(-32768) >= -67 && Unclamped(32768) <= 63
  {
    var s := 32768.0 / 32766.0 * 4.0;
    assert 4.0 <= s <= 4.001;
    assert s * s <= 16.009 by { assert s * s <= 4.001 * 4.001; }
    assert s * s * s <= 65.0;
    assert Motion(32768) == s * s * s;
    assert Motion(-32768) == -(s * s * s);
  }

  /** The map is not odd: the dead zone is subtracted for both signs, so a full
      deflection moves further towards the negative side. */
  lemma MouseMotionIsNotOdd()
    ensures Accelerate(32766) == 62 && Accelerate(-32766) == -66
  {
    assert Motion(32766) == 64.0;
    assert Motion(-32766) == -64.0;
  }

  lemma MotionIsOdd(raw: int)
    ensures Motion(-raw) == -Motion(raw)
  {
    var s := raw as real / 32766.0 * 4.0;
    assert (-raw) as real / 32766.0 * 4.0 == -s;
    assert (-s) * (-s) * (-s) == -(s * s * s);
  }

  lemma FloorPlusFour(x: real)
    ensures (x + 4.0).Floor == x.Floor + 4
  {}

  /** Beyond the dead zone a positive deflection loses two and a negative one gains two. */
  lemma OffsetsDiffer(d: real)
    requires d > 2.0
    ensures Lround(-d - 2.0) == -Lround(d - 2.0) - 4
  {
    FloorPlusFour(d - 2.0 + 0.5);
    assert -(-d - 2.0) + 0.5 == d - 2.0 + 0.5 + 4.0;
  }

  /** Exactly where mouse motion is odd: in the dead zone, where nothing moves. */
  lemma MouseMotionIsOddExactlyInDeadZone(raw: int)
    requires -32768 <= raw <= 32768
    ensures Accelerate(-raw) == -Accelerate(raw) <==> -2.0 <= Motion(raw) <= 2.0
  {
    MotionIsOdd(raw);
    AccelerateIsMonotoneAndUnclamped(raw, raw);
    AccelerateIsMonotoneAndUnclamped(-raw, -raw);
    if Motion(raw) > 2.0 {
      OffsetsDiffer(Motion(raw));
    } else if Motion(raw) < -2.0 {
      OffsetsDiffer(Motion(-raw));
    }
  }
}
