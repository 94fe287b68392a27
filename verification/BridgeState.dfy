/** The gateway's gamepad bridge as a state machine over values, together with the host it
    drives: which pad state every slot shows, which mouse buttons are held, and which
    controller pressed and has not yet released them. */
module BridgeState {
  import opened Basics
  import opened GamepadProtocol
  import opened StickMapping
  import opened SequenceAccounting

  // ---------------------------------------------------------------- the host

  datatype HostButton = Left | Right | Middle | X1 | X2

  /** The mouse button a protocol button simulates. */
  function ToHost(b: Button): HostButton
    requires b in MOUSE_BUTTON_MASK
  {
    match b
    case A => Left
    case B => Right
    case X => Middle
    case LeftBumper => X1
    case RightBumper => X2
  }

  /** The protocol button that drives a host mouse button. */
  function Driver(h: HostButton): (b: Button)
    ensures b in MOUSE_BUTTON_MASK && ToHost(b) == h
  {
    match h
    case Left => A
    case Right => B
    case Middle => X
    case X1 => LeftBumper
    case X2 => RightBumper
  }

  function HostImage(bs: Buttons): set<HostButton> { set h: HostButton | Driver(h) in bs }

  datatype Host = Host(pads: seq<Pad>, held: set<HostButton>, presses: set<(ControllerId, Button)>)

  function NeutralPads(): seq<Pad> { seq(MAXIMUM_GAMEPADS, _ => NEUTRAL) }

  function QuietHost(): Host { Host(NeutralPads(), {}, {}) }

  function ShowPad(h: Host, slot: nat, pad: Pad): Host
    requires slot < |h.pads|
  {
    h.(pads := h.pads[slot := pad])
  }

  function By(id: ControllerId, bs: Buttons): set<(ControllerId, Button)> { set b | b in bs :: (id, b) }

  function PressAll(h: Host, id: ControllerId, bs: Buttons): Host {
    h.(held := h.held + HostImage(bs), presses := h.presses + By(id, bs))
  }

  function ReleaseAll(h: Host, id: ControllerId, bs: Buttons): Host {
    h.(held := h.held - HostImage(bs), presses := h.presses - By(id, bs))
  }

  /** The buttons this controller has pressed on the host and not yet released. */
  function Ledger(h: Host, id: ControllerId): Buttons { set b: Button | (id, b) in h.presses }

  // ---------------------------------------------------------- bridge state

  datatype Controller = Controller(
    id: ControllerId, slot: nat, name: string, buttonCount: nat,
    rumble: bool, triggerRumble: bool, announced: bool, diagnostics: Diagnostics,
    latest: Pad, previous: Buttons, startPressedAt: Option<int>,
    mouseMode: bool, suppressed: Buttons, simulated: Buttons,
    strong: real, weak: real, leftTriggerMotor: real, rightTriggerMotor: real)

  /** The uint16 active-gamepad mask is the set of its bit positions. */
  datatype State = State(
    controllers: map<ControllerId, Controller>, slots: seq<Option<ControllerId>>, mask: set<nat>,
    active: bool, closed: bool, host: Host)

  function NoSlots(): seq<Option<ControllerId>> { seq(MAXIMUM_GAMEPADS, _ => None) }

  function Initial(): State { State(map[], NoSlots(), {}, false, false, QuietHost()) }

  /** Microseconds Start must be held longer than for its release to toggle mouse mode. */
  const LONG_PRESS: int := 750_000

  // ------------------------------------------------------------ operations

  /** The lowest slot without a controller, or None when all are occupied. */
  function LowestFree(slots: seq<Option<ControllerId>>): (r: Option<nat>)
    ensures r.Some? ==> r.value < |slots| && slots[r.value].None?
    ensures r.Some? ==> forall i | 0 <= i < r.value :: slots[i].Some?
    ensures r.None? ==> forall i | 0 <= i < |slots| :: slots[i].Some?
  {
    LowestFreeFrom(slots, 0)
  }

  function LowestFreeFrom(slots: seq<Option<ControllerId>>, from: nat): (r: Option<nat>)
    requires from <= |slots|
    ensures r.Some? ==> from <= r.value < |slots| && slots[r.value].None?
    ensures r.Some? ==> forall i | from <= i < r.value :: slots[i].Some?
    ensures r.None? ==> forall i | from <= i < |slots| :: slots[i].Some?
    decreases |slots| - from
  {
    if from == |slots| then None
    else if slots[from].None? then Some(from)
    else LowestFreeFrom(slots, from + 1)
  }

  ghost predicate SlotsInRange(s: State) {
    && |s.slots| == MAXIMUM_GAMEPADS && |s.host.pads| == MAXIMUM_GAMEPADS
    && forall id | id in s.controllers :: s.controllers[id].slot < MAXIMUM_GAMEPADS
  }

  function NewController(m: Connected, slot: nat): Controller {
    Controller(m.id, slot, m.name, m.buttonCount, m.dualRumble, m.triggerRumble, false, FRESH,
               NEUTRAL, {}, None, false, {}, {}, 0.0, 0.0, 0.0, 0.0)
  }

  /** Removal: release simulated buttons, neutralise an announced pad, free the slot. */
  function Remove(s: State, id: ControllerId): State
    requires SlotsInRange(s)
  {
    if id !in s.controllers then s
    else
      var c := s.controllers[id];
      var released := ReleaseAll(s.host, id, c.simulated);
      s.(controllers := s.controllers - {id},
         slots := s.slots[c.slot := None],
         mask := s.mask - {c.slot},
         host := if s.active && c.announced then ShowPad(released, c.slot, NEUTRAL) else released)
  }

  function Announce(s: State, id: ControllerId, arrivalOk: bool): State
    requires id in s.controllers
  {
    var c := s.controllers[id];
    if !s.active || c.announced || !arrivalOk then s
    else s.(controllers := s.controllers[id := c.(announced := true)])
  }

  function Register(s: State, m: Connected, slot: nat): State
    requires slot < |s.slots|
  {
    s.(controllers := s.controllers[m.id := NewController(m, slot)],
       slots := s.slots[slot := Some(m.id)],
       mask := s.mask + {slot})
  }

  /** An earlier registration of the same id is removed first; then the lowest free slot is taken. */
  function Connect(s: State, m: Connected, arrivalOk: bool): State
    requires SlotsInRange(s)
  {
    if !WithinLimits(m) || s.closed then s
    else
      var s1 := Remove(s, m.id);
      var slot := LowestFree(s1.slots);
      if slot.None? then s1
      else Announce(Register(s1, m, slot.value), m.id, arrivalOk)
  }

  function Disconnect(s: State, id: ControllerId): State
    requires SlotsInRange(s)
  {
    if id >= TWO_TO_THE_32 || s.closed then s else Remove(s, id)
  }

  /** Removing every controller: what clearControllersLocked leaves in any order (ClearedInAnyOrder). */
  function Cleared(s: State): State {
    State(map[], NoSlots(), {}, s.active, s.closed, QuietHost())
  }

  function AnnounceAll(controllers: map<ControllerId, Controller>, arrivalOk: set<ControllerId>)
    : map<ControllerId, Controller>
  {
    map id | id in controllers ::
      controllers[id].(announced := controllers[id].announced || id in arrivalOk)
  }

  function SetActive(s: State, active: bool, arrivalOk: set<ControllerId>): State {
    if s.closed || s.active == active then s
    else if active then
      s.(active := true, controllers := AnnounceAll(s.controllers, arrivalOk))
    else Cleared(s).(active := false)
  }

  function TransportClosed(s: State): State { if s.closed then s else Cleared(s) }

  function Shutdown(s: State): State {
    if s.closed then s else Cleared(s).(active := false, closed := true)
  }

  // --------------------------------------------------------- gamepad states

  predicate LongPressReleased(c: Controller, m: StateMessage, at: int) {
    && Start !in m.buttons && Start in c.previous
    && c.startPressedAt.Some? && at - c.startPressedAt.value > LONG_PRESS
  }

  function StartTimer(c: Controller, m: StateMessage, at: int): Option<int> {
    if Start !in m.buttons then None
    else if Start !in c.previous then Some(at)
    else c.startPressedAt
  }

  /** A controller together with the host it has acted on. */
  datatype Acted = Acted(controller: Controller, host: Host)

  /** The mouse-mode toggle on a long Start press, before the state itself is forwarded. */
  function Toggle(c: Controller, m: StateMessage, host: Host, live: bool): Acted
    requires c.slot < |host.pads|
  {
    if c.mouseMode then
      Acted(c.(mouseMode := false, suppressed := {}, simulated := {}), ReleaseAll(host, c.id, c.simulated))
    else
      Acted(c.(mouseMode := true, suppressed := m.buttons * MOUSE_BUTTON_MASK),
            if live then ShowPad(host, c.slot, ToPad(m)) else host)
  }

  /** Mouse-button edges of the unsuppressed buttons. */
  function Rising(c: Controller, m: StateMessage): Buttons {
    ((m.buttons - c.suppressed) - (c.previous - c.suppressed)) * MOUSE_BUTTON_MASK
  }

  function Falling(c: Controller, m: StateMessage): Buttons {
    ((c.previous - c.suppressed) - (m.buttons - c.suppressed)) * MOUSE_BUTTON_MASK
  }

  /** What an accepted state does to a live controller: mouse edges or a pad state. */
  function Forward(c: Controller, m: StateMessage, host: Host, toggled: bool): Acted
    requires c.slot < |host.pads|
  {
    if c.mouseMode then
      Acted(c.(suppressed := c.suppressed * m.buttons,
               simulated := (m.buttons - c.suppressed) * MOUSE_BUTTON_MASK),
            if toggled then host
            else ReleaseAll(PressAll(host, c.id, Rising(c, m)), c.id, Falling(c, m)))
    else Acted(c, ShowPad(host, c.slot, ToPad(m)))
  }

  function Accept(c: Controller, m: StateMessage, at: int, host: Host, active: bool): Acted
    requires c.slot < |host.pads|
  {
    var live := active && c.announced;
    var toggled := LongPressReleased(c, m, at);
    var c0 := c.(latest := ToPad(m), startPressedAt := StartTimer(c, m, at));
    var a1 := if toggled then Toggle(c0, m, host, live) else Acted(c0, host);
    var a2 := if live then Forward(a1.controller, m, a1.host, toggled) else a1;
    Acted(a2.controller.(previous := m.buttons), a2.host)
  }

  predicate Accepts(s: State, m: StateMessage) {
    && WellFormed(m) && !s.closed && m.id in s.controllers
    && !IsStale(s.controllers[m.id].diagnostics, m.sequence)
  }

  function Input(s: State, m: StateMessage, at: int): State
    requires SlotsInRange(s)
  {
    if !WellFormed(m) || s.closed || m.id !in s.controllers then s
    else
      var c := s.controllers[m.id];
      var heard := c.(diagnostics := Hear(c.diagnostics, m.sequence));
      if IsStale(c.diagnostics, m.sequence) then s.(controllers := s.controllers[m.id := heard])
      else
        var acted := Accept(heard, m, at, s.host, s.active);
        s.(controllers := s.controllers[m.id := acted.controller], host := acted.host)
  }

  function Magnitude(motor: nat): real { (if motor < 65535 then motor else 65535) as real / 65535.0 }

  function Rumble(s: State, slot: nat, low: nat, high: nat): State
    requires SlotsInRange(s)
    requires slot < 16 && s.slots[slot].Some? ==> s.slots[slot].value in s.controllers
  {
    if s.closed || slot >= 16 || s.slots[slot].None? then s
    else
      var c := s.controllers[s.slots[slot].value];
      if !c.rumble then s
      else s.(controllers := s.controllers[s.slots[slot].value :=
                c.(strong := Magnitude(low), weak := Magnitude(high))])
  }

  function TriggerRumble(s: State, slot: nat, left: nat, right: nat): State
    requires SlotsInRange(s)
    requires slot < 16 && s.slots[slot].Some? ==> s.slots[slot].value in s.controllers
  {
    if s.closed || slot >= 16 || s.slots[slot].None? then s
    else
      var c := s.controllers[s.slots[slot].value];
      if !c.triggerRumble then s
      else s.(controllers := s.controllers[s.slots[slot].value :=
                c.(leftTriggerMotor := Magnitude(left), rightTriggerMotor := Magnitude(right))])
  }

  // -------------------------------------------------------------- invariant

  /** controllers and slots are mutually inverse, the mask mirrors the slots, and only an
      active session has announced controllers. */
  ghost predicate Structure(s: State) {
    && SlotsInRange(s)
    && (forall id | id in s.controllers ::
          s.controllers[id].id == id < TWO_TO_THE_32 && s.slots[s.controllers[id].slot] == Some(id))
    && (forall i | 0 <= i < MAXIMUM_GAMEPADS ::
          s.slots[i].Some? ==> s.slots[i].value in s.controllers && s.controllers[s.slots[i].value].slot == i)
    && (forall i | i in s.mask :: i < MAXIMUM_GAMEPADS)
    && (forall i | 0 <= i < MAXIMUM_GAMEPADS :: i in s.mask <==> s.slots[i].Some?)
    && (forall id | id in s.controllers :: s.controllers[id].announced ==> s.active)
    && (s.closed ==> s.controllers == map[])
  }

  /** What one controller's mouse fields may be, given the buttons it still holds on the host. */
  ghost predicate MouseOk(c: Controller, ledger: Buttons) {
    && ledger <= c.simulated <= c.previous * MOUSE_BUTTON_MASK - c.suppressed
    && c.suppressed <= MOUSE_BUTTON_MASK
    && (c.simulated != {} ==> c.announced && c.mouseMode)
    && (!c.mouseMode ==> c.suppressed == {})
  }

  /** Pads without an announced controller are neutral; everything held is in some ledger. */
  ghost predicate HostOk(s: State)
    requires SlotsInRange(s)
  {
    && (forall i | 0 <= i < MAXIMUM_GAMEPADS ::
          (s.slots[i].Some? ==> s.slots[i].value in s.controllers && !s.controllers[s.slots[i].value].announced)
          ==> s.host.pads[i] == NEUTRAL)
    && (forall id, b | (id, b) in s.host.presses :: id in s.controllers)
    && (forall id | id in s.controllers :: MouseOk(s.controllers[id], Ledger(s.host, id)))
    && (forall h | h in s.host.held :: exists id | id in s.controllers :: (id, Driver(h)) in s.host.presses)
  }

  ghost predicate Inv(s: State) { Structure(s) && HostOk(s) }
}
