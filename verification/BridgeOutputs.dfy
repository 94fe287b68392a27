/** What the bridge tells the outside: mouse buttons to the host, magnitudes to the motors. */
module BridgeOutputs {
  import opened Basics
  import opened GamepadProtocol
  import opened SequenceAccounting
  import opened BridgeState
  import opened BridgeInvariant
  import opened BridgeGuarantees

  // ---------------------------------------------------------- mouse buttons

  /** The simulated mouse: A is the left button, B the right, X the middle one, the bumpers the
      two side buttons. */
  ghost predicate Drives(b: Button, h: HostButton) {
    || (b == A && h == Left) || (b == B && h == Right) || (b == X && h == Middle)
    || (b == LeftBumper && h == X1) || (b == RightBumper && h == X2)
  }

  lemma DriversAreFixed(b: Button, h: HostButton)
    ensures Drives(b, h) <==> Driver(h) == b
    ensures Drives(b, h) ==> b in MOUSE_BUTTON_MASK
  {}

  /** In mouse mode a button pressed by a state, and not suppressed, is held on the host after
      it, one let go is not, and every other mouse button is as it was. */
  lemma MouseEdgesReachTheHost(s: State, m: StateMessage, at: int, b: Button, h: HostButton)
    requires Inv(s) && Accepts(s, m) && Drives(b, h)
    requires s.controllers[m.id].mouseMode && s.controllers[m.id].announced
    requires InMouseMode(Input(s, m, at), m.id)
    ensures var c, s' := s.controllers[m.id], Input(s, m, at);
            if b !in c.suppressed && b in m.buttons && b !in c.previous then
              h in s'.host.held && (m.id, b) in s'.host.presses
            else if b !in c.suppressed && b in c.previous && b !in m.buttons then
              h !in s'.host.held && (m.id, b) !in s'.host.presses
            else
              && (h in s'.host.held <==> h in s.host.held)
              && ((m.id, b) in s'.host.presses <==> (m.id, b) in s.host.presses)
  {
    assert s.active;
    hide Structure, HostOk, MouseOk, Accept, PressAll, ReleaseAll, Driver, Drives;
    var c := s.controllers[m.id].(diagnostics := Hear(s.controllers[m.id].diagnostics, m.sequence));
    EdgesAreForwarded(c, m, at, s.host);
    DriversAreFixed(b, h);
    EdgeOnHost(s.host, m.id, Rising(c, m), Falling(c, m), b, h);
  }

  lemma EdgesAreForwarded(c: Controller, m: StateMessage, at: int, host: Host)
    requires c.slot < |host.pads| && c.mouseMode && c.announced
    ensures var a := Accept(c, m, at, host, true);
            a.controller.mouseMode ==> a.host == ReleaseAll(PressAll(host, c.id, Rising(c, m)), c.id, Falling(c, m))
  {
    hide PressAll, ReleaseAll;
  }

  lemma EdgeOnHost(host: Host, id: ControllerId, up: Buttons, down: Buttons, b: Button, h: HostButton)
    requires Drives(b, h)
    ensures var host' := ReleaseAll(PressAll(host, id, up), id, down);
            && (h in host'.held <==> (h in host.held || b in up) && b !in down)
            && ((id, b) in host'.presses <==> ((id, b) in host.presses || b in up) && b !in down)
  {
    DriversAreFixed(b, h);
  }

  /** The long press that ends mouse mode lets go of everything its controller held. */
  lemma LeavingLetsGo(s: State, m: StateMessage, at: int, b: Button, h: HostButton)
    requires Inv(s) && Accepts(s, m) && Drives(b, h)
    requires s.controllers[m.id].mouseMode && !InMouseMode(Input(s, m, at), m.id)
    ensures (m.id, b) in s.host.presses ==> h !in Input(s, m, at).host.held
    ensures (m.id, b) !in Input(s, m, at).host.presses
  {
    assert MouseOk(s.controllers[m.id], Ledger(s.host, m.id));
    hide Structure, HostOk;
    DriversAreFixed(b, h);
    assert (m.id, b) in s.host.presses ==> b in Ledger(s.host, m.id);
  }

  // ----------------------------------------------------------------- motors

  /** The low frequency motor is the strong one: a rumble sets the two magnitudes of the
      controller on that slot as shares of 65535, and nothing else of anybody. */
  lemma RumbleReachesItsMotors(s: State, slot: nat, low: nat, high: nat)
    requires Inv(s) && low <= 65535 && high <= 65535 && slot in s.mask
    ensures s.slots[slot].Some? && s.slots[slot].value in s.controllers
    ensures var id, s' := s.slots[slot].value, Rumble(s, slot, low, high);
            var c := s.controllers[id];
            && s' == s.(controllers := s'.controllers) && s'.controllers - {id} == s.controllers - {id}
            && id in s'.controllers
            && var c' := s'.controllers[id];
               c' == c.(strong := c'.strong, weak := c'.weak)
               && (if c.rumble then c'.strong * 65535.0 == low as real && c'.weak * 65535.0 == high as real
                   else c' == c)
  {
    hide HostOk;
  }

  /** A new controller's motors are still. */
  lemma NewMotorsAreStill(s: State, m: Connected, arrivalOk: bool)
    requires Inv(s) && WithinLimits(m) && m.id in Connect(s, m, arrivalOk).controllers
    ensures var c := Connect(s, m, arrivalOk).controllers[m.id];
            c.strong == 0.0 == c.weak && c.leftTriggerMotor == 0.0 == c.rightTriggerMotor
  {
    if !s.closed { RemoveKeepsInv(s, m.id); }
    hide HostOk, Remove;
  }

  /** And the trigger motors theirs, left and right. */
  lemma TriggerRumbleReachesItsMotors(s: State, slot: nat, left: nat, right: nat)
    requires Inv(s) && left <= 65535 && right <= 65535 && slot in s.mask
    ensures s.slots[slot].Some? && s.slots[slot].value in s.controllers
    ensures var id, s' := s.slots[slot].value, TriggerRumble(s, slot, left, right);
            var c := s.controllers[id];
            && s' == s.(controllers := s'.controllers) && s'.controllers - {id} == s.controllers - {id}
            && id in s'.controllers
            && var c' := s'.controllers[id];
               c' == c.(leftTriggerMotor := c'.leftTriggerMotor, rightTriggerMotor := c'.rightTriggerMotor)
               && (if c.triggerRumble then
                     c'.leftTriggerMotor * 65535.0 == left as real && c'.rightTriggerMotor * 65535.0 == right as real
                   else c' == c)
  {
    hide HostOk;
  }

  // ---------------------------------------------------------- announcements

  /** Whether the host took an arrival of this registration: when it was made during a session,
      or when the session began. */
  ghost function NoteArrival(s: State, e: Event, id: ControllerId, arrived: bool): bool
    requires Inv(s)
  {
    match e
    case EConnect(m, ok) => if m.id == id && WithinLimits(m) && !s.closed then s.active && ok else arrived
    case ESetActive(active, arrivals) => if active && !s.active && !s.closed then arrived || id in arrivals else arrived
    case _ => arrived
  }

  ghost function Arrived(s: State, events: seq<Event>, id: ControllerId, arrived: bool): bool
    requires Inv(s)
    decreases |events|
  {
    if events == [] then arrived
    else
      StepKeepsInv(s, events[0]);
      Arrived(Step(s, events[0]), events[1..], id, NoteArrival(s, events[0], id, arrived))
  }

  lemma StepAnnounces(s: State, e: Event, id: ControllerId, arrived: bool)
    requires Inv(s) && (id in s.controllers ==> s.controllers[id].announced == arrived)
    ensures var s' := Step(s, e);
            Inv(s') && (id in s'.controllers ==> s'.controllers[id].announced == NoteArrival(s, e, id, arrived))
  {
    StepKeepsInv(s, e);
    hide HostOk, Remove, Input, Connect, SetActive, Rumble, TriggerRumble;
    if id in Step(s, e).controllers {
      match e
      case EConnect(m, ok) => ConnectAnnounces(s, m, ok, id);
      case EDisconnect(other) => RemoveKeepsInv(s, other);
      case EInput(m, at) => InputKeepsAnnouncements(s, m, at, id);
      case ESetActive(active, arrivals) => SetActiveAnnounces(s, active, arrivals, id);
      case ERumble(slot, low, high) => RumbleKeepsAnnouncements(s, slot, low, high, id);
      case ETriggerRumble(slot, left, right) => RumbleKeepsAnnouncements(s, slot, left, right, id);
      case _ =>
    }
  }

  lemma SetActiveAnnounces(s: State, active: bool, arrivals: set<ControllerId>, id: ControllerId)
    requires Inv(s) && id in SetActive(s, active, arrivals).controllers
    ensures id in s.controllers
    ensures SetActive(s, active, arrivals).controllers[id].announced
         == (s.controllers[id].announced || (active && !s.active && !s.closed && id in arrivals))
  {
    hide HostOk;
  }

  lemma RumbleKeepsAnnouncements(s: State, slot: nat, a: nat, b: nat, id: ControllerId)
    requires Inv(s)
    ensures id in Rumble(s, slot, a, b).controllers ==>
              id in s.controllers && Rumble(s, slot, a, b).controllers[id].announced == s.controllers[id].announced
    ensures id in TriggerRumble(s, slot, a, b).controllers ==>
              id in s.controllers
              && TriggerRumble(s, slot, a, b).controllers[id].announced == s.controllers[id].announced
  {
    hide HostOk;
  }

  lemma ConnectAnnounces(s: State, m: Connected, ok: bool, id: ControllerId)
    requires Inv(s) && id in Connect(s, m, ok).controllers
    ensures if m.id == id && WithinLimits(m) && !s.closed
              then Connect(s, m, ok).controllers[id].announced == (s.active && ok)
            else id in s.controllers && Connect(s, m, ok).controllers[id].announced == s.controllers[id].announced
  {
    if m.id == id && WithinLimits(m) && !s.closed {
      ConnectTakesLowestFreeSlot(s, m, ok);
    } else if m.id != id || !WithinLimits(m) {
      hide HostOk, Structure, Connect, Remove;
      ConnectSparesAnnouncements(s, m, ok, id);
    }
  }

  lemma ConnectSparesAnnouncements(s: State, m: Connected, ok: bool, id: ControllerId)
    requires Inv(s) && id in Connect(s, m, ok).controllers && (m.id != id || !WithinLimits(m))
    ensures id in s.controllers && Connect(s, m, ok).controllers[id].announced == s.controllers[id].announced
  {
    if WithinLimits(m) && !s.closed {
      RemoveKeepsInv(s, m.id);
      ConnectTakesLowestFreeSlot(s, m, ok);
      hide HostOk, Structure, Remove, Connect;
      var s' := Connect(s, m, ok);
      if m.id in s'.controllers { assert (s'.controllers - {m.id})[id] == s'.controllers[id]; }
    }
  }

  lemma InputKeepsAnnouncements(s: State, m: StateMessage, at: int, id: ControllerId)
    requires Inv(s) && id in Input(s, m, at).controllers
    ensures id in s.controllers && Input(s, m, at).controllers[id].announced == s.controllers[id].announced
  {
    hide HostOk, Accept;
    if WellFormed(m) && !s.closed && m.id in s.controllers {
      var c := s.controllers[m.id].(diagnostics := Hear(s.controllers[m.id].diagnostics, m.sequence));
      AcceptFrame(c, m, at, s.host, s.active);
    }
  }

  lemma {:induction false} RunAnnounces(s: State, events: seq<Event>, id: ControllerId, arrived: bool)
    requires Inv(s) && (id in s.controllers ==> s.controllers[id].announced == arrived)
    ensures var s' := Run(s, events);
            id in s'.controllers ==> s'.controllers[id].announced == Arrived(s, events, id, arrived)
    decreases |events|
  {
    hide Inv, Step, NoteArrival;
    if events != [] {
      StepKeepsInv(s, events[0]);
      StepAnnounces(s, events[0], id, arrived);
      RunAnnounces(Step(s, events[0]), events[1..], id, NoteArrival(s, events[0], id, arrived));
    }
  }

  ghost function ArrivedFromStart(events: seq<Event>, id: ControllerId): bool {
    InitialInv();
    Arrived(Initial(), events, id, false)
  }

  /** After every run a controller counts as announced exactly when the host took an arrival of
      its registration. */
  lemma AnnouncedExactlyWhenArrived(events: seq<Event>, id: ControllerId)
    requires id in RunFromStart(events).controllers
    ensures RunFromStart(events).controllers[id].announced <==> ArrivedFromStart(events, id)
  {
    hide Inv;
    InitialInv();
    RunAnnounces(Initial(), events, id, false);
  }

  // ---------------------------------------------------------- the session

  ghost predicate ShutDown(events: seq<Event>) { EShutdown in events }

  /** The last switch of the session was to on. */
  ghost predicate SwitchedOn(events: seq<Event>) {
    if events == [] then false
    else
      match events[|events| - 1]
      case ESetActive(active, _) => active
      case _ => SwitchedOn(events[..|events| - 1])
  }

  lemma StepSwitches(s: State, e: Event)
    requires Inv(s) && (s.closed ==> !s.active)
    ensures var s' := Step(s, e);
            && s'.closed == (s.closed || e == EShutdown)
            && s'.active == (!s'.closed && if e.ESetActive? then e.active else s.active)
  {
    hide HostOk, Accept, LowestFree, ShowPad, ReleaseAll;
  }

  /** After every run the bridge is closed exactly when it was shut down, and its session is on
      exactly when the last switch was to on and it was not shut down. */
  lemma {:induction false} SessionFollowsItsSwitch(events: seq<Event>)
    ensures var s := RunFromStart(events);
            && (s.closed <==> ShutDown(events)) && (s.active <==> SwitchedOn(events) && !ShutDown(events))
  {
    hide Inv, Step;
    if events == [] {
      InitialInv();
    } else {
      var n := |events| - 1;
      SessionFollowsItsSwitch(events[..n]);
      OneMoreEvent(events[..n], events[n]);
      assert events == events[..n] + [events[n]];
      StepSwitches(RunFromStart(events[..n]), events[n]);
    }
  }
}
