/** What every run of the bridge keeps: slot structure, no stuck input, exact mouse ledgers. */
module BridgeInvariant {
  import opened Basics
  import opened GamepadProtocol
  import opened StickMapping
  import opened SequenceAccounting
  import opened BridgeState

  // --------------------------------------------------------------- removal

  lemma InitialInv()
    ensures Inv(Initial())
  {}

  lemma RemoveKeepsStructure(s: State, id: ControllerId)
    requires Structure(s)
    ensures Structure(Remove(s, id))
  {}

  lemma RemovalLedgers(s: State, id: ControllerId)
    requires Inv(s) && id in s.controllers
    ensures forall b :: (id, b) !in Remove(s, id).host.presses
    ensures forall other, b | other != id :: (other, b) in Remove(s, id).host.presses <==> (other, b) in s.host.presses
  {
    var c := s.controllers[id];
    assert Remove(s, id).host.presses == s.host.presses - By(id, c.simulated);
    assert MouseOk(c, Ledger(s.host, id));
    forall b | (id, b) in s.host.presses ensures b in c.simulated {
      assert b in Ledger(s.host, id);
    }
  }

  lemma RemovalHeld(s: State, id: ControllerId, h: HostButton)
    requires Inv(s) && id in s.controllers && h in Remove(s, id).host.held
    ensures exists other | other in s.controllers && other != id :: (other, Driver(h)) in s.host.presses
  {
    var c := s.controllers[id];
    assert h in s.host.held && h !in HostImage(c.simulated);
    var other :| other in s.controllers && (other, Driver(h)) in s.host.presses;
    assert MouseOk(c, Ledger(s.host, id));
    assert other == id ==> Driver(h) in Ledger(s.host, id);
  }

  /** Removing a controller releases everything it held and leaves its slot neutral. */
  lemma RemoveKeepsInv(s: State, id: ControllerId)
    requires Inv(s)
    ensures Inv(Remove(s, id))
    ensures Remove(s, id).controllers == s.controllers - {id}
    ensures Ledger(Remove(s, id).host, id) == {}
    ensures id in s.controllers ==> Remove(s, id).host.pads[s.controllers[id].slot] == NEUTRAL
  {
    RemoveKeepsStructure(s, id);
    hide Structure;
    if id in s.controllers {
      var s' := Remove(s, id);
      RemovalLedgers(s, id);
      forall other | other in s'.controllers ensures Ledger(s'.host, other) == Ledger(s.host, other) {}
      forall h | h in s'.host.held
        ensures exists other | other in s'.controllers :: (other, Driver(h)) in s'.host.presses
      {
        RemovalHeld(s, id, h);
      }
      RemovalPads(s, id);
    } else {
      assert forall b :: (id, b) !in s.host.presses;
    }
  }

  lemma RemovalPads(s: State, id: ControllerId)
    requires Inv(s) && id in s.controllers
    ensures var s' := Remove(s, id); forall i | 0 <= i < MAXIMUM_GAMEPADS ::
              (s'.slots[i].Some? ==>
                 s'.slots[i].value in s'.controllers && !s'.controllers[s'.slots[i].value].announced)
              ==> s'.host.pads[i] == NEUTRAL
  {
    hide Ledger, MouseOk;
    assert !s.active ==> !s.controllers[id].announced;
  }

  // ---------------------------------------------------- connect and announce

  lemma RegisterKeepsInv(s: State, m: Connected, slot: nat)
    requires Inv(s) && !s.closed && m.id !in s.controllers && m.id < TWO_TO_THE_32
    requires slot < MAXIMUM_GAMEPADS && s.slots[slot].None?
    ensures Inv(Register(s, m, slot))
  {
    var s' := Register(s, m, slot);
    RegisterKeepsStructure(s, m, slot);
    assert Ledger(s.host, m.id) == {};
    assert MouseOk(s'.controllers[m.id], Ledger(s.host, m.id));
    assert s'.host == s.host && s.host.pads[slot] == NEUTRAL;
    forall h | h in s.host.held
      ensures exists id | id in s'.controllers :: (id, Driver(h)) in s.host.presses
    {
      var id :| id in s.controllers && (id, Driver(h)) in s.host.presses;
      assert id in s'.controllers;
    }
  }

  lemma RegisterKeepsStructure(s: State, m: Connected, slot: nat)
    requires Structure(s) && !s.closed && m.id !in s.controllers && m.id < TWO_TO_THE_32
    requires slot < MAXIMUM_GAMEPADS && s.slots[slot].None?
    ensures Structure(Register(s, m, slot))
  {}

  lemma AnnounceKeepsInv(s: State, id: ControllerId, arrivalOk: bool)
    requires Inv(s) && id in s.controllers
    ensures Inv(Announce(s, id, arrivalOk))
  {
    var s' := Announce(s, id, arrivalOk);
    forall h | h in s.host.held
      ensures exists id | id in s'.controllers :: (id, Driver(h)) in s.host.presses
    {
      var other :| other in s.controllers && (other, Driver(h)) in s.host.presses;
      assert other in s'.controllers;
    }
  }

  lemma ConnectKeepsInv(s: State, m: Connected, arrivalOk: bool)
    requires Inv(s)
    ensures Inv(Connect(s, m, arrivalOk))
  {
    if WithinLimits(m) && !s.closed {
      RemoveKeepsInv(s, m.id);
      var s1 := Remove(s, m.id);
      var slot := LowestFree(s1.slots);
      if slot.Some? {
        RegisterKeepsInv(s1, m, slot.value);
        AnnounceKeepsInv(Register(s1, m, slot.value), m.id, arrivalOk);
      }
    }
  }

  /** A new controller takes the lowest slot that was free once its old registration was gone;
      with all sixteen taken by others nothing is registered. */
  lemma ConnectTakesLowestFreeSlot(s: State, m: Connected, arrivalOk: bool)
    requires Inv(s) && WithinLimits(m) && !s.closed
    ensures var s1, s' := Remove(s, m.id), Connect(s, m, arrivalOk);
            if m.id in s'.controllers then
              var slot := s'.controllers[m.id].slot;
              && s1.slots[slot].None? && (forall i | 0 <= i < slot :: s1.slots[i].Some?)
              && s'.slots == s1.slots[slot := Some(m.id)] && s'.mask == s1.mask + {slot}
              && s'.controllers - {m.id} == s1.controllers
              && s'.controllers[m.id].announced == (s.active && arrivalOk)
              && s'.controllers[m.id].diagnostics == FRESH && !s'.controllers[m.id].mouseMode
            else s' == s1 && forall i | 0 <= i < MAXIMUM_GAMEPADS :: s1.slots[i].Some?
  {
    RemoveKeepsInv(s, m.id);
    var s1 := Remove(s, m.id);
    assert |s1.slots| == MAXIMUM_GAMEPADS && s1.active == s.active;
    hide Structure, HostOk, Remove;
    var slot := LowestFree(s1.slots);
    if slot.Some? {
      var c := NewController(m, slot.value);
      AddThenDrop(s1.controllers, m.id, c, c.(announced := true));
    }
  }

  lemma AddThenDrop(controllers: map<ControllerId, Controller>, id: ControllerId, c: Controller, d: Controller)
    requires id !in controllers
    ensures controllers[id := c] - {id} == controllers && controllers[id := c][id := d] - {id} == controllers
  {}

  lemma AnnounceAllKeepsInv(s: State, arrivalOk: set<ControllerId>)
    requires Inv(s) && !s.active && !s.closed
    ensures Inv(SetActive(s, true, arrivalOk))
  {
    var s' := SetActive(s, true, arrivalOk);
    forall i | 0 <= i < MAXIMUM_GAMEPADS ensures s'.host.pads[i] == NEUTRAL {
      if s.slots[i].Some? {
        assert !s.controllers[s.slots[i].value].announced;
      }
    }
  }

  // -------------------------------------------------------------- clearing

  lemma EveryPressHasAPresser(s: State)
    requires Inv(s)
    ensures s.host.presses != {} || s.host.held != {} ==> s.controllers != map[]
  {
    if p :| p in s.host.presses {
      assert (p.0, p.1) in s.host.presses;
    }
  }

  lemma EmptyIsCleared(s: State)
    requires Inv(s) && s.controllers == map[]
    ensures s == Cleared(s)
    ensures s.mask == {} && s.host == QuietHost()
  {
    EveryPressHasAPresser(s);
    assert forall i | 0 <= i < MAXIMUM_GAMEPADS :: s.slots[i].None? && s.host.pads[i] == NEUTRAL;
    assert s.slots == NoSlots();
    assert s.host.pads == NeutralPads();
  }

  function RemoveEach(s: State, order: seq<ControllerId>): (r: State)
    requires SlotsInRange(s)
    ensures SlotsInRange(r)
    decreases |order|
  {
    if order == [] then s else RemoveEach(Remove(s, order[0]), order[1..])
  }

  /** Whatever order the hash map yields its controllers in, removing them all leaves a quiet
      host, free slots and an already zero mask. */
  lemma {:induction false} ClearedInAnyOrder(s: State, order: seq<ControllerId>)
    requires Inv(s)
    requires forall id | id in s.controllers :: id in order
    ensures RemoveEach(s, order) == Cleared(s)
    ensures RemoveEach(s, order).mask == {} && RemoveEach(s, order).host.held == {}
    decreases |order|
  {
    if order == [] {
      assert s.controllers == map[];
      EmptyIsCleared(s);
    } else {
      RemoveKeepsInv(s, order[0]);
      ClearedInAnyOrder(Remove(s, order[0]), order[1..]);
    }
  }

  lemma ClearedKeepsInv(s: State)
    requires Inv(s)
    ensures Inv(Cleared(s)) && Inv(Cleared(s).(active := false))
    ensures Inv(Cleared(s).(active := false, closed := true))
  {}

  // -------------------------------------------------------- gamepad states

  /** One accepted state keeps what may be held by its controller, and touches only that
      controller's presses and its own pad. */
  lemma AcceptKeepsMouseOk(c: Controller, m: StateMessage, at: int, host: Host, active: bool)
    requires c.slot < |host.pads| && MouseOk(c, Ledger(host, c.id))
    requires c.announced ==> active
    ensures var a := Accept(c, m, at, host, active);
            MouseOk(a.controller, Ledger(a.host, c.id))
            && a.controller.id == c.id && a.controller.slot == c.slot && a.controller.announced == c.announced
  {
    var a := Accept(c, m, at, host, active);
    var l := Ledger(host, c.id);
    if active && c.announced {
      if LongPressReleased(c, m, at) {
        assert Ledger(a.host, c.id) == (if c.mouseMode then l - c.simulated else l);
      } else if c.mouseMode {
        assert Ledger(a.host, c.id) == l + Rising(c, m) - Falling(c, m);
      } else {
        assert Ledger(a.host, c.id) == l;
      }
    } else {
      assert c.simulated == {};
      if LongPressReleased(c, m, at) && c.mouseMode {
        assert Ledger(a.host, c.id) == l - c.simulated;
      }
    }
  }

  lemma AcceptFrame(c: Controller, m: StateMessage, at: int, host: Host, active: bool)
    requires c.slot < |host.pads|
    ensures var a := Accept(c, m, at, host, active);
            && OnlyActsFor(host, a.host, c, active) && OnlyActsFor(host, a.host, a.controller, active)
            && a.controller.id == c.id && a.controller.slot == c.slot && a.controller.announced == c.announced
  {
    var a := Accept(c, m, at, host, active);
    if LongPressReleased(c, m, at) && c.mouseMode {
      assert a.host.presses == host.presses - By(c.id, c.simulated);
    } else if active && c.announced && c.mouseMode {
      assert a.host.presses == host.presses + By(c.id, Rising(c, m)) - By(c.id, Falling(c, m));
    }
  }

  lemma InputKeepsInv(s: State, m: StateMessage, at: int)
    requires Inv(s)
    ensures Inv(Input(s, m, at))
  {
    if WellFormed(m) && !s.closed && m.id in s.controllers {
      var c := s.controllers[m.id].(diagnostics := Hear(s.controllers[m.id].diagnostics, m.sequence));
      if IsStale(s.controllers[m.id].diagnostics, m.sequence) {
        UpdateKeepsInv(s, c, s.host);
      } else {
        AcceptKeepsMouseOk(c, m, at, s.host, s.active);
        AcceptFrame(c, m, at, s.host, s.active);
        var a := Accept(c, m, at, s.host, s.active);
        UpdateKeepsInv(s, a.controller, a.host);
      }
    }
  }

  /** Replacing one controller and letting the host follow it keeps the invariant. */
  lemma UpdateKeepsInv(s: State, c: Controller, h': Host)
    requires Inv(s) && c.id in s.controllers
    requires c.slot == s.controllers[c.id].slot && c.announced == s.controllers[c.id].announced
    requires MouseOk(c, Ledger(h', c.id))
    requires OnlyActsFor(s.host, h', c, s.active)
    ensures Inv(s.(controllers := s.controllers[c.id := c], host := h'))
  {
    UpdateKeepsStructure(s, c, h');
    UpdateKeepsLedgers(s, c, h');
    UpdateKeepsHeld(s, c, h');
    UpdateKeepsPads(s, c, h');
    hide OnlyActsFor, MouseOk;
  }

  lemma UpdateKeepsStructure(s: State, c: Controller, h': Host)
    requires Structure(s) && c.id in s.controllers && |h'.pads| == |s.host.pads|
    requires c.slot == s.controllers[c.id].slot && c.announced == s.controllers[c.id].announced
    ensures Structure(s.(controllers := s.controllers[c.id := c], host := h'))
  {}

  lemma UpdateKeepsPads(s: State, c: Controller, h': Host)
    requires Inv(s) && c.id in s.controllers && OnlyActsFor(s.host, h', c, s.active)
    requires c.slot == s.controllers[c.id].slot && c.announced == s.controllers[c.id].announced
    ensures var controllers := s.controllers[c.id := c];
            forall i | 0 <= i < MAXIMUM_GAMEPADS ::
              (s.slots[i].Some? ==> s.slots[i].value in controllers && !controllers[s.slots[i].value].announced)
              ==> h'.pads[i] == NEUTRAL
  {
    hide MouseOk, Ledger;
  }

  ghost predicate OnlyActsFor(h: Host, h': Host, c: Controller, active: bool) {
    && |h'.pads| == |h.pads|
    && (forall i | 0 <= i < |h.pads| && (i != c.slot || !(active && c.announced)) :: h'.pads[i] == h.pads[i])
    && (forall id, b | id != c.id :: (id, b) in h'.presses <==> (id, b) in h.presses)
    && (forall x | x in h'.held :: x in h.held || (c.id, Driver(x)) in h'.presses)
    && (forall x | x in h'.held && (c.id, Driver(x)) in h.presses :: (c.id, Driver(x)) in h'.presses)
  }

  lemma UpdateKeepsLedgers(s: State, c: Controller, h': Host)
    requires Inv(s) && c.id in s.controllers && OnlyActsFor(s.host, h', c, s.active)
    requires MouseOk(c, Ledger(h', c.id))
    ensures forall id, b | (id, b) in h'.presses :: id in s.controllers
    ensures forall id | id in s.controllers ::
              MouseOk(s.controllers[c.id := c][id], Ledger(h', id))
  {
    forall id | id in s.controllers && id != c.id ensures Ledger(h', id) == Ledger(s.host, id) {}
  }

  lemma UpdateKeepsHeld(s: State, c: Controller, h': Host)
    requires Inv(s) && c.id in s.controllers && OnlyActsFor(s.host, h', c, s.active)
    ensures forall h | h in h'.held :: exists id | id in s.controllers :: (id, Driver(h)) in h'.presses
  {
    forall h | h in h'.held
      ensures exists id | id in s.controllers :: (id, Driver(h)) in h'.presses
    {
      if h in s.host.held {
        var id :| id in s.controllers && (id, Driver(h)) in s.host.presses;
        assert (id, Driver(h)) in h'.presses;
      }
    }
  }

  // ------------------------------------------------------------------ runs

  datatype Event =
    | EConnect(connected: Connected, arrivalOk: bool)
    | EDisconnect(id: ControllerId)
    | EInput(message: StateMessage, at: int)
    | ESetActive(active: bool, arrivals: set<ControllerId>)
    | ETransportClosed
    | EShutdown
    | ERumble(slot: nat, low: nat, high: nat)
    | ETriggerRumble(slot: nat, left: nat, right: nat)

  function Step(s: State, e: Event): State
    requires Inv(s)
  {
    match e
    case EConnect(m, ok) => Connect(s, m, ok)
    case EDisconnect(id) => Disconnect(s, id)
    case EInput(m, at) => Input(s, m, at)
    case ESetActive(active, arrivals) => SetActive(s, active, arrivals)
    case ETransportClosed => TransportClosed(s)
    case EShutdown => Shutdown(s)
    case ERumble(slot, low, high) => Rumble(s, slot, low, high)
    case ETriggerRumble(slot, left, right) => TriggerRumble(s, slot, left, right)
  }

  lemma StepKeepsInv(s: State, e: Event)
    requires Inv(s)
    ensures Inv(Step(s, e))
  {
    hide HostOk, Remove, Register, Announce, Input, Cleared, AnnounceAll, Rumble, TriggerRumble;
    match e
    case EConnect(m, ok) => ConnectKeepsInv(s, m, ok);
    case EDisconnect(id) => RemoveKeepsInv(s, id);
    case EInput(m, at) => InputKeepsInv(s, m, at);
    case ESetActive(active, arrivals) =>
      if !s.closed && s.active != active {
        if active { AnnounceAllKeepsInv(s, arrivals); } else { ClearedKeepsInv(s); }
      }
    case ETransportClosed => ClearedKeepsInv(s);
    case EShutdown => ClearedKeepsInv(s);
    case ERumble(slot, low, high) => RumbleKeepsInv(s, slot, low, high);
    case ETriggerRumble(slot, left, right) => RumbleKeepsInv(s, slot, left, right);
  }

  /** A rumble for an occupied slot always finds its controller, and changes nothing else. */
  lemma RumbleKeepsInv(s: State, slot: nat, a: nat, b: nat)
    requires Inv(s)
    ensures Inv(Rumble(s, slot, a, b)) && Inv(TriggerRumble(s, slot, a, b))
    ensures slot < MAXIMUM_GAMEPADS && slot in s.mask ==>
              s.slots[slot].Some? && s.slots[slot].value in s.controllers
              && s.controllers[s.slots[slot].value].slot == slot
  {
    if slot < MAXIMUM_GAMEPADS && s.slots[slot].Some? {
      var c := s.controllers[s.slots[slot].value];
      UpdateKeepsInv(s, c.(strong := Magnitude(a), weak := Magnitude(b)), s.host);
      UpdateKeepsInv(s, c.(leftTriggerMotor := Magnitude(a), rightTriggerMotor := Magnitude(b)), s.host);
    }
  }

  ghost function Run(s: State, events: seq<Event>): (r: State)
    requires Inv(s)
    ensures Inv(r)
    decreases |events|
  {
    if events == [] then s
    else
      StepKeepsInv(s, events[0]);
      Run(Step(s, events[0]), events[1..])
  }

  lemma {:induction false} RunInParts(s: State, events0: seq<Event>, events1: seq<Event>)
    requires Inv(s)
    ensures Run(s, events0 + events1) == Run(Run(s, events0), events1)
    decreases |events0|
  {
    hide Inv, Step;
    if events0 == [] {
      assert events0 + events1 == events1;
    } else {
      StepKeepsInv(s, events0[0]);
      assert (events0 + events1)[1..] == events0[1..] + events1;
      RunInParts(Step(s, events0[0]), events0[1..], events1);
    }
  }

  // ----------------------------------------------- what other events spare

  /** A registration or a state of this controller. */
  ghost predicate IsAbout(e: Event, id: ControllerId) {
    match e
    case EConnect(m, _) => m.id == id && WithinLimits(m)
    case EInput(m, _) => m.id == id && WellFormed(m)
    case _ => false
  }

  /** The same registration, but for its motors and a first announcement. */
  ghost predicate SameRegistration(c: Controller, c': Controller) {
    && c' == c.(announced := c'.announced, strong := c'.strong, weak := c'.weak,
                leftTriggerMotor := c'.leftTriggerMotor, rightTriggerMotor := c'.rightTriggerMotor)
    && (c.announced ==> c'.announced)
  }

  ghost predicate Spared(s: State, s': State, id: ControllerId)
    requires SlotsInRange(s) && SlotsInRange(s')
  {
    && id in s.controllers && id in s'.controllers && SameRegistration(s.controllers[id], s'.controllers[id])
    && Ledger(s'.host, id) == Ledger(s.host, id)
    && s'.host.pads[s.controllers[id].slot] == s.host.pads[s.controllers[id].slot]
  }

  lemma RemoveSpares(s: State, gone: ControllerId, id: ControllerId)
    requires Inv(s) && id in s.controllers && id != gone
    ensures Inv(Remove(s, gone)) && Spared(s, Remove(s, gone), id)
  {
    RemoveKeepsInv(s, gone);
    hide HostOk;
    if gone in s.controllers {
      var c := s.controllers[gone];
      assert Remove(s, gone).host.presses == s.host.presses - By(gone, c.simulated);
      assert forall b :: (id, b) !in By(gone, c.simulated);
    }
  }

  lemma ConnectSpares(s: State, m: Connected, arrivalOk: bool, id: ControllerId)
    requires Inv(s) && id in Connect(s, m, arrivalOk).controllers && (id != m.id || !WithinLimits(m))
    ensures Inv(Connect(s, m, arrivalOk)) && Spared(s, Connect(s, m, arrivalOk), id)
  {
    ConnectKeepsInv(s, m, arrivalOk);
    if WithinLimits(m) && !s.closed {
      RemoveKeepsInv(s, m.id);
      assert id in Remove(s, m.id).controllers;
      RemoveSpares(s, m.id, id);
      hide HostOk, Remove;
    }
  }

  lemma UpdateSpares(s: State, c: Controller, h': Host, id: ControllerId)
    requires Structure(s) && c.id in s.controllers && id in s.controllers
    requires c.slot == s.controllers[c.id].slot && OnlyActsFor(s.host, h', c, s.active)
    requires id != c.id || (SameRegistration(s.controllers[id], c) && h' == s.host)
    ensures var s' := s.(controllers := s.controllers[c.id := c], host := h');
            SlotsInRange(s') && Spared(s, s', id)
  {}

  lemma InputSpares(s: State, m: StateMessage, at: int, id: ControllerId)
    requires Inv(s) && id in s.controllers && (id != m.id || !WellFormed(m))
    ensures Inv(Input(s, m, at)) && Spared(s, Input(s, m, at), id)
  {
    InputKeepsInv(s, m, at);
    hide HostOk, Accept;
    if WellFormed(m) && !s.closed && m.id in s.controllers {
      var c := s.controllers[m.id].(diagnostics := Hear(s.controllers[m.id].diagnostics, m.sequence));
      AcceptFrame(c, m, at, s.host, s.active);
      var a := Accept(c, m, at, s.host, s.active);
      if IsStale(s.controllers[m.id].diagnostics, m.sequence) {
        UpdateSpares(s, c, s.host, id);
      } else {
        UpdateSpares(s, a.controller, a.host, id);
      }
    }
  }

  lemma RumbleSpares(s: State, slot: nat, a: nat, b: nat, id: ControllerId)
    requires Inv(s) && id in s.controllers
    ensures Spared(s, Rumble(s, slot, a, b), id) && Spared(s, TriggerRumble(s, slot, a, b), id)
  {
    hide HostOk, Magnitude;
    if slot < MAXIMUM_GAMEPADS && s.slots[slot].Some? {
      var c := s.controllers[s.slots[slot].value];
      UpdateSpares(s, c.(strong := Magnitude(a), weak := Magnitude(b)), s.host, id);
      UpdateSpares(s, c.(leftTriggerMotor := Magnitude(a), rightTriggerMotor := Magnitude(b)), s.host, id);
    }
  }

  lemma SetActiveSpares(s: State, active: bool, arrivals: set<ControllerId>, id: ControllerId)
    requires Structure(s) && id in SetActive(s, active, arrivals).controllers
    ensures Structure(SetActive(s, active, arrivals)) && Spared(s, SetActive(s, active, arrivals), id)
  {}

  /** Every other event leaves a controller's registration, ledger and pad as they were. */
  lemma OtherEventsSpare(s: State, e: Event, id: ControllerId)
    requires Inv(s) && !IsAbout(e, id) && id in Step(s, e).controllers
    ensures Inv(Step(s, e)) && Spared(s, Step(s, e), id)
  {
    StepKeepsInv(s, e);
    hide HostOk, Remove, Register, Announce, Input, Rumble, TriggerRumble, AnnounceAll;
    match e
    case EConnect(m, ok) => ConnectSpares(s, m, ok, id);
    case EDisconnect(other) =>
      RemoveKeepsInv(s, other);
      if other != id { RemoveSpares(s, other, id); }
    case EInput(m, at) => InputSpares(s, m, at, id);
    case ESetActive(active, arrivals) => SetActiveSpares(s, active, arrivals, id);
    case ETransportClosed =>
    case EShutdown =>
    case ERumble(slot, low, high) => RumbleSpares(s, slot, low, high, id);
    case ETriggerRumble(slot, left, right) => RumbleSpares(s, slot, left, right, id);
  }
}
