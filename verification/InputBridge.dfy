/** MoonlightInputBridge: the bridge object whose methods update the controller map, the slot
    table and the mask in place. Every method is proved to move the abstract state exactly as
    the state machine of BridgeState does, so the lemmas about runs apply to it. The answers
    of the Limelight API and the clock are parameters; its effects are recorded in `host`. */
module InputBridge {
  import opened Basics
  import opened GamepadProtocol
  import opened StickMapping
  import opened SequenceAccounting
  import opened BridgeState
  import opened BridgeInvariant

  const MOUSE_BUTTONS: seq<Button> := [A, B, X, LeftBumper, RightBumper]

  ghost function FirstButtons(n: nat): Buttons
    requires n <= 5
  {
    set b | b in MOUSE_BUTTONS[..n]
  }

  lemma FirstButtonsStep(n: nat)
    requires n < 5
    ensures FirstButtons(n + 1) == FirstButtons(n) + {MOUSE_BUTTONS[n]}
    ensures MOUSE_BUTTONS[n] !in FirstButtons(n)
    ensures FirstButtons(0) == {} && FirstButtons(5) == MOUSE_BUTTON_MASK
  {
    assert MOUSE_BUTTONS[..n + 1] == MOUSE_BUTTONS[..n] + [MOUSE_BUTTONS[n]];
    assert MOUSE_BUTTONS[..5] == MOUSE_BUTTONS;
  }

  lemma ReleaseOneMore(h: Host, id: ControllerId, bs: Buttons, b: Button)
    ensures ReleaseAll(ReleaseAll(h, id, bs), id, {b}) == ReleaseAll(h, id, bs + {b})
    ensures ReleaseAll(h, id, {}) == h && PressAll(h, id, {}) == h
  {
    assert By(id, bs + {b}) == By(id, bs) + By(id, {b});
    assert HostImage(bs + {b}) == HostImage(bs) + HostImage({b});
    assert By(id, {}) == {} && HostImage({}) == {};
  }

  lemma PressOneMore(h: Host, id: ControllerId, up: Buttons, down: Buttons, b: Button)
    requires b !in down && b in MOUSE_BUTTON_MASK
    ensures PressAll(ReleaseAll(PressAll(h, id, up), id, down), id, {b})
         == ReleaseAll(PressAll(h, id, up + {b}), id, down)
  {
    assert By(id, up + {b}) == By(id, up) + By(id, {b});
    assert HostImage(up + {b}) == HostImage(up) + HostImage({b});
    assert By(id, {b}) !! By(id, down);
    assert HostImage({b}) !! HostImage(down);
  }

  lemma SameOtherwise(before: map<ControllerId, Controller>, after: map<ControllerId, Controller>,
                      id: ControllerId, c: Controller)
    requires before - {id} == after - {id}
    ensures after[id := c] == before[id := c]
  {
    forall k | k in before && k != id ensures k in after && after[k] == before[k] {
      assert k in before - {id} && (after - {id})[k] == after[k];
    }
    forall k | k in after && k != id ensures k in before {
      assert k in after - {id};
    }
  }

  /** Clearing the Start timer before or after a toggle comes to the same. */
  lemma ToggleBeforeTimer(c: Controller, m: StateMessage, host: Host, live: bool)
    requires c.slot < |host.pads|
    ensures var a, b := Toggle(c, m, host, live), Toggle(c.(startPressedAt := None), m, host, live);
            && b == Acted(a.controller.(startPressedAt := None), a.host) && |a.host.pads| == |host.pads|
            && a.controller.id == c.id && a.controller.slot == c.slot
  {}

  class MoonlightInputBridge {
    var controllers: map<ControllerId, Controller>
    const slotToController: array<Option<ControllerId>>
    var activeGamepadMask: set<nat>
    var moonlightSessionActive: bool
    var shutdown: bool
    ghost var host: Host

    ghost function Abs(): State
      reads this, slotToController
    {
      State(controllers, slotToController[..], activeGamepadMask, moonlightSessionActive, shutdown, host)
    }

    ghost predicate Valid()
      reads this, slotToController
    {
      Inv(Abs())
    }

    constructor ()
      ensures Valid() && Abs() == Initial() && fresh(slotToController)
    {
      controllers := map[];
      slotToController := new Option<ControllerId>[16](_ => None);
      activeGamepadMask := {};
      moonlightSessionActive := false;
      shutdown := false;
      host := QuietHost();
      new;
      assert slotToController[..] == NoSlots();
      InitialInv();
    }

    method ReleaseMouseButtons(id: ControllerId)
      requires id in controllers && controllers[id].simulated <= MOUSE_BUTTON_MASK
      modifies this`controllers, this`host
      ensures controllers == old(controllers)[id := old(controllers[id]).(simulated := {}, suppressed := {})]
      ensures host == ReleaseAll(old(host), id, old(controllers[id]).simulated)
    {
      hide ReleaseAll, PressAll, FirstButtons;
      var simulated := controllers[id].simulated;
      FirstButtonsStep(0);
      ReleaseOneMore(host, id, {}, A);
      assert simulated * FirstButtons(0) == {};
      for i := 0 to 5
        invariant controllers == old(controllers)
        invariant host == ReleaseAll(old(host), id, simulated * FirstButtons(i))
      {
        var b := MOUSE_BUTTONS[i];
        FirstButtonsStep(i);
        if b in simulated {
          ReleaseOneMore(old(host), id, simulated * FirstButtons(i), b);
          host := ReleaseAll(host, id, {b});
          assert simulated * FirstButtons(i + 1) == simulated * FirstButtons(i) + {b};
        } else {
          assert simulated * FirstButtons(i + 1) == simulated * FirstButtons(i);
        }
      }
      assert simulated * FirstButtons(5) == simulated;
      controllers := controllers[id := controllers[id].(simulated := {}, suppressed := {})];
    }

    /** Press and release edges of the five mouse buttons, one API call each. */
    method ForwardMouseEdges(id: ControllerId, effective: Buttons, previously: Buttons)
      modifies this`host
      ensures host == ReleaseAll(PressAll(old(host), id, (effective - previously) * MOUSE_BUTTON_MASK),
                                 id, (previously - effective) * MOUSE_BUTTON_MASK)
    {
      hide ReleaseAll, PressAll, FirstButtons;
      var up, down := effective - previously, previously - effective;
      FirstButtonsStep(0);
      ReleaseOneMore(host, id, {}, A);
      assert up * FirstButtons(0) == {} == down * FirstButtons(0);
      var i := 0;
      while i < 5
        invariant 0 <= i <= 5
        invariant host == ReleaseAll(PressAll(old(host), id, up * FirstButtons(i)), id, down * FirstButtons(i))
      {
        var b := MOUSE_BUTTONS[i];
        FirstButtonsStep(i);
        assert b in MOUSE_BUTTON_MASK;
        if b in effective && b !in previously {
          PressOneMore(old(host), id, up * FirstButtons(i), down * FirstButtons(i), b);
          host := PressAll(host, id, {b});
          assert up * FirstButtons(i + 1) == up * FirstButtons(i) + {b};
          assert down * FirstButtons(i + 1) == down * FirstButtons(i);
        } else if b !in effective && b in previously {
          ReleaseOneMore(PressAll(old(host), id, up * FirstButtons(i)), id, down * FirstButtons(i), b);
          host := ReleaseAll(host, id, {b});
          assert down * FirstButtons(i + 1) == down * FirstButtons(i) + {b};
          assert up * FirstButtons(i + 1) == up * FirstButtons(i);
        } else {
          assert up * FirstButtons(i + 1) == up * FirstButtons(i);
          assert down * FirstButtons(i + 1) == down * FirstButtons(i);
        }
        i := i + 1;
      }
    }

    method AllocateSlot() returns (slot: Option<nat>)
      ensures slot == LowestFree(slotToController[..])
    {
      var index := 0;
      while index < slotToController.Length
        invariant index <= slotToController.Length
        invariant forall i | 0 <= i < index :: slotToController[i].Some?
      {
        if slotToController[index].None? {
          return Some(index);
        }
        index := index + 1;
      }
      return None;
    }

    method AnnounceController(id: ControllerId, arrivalResult: int)
      requires id in controllers
      modifies this`controllers
      ensures Abs() == Announce(old(Abs()), id, arrivalResult == 0)
    {
      if !moonlightSessionActive || controllers[id].announced {
        return;
      }
      if arrivalResult == 0 {
        controllers := controllers[id := controllers[id].(announced := true)];
      }
    }

    /** The part of the invariant the locked helpers need of one controller. */
    ghost predicate Workable(id: ControllerId)
      reads this, slotToController
    {
      && SlotsInRange(Abs())
      && (id in controllers ==> controllers[id].id == id && controllers[id].simulated <= MOUSE_BUTTON_MASK)
    }

    lemma ValidIsWorkable(id: ControllerId)
      requires Valid()
      ensures Workable(id)
    {
      if id in controllers {
        assert MouseOk(controllers[id], Ledger(host, id));
      }
    }

    method NeutralizeAndRemove(id: ControllerId)
      requires Workable(id) && id in controllers
      modifies this`controllers, this`host, this`activeGamepadMask
      ensures controllers.Keys == old(controllers).Keys
      ensures controllers - {id} == old(controllers) - {id}
      ensures host == Remove(old(Abs()), id).host && activeGamepadMask == Remove(old(Abs()), id).mask
    {
      var slot := controllers[id].slot;
      ReleaseMouseButtons(id);
      var c := controllers[id];
      controllers := controllers[id := c.(mouseMode := false, strong := 0.0, weak := 0.0,
                                          leftTriggerMotor := 0.0, rightTriggerMotor := 0.0)];
      if moonlightSessionActive && c.announced {
        host := ShowPad(host, slot, NEUTRAL);
        activeGamepadMask := activeGamepadMask - {slot};
        host := ShowPad(host, slot, NEUTRAL);
      } else {
        activeGamepadMask := activeGamepadMask - {slot};
      }
      controllers := controllers[id := controllers[id].(announced := false)];
    }

    method RemoveControllerLocked(id: ControllerId)
      requires Workable(id)
      modifies this, slotToController
      ensures Abs() == Remove(old(Abs()), id)
    {
      if id !in controllers {
        return;
      }
      var slot := controllers[id].slot;
      NeutralizeAndRemove(id);
      slotToController[slot] := None;
      controllers := controllers - {id};
    }

    method RemoveController(id: ControllerId)
      requires Valid()
      modifies this, slotToController
      ensures Valid() && Abs() == Remove(old(Abs()), id)
    {
      RemoveKeepsInv(Abs(), id);
      ValidIsWorkable(id);
      RemoveControllerLocked(id);
    }

    /** Removes controllers in whatever order the map yields them; the mask is already empty
        before it is reset. */
    method ClearControllers()
      requires Valid()
      modifies this, slotToController
      ensures Valid() && Abs() == Cleared(old(Abs()))
    {
      while controllers != map[]
        invariant Valid()
        invariant moonlightSessionActive == old(moonlightSessionActive) && shutdown == old(shutdown)
        decreases controllers.Keys
      {
        var id :| id in controllers;
        RemoveController(id);
        assert id !in controllers;
      }
      EmptyIsCleared(Abs());
      assert activeGamepadMask == {};
      activeGamepadMask := {};
    }

    method RegisterLocked(m: Connected, arrivalResult: int) returns (accepted: bool)
      requires slotToController.Length == MAXIMUM_GAMEPADS
      modifies this, slotToController
      ensures var slot := LowestFree(old(slotToController[..]));
              && accepted == slot.Some?
              && Abs() == if slot.None? then old(Abs())
                          else Announce(Register(old(Abs()), m, slot.value), m.id, arrivalResult == 0)
    {
      var slot := AllocateSlot();
      if slot.None? {
        return false;
      }
      slotToController[slot.value] := Some(m.id);
      activeGamepadMask := activeGamepadMask + {slot.value};
      controllers := controllers[m.id := NewController(m, slot.value)];
      AnnounceController(m.id, arrivalResult);
      return true;
    }

    method HandleConnected(m: Connected, arrivalResult: int) returns (accepted: bool)
      requires Valid()
      modifies this, slotToController
      ensures Valid() && Abs() == Connect(old(Abs()), m, arrivalResult == 0)
      ensures accepted <==>
                && m.id < 0x1_0000_0000 && |m.name| <= 512 && |m.mapping| <= 128
                && m.buttonCount <= 64 && m.axisCount <= 16 && !old(shutdown) && m.id in controllers
    {
      ConnectKeepsInv(Abs(), m, arrivalResult == 0);
      if !WithinLimits(m) || shutdown {
        return false;
      }
      ConnectTakesLowestFreeSlot(Abs(), m, arrivalResult == 0);
      RemoveController(m.id);
      accepted := RegisterLocked(m, arrivalResult);
    }

    method HandleDisconnected(id: ControllerId) returns (existed: bool)
      requires Valid()
      modifies this, slotToController
      ensures Valid() && Abs() == Disconnect(old(Abs()), id)
      ensures existed <==> id < TWO_TO_THE_32 && !old(shutdown) && id in old(controllers)
    {
      if id >= TWO_TO_THE_32 || shutdown {
        return false;
      }
      existed := id in controllers;
      RemoveController(id);
    }

    method ToggleMouseMode(c: Controller, m: StateMessage, live: bool) returns (c': Controller)
      requires c.id in controllers && c.slot < |host.pads| && c.simulated <= MOUSE_BUTTON_MASK
      modifies this`controllers, this`host
      ensures Acted(c', host) == Toggle(c, m, old(host), live)
      ensures controllers - {c.id} == old(controllers) - {c.id}
    {
      c' := c;
      if !c.mouseMode && live {
        host := ShowPad(host, c.slot, ToPad(m));
      }
      controllers := controllers[c.id := c];
      if c.mouseMode {
        ReleaseMouseButtons(c.id);
        c' := controllers[c.id];
      }
      c' := c'.(mouseMode := !c.mouseMode);
      c' := c'.(suppressed := if c'.mouseMode then m.buttons * MOUSE_BUTTON_MASK else {});
    }

    method ForwardState(c: Controller, m: StateMessage, toggled: bool) returns (c': Controller)
      requires c.slot < |host.pads|
      modifies this`host
      ensures Acted(c', host) == Forward(c, m, old(host), toggled)
    {
      if c.mouseMode {
        var effective, previously := m.buttons - c.suppressed, c.previous - c.suppressed;
        if !toggled {
          ForwardMouseEdges(c.id, effective, previously);
        }
        c' := c.(suppressed := c.suppressed * m.buttons, simulated := effective * MOUSE_BUTTON_MASK);
      } else {
        host := ShowPad(host, c.slot, ToPad(m));
        c' := c;
      }
    }

    method AcceptState(heard: Controller, m: StateMessage, receivedAt: int)
      requires heard.id == m.id && m.id in controllers
      requires heard.slot < |host.pads| && heard.simulated <= MOUSE_BUTTON_MASK
      modifies this`controllers, this`host
      ensures var acted := Accept(heard, m, receivedAt, old(host), moonlightSessionActive);
              controllers == old(controllers)[m.id := acted.controller] && host == acted.host
    {
      hide Toggle, Forward, ToPad;
      var startPressed, startWasPressed := Start in m.buttons, Start in heard.previous;
      var c := heard.(latest := ToPad(m));
      if startPressed && !startWasPressed {
        c := c.(startPressedAt := Some(receivedAt));
      }
      var live := moonlightSessionActive && c.announced;
      var toggled := !startPressed && startWasPressed && c.startPressedAt.Some?
                     && receivedAt - c.startPressedAt.value > LONG_PRESS;
      if toggled {
        ToggleBeforeTimer(c, m, host, live);
        c := ToggleMouseMode(c, m, live);
      }
      if !startPressed {
        c := c.(startPressedAt := None);
      }
      if live {
        c := ForwardState(c, m, toggled);
      }
      c := c.(previous := m.buttons);
      SameOtherwise(old(controllers), controllers, m.id, c);
      controllers := controllers[m.id := c];
    }

    method HandleGamepadState(m: StateMessage, receivedAt: int) returns (accepted: bool)
      requires Valid()
      modifies this
      ensures Valid() && Abs() == Input(old(Abs()), m, receivedAt)
      ensures accepted <==>
                && m.id < 0x1_0000_0000 && m.sequence < 0x1_0000_0000_0000_0000 && m.timestamp >= 0.0
                && !old(shutdown) && m.id in old(controllers)
                && (old(controllers[m.id].diagnostics.last).Some? ==>
                      m.sequence > old(controllers[m.id].diagnostics.last).value)
    {
      InputKeepsInv(Abs(), m, receivedAt);
      ValidIsWorkable(m.id);
      if !WellFormed(m) || shutdown || m.id !in controllers {
        return false;
      }
      accepted := HandleStateLocked(m, receivedAt);
    }

    method HandleStateLocked(m: StateMessage, receivedAt: int) returns (accepted: bool)
      requires Workable(m.id) && WellFormed(m) && !shutdown && m.id in controllers
      modifies this
      ensures Abs() == Input(old(Abs()), m, receivedAt)
      ensures accepted <==> Accepts(old(Abs()), m)
    {
      var c := controllers[m.id];
      var heard := c.(diagnostics := Hear(c.diagnostics, m.sequence));
      if IsStale(c.diagnostics, m.sequence) {
        controllers := controllers[m.id := heard];
        return false;
      }
      AcceptState(heard, m, receivedAt);
      return true;
    }

    method AnnounceEveryController(arrivalResult: ControllerId -> int, ghost arrivals: set<ControllerId>)
      requires arrivals == set id | id in controllers && arrivalResult(id) == 0
      requires moonlightSessionActive
      modifies this`controllers
      ensures controllers == AnnounceAll(old(controllers), arrivals)
    {
      var todo := controllers.Keys;
      while todo != {}
        invariant todo <= controllers.Keys == old(controllers).Keys
        invariant forall id | id in controllers ::
                    controllers[id] == if id in todo then old(controllers)[id]
                                       else AnnounceAll(old(controllers), arrivals)[id]
        decreases todo
      {
        var id :| id in todo;
        AnnounceController(id, arrivalResult(id));
        todo := todo - {id};
      }
    }

    method SetMoonlightSessionActive(active: bool, arrivalResult: ControllerId -> int)
      requires Valid()
      modifies this, slotToController
      ensures Valid()
      ensures Abs() == SetActive(old(Abs()), active, set id | id in old(controllers) && arrivalResult(id) == 0)
    {
      if shutdown || moonlightSessionActive == active {
        return;
      }
      if active {
        ghost var arrivals := set id | id in controllers && arrivalResult(id) == 0;
        AnnounceAllKeepsInv(Abs(), arrivals);
        moonlightSessionActive := true;
        AnnounceEveryController(arrivalResult, arrivals);
      } else {
        ClearedKeepsInv(Abs());
        ClearControllers();
        moonlightSessionActive := false;
      }
    }

    method OnTransportClosed()
      requires Valid()
      modifies this, slotToController
      ensures Valid() && Abs() == TransportClosed(old(Abs()))
    {
      if !shutdown {
        ClearControllers();
      }
    }

    method ShutdownBridge()
      requires Valid()
      modifies this, slotToController
      ensures Valid() && Abs() == Shutdown(old(Abs()))
    {
      if shutdown {
        return;
      }
      ClearedKeepsInv(Abs());
      ClearControllers();
      moonlightSessionActive := false;
      shutdown := true;
    }

    method HandleRumble(controllerNumber: nat, low: nat, high: nat)
      requires Valid()
      modifies this`controllers
      ensures Valid() && Abs() == Rumble(old(Abs()), controllerNumber, low, high)
    {
      RumbleKeepsInv(Abs(), controllerNumber, low, high);
      if shutdown || controllerNumber >= slotToController.Length || slotToController[controllerNumber].None? {
        return;
      }
      var id := slotToController[controllerNumber].value;
      if !controllers[id].rumble {
        return;
      }
      controllers := controllers[id := controllers[id].(strong := Magnitude(low), weak := Magnitude(high))];
    }

    method HandleTriggerRumble(controllerNumber: nat, left: nat, right: nat)
      requires Valid()
      modifies this`controllers
      ensures Valid() && Abs() == TriggerRumble(old(Abs()), controllerNumber, left, right)
    {
      RumbleKeepsInv(Abs(), controllerNumber, left, right);
      if shutdown || controllerNumber >= slotToController.Length || slotToController[controllerNumber].None? {
        return;
      }
      var id := slotToController[controllerNumber].value;
      if !controllers[id].triggerRumble {
        return;
      }
      controllers := controllers[id := controllers[id].(leftTriggerMotor := Magnitude(left),
                                                        rightTriggerMotor := Magnitude(right))];
    }

    predicate Steers(id: ControllerId)
      reads this
      requires id in controllers
    {
      && moonlightSessionActive && controllers[id].announced && controllers[id].mouseMode
      && MouseDelta(controllers[id].latest) != (0, 0)
    }

    /** The worker's mouse tick: one movement for each live controller in mouse mode whose
        stick is off centre, and none for any other, with the controllers in the map's order. */
    method MouseTick() returns (movements: seq<(int, int)>, sources: seq<ControllerId>)
      ensures |movements| == |sources|
      ensures forall id :: id in sources <==> id in controllers && Steers(id)
      ensures forall i, j | 0 <= i < j < |sources| :: sources[i] != sources[j]
      ensures forall i | 0 <= i < |sources| :: movements[i] == MouseDelta(controllers[sources[i]].latest)
    {
      movements, sources := [], [];
      var todo := controllers.Keys;
      while todo != {}
        invariant todo <= controllers.Keys && |movements| == |sources|
        invariant forall id :: id in sources <==> id in controllers && id !in todo && Steers(id)
        invariant forall i, j | 0 <= i < j < |sources| :: sources[i] != sources[j]
        invariant forall i | 0 <= i < |sources| :: movements[i] == MouseDelta(controllers[sources[i]].latest)
        decreases todo
      {
        var id :| id in todo;
        todo := todo - {id};
        if moonlightSessionActive && controllers[id].announced && controllers[id].mouseMode {
          var delta := MouseDelta(controllers[id].latest);
          if delta.0 != 0 || delta.1 != 0 {
            movements, sources := movements + [delta], sources + [id];
          }
        }
      }
    }
  }
}
