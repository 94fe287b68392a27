/** The bridge's promises over whole runs, derived from the step invariant. */
module BridgeGuarantees {
  import opened Basics
  import opened GamepadProtocol
  import opened StickMapping
  import opened SequenceAccounting
  import opened BridgeState
  import opened BridgeInvariant

  // -------------------------------------------------------- no stuck input

  ghost function RunFromStart(events: seq<Event>): (s: State)
    ensures Inv(s)
  {
    InitialInv();
    Run(Initial(), events)
  }

  /** Every held mouse button is simulated by a live controller, a pad that is not neutral belongs
      to an announced one, and ending the session, losing the transport or shutting down leaves the host quiet. */
  lemma NoStuckInput(events: seq<Event>)
    ensures var s := RunFromStart(events);
            && (forall h | h in s.host.held ::
                  exists id | id in s.controllers :: Driver(h) in s.controllers[id].simulated)
            && (forall i | 0 <= i < MAXIMUM_GAMEPADS && s.host.pads[i] != NEUTRAL ::
                  s.slots[i].Some? && s.slots[i].value in s.controllers && s.controllers[s.slots[i].value].announced)
            && (s.closed ==> s.host == QuietHost() && s.mask == {})
            && TransportClosed(s).host == QuietHost() && Shutdown(s).host == QuietHost()
            && SetActive(s, false, {}).controllers == (if s.active then map[] else s.controllers)
            && (s.active ==> SetActive(s, false, {}).host == QuietHost())
  {
    var s := RunFromStart(events);
    forall h | h in s.host.held
      ensures exists id | id in s.controllers :: Driver(h) in s.controllers[id].simulated
    {
      var id :| id in s.controllers && (id, Driver(h)) in s.host.presses;
      assert Driver(h) in Ledger(s.host, id);
      assert Ledger(s.host, id) <= s.controllers[id].simulated;
    }
    if s.closed {
      EmptyIsCleared(s);
    }
  }

  /** In every reachable state the controllers and the slots are mutually inverse, the mask is
      exactly the set of taken slots, and announced controllers belong to an active session. */
  lemma SlotsAndControllersAgree(events: seq<Event>, id: ControllerId, slot: nat)
    requires slot < MAXIMUM_GAMEPADS
    ensures var s := RunFromStart(events);
            && ((id in s.controllers && s.controllers[id].slot == slot) <==> s.slots[slot] == Some(id))
            && (slot in s.mask <==> exists other | other in s.controllers :: s.controllers[other].slot == slot)
            && (id in s.controllers && s.controllers[id].announced ==> s.active)
            && |s.controllers| <= MAXIMUM_GAMEPADS
  {
    var s := RunFromStart(events);
    if slot in s.mask {
      assert s.slots[slot].value in s.controllers;
    }
    AtMostSixteen(s);
  }

  lemma AtMostSixteen(s: State)
    requires Structure(s)
    ensures |s.controllers| <= MAXIMUM_GAMEPADS
  {
    SlotsBoundCount(s.controllers, s.controllers.Keys, MAXIMUM_GAMEPADS);
  }

  /** Controllers on distinct slots below n number at most n. */
  lemma {:induction false} SlotsBoundCount(controllers: map<ControllerId, Controller>, ids: set<ControllerId>, n: nat)
    requires ids <= controllers.Keys
    requires forall id | id in ids :: controllers[id].slot < n
    requires forall a, b | a in ids && b in ids && a != b :: controllers[a].slot != controllers[b].slot
    ensures |ids| <= n
  {
    if n > 0 {
      if id :| id in ids && controllers[id].slot == n - 1 {
        SlotsBoundCount(controllers, ids - {id}, n - 1);
      } else {
        SlotsBoundCount(controllers, ids, n - 1);
      }
    } else if id :| id in ids {
      assert false;
    }
  }

  // --------------------------------------------------------- mouse ledgers

  /** The controller is in mouse mode and the host holds exactly what it simulates. */
  ghost predicate ExactLedger(s: State, id: ControllerId) {
    && id in s.controllers && s.controllers[id].mouseMode && s.controllers[id].announced
    && var c := s.controllers[id];
       Ledger(s.host, id) == c.simulated == (c.previous - c.suppressed) * MOUSE_BUTTON_MASK
  }

  ghost predicate InMouseMode(s: State, id: ControllerId) {
    id in s.controllers && s.controllers[id].mouseMode
  }

  /** Entering mouse mode while announced: nothing is pressed, what is held is suppressed. */
  lemma EntryIsExact(s: State, m: StateMessage, at: int)
    requires Inv(s) && Accepts(s, m)
    requires !s.controllers[m.id].mouseMode && s.controllers[m.id].announced
    requires LongPressReleased(s.controllers[m.id], m, at)
    ensures var s' := Input(s, m, at);
            && ExactLedger(s', m.id) && Ledger(s'.host, m.id) == {}
            && s'.controllers[m.id].suppressed == m.buttons * MOUSE_BUTTON_MASK
            && s'.host.pads[s'.controllers[m.id].slot] == ToPad(m)
  {
    var s' := Input(s, m, at);
    assert s'.host.presses == s.host.presses;
    assert MouseOk(s.controllers[m.id], Ledger(s.host, m.id));
  }

  /** Trimming the suppression set by the new state does not change what it hides:
      prev & ~(s & prev) = prev & ~s. */
  lemma TrimmedSuppression(previous: Buttons, suppressed: Buttons)
    ensures previous - (suppressed * previous) == previous - suppressed
  {}

  lemma StepKeepsExactLedger(s: State, e: Event, id: ControllerId)
    requires Inv(s) && ExactLedger(s, id) && InMouseMode(Step(s, e), id)
    ensures ExactLedger(Step(s, e), id)
  {
    hide Structure, HostOk, Remove, Input;
    if !IsAbout(e, id) {
      hide Connect;
      OtherEventsSpare(s, e, id);
    } else if e.EConnect? {
      hide Ledger;
      if !s.closed { ConnectTakesLowestFreeSlot(s, e.connected, e.arrivalOk); }
    } else {
      OwnStateKeepsExactLedger(s, e.message, e.at);
    }
  }

  lemma OwnStateKeepsExactLedger(s: State, m: StateMessage, at: int)
    requires Inv(s) && ExactLedger(s, m.id) && InMouseMode(Input(s, m, at), m.id)
    ensures ExactLedger(Input(s, m, at), m.id)
  {
    hide HostOk, Accept;
    if Accepts(s, m) { ExactAfterState(s, m, at); }
  }

  lemma EmptyDifference(a: Buttons, b: Buttons)
    ensures a - b == {} <==> a <= b
  {
    assert forall x :: x in a && x !in b ==> x in a - b;
  }

  lemma ExactAfterState(s: State, m: StateMessage, at: int)
    requires Inv(s) && ExactLedger(s, m.id) && Accepts(s, m) && InMouseMode(Input(s, m, at), m.id)
    ensures ExactLedger(Input(s, m, at), m.id)
  {
    PhantomLaw(s, m, at);
    var c, s' := s.controllers[m.id], Input(s, m, at);
    TrimmedSuppression(m.buttons, c.suppressed);
    assert (c.previous - c.suppressed) * MOUSE_BUTTON_MASK - Ledger(s.host, m.id) == {};
    EmptyDifference(s'.controllers[m.id].simulated, Ledger(s'.host, m.id));
    assert m.buttons - c.suppressed * m.buttons == m.buttons - c.suppressed;
  }

  /** The buttons a live controller claims to simulate without having pressed them: those it
      held unsuppressed before this state, had not pressed, and still holds. */
  lemma PhantomLaw(s: State, m: StateMessage, at: int)
    requires Inv(s) && Accepts(s, m)
    requires s.controllers[m.id].mouseMode && s.controllers[m.id].announced
    requires InMouseMode(Input(s, m, at), m.id)
    ensures var c, s' := s.controllers[m.id], Input(s, m, at);
            var c' := s'.controllers[m.id];
            && c'.simulated == (m.buttons - c.suppressed) * MOUSE_BUTTON_MASK
            && c'.simulated - Ledger(s'.host, m.id)
               == ((c.previous - c.suppressed) * MOUSE_BUTTON_MASK - Ledger(s.host, m.id)) * m.buttons
            && c'.suppressed == c.suppressed * m.buttons && c'.previous == m.buttons
            && c'.announced && Ledger(s'.host, m.id) <= c'.simulated
  {
    InputKeepsInv(s, m, at);
    assert MouseOk(s.controllers[m.id], Ledger(s.host, m.id)) && s.active;
    var s' := Input(s, m, at);
    assert MouseOk(s'.controllers[m.id], Ledger(s'.host, m.id));
    hide Structure, HostOk, Accept;
    var c := s.controllers[m.id].(diagnostics := Hear(s.controllers[m.id].diagnostics, m.sequence));
    EdgesMoveTheLedger(c, m, at, s.host);
  }

  lemma EdgesMoveTheLedger(c: Controller, m: StateMessage, at: int, host: Host)
    requires c.slot < |host.pads| && c.mouseMode && c.announced
    ensures var a := Accept(c, m, at, host, true);
            && a.controller.announced && a.controller.mouseMode == !LongPressReleased(c, m, at)
            && (a.controller.mouseMode ==>
                  && a.controller.simulated == (m.buttons - c.suppressed) * MOUSE_BUTTON_MASK
                  && a.controller.suppressed == c.suppressed * m.buttons && a.controller.previous == m.buttons
                  && Ledger(a.host, c.id) == Ledger(host, c.id) + Rising(c, m) - Falling(c, m))
  {
    var a := Accept(c, m, at, host, true);
    if a.controller.mouseMode {
      assert a.host.presses == host.presses + By(c.id, Rising(c, m)) - By(c.id, Falling(c, m));
    }
  }

  /** Entry before announcement: the ledger is exact after a state if and only if no
      unsuppressed, unpressed mouse button stays held across it. */
  lemma ExactIffNothingHeldUnpressed(s: State, m: StateMessage, at: int)
    requires Inv(s) && Accepts(s, m)
    requires s.controllers[m.id].mouseMode && s.controllers[m.id].announced
    requires InMouseMode(Input(s, m, at), m.id)
    ensures var c := s.controllers[m.id];
            ExactLedger(Input(s, m, at), m.id)
            <==> (c.previous * m.buttons - c.suppressed) * MOUSE_BUTTON_MASK <= Ledger(s.host, m.id)
  {
    PhantomLaw(s, m, at);
    TrimmedSuppression(m.buttons, s.controllers[m.id].suppressed);
    var c, s' := s.controllers[m.id], Input(s, m, at);
    assert ((c.previous - c.suppressed) * MOUSE_BUTTON_MASK - Ledger(s.host, m.id)) * m.buttons
        == (c.previous * m.buttons - c.suppressed) * MOUSE_BUTTON_MASK - Ledger(s.host, m.id);
    var c' := s'.controllers[m.id];
    assert c'.previous - c'.suppressed == m.buttons - c.suppressed;
    EmptyDifference(c'.simulated, Ledger(s'.host, m.id));
    EmptyDifference((c.previous * m.buttons - c.suppressed) * MOUSE_BUTTON_MASK, Ledger(s.host, m.id));
  }

  ghost predicate StaysInMouseMode(s: State, events: seq<Event>, id: ControllerId)
    requires Inv(s)
    decreases |events|
  {
    InMouseMode(s, id) &&
    (events == [] ||
     (StepKeepsInv(s, events[0]); StaysInMouseMode(Step(s, events[0]), events[1..], id)))
  }

  /** Once exact, a ledger stays exact for as long as the controller stays in mouse mode. */
  lemma {:induction false} ExactWhileInMouseMode(s: State, events: seq<Event>, id: ControllerId)
    requires Inv(s) && ExactLedger(s, id) && StaysInMouseMode(s, events, id)
    ensures ExactLedger(Run(s, events), id)
    decreases |events|
  {
    if events != [] {
      StepKeepsInv(s, events[0]);
      assert StaysInMouseMode(Step(s, events[0]), events[1..], id);
      StepKeepsExactLedger(s, events[0], id);
      ExactWhileInMouseMode(Step(s, events[0]), events[1..], id);
    }
  }

  /** Mouse mode entered after the announcement: the ledger is exact from then on, whatever
      happens, for as long as the controller stays in mouse mode. */
  lemma ExactFromEntryOn(before: seq<Event>, m: StateMessage, at: int, after: seq<Event>)
    requires var s := RunFromStart(before);
             && Accepts(s, m) && !s.controllers[m.id].mouseMode && s.controllers[m.id].announced
             && LongPressReleased(s.controllers[m.id], m, at)
    requires StaysInMouseMode(RunFromStart(before + [EInput(m, at)]), after, m.id)
    ensures ExactLedger(RunFromStart(before + [EInput(m, at)] + after), m.id)
  {
    hide Structure, HostOk, ExactLedger, StaysInMouseMode, Input;
    InitialInv();
    OneMoreEvent(before, EInput(m, at));
    RunInParts(Initial(), before + [EInput(m, at)], after);
    EntryIsExact(RunFromStart(before), m, at);
    ExactWhileInMouseMode(RunFromStart(before + [EInput(m, at)]), after, m.id);
  }

  lemma OneMoreEvent(before: seq<Event>, e: Event)
    ensures RunFromStart(before + [e]) == Step(RunFromStart(before), e)
  {
    hide Inv, Step;
    InitialInv();
    RunInParts(Initial(), before, [e]);
    StepKeepsInv(RunFromStart(before), e);
    assert [e][1..] == [];
  }

  // ------------------------------------------------- entry before announcement

  ghost predicate NoStateOf(events: seq<Event>, id: ControllerId) {
    forall e | e in events :: e.EInput? ==> e.message.id != id
  }

  /** Until its first state after the announcement a controller holds nothing on the host. */
  lemma {:induction false} NothingHeldUntilAState(s: State, events: seq<Event>, id: ControllerId)
    requires Inv(s) && StaysInMouseMode(s, events, id) && NoStateOf(events, id) && Ledger(s.host, id) == {}
    ensures Ledger(Run(s, events).host, id) == {}
    decreases |events|
  {
    hide Inv, Step, Ledger;
    if events != [] {
      var e := events[0];
      StepKeepsInv(s, e);
      assert e in events && forall x | x in events[1..] :: x in events;
      assert StaysInMouseMode(Step(s, e), events[1..], id);
      assert InMouseMode(Step(s, e), id);
      OtherEventKeepsLedger(s, e, id);
      NothingHeldUntilAState(Step(s, e), events[1..], id);
    }
  }

  lemma OtherEventKeepsLedger(s: State, e: Event, id: ControllerId)
    requires Inv(s) && InMouseMode(s, id) && InMouseMode(Step(s, e), id)
    requires e.EInput? ==> e.message.id != id
    ensures Ledger(Step(s, e).host, id) == Ledger(s.host, id)
  {
    hide HostOk, Remove, Input;
    if !IsAbout(e, id) {
      hide Connect;
      OtherEventsSpare(s, e, id);
    } else if !s.closed {
      ConnectTakesLowestFreeSlot(s, e.connected, e.arrivalOk);
    }
  }

  /** Mouse mode entered before the announcement, over every run: the first state after the
      announcement leaves the ledger exact if and only if no unsuppressed mouse button is down
      both in that state and in the one before it. */
  lemma FirstStateIsExactIff(before: seq<Event>, between: seq<Event>, m: StateMessage, at: int)
    requires var s0 := RunFromStart(before);
             && m.id in s0.controllers && !s0.controllers[m.id].announced
             && NoStateOf(between, m.id) && StaysInMouseMode(s0, between, m.id)
    requires var s := RunFromStart(before + between);
             Accepts(s, m) && s.controllers[m.id].announced && InMouseMode(Input(s, m, at), m.id)
    ensures var s := RunFromStart(before + between);
            var c := s.controllers[m.id];
            ExactLedger(Input(s, m, at), m.id)
            <==> (c.previous * m.buttons - c.suppressed) * MOUSE_BUTTON_MASK == {}
  {
    hide Accepts, ExactLedger, Input;
    InitialInv();
    RunInParts(Initial(), before, between);
    var s0, s := RunFromStart(before), RunFromStart(before + between);
    UnannouncedHoldsNothing(s0, m.id);
    NothingHeldUntilAState(s0, between, m.id);
    StaysToTheEnd(s0, between, m.id);
    ExactIffNothingHeldUnpressed(s, m, at);
  }

  lemma UnannouncedHoldsNothing(s: State, id: ControllerId)
    requires Inv(s) && id in s.controllers && !s.controllers[id].announced
    ensures Ledger(s.host, id) == {}
  {
    assert MouseOk(s.controllers[id], Ledger(s.host, id));
  }

  lemma {:induction false} StaysToTheEnd(s: State, events: seq<Event>, id: ControllerId)
    requires Inv(s) && StaysInMouseMode(s, events, id)
    ensures InMouseMode(Run(s, events), id)
    decreases |events|
  {
    hide Inv, Step, InMouseMode;
    if events != [] {
      StepKeepsInv(s, events[0]);
      StaysToTheEnd(Step(s, events[0]), events[1..], id);
    }
  }

  function Pressed(sequence: nat, buttons: Buttons): StateMessage {
    StateMessage(1, sequence, buttons, 0.0, 0.0, 0.0, 0.0, 0.0, 0.0, 0.0)
  }

  const PAD := Connected(1, "pad", "standard", 17, 4, false, false)

  /** Start is held for 0.8 s before the session begins, then A across its beginning. */
  const EARLY_MOUSE_MODE: seq<Event> :=
    [EConnect(PAD, true), EInput(Pressed(0, {Start}), 0), EInput(Pressed(1, {}), 800_000),
     EInput(Pressed(2, {A}), 900_000), ESetActive(true, {1}), EInput(Pressed(3, {A}), 1_000_000)]

  lemma UnannouncedState(s: State, c: Controller, m: StateMessage, at: int)
    requires Inv(s) && !s.closed && !c.announced && m.id == c.id && m.id in s.controllers && s.controllers[m.id] == c
    requires WellFormed(m) && !IsStale(c.diagnostics, m.sequence)
    requires LongPressReleased(c, m, at) ==> !c.mouseMode
    ensures var toggled := LongPressReleased(c, m, at);
            Input(s, m, at) == s.(controllers := s.controllers[m.id := c.(
              diagnostics := Hear(c.diagnostics, m.sequence), latest := ToPad(m),
              startPressedAt := StartTimer(c, m, at),
              previous := m.buttons, mouseMode := c.mouseMode || toggled,
              suppressed := if toggled then m.buttons * MOUSE_BUTTON_MASK else c.suppressed)])
  {
    hide ToPad, HostOk;
  }

  /** Mouse mode is on before the announcement, nothing is suppressed, and A is down. */
  ghost predicate EarlyEntry(s: State) {
    && !s.closed && !s.active && 1 in s.controllers
    && var c := s.controllers[1];
       c.id == 1 && c.mouseMode && !c.announced && c.suppressed == {} && c.previous == {A}
       && c.diagnostics.last == Some(2)
  }

  lemma EarlyEntryIsReached()
    ensures EarlyEntry(RunFromStart(EARLY_MOUSE_MODE[..4]))
  {
    hide Inv, Structure, HostOk, ToPad, Input, Accept, Wrap;
    var es := EARLY_MOUSE_MODE;
    InitialInv();
    assert RunFromStart([]) == Initial();
    OneMoreEvent([], es[0]);
    OneMoreEvent(es[..1], es[1]);
    OneMoreEvent(es[..2], es[2]);
    OneMoreEvent(es[..3], es[3]);
    assert [] + [es[0]] == es[..1] && es[..1] + [es[1]] == es[..2] && es[..2] + [es[2]] == es[..3];
    assert es[..3] + [es[3]] == es[..4];
    var s1 := RunFromStart(es[..1]);
    var c1 := s1.controllers[1];
    assert c1 == NewController(PAD, 0) && !s1.active && !s1.closed;
    UnannouncedState(s1, c1, Pressed(0, {Start}), 0);
    var s2 := RunFromStart(es[..2]);
    UnannouncedState(s2, s2.controllers[1], Pressed(1, {}), 800_000);
    var s3 := RunFromStart(es[..3]);
    UnannouncedState(s3, s3.controllers[1], Pressed(2, {A}), 900_000);
  }

  lemma StillMouseMode(s: State, m: StateMessage, at: int)
    requires Inv(s) && Accepts(s, m) && s.controllers[m.id].mouseMode
    requires !LongPressReleased(s.controllers[m.id], m, at)
    ensures InMouseMode(Input(s, m, at), m.id)
  {
    hide ToPad, HostOk;
  }

  /** A run from the start after which A is claimed as simulated though it was never pressed. */
  lemma EntryBeforeAnnouncementCanBeInexact()
    ensures var s := RunFromStart(EARLY_MOUSE_MODE);
            && InMouseMode(s, 1) && s.controllers[1].announced && !ExactLedger(s, 1)
            && A in s.controllers[1].simulated && (1, A) !in s.host.presses
  {
    hide Inv, ExactLedger, Structure, HostOk, ToPad, Input, Remove;
    var es := EARLY_MOUSE_MODE;
    var e, m := es[4], Pressed(3, {A});
    EarlyEntryIsReached();
    OneMoreEvent(es[..4], e);
    OneMoreEvent(es[..5], es[5]);
    assert es[..4] + [e] == es[..5] && es[..5] + [es[5]] == es;
    var s4, s5 := RunFromStart(es[..4]), RunFromStart(es[..5]);
    OtherEventsSpare(s4, e, 1);
    assert [e][1..] == [] && StaysInMouseMode(Step(s4, e), [e][1..], 1);
    StillMouseMode(s5, m, 1_000_000);
    FirstStateIsExactIff(es[..4], [e], m, 1_000_000);
    UnannouncedHoldsNothing(s4, 1);
    PhantomLaw(s5, m, 1_000_000);
    var c, s6 := s5.controllers[1], RunFromStart(es);
    assert A in ((c.previous - c.suppressed) * MOUSE_BUTTON_MASK - Ledger(s5.host, 1)) * m.buttons;
    assert A in s6.controllers[1].simulated - Ledger(s6.host, 1);
  }

  /** Every state the client sends for this controller carries the button. */
  ghost predicate KeepsHolding(events: seq<Event>, id: ControllerId, b: Button) {
    forall e | e in events :: e.EInput? && e.message.id == id ==> b in e.message.buttons
  }

  /** A button held when mouse mode was entered is not pressed on the host until released. */
  lemma {:induction false} HeldAtEntryStaysSilent(s: State, events: seq<Event>, id: ControllerId, b: Button)
    requires Inv(s) && StaysInMouseMode(s, events, id) && KeepsHolding(events, id, b)
    requires b in s.controllers[id].suppressed
    ensures var s' := Run(s, events);
            InMouseMode(s', id) && b in s'.controllers[id].suppressed && (id, b) !in s'.host.presses
    decreases |events|
  {
    if events == [] {
      assert MouseOk(s.controllers[id], Ledger(s.host, id));
      assert b !in Ledger(s.host, id);
    } else {
      var e := events[0];
      StepKeepsInv(s, e);
      var s' := Step(s, e);
      assert StaysInMouseMode(s', events[1..], id);
      assert e in events;
      assert forall x | x in events[1..] :: x in events;
      assert b in s'.controllers[id].suppressed by { SuppressionStays(s, e, id, b); }
      HeldAtEntryStaysSilent(s', events[1..], id, b);
    }
  }

  lemma SuppressionStays(s: State, e: Event, id: ControllerId, b: Button)
    requires Inv(s) && InMouseMode(s, id) && InMouseMode(Step(s, e), id)
    requires b in s.controllers[id].suppressed
    requires e.EInput? && e.message.id == id ==> b in e.message.buttons
    ensures b in Step(s, e).controllers[id].suppressed
  {
    hide HostOk, Connect, Remove;
    if !IsAbout(e, id) {
      hide Step;
      OtherEventsSpare(s, e, id);
    } else if e.EConnect? && !s.closed {
      ConnectTakesLowestFreeSlot(s, e.connected, e.arrivalOk);
    }
  }
}
