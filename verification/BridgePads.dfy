/** Which pad state the host shows for each controller, over every run. */
module BridgePads {
  import opened Basics
  import opened GamepadProtocol
  import opened StickMapping
  import opened SequenceAccounting
  import opened BridgeState
  import opened BridgeInvariant
  import opened BridgeGuarantees

  ghost function PadOf(s: State, id: ControllerId): Pad
    requires Inv(s) && id in s.controllers
  {
    s.host.pads[s.controllers[id].slot]
  }

  /** The state is accepted while its controller is live, and not inside mouse mode: outside it,
      at entry or at exit. */
  ghost predicate Forwarded(s: State, m: StateMessage, at: int)
    requires Inv(s)
  {
    && Accepts(s, m) && s.controllers[m.id].announced
    && !(InMouseMode(s, m.id) && InMouseMode(Input(s, m, at), m.id))
  }

  /** The last such state since this controller's latest registration. */
  ghost function NoteForwarded(s: State, e: Event, id: ControllerId, last: Option<StateMessage>): Option<StateMessage>
    requires Inv(s)
  {
    match e
    case EConnect(m, _) => if m.id == id && WithinLimits(m) && !s.closed then None else last
    case EInput(m, at) => if m.id == id && Forwarded(s, m, at) then Some(m) else last
    case _ => last
  }

  ghost function LastForwarded(s: State, events: seq<Event>, id: ControllerId, last: Option<StateMessage>)
    : Option<StateMessage>
    requires Inv(s)
    decreases |events|
  {
    if events == [] then last
    else
      StepKeepsInv(s, events[0]);
      LastForwarded(Step(s, events[0]), events[1..], id, NoteForwarded(s, events[0], id, last))
  }

  ghost predicate Shows(s: State, id: ControllerId, last: Option<StateMessage>)
    requires Inv(s)
  {
    id in s.controllers ==> PadOf(s, id) == if last.Some? then ToPad(last.value) else NEUTRAL
  }

  lemma NewControllersAreNeutral(s: State, m: Connected, arrivalOk: bool)
    requires Inv(s) && WithinLimits(m) && !s.closed && m.id in Connect(s, m, arrivalOk).controllers
    ensures Inv(Connect(s, m, arrivalOk)) && PadOf(Connect(s, m, arrivalOk), m.id) == NEUTRAL
  {
    ConnectKeepsInv(s, m, arrivalOk);
    RemoveKeepsInv(s, m.id);
    hide Remove, Structure, HostOk;
    var s1 := Remove(s, m.id);
    var slot := LowestFree(s1.slots).value;
    FreeSlotsAreNeutral(s1, slot);
  }

  lemma FreeSlotsAreNeutral(s: State, slot: nat)
    requires Inv(s) && slot < MAXIMUM_GAMEPADS && s.slots[slot].None?
    ensures s.host.pads[slot] == NEUTRAL
  {}

  /** A live controller's own state: the host shows it if it is forwarded, else what it showed. */
  lemma OwnStatePad(s: State, m: StateMessage, at: int)
    requires Inv(s) && m.id in s.controllers
    ensures Inv(Input(s, m, at)) && m.id in Input(s, m, at).controllers
    ensures Input(s, m, at).controllers[m.id].slot == s.controllers[m.id].slot
    ensures PadOf(Input(s, m, at), m.id) == if Forwarded(s, m, at) then ToPad(m) else PadOf(s, m.id)
  {
    InputKeepsInv(s, m, at);
    hide HostOk, ToPad, Hear, Accept;
    if Accepts(s, m) {
      var c := s.controllers[m.id];
      AcceptPad(c.(diagnostics := Hear(c.diagnostics, m.sequence)), m, at, s.host, s.active);
    }
  }

  lemma AcceptPad(c: Controller, m: StateMessage, at: int, host: Host, active: bool)
    requires c.slot < |host.pads|
    ensures var a := Accept(c, m, at, host, active);
            && a.controller.slot == c.slot && |a.host.pads| == |host.pads|
            && a.host.pads[c.slot] == if active && c.announced && !(c.mouseMode && a.controller.mouseMode)
                                      then ToPad(m) else host.pads[c.slot]
  {
    hide ToPad;
  }

  lemma StepShows(s: State, e: Event, id: ControllerId, last: Option<StateMessage>)
    requires Inv(s) && Shows(s, id, last)
    ensures Inv(Step(s, e)) && Shows(Step(s, e), id, NoteForwarded(s, e, id, last))
  {
    StepKeepsInv(s, e);
    hide Structure, HostOk, Remove, Input, ToPad, Forwarded;
    if e.EInput? && e.message.id !in s.controllers { InputAddsNobody(s, e.message, e.at); }
    if id in Step(s, e).controllers {
      if !IsAbout(e, id) {
        hide Connect;
        OthersNoteNothing(s, e, id, last);
        OtherEventsSpare(s, e, id);
      } else if e.EConnect? {
        if !s.closed { NewControllersAreNeutral(s, e.connected, e.arrivalOk); }
      } else {
        OwnStatePad(s, e.message, e.at);
      }
    }
  }

  lemma OthersNoteNothing(s: State, e: Event, id: ControllerId, last: Option<StateMessage>)
    requires Inv(s) && !IsAbout(e, id)
    ensures NoteForwarded(s, e, id, last) == last
  {
    hide Inv, Input;
  }

  lemma InputAddsNobody(s: State, m: StateMessage, at: int)
    requires SlotsInRange(s) && m.id !in s.controllers
    ensures Input(s, m, at) == s
  {}

  lemma {:induction false} RunShows(s: State, events: seq<Event>, id: ControllerId, last: Option<StateMessage>)
    requires Inv(s) && Shows(s, id, last)
    ensures Shows(Run(s, events), id, LastForwarded(s, events, id, last))
    decreases |events|
  {
    hide Inv, Step, Shows, NoteForwarded;
    if events != [] {
      StepKeepsInv(s, events[0]);
      StepShows(s, events[0], id, last);
      RunShows(Step(s, events[0]), events[1..], id, NoteForwarded(s, events[0], id, last));
    }
  }

  ghost function LastForwardedFromStart(events: seq<Event>, id: ControllerId): Option<StateMessage> {
    InitialInv();
    LastForwarded(Initial(), events, id, None)
  }

  /** After every run a controller's host pad says, control by control, what the last state
      forwarded for its registration said, and nothing if there was none. */
  lemma PadFollowsForwardedStates(events: seq<Event>, id: ControllerId)
    requires id in RunFromStart(events).controllers
    ensures var last := LastForwardedFromStart(events, id);
            && (last.Some? ==> ShowsState(PadOf(RunFromStart(events), id), last.value))
            && (last == None ==> PadOf(RunFromStart(events), id) == Pad({}, 0, 0, 0, 0, 0, 0))
  {
    hide Inv, ToPad, ShowsState;
    InitialInv();
    RunShows(Initial(), events, id, None);
    var last := LastForwardedFromStart(events, id);
    if last.Some? { PadShowsState(last.value); }
  }

  // ------------------------------------------------------------ mouse mode

  lemma StepKeepsPad(s: State, e: Event, id: ControllerId)
    requires Inv(s) && InMouseMode(s, id) && InMouseMode(Step(s, e), id)
    ensures Inv(Step(s, e)) && PadOf(Step(s, e), id) == PadOf(s, id)
  {
    StepKeepsInv(s, e);
    hide Structure, HostOk, Remove, Input;
    if !IsAbout(e, id) {
      hide Connect;
      OtherEventsSpare(s, e, id);
    } else if e.EConnect? {
      if !s.closed { ConnectTakesLowestFreeSlot(s, e.connected, e.arrivalOk); }
    } else {
      OwnStatePad(s, e.message, e.at);
    }
  }

  /** Whatever its states say, the pad of a controller in mouse mode does not move. */
  lemma {:induction false} MouseModeFreezesPad(s: State, events: seq<Event>, id: ControllerId)
    requires Inv(s) && StaysInMouseMode(s, events, id)
    ensures InMouseMode(Run(s, events), id) && PadOf(Run(s, events), id) == PadOf(s, id)
    decreases |events|
  {
    hide Structure, HostOk, Step;
    if events != [] {
      var e := events[0];
      StepKeepsInv(s, e);
      assert StaysInMouseMode(Step(s, e), events[1..], id);
      StepKeepsPad(s, e, id);
      MouseModeFreezesPad(Step(s, e), events[1..], id);
    }
  }

  /** Over every run, from the state that turned mouse mode on while announced until mouse mode
      ends, the host pad says, control by control, what that state said. */
  lemma PadHoldsTheEntryState(before: seq<Event>, m: StateMessage, at: int, after: seq<Event>)
    requires var s := RunFromStart(before);
             && Accepts(s, m) && !s.controllers[m.id].mouseMode && s.controllers[m.id].announced
             && LongPressReleased(s.controllers[m.id], m, at)
    requires StaysInMouseMode(RunFromStart(before + [EInput(m, at)]), after, m.id)
    ensures var s := RunFromStart(before + [EInput(m, at)] + after);
            m.id in s.controllers && ShowsState(PadOf(s, m.id), m)
  {
    hide Structure, HostOk, StaysInMouseMode, Input, ToPad, ShowsState;
    PadShowsState(m);
    InitialInv();
    OneMoreEvent(before, EInput(m, at));
    RunInParts(Initial(), before + [EInput(m, at)], after);
    EntryIsExact(RunFromStart(before), m, at);
    MouseModeFreezesPad(RunFromStart(before + [EInput(m, at)]), after, m.id);
  }

  /** Entered before the announcement, the pad stays neutral until mouse mode ends. */
  lemma EarlyEntryKeepsPadNeutral(before: seq<Event>, after: seq<Event>, id: ControllerId)
    requires var s := RunFromStart(before); id in s.controllers && !s.controllers[id].announced
    requires StaysInMouseMode(RunFromStart(before), after, id)
    ensures var s := RunFromStart(before + after); id in s.controllers && PadOf(s, id) == NEUTRAL
  {
    InitialInv();
    RunInParts(Initial(), before, after);
    MouseModeFreezesPad(RunFromStart(before), after, id);
  }
}
