/** A registration's accounting and mouse mode, read off the messages that arrived for it. */
module BridgeHistory {
  import opened Basics
  import opened GamepadProtocol
  import opened StickMapping
  import opened SequenceAccounting
  import opened BridgeState
  import opened BridgeInvariant
  import opened BridgeGuarantees

  datatype Arrival = Arrival(message: StateMessage, at: int)

  /** The states that reached the controller since its latest registration, in arrival order. */
  ghost function Remember(s: State, e: Event, id: ControllerId, heard: seq<Arrival>): seq<Arrival>
    requires Inv(s)
  {
    match e
    case EConnect(m, _) => if m.id == id && WithinLimits(m) && !s.closed then [] else heard
    case EInput(m, at) =>
      if m.id == id && WellFormed(m) && !s.closed && id in s.controllers then heard + [Arrival(m, at)] else heard
    case _ => heard
  }

  ghost function Heard(s: State, events: seq<Event>, id: ControllerId, heard: seq<Arrival>): seq<Arrival>
    requires Inv(s)
    decreases |events|
  {
    if events == [] then heard
    else
      StepKeepsInv(s, events[0]);
      Heard(Step(s, events[0]), events[1..], id, Remember(s, events[0], id, heard))
  }

  ghost function Sequences(heard: seq<Arrival>): seq<nat> {
    seq(|heard|, i requires 0 <= i < |heard| => heard[i].message.sequence)
  }

  /** The arrivals that are strict maxima of their sequence numbers. */
  ghost function Records(heard: seq<Arrival>): seq<Arrival> {
    if heard == [] then []
    else
      var n := |heard| - 1;
      Records(heard[..n]) + (if IsRecord(Sequences(heard), n) then [heard[n]] else [])
  }

  /** Start is down in the last accepted state; the time of the first state of that press. */
  ghost function PressedSince(accepted: seq<Arrival>): Option<int> {
    if accepted == [] then None
    else
      var n := |accepted| - 1;
      if Start !in accepted[n].message.buttons then None
      else if PressedSince(accepted[..n]).None? then Some(accepted[n].at)
      else PressedSince(accepted[..n])
  }

  /** Completed long presses: releases more than 750 ms after the press began. */
  ghost function LongPresses(accepted: seq<Arrival>): nat {
    if accepted == [] then 0
    else
      var n := |accepted| - 1;
      var since := PressedSince(accepted[..n]);
      LongPresses(accepted[..n]) +
      (if Start !in accepted[n].message.buttons && since.Some? && accepted[n].at - since.value > 750_000
       then 1 else 0)
  }

  ghost predicate Explains(c: Controller, heard: seq<Arrival>) {
    var accepted := Records(heard);
    && c.diagnostics == HearAll(Sequences(heard))
    && c.startPressedAt == PressedSince(accepted)
    && c.previous == (if accepted == [] then {} else accepted[|accepted| - 1].message.buttons)
    && c.mouseMode == (LongPresses(accepted) % 2 == 1)
    && c.latest == (if accepted == [] then NEUTRAL else ToPad(accepted[|accepted| - 1].message))
  }

  lemma {:induction false} PressedSinceMeansStartDown(accepted: seq<Arrival>)
    ensures PressedSince(accepted).Some? <==>
              accepted != [] && Start in accepted[|accepted| - 1].message.buttons
  {
    if accepted != [] {
      PressedSinceMeansStartDown(accepted[..|accepted| - 1]);
    }
  }

  lemma SequencesSnoc(heard: seq<Arrival>, a: Arrival)
    ensures Sequences(heard + [a]) == Sequences(heard) + [a.message.sequence]
    ensures Sequences(heard + [a])[..|heard|] == Sequences(heard)
  {}

  ghost predicate SameHistory(c: Controller, c': Controller) {
    && c'.diagnostics == c.diagnostics && c'.startPressedAt == c.startPressedAt
    && c'.previous == c.previous && c'.mouseMode == c.mouseMode && c'.latest == c.latest
  }

  lemma StepExplains(s: State, e: Event, id: ControllerId, heard: seq<Arrival>)
    requires Inv(s) && (id in s.controllers ==> Explains(s.controllers[id], heard))
    ensures var s' := Step(s, e);
            id in s'.controllers ==> Explains(s'.controllers[id], Remember(s, e, id, heard))
  {
    if e.EConnect? && e.connected.id == id && WithinLimits(e.connected) {
      if !s.closed {
        ConnectTakesLowestFreeSlot(s, e.connected, e.arrivalOk);
        assert LongPresses([]) == 0;
        if id in Step(s, e).controllers {
          FreshExplains(s, e.connected, e.arrivalOk);
        }
      }
    } else if e.EInput? && e.message.id == id && WellFormed(e.message) {
      if !s.closed && id in s.controllers {
        InputExplains(s, e.message, e.at, heard);
      }
    } else if id in Step(s, e).controllers {
      OtherEventsSpare(s, e, id);
    }
  }

  lemma FreshExplains(s: State, m: Connected, ok: bool)
    requires Inv(s) && WithinLimits(m) && !s.closed && m.id in Connect(s, m, ok).controllers
    ensures Explains(Connect(s, m, ok).controllers[m.id], [])
  {
    RemoveKeepsInv(s, m.id);
    assert Sequences([]) == [];
  }

  lemma OneMoreHeard(heard: seq<Arrival>, a: Arrival)
    ensures HearAll(Sequences(heard + [a])) == Hear(HearAll(Sequences(heard)), a.message.sequence)
    ensures Records(heard + [a]) ==
              if IsStale(HearAll(Sequences(heard)), a.message.sequence) then Records(heard) else Records(heard) + [a]
  {
    var heard' := heard + [a];
    SequencesSnoc(heard, a);
    assert heard'[..|heard|] == heard;
    AcceptedExactlyTheRecords(Sequences(heard'), |heard|);
    assert Records(heard') == Records(heard) + (if IsRecord(Sequences(heard'), |heard|) then [a] else []);
  }

  lemma InputExplains(s: State, m: StateMessage, at: int, heard: seq<Arrival>)
    requires SlotsInRange(s) && WellFormed(m) && !s.closed && m.id in s.controllers
    requires Explains(s.controllers[m.id], heard)
    ensures Explains(Input(s, m, at).controllers[m.id], heard + [Arrival(m, at)])
  {
    hide Accept, Hear, HearAll, IsStale, Sequences, Records, PressedSince, LongPresses, ToPad;
    OneMoreHeard(heard, Arrival(m, at));
    PressedSinceMeansStartDown(Records(heard));
    var c := s.controllers[m.id].(diagnostics := Hear(s.controllers[m.id].diagnostics, m.sequence));
    AcceptedExplains(c, m, at, s.host, s.active, Records(heard));
    var accepted' := Records(heard) + [Arrival(m, at)];
    assert accepted'[|accepted'| - 1] == Arrival(m, at);
  }

  lemma AcceptedExplains(c: Controller, m: StateMessage, at: int, host: Host, active: bool, accepted: seq<Arrival>)
    requires c.slot < |host.pads|
    requires c.startPressedAt == PressedSince(accepted)
    requires c.previous == (if accepted == [] then {} else accepted[|accepted| - 1].message.buttons)
    requires c.mouseMode == (LongPresses(accepted) % 2 == 1)
    ensures var c' := Accept(c, m, at, host, active).controller;
            var accepted' := accepted + [Arrival(m, at)];
            && c'.startPressedAt == PressedSince(accepted') && c'.previous == m.buttons
            && c'.mouseMode == (LongPresses(accepted') % 2 == 1) && c'.latest == ToPad(m)
            && c'.diagnostics == c.diagnostics
  {
    var accepted' := accepted + [Arrival(m, at)];
    assert accepted'[..|accepted|] == accepted;
    PressedSinceMeansStartDown(accepted);
    assert LongPresses(accepted') ==
      LongPresses(accepted) + (if LongPressReleased(c, m, at) then 1 else 0);
    var c' := Accept(c, m, at, host, active).controller;
    assert c'.mouseMode == (if LongPressReleased(c, m, at) then !c.mouseMode else c.mouseMode);
  }

  lemma {:induction false} RunExplains(s: State, events: seq<Event>, id: ControllerId, heard: seq<Arrival>)
    requires Inv(s) && (id in s.controllers ==> Explains(s.controllers[id], heard))
    ensures var s' := Run(s, events);
            id in s'.controllers ==> Explains(s'.controllers[id], Heard(s, events, id, heard))
    decreases |events|
  {
    if events != [] {
      StepKeepsInv(s, events[0]);
      StepExplains(s, events[0], id, heard);
      RunExplains(Step(s, events[0]), events[1..], id, Remember(s, events[0], id, heard));
    }
  }

  ghost function HeardFromStart(events: seq<Event>, id: ControllerId): seq<Arrival> {
    InitialInv();
    Heard(Initial(), events, id, [])
  }

  /** In every run: accounting folds exactly the states heard since registration, and mouse mode
      is on exactly after an odd number of completed long presses among the accepted ones, and
      the pad kept for the pointer shows the last accepted one. */
  lemma RegistrationFollowsItsMessages(events: seq<Event>, id: ControllerId)
    requires id in RunFromStart(events).controllers
    ensures var heard := HeardFromStart(events, id);
            var c := RunFromStart(events).controllers[id];
            && c.diagnostics == HearAll(Sequences(heard))
            && (c.mouseMode <==> LongPresses(Records(heard)) % 2 == 1)
            && c.startPressedAt == PressedSince(Records(heard))
            && (heard != [] ==> c.diagnostics.last.Some?)
            && (forall a | a in heard :: a.message.sequence <= c.diagnostics.last.value)
            && var accepted := Records(heard);
               if accepted == [] then c.latest == Pad({}, 0, 0, 0, 0, 0, 0)
               else ShowsState(c.latest, accepted[|accepted| - 1].message)
  {
    hide ShowsState, ToPad;
    InitialInv();
    RunExplains(Initial(), events, id, []);
    var heard := HeardFromStart(events, id);
    LastIsMaximum(Sequences(heard));
    var accepted := Records(heard);
    if accepted != [] { PadShowsState(accepted[|accepted| - 1].message); }
    assert forall i | 0 <= i < |heard| :: Sequences(heard)[i] == heard[i].message.sequence;
  }
}
