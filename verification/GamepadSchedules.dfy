/** Which client schedules, beginSession in any number included, are safe under every delivery:
    no state is ever applied to a registration that did not send it if and only if the schedule
    puts no two registrations of one id on the channels. */
module GamepadSchedules {
  import opened Basics
  import opened GamepadProtocol
  import opened BridgeState
  import B = BridgeInvariant
  import C = GamepadClient
  import opened GamepadLink
  import GamepadSlots
  import Guarantees = BridgeGuarantees

  // ------------------------------------------------------ client schedules

  predicate IsClientEvent(e: Event) {
    e.Register? || e.Announce? || e.Send? || e.Unregister? || e.BeginSession?
  }

  predicate IsSessionEvent(e: Event) { e.SessionActive? || e.TransportClosed? || e.Shutdown? }

  /** What a schedule puts on the channels, whatever becomes of it there. */
  datatype Outcome = Outcome(client: C.Client, control: seq<C.ControlMessage>, states: seq<C.Datagram>)

  const NOTHING_SENT := Outcome(C.NO_GAMEPADS, [], [])

  function Acts(c: C.Client, e: Event): C.Sent
    requires IsClientEvent(e)
  {
    match e
    case Register(g, taken) => C.Register(c, g, taken)
    case Announce(index, taken) => C.Announce(c, index, taken)
    case Send(index, sample, taken) => C.SendState(c, index, sample, taken)
    case Unregister(index, now, stateTaken, notified) => C.Unregister(c, index, now, stateTaken, notified)
    case BeginSession => C.Sent(C.Reset(c), [], [])
  }

  function Plays(o: Outcome, e: Event): Outcome {
    if IsClientEvent(e) then
      var s := Acts(o.client, e);
      Outcome(s.client, o.control + s.control, o.states + s.states)
    else o
  }

  function OutcomeFrom(o: Outcome, events: seq<Event>): Outcome
    decreases |events|
  {
    if events == [] then o else OutcomeFrom(Plays(o, events[0]), events[1..])
  }

  function OutcomeOf(schedule: seq<Event>): Outcome { OutcomeFrom(NOTHING_SENT, schedule) }

  function ClientPart(events: seq<Event>): seq<Event> {
    if events == [] then []
    else (if IsClientEvent(events[0]) then [events[0]] else []) + ClientPart(events[1..])
  }

  /** A run of the link in which the client does just this; `quiet` runs have deliveries and
      losses only, others also start and stop sessions and lose the transport. */
  ghost predicate Interleaves(events: seq<Event>, schedule: seq<Event>, quiet: bool) {
    ClientPart(events) == schedule && (quiet ==> forall e | e in events :: !IsSessionEvent(e))
  }

  // -------------------------------------------------------------- clashes

  /** The ids the bridge has registered after these control messages, nothing else intervening. */
  function RegisteredAfter(control: seq<C.ControlMessage>): set<ControllerId> {
    if control == [] then {}
    else
      var n := |control| - 1;
      Handle(RegisteredAfter(control[..n]), control[n])
  }

  function Handle(ids: set<ControllerId>, m: C.ControlMessage): set<ControllerId> {
    match m
    case Hello(connected, _) =>
      if !WithinLimits(connected) then ids
      else if |ids - {connected.id}| < MAXIMUM_GAMEPADS then ids + {connected.id}
      else ids - {connected.id}
    case Goodbye(id) => if id < TWO_TO_THE_32 then ids - {id} else ids
  }

  /** Announcement k is one the bridge can take, and in a quiet run finds a slot for. */
  ghost predicate Takeable(control: seq<C.ControlMessage>, k: nat, quiet: bool) {
    && k < |control| && control[k].Hello? && WithinLimits(control[k].connected)
    && (quiet ==> |RegisteredAfter(control[..k]) - {control[k].connected.id}| < MAXIMUM_GAMEPADS)
  }

  /** A state and an announcement of one id by two registrations. */
  ghost predicate Clash(o: Outcome, k: nat, d: C.Datagram, quiet: bool) {
    && Takeable(o.control, k, quiet) && d in o.states && WellFormed(d.message)
    && d.message.id == o.control[k].connected.id && d.registration != o.control[k].registration
  }

  ghost predicate Clashes(o: Outcome, quiet: bool) { exists k: nat, d :: Clash(o, k, d, quiet) }

  lemma ClashStays(o: Outcome, e: Event, quiet: bool)
    requires Clashes(o, quiet)
    ensures Clashes(Plays(o, e), quiet)
  {
    hide Acts, WellFormed, WithinLimits, RegisteredAfter;
    var k: nat, d :| Clash(o, k, d, quiet);
    var o' := Plays(o, e);
    assert o'.control[..k] == o.control[..k];
    assert Clash(o', k, d, quiet);
  }

  // ------------------------------------------- no clash, no misapplied state

  /** The bridge's registration of an id came from a handled announcement it could take. */
  ghost predicate CameFrom(control: seq<C.ControlMessage>, h: nat, id: ControllerId, registration: nat, quiet: bool) {
    exists k: nat :: k < h && Takeable(control, k, quiet) && control[k].connected.id == id
                     && control[k].registration == registration
  }

  /** How a run stands to the outcome of its client's schedule so far. */
  ghost predicate Tracks(l: Link, o: Outcome, quiet: bool) {
    && BridgeState.Inv(l.bridge) && l.client == o.client && |l.control| <= |o.control|
    && var h := |o.control| - |l.control|;
    && l.control == o.control[h..]
    && (forall d | d in l.flying :: d in o.states)
    && (forall id | id in l.bridge.controllers ::
          id in l.greeted && CameFrom(o.control, h, id, l.greeted[id], quiet))
    && (quiet ==> !l.bridge.closed && l.bridge.controllers.Keys == RegisteredAfter(o.control[..h]))
    && (l.stray ==> Clashes(o, quiet))
  }

  lemma CameFromStays(control: seq<C.ControlMessage>, more: seq<C.ControlMessage>, h: nat, id: ControllerId,
                      registration: nat, quiet: bool)
    requires CameFrom(control, h, id, registration, quiet)
    ensures CameFrom(control + more, h, id, registration, quiet)
    ensures CameFrom(control, h + 1, id, registration, quiet)
  {
    hide WithinLimits, RegisteredAfter;
    var k: nat :| k < h && Takeable(control, k, quiet) && control[k].connected.id == id
                  && control[k].registration == registration;
    assert (control + more)[..k] == control[..k];
    assert Takeable(control + more, k, quiet);
  }

  /** At most one state at a time. */
  lemma ActsSendsAtMostOne(c: C.Client, e: Event)
    requires IsClientEvent(e)
    ensures |Acts(c, e).states| <= 1
  {}

  lemma StepActs(l: Link, e: Event)
    requires BridgeState.Inv(l.bridge) && IsClientEvent(e)
    ensures Step(l, e).bridge == l.bridge && Step(l, e).greeted == l.greeted && Step(l, e).stray == l.stray
    ensures Step(l, e).client == Acts(l.client, e).client
    ensures Step(l, e).control == l.control + Acts(l.client, e).control
    ensures Step(l, e).flying == l.flying + multiset(Acts(l.client, e).states)
  {
    hide BridgeState.Inv, Greet, Receive, B.Step, C.Register, C.Announce, C.SendState, C.Unregister;
    ActsSendsAtMostOne(l.client, e);
    var states := Acts(l.client, e).states;
    assert states == [] || states == [states[0]];
    assert l.control + [] == l.control;
  }

  lemma ClientStepTracks(l: Link, e: Event, o: Outcome, quiet: bool)
    requires Tracks(l, o, quiet) && IsClientEvent(e)
    ensures Tracks(Step(l, e), Plays(o, e), quiet)
  {
    hide BridgeState.Inv, CameFrom, Clashes, RegisteredAfter, Acts, Step;
    StepActs(l, e);
    var s, h := Acts(o.client, e), |o.control| - |l.control|;
    var o', l' := Plays(o, e), Step(l, e);
    assert o'.control[h..] == o.control[h..] + s.control;
    assert o'.control[..h] == o.control[..h];
    forall id | id in l'.bridge.controllers ensures CameFrom(o'.control, h, id, l'.greeted[id], quiet) {
      CameFromStays(o.control, s.control, h, id, l.greeted[id], quiet);
    }
    if l.stray { ClashStays(o, e, quiet); }
  }

  lemma GreetIs(l: Link, ok: bool)
    requires BridgeState.Inv(l.bridge) && l.control != []
    ensures SlotsInRange(l.bridge)
    ensures var l' := Greet(l, ok);
            match l.control[0]
            case Hello(m, registration) =>
              && l'.bridge == Connect(l.bridge, m, ok)
              && l'.greeted == if WithinLimits(m) && !l.bridge.closed && m.id in l'.bridge.controllers
                               then l.greeted[m.id := registration] else l.greeted
            case Goodbye(id) => l'.bridge == Disconnect(l.bridge, id) && l'.greeted == l.greeted
  {
    hide BridgeState.Inv, Connect, Disconnect, WithinLimits;
    InvIsInRange(l.bridge);
  }

  /** What handling one control message does to the registered ids. */
  lemma GreetedIds(l: Link, ok: bool)
    requires BridgeState.Inv(l.bridge) && l.control != [] && !l.bridge.closed
    ensures Greet(l, ok).bridge.controllers.Keys == Handle(l.bridge.controllers.Keys, l.control[0])
    ensures !Greet(l, ok).bridge.closed
  {
    hide *;
    GreetIs(l, ok);
    match l.control[0]
    case Hello(_, _) => HelloHandles(l.bridge, l.control[0], ok);
    case Goodbye(_) => GoodbyeHandles(l.bridge, l.control[0]);
  }

  lemma HelloHandles(s: State, m: C.ControlMessage, ok: bool)
    requires BridgeState.Inv(s) && !s.closed && m.Hello?
    ensures SlotsInRange(s) && !Connect(s, m.connected, ok).closed
    ensures Connect(s, m.connected, ok).controllers.Keys == Handle(s.controllers.Keys, m)
  {
    hide BridgeState.Inv, Connect, WithinLimits, SlotsInRange;
    InvIsInRange(s);
    if WithinLimits(m.connected) { ConnectedIds(s, m.connected, ok); } else { RefusedStays(s, m.connected, ok); }
  }

  lemma GoodbyeHandles(s: State, m: C.ControlMessage)
    requires BridgeState.Inv(s) && !s.closed && m.Goodbye?
    ensures SlotsInRange(s) && !Disconnect(s, m.id).closed
    ensures Disconnect(s, m.id).controllers.Keys == Handle(s.controllers.Keys, m)
  {
    hide BridgeState.Inv, Disconnect, SlotsInRange;
    InvIsInRange(s);
    DisconnectedIds(s, m.id);
  }

  lemma RefusedStays(s: State, m: Connected, ok: bool)
    requires BridgeState.Inv(s) && (!WithinLimits(m) || s.closed)
    ensures Connect(s, m, ok) == s
  {}

  lemma DisconnectedIds(s: State, id: ControllerId)
    requires BridgeState.Inv(s) && !s.closed
    ensures SlotsInRange(s)
    ensures Disconnect(s, id).controllers.Keys
         == if id < TWO_TO_THE_32 then s.controllers.Keys - {id} else s.controllers.Keys
    ensures !Disconnect(s, id).closed
  {
    hide BridgeState.Inv;
    InvIsInRange(s);
    RemovedIds(s, id);
  }

  lemma RemovedIds(s: State, id: ControllerId)
    requires BridgeState.Inv(s)
    ensures Remove(s, id).controllers.Keys == s.controllers.Keys - {id}
  {
    hide BridgeState.Inv, Remove;
    B.RemoveKeepsInv(s, id);
  }

  lemma ConnectedOrFull(s: State, m: Connected, ok: bool)
    requires BridgeState.Inv(s) && WithinLimits(m) && !s.closed
    ensures SlotsInRange(s) && BridgeState.Inv(Connect(s, m, ok))
    ensures var ids, s' := s.controllers.Keys, Connect(s, m, ok);
            if m.id in s'.controllers
            then s'.controllers.Keys == ids + {m.id} && s'.controllers[m.id].diagnostics.last == None
            else s'.controllers.Keys == ids - {m.id} && |ids - {m.id}| >= MAXIMUM_GAMEPADS
  {
    hide BridgeState.Inv, Remove, Connect, WithinLimits;
    InvIsInRange(s);
    RemovedIds(s, m.id);
    B.ConnectTakesLowestFreeSlot(s, m, ok);
    B.RemoveKeepsInv(s, m.id);
    B.ConnectKeepsInv(s, m, ok);
    var s1, s' := Remove(s, m.id), Connect(s, m, ok);
    if m.id in s'.controllers {
      assert s'.controllers.Keys == (s'.controllers - {m.id}).Keys + {m.id};
    } else {
      InvIsStructure(s1);
      GamepadSlots.FullTableHasSixteen(s1);
      assert |s1.controllers| == |s1.controllers.Keys|;
    }
  }

  lemma InvIsStructure(s: State)
    requires BridgeState.Inv(s)
    ensures Structure(s)
  {}

  lemma ConnectedIds(s: State, m: Connected, ok: bool)
    requires BridgeState.Inv(s) && WithinLimits(m) && !s.closed
    ensures SlotsInRange(s)
    ensures var ids, s' := s.controllers.Keys, Connect(s, m, ok);
            && s'.controllers.Keys == (if |ids - {m.id}| < MAXIMUM_GAMEPADS then ids + {m.id} else ids - {m.id})
            && !s'.closed && (m.id in s'.controllers <==> |ids - {m.id}| < MAXIMUM_GAMEPADS)
  {
    hide *;
    ConnectedOrFull(s, m, ok);
    ConnectStaysOpen(s, m, ok);
    var s' := Connect(s, m, ok);
    if m.id in s'.controllers {
      InvIsStructure(s');
      Guarantees.AtMostSixteen(s');
      OneMoreFits(s'.controllers, s.controllers.Keys, m.id);
    }
  }

  lemma OneMoreFits(controllers: map<ControllerId, Controller>, ids: set<ControllerId>, id: ControllerId)
    requires controllers.Keys == ids + {id} && |controllers| <= MAXIMUM_GAMEPADS
    ensures |ids - {id}| < MAXIMUM_GAMEPADS
  {
    assert |controllers| == |controllers.Keys|;
    assert controllers.Keys == (ids - {id}) + {id};
  }

  lemma ConnectStaysOpen(s: State, m: Connected, ok: bool)
    requires BridgeState.Inv(s) && WithinLimits(m) && !s.closed
    ensures !Connect(s, m, ok).closed
  {}

  lemma HelloTracks(l: Link, ok: bool, o: Outcome, quiet: bool)
    requires Tracks(l, o, quiet) && l.control != []
    ensures Tracks(Greet(l, ok), o, quiet)
  {
    hide BridgeState.Inv, CameFrom, Clashes, RegisteredAfter, Handle;
    var h := |o.control| - |l.control|;
    var l' := Greet(l, ok);
    StepKeepsBridge(l, DeliverControl(ok));
    assert o.control[h..][0] == o.control[h] && o.control[h..][1..] == o.control[h + 1..];
    assert o.control[..h + 1][..h] == o.control[..h];
    GreetedFrom(l, ok, o, quiet);
    if quiet { GreetedIds(l, ok); HandledOneMore(o.control, h); }
    GreetEffect(l, ok);
  }

  lemma HandledOneMore(control: seq<C.ControlMessage>, h: nat)
    requires h < |control|
    ensures RegisteredAfter(control[..h + 1]) == Handle(RegisteredAfter(control[..h]), control[h])
  {
    hide Handle;
    assert control[..h + 1][..h] == control[..h];
  }

  lemma GreetEffect(l: Link, ok: bool)
    requires BridgeState.Inv(l.bridge) && l.control != []
    ensures var l' := Greet(l, ok);
            && l'.control == l.control[1..] && l'.client == l.client && l'.flying == l.flying && l'.stray == l.stray
  {
    hide BridgeState.Inv;
  }

  lemma GreetedFrom(l: Link, ok: bool, o: Outcome, quiet: bool)
    requires Tracks(l, o, quiet) && l.control != []
    ensures var l', h := Greet(l, ok), |o.control| - |l.control|;
            forall id | id in l'.bridge.controllers ::
              id in l'.greeted && CameFrom(o.control, h + 1, id, l'.greeted[id], quiet)
  {
    hide BridgeState.Inv, CameFrom, Clashes, RegisteredAfter;
    var l', h := Greet(l, ok), |o.control| - |l.control|;
    assert l.control[0] == o.control[h];
    GreetKeepsOthers(l, ok);
    forall id | id in l'.bridge.controllers
      ensures id in l'.greeted && CameFrom(o.control, h + 1, id, l'.greeted[id], quiet)
    {
      if TakesHello(l, ok, id) {
        TakenWasTakeable(l, ok, o, quiet);
      } else {
        CameFromStays(o.control, [], h, id, l.greeted[id], quiet);
      }
    }
  }

  /** The head of the queue is this id's announcement and the bridge registers it. */
  ghost predicate TakesHello(l: Link, ok: bool, id: ControllerId)
    requires BridgeState.Inv(l.bridge) && l.control != []
  {
    && l.control[0].Hello? && l.control[0].connected.id == id && WithinLimits(l.control[0].connected)
    && !l.bridge.closed && id in Greet(l, ok).bridge.controllers
  }

  lemma GreetKeepsOthers(l: Link, ok: bool)
    requires BridgeState.Inv(l.bridge) && l.control != []
    ensures var l' := Greet(l, ok);
            forall id | id in l'.bridge.controllers ::
              if TakesHello(l, ok, id) then id in l'.greeted && l'.greeted[id] == l.control[0].registration
              else id in l.bridge.controllers
                   && (id in l.greeted ==> id in l'.greeted && l'.greeted[id] == l.greeted[id])
  {
    GreetIs(l, ok);
    hide BridgeState.Inv, Connect, Disconnect, Greet, WithinLimits;
    match l.control[0]
    case Goodbye(id) =>
      if l.bridge.closed { ClosedStays(l.bridge, id); } else { DisconnectedIds(l.bridge, id); }
    case Hello(m, _) =>
      if !WithinLimits(m) || l.bridge.closed { RefusedStays(l.bridge, m, ok); } else { ConnectedIds(l.bridge, m, ok); }
  }

  lemma ClosedStays(s: State, id: ControllerId)
    requires BridgeState.Inv(s) && s.closed
    ensures Disconnect(s, id) == s
  {}

  lemma TakenWasTakeable(l: Link, ok: bool, o: Outcome, quiet: bool)
    requires Tracks(l, o, quiet) && l.control != [] && l.control[0].Hello?
    requires TakesHello(l, ok, l.control[0].connected.id)
    ensures var h := |o.control| - |l.control|;
            CameFrom(o.control, h + 1, l.control[0].connected.id, l.control[0].registration, quiet)
  {
    hide BridgeState.Inv, Clashes, RegisteredAfter, CameFrom, Greet, Connect, WithinLimits;
    var h := |o.control| - |l.control|;
    assert l.control[0] == o.control[h];
    GreetIs(l, ok);
    ConnectedIds(l.bridge, l.control[0].connected, ok);
    assert Takeable(o.control, h, quiet);
    CameFromHead(o.control, h, quiet);
  }

  lemma CameFromHead(control: seq<C.ControlMessage>, h: nat, quiet: bool)
    requires Takeable(control, h, quiet)
    ensures CameFrom(control, h + 1, control[h].connected.id, control[h].registration, quiet)
  {
    hide RegisteredAfter, WithinLimits;
  }

  lemma ReceiveEffect(l: Link, d: C.Datagram, at: int)
    requires BridgeState.Inv(l.bridge) && d in l.flying
    ensures var l' := Receive(l, d, at);
            && l'.client == l.client && l'.control == l.control && l'.greeted == l.greeted
            && (forall x | x in l'.flying :: x in l.flying)
            && l'.bridge.controllers.Keys == l.bridge.controllers.Keys && l'.bridge.closed == l.bridge.closed
            && (l'.stray && !l.stray ==>
                  Accepts(l.bridge, d.message)
                  && (d.message.id !in l.greeted || l.greeted[d.message.id] != d.registration))
  {
    hide BridgeState.Inv, Accepts, Input;
    InvIsInRange(l.bridge);
    InputMovesLast(l.bridge, d.message, at);
    InputStaysOpen(l.bridge, d.message, at);
  }

  lemma ReceiveTracks(l: Link, d: C.Datagram, at: int, o: Outcome, quiet: bool)
    requires Tracks(l, o, quiet)
    ensures Tracks(Receive(l, d, at), o, quiet)
  {
    hide BridgeState.Inv, CameFrom, RegisteredAfter, Clashes, Accepts, Receive;
    if d !in l.flying {
      NothingReceived(l, d, at);
    } else {
      ReceiveKeepsBridge(l, d, at);
      ReceiveEffect(l, d, at);
      if Receive(l, d, at).stray && !l.stray { StrayIsClash(l, d, o, quiet); }
    }
  }

  lemma NothingReceived(l: Link, d: C.Datagram, at: int)
    requires BridgeState.Inv(l.bridge) && d !in l.flying
    ensures Receive(l, d, at) == l
  {
    hide BridgeState.Inv;
  }

  lemma ReceiveKeepsBridge(l: Link, d: C.Datagram, at: int)
    requires BridgeState.Inv(l.bridge)
    ensures BridgeState.Inv(Receive(l, d, at).bridge)
  {
    hide BridgeState.Inv, Receive;
    StepKeepsBridge(l, DeliverState(d, at));
  }

  lemma InvIsInRange(s: State)
    requires BridgeState.Inv(s)
    ensures SlotsInRange(s)
  {}

  lemma InputStaysOpen(s: State, m: StateMessage, at: int)
    requires SlotsInRange(s)
    ensures Input(s, m, at).closed == s.closed
  {}

  lemma StrayIsClash(l: Link, d: C.Datagram, o: Outcome, quiet: bool)
    requires Tracks(l, o, quiet) && d in l.flying && Accepts(l.bridge, d.message)
    requires d.message.id !in l.greeted || l.greeted[d.message.id] != d.registration
    ensures Clashes(o, quiet)
  {
    hide BridgeState.Inv, RegisteredAfter, WellFormed, WithinLimits;
    var id, h := d.message.id, |o.control| - |l.control|;
    AcceptsKnows(l.bridge, d.message);
    assert CameFrom(o.control, h, id, l.greeted[id], quiet);
    var k: nat :| k < h && Takeable(o.control, k, quiet) && o.control[k].connected.id == id
                  && o.control[k].registration == l.greeted[id];
    assert Clash(o, k, d, quiet);
  }

  lemma AcceptsKnows(s: State, m: StateMessage)
    requires Accepts(s, m)
    ensures WellFormed(m) && m.id in s.controllers
  {}

  lemma SessionStepTracks(l: Link, e: Event, o: Outcome)
    requires Tracks(l, o, false) && IsSessionEvent(e)
    ensures Tracks(Step(l, e), o, false)
  {
    hide BridgeState.Inv, CameFrom, RegisteredAfter, Clashes;
    StepKeepsBridge(l, e);
    match e
    case SessionActive(active, arrivals) => GamepadSlots.NoNewControllers(l.bridge, B.ESetActive(active, arrivals));
    case TransportClosed => GamepadSlots.NoNewControllers(l.bridge, B.ETransportClosed);
    case Shutdown => GamepadSlots.NoNewControllers(l.bridge, B.EShutdown);
  }

  lemma StepTracks(l: Link, e: Event, o: Outcome, quiet: bool)
    requires Tracks(l, o, quiet) && (quiet ==> !IsSessionEvent(e))
    ensures Tracks(Step(l, e), Plays(o, e), quiet)
  {
    hide Tracks, BridgeState.Inv, Absorb, Greet, Receive, B.Step, Acts;
    TracksKeepsBridge(l, o, quiet);
    if IsClientEvent(e) {
      ClientStepTracks(l, e, o, quiet);
    } else if IsSessionEvent(e) {
      SessionStepTracks(l, e, o);
    } else {
      match e
      case DeliverControl(ok) => if l.control != [] { HelloTracks(l, ok, o, quiet); }
      case DeliverState(d, at) => ReceiveTracks(l, d, at, o, quiet);
      case Lose(d) => LoseTracks(l, d, o, quiet);
    }
  }

  lemma LoseTracks(l: Link, d: C.Datagram, o: Outcome, quiet: bool)
    requires Tracks(l, o, quiet)
    ensures Tracks(l.(flying := l.flying - multiset{d}), o, quiet)
  {
    hide BridgeState.Inv, CameFrom, RegisteredAfter, Clashes;
    assert forall x | x in l.flying - multiset{d} :: x in l.flying;
  }

  lemma {:induction false} RunTracks(l: Link, events: seq<Event>, o: Outcome, quiet: bool)
    requires Tracks(l, o, quiet) && (quiet ==> forall e | e in events :: !IsSessionEvent(e))
    ensures Tracks(Run(l, events), OutcomeFrom(o, events), quiet)
    decreases |events|
  {
    hide Tracks, Step, Plays;
    TracksKeepsBridge(l, o, quiet);
    if events != [] {
      assert events[0] in events && forall e | e in events[1..] :: e in events;
      StepTracks(l, events[0], o, quiet);
      RunTracks(Step(l, events[0]), events[1..], Plays(o, events[0]), quiet);
    }
  }

  lemma TracksKeepsBridge(l: Link, o: Outcome, quiet: bool)
    requires Tracks(l, o, quiet)
    ensures BridgeState.Inv(l.bridge) && (l.stray ==> Clashes(o, quiet))
  {}

  lemma OpeningTracks(quiet: bool)
    ensures Tracks(Opening(), NOTHING_SENT, quiet)
  {
    B.InitialInv();
    var ids: set<ControllerId> := {};
    assert Opening().bridge.controllers.Keys == ids;
  }

  lemma SkipsOthers(o: Outcome, e: Event)
    requires !IsClientEvent(e)
    ensures Plays(o, e) == o
  {}

  lemma {:induction false} OutcomeOfClientPart(o: Outcome, events: seq<Event>)
    ensures OutcomeFrom(o, events) == OutcomeFrom(o, ClientPart(events))
    decreases |events|
  {
    hide Acts, Plays;
    if events != [] {
      var later := ClientPart(events[1..]);
      OutcomeOfClientPart(Plays(o, events[0]), events[1..]);
      if IsClientEvent(events[0]) {
        assert ([events[0]] + later)[1..] == later;
      } else {
        SkipsOthers(o, events[0]);
        assert [] + later == later;
      }
    }
  }

  lemma NoClashNoStray(events: seq<Event>, schedule: seq<Event>, quiet: bool)
    requires Interleaves(events, schedule, quiet) && !Clashes(OutcomeOf(schedule), quiet)
    ensures !RunFromStart(events).stray
  {
    hide Tracks, Clashes;
    OpeningTracks(quiet);
    OpeningInv();
    RunTracks(Opening(), events, NOTHING_SENT, quiet);
    OutcomeOfClientPart(NOTHING_SENT, events);
    TracksKeepsBridge(RunFromStart(events), OutcomeOf(schedule), quiet);
  }

  // --------------------------------------- a clash, and a run that shows it

  lemma {:induction false} RunThen(l: Link, a: seq<Event>, b: seq<Event>)
    requires BridgeState.Inv(l.bridge)
    ensures Run(l, a + b) == Run(Run(l, a), b)
    decreases |a|
  {
    hide BridgeState.Inv, Step;
    if a == [] {
      assert a + b == b;
    } else {
      StepKeepsBridge(l, a[0]);
      assert (a + b)[1..] == a[1..] + b;
      RunThen(Step(l, a[0]), a[1..], b);
    }
  }

  lemma RunOne(l: Link, e: Event)
    requires BridgeState.Inv(l.bridge)
    ensures Run(l, [e]) == Step(l, e)
  {
    hide BridgeState.Inv, Step;
    StepKeepsBridge(l, e);
    assert [e][1..] == [];
  }

  /** Nothing delivered yet: everything the schedule sent is still on the channels. */
  ghost predicate Undelivered(l: Link, o: Outcome) {
    && l.bridge == Initial() && l.greeted == map[] && l.client == o.client
    && l.control == o.control && l.flying == multiset(o.states)
  }

  lemma {:induction false} ScheduleDeliversNothing(l: Link, schedule: seq<Event>, o: Outcome)
    requires BridgeState.Inv(l.bridge) && Undelivered(l, o) && forall e | e in schedule :: IsClientEvent(e)
    ensures Undelivered(Run(l, schedule), OutcomeFrom(o, schedule))
    decreases |schedule|
  {
    hide BridgeState.Inv, Step, Acts;
    if schedule != [] {
      var e := schedule[0];
      assert e in schedule && forall x | x in schedule[1..] :: x in schedule;
      StepKeepsBridge(l, e);
      StepActs(l, e);
      assert multiset(o.states + Acts(o.client, e).states) == multiset(o.states) + multiset(Acts(o.client, e).states);
      ScheduleDeliversNothing(Step(l, e), schedule[1..], Plays(o, e));
    }
  }

  function Deliveries(k: nat): seq<Event> { seq(k, _ => DeliverControl(true)) }

  /** The first k control messages handled, no state delivered. */
  lemma {:induction false} DeliverFirst(l: Link, o: Outcome, k: nat)
    requires BridgeState.Inv(l.bridge) && Undelivered(l, o) && k <= |o.control|
    ensures var l' := Run(l, Deliveries(k));
            && l'.control == o.control[k..] && l'.flying == l.flying && l'.client == l.client && !l'.bridge.closed
            && l'.bridge.controllers.Keys == RegisteredAfter(o.control[..k])
  {
    hide BridgeState.Inv, Step, Handle, Greet;
    if k == 0 {
      var ids: set<ControllerId> := {};
      assert Initial().controllers.Keys == ids;
    } else {
      DeliverFirst(l, o, k - 1);
      assert Deliveries(k) == Deliveries(k - 1) + [DeliverControl(true)];
      RunThen(l, Deliveries(k - 1), [DeliverControl(true)]);
      var l1 := Run(l, Deliveries(k - 1));
      RunOne(l1, DeliverControl(true));
      StepIsGreet(l1);
      GreetedIds(l1, true);
      GreetEffect(l1, true);
      HandledOneMore(o.control, k - 1);
    }
  }

  lemma StepIsGreet(l: Link)
    requires BridgeState.Inv(l.bridge) && l.control != []
    ensures Step(l, DeliverControl(true)) == Greet(l, true)
  {
    hide BridgeState.Inv, Greet;
  }

  const SESSION_RESTARTS: seq<Event> := [SessionActive(true, {}), SessionActive(false, {})]

  /** A session that starts and ends clears the bridge and touches nothing else. */
  lemma RestartEmptiesBridge(l: Link)
    requires BridgeState.Inv(l.bridge) && !l.bridge.closed
    ensures var l' := Run(l, SESSION_RESTARTS);
            && l'.control == l.control && l'.flying == l.flying && l'.client == l.client
            && !l'.bridge.closed && l'.bridge.controllers == map[]
  {
    hide BridgeState.Inv;
    var on, off := SessionActive(true, {}), SessionActive(false, {});
    assert SESSION_RESTARTS == [on] + [off];
    RunThen(l, [on], [off]);
    RunOne(l, on);
    StepKeepsBridge(l, on);
    RunOne(Step(l, on), off);
  }

  /** The clashing announcement is handled with the state still in flight; then the state comes. */
  lemma LateStateIsStray(l: Link, d: C.Datagram)
    requires BridgeState.Inv(l.bridge) && !l.bridge.closed && l.control != [] && l.control[0].Hello?
    requires WithinLimits(l.control[0].connected) && d in l.flying && WellFormed(d.message)
    requires d.message.id == l.control[0].connected.id && d.registration != l.control[0].registration
    requires |l.bridge.controllers.Keys - {d.message.id}| < MAXIMUM_GAMEPADS
    ensures Run(l, [DeliverControl(true), DeliverState(d, 0)]).stray
  {
    hide BridgeState.Inv, Connect, WithinLimits, WellFormed, Input;
    var m := l.control[0].connected;
    StepKeepsBridge(l, DeliverControl(true));
    RunThen(l, [DeliverControl(true)], [DeliverState(d, 0)]);
    assert [DeliverControl(true), DeliverState(d, 0)] == [DeliverControl(true)] + [DeliverState(d, 0)];
    RunOne(l, DeliverControl(true));
    StepIsGreet(l);
    GreetIs(l, true);
    GreetEffect(l, true);
    ConnectedIds(l.bridge, m, true);
    ConnectedOrFull(l.bridge, m, true);
    hide Greet, Step;
    var l1 := Greet(l, true);
    RunOne(l1, DeliverState(d, 0));
    StepIsReceive(l1, d);
    ReceivedFresh(l1, d);
  }

  lemma StepIsReceive(l: Link, d: C.Datagram)
    requires BridgeState.Inv(l.bridge)
    ensures Step(l, DeliverState(d, 0)) == Receive(l, d, 0)
  {
    hide BridgeState.Inv, Receive;
  }

  lemma ReceivedFresh(l: Link, d: C.Datagram)
    requires BridgeState.Inv(l.bridge) && !l.bridge.closed && d in l.flying && WellFormed(d.message)
    requires var id := d.message.id;
             && id in l.bridge.controllers && l.bridge.controllers[id].diagnostics.last == None
             && id in l.greeted && l.greeted[id] != d.registration
    ensures Receive(l, d, 0).stray
  {
    hide BridgeState.Inv, Input, WellFormed;
  }

  lemma {:induction false} ClientPartOfSum(a: seq<Event>, b: seq<Event>)
    ensures ClientPart(a + b) == ClientPart(a) + ClientPart(b)
    decreases |a|
  {
    hide IsClientEvent;
    if a == [] {
      assert a + b == b && [] + ClientPart(b) == ClientPart(b);
    } else {
      assert (a + b)[1..] == a[1..] + b;
      ClientPartOfSum(a[1..], b);
      var head := if IsClientEvent(a[0]) then [a[0]] else [];
      assert head + (ClientPart(a[1..]) + ClientPart(b)) == (head + ClientPart(a[1..])) + ClientPart(b);
    }
  }

  lemma {:induction false} ClientPartOfSchedule(schedule: seq<Event>)
    requires forall e | e in schedule :: IsClientEvent(e)
    ensures ClientPart(schedule) == schedule
    decreases |schedule|
  {
    if schedule != [] {
      assert schedule[0] in schedule && forall e | e in schedule[1..] :: e in schedule;
      ClientPartOfSchedule(schedule[1..]);
    }
  }

  lemma {:induction false} NoClientPart(events: seq<Event>)
    requires forall e | e in events :: !IsClientEvent(e)
    ensures ClientPart(events) == []
    decreases |events|
  {
    if events != [] {
      assert events[0] in events && forall e | e in events[1..] :: e in events;
      NoClientPart(events[1..]);
    }
  }

  /** The channels' part of the run that shows a clash. */
  function Tail(k: nat, d: C.Datagram, quiet: bool): seq<Event> {
    Deliveries(k) + (if quiet then [] else SESSION_RESTARTS) + [DeliverControl(true), DeliverState(d, 0)]
  }

  lemma TailIsTheChannels(k: nat, d: C.Datagram, quiet: bool)
    ensures forall e | e in Tail(k, d, quiet) :: !IsClientEvent(e) && (quiet ==> !IsSessionEvent(e))
  {
    var last := [DeliverControl(true), DeliverState(d, 0)];
    forall e | e in Tail(k, d, quiet) ensures !IsClientEvent(e) && (quiet ==> !IsSessionEvent(e)) {
      assert e in Deliveries(k) || (!quiet && e in SESSION_RESTARTS) || e in last;
    }
  }

  lemma TailInterleaves(schedule: seq<Event>, k: nat, d: C.Datagram, quiet: bool)
    requires forall e | e in schedule :: IsClientEvent(e)
    ensures Interleaves(schedule + Tail(k, d, quiet), schedule, quiet)
  {
    hide Tail, ClientPart;
    var tail := Tail(k, d, quiet);
    TailIsTheChannels(k, d, quiet);
    ClientPartOfSum(schedule, tail);
    ClientPartOfSchedule(schedule);
    NoClientPart(tail);
    assert schedule + [] == schedule;
  }

  lemma ClashShows(schedule: seq<Event>, k: nat, d: C.Datagram, quiet: bool) returns (events: seq<Event>)
    requires forall e | e in schedule :: IsClientEvent(e)
    requires Clash(OutcomeOf(schedule), k, d, quiet)
    ensures Interleaves(events, schedule, quiet) && RunFromStart(events).stray
  {
    hide BridgeState.Inv, Run, WithinLimits, WellFormed, RegisteredAfter, OutcomeFrom, Interleaves;
    var o := OutcomeOf(schedule);
    var tail := Tail(k, d, quiet);
    events := schedule + tail;
    TailInterleaves(schedule, k, d, quiet);
    OpeningInv();
    RunThen(Opening(), schedule, tail);
    ScheduleDeliversNothing(Opening(), schedule, NOTHING_SENT);
    var l0 := RunFromStart(schedule);
    var first, restart, last :=
      Deliveries(k), if quiet then [] else SESSION_RESTARTS, [DeliverControl(true), DeliverState(d, 0)];
    assert tail == first + (restart + last);
    RunThen(l0, first, restart + last);
    DeliverFirst(l0, o, k);
    var l1 := Run(l0, first);
    RunThen(l1, restart, last);
    RestartOrNot(l1, quiet);
    var l2 := Run(l1, restart);
    assert l2.control[0] == o.control[k];
    LateStateIsStray(l2, d);
  }

  lemma RestartOrNot(l: Link, quiet: bool)
    requires BridgeState.Inv(l.bridge) && !l.bridge.closed
    ensures var l' := Run(l, if quiet then [] else SESSION_RESTARTS);
            && l'.control == l.control && l'.flying == l.flying && l'.client == l.client && !l'.bridge.closed
            && (if quiet then l' == l else l'.bridge.controllers == map[])
  {
    hide BridgeState.Inv, Step;
    if !quiet { RestartEmptiesBridge(l); }
  }

  // ------------------------------------------------------------ the theorem

  /** A client schedule is safe under every delivery if and only if it does not clash. With
      deliveries and losses only, an announcement clashes if the bridge finds it a slot; if
      sessions may end meanwhile, every announcement within the limits can get one. */
  lemma StrayFreeIffNoClash(schedule: seq<Event>, quiet: bool)
    requires forall e | e in schedule :: IsClientEvent(e)
    ensures (forall events | Interleaves(events, schedule, quiet) :: !RunFromStart(events).stray)
            <==> !Clashes(OutcomeOf(schedule), quiet)
  {
    hide Interleaves, OutcomeOf, RunFromStart, Clash;
    if Clashes(OutcomeOf(schedule), quiet) {
      var k: nat, d :| Clash(OutcomeOf(schedule), k, d, quiet);
      var events := ClashShows(schedule, k, d, quiet);
    } else {
      forall events | Interleaves(events, schedule, quiet) ensures !RunFromStart(events).stray {
        NoClashNoStray(events, schedule, quiet);
      }
    }
  }

  lemma {:induction false} ClientPartKeeps(events: seq<Event>, e: Event)
    requires e in events && IsClientEvent(e)
    ensures e in ClientPart(events)
    decreases |events|
  {
    if e != events[0] {
      assert e in events[1..];
      ClientPartKeeps(events[1..], e);
    }
  }

  /** One session never clashes. */
  lemma OneSessionNeverClashes(schedule: seq<Event>, quiet: bool)
    requires OneSession(schedule) && forall e | e in schedule :: IsClientEvent(e)
    ensures !Clashes(OutcomeOf(schedule), quiet)
  {
    hide Clashes, OutcomeOf, RunFromStart, ClientPart;
    StrayFreeIffNoClash(schedule, quiet);
    forall events: seq<Event> | Interleaves(events, schedule, quiet) ensures !RunFromStart(events).stray {
      forall e: Event | e in events ensures !e.BeginSession? {
        if e.BeginSession? { ClientPartKeeps(events, e); }
      }
      AcceptedInOrder(events, 0);
    }
  }

  /** A gamepad present at both of two beginSessions of one connection, a state taken between. */
  function TwoSessions(g: C.Gamepad, sample: C.Sample): seq<Event> {
    [Register(g, true), Send(g.index, sample, true), BeginSession, Register(g, true)]
  }

  lemma TwoSessionsSend(g: C.Gamepad, sample: C.Sample)
    ensures var first, second := C.Record(g, 1, 0, true, 0), C.Record(g, 1, 1, true, 0);
            var o := OutcomeOf(TwoSessions(g, sample));
            && o.control == [C.HelloOf(first), C.HelloOf(second)] && o.states == [C.StateOf(first, sample)]
  {
    var r0, r1 := C.Record(g, 1, 0, true, 0), C.Record(g, 1, 1, true, 0);
    var events := TwoSessions(g, sample);
    var o1 := Plays(NOTHING_SENT, events[0]);
    assert o1 == Outcome(C.Client(map[g.index := r0], 2, 1), [C.HelloOf(r0)], []);
    var o2 := Plays(o1, events[1]);
    assert o2 == Outcome(C.Client(map[g.index := r0.(sequence := 1)], 2, 1), [C.HelloOf(r0)], [C.StateOf(r0, sample)]);
    var o3 := Plays(o2, events[2]);
    assert o3 == Outcome(C.Client(map[], 1, 1), [C.HelloOf(r0)], [C.StateOf(r0, sample)]);
    var o4 := Plays(o3, events[3]);
    assert o4 == Outcome(C.Client(map[g.index := r1], 2, 2), [C.HelloOf(r0), C.HelloOf(r1)], [C.StateOf(r0, sample)]);
    var e1, e2, e3 := events[1..], events[2..], events[3..];
    assert e1[1..] == e2 && e2[1..] == e3 && e3[1..] == [];
    assert OutcomeFrom(o3, e3) == OutcomeFrom(o4, []);
    assert OutcomeFrom(o2, e2) == OutcomeFrom(o3, e3);
    assert OutcomeFrom(o1, e1) == OutcomeFrom(o2, e2);
  }

  /** So two sessions on one connection can misapply a state, by reordering alone. */
  lemma SecondSessionCanMisapplyStates(g: C.Gamepad, sample: C.Sample) returns (events: seq<Event>)
    requires |g.name| <= 512 && |g.mapping| <= 128 && g.buttons <= 64 && g.axes <= 16 && sample.timestamp >= 0.0
    ensures Interleaves(events, TwoSessions(g, sample), true) && RunFromStart(events).stray
  {
    hide OutcomeOf, RunFromStart, Interleaves;
    TwoSessionsSend(g, sample);
    var o := OutcomeOf(TwoSessions(g, sample));
    HandledOneMore(o.control, 0);
    var ids := RegisteredAfter(o.control[..0 + 1]);
    assert o.control[..0] == [];
    assert ids <= {1};
    var none: set<ControllerId> := {};
    assert ids - {1} == none;
    events := ClashShows(TwoSessions(g, sample), 1, o.states[0], true);
  }
}
