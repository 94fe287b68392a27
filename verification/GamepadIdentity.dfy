/** Who a controller is, over every run of one session: the bridge registers an id with the
    name and abilities of the gamepad that the client gave the id. */
module GamepadIdentity {
  import opened Basics
  import opened GamepadProtocol
  import SequenceAccounting
  import StickMapping
  import opened BridgeState
  import B = BridgeInvariant
  import C = GamepadClient
  import opened GamepadLink

  type Gamepads = map<ControllerId, C.Gamepad>

  /** The gamepads that were registered, by the id each was given. */
  ghost function NoteGamepad(c: C.Client, e: Event, known: Gamepads): Gamepads {
    match e
    case Register(g, _) => if g.index !in c.records && |c.records| < 16 then known[c.nextId := g] else known
    case _ => known
  }

  ghost function Known(l: Link, events: seq<Event>, known: Gamepads): Gamepads
    requires BridgeState.Inv(l.bridge)
    decreases |events|
  {
    if events == [] then known
    else
      StepKeepsBridge(l, events[0]);
      Known(Step(l, events[0]), events[1..], NoteGamepad(l.client, events[0], known))
  }

  ghost predicate Describes(m: Connected, g: C.Gamepad) {
    && m.name == g.name && m.mapping == g.mapping && m.buttonCount == g.buttons && m.axisCount == g.axes
    && m.dualRumble == g.dualRumble && m.triggerRumble == g.triggerRumble
  }

  ghost predicate Is(c: Controller, g: C.Gamepad) {
    && c.name == g.name && c.buttonCount == g.buttons
    && c.rumble == g.dualRumble && c.triggerRumble == g.triggerRumble
  }

  ghost predicate ClientKnows(c: C.Client, known: Gamepads) {
    && (forall i | i in c.records :: c.records[i].id in known && known[c.records[i].id] == c.records[i].gamepad)
    && (forall id | id in known :: id < c.nextId)
  }

  ghost predicate QueueKnows(queue: seq<C.ControlMessage>, known: Gamepads) {
    forall k | 0 <= k < |queue| && queue[k].Hello? ::
      queue[k].connected.id in known && Describes(queue[k].connected, known[queue[k].connected.id])
  }

  ghost predicate BridgeKnows(s: State, known: Gamepads) {
    forall id | id in s.controllers :: id in known && Is(s.controllers[id], known[id])
  }

  ghost predicate Knows(l: Link, known: Gamepads) {
    && BridgeState.Inv(l.bridge) && ClientKnows(l.client, known)
    && QueueKnows(l.control, known) && BridgeKnows(l.bridge, known)
  }

  lemma MoreKnown(l: Link, known: Gamepads, g: C.Gamepad)
    requires Knows(l, known)
    ensures QueueKnows(l.control, known[l.client.nextId := g]) && BridgeKnows(l.bridge, known[l.client.nextId := g])
  {
    hide BridgeState.Inv, Describes, Is;
    assert l.client.nextId !in known;
  }

  lemma HelloDescribes(r: C.Record)
    ensures C.HelloOf(r).connected.id == r.id && Describes(C.HelloOf(r).connected, r.gamepad)
  {}

  lemma AnnounceKnows(c: C.Client, index: nat, taken: bool, known: Gamepads)
    requires ClientKnows(c, known)
    ensures ClientKnows(C.Announce(c, index, taken).client, known)
    ensures QueueKnows(C.Announce(c, index, taken).control, known)
  {
    if index in c.records { HelloDescribes(c.records[index]); }
  }

  lemma SendKnows(c: C.Client, index: nat, sample: C.Sample, taken: bool, known: Gamepads)
    requires ClientKnows(c, known)
    ensures ClientKnows(C.SendState(c, index, sample, taken).client, known)
  {}

  lemma UnregisterKnows(c: C.Client, index: nat, now: real, taken: bool, notified: bool, known: Gamepads)
    requires ClientKnows(c, known)
    ensures ClientKnows(C.Unregister(c, index, now, taken, notified).client, known)
    ensures QueueKnows(C.Unregister(c, index, now, taken, notified).control, known)
  {
    hide C.SendState;
    SendKnows(c, index, C.NeutralSample(now), taken, known);
  }

  lemma RegisterKnows(c: C.Client, g: C.Gamepad, taken: bool, known: Gamepads)
    requires ClientKnows(c, known)
    ensures var known' := NoteGamepad(c, Register(g, taken), known);
            ClientKnows(C.Register(c, g, taken).client, known') && QueueKnows(C.Register(c, g, taken).control, known')
  {
    if g.index !in c.records && |c.records| < 16 {
      hide C.Announce;
      var c1 := C.Client(c.records[g.index := C.NewRecord(c, g)], c.nextId + 1, c.registrations + 1);
      assert ClientKnows(c1, known[c.nextId := g]);
      AnnounceKnows(c1, g.index, taken, known[c.nextId := g]);
    }
  }

  lemma AbsorbKnows(l: Link, s: C.Sent, known: Gamepads)
    requires BridgeState.Inv(l.bridge) && BridgeKnows(l.bridge, known) && QueueKnows(l.control, known)
    requires ClientKnows(s.client, known) && QueueKnows(s.control, known)
    ensures Knows(Absorb(l, s), known)
  {
    hide BridgeState.Inv, BridgeKnows, ClientKnows, Describes;
    var queue := l.control + s.control;
    forall k | 0 <= k < |queue| && queue[k].Hello?
      ensures queue[k].connected.id in known && Describes(queue[k].connected, known[queue[k].connected.id])
    {
      assert queue[k] == if k < |l.control| then l.control[k] else s.control[k - |l.control|];
    }
  }

  /** A bridge event that registers nobody leaves everybody who they are. */
  lemma OthersStayThemselves(s: State, e: B.Event, known: Gamepads)
    requires BridgeState.Inv(s) && BridgeKnows(s, known) && !e.EConnect?
    ensures BridgeState.Inv(B.Step(s, e)) && BridgeKnows(B.Step(s, e), known)
  {
    hide BridgeState.Inv, B.Step;
    B.StepKeepsInv(s, e);
    forall id | id in B.Step(s, e).controllers ensures id in known && Is(B.Step(s, e).controllers[id], known[id]) {
      if e.EInput? && e.message.id == id {
        InputKeepsIdentity(s, e.message, e.at);
      } else {
        B.OtherEventsSpare(s, e, id);
      }
    }
  }

  lemma InputKeepsIdentity(s: State, m: StateMessage, at: int)
    requires BridgeState.Inv(s) && m.id in B.Step(s, B.EInput(m, at)).controllers
    ensures m.id in s.controllers
    ensures var c, c' := s.controllers[m.id], B.Step(s, B.EInput(m, at)).controllers[m.id];
            c'.name == c.name && c'.buttonCount == c.buttonCount && c'.rumble == c.rumble
            && c'.triggerRumble == c.triggerRumble
  {
    hide HostOk, Accept;
    if Accepts(s, m) {
      var c := s.controllers[m.id];
      var heard := c.(diagnostics := SequenceAccounting.Hear(c.diagnostics, m.sequence));
      AcceptKeepsIdentity(heard, m, at, s.host, s.active);
    }
  }

  lemma AcceptKeepsIdentity(c: Controller, m: StateMessage, at: int, host: Host, active: bool)
    requires c.slot < |host.pads|
    ensures var c' := Accept(c, m, at, host, active).controller;
            c'.name == c.name && c'.buttonCount == c.buttonCount && c'.rumble == c.rumble
            && c'.triggerRumble == c.triggerRumble
  {
    hide StickMapping.ToPad, PressAll, ReleaseAll, ShowPad, StartTimer, Rising, Falling;
  }

  lemma ConnectIdentifies(s: State, m: Connected, ok: bool, known: Gamepads)
    requires BridgeState.Inv(s) && BridgeKnows(s, known) && m.id in known && Describes(m, known[m.id])
    ensures BridgeState.Inv(B.Step(s, B.EConnect(m, ok))) && BridgeKnows(B.Step(s, B.EConnect(m, ok)), known)
  {
    hide BridgeState.Inv, Connect;
    var e := B.EConnect(m, ok);
    B.StepKeepsInv(s, e);
    forall id | id in B.Step(s, e).controllers ensures id in known && Is(B.Step(s, e).controllers[id], known[id]) {
      if id == m.id && WithinLimits(m) {
        NewIdentity(s, m, ok);
      } else {
        B.OtherEventsSpare(s, e, id);
      }
    }
  }

  lemma NewIdentity(s: State, m: Connected, ok: bool)
    requires BridgeState.Inv(s) && WithinLimits(m) && m.id in Connect(s, m, ok).controllers
    ensures var c := Connect(s, m, ok).controllers[m.id];
            c.name == m.name && c.buttonCount == m.buttonCount && c.rumble == m.dualRumble
            && c.triggerRumble == m.triggerRumble
  {
    if !s.closed { B.RemoveKeepsInv(s, m.id); }
    hide HostOk, Remove;
  }

  lemma GreetKnows(l: Link, ok: bool, known: Gamepads)
    requires Knows(l, known) && l.control != []
    ensures Knows(Greet(l, ok), known)
  {
    hide BridgeState.Inv, BridgeKnows, ClientKnows, Describes, B.Step;
    assert forall k | 0 <= k < |l.control| - 1 :: l.control[1..][k] == l.control[k + 1];
    match l.control[0]
    case Hello(m, _) => ConnectIdentifies(l.bridge, m, ok, known);
    case Goodbye(id) => OthersStayThemselves(l.bridge, B.EDisconnect(id), known);
  }

  lemma ReceiveKnows(l: Link, d: C.Datagram, at: int, known: Gamepads)
    requires Knows(l, known)
    ensures Knows(Receive(l, d, at), known)
  {
    hide BridgeState.Inv, BridgeKnows, ClientKnows, QueueKnows, B.Step, Accepts;
    OthersStayThemselves(l.bridge, B.EInput(d.message, at), known);
  }

  lemma BridgeEventKnows(l: Link, e: B.Event, known: Gamepads)
    requires Knows(l, known) && !e.EConnect?
    ensures Knows(l.(bridge := B.Step(l.bridge, e)), known)
  {
    hide BridgeState.Inv, BridgeKnows, ClientKnows, QueueKnows, B.Step;
    OthersStayThemselves(l.bridge, e, known);
  }

  lemma StepKnows(l: Link, e: Event, known: Gamepads)
    requires Knows(l, known) && !e.BeginSession?
    ensures Knows(Step(l, e), NoteGamepad(l.client, e, known))
  {
    hide BridgeState.Inv, BridgeKnows, ClientKnows, QueueKnows, B.Step, Absorb, Greet, Receive;
    hide C.Register, C.Announce, C.SendState, C.Unregister;
    match e
    case Register(g, taken) =>
      RegisterKnows(l.client, g, taken, known);
      MoreKnown(l, known, g);
      AbsorbKnows(l, C.Register(l.client, g, taken), NoteGamepad(l.client, e, known));
    case Announce(index, taken) =>
      AnnounceKnows(l.client, index, taken, known);
      AbsorbKnows(l, C.Announce(l.client, index, taken), known);
    case Send(index, sample, taken) =>
      SendKnows(l.client, index, sample, taken, known);
      NoHello(l.client, index, sample, taken, known);
      AbsorbKnows(l, C.SendState(l.client, index, sample, taken), known);
    case Unregister(index, now, taken, notified) =>
      UnregisterKnows(l.client, index, now, taken, notified, known);
      AbsorbKnows(l, C.Unregister(l.client, index, now, taken, notified), known);
    case DeliverControl(ok) => if l.control != [] { GreetKnows(l, ok, known); }
    case DeliverState(d, at) => ReceiveKnows(l, d, at, known);
    case Lose(d) =>
    case SessionActive(active, arrivals) => BridgeEventKnows(l, B.ESetActive(active, arrivals), known);
    case TransportClosed => BridgeEventKnows(l, B.ETransportClosed, known);
    case Shutdown => BridgeEventKnows(l, B.EShutdown, known);
  }

  lemma NoHello(c: C.Client, index: nat, sample: C.Sample, taken: bool, known: Gamepads)
    ensures QueueKnows(C.SendState(c, index, sample, taken).control, known)
  {}

  lemma {:induction false} RunKnows(l: Link, events: seq<Event>, known: Gamepads)
    requires Knows(l, known) && OneSession(events)
    ensures Knows(Run(l, events), Known(l, events, known))
    decreases |events|
  {
    hide BridgeState.Inv, BridgeKnows, ClientKnows, QueueKnows, Step, NoteGamepad;
    if events != [] {
      assert events[0] in events && forall e | e in events[1..] :: e in events;
      StepKnows(l, events[0], known);
      RunKnows(Step(l, events[0]), events[1..], NoteGamepad(l.client, events[0], known));
    }
  }

  ghost function KnownFromStart(events: seq<Event>): Gamepads {
    OpeningInv();
    Known(Opening(), events, map[])
  }

  lemma NothingKnown()
    ensures Knows(Opening(), map[])
  {
    OpeningInv();
  }

  /** Over every run of one session a controller of the bridge has the name, the buttons and the
      motors of the gamepad that was given its id. */
  lemma ControllersAreTheirGamepads(events: seq<Event>, id: ControllerId)
    requires OneSession(events) && id in RunFromStart(events).bridge.controllers
    ensures var known, c := KnownFromStart(events), RunFromStart(events).bridge.controllers[id];
            && id in known && c.name == known[id].name && c.buttonCount == known[id].buttons
            && c.rumble == known[id].dualRumble && c.triggerRumble == known[id].triggerRumble
  {
    hide BridgeState.Inv, Run, Known;
    OpeningInv();
    NothingKnown();
    RunKnows(Opening(), events, map[]);
  }
}
