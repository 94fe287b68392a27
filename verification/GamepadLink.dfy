/** Client, channels and bridge together. The control channel is a FIFO queue; the gamepad
    channel is a bag of datagrams that may be delivered once, in any order, or lost. */
module GamepadLink {
  import opened Basics
  import opened GamepadProtocol
  import opened SequenceAccounting
  import opened BridgeState
  import B = BridgeInvariant
  import C = GamepadClient

  type History = map<ControllerId, seq<C.Datagram>>

  /** `sent` and `accepted` are histories per controller id, `greeted` remembers whose
      announcement the bridge registered the id for, and `stray` that some state was applied to
      a registration that had not sent it. */
  datatype Link = Link(
    client: C.Client, control: seq<C.ControlMessage>, flying: multiset<C.Datagram>, bridge: State,
    sent: History, accepted: History, greeted: map<ControllerId, nat>, stray: bool)

  function Opening(): Link { Link(C.NO_GAMEPADS, [], multiset{}, Initial(), map[], map[], map[], false) }

  function At(h: History, id: ControllerId): seq<C.Datagram> { if id in h then h[id] else [] }

  function Append(h: History, d: C.Datagram): History { h[d.message.id := At(h, d.message.id) + [d]] }

  /** The farewells of beginSession are Unregister events before its BeginSession event. */
  datatype Event =
    | Register(gamepad: C.Gamepad, taken: bool)
    | Announce(index: nat, taken: bool)
    | Send(index: nat, sample: C.Sample, taken: bool)
    | Unregister(index: nat, now: real, stateTaken: bool, notified: bool)
    | BeginSession
    | DeliverControl(arrivalOk: bool)
    | DeliverState(datagram: C.Datagram, at: int)
    | Lose(datagram: C.Datagram)
    | SessionActive(active: bool, arrivals: set<ControllerId>)
    | TransportClosed
    | Shutdown

  function Absorb(l: Link, s: C.Sent): Link {
    var l1 := l.(client := s.client, control := l.control + s.control);
    if s.states == [] then l1
    else l1.(flying := l.flying + multiset{s.states[0]}, sent := Append(l.sent, s.states[0]))
  }

  function Greet(l: Link, arrivalOk: bool): Link
    requires BridgeState.Inv(l.bridge) && l.control != []
  {
    match l.control[0]
    case Hello(m, registration) =>
      var bridge := B.Step(l.bridge, B.EConnect(m, arrivalOk));
      var taken := WithinLimits(m) && !l.bridge.closed && m.id in bridge.controllers;
      l.(control := l.control[1..], bridge := bridge,
         greeted := if taken then l.greeted[m.id := registration] else l.greeted)
    case Goodbye(id) =>
      l.(control := l.control[1..], bridge := B.Step(l.bridge, B.EDisconnect(id)))
  }

  function Receive(l: Link, d: C.Datagram, at: int): Link
    requires BridgeState.Inv(l.bridge)
  {
    if d !in l.flying then l
    else
      var id := d.message.id;
      var l1 := l.(flying := l.flying - multiset{d}, bridge := B.Step(l.bridge, B.EInput(d.message, at)));
      if !Accepts(l.bridge, d.message) then l1
      else
        l1.(accepted := Append(l.accepted, d),
            stray := l.stray || id !in l.greeted || l.greeted[id] != d.registration)
  }

  function Step(l: Link, e: Event): Link
    requires BridgeState.Inv(l.bridge)
  {
    match e
    case Register(g, taken) => Absorb(l, C.Register(l.client, g, taken))
    case Announce(index, taken) => Absorb(l, C.Announce(l.client, index, taken))
    case Send(index, sample, taken) => Absorb(l, C.SendState(l.client, index, sample, taken))
    case Unregister(index, now, stateTaken, notified) =>
      Absorb(l, C.Unregister(l.client, index, now, stateTaken, notified))
    case BeginSession => l.(client := C.Reset(l.client))
    case DeliverControl(ok) => if l.control == [] then l else Greet(l, ok)
    case DeliverState(d, at) => Receive(l, d, at)
    case Lose(d) => l.(flying := l.flying - multiset{d})
    case SessionActive(active, arrivals) => l.(bridge := B.Step(l.bridge, B.ESetActive(active, arrivals)))
    case TransportClosed => l.(bridge := B.Step(l.bridge, B.ETransportClosed))
    case Shutdown => l.(bridge := B.Step(l.bridge, B.EShutdown))
  }

  lemma StepKeepsBridge(l: Link, e: Event)
    requires BridgeState.Inv(l.bridge)
    ensures BridgeState.Inv(Step(l, e).bridge)
  {
    hide BridgeState.Inv, B.Step, C.Register, C.Announce, C.SendState, C.Unregister, C.Reset;
    match e
    case DeliverControl(ok) =>
      if l.control != [] {
        match l.control[0]
        case Hello(m, registration) => B.StepKeepsInv(l.bridge, B.EConnect(m, ok));
        case Goodbye(id) => B.StepKeepsInv(l.bridge, B.EDisconnect(id));
      }
    case DeliverState(d, at) => B.StepKeepsInv(l.bridge, B.EInput(d.message, at));
    case SessionActive(active, arrivals) => B.StepKeepsInv(l.bridge, B.ESetActive(active, arrivals));
    case TransportClosed => B.StepKeepsInv(l.bridge, B.ETransportClosed);
    case Shutdown => B.StepKeepsInv(l.bridge, B.EShutdown);
    case _ =>
  }

  ghost function Run(l: Link, events: seq<Event>): (r: Link)
    requires BridgeState.Inv(l.bridge)
    ensures BridgeState.Inv(r.bridge)
    decreases |events|
  {
    if events == [] then l
    else
      StepKeepsBridge(l, events[0]);
      Run(Step(l, events[0]), events[1..])
  }

  // ------------------------------------------------------ ids are never reused

  /** Each id is announced at most once, by the registration numbered one below it. */
  ghost predicate Ids(l: Link) {
    && l.client.nextId == l.client.registrations + 1
    && (forall i | i in l.client.records ::
          l.client.records[i].registration + 1 == l.client.records[i].id < l.client.nextId)
    && (forall i, j | i in l.client.records && j in l.client.records && i != j ::
          l.client.records[i].id != l.client.records[j].id)
    && (forall id | id in l.greeted :: l.greeted[id] + 1 == id < l.client.nextId)
    && (forall k | 0 <= k < |l.control| && l.control[k].Hello? ::
          var h := l.control[k];
          h.registration + 1 == h.connected.id < l.client.nextId && h.connected.id !in l.greeted)
    && (forall j, k | 0 <= j < k < |l.control| && l.control[j].Hello? && l.control[k].Hello? ::
          l.control[j].connected.id != l.control[k].connected.id)
    && (forall i | i in l.client.records && !l.client.records[i].announced ::
          && l.client.records[i].id !in l.greeted
          && forall k | 0 <= k < |l.control| && l.control[k].Hello? ::
               l.control[k].connected.id != l.client.records[i].id)
  }

  /** The k-th state sent for an id carries sequence k + 1 and that id's registration. */
  ghost predicate Sending(l: Link) {
    && (forall id: ControllerId, k | 0 <= k < |At(l.sent, id)| ::
          var d := At(l.sent, id)[k];
          d.message.id == id && d.message.sequence == k + 1 && d.registration + 1 == id)
    && (forall id: ControllerId | At(l.sent, id) != [] :: id < l.client.nextId)
    && (forall i | i in l.client.records ::
          |At(l.sent, l.client.records[i].id)| == l.client.records[i].sequence)
    && (forall d | d in l.flying :: WasSent(l.sent, d))
  }

  ghost predicate WasSent(sent: History, d: C.Datagram) {
    var id := d.message.id;
    0 < d.message.sequence <= |At(sent, id)| && At(sent, id)[d.message.sequence - 1] == d
  }

  /** What was accepted was sent, in increasing sequence order. */
  ghost predicate AcceptedOk(sent: History, accepted: History) {
    forall id: ControllerId :: AllSentInOrder(sent, id, At(accepted, id))
  }

  ghost predicate AllSentInOrder(sent: History, id: ControllerId, ds: seq<C.Datagram>) {
    && (forall j | 0 <= j < |ds| :: ds[j].message.id == id && WasSent(sent, ds[j]))
    && (forall i, j | 0 <= i < j < |ds| :: ds[i].message.sequence < ds[j].message.sequence)
  }

  /** The bridge's controllers were greeted and remember the last state accepted for them. */
  ghost predicate Remembered(controllers: map<ControllerId, Controller>, accepted: History,
                             greeted: map<ControllerId, nat>)
  {
    && (forall id | id in controllers :: id in greeted)
    && (forall id: ControllerId | At(accepted, id) != [] :: id in greeted)
    && (forall id | id in controllers :: controllers[id].diagnostics.last == LastSequence(At(accepted, id)))
  }

  ghost predicate Accepting(l: Link) {
    && BridgeState.Inv(l.bridge)
    && AcceptedOk(l.sent, l.accepted)
    && Remembered(l.bridge.controllers, l.accepted, l.greeted)
    && !l.stray
  }

  ghost function LastSequence(ds: seq<C.Datagram>): Option<nat> {
    if ds == [] then None else Some(ds[|ds| - 1].message.sequence)
  }

  ghost predicate Inv(l: Link) { Ids(l) && Sending(l) && Accepting(l) }

  // ------------------------------------------------------------- client steps

  function Announced(l: Link, index: nat): Link
    requires index in l.client.records
  {
    var r := l.client.records[index];
    l.(client := l.client.(records := l.client.records[index := r.(announced := true)]),
       control := l.control + [C.HelloOf(r)])
  }

  lemma AnnouncedKeepsIds(l: Link, index: nat)
    requires Ids(l) && index in l.client.records && !l.client.records[index].announced
    ensures Ids(Announced(l, index))
  {
    var l' := Announced(l, index);
    forall k | 0 <= k < |l'.control| && l'.control[k].Hello?
      ensures k < |l.control| ==> l'.control[k] == l.control[k]
      ensures k == |l.control| ==> l'.control[k] == C.HelloOf(l.client.records[index])
    {}
  }

  lemma AnnouncedKeepsRest(l: Link, index: nat)
    requires Sending(l) && Accepting(l) && index in l.client.records
    ensures Sending(Announced(l, index)) && Accepting(Announced(l, index))
  {}

  lemma AbsorbAnnounce(l: Link, index: nat, taken: bool)
    requires Inv(l)
    ensures Inv(Absorb(l, C.Announce(l.client, index, taken)))
  {
    assert l.control + [] == l.control;
    if index in l.client.records && !l.client.records[index].announced && taken {
      AnnouncedKeepsIds(l, index);
      AnnouncedKeepsRest(l, index);
      assert Absorb(l, C.Announce(l.client, index, taken)) == Announced(l, index);
    }
  }

  function WithRecord(l: Link, g: C.Gamepad): Link {
    l.(client := C.Client(l.client.records[g.index := C.NewRecord(l.client, g)], l.client.nextId + 1,
                          l.client.registrations + 1))
  }

  lemma WithRecordKeepsIds(l: Link, g: C.Gamepad)
    requires Inv(l) && g.index !in l.client.records
    ensures Ids(WithRecord(l, g))
  {}

  lemma WithRecordKeepsSending(l: Link, g: C.Gamepad)
    requires Inv(l) && g.index !in l.client.records
    ensures Sending(WithRecord(l, g))
  {
    assert At(l.sent, l.client.nextId) == [];
    var l' := WithRecord(l, g);
    forall i | i in l'.client.records
      ensures |At(l.sent, l'.client.records[i].id)| == l'.client.records[i].sequence
    {
      if i != g.index { assert l'.client.records[i] == l.client.records[i]; }
    }
  }

  lemma RegisterAddsAndAnnounces(l: Link, g: C.Gamepad, taken: bool)
    ensures Absorb(l, C.Register(l.client, g, taken)) ==
              if g.index in l.client.records || |l.client.records| >= MAXIMUM_GAMEPADS then l
              else var l1 := WithRecord(l, g); Absorb(l1, C.Announce(l1.client, g.index, taken))
  {
    assert l.control + [] == l.control;
  }

  lemma AbsorbRegister(l: Link, g: C.Gamepad, taken: bool)
    requires Inv(l)
    ensures Inv(Absorb(l, C.Register(l.client, g, taken)))
  {
    RegisterAddsAndAnnounces(l, g, taken);
    if g.index !in l.client.records && |l.client.records| < MAXIMUM_GAMEPADS {
      WithRecordKeepsIds(l, g);
      WithRecordKeepsSending(l, g);
      WithRecordKeepsAccepting(l, g);
      AbsorbAnnounce(WithRecord(l, g), g.index, taken);
    }
  }

  lemma WithRecordKeepsAccepting(l: Link, g: C.Gamepad)
    requires Accepting(l)
    ensures Accepting(WithRecord(l, g))
  {}

  function WithState(l: Link, index: nat, sample: C.Sample): Link
    requires index in l.client.records
  {
    var r := l.client.records[index];
    var d := C.StateOf(r, sample);
    l.(client := l.client.(records := l.client.records[index := r.(sequence := r.sequence + 1)]),
       flying := l.flying + multiset{d}, sent := Append(l.sent, d))
  }

  lemma WithStateKeepsIds(l: Link, index: nat, sample: C.Sample)
    requires Ids(l) && index in l.client.records && l.client.records[index].announced
    ensures Ids(WithState(l, index, sample))
  {}

  lemma WithStateKeepsSending(l: Link, index: nat, sample: C.Sample)
    requires Ids(l) && Sending(l) && index in l.client.records
    ensures Sending(WithState(l, index, sample))
  {
    var r := l.client.records[index];
    var d := C.StateOf(r, sample);
    SendingOneMore(l, r, d);
    FlyingOneMore(l, d);
    var l' := WithState(l, index, sample);
    forall i | i in l'.client.records
      ensures |At(l'.sent, l'.client.records[i].id)| == l'.client.records[i].sequence
    {
      AppendAt(l.sent, d, l.client.records[i].id);
    }
  }

  lemma AbsorbSend(l: Link, index: nat, sample: C.Sample, taken: bool)
    requires Inv(l)
    ensures Inv(Absorb(l, C.SendState(l.client, index, sample, taken)))
  {
    SendAddsState(l, index, sample, taken);
    if index in l.client.records && l.client.records[index].announced && taken {
      WithStateKeepsIds(l, index, sample);
      WithStateKeepsSending(l, index, sample);
      AcceptedStaysSent(l.sent, l.accepted, C.StateOf(l.client.records[index], sample));
    }
  }

  lemma SendAddsState(l: Link, index: nat, sample: C.Sample, taken: bool)
    ensures Absorb(l, C.SendState(l.client, index, sample, taken)) ==
              if index in l.client.records && l.client.records[index].announced && taken
              then WithState(l, index, sample) else l
  {
    assert l.control + [] == l.control;
  }

  lemma SendingOneMore(l: Link, r: C.Record, d: C.Datagram)
    requires Sending(l) && d.message.id == r.id && d.message.sequence == r.sequence + 1
    requires d.registration + 1 == r.id < l.client.nextId
    requires |At(l.sent, r.id)| == r.sequence
    ensures forall id: ControllerId, k | 0 <= k < |At(Append(l.sent, d), id)| ::
              var x := At(Append(l.sent, d), id)[k];
              x.message.id == id && x.message.sequence == k + 1 && x.registration + 1 == id
    ensures forall id: ControllerId | At(Append(l.sent, d), id) != [] :: id < l.client.nextId
  {
    forall id: ControllerId
      ensures At(Append(l.sent, d), id) == if id == r.id then At(l.sent, id) + [d] else At(l.sent, id)
    {
      AppendAt(l.sent, d, id);
    }
  }

  lemma FlyingOneMore(l: Link, d: C.Datagram)
    requires Sending(l) && d.message.sequence == |At(l.sent, d.message.id)| + 1
    ensures forall x | x in l.flying + multiset{d} :: WasSent(Append(l.sent, d), x)
  {
    forall x | x in l.flying + multiset{d} ensures WasSent(Append(l.sent, d), x) {
      AppendAt(l.sent, d, d.message.id);
      if x in l.flying { AppendKeepsSent(l.sent, d, x); }
    }
  }

  lemma AppendAt(h: History, d: C.Datagram, id: ControllerId)
    ensures At(Append(h, d), id) == if id == d.message.id then At(h, id) + [d] else At(h, id)
  {}

  lemma AppendKeepsSent(sent: History, d: C.Datagram, x: C.Datagram)
    requires WasSent(sent, x)
    ensures WasSent(Append(sent, d), x)
  {}

  lemma AcceptedStaysSent(sent: History, accepted: History, d: C.Datagram)
    requires AcceptedOk(sent, accepted)
    ensures AcceptedOk(Append(sent, d), accepted)
  {
    forall id: ControllerId ensures AllSentInOrder(Append(sent, d), id, At(accepted, id)) {
      var ds := At(accepted, id);
      assert AllSentInOrder(sent, id, ds);
      forall j | 0 <= j < |ds| ensures WasSent(Append(sent, d), ds[j]) {
        AppendKeepsSent(sent, d, ds[j]);
      }
    }
  }

  /** Dropping a record, and perhaps saying so, keeps everything about ids and histories. */
  lemma DropKeepsInv(l: Link, index: nat, farewell: seq<C.ControlMessage>)
    requires Inv(l) && index in l.client.records
    requires |farewell| <= 1 && forall f | f in farewell :: f.Goodbye?
    ensures Inv(WithoutRecord(l, index, farewell))
  {
    hide BridgeState.Inv, Remembered, AcceptedOk, WasSent;
    DropKeepsIds(l, index, farewell);
    assert Sending(WithoutRecord(l, index, farewell)) by { hide Ids; }
  }

  lemma DropKeepsIds(l: Link, index: nat, farewell: seq<C.ControlMessage>)
    requires Ids(l) && index in l.client.records
    requires |farewell| <= 1 && forall f | f in farewell :: f.Goodbye?
    ensures Ids(WithoutRecord(l, index, farewell))
  {
    var l' := WithoutRecord(l, index, farewell);
    assert forall k | |l.control| <= k < |l'.control| :: l'.control[k] in farewell;
    assert forall k | 0 <= k < |l.control| :: l'.control[k] == l.control[k];
  }

  function WithoutRecord(l: Link, index: nat, farewell: seq<C.ControlMessage>): Link {
    l.(client := l.client.(records := l.client.records - {index}), control := l.control + farewell)
  }

  lemma UnregisterSendsAndDrops(l: Link, index: nat, now: real, stateTaken: bool, notified: bool)
    ensures Absorb(l, C.Unregister(l.client, index, now, stateTaken, notified)) ==
              if index !in l.client.records then l
              else
                var r := l.client.records[index];
                WithoutRecord(Absorb(l, C.SendState(l.client, index, C.NeutralSample(now), stateTaken)), index,
                              if r.announced && notified then [C.Goodbye(r.id)] else [])
  {
    assert l.control + [] == l.control;
  }

  lemma AbsorbUnregister(l: Link, index: nat, now: real, stateTaken: bool, notified: bool)
    requires Inv(l)
    ensures Inv(Absorb(l, C.Unregister(l.client, index, now, stateTaken, notified)))
  {
    hide Inv, Absorb, WithState, C.Unregister, C.SendState;
    UnregisterSendsAndDrops(l, index, now, stateTaken, notified);
    if index in l.client.records {
      var r, sample := l.client.records[index], C.NeutralSample(now);
      AbsorbSend(l, index, sample, stateTaken);
      SendKeepsRecords(l, index, sample, stateTaken);
      DropKeepsInv(Absorb(l, C.SendState(l.client, index, sample, stateTaken)), index,
                   if r.announced && notified then [C.Goodbye(r.id)] else []);
    }
  }

  lemma SendKeepsRecords(l: Link, index: nat, sample: C.Sample, taken: bool)
    ensures Absorb(l, C.SendState(l.client, index, sample, taken)).client.records.Keys == l.client.records.Keys
  {}

  // ----------------------------------------------------------- deliveries

  /** No bridge event other than a state or a registration changes what it last heard, and
      none but a greeting adds controllers. */
  lemma BridgeEventKeepsAccepting(l: Link, e: B.Event)
    requires Accepting(l) && !e.EConnect? && !e.EInput?
    ensures Accepting(l.(bridge := B.Step(l.bridge, e)))
  {
    B.StepKeepsInv(l.bridge, e);
    var l' := l.(bridge := B.Step(l.bridge, e));
    forall id | id in l'.bridge.controllers
      ensures id in l.greeted
      ensures l'.bridge.controllers[id].diagnostics.last == LastSequence(At(l.accepted, id))
    {
      B.OtherEventsSpare(l.bridge, e, id);
    }
  }

  lemma GreetKeepsIds(l: Link, ok: bool)
    requires Ids(l) && BridgeState.Inv(l.bridge) && l.control != []
    ensures Ids(Greet(l, ok))
  {
    hide BridgeState.Inv, B.Step;
    var l' := Greet(l, ok);
    assert forall k | 0 <= k < |l'.control| :: l'.control[k] == l.control[k + 1];
    var head := l.control[0];
    if head.Hello? {
      assert forall k | 0 <= k < |l'.control| && l'.control[k].Hello? ::
          l.control[k + 1].connected.id != head.connected.id;
      forall i | i in l'.client.records && !l'.client.records[i].announced
        ensures l'.client.records[i].id !in l'.greeted
      {
        assert l.control[0].Hello? && l.control[0].connected.id != l.client.records[i].id;
      }
    }
  }

  lemma GreetKeepsAccepting(l: Link, ok: bool)
    requires Ids(l) && Accepting(l) && l.control != []
    ensures Accepting(Greet(l, ok))
  {
    match l.control[0]
    case Goodbye(id) =>
      BridgeEventKeepsAccepting(l, B.EDisconnect(id));
    case Hello(m, registration) =>
      var e := B.EConnect(m, ok);
      B.StepKeepsInv(l.bridge, e);
      var l' := Greet(l, ok);
      assert m.id !in l.greeted && m.id !in l.bridge.controllers && At(l.accepted, m.id) == [];
      forall id | id in l'.bridge.controllers
        ensures id in l'.greeted
        ensures l'.bridge.controllers[id].diagnostics.last == LastSequence(At(l.accepted, id))
      {
        if id == m.id && WithinLimits(m) {
          B.ConnectTakesLowestFreeSlot(l.bridge, m, ok);
        } else {
          B.OtherEventsSpare(l.bridge, e, id);
        }
      }
  }

  /** A state touches the last sequence of its own controller only, and only when accepted. */
  lemma InputMovesLast(s: State, m: StateMessage, at: int)
    requires SlotsInRange(s)
    ensures Input(s, m, at).controllers.Keys == s.controllers.Keys
    ensures forall id | id in s.controllers ::
              Input(s, m, at).controllers[id].diagnostics.last ==
                if id == m.id && Accepts(s, m) then Some(m.sequence) else s.controllers[id].diagnostics.last
  {
    if Accepts(s, m) {
      var c := s.controllers[m.id];
      AcceptKeepsDiagnostics(c.(diagnostics := Hear(c.diagnostics, m.sequence)), m, at, s.host, s.active);
    }
  }

  lemma AcceptKeepsDiagnostics(c: Controller, m: StateMessage, at: int, host: Host, active: bool)
    requires c.slot < |host.pads|
    ensures Accept(c, m, at, host, active).controller.diagnostics == c.diagnostics
  {}

  lemma AcceptedOneMore(sent: History, accepted: History, d: C.Datagram)
    requires AcceptedOk(sent, accepted) && WasSent(sent, d)
    requires var last := LastSequence(At(accepted, d.message.id));
             last.Some? ==> last.value < d.message.sequence
    ensures AcceptedOk(sent, Append(accepted, d))
  {
    forall id: ControllerId ensures AllSentInOrder(sent, id, At(Append(accepted, d), id)) {
      AppendAt(accepted, d, id);
      assert AllSentInOrder(sent, id, At(accepted, id));
      if id == d.message.id {
        OneMoreInOrder(sent, At(accepted, id), d);
      }
    }
  }

  lemma OneMoreInOrder(sent: History, ds: seq<C.Datagram>, d: C.Datagram)
    requires AllSentInOrder(sent, d.message.id, ds) && WasSent(sent, d)
    requires ds != [] ==> ds[|ds| - 1].message.sequence < d.message.sequence
    ensures AllSentInOrder(sent, d.message.id, ds + [d])
  {}

  lemma RememberedOneMore(before: map<ControllerId, Controller>, after: map<ControllerId, Controller>,
                          accepted: History, greeted: map<ControllerId, nat>, d: C.Datagram)
    requires Remembered(before, accepted, greeted) && before.Keys == after.Keys && d.message.id in before
    requires forall id | id in before ::
               after[id].diagnostics.last ==
                 if id == d.message.id then Some(d.message.sequence) else before[id].diagnostics.last
    ensures Remembered(after, Append(accepted, d), greeted)
  {
    forall id: ControllerId
      ensures At(Append(accepted, d), id) == if id == d.message.id then At(accepted, id) + [d] else At(accepted, id)
    {
      AppendAt(accepted, d, id);
    }
  }

  lemma ReceiveKeepsAccepting(l: Link, d: C.Datagram, at: int)
    requires Inv(l) && d in l.flying
    ensures Accepting(Receive(l, d, at))
  {
    var id := d.message.id;
    B.StepKeepsInv(l.bridge, B.EInput(d.message, at));
    InputMovesLast(l.bridge, d.message, at);
    assert WasSent(l.sent, d);
    if Accepts(l.bridge, d.message) {
      GreetedBySender(l, d);
      AcceptedOneMore(l.sent, l.accepted, d);
      RememberedOneMore(l.bridge.controllers, Input(l.bridge, d.message, at).controllers, l.accepted, l.greeted, d);
    }
  }

  /** Only the registration that owns an id can have sent a state for it. */
  lemma GreetedBySender(l: Link, d: C.Datagram)
    requires Ids(l) && Sending(l) && d in l.flying
    requires d.message.id in l.greeted
    ensures l.greeted[d.message.id] == d.registration
  {
    assert WasSent(l.sent, d);
    assert At(l.sent, d.message.id)[d.message.sequence - 1].registration + 1 == d.message.id;
  }

  lemma DeliverControlKeepsInv(l: Link, ok: bool)
    requires Inv(l) && l.control != []
    ensures Inv(Greet(l, ok))
  {
    GreetKeepsIds(l, ok);
    GreetKeepsAccepting(l, ok);
    assert Sending(Greet(l, ok));
  }

  lemma DeliverStateKeepsInv(l: Link, d: C.Datagram, at: int)
    requires Inv(l)
    ensures Inv(Receive(l, d, at))
  {
    hide BridgeState.Inv, B.Step, AcceptedOk, Remembered, WasSent;
    if d in l.flying {
      ReceiveKeepsAccepting(l, d, at);
      assert forall x | x in Receive(l, d, at).flying :: x in l.flying;
    }
  }

  lemma BridgeEventKeepsInv(l: Link, e: B.Event)
    requires Inv(l) && !e.EConnect? && !e.EInput?
    ensures Inv(l.(bridge := B.Step(l.bridge, e)))
  {
    BridgeEventKeepsAccepting(l, e);
    var l' := l.(bridge := B.Step(l.bridge, e));
    assert Ids(l') && Sending(l');
  }

  lemma LoseKeepsInv(l: Link, d: C.Datagram)
    requires Inv(l)
    ensures Inv(l.(flying := l.flying - multiset{d}))
  {
    var l' := l.(flying := l.flying - multiset{d});
    assert forall x | x in l'.flying :: x in l.flying;
    assert Ids(l') && Sending(l');
  }

  lemma StepKeepsInv(l: Link, e: Event)
    requires Inv(l) && !e.BeginSession?
    ensures Inv(Step(l, e))
  {
    hide Ids, Sending, AcceptedOk, Remembered, BridgeState.Inv, Absorb, Greet, Receive, B.Step;
    hide C.Register, C.Announce, C.SendState, C.Unregister;
    match e
    case Register(g, taken) => AbsorbRegister(l, g, taken);
    case Announce(index, taken) => AbsorbAnnounce(l, index, taken);
    case Send(index, sample, taken) => AbsorbSend(l, index, sample, taken);
    case Unregister(index, now, stateTaken, notified) => AbsorbUnregister(l, index, now, stateTaken, notified);
    case DeliverControl(ok) => if l.control != [] { DeliverControlKeepsInv(l, ok); }
    case DeliverState(d, at) => DeliverStateKeepsInv(l, d, at);
    case Lose(d) => LoseKeepsInv(l, d);
    case SessionActive(active, arrivals) => BridgeEventKeepsInv(l, B.ESetActive(active, arrivals));
    case TransportClosed => BridgeEventKeepsInv(l, B.ETransportClosed);
    case Shutdown => BridgeEventKeepsInv(l, B.EShutdown);
  }

  lemma OpeningInv()
    ensures Inv(Opening())
  {
    B.InitialInv();
  }

  ghost function RunFromStart(events: seq<Event>): (l: Link)
    ensures BridgeState.Inv(l.bridge)
  {
    OpeningInv();
    Run(Opening(), events)
  }

  /** beginSession has run before the first event and does not run again. */
  ghost predicate OneSession(events: seq<Event>) { forall e | e in events :: !e.BeginSession? }

  lemma {:induction false} RunKeepsInv(l: Link, events: seq<Event>)
    requires Inv(l) && OneSession(events)
    ensures Inv(Run(l, events))
    decreases |events|
  {
    if events != [] {
      assert events[0] in events;
      StepKeepsInv(l, events[0]);
      assert forall e | e in events[1..] :: e in events;
      RunKeepsInv(Step(l, events[0]), events[1..]);
    }
  }

  /** a is obtained from b by dropping elements, keeping the order. */
  ghost predicate InOrderSubsequence(a: seq<C.Datagram>, b: seq<C.Datagram>) {
    exists f: seq<nat> :: |f| == |a| && Picks(f, a, b)
  }

  ghost predicate Picks(f: seq<nat>, a: seq<C.Datagram>, b: seq<C.Datagram>)
    requires |f| == |a|
  {
    && (forall j | 0 <= j < |f| :: f[j] < |b| && a[j] == b[f[j]])
    && (forall i, j | 0 <= i < j < |f| :: f[i] < f[j])
  }

  /** Over every run of one session: what the bridge accepts for an id is an in-order
      subsequence of what the client sent for it, and no state is ever applied to a
      registration that did not send it. */
  lemma AcceptedInOrder(events: seq<Event>, id: ControllerId)
    requires OneSession(events)
    ensures var l := RunFromStart(events);
            InOrderSubsequence(At(l.accepted, id), At(l.sent, id)) && !l.stray
  {
    OpeningInv();
    RunKeepsInv(Opening(), events);
    var l := RunFromStart(events);
    OrderedMeansSubsequence(l.sent, id, At(l.accepted, id));
  }

  lemma OrderedMeansSubsequence(sent: History, id: ControllerId, a: seq<C.Datagram>)
    requires AllSentInOrder(sent, id, a)
    ensures InOrderSubsequence(a, At(sent, id))
  {
    assert forall j | 0 <= j < |a| :: WasSent(sent, a[j]) && a[j].message.id == id;
    var f := seq(|a|, j requires 0 <= j < |a| => a[j].message.sequence - 1);
    assert Picks(f, a, At(sent, id));
  }
}
