/** A consequence of the link's id discipline: slots never run out while disconnects are
    notified. */
module GamepadSlots {
  import opened GamepadProtocol
  import opened BridgeState
  import B = BridgeInvariant
  import C = GamepadClient
  import opened GamepadLink

  // ------------------------------------------------------- slots suffice

  /** The controllers the bridge would hold after handling the queued control messages. */
  ghost function Predict(ids: set<ControllerId>, queue: seq<C.ControlMessage>): set<ControllerId>
    decreases |queue|
  {
    if queue == [] then ids else Predict(After(ids, queue[0]), queue[1..])
  }

  ghost function After(ids: set<ControllerId>, m: C.ControlMessage): set<ControllerId> {
    match m
    case Hello(connected, _) => ids + {connected.id}
    case Goodbye(id) => ids - {id}
  }

  ghost function AnnouncedIds(c: C.Client): set<ControllerId> {
    set i | i in c.records && c.records[i].announced :: c.records[i].id
  }

  ghost predicate Fits(ids: set<ControllerId>, queue: seq<C.ControlMessage>) {
    forall k | 0 <= k <= |queue| :: |Predict(ids, queue[..k])| <= MAXIMUM_GAMEPADS
  }

  ghost predicate SlotsInv(l: Link) {
    && BridgeState.Inv(l.bridge) && C.Inv(l.client)
    && Fits(l.bridge.controllers.Keys, l.control)
    && Predict(l.bridge.controllers.Keys, l.control) <= AnnouncedIds(l.client)
  }

  lemma {:induction false} PredictSnoc(ids: set<ControllerId>, queue: seq<C.ControlMessage>, m: C.ControlMessage)
    ensures Predict(ids, queue + [m]) == After(Predict(ids, queue), m)
    decreases |queue|
  {
    if queue == [] {
      assert (queue + [m])[1..] == [];
    } else {
      assert (queue + [m])[1..] == queue[1..] + [m];
      PredictSnoc(After(ids, queue[0]), queue[1..], m);
    }
  }

  lemma {:induction false} PredictMonotone(a: set<ControllerId>, b: set<ControllerId>, queue: seq<C.ControlMessage>)
    requires a <= b
    ensures Predict(a, queue) <= Predict(b, queue)
    decreases |queue|
  {
    if queue != [] {
      PredictMonotone(After(a, queue[0]), After(b, queue[0]), queue[1..]);
    }
  }

  lemma FewerFit(a: set<ControllerId>, b: set<ControllerId>, queue: seq<C.ControlMessage>)
    requires a <= b && Fits(b, queue)
    ensures Fits(a, queue)
  {
    forall k | 0 <= k <= |queue| ensures |Predict(a, queue[..k])| <= MAXIMUM_GAMEPADS {
      PredictMonotone(a, b, queue[..k]);
      SmallerSet(Predict(a, queue[..k]), Predict(b, queue[..k]));
    }
  }

  lemma SmallerSet<T>(a: set<T>, b: set<T>)
    requires a <= b
    ensures |a| <= |b|
  {
    assert b == a + (b - a);
  }

  lemma {:induction false} AnnouncedBound(records: map<nat, C.Record>, indexes: set<nat>)
    requires indexes <= records.Keys
    ensures |set i | i in indexes && records[i].announced :: records[i].id| <= |indexes|
    decreases indexes
  {
    var ids := set i | i in indexes && records[i].announced :: records[i].id;
    if indexes != {} {
      var i :| i in indexes;
      AnnouncedBound(records, indexes - {i});
      var rest := set j | j in indexes - {i} && records[j].announced :: records[j].id;
      assert ids <= rest + {records[i].id};
      SmallerSet(ids, rest + {records[i].id});
    }
  }

  lemma FitsOneMore(ids: set<ControllerId>, queue: seq<C.ControlMessage>, m: C.ControlMessage)
    requires Fits(ids, queue) && |Predict(ids, queue + [m])| <= MAXIMUM_GAMEPADS
    ensures Fits(ids, queue + [m])
  {
    forall k | 0 <= k <= |queue| + 1 ensures |Predict(ids, (queue + [m])[..k])| <= MAXIMUM_GAMEPADS {
      if k <= |queue| {
        assert (queue + [m])[..k] == queue[..k];
      } else {
        assert (queue + [m])[..k] == queue + [m];
      }
    }
  }

  lemma FitsTail(ids: set<ControllerId>, queue: seq<C.ControlMessage>)
    requires queue != [] && Fits(ids, queue)
    ensures var ids' := After(ids, queue[0]);
            Fits(ids', queue[1..]) && |ids'| <= MAXIMUM_GAMEPADS
  {
    var ids' := After(ids, queue[0]);
    forall k | 0 <= k <= |queue[1..]| ensures |Predict(ids', queue[1..][..k])| <= MAXIMUM_GAMEPADS {
      var longer := queue[..k + 1];
      assert longer[0] == queue[0] && longer[1..] == queue[1..][..k];
      assert Predict(ids, longer) == Predict(ids', queue[1..][..k]);
    }
    assert queue[1..][..0] == [];
    assert |Predict(ids', queue[1..][..0])| <= MAXIMUM_GAMEPADS;
  }

  /** A disconnect the gateway is told about, or of a record it never heard of. */
  ghost predicate Notified(l: Link, e: GamepadLink.Event) {
    && !e.BeginSession?
    && (e.Unregister? && e.index in l.client.records && l.client.records[e.index].announced ==> e.notified)
  }

  // ---------------------------------------------------------- client steps

  lemma QueueOne(l: Link, c': C.Client, m: C.ControlMessage)
    requires SlotsInv(l) && C.Inv(c')
    requires After(AnnouncedIds(l.client), m) <= AnnouncedIds(c')
    ensures SlotsInv(l.(client := c', control := l.control + [m]))
  {
    var ids := l.bridge.controllers.Keys;
    PredictSnoc(ids, l.control, m);
    assert After(Predict(ids, l.control), m) <= After(AnnouncedIds(l.client), m);
    AnnouncedBound(c'.records, c'.records.Keys);
    assert AnnouncedIds(c') == set i | i in c'.records.Keys && c'.records[i].announced :: c'.records[i].id;
    assert |c'.records.Keys| == |c'.records|;
    SmallerSet(Predict(ids, l.control + [m]), AnnouncedIds(c'));
    FitsOneMore(ids, l.control, m);
  }

  lemma AnnounceKeepsSlots(l: Link, index: nat, taken: bool)
    requires SlotsInv(l)
    ensures SlotsInv(Absorb(l, C.Announce(l.client, index, taken)))
  {
    assert l.control + [] == l.control;
    C.AnnounceKeepsInv(l.client, index, taken);
    if index in l.client.records && !l.client.records[index].announced && taken {
      var c' := C.Announce(l.client, index, taken).client;
      var m := C.HelloOf(l.client.records[index]);
      AnnouncedAfterHello(l.client, c', index);
      QueueOne(l, c', m);
    }
  }

  lemma AnnouncedAfterHello(c: C.Client, c': C.Client, index: nat)
    requires index in c.records
    requires c'.records == c.records[index := c.records[index].(announced := true)]
    ensures After(AnnouncedIds(c), C.HelloOf(c.records[index])) <= AnnouncedIds(c')
  {
    forall id | id in AnnouncedIds(c) ensures id in AnnouncedIds(c') {
      var i :| i in c.records && c.records[i].announced && c.records[i].id == id;
      assert i in c'.records && c'.records[i].announced && c'.records[i].id == id;
    }
    assert index in c'.records && c'.records[index].announced;
  }

  lemma SameAnnouncements(l: Link, c': C.Client)
    requires SlotsInv(l) && C.Inv(c') && AnnouncedIds(l.client) <= AnnouncedIds(c')
    ensures SlotsInv(l.(client := c'))
  {}

  lemma RegisterKeepsSlots(l: Link, g: C.Gamepad, taken: bool)
    requires SlotsInv(l)
    ensures SlotsInv(Absorb(l, C.Register(l.client, g, taken)))
  {
    RegisterAddsAndAnnounces(l, g, taken);
    if g.index !in l.client.records && |l.client.records| < MAXIMUM_GAMEPADS {
      var l1 := WithRecord(l, g);
      C.RegisterKeepsInv(l.client, g, false);
      assert C.Register(l.client, g, false).client == l1.client;
      forall id | id in AnnouncedIds(l.client) ensures id in AnnouncedIds(l1.client) {
        var i :| i in l.client.records && l.client.records[i].announced && l.client.records[i].id == id;
        assert i in l1.client.records && l1.client.records[i].announced && l1.client.records[i].id == id;
      }
      SameAnnouncements(l, l1.client);
      AnnounceKeepsSlots(l1, g.index, taken);
    }
  }

  lemma SameFlags(c: C.Client, c': C.Client)
    requires c.records.Keys == c'.records.Keys
    requires forall i | i in c.records ::
               c'.records[i].announced == c.records[i].announced && c'.records[i].id == c.records[i].id
    ensures AnnouncedIds(c') == AnnouncedIds(c)
  {
    forall id | id in AnnouncedIds(c) ensures id in AnnouncedIds(c') {
      var i :| i in c.records && c.records[i].announced && c.records[i].id == id;
      assert i in c'.records && c'.records[i].announced && c'.records[i].id == id;
    }
    forall id | id in AnnouncedIds(c') ensures id in AnnouncedIds(c) {
      var i :| i in c'.records && c'.records[i].announced && c'.records[i].id == id;
      assert i in c.records && c.records[i].announced && c.records[i].id == id;
    }
  }

  lemma SendKeepsSlots(l: Link, index: nat, sample: C.Sample, taken: bool)
    requires SlotsInv(l)
    ensures SlotsInv(Absorb(l, C.SendState(l.client, index, sample, taken)))
    ensures AnnouncedIds(C.SendState(l.client, index, sample, taken).client) == AnnouncedIds(l.client)
  {
    hide C.Inv, BridgeState.Inv, Fits, Predict;
    assert l.control + [] == l.control;
    var c' := C.SendState(l.client, index, sample, taken).client;
    C.SendStateKeepsInv(l.client, index, sample, taken);
    SameFlags(l.client, c');
    SameAnnouncements(l, c');
  }

  lemma UnregisterKeepsSlots(l: Link, index: nat, now: real, stateTaken: bool, notified: bool)
    requires SlotsInv(l)
    requires index in l.client.records && l.client.records[index].announced ==> notified
    ensures SlotsInv(Absorb(l, C.Unregister(l.client, index, now, stateTaken, notified)))
  {
    hide C.Inv, BridgeState.Inv, Fits, Predict;
    UnregisterSendsAndDrops(l, index, now, stateTaken, notified);
    if index in l.client.records {
      var r, sample := l.client.records[index], C.NeutralSample(now);
      SendKeepsSlots(l, index, sample, stateTaken);
      SendKeepsFlags(l.client, index, sample, stateTaken);
      C.UnregisterKeepsInv(l.client, index, now, stateTaken, notified);
      var l1 := Absorb(l, C.SendState(l.client, index, sample, stateTaken));
      var c' := C.Unregister(l.client, index, now, stateTaken, notified).client;
      AnnouncedWithout(l1.client, c', index);
      if r.announced {
        QueueOne(l1, c', C.Goodbye(r.id));
      } else {
        assert l1.control + [] == l1.control;
        SameAnnouncements(l1, c');
      }
    }
  }

  lemma SendKeepsFlags(c: C.Client, index: nat, sample: C.Sample, taken: bool)
    requires index in c.records
    ensures var records := C.SendState(c, index, sample, taken).client.records;
            index in records && records[index].id == c.records[index].id
            && records[index].announced == c.records[index].announced
  {}

  lemma AnnouncedWithout(c: C.Client, c': C.Client, index: nat)
    requires index in c.records && c'.records == c.records - {index}
    ensures AnnouncedIds(c) - (if c.records[index].announced then {c.records[index].id} else {}) <= AnnouncedIds(c')
  {
    forall id | id in AnnouncedIds(c) && !(c.records[index].announced && c.records[index].id == id)
      ensures id in AnnouncedIds(c')
    {
      var i :| i in c.records && c.records[i].announced && c.records[i].id == id;
      assert i in c'.records && c'.records[i].announced && c'.records[i].id == id;
    }
  }

  // ---------------------------------------------------------- bridge steps

  lemma FewerControllers(l: Link, bridge': State)
    requires SlotsInv(l) && BridgeState.Inv(bridge')
    requires bridge'.controllers.Keys <= l.bridge.controllers.Keys
    ensures SlotsInv(l.(bridge := bridge'))
  {
    FewerFit(bridge'.controllers.Keys, l.bridge.controllers.Keys, l.control);
    PredictMonotone(bridge'.controllers.Keys, l.bridge.controllers.Keys, l.control);
  }

  /** Handling the head of the queue leaves no more controllers than predicted. */
  lemma TailStillFits(ids: set<ControllerId>, ids': set<ControllerId>, queue: seq<C.ControlMessage>)
    requires queue != [] && Fits(ids, queue) && ids' <= After(ids, queue[0])
    ensures Fits(ids', queue[1..]) && Predict(ids', queue[1..]) <= Predict(ids, queue)
  {
    FitsTail(ids, queue);
    FewerFit(ids', After(ids, queue[0]), queue[1..]);
    PredictMonotone(ids', After(ids, queue[0]), queue[1..]);
  }

  lemma GreetKeepsSlots(l: Link, ok: bool)
    requires SlotsInv(l) && l.control != []
    ensures SlotsInv(Greet(l, ok))
  {
    hide BridgeState.Inv;
    StepKeepsBridge(l, DeliverControl(ok));
    GreetedKeys(l, ok);
    GreetEffect(l, ok);
    TailStillFits(l.bridge.controllers.Keys, Greet(l, ok).bridge.controllers.Keys, l.control);
  }

  lemma GreetEffect(l: Link, ok: bool)
    requires BridgeState.Inv(l.bridge) && l.control != []
    ensures Greet(l, ok).control == l.control[1..] && Greet(l, ok).client == l.client
  {}

  lemma GreetedKeys(l: Link, ok: bool)
    requires BridgeState.Inv(l.bridge) && l.control != []
    ensures Greet(l, ok).bridge.controllers.Keys <= After(l.bridge.controllers.Keys, l.control[0])
  {
    match l.control[0]
    case Hello(m, _) => ConnectAddsOne(l.bridge, m, ok);
    case Goodbye(id) =>
  }

  lemma ConnectAddsOne(s: State, m: Connected, ok: bool)
    requires BridgeState.Inv(s)
    ensures Connect(s, m, ok).controllers.Keys <= s.controllers.Keys + {m.id}
  {
    if WithinLimits(m) && !s.closed {
      B.ConnectTakesLowestFreeSlot(s, m, ok);
      hide BridgeState.Inv;
      var s' := Connect(s, m, ok);
      forall id | id in s'.controllers && id != m.id ensures id in s.controllers {
        assert id in s'.controllers - {m.id};
      }
    }
  }

  lemma BridgeEventKeepsSlots(l: Link, e: B.Event)
    requires SlotsInv(l) && !e.EConnect?
    ensures SlotsInv(l.(bridge := B.Step(l.bridge, e)))
  {
    B.StepKeepsInv(l.bridge, e);
    NoNewControllers(l.bridge, e);
    FewerControllers(l, B.Step(l.bridge, e));
  }

  lemma NoNewControllers(s: State, e: B.Event)
    requires BridgeState.Inv(s) && !e.EConnect?
    ensures B.Step(s, e).controllers.Keys <= s.controllers.Keys
  {
    match e
    case EInput(m, at) => InputMovesLast(s, m, at);
    case _ =>
  }

  lemma ReceiveKeepsSlots(l: Link, d: C.Datagram, at: int)
    requires SlotsInv(l)
    ensures SlotsInv(Receive(l, d, at))
  {
    hide BridgeState.Inv, C.Inv, Fits, Predict, AnnouncedIds, B.Step;
    BridgeEventKeepsSlots(l, B.EInput(d.message, at));
  }

  lemma StepKeepsSlots(l: Link, e: GamepadLink.Event)
    requires SlotsInv(l) && Notified(l, e)
    ensures SlotsInv(Step(l, e))
  {
    hide Fits, Predict, AnnouncedIds, BridgeState.Inv, C.Inv, Absorb, Greet, Receive, B.Step;
    hide C.Register, C.Announce, C.SendState, C.Unregister;
    match e
    case Register(g, taken) => RegisterKeepsSlots(l, g, taken);
    case Announce(index, taken) => AnnounceKeepsSlots(l, index, taken);
    case Send(index, sample, taken) => SendKeepsSlots(l, index, sample, taken);
    case Unregister(index, now, stateTaken, notified) => UnregisterKeepsSlots(l, index, now, stateTaken, notified);
    case DeliverControl(ok) => if l.control != [] { GreetKeepsSlots(l, ok); }
    case DeliverState(d, at) => ReceiveKeepsSlots(l, d, at);
    case Lose(d) =>
    case SessionActive(active, arrivals) => BridgeEventKeepsSlots(l, B.ESetActive(active, arrivals));
    case TransportClosed => BridgeEventKeepsSlots(l, B.ETransportClosed);
    case Shutdown => BridgeEventKeepsSlots(l, B.EShutdown);
  }

  ghost predicate EveryDisconnectNotified(l: Link, events: seq<GamepadLink.Event>)
    requires BridgeState.Inv(l.bridge)
    decreases |events|
  {
    events == [] ||
    (StepKeepsBridge(l, events[0]);
     Notified(l, events[0]) && EveryDisconnectNotified(Step(l, events[0]), events[1..]))
  }

  lemma {:induction false} RunKeepsSlots(l: Link, events: seq<GamepadLink.Event>)
    requires SlotsInv(l) && EveryDisconnectNotified(l, events)
    ensures SlotsInv(Run(l, events))
    decreases |events|
  {
    if events != [] {
      StepKeepsSlots(l, events[0]);
      RunKeepsSlots(Step(l, events[0]), events[1..]);
    }
  }

  lemma {:induction false} TakenSlots(s: State, n: nat) returns (ids: set<ControllerId>)
    requires Structure(s) && n <= MAXIMUM_GAMEPADS
    requires forall i | 0 <= i < MAXIMUM_GAMEPADS :: s.slots[i].Some?
    ensures ids <= s.controllers.Keys && |ids| == n
    ensures forall id | id in ids :: s.controllers[id].slot < n
  {
    ids := {};
    if n > 0 {
      var fewer := TakenSlots(s, n - 1);
      var last := s.slots[n - 1].value;
      assert last in s.controllers && s.controllers[last].slot == n - 1;
      ids := fewer + {last};
    }
  }

  lemma FullTableHasSixteen(s: State)
    requires Structure(s) && forall i | 0 <= i < MAXIMUM_GAMEPADS :: s.slots[i].Some?
    ensures |s.controllers| >= MAXIMUM_GAMEPADS
  {
    var ids := TakenSlots(s, MAXIMUM_GAMEPADS);
    SmallerSet(ids, s.controllers.Keys);
    assert |s.controllers.Keys| == |s.controllers|;
  }

  ghost predicate AllNotified(events: seq<GamepadLink.Event>) {
    OpeningInv();
    EveryDisconnectNotified(Opening(), events)
  }

  /** While every disconnect is notified, an announcement within the protocol limits that
      reaches an open bridge always gets a slot. */
  lemma AnnouncementsAlwaysGetASlot(events: seq<GamepadLink.Event>, ok: bool)
    requires AllNotified(events)
    ensures var l := RunFromStart(events);
            l.control != [] && l.control[0].Hello? && WithinLimits(l.control[0].connected) && !l.bridge.closed
            ==> l.control[0].connected.id in Greet(l, ok).bridge.controllers
  {
    hide BridgeState.Inv;
    OpeningInv();
    OpeningSlots();
    RunKeepsSlots(Opening(), events);
    var l := RunFromStart(events);
    if l.control != [] && l.control[0].Hello? && WithinLimits(l.control[0].connected) && !l.bridge.closed {
      var m := l.control[0].connected;
      FitsTail(l.bridge.controllers.Keys, l.control);
      HasRoom(l.bridge, m, ok);
    }
  }

  lemma HasRoom(s: State, m: Connected, ok: bool)
    requires BridgeState.Inv(s) && WithinLimits(m) && !s.closed
    requires |s.controllers.Keys + {m.id}| <= MAXIMUM_GAMEPADS
    ensures m.id in Connect(s, m, ok).controllers
  {
    B.ConnectTakesLowestFreeSlot(s, m, ok);
    B.RemoveKeepsInv(s, m.id);
    var s1 := Remove(s, m.id);
    RoomForOne(s.controllers.Keys, s1.controllers.Keys, m.id);
    assert |s1.controllers.Keys| == |s1.controllers|;
    if m.id !in Connect(s, m, ok).controllers {
      FullTableHasSixteen(s1);
      assert false;
    }
  }

  lemma RoomForOne(ids: set<ControllerId>, rest: set<ControllerId>, id: ControllerId)
    requires rest == ids - {id} && |ids + {id}| <= MAXIMUM_GAMEPADS
    ensures |rest| < MAXIMUM_GAMEPADS
  {
    assert ids + {id} == rest + {id};
    assert |rest + {id}| == |rest| + 1;
  }

  lemma OpeningSlots()
    ensures SlotsInv(Opening())
  {
    B.InitialInv();
    var ids: set<ControllerId> := {};
    assert Opening().bridge.controllers.Keys == ids;
    assert Predict(ids, []) == ids;
    assert [][..0] == Opening().control;
  }
}
