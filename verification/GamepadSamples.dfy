/** From a sampled gamepad to the pad the host shows, over every run of the link: what the
    client sampled for a registration is what the bridge accepts for it and forwards. */
module GamepadSamples {
  import opened Basics
  import opened GamepadProtocol
  import opened StickMapping
  import opened BridgeState
  import B = BridgeInvariant
  import Guarantees = BridgeGuarantees
  import Pads = BridgePads
  import C = GamepadClient
  import opened GamepadLink

  // ------------------------------------------------------------- samples

  /** Control by control, the datagram says what was sampled. */
  ghost predicate Carries(d: C.Datagram, s: C.Sample) {
    && d.message.buttons == s.buttons && d.message.timestamp == s.timestamp
    && d.message.leftTrigger == s.leftTrigger && d.message.rightTrigger == s.rightTrigger
    && d.message.leftStickX == s.leftStickX && d.message.leftStickY == s.leftStickY
    && d.message.rightStickX == s.rightStickX && d.message.rightStickY == s.rightStickY
  }

  /** And so does a pad: buttons as they are, each trigger and axis on its own scale. */
  ghost predicate ShowsSample(p: Pad, s: C.Sample) {
    && p.buttons == s.buttons
    && TriggerReads(p.leftTrigger, s.leftTrigger) && TriggerReads(p.rightTrigger, s.rightTrigger)
    && StickReads(p.leftStickX, s.leftStickX) && StickReads(-p.leftStickY, s.leftStickY)
    && StickReads(p.rightStickX, s.rightStickX) && StickReads(-p.rightStickY, s.rightStickY)
  }

  /** Everything let go: what an unregistration reports. */
  ghost function LetGo(now: real): C.Sample { C.Sample({}, now, 0.0, 0.0, 0.0, 0.0, 0.0, 0.0) }

  ghost predicate Sends(c: C.Client, index: nat, id: ControllerId) {
    index in c.records && c.records[index].announced && c.records[index].id == id
  }

  /** The samples of an id that the channel took: those of the polls, and the farewell. */
  ghost function NoteSample(c: C.Client, e: Event, id: ControllerId, samples: seq<C.Sample>): seq<C.Sample> {
    match e
    case Send(index, sample, taken) => if taken && Sends(c, index, id) then samples + [sample] else samples
    case Unregister(index, now, taken, _) => if taken && Sends(c, index, id) then samples + [LetGo(now)] else samples
    case _ => samples
  }

  ghost function Samples(l: Link, events: seq<Event>, id: ControllerId, samples: seq<C.Sample>): seq<C.Sample>
    requires BridgeState.Inv(l.bridge)
    decreases |events|
  {
    if events == [] then samples
    else
      StepKeepsBridge(l, events[0]);
      Samples(Step(l, events[0]), events[1..], id, NoteSample(l.client, events[0], id, samples))
  }

  ghost predicate InStep(sent: seq<C.Datagram>, samples: seq<C.Sample>) {
    |sent| == |samples| && forall k | 0 <= k < |sent| :: Carries(sent[k], samples[k])
  }

  lemma SendsInStep(l: Link, index: nat, sample: C.Sample, taken: bool, id: ControllerId, samples: seq<C.Sample>)
    requires InStep(At(l.sent, id), samples)
    ensures InStep(At(Absorb(l, C.SendState(l.client, index, sample, taken)).sent, id),
                   if taken && Sends(l.client, index, id) then samples + [sample] else samples)
  {
    if taken && index in l.client.records && l.client.records[index].announced {
      var d := C.StateOf(l.client.records[index], sample);
      assert Carries(d, sample);
      AppendAt(l.sent, d, id);
    }
  }

  lemma FarewellIsLetGo(l: Link, index: nat, now: real, taken: bool, notified: bool)
    ensures Absorb(l, C.Unregister(l.client, index, now, taken, notified)).sent
         == Absorb(l, C.SendState(l.client, index, LetGo(now), taken)).sent
  {}

  lemma OthersSendNothing(l: Link, e: Event)
    requires BridgeState.Inv(l.bridge) && !e.Send? && !e.Unregister?
    ensures Step(l, e).sent == l.sent
  {
    hide BridgeState.Inv, B.Step, Absorb, Greet, Receive, C.Register, C.Announce;
    match e
    case Register(g, taken) =>
      NothingButHello(l.client, g, g.index, taken);
      Absorbed(l, C.Register(l.client, g, taken));
    case Announce(index, taken) =>
      NothingButHello(l.client, C.Gamepad(index, "", "", 0, 0, false, false), index, taken);
      Absorbed(l, C.Announce(l.client, index, taken));
    case DeliverControl(ok) => if l.control != [] { Delivered(l, ok); }
    case DeliverState(d, at) => Received(l, d, at);
    case _ =>
  }

  lemma Delivered(l: Link, ok: bool)
    requires BridgeState.Inv(l.bridge) && l.control != []
    ensures Greet(l, ok).sent == l.sent && Greet(l, ok).accepted == l.accepted
  {
    hide BridgeState.Inv, B.Step;
  }

  lemma Received(l: Link, d: C.Datagram, at: int)
    requires BridgeState.Inv(l.bridge)
    ensures Receive(l, d, at).sent == l.sent
  {
    hide BridgeState.Inv, B.Step, Accepts;
  }

  lemma NothingButHello(c: C.Client, g: C.Gamepad, index: nat, taken: bool)
    ensures C.Register(c, g, taken).states == [] && C.Announce(c, index, taken).states == []
  {}

  lemma Absorbed(l: Link, s: C.Sent)
    ensures Absorb(l, s).accepted == l.accepted && Absorb(l, s).bridge == l.bridge
    ensures s.states == [] ==> Absorb(l, s).sent == l.sent
  {}

  lemma StepInStep(l: Link, e: Event, id: ControllerId, samples: seq<C.Sample>)
    requires BridgeState.Inv(l.bridge) && InStep(At(l.sent, id), samples)
    ensures InStep(At(Step(l, e).sent, id), NoteSample(l.client, e, id, samples))
  {
    hide BridgeState.Inv, InStep, Absorb, Greet, Receive, B.Step, C.SendState, C.Unregister, Sends;
    match e
    case Send(index, sample, taken) => SendsInStep(l, index, sample, taken, id, samples);
    case Unregister(index, now, taken, notified) =>
      FarewellIsLetGo(l, index, now, taken, notified);
      SendsInStep(l, index, LetGo(now), taken, id, samples);
    case _ => OthersSendNothing(l, e);
  }

  lemma {:induction false} RunInStep(l: Link, events: seq<Event>, id: ControllerId, samples: seq<C.Sample>)
    requires BridgeState.Inv(l.bridge) && InStep(At(l.sent, id), samples)
    ensures InStep(At(Run(l, events).sent, id), Samples(l, events, id, samples))
    decreases |events|
  {
    hide BridgeState.Inv, InStep, Step, NoteSample;
    if events != [] {
      StepKeepsBridge(l, events[0]);
      StepInStep(l, events[0], id, samples);
      RunInStep(Step(l, events[0]), events[1..], id, NoteSample(l.client, events[0], id, samples));
    }
  }

  ghost function SamplesFromStart(events: seq<Event>, id: ControllerId): seq<C.Sample> {
    OpeningInv();
    Samples(Opening(), events, id, [])
  }

  /** Over every run, sessions in any number: the k-th state sent for an id carries, control by
      control, the k-th sample taken for it, and there are no others. */
  lemma SentAsSampled(events: seq<Event>, id: ControllerId)
    ensures var sent, samples := At(RunFromStart(events).sent, id), SamplesFromStart(events, id);
            |sent| == |samples| && forall k | 0 <= k < |sent| :: Carries(sent[k], samples[k])
  {
    hide BridgeState.Inv;
    OpeningInv();
    RunInStep(Opening(), events, id, []);
  }

  /** Over every run of one session: a state the bridge accepts for an id carries what was
      sampled for the one registration that had the id. */
  lemma AcceptedAsSampled(events: seq<Event>, id: ControllerId, j: nat)
    requires OneSession(events) && j < |At(RunFromStart(events).accepted, id)|
    ensures var d, samples := At(RunFromStart(events).accepted, id)[j], SamplesFromStart(events, id);
            && d.message.id == id && 0 < d.message.sequence <= |samples|
            && Carries(d, samples[d.message.sequence - 1])
  {
    hide BridgeState.Inv, Carries;
    OpeningInv();
    RunKeepsInv(Opening(), events);
    SentAsSampled(events, id);
    var l := RunFromStart(events);
    assert AllSentInOrder(l.sent, id, At(l.accepted, id));
    assert WasSent(l.sent, At(l.accepted, id)[j]);
  }

  // ------------------------------------------------ the bridge inside the link

  /** What a step of the link is to the bridge. */
  ghost function BridgeEvent(l: Link, e: Event): seq<B.Event> {
    match e
    case DeliverControl(ok) =>
      if l.control == [] then []
      else (match l.control[0] case Hello(m, _) => [B.EConnect(m, ok)] case Goodbye(id) => [B.EDisconnect(id)])
    case DeliverState(d, at) => if d in l.flying then [B.EInput(d.message, at)] else []
    case SessionActive(active, arrivals) => [B.ESetActive(active, arrivals)]
    case TransportClosed => [B.ETransportClosed]
    case Shutdown => [B.EShutdown]
    case _ => []
  }

  ghost function BridgeEvents(l: Link, events: seq<Event>): seq<B.Event>
    requires BridgeState.Inv(l.bridge)
    decreases |events|
  {
    if events == [] then []
    else
      StepKeepsBridge(l, events[0]);
      BridgeEvent(l, events[0]) + BridgeEvents(Step(l, events[0]), events[1..])
  }

  lemma StepIsBridgeRun(l: Link, e: Event)
    requires BridgeState.Inv(l.bridge)
    ensures Step(l, e).bridge == B.Run(l.bridge, BridgeEvent(l, e))
  {
    hide BridgeState.Inv, B.Step, C.Register, C.Announce, C.SendState, C.Unregister;
    var es := BridgeEvent(l, e);
    if es != [] {
      assert es == [es[0]] && es[1..] == [];
      B.StepKeepsInv(l.bridge, es[0]);
    }
  }

  /** Every run of the link is a run of the bridge, to which all its laws apply. */
  lemma {:induction false} RunIsBridgeRun(l: Link, events: seq<Event>)
    requires BridgeState.Inv(l.bridge)
    ensures Run(l, events).bridge == B.Run(l.bridge, BridgeEvents(l, events))
    decreases |events|
  {
    hide BridgeState.Inv, Step, BridgeEvent, B.Step;
    if events != [] {
      StepKeepsBridge(l, events[0]);
      StepIsBridgeRun(l, events[0]);
      RunIsBridgeRun(Step(l, events[0]), events[1..]);
      B.RunInParts(l.bridge, BridgeEvent(l, events[0]), BridgeEvents(Step(l, events[0]), events[1..]));
    }
  }

  ghost function BridgeEventsFromStart(events: seq<Event>): seq<B.Event> {
    OpeningInv();
    BridgeEvents(Opening(), events)
  }

  /** What was last forwarded is among what was accepted. */
  ghost predicate LastIsAccepted(l: Link, id: ControllerId, last: Option<StateMessage>) {
    last.Some? ==> exists j | 0 <= j < |At(l.accepted, id)| :: At(l.accepted, id)[j].message == last.value
  }

  lemma ReceivedIsAccepted(l: Link, d: C.Datagram, at: int, id: ControllerId, last: Option<StateMessage>)
    requires BridgeState.Inv(l.bridge) && d in l.flying && LastIsAccepted(l, id, last)
    ensures LastIsAccepted(Receive(l, d, at), id, Pads.NoteForwarded(l.bridge, B.EInput(d.message, at), id, last))
  {
    hide BridgeState.Inv, B.Step, Input, Accepts;
    AppendAt(l.accepted, d, id);
    var l', ds := Receive(l, d, at), At(l.accepted, id);
    if Accepts(l.bridge, d.message) && d.message.id == id {
      assert At(l'.accepted, id)[|ds|] == d;
      assert forall j | 0 <= j < |ds| :: At(l'.accepted, id)[j] == ds[j];
    }
  }

  lemma OthersAcceptNothing(l: Link, e: Event)
    requires BridgeState.Inv(l.bridge) && !e.DeliverState?
    ensures Step(l, e).accepted == l.accepted
  {
    hide BridgeState.Inv, B.Step, Absorb, Greet, C.Register, C.Announce, C.SendState, C.Unregister, C.Reset;
    match e
    case Register(g, taken) => Absorbed(l, C.Register(l.client, g, taken));
    case Announce(index, taken) => Absorbed(l, C.Announce(l.client, index, taken));
    case Send(index, sample, taken) => Absorbed(l, C.SendState(l.client, index, sample, taken));
    case Unregister(index, now, taken, notified) =>
      Absorbed(l, C.Unregister(l.client, index, now, taken, notified));
    case DeliverControl(ok) => if l.control != [] { Delivered(l, ok); }
    case _ =>
  }

  lemma StepLastAccepted(l: Link, e: Event, id: ControllerId, last: Option<StateMessage>)
    requires BridgeState.Inv(l.bridge) && LastIsAccepted(l, id, last)
    ensures LastIsAccepted(Step(l, e), id, Pads.LastForwarded(l.bridge, BridgeEvent(l, e), id, last))
  {
    hide BridgeState.Inv, Absorb, Greet, B.Step, Pads.Forwarded;
    var es := BridgeEvent(l, e);
    if es != [] {
      assert es == [es[0]] && es[1..] == [];
      B.StepKeepsInv(l.bridge, es[0]);
      assert Pads.LastForwarded(l.bridge, es, id, last) == Pads.NoteForwarded(l.bridge, es[0], id, last);
    }
    if e.DeliverState? {
      if e.datagram in l.flying { ReceivedIsAccepted(l, e.datagram, e.at, id, last); }
    } else {
      OthersAcceptNothing(l, e);
    }
  }

  lemma {:induction false} ForwardedInParts(s: State, es: seq<B.Event>, fs: seq<B.Event>, id: ControllerId,
                                            last: Option<StateMessage>)
    requires BridgeState.Inv(s)
    ensures Pads.LastForwarded(s, es + fs, id, last)
         == Pads.LastForwarded(B.Run(s, es), fs, id, Pads.LastForwarded(s, es, id, last))
    decreases |es|
  {
    hide BridgeState.Inv, B.Step, Pads.NoteForwarded;
    if es == [] {
      assert es + fs == fs;
    } else {
      B.StepKeepsInv(s, es[0]);
      assert (es + fs)[1..] == es[1..] + fs;
      ForwardedInParts(B.Step(s, es[0]), es[1..], fs, id, Pads.NoteForwarded(s, es[0], id, last));
    }
  }

  lemma {:induction false} RunLastAccepted(l: Link, events: seq<Event>, id: ControllerId, last: Option<StateMessage>)
    requires BridgeState.Inv(l.bridge) && LastIsAccepted(l, id, last)
    ensures LastIsAccepted(Run(l, events), id, Pads.LastForwarded(l.bridge, BridgeEvents(l, events), id, last))
    decreases |events|
  {
    hide BridgeState.Inv, Step, BridgeEvent, B.Step, Pads.NoteForwarded, LastIsAccepted;
    if events != [] {
      var e := events[0];
      StepKeepsBridge(l, e);
      StepLastAccepted(l, e, id, last);
      StepIsBridgeRun(l, e);
      var later := BridgeEvents(Step(l, e), events[1..]);
      ForwardedInParts(l.bridge, BridgeEvent(l, e), later, id, last);
      RunLastAccepted(Step(l, e), events[1..], id, Pads.LastForwarded(l.bridge, BridgeEvent(l, e), id, last));
    }
  }

  // ------------------------------------------------------- sample to host pad

  lemma ShownAsSampled(p: Pad, d: C.Datagram, s: C.Sample)
    requires ShowsState(p, d.message) && Carries(d, s)
    ensures ShowsSample(p, s)
  {}

  /** From sample to host, over every run of one session: the host's pad for a controller says,
      control by control, what was sampled for its registration when the last forwarded state
      was sent; if none was forwarded it says nothing. */
  lemma PadShowsTheSample(events: seq<Event>, id: ControllerId)
    requires OneSession(events) && id in RunFromStart(events).bridge.controllers
    ensures var last := Pads.LastForwardedFromStart(BridgeEventsFromStart(events), id);
            var pad, samples := Pads.PadOf(RunFromStart(events).bridge, id), SamplesFromStart(events, id);
            if last == None then pad == Pad({}, 0, 0, 0, 0, 0, 0)
            else 0 < last.value.sequence <= |samples| && ShowsSample(pad, samples[last.value.sequence - 1])
  {
    hide BridgeState.Inv, ShowsState, ShowsSample, Carries, Pads.PadOf, Samples, Pads.LastForwarded, Run, B.Run;
    hide LastIsAccepted;
    SameBridge(events);
    var es := BridgeEventsFromStart(events);
    Pads.PadFollowsForwardedStates(es, id);
    LastForwardedIsAccepted(events, id);
    var last := Pads.LastForwardedFromStart(es, id);
    if last.Some? {
      var l := RunFromStart(events);
      var j := AcceptedAt(l, id, last);
      AcceptedAsSampled(events, id, j);
      ShownAsSampled(Pads.PadOf(l.bridge, id), At(l.accepted, id)[j],
                     SamplesFromStart(events, id)[last.value.sequence - 1]);
    }
  }

  lemma AcceptedAt(l: Link, id: ControllerId, last: Option<StateMessage>) returns (j: nat)
    requires LastIsAccepted(l, id, last) && last.Some?
    ensures j < |At(l.accepted, id)| && At(l.accepted, id)[j].message == last.value
  {
    j :| 0 <= j < |At(l.accepted, id)| && At(l.accepted, id)[j].message == last.value;
  }

  lemma SameBridge(events: seq<Event>)
    ensures RunFromStart(events).bridge == Guarantees.RunFromStart(BridgeEventsFromStart(events))
  {
    hide BridgeState.Inv, Run, B.Run, BridgeEvents;
    OpeningInv();
    RunIsBridgeRun(Opening(), events);
  }

  lemma LastForwardedIsAccepted(events: seq<Event>, id: ControllerId)
    ensures LastIsAccepted(RunFromStart(events), id,
                           Pads.LastForwardedFromStart(BridgeEventsFromStart(events), id))
  {
    hide BridgeState.Inv, Run, BridgeEvents, Pads.LastForwarded;
    OpeningInv();
    RunLastAccepted(Opening(), events, id, None);
  }

  // ------------------------------------------------------------ farewells

  lemma {:induction false} RunThen(l: Link, a: seq<Event>, b: seq<Event>, id: ControllerId, samples: seq<C.Sample>)
    requires BridgeState.Inv(l.bridge)
    ensures Run(l, a + b) == Run(Run(l, a), b)
    ensures Samples(l, a + b, id, samples) == Samples(Run(l, a), b, id, Samples(l, a, id, samples))
    decreases |a|
  {
    hide BridgeState.Inv, Step, NoteSample;
    if a == [] {
      assert a + b == b;
    } else {
      StepKeepsBridge(l, a[0]);
      assert (a + b)[1..] == a[1..] + b;
      RunThen(Step(l, a[0]), a[1..], b, id, NoteSample(l.client, a[0], id, samples));
    }
  }

  lemma {:induction false} SamplesGrow(l: Link, events: seq<Event>, id: ControllerId, samples: seq<C.Sample>)
    requires BridgeState.Inv(l.bridge)
    ensures samples <= Samples(l, events, id, samples)
    decreases |events|
  {
    hide BridgeState.Inv, Step;
    if events != [] {
      StepKeepsBridge(l, events[0]);
      SamplesGrow(Step(l, events[0]), events[1..], id, NoteSample(l.client, events[0], id, samples));
    }
  }

  /** The sample behind an unregistration's farewell is one with everything let go. */
  lemma FarewellSample(before: seq<Event>, index: nat, now: real, notified: bool, more: seq<Event>)
    requires OneSession(before)
    requires index in RunFromStart(before).client.records && RunFromStart(before).client.records[index].announced
    ensures var r := RunFromStart(before).client.records[index];
            var samples := SamplesFromStart(before + [Unregister(index, now, true, notified)] + more, r.id);
            r.sequence < |samples| && samples[r.sequence] == LetGo(now)
  {
    hide BridgeState.Inv, Step, LetGo, Ids, Carries;
    var l, e := RunFromStart(before), Unregister(index, now, true, notified);
    var r := l.client.records[index];
    OpeningInv();
    RunKeepsInv(Opening(), before);
    SentAsSampled(before, r.id);
    StepKeepsBridge(l, e);
    RunThen(Opening(), before, [e] + more, r.id, []);
    assert before + [e] + more == before + ([e] + more);
    assert ([e] + more)[1..] == more;
    var noted := SamplesFromStart(before, r.id) + [LetGo(now)];
    assert NoteSample(l.client, e, r.id, SamplesFromStart(before, r.id)) == noted;
    SamplesGrow(Step(l, e), more, r.id, noted);
  }

  /** The farewell of an unregistration, whenever it is taken and forwarded, leaves the host's
      pad with every control let go. */
  lemma FarewellLeavesPadNeutral(before: seq<Event>, index: nat, now: real, notified: bool, more: seq<Event>,
                                 d: C.Datagram, at: int)
    requires var events := before + [Unregister(index, now, true, notified)] + more;
             && OneSession(events) && d in RunFromStart(events).flying
             && Pads.Forwarded(RunFromStart(events).bridge, d.message, at)
    requires var records := RunFromStart(before).client.records;
             && index in records && records[index].announced
             && d.message.id == records[index].id && d.message.sequence == records[index].sequence + 1
    ensures var l := Receive(RunFromStart(before + [Unregister(index, now, true, notified)] + more), d, at);
            && BridgeState.Inv(l.bridge) && d.message.id in l.bridge.controllers
            && Pads.PadOf(l.bridge, d.message.id) == Pad({}, 0, 0, 0, 0, 0, 0)
  {
    hide BridgeState.Inv, ToPad, ShowsState, Pads.Forwarded, Input, Pads.PadOf, Carries, AtRest, Receive, Run, Samples;
    hide Ids, Accepting, LetGo;
    var events := before + [Unregister(index, now, true, notified)] + more;
    assert forall e | e in before :: e in events;
    OpeningInv();
    RunKeepsInv(Opening(), events);
    var l, id := RunFromStart(events), d.message.id;
    FarewellSample(before, index, now, notified, more);
    SentAsSampled(events, id);
    assert WasSent(l.sent, d);
    CarriesNothing(d, now);
    PadShowsState(d.message);
    EndsAreFixed(ToPad(d.message), d.message);
    ForwardedIsAccepted(l.bridge, d.message, at);
    Pads.OwnStatePad(l.bridge, d.message, at);
    ReceiveIsInput(l, d, at);
  }

  lemma CarriesNothing(d: C.Datagram, now: real)
    requires Carries(d, LetGo(now))
    ensures AtRest(d.message)
  {}

  lemma ForwardedIsAccepted(s: State, m: StateMessage, at: int)
    requires BridgeState.Inv(s) && Pads.Forwarded(s, m, at)
    ensures m.id in s.controllers
  {}

  lemma ReceiveIsInput(l: Link, d: C.Datagram, at: int)
    requires BridgeState.Inv(l.bridge) && d in l.flying
    ensures SlotsInRange(l.bridge) && Receive(l, d, at).bridge == Input(l.bridge, d.message, at)
  {}
}
