/** The artwork queue under the page's gateway connections. Every connection has a token, and
    messages that arrive for any but the current one are dropped. */
module ArtworkConnection {
  import opened Basics
  import opened Artwork

  /** A request as it was sent: on which connection, and for which gateway. */
  datatype Request = Request(token: nat, context: string, id: AppId)

  /** `sent` is the history of all requests. */
  datatype Page = Page(token: nat, connected: bool, loader: Loader, sent: set<Request>)

  const OPENED := Page(0, false, NEW_LOADER, {})

  /** Deliver: the gateway's answer to a request. Apps: its list of applications. */
  datatype Event =
    | Connect(gateway: string)
    | Close
    | Remove
    | Apps(token: nat, ids: seq<AppId>)
    | Deliver(request: Request, answer: Answer)

  function Forget(l: Loader, context: string): Loader { WithApplications(SetContext(l, context), []) }

  /** The requests a call on the loader made, sent on the current connection. */
  function Sent(p: Page, l': Loader): set<Request> {
    set id | id in l'.requests && id !in p.loader.requests :: Request(p.token, l'.context, id)
  }

  function Calls(p: Page, l': Loader): Page { p.(loader := l', sent := p.sent + Sent(p, l')) }

  /** An answer names its request's application. */
  predicate Answers(p: Page, r: Request, a: Answer) { r in p.sent && a.appId == Some(r.id) }

  function Step(p: Page, e: Event): Page {
    match e
    case Connect(gateway) => p.(token := p.token + 1, connected := true, loader := Forget(p.loader, gateway))
    case Close => p.(token := p.token + 1, connected := false)
    case Remove => p.(token := p.token + 1, connected := false, loader := Forget(p.loader, ""))
    case Apps(token, ids) =>
      if p.connected && token == p.token then Calls(p, WithApplications(p.loader, ids)) else p
    case Deliver(r, a) =>
      if p.connected && r.token == p.token && Answers(p, r, a) then Calls(p, HandleAnswer(p.loader, a)) else p
  }

  function Run(p: Page, events: seq<Event>): Page
    decreases |events|
  {
    if events == [] then p else Run(Step(p, events[0]), events[1..])
  }

  lemma {:induction false} RunInParts(p: Page, events0: seq<Event>, events1: seq<Event>)
    ensures Run(p, events0 + events1) == Run(Run(p, events0), events1)
    decreases |events0|
  {
    if events0 == [] {
      assert events0 + events1 == events1;
    } else {
      assert (events0 + events1)[1..] == events0[1..] + events1;
      RunInParts(Step(p, events0[0]), events0[1..], events1);
    }
  }

  // ------------------------------------------------------------ invariant

  ghost predicate Inv(p: Page) {
    && Settled(p.loader)
    && (forall r | r in p.sent :: r.token <= p.token)
    && (forall r | r in p.sent && r.token == p.token ::
          p.connected && r.context == p.loader.context && r.id in p.loader.requests)
  }

  lemma ForgetKeepsSettled(l: Loader, context: string)
    requires Settled(l)
    ensures Settled(Forget(l, context)) && Forget(l, context).context == context
    ensures l.context == context ==>
              Forget(l, context).requests == l.requests && Forget(l, context).inFlight == l.inFlight
  {
    hide Inv, Settled, Pump;
    StepKeepsSettled(l, CallContext(context));
    var l1 := SetContext(l, context);
    StepKeepsSettled(l1, CallApplications([]));
    var none := l1.(currentIds := {});
    assert AddAll(none, []) == none;
    NothingWanted(none);
  }

  lemma {:induction false} NothingWanted(l: Loader)
    requires l.currentIds == {}
    ensures Pump(l).requests == l.requests && Pump(l).inFlight == l.inFlight && Pump(l).context == l.context
    decreases |l.pending|
  {
    if l.inFlight == None && l.pending != [] {
      NothingWanted(l.(pending := l.pending[1..], pendingIds := l.pendingIds - {l.pending[0]}));
    }
  }

  lemma LoaderCalls(l: Loader, ids: seq<AppId>, a: Answer)
    requires Settled(l)
    ensures var l' := WithApplications(l, ids);
            && Settled(l') && l'.context == l.context && l.requests <= l'.requests
            && (l.inFlight.Some? ==> l'.inFlight == l.inFlight && l'.requests == l.requests)
    ensures var l' := HandleAnswer(l, a);
            && Settled(l') && l'.context == l.context && l.requests <= l'.requests
  {
    hide Artwork.Inv, Record, ValidArtwork;
    StepKeepsSettled(l, CallApplications(ids));
    StepKeepsSettled(l, CallAnswer(a));
    ForgettingListKeepsInv(l);
    var none := l.(currentIds := {});
    AddAllKeepsInv(none, ids);
    AddAllAsksNothing(none, ids);
    PumpSettles(AddAll(none, ids));
    if Accepts(l, a) {
      RecordKeepsInv(l, a);
      PumpSettles(Record(l, l.inFlight.value, a));
      RecordAsksNothing(l, a);
    }
  }

  lemma RecordAsksNothing(l: Loader, a: Answer)
    requires Accepts(l, a)
    ensures var l' := Record(l, l.inFlight.value, a);
            l'.requests == l.requests && l'.context == l.context && l'.inFlight == None
  {}

  lemma {:induction false} AddAllAsksNothing(l: Loader, ids: seq<AppId>)
    ensures AddAll(l, ids).requests == l.requests && AddAll(l, ids).inFlight == l.inFlight
  {
    if ids != [] { AddAllAsksNothing(l, ids[..|ids| - 1]); }
  }

  lemma StepKeepsInv(p: Page, e: Event)
    requires Inv(p)
    ensures Inv(Step(p, e)) && p.sent <= Step(p, e).sent && p.token <= Step(p, e).token
  {
    hide Settled, WithApplications, HandleAnswer, SetContext;
    match e
    case Connect(gateway) => ForgetKeepsSettled(p.loader, gateway);
    case Close =>
    case Remove => ForgetKeepsSettled(p.loader, "");
    case Apps(token, ids) => LoaderCalls(p.loader, ids, Answer(None, false, None, None));
    case Deliver(r, a) => LoaderCalls(p.loader, [], a);
  }

  lemma {:induction false} RunKeepsInv(p: Page, events: seq<Event>)
    requires Inv(p)
    ensures Inv(Run(p, events))
    decreases |events|
  {
    hide Inv;
    if events != [] {
      StepKeepsInv(p, events[0]);
      RunKeepsInv(Step(p, events[0]), events[1..]);
    }
  }

  lemma OpenedInv()
    ensures Inv(OPENED)
  {
    NewLoaderIsSettled("");
  }

  // ------------------------------------------------------ whose answer it is

  /** After every run, an answer changes something exactly if its request was made on the current
      connection and is the one in flight; and then it was made for the current gateway. */
  lemma AcceptedAnswersBelong(events: seq<Event>, r: Request, a: Answer)
    ensures var p := Run(OPENED, events);
            Step(p, Deliver(r, a)) != p <==>
              r in p.sent && a.appId == Some(r.id) && r.token == p.token && p.loader.inFlight == Some(r.id)
    ensures var p := Run(OPENED, events);
            Step(p, Deliver(r, a)) != p ==> r.context == p.loader.context
  {
    hide Settled, Pump, Record;
    OpenedInv();
    RunKeepsInv(OPENED, events);
    var p := Run(OPENED, events);
    assert Sent(p, p.loader) == {};
    if Accepts(p.loader, a) { AnswersMakeProgress(p.loader, a); }
  }

  /** What is in flight was sent, for the gateway of the loader. */
  ghost predicate InFlightSent(p: Page) {
    p.loader.inFlight.Some? ==>
      exists r :: r in p.sent && r.id == p.loader.inFlight.value && r.context == p.loader.context
  }

  lemma NewInFlightIsNew(l: Loader, ids: seq<AppId>)
    requires Settled(l) && l.inFlight == None && WithApplications(l, ids).inFlight.Some?
    ensures var l' := WithApplications(l, ids);
            l'.inFlight.value in l'.requests && l'.inFlight.value !in l.requests
  {
    hide AddAll, Pump;
    StepKeepsSettled(l, CallApplications(ids));
    var id, none := WithApplications(l, ids).inFlight.value, l.(currentIds := {});
    if id in l.requests {
      AddAllKeepsAnswers(none, ids, id);
      PumpKeepsAnswers(AddAll(none, ids), id);
    }
  }

  lemma {:induction false} AddAllKeepsAnswers(l: Loader, ids: seq<AppId>, id: AppId)
    requires Answered(l, id)
    ensures Answered(AddAll(l, ids), id)
  {
    if ids != [] { AddAllKeepsAnswers(l, ids[..|ids| - 1], id); }
  }

  lemma NextInFlightIsNew(l: Loader, a: Answer)
    requires Settled(l) && Accepts(l, a) && HandleAnswer(l, a).inFlight.Some?
    ensures var l' := HandleAnswer(l, a);
            l'.inFlight.value in l'.requests && l'.inFlight.value !in l.requests
  {
    hide Pump, ValidArtwork, DataUrl;
    StepKeepsSettled(l, CallAnswer(a));
    var id, r := HandleAnswer(l, a).inFlight.value, Record(l, l.inFlight.value, a);
    if id in l.requests { PumpKeepsAnswers(r, id); }
  }

  lemma StepKeepsInFlightSent(p: Page, e: Event)
    requires Inv(p) && InFlightSent(p)
    ensures Inv(Step(p, e)) && InFlightSent(Step(p, e))
  {
    hide Settled, WithApplications, HandleAnswer, SetContext;
    StepKeepsInv(p, e);
    var p' := Step(p, e);
    match e
    case Connect(gateway) => ForgetEmpties(p.loader, gateway);
    case Close =>
    case Remove => ForgetEmpties(p.loader, "");
    case Apps(token, ids) =>
      LoaderCalls(p.loader, ids, Answer(None, false, None, None));
      if p' != p && p'.loader.inFlight.Some? && p.loader.inFlight == None {
        NewInFlightIsNew(p.loader, ids);
        assert Request(p.token, p'.loader.context, p'.loader.inFlight.value) in p'.sent;
      }
    case Deliver(r, a) =>
      LoaderCalls(p.loader, [], a);
      DeliverSends(p, r, a);
  }

  lemma DeliverSends(p: Page, r: Request, a: Answer)
    requires Inv(p) && InFlightSent(p)
    ensures InFlightSent(Step(p, Deliver(r, a)))
  {
    hide Settled, WithApplications, Pump, Record;
    LoaderCalls(p.loader, [], a);
    var p' := Step(p, Deliver(r, a));
    if p' != p && Accepts(p.loader, a) && p'.loader.inFlight.Some? {
      NextInFlightIsNew(p.loader, a);
      assert Request(p.token, p'.loader.context, p'.loader.inFlight.value) in p'.sent;
    }
  }

  lemma ForgetEmpties(l: Loader, context: string)
    requires Settled(l)
    ensures l.context == context ==> Forget(l, context).inFlight == l.inFlight && Forget(l, context).context == context
    ensures l.context != context ==> Forget(l, context).inFlight == None
  {
    hide Settled, Artwork.Inv;
    ForgetKeepsSettled(l, context);
    if l.context != context {
      var none := SetContext(l, context).(currentIds := {});
      assert AddAll(none, []) == none;
    }
  }

  lemma {:induction false} RunKeepsInFlightSent(p: Page, events: seq<Event>)
    requires Inv(p) && InFlightSent(p)
    ensures InFlightSent(Run(p, events))
    decreases |events|
  {
    hide Inv, InFlightSent, Step;
    if events != [] {
      StepKeepsInFlightSent(p, events[0]);
      RunKeepsInFlightSent(Step(p, events[0]), events[1..]);
    }
  }

  /** After every run, whatever is waited for was asked for, on some connection to the current
      gateway; and on that connection its answer is taken. */
  lemma WhatIsAwaitedWasAsked(events: seq<Event>)
    ensures var p := Run(OPENED, events);
            p.loader.inFlight.Some? ==>
              exists r :: r in p.sent && r.id == p.loader.inFlight.value && r.context == p.loader.context
  {
    hide Inv;
    OpenedInv();
    RunKeepsInFlightSent(OPENED, events);
  }

  /** Closing, connecting anew and removing the gateway make the connections so far deaf: no
      answer to a request made before, and no list sent before, changes anything after. */
  lemma OldConnectionsAreDeaf(events: seq<Event>, e: Event, r: Request, a: Answer, token: nat, ids: seq<AppId>)
    requires e.Connect? || e == Close || e == Remove
    requires r in Run(OPENED, events).sent && token <= Run(OPENED, events).token
    ensures var p := Step(Run(OPENED, events), e);
            Step(p, Deliver(r, a)) == p && Step(p, Apps(token, ids)) == p
  {
    hide Settled;
    OpenedInv();
    RunKeepsInv(OPENED, events);
  }

  // ---------------------------------------------------------------- stalls

  ghost predicate KeepsContext(events: seq<Event>, context: string) {
    forall e | e in events :: match e
      case Connect(gateway) => gateway == context
      case Remove => context == ""
      case _ => true
  }

  /** Whatever happens while the gateway stays the same, no artwork is asked for again. */
  ghost predicate Stalled(p: Page) {
    forall events: seq<Event> | KeepsContext(events, p.loader.context) ::
      Run(p, events).loader.requests == p.loader.requests
  }

  ghost predicate InFlightHere(p: Page) {
    p.loader.inFlight.Some? && Request(p.token, p.loader.context, p.loader.inFlight.value) in p.sent
  }

  /** A request that no answer on the current connection can end. */
  ghost predicate Orphaned(p: Page) { p.loader.inFlight.Some? && !InFlightHere(p) }

  lemma OrphanStays(p: Page, e: Event)
    requires Inv(p) && Orphaned(p) && KeepsContext([e], p.loader.context)
    ensures Inv(Step(p, e)) && Orphaned(Step(p, e))
    ensures Step(p, e).loader.requests == p.loader.requests && Step(p, e).loader.context == p.loader.context
    ensures Step(p, e).loader.inFlight == p.loader.inFlight
  {
    hide Settled, WithApplications, SetContext, Pump, Record;
    StepKeepsInv(p, e);
    assert e in [e];
    match e
    case Connect(gateway) => ForgetKeepsSettled(p.loader, gateway);
    case Close =>
    case Remove => ForgetKeepsSettled(p.loader, "");
    case Apps(token, ids) => LoaderCalls(p.loader, ids, Answer(None, false, None, None));
    case Deliver(r, a) =>
      if p.connected && r.token == p.token && Answers(p, r, a) {
        assert r == Request(p.token, p.loader.context, r.id);
        assert !Accepts(p.loader, a);
      }
  }

  lemma {:induction false} OrphanStalls(p: Page, events: seq<Event>)
    requires Inv(p) && Orphaned(p) && KeepsContext(events, p.loader.context)
    ensures Run(p, events).loader.requests == p.loader.requests
    ensures Run(p, events).loader.inFlight == p.loader.inFlight
    decreases |events|
  {
    hide Inv, Orphaned;
    if events != [] {
      var e := events[0];
      assert e in events;
      assert KeepsContext([e], p.loader.context);
      assert forall x | x in events[1..] :: x in events;
      OrphanStays(p, e);
      OrphanStalls(Step(p, e), events[1..]);
    }
  }

  lemma FreshId(ids: set<AppId>) returns (id: AppId)
    ensures id != "" && id !in ids
  {
    var longest := LongerThan(ids);
    id := seq(longest + 1, _ => 'a');
  }

  lemma {:induction false} LongerThan(ids: set<AppId>) returns (n: nat)
    ensures forall id | id in ids :: |id| <= n
  {
    n := 0;
    if id :| id in ids {
      var rest := LongerThan(ids - {id});
      n := if rest < |id| then |id| else rest;
      assert forall other | other in ids :: other == id || other in ids - {id};
    }
  }

  /** With nothing in flight, a list with an application never seen before is asked about. */
  lemma IdleCanAsk(p: Page) returns (events: seq<Event>)
    requires Inv(p) && p.loader.inFlight == None
    ensures KeepsContext(events, p.loader.context)
    ensures |Run(p, events).loader.requests| > |p.loader.requests|
  {
    var l := p.loader;
    var id := FreshId(l.loaded.Keys + l.unavailable);
    events := [Connect(l.context), Apps(p.token + 1, [id])];
    IdleLoaderAsks(l, id);
    var p1 := Step(p, events[0]);
    assert events[1..] == [Apps(p.token + 1, [id])];
    assert Run(p1, events[1..]) == Step(p1, events[1]);
  }

  lemma IdleLoaderAsks(l: Loader, id: AppId)
    requires Settled(l) && l.inFlight == None && id != "" && id !in l.loaded && id !in l.unavailable
    ensures var l' := WithApplications(Forget(l, l.context), [id]); |l'.requests| > |l.requests|
  {
    var none := l.(currentIds := {});
    assert l.pending == [] && l.pendingIds == {};
    assert AddAll(none, []) == none && Forget(l, l.context) == none;
    assert [id][..0] == [] && AddAll(none, [id]) == AddApplication(none, id);
  }

  /** An answer to a request of the current connection ends with a new request or nothing in flight. */
  lemma AnswerMovesOn(p: Page, a: Answer)
    requires Inv(p) && InFlightHere(p) && a.appId == p.loader.inFlight
    ensures var p' := Step(p, Deliver(Request(p.token, p.loader.context, p.loader.inFlight.value), a));
            && Inv(p') && p'.loader.context == p.loader.context && |p.loader.requests| <= |p'.loader.requests|
            && (p'.loader.inFlight == None || |p'.loader.requests| > |p.loader.requests|)
  {
    hide Settled, Pump, Record, ValidArtwork;
    StepKeepsInv(p, Deliver(Request(p.token, p.loader.context, p.loader.inFlight.value), a));
    LoaderCalls(p.loader, [], a);
    RecordAsksNothing(p.loader, a);
    PumpAsks(Record(p.loader, p.loader.inFlight.value, a));
  }

  lemma {:induction false} PumpAsks(l: Loader)
    ensures Pump(l).inFlight == l.inFlight || |Pump(l).requests| > |l.requests|
    decreases |l.pending|
  {
    if l.inFlight == None && l.pending != [] && !Wanted(l, l.pending[0]) {
      PumpAsks(l.(pending := l.pending[1..], pendingIds := l.pendingIds - {l.pending[0]}));
    }
  }

  lemma OtherwiseCanAsk(p: Page)
    requires Inv(p) && !Orphaned(p)
    ensures !Stalled(p)
  {
    hide Inv, Step, Settled;
    if p.loader.inFlight == None {
      var events := IdleCanAsk(p);
    } else {
      var a := Answer(p.loader.inFlight, false, None, None);
      var e := Deliver(Request(p.token, p.loader.context, p.loader.inFlight.value), a);
      AnswerMovesOn(p, a);
      var p1 := Step(p, e);
      assert Run(p, [e]) == p1;
      assert KeepsContext([e], p.loader.context);
      if p1.loader.inFlight == None {
        var events := IdleCanAsk(p1);
        RunInParts(p, [e], events);
        assert KeepsContext([e] + events, p.loader.context);
      }
    }
  }

  lemma StalledIffOrphaned(p: Page)
    requires Inv(p)
    ensures Stalled(p) <==> Orphaned(p)
  {
    hide Inv, Orphaned;
    if Orphaned(p) {
      forall events: seq<Event> | KeepsContext(events, p.loader.context)
        ensures Run(p, events).loader.requests == p.loader.requests
      {
        OrphanStalls(p, events);
      }
    } else {
      OtherwiseCanAsk(p);
    }
  }

  /** After every run: artwork stalls for good exactly when a request is in flight that was not
      made on the current connection. */
  lemma StallsExactlyWhenOrphaned(events: seq<Event>)
    ensures var p := Run(OPENED, events);
            Stalled(p) <==> p.loader.inFlight.Some?
                            && Request(p.token, p.loader.context, p.loader.inFlight.value) !in p.sent
  {
    hide Inv, Stalled;
    OpenedInv();
    RunKeepsInv(OPENED, events);
    StalledIffOrphaned(Run(OPENED, events));
  }

  /** After every run: connecting again to the same gateway stalls its artwork exactly when an
      answer was being waited for. */
  lemma ReconnectingStallsExactlyWhileWaiting(events: seq<Event>)
    ensures var p := Run(OPENED, events);
            Stalled(Step(p, Connect(p.loader.context))) <==> p.loader.inFlight.Some?
  {
    hide Settled, Stalled, Forget;
    OpenedInv();
    RunKeepsInv(OPENED, events);
    var p := Run(OPENED, events);
    StepKeepsInv(p, Connect(p.loader.context));
    ForgetKeepsSettled(p.loader, p.loader.context);
    StalledIffOrphaned(Step(p, Connect(p.loader.context)));
  }
}
