/** The TV's artwork queue: one request in flight, a queue of pending ones, and what each
    application's tile was last told. */
module Artwork {
  import opened Basics

  type AppId = string

  const LONGEST_DATA := 12 * 1024 * 1024

  /** An answer from the gateway; fields of other types than the script expects are None. */
  datatype Answer = Answer(appId: Option<AppId>, available: bool, mimeType: Option<string>, data: Option<string>)

  /** A call to the tile callback: a data URL, or nothing to show. */
  datatype Shown = Shown(appId: AppId, url: Option<string>)

  /** `requests` and `shown` log the callbacks made since the gateway context was set. */
  datatype Loader = Loader(currentIds: set<AppId>, loaded: map<AppId, string>, unavailable: set<AppId>,
                           pending: seq<AppId>, pendingIds: set<AppId>, inFlight: Option<AppId>,
                           context: string, requests: seq<AppId>, shown: seq<Shown>)

  const NEW_LOADER := Loader({}, map[], {}, [], {}, None, "", [], [])

  predicate IsBase64Char(c: char) {
    'A' <= c <= 'Z' || 'a' <= c <= 'z' || '0' <= c <= '9' || c == '+' || c == '/'
  }

  predicate EndsInPadding(s: string, padding: nat) {
    && padding <= |s|
    && (forall i | 0 <= i < |s| - padding :: IsBase64Char(s[i]))
    && (forall i | |s| - padding <= i < |s| :: s[i] == '=')
  }

  /** Base64 text: its alphabet, then at most two equals signs. */
  predicate IsBase64(s: string) { EndsInPadding(s, 0) || EndsInPadding(s, 1) || EndsInPadding(s, 2) }

  predicate ValidArtwork(a: Answer) {
    && a.appId.Some? && a.available && a.mimeType.Some? && a.data.Some?
    && a.mimeType.value in {"image/jpeg", "image/png", "image/webp"}
    && 0 < |a.data.value| <= LONGEST_DATA && |a.data.value| % 4 == 0 && IsBase64(a.data.value)
  }

  // ------------------------------------------------------- specification

  function SetContext(l: Loader, context: string): Loader {
    if l.context == context then l
    else NEW_LOADER.(context := context)
  }

  function Enqueue(l: Loader, id: AppId): Loader {
    if l.inFlight == Some(id) || id in l.pendingIds then l
    else l.(pending := l.pending + [id], pendingIds := l.pendingIds + {id})
  }

  /** One application of a new list; an empty id is passed over. */
  function AddApplication(l: Loader, id: AppId): Loader {
    if id == "" then l
    else
      var m := l.(currentIds := l.currentIds + {id});
      if id in l.loaded then m.(shown := l.shown + [Shown(id, Some(l.loaded[id]))])
      else if id in l.unavailable then m
      else Enqueue(m, id)
  }

  function AddAll(l: Loader, ids: seq<AppId>): Loader {
    if ids == [] then l else AddApplication(AddAll(l, ids[..|ids| - 1]), ids[|ids| - 1])
  }

  predicate Wanted(l: Loader, id: AppId) { id in l.currentIds && id !in l.loaded && id !in l.unavailable }

  /** Takes pending ids until one is worth asking for. */
  function Pump(l: Loader): Loader
    decreases |l.pending|
  {
    if l.inFlight.Some? || l.pending == [] then l
    else
      var id := l.pending[0];
      var popped := l.(pending := l.pending[1..], pendingIds := l.pendingIds - {id});
      if Wanted(l, id) then popped.(inFlight := Some(id), requests := l.requests + [id])
      else Pump(popped)
  }

  function WithApplications(l: Loader, ids: seq<AppId>): Loader { Pump(AddAll(l.(currentIds := {}), ids)) }

  predicate Accepts(l: Loader, a: Answer) { l.inFlight.Some? && a.appId == l.inFlight }

  function DataUrl(a: Answer): string
    requires ValidArtwork(a)
  {
    "data:" + a.mimeType.value + ";base64," + a.data.value
  }

  function Record(l: Loader, id: AppId, a: Answer): Loader {
    var url := if ValidArtwork(a) then Some(DataUrl(a)) else None;
    l.(inFlight := None,
       loaded := if url.Some? then l.loaded[id := url.value] else l.loaded,
       unavailable := if url.Some? then l.unavailable else l.unavailable + {id},
       shown := if id in l.currentIds then l.shown + [Shown(id, url)] else l.shown)
  }

  function HandleAnswer(l: Loader, a: Answer): Loader {
    if Accepts(l, a) then Pump(Record(l, l.inFlight.value, a)) else l
  }

  // ------------------------------------------------------------ invariant

  ghost predicate NoDuplicates<T(!new)>(s: seq<T>) { forall i, j | 0 <= i < j < |s| :: s[i] != s[j] }

  ghost predicate Answered(l: Loader, id: AppId) { id in l.loaded || id in l.unavailable }

  /** Holds between and inside the public calls. */
  ghost predicate Inv(l: Loader) {
    && NoDuplicates(l.pending)
    && (forall id :: id in l.pendingIds <==> id in l.pending)
    && (forall id | id in l.loaded :: id !in l.unavailable)
    && (forall id | id in l.pending :: !Answered(l, id) && l.inFlight != Some(id))
    && (l.inFlight.Some? ==> !Answered(l, l.inFlight.value))
    && "" !in l.currentIds
    && (forall id | id in l.currentIds :: Answered(l, id) || id in l.pending || l.inFlight == Some(id))
    && NoDuplicates(l.requests)
    && (forall id | id in l.requests :: Answered(l, id) || l.inFlight == Some(id))
    && (l.inFlight.Some? ==> l.inFlight.value in l.requests)
    && (forall s | s in l.shown :: ToldTruly(l, s))
  }

  /** A tile was told the artwork loaded for it, or that there is none. */
  ghost predicate ToldTruly(l: Loader, s: Shown) {
    match s.url
    case Some(url) => s.appId in l.loaded && l.loaded[s.appId] == url
    case None => s.appId in l.unavailable
  }

  /** Between public calls something is pending only while a request is in flight. */
  ghost predicate Settled(l: Loader) { Inv(l) && (l.pending != [] ==> l.inFlight.Some?) }

  function Outstanding(l: Loader): nat { |l.pending| + if l.inFlight.Some? then 1 else 0 }

  lemma AddKeepsInv(l: Loader, id: AppId)
    requires Inv(l)
    ensures Inv(AddApplication(l, id))
  {}

  lemma {:induction false} AddAllKeepsInv(l: Loader, ids: seq<AppId>)
    requires Inv(l)
    ensures Inv(AddAll(l, ids)) && AddAll(l, ids).context == l.context
  {
    hide Inv;
    if ids != [] {
      AddAllKeepsInv(l, ids[..|ids| - 1]);
      AddKeepsInv(AddAll(l, ids[..|ids| - 1]), ids[|ids| - 1]);
    }
  }

  lemma PopKeepsInv(l: Loader)
    requires Inv(l) && l.inFlight == None && l.pending != []
    ensures var id := l.pending[0];
            var popped := l.(pending := l.pending[1..], pendingIds := l.pendingIds - {id});
            if Wanted(l, id) then Inv(popped.(inFlight := Some(id), requests := l.requests + [id])) else Inv(popped)
  {
    var id := l.pending[0];
    PopKeepsOrder(l.pending);
    hide NoDuplicates, ToldTruly;
    assert id !in l.requests;
    OneMoreRequest(l.requests, id);
    ToldAsBefore(l, l.(pending := l.pending[1..], pendingIds := l.pendingIds - {id}));
    ToldAsBefore(l, l.(pending := l.pending[1..], pendingIds := l.pendingIds - {id}, inFlight := Some(id),
                       requests := l.requests + [id]));
  }

  lemma PopKeepsOrder(queue: seq<AppId>)
    requires NoDuplicates(queue) && queue != []
    ensures NoDuplicates(queue[1..])
    ensures forall id :: id in queue[1..] <==> id in queue && id != queue[0]
  {
    assert forall i | 1 <= i < |queue| :: queue[i] == queue[1..][i - 1];
  }

  lemma OneMoreRequest(requests: seq<AppId>, id: AppId)
    requires NoDuplicates(requests) && id !in requests
    ensures NoDuplicates(requests + [id])
  {}

  lemma ToldAsBefore(l: Loader, l': Loader)
    requires l'.loaded == l.loaded && l'.unavailable == l.unavailable && l'.shown == l.shown
    requires forall s | s in l.shown :: ToldTruly(l, s)
    ensures forall s | s in l'.shown :: ToldTruly(l', s)
  {}

  lemma {:induction false} PumpSettles(l: Loader)
    requires Inv(l)
    ensures Settled(Pump(l)) && Outstanding(Pump(l)) <= Outstanding(l) && Pump(l).context == l.context
    ensures l.requests <= Pump(l).requests
    decreases |l.pending|
  {
    hide Inv;
    if l.inFlight == None && l.pending != [] {
      PopKeepsInv(l);
      var id := l.pending[0];
      if !Wanted(l, id) { PumpSettles(l.(pending := l.pending[1..], pendingIds := l.pendingIds - {id})); }
    }
  }

  lemma RecordKeepsInv(l: Loader, a: Answer)
    requires Inv(l) && Accepts(l, a)
    ensures Inv(Record(l, l.inFlight.value, a))
  {
    hide ValidArtwork, DataUrl;
  }

  lemma ForgettingListKeepsInv(l: Loader)
    requires Inv(l)
    ensures Inv(l.(currentIds := {}))
  {}

  // ------------------------------------------------------ the loader as it runs

  class ApplicationArtworkLoader {
    var currentIds: set<AppId>
    var loaded: map<AppId, string>
    var unavailable: set<AppId>
    var pending: seq<AppId>
    var pendingIds: set<AppId>
    var inFlight: Option<AppId>
    var gatewayContext: string
    ghost var requests: seq<AppId>
    ghost var shown: seq<Shown>

    ghost function Abs(): Loader
      reads this
    {
      Loader(currentIds, loaded, unavailable, pending, pendingIds, inFlight, gatewayContext, requests, shown)
    }

    constructor ()
      ensures Abs() == NEW_LOADER
    {
      currentIds, loaded, unavailable, pending, pendingIds := {}, map[], {}, [], {};
      inFlight, gatewayContext, requests, shown := None, "", [], [];
    }

    method SetGatewayContext(nextContext: string)
      modifies this
      ensures Abs() == SetContext(old(Abs()), nextContext)
    {
      if gatewayContext == nextContext {
        return;
      }
      gatewayContext := nextContext;
      currentIds, loaded, unavailable, pending, pendingIds, inFlight := {}, map[], {}, [], {}, None;
      requests, shown := [], [];
    }

    method EnqueueId(appId: AppId)
      modifies this
      ensures Abs() == Enqueue(old(Abs()), appId)
    {
      if inFlight != Some(appId) && appId !in pendingIds {
        pending := pending + [appId];
        pendingIds := pendingIds + {appId};
      }
    }

    method PumpQueue()
      modifies this
      ensures Abs() == Pump(old(Abs()))
    {
      if inFlight.Some? {
        return;
      }
      while pending != []
        invariant inFlight == None && Pump(Abs()) == Pump(old(Abs()))
        decreases |pending|
      {
        var appId := pending[0];
        pending := pending[1..];
        pendingIds := pendingIds - {appId};
        if appId !in currentIds || appId in loaded || appId in unavailable {
          continue;
        }
        inFlight := Some(appId);
        requests := requests + [appId];
        return;
      }
    }

    method SetApplications(applications: seq<AppId>)
      modifies this
      ensures Abs() == WithApplications(old(Abs()), applications)
    {
      currentIds := {};
      ghost var start := Abs();
      for i := 0 to |applications|
        invariant Abs() == AddAll(start, applications[..i])
      {
        assert applications[..i + 1][..i] == applications[..i];
        var appId := applications[i];
        if appId != "" {
          currentIds := currentIds + {appId};
          if appId in loaded {
            shown := shown + [Shown(appId, Some(loaded[appId]))];
          } else if appId !in unavailable {
            EnqueueId(appId);
          }
        }
      }
      assert applications[..|applications|] == applications;
      PumpQueue();
    }

    method HandleResponse(message: Answer) returns (accepted: bool)
      modifies this
      ensures accepted == Accepts(old(Abs()), message) && Abs() == HandleAnswer(old(Abs()), message)
    {
      if message.appId == None || inFlight == None || message.appId != inFlight {
        return false;
      }
      var appId := inFlight.value;
      inFlight := None;
      if ValidArtwork(message) {
        var dataUrl := DataUrl(message);
        loaded := loaded[appId := dataUrl];
        if appId in currentIds {
          shown := shown + [Shown(appId, Some(dataUrl))];
        }
      } else {
        unavailable := unavailable + {appId};
        if appId in currentIds {
          shown := shown + [Shown(appId, None)];
        }
      }
      PumpQueue();
      return true;
    }
  }

  // ---------------------------------------------------------------- runs

  datatype Call = CallContext(context: string) | CallApplications(ids: seq<AppId>) | CallAnswer(answer: Answer)

  function Step(l: Loader, c: Call): Loader {
    match c
    case CallContext(context) => SetContext(l, context)
    case CallApplications(ids) => WithApplications(l, ids)
    case CallAnswer(a) => HandleAnswer(l, a)
  }

  function Run(calls: seq<Call>): Loader {
    if calls == [] then NEW_LOADER else Step(Run(calls[..|calls| - 1]), calls[|calls| - 1])
  }

  lemma StepKeepsSettled(l: Loader, c: Call)
    requires Settled(l)
    ensures Settled(Step(l, c))
  {
    hide Inv, AddAll, Pump, Record;
    NewLoaderIsSettled(Step(l, c).context);
    match c
    case CallContext(context) =>
    case CallApplications(ids) =>
      ForgettingListKeepsInv(l);
      AddAllKeepsInv(l.(currentIds := {}), ids);
      PumpSettles(AddAll(l.(currentIds := {}), ids));
    case CallAnswer(a) =>
      if Accepts(l, a) {
        RecordKeepsInv(l, a);
        PumpSettles(Record(l, l.inFlight.value, a));
      }
  }

  lemma NewLoaderIsSettled(context: string)
    ensures Settled(NEW_LOADER.(context := context))
  {}

  /** In every reachable state: each current application is answered, pending or in flight; the
      queue has no duplicates and matches its id set; no request is made twice in a context. */
  lemma {:induction false} EveryRunIsSettled(calls: seq<Call>)
    ensures Settled(Run(calls))
  {
    hide Settled;
    if calls == [] {
      NewLoaderIsSettled("");
    } else {
      EveryRunIsSettled(calls[..|calls| - 1]);
      StepKeepsSettled(Run(calls[..|calls| - 1]), calls[|calls| - 1]);
    }
  }

  /** Each accepted answer leaves strictly fewer applications outstanding, and an id it answered
      is not among the requests made after it. */
  lemma AnswersMakeProgress(l: Loader, a: Answer)
    requires Settled(l) && Accepts(l, a)
    ensures Outstanding(HandleAnswer(l, a)) < Outstanding(l)
    ensures Answered(HandleAnswer(l, a), l.inFlight.value)
    ensures l.requests <= HandleAnswer(l, a).requests
    ensures l.inFlight.value !in HandleAnswer(l, a).requests[|l.requests|..]
  {
    hide Pump;
    var id := l.inFlight.value;
    var r := Record(l, id, a);
    RecordKeepsInv(l, a);
    PumpSettles(r);
    PumpKeepsAnswers(r, id);
    var after := HandleAnswer(l, a).requests;
    assert id in l.requests;
    var i :| 0 <= i < |l.requests| && l.requests[i] == id;
    assert after[i] == id;
  }

  lemma {:induction false} PumpKeepsAnswers(l: Loader, id: AppId)
    requires Answered(l, id)
    ensures Answered(Pump(l), id)
    decreases |l.pending|
  {
    if l.inFlight == None && l.pending != [] && !Wanted(l, l.pending[0]) {
      PumpKeepsAnswers(l.(pending := l.pending[1..], pendingIds := l.pendingIds - {l.pending[0]}), id);
    }
  }

  /** When nothing is outstanding every current application has its answer. */
  lemma NothingOutstandingMeansAllAnswered(l: Loader, id: AppId)
    requires Settled(l) && Outstanding(l) == 0 && id in l.currentIds
    ensures Answered(l, id)
  {}

  // ------------------------------------------------------------- the order

  ghost predicate Distinct(ids: seq<AppId>) {
    NoDuplicates(ids) && "" !in ids
  }

  function IdsOf(ids: seq<AppId>): set<AppId> { set id | id in ids }

  lemma {:induction false} ListIsQueued(ids: seq<AppId>, k: nat, context: string)
    requires Distinct(ids) && k <= |ids|
    ensures AddAll(NEW_LOADER.(context := context), ids[..k])
         == NEW_LOADER.(context := context, currentIds := IdsOf(ids[..k]), pending := ids[..k],
                        pendingIds := IdsOf(ids[..k]))
  {
    hide AddApplication;
    if k > 0 {
      ListIsQueued(ids, k - 1, context);
      assert ids[..k][..k - 1] == ids[..k - 1] && ids[..k] == ids[..k - 1] + [ids[k - 1]];
      OneMoreId(ids, k);
      AddFresh(AddAll(NEW_LOADER.(context := context), ids[..k - 1]), ids[k - 1]);
    } else {
      assert ids[..0] == [];
    }
  }

  lemma OneMoreId(ids: seq<AppId>, k: nat)
    requires Distinct(ids) && 0 < k <= |ids|
    ensures ids[k - 1] != "" && ids[k - 1] !in IdsOf(ids[..k - 1])
    ensures IdsOf(ids[..k]) == IdsOf(ids[..k - 1]) + {ids[k - 1]}
  {
    assert ids[..k] == ids[..k - 1] + [ids[k - 1]];
  }

  lemma AddFresh(l: Loader, id: AppId)
    requires id != "" && id !in l.loaded && id !in l.unavailable && id !in l.pendingIds && l.inFlight == None
    ensures AddApplication(l, id) == l.(currentIds := l.currentIds + {id}, pending := l.pending + [id],
                                        pendingIds := l.pendingIds + {id})
  {}

  /** The k-th application is in flight, the ones before it were asked for in order and answered,
      the ones after it wait in order. */
  ghost predicate AskedUpTo(l: Loader, ids: seq<AppId>, k: nat)
    requires k <= |ids|
  {
    && (forall id | id in ids :: id in l.currentIds)
    && l.requests == (if k < |ids| then ids[..k + 1] else ids)
    && l.inFlight == (if k < |ids| then Some(ids[k]) else None)
    && l.pending == (if k < |ids| then ids[k + 1..] else [])
    && (forall id | id in ids :: Answered(l, id) <==> id in ids[..k])
  }

  lemma ListIsStarted(ids: seq<AppId>, context: string)
    requires Distinct(ids)
    ensures AskedUpTo(WithApplications(NEW_LOADER.(context := context), ids), ids, 0)
  {
    ListIsQueued(ids, |ids|, context);
    assert ids[..|ids|] == ids && ids[..0] == [];
    if ids != [] { assert ids[..1] == [ids[0]]; }
  }

  lemma AnswerAsksNext(l: Loader, ids: seq<AppId>, k: nat, a: Answer)
    requires Distinct(ids) && k < |ids| && AskedUpTo(l, ids, k) && a.appId == Some(ids[k])
    ensures AskedUpTo(HandleAnswer(l, a), ids, k + 1)
  {
    hide ValidArtwork, DataUrl;
    var r := Record(l, ids[k], a);
    assert ids[..k + 1] == ids[..k] + [ids[k]];
    if k + 1 < |ids| {
      assert ids[k + 1..][0] == ids[k + 1] && ids[k + 1..][1..] == ids[k + 2..];
      assert ids[k + 1] !in ids[..k + 1];
      assert ids[..k + 2] == ids[..k + 1] + [ids[k + 1]];
    } else {
      assert ids[k + 1..] == [] && ids[..k + 1] == ids;
    }
  }

  function AnswerEach(l: Loader, answers: seq<Answer>): Loader {
    if answers == [] then l else HandleAnswer(AnswerEach(l, answers[..|answers| - 1]), answers[|answers| - 1])
  }

  /** In a new context a list's artwork is asked for in the list's order, one at a time: after
      answers to the first k the (k+1)-th is in flight, and after all of them nothing is. */
  lemma {:induction false} AskedInListOrder(ids: seq<AppId>, context: string, answers: seq<Answer>)
    requires Distinct(ids) && |answers| <= |ids|
    requires forall k | 0 <= k < |answers| :: answers[k].appId == Some(ids[k])
    ensures AskedUpTo(AnswerEach(WithApplications(NEW_LOADER.(context := context), ids), answers), ids, |answers|)
  {
    hide AskedUpTo, HandleAnswer, WithApplications, NoDuplicates;
    if answers == [] {
      ListIsStarted(ids, context);
    } else {
      var n := |answers| - 1;
      AskedInListOrder(ids, context, answers[..n]);
      var loader := WithApplications(NEW_LOADER.(context := context), ids);
      AnswerAsksNext(AnswerEach(loader, answers[..n]), ids, n, answers[n]);
    }
  }
}
