/** One Moonlight session object started and stopped by any number of threads. Every step is
    one atomic operation on the state word or one boundary of a connection call; threads
    interleave freely between steps. */
module SessionLifecycle {
  datatype State = Idle | Starting | Connected | Stopped

  /** Where a thread running start() is. */
  datatype Starter =
    | Ready            // before the compare-exchange from Idle
    | Rejected         // start() threw: the session was already started
    | Preparing        // inside the try block, before LiStartConnection
    | Connecting       // LiStartConnection is running
    | Opened           // it succeeded; before the compare-exchange to Connected
    | Closing          // that exchange failed; about to call LiStopConnection
    | Failed           // LiStartConnection failed; about to store Stopped
    | Unwinding        // in the catch block; before its compare-exchange
    | Threw            // start() threw after unwinding
    | Returned         // start() returned

  /** Where a thread running stop() is. */
  datatype Stopper =
    | Waiting          // before the exchange to Stopped
    | Interrupting     // saw Starting; about to call LiInterruptConnection
    | Disconnecting    // saw Connected; about to call LiStopConnection
    | Finished

  /** `established` records that LiStartConnection has succeeded. */
  datatype System = System(state: State, starters: map<nat, Starter>, stoppers: map<nat, Stopper>,
                           liStarts: nat, liInterrupts: nat, liStops: nat, established: bool)

  /** What a thread does next; the outcomes left to the environment are part of the step. */
  datatype Step =
    | Starts(id: nat)                       // one step of start()
    | PreparationThrows(id: nat)
    | ConnectionReturns(id: nat, success: bool)
    | Stops(id: nat)                        // one step of stop()

  function Open(s: System): bool { s.established && s.liStops == 0 }

  function At(s: System, id: nat, pc: Starter): System { s.(starters := s.starters[id := pc]) }

  function StopAt(s: System, id: nat, pc: Stopper): System { s.(stoppers := s.stoppers[id := pc]) }

  ghost predicate Enabled(s: System, t: Step) {
    match t
    case Starts(id) => id in s.starters && s.starters[id] in {Ready, Preparing, Opened, Closing, Failed, Unwinding}
    case PreparationThrows(id) => id in s.starters && s.starters[id] == Preparing
    case ConnectionReturns(id, _) => id in s.starters && s.starters[id] == Connecting
    case Stops(id) => id in s.stoppers && s.stoppers[id] != Finished
  }

  function StarterStep(s: System, id: nat): System
    requires id in s.starters
  {
    match s.starters[id]
    case Ready => if s.state == Idle then At(s.(state := Starting), id, Preparing) else At(s, id, Rejected)
    case Preparing => At(s.(liStarts := s.liStarts + 1), id, Connecting)
    case Opened => if s.state == Starting then At(s.(state := Connected), id, Returned) else At(s, id, Closing)
    case Closing => At(s.(liStops := s.liStops + 1), id, Unwinding)
    case Failed => At(s.(state := Stopped), id, Unwinding)
    case Unwinding => At(if s.state == Starting then s.(state := Stopped) else s, id, Threw)
    case _ => s
  }

  function StopperStep(s: System, id: nat): System
    requires id in s.stoppers
  {
    match s.stoppers[id]
    case Waiting =>
      StopAt(s.(state := Stopped), id,
             match s.state case Starting => Interrupting case Connected => Disconnecting case _ => Finished)
    case Interrupting => StopAt(s.(liInterrupts := s.liInterrupts + 1), id, Finished)
    case Disconnecting => StopAt(s.(liStops := s.liStops + 1), id, Finished)
    case Finished => s
  }

  ghost function Next(s: System, t: Step): System
    requires Enabled(s, t)
  {
    match t
    case Starts(id) => StarterStep(s, id)
    case PreparationThrows(id) => At(s, id, Unwinding)
    case ConnectionReturns(id, success) =>
      if success then At(s.(established := true), id, Opened) else At(s, id, Failed)
    case Stops(id) => StopperStep(s, id)
  }

  ghost predicate Init(s: System) {
    && s.state == Idle && s.liStarts == 0 && s.liInterrupts == 0 && s.liStops == 0 && !s.established
    && (forall id | id in s.starters :: s.starters[id] == Ready)
    && (forall id | id in s.stoppers :: s.stoppers[id] == Waiting)
  }

  // ----------------------------------------------------------- invariant

  /** The one starter whose first compare-exchange succeeded. */
  predicate Owns(pc: Starter) { pc != Ready && pc != Rejected }

  /** How the connection stands, given where the owner is and whether a stopper is about to close it. */
  ghost predicate OwnerOk(s: System, pc: Starter, closing: bool) {
    match pc
    case Preparing => s.liStarts == 0 && s.liStops == 0 && !s.established && s.state in {Starting, Stopped} && !closing
    case Connecting => s.liStarts == 1 && s.liStops == 0 && !s.established && s.state in {Starting, Stopped} && !closing
    case Opened => s.liStarts == 1 && s.liStops == 0 && s.established && s.state in {Starting, Stopped} && !closing
    case Closing => s.liStarts == 1 && s.liStops == 0 && s.established && s.state == Stopped && !closing
    case Failed => s.liStarts == 1 && s.liStops == 0 && !s.established && s.state in {Starting, Stopped} && !closing
    case Unwinding | Threw =>
      && s.liStarts <= 1 && s.liStops == (if s.established then 1 else 0) && (s.established ==> s.liStarts == 1)
      && (s.state == Stopped || (pc == Unwinding && s.state == Starting && s.liStarts == 0)) && !closing
    case Returned =>
      && s.liStarts == 1 && s.established
      && (s.state == Connected ==> s.liStops == 0 && !closing)
      && (s.state != Connected ==> s.state == Stopped && s.liStops == if closing then 0 else 1)
    case _ => false
  }

  ghost predicate IsClosing(s: System) { exists id :: id in s.stoppers && s.stoppers[id] == Disconnecting }

  ghost predicate NoOwner(s: System) {
    && (forall id | id in s.starters :: !Owns(s.starters[id]))
    && s.liStarts == 0 && s.liStops == 0 && !s.established && s.state in {Idle, Stopped} && !IsClosing(s)
  }

  ghost predicate OwnedBy(s: System, owner: nat) {
    && owner in s.starters && Owns(s.starters[owner])
    && (forall id | id in s.starters && id != owner :: !Owns(s.starters[id]))
    && OwnerOk(s, s.starters[owner], IsClosing(s))
  }

  ghost predicate Inv(s: System) {
    && (NoOwner(s) || exists owner :: OwnedBy(s, owner))
    && (forall a, b | a in s.stoppers && b in s.stoppers && a != b ::
          !(s.stoppers[a] == Disconnecting && s.stoppers[b] == Disconnecting))
    && (s.state != Stopped ==> forall id | id in s.stoppers :: s.stoppers[id] == Waiting)
  }

  lemma SameStoppersSameClosing(s: System, t: System)
    requires s.stoppers == t.stoppers
    ensures IsClosing(s) == IsClosing(t)
  {}

  lemma StartStepKeepsInv(s: System, t: Step)
    requires Inv(s) && Enabled(s, t) && !t.Stops?
    ensures Inv(Next(s, t))
  {
    var u := Next(s, t);
    SameStoppersSameClosing(s, u);
    hide IsClosing, OwnerOk;
    var id := t.id;
    if NoOwner(s) {
      assert s.starters[id] == Ready;
      if s.state == Idle {
        FirstOwner(s, t, IsClosing(s));
        assert OwnedBy(u, id);
      }
    } else {
      var owner :| OwnedBy(s, owner);
      OwnerMoves(s, t, owner, IsClosing(s));
      OwnerNotIdle(s, s.starters[owner], IsClosing(s));
      assert OwnedBy(u, owner);
    }
  }

  lemma FirstOwner(s: System, t: Step, closing: bool)
    requires Enabled(s, t) && t.Starts? && s.starters[t.id] == Ready
    requires s.state == Idle && s.liStarts == 0 && s.liStops == 0 && !s.established && !closing
    ensures OwnerOk(Next(s, t), Preparing, closing)
  {}

  lemma OwnerNotIdle(s: System, pc: Starter, closing: bool)
    requires OwnerOk(s, pc, closing)
    ensures s.state != Idle
  {}

  /** Wherever the owner stands, a starter's step keeps the account of the connection. */
  lemma OwnerMoves(s: System, t: Step, owner: nat, closing: bool)
    requires Enabled(s, t) && !t.Stops? && owner in s.starters && OwnerOk(s, s.starters[owner], closing)
    requires t.id != owner ==> !Owns(s.starters[t.id])
    ensures var u := Next(s, t); OwnerOk(u, u.starters[owner], closing) && Owns(u.starters[owner])
  {}

  /** A stopper that is not Disconnecting before and after its step leaves the rest as it was. */
  lemma ClosingAfterStop(s: System, id: nat)
    requires Inv(s) && id in s.stoppers
    ensures var u := StopperStep(s, id);
            IsClosing(u) <==> (u.stoppers[id] == Disconnecting
                               || (IsClosing(s) && s.stoppers[id] != Disconnecting))
  {
    var u := StopperStep(s, id);
    hide OwnedBy, NoOwner;
    if IsClosing(s) && s.stoppers[id] != Disconnecting {
      var other :| other in s.stoppers && s.stoppers[other] == Disconnecting;
      assert u.stoppers[other] == Disconnecting;
    }
    if IsClosing(u) && u.stoppers[id] != Disconnecting {
      var other :| other in u.stoppers && u.stoppers[other] == Disconnecting;
      assert s.stoppers[other] == Disconnecting;
    }
  }

  lemma StopStepKeepsInv(s: System, id: nat)
    requires Inv(s) && Enabled(s, Stops(id))
    ensures Inv(Next(s, Stops(id)))
  {
    var u := StopperStep(s, id);
    ClosingAfterStop(s, id);
    assert s.stoppers[id] == Disconnecting ==> IsClosing(s);
    hide IsClosing;
    if NoOwner(s) {
      assert NoOwner(u);
    } else {
      var owner :| OwnedBy(s, owner);
      assert OwnedBy(u, owner);
    }
  }

  lemma StepKeepsInv(s: System, t: Step)
    requires Inv(s) && Enabled(s, t)
    ensures Inv(Next(s, t))
  {
    hide Inv, Next;
    match t
    case Stops(id) => StopStepKeepsInv(s, id);
    case _ => StartStepKeepsInv(s, t);
  }

  // ---------------------------------------------------------------- runs

  ghost predicate IsRun(states: seq<System>, steps: seq<Step>) {
    && |states| == |steps| + 1 && Init(states[0])
    && forall k | 0 <= k < |steps| :: Enabled(states[k], steps[k]) && states[k + 1] == Next(states[k], steps[k])
  }

  lemma {:induction false} RunKeepsInv(states: seq<System>, steps: seq<Step>, k: nat)
    requires IsRun(states, steps) && k < |states|
    ensures Inv(states[k])
  {
    hide Inv, Next, Enabled;
    if k == 0 {
      InitIsInv(states[0]);
    } else {
      RunKeepsInv(states, steps, k - 1);
      StepKeepsInv(states[k - 1], steps[k - 1]);
    }
  }

  lemma InitIsInv(s: System)
    requires Init(s)
    ensures Inv(s)
  {}

  /** However starts and stops interleave, the connection is started at most once, and stopped
      at most once and only after it established. */
  lemma ConnectionCallsHappenOnce(states: seq<System>, steps: seq<Step>, k: nat)
    requires IsRun(states, steps) && k < |states|
    ensures states[k].liStarts <= 1 && states[k].liStops <= 1
    ensures states[k].liStops == 1 ==> states[k].established
    ensures states[k].established ==> states[k].liStarts == 1
  {
    hide IsRun, IsClosing;
    RunKeepsInv(states, steps, k);
  }

  /** LiStopConnection never runs while LiStartConnection is running, nor before it. */
  lemma StopNeverOverlapsStart(states: seq<System>, steps: seq<Step>, k: nat)
    requires IsRun(states, steps) && k < |steps| && states[k + 1].liStops > states[k].liStops
    ensures states[k].established && states[k].liStops == 0
    ensures forall id | id in states[k].starters :: states[k].starters[id] !in {Preparing, Connecting, Opened}
  {
    hide Inv, IsClosing;
    RunKeepsInv(states, steps, k);
    ClosersAreAlone(states[k], steps[k]);
  }

  lemma ClosersAreAlone(s: System, t: Step)
    requires Inv(s) && Enabled(s, t) && Next(s, t).liStops > s.liStops
    ensures s.established && s.liStops == 0
    ensures forall id | id in s.starters :: s.starters[id] !in {Preparing, Connecting, Opened}
  {
    if t.Stops? { assert IsClosing(s); }
  }

  /** A starter that won the session and has left start(). */
  ghost predicate OwnerHasLeft(s: System) {
    exists id :: id in s.starters && s.starters[id] in {Returned, Threw}
  }

  /** Exactly when the connection is open after the owner has left: nobody stopped it yet, or a
      stopper stands between its exchange and its LiStopConnection. */
  lemma OpenExactlyWhile(states: seq<System>, steps: seq<Step>, k: nat)
    requires IsRun(states, steps) && k < |states| && OwnerHasLeft(states[k])
    ensures Open(states[k]) <==> states[k].state == Connected || IsClosing(states[k])
  {
    hide IsRun, IsClosing;
    RunKeepsInv(states, steps, k);
  }

  ghost predicate SomeStopFinished(s: System) { exists id :: id in s.stoppers && s.stoppers[id] == Finished }

  /** Once a stop has finished and the owner has left, the connection is open if and only if
      another stopper has yet to make its LiStopConnection call. */
  lemma AfterStopOpenIffStillClosing(states: seq<System>, steps: seq<Step>, k: nat)
    requires IsRun(states, steps) && k < |states|
    requires SomeStopFinished(states[k]) && OwnerHasLeft(states[k])
    ensures Open(states[k]) <==> IsClosing(states[k])
  {
    hide IsRun, IsClosing;
    RunKeepsInv(states, steps, k);
    OpenExactlyWhile(states, steps, k);
  }

  /** With a single stopper nothing is left open. */
  lemma SingleStopperClosesEverything(states: seq<System>, steps: seq<Step>, k: nat, stopper: nat)
    requires IsRun(states, steps) && k < |states| && OwnerHasLeft(states[k])
    requires states[k].stoppers.Keys == {stopper} && states[k].stoppers[stopper] == Finished
    ensures !Open(states[k])
  {
    hide IsRun;
    AfterStopOpenIffStillClosing(states, steps, k);
  }

  // ----------------------------------------------------------- interruption

  /** Some stop before step k was the one that found the session starting. */
  ghost predicate TookStarting(states: seq<System>, steps: seq<Step>, k: nat)
    requires IsRun(states, steps) && k < |states|
  {
    k > 0 && (TookStarting(states, steps, k - 1) || TakesStarting(states[k - 1], steps[k - 1]))
  }

  ghost predicate TakesStarting(s: System, t: Step) {
    t.Stops? && t.id in s.stoppers && s.stoppers[t.id] == Waiting && s.state == Starting
  }

  ghost predicate IsInterrupting(s: System) { exists id :: id in s.stoppers && s.stoppers[id] == Interrupting }

  ghost predicate InterruptsOk(s: System, took: bool) {
    && (took ==> s.state == Stopped) && s.liInterrupts <= 1
    && (took <==> s.liInterrupts == 1 || IsInterrupting(s))
    && (s.liInterrupts == 1 ==> !IsInterrupting(s))
    && (forall a, b | a in s.stoppers && b in s.stoppers && a != b ::
          !(s.stoppers[a] == Interrupting && s.stoppers[b] == Interrupting))
  }

  lemma StartStepKeepsInterrupts(s: System, t: Step, took: bool)
    requires InterruptsOk(s, took) && Enabled(s, t) && !t.Stops?
    ensures InterruptsOk(Next(s, t), took)
  {
    var u := Next(s, t);
    assert u.stoppers == s.stoppers;
    assert IsInterrupting(u) == IsInterrupting(s);
    hide IsInterrupting;
  }

  lemma StopStepKeepsInterrupts(s: System, id: nat, took: bool)
    requires InterruptsOk(s, took) && Enabled(s, Stops(id))
    ensures InterruptsOk(Next(s, Stops(id)), took || TakesStarting(s, Stops(id)))
  {
    var u := Next(s, Stops(id));
    assert s.stoppers[id] == Interrupting ==> IsInterrupting(s);
    assert u.stoppers[id] == Interrupting ==> IsInterrupting(u);
    if IsInterrupting(s) && s.stoppers[id] != Interrupting {
      var other :| other in s.stoppers && s.stoppers[other] == Interrupting;
      assert u.stoppers[other] == Interrupting;
    }
    if IsInterrupting(u) && u.stoppers[id] != Interrupting {
      var other :| other in u.stoppers && u.stoppers[other] == Interrupting;
      assert s.stoppers[other] == Interrupting;
    }
  }

  lemma {:induction false} RunKeepsInterrupts(states: seq<System>, steps: seq<Step>, k: nat)
    requires IsRun(states, steps) && k < |states|
    ensures InterruptsOk(states[k], TookStarting(states, steps, k))
  {
    hide InterruptsOk, Next, Enabled, TakesStarting;
    if k == 0 {
      InitInterrupts(states[0]);
    } else {
      RunKeepsInterrupts(states, steps, k - 1);
      var s, t := states[k - 1], steps[k - 1];
      assert Enabled(s, t) && states[(k - 1) + 1] == Next(s, t);
      match t
      case Stops(id) => StopStepKeepsInterrupts(s, id, TookStarting(states, steps, k - 1));
      case _ =>
        StartStepKeepsInterrupts(s, t, TookStarting(states, steps, k - 1));
        NoStopTakesNothing(s, t);
    }
  }

  lemma NoStopTakesNothing(s: System, t: Step)
    requires !t.Stops?
    ensures !TakesStarting(s, t)
  {}

  lemma InitInterrupts(s: System)
    requires Init(s)
    ensures InterruptsOk(s, false)
  {}

  /** A stop that finds the session starting interrupts it, once, and no other stop does: when
      every stop that began has finished, LiInterruptConnection has run exactly if one did. */
  lemma InterruptedExactlyWhenStarting(states: seq<System>, steps: seq<Step>, k: nat)
    requires IsRun(states, steps) && k < |states|
    ensures states[k].liInterrupts <= 1
    ensures states[k].liInterrupts == 1 ==> TookStarting(states, steps, k)
    ensures (forall id | id in states[k].stoppers :: states[k].stoppers[id] in {Waiting, Finished}) ==>
              (states[k].liInterrupts == 1 <==> TookStarting(states, steps, k))
  {
    hide IsRun, TookStarting;
    RunKeepsInterrupts(states, steps, k);
  }

  /** A run goes on with an enabled step. */
  lemma OneMoreStep(states: seq<System>, steps: seq<Step>, t: Step, u: System)
    requires IsRun(states, steps) && Enabled(states[|steps|], t) && u == Next(states[|steps|], t)
    ensures IsRun(states + [u], steps + [t])
  {
    hide Enabled, Next, Init;
    var more, done := states + [u], steps + [t];
    forall k | 0 <= k < |done| ensures Enabled(more[k], done[k]) && more[k + 1] == Next(more[k], done[k]) {
      if k < |steps| { assert more[k] == states[k] && more[k + 1] == states[k + 1] && done[k] == steps[k]; }
    }
  }

  const TWO_WAITING: map<nat, Stopper> := map[0 := Waiting, 1 := Waiting]

  lemma MovesTo(only: map<nat, Starter>, a: Starter, b: Starter)
    requires only == map[0 := a]
    ensures only[0 := b] == map[0 := b]
  {}

  lemma StartedSession() returns (states: seq<System>, steps: seq<Step>)
    ensures IsRun(states, steps)
    ensures states[|steps|] == System(Connected, map[0 := Returned], TWO_WAITING, 1, 0, 0, true)
  {
    var s0 := System(Idle, map[0 := Ready], TWO_WAITING, 0, 0, 0, false);
    var s1 := System(Starting, map[0 := Preparing], TWO_WAITING, 0, 0, 0, false);
    var s2 := System(Starting, map[0 := Connecting], TWO_WAITING, 1, 0, 0, false);
    var s3 := System(Starting, map[0 := Opened], TWO_WAITING, 1, 0, 0, true);
    var s4 := System(Connected, map[0 := Returned], TWO_WAITING, 1, 0, 0, true);
    MovesTo(s0.starters, Ready, Preparing);
    MovesTo(s1.starters, Preparing, Connecting);
    MovesTo(s2.starters, Connecting, Opened);
    MovesTo(s3.starters, Opened, Returned);
    states, steps := [s0], [];
    assert IsRun(states, steps);
    hide IsRun, Init;
    OneMoreStep(states, steps, Starts(0), s1);
    states, steps := states + [s1], steps + [Starts(0)];
    OneMoreStep(states, steps, Starts(0), s2);
    states, steps := states + [s2], steps + [Starts(0)];
    OneMoreStep(states, steps, ConnectionReturns(0, true), s3);
    states, steps := states + [s3], steps + [ConnectionReturns(0, true)];
    OneMoreStep(states, steps, Starts(0), s4);
    states, steps := states + [s4], steps + [Starts(0)];
  }

  /** With two stoppers, one may finish while the other, which took Connected, still has the
      connection to close. */
  lemma TwoStoppersCanLeaveItOpenForAMoment() returns (states: seq<System>, steps: seq<Step>)
    ensures IsRun(states, steps)
    ensures var s := states[|steps|]; SomeStopFinished(s) && OwnerHasLeft(s) && Open(s)
  {
    hide Init;
    states, steps := StartedSession();
    var s5 := Next(states[|steps|], Stops(0));
    OneMoreStep(states, steps, Stops(0), s5);
    states, steps := states + [s5], steps + [Stops(0)];
    var s6 := Next(s5, Stops(1));
    OneMoreStep(states, steps, Stops(1), s6);
    states, steps := states + [s6], steps + [Stops(1)];
    assert s6.stoppers[1] == Finished && s6.starters[0] == Returned;
  }
}
