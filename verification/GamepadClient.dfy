/** The TV's gamepad manager: registration ids and the per-registration state sequence.
    Whether a channel takes a message is decided by the environment and passed in. */
module GamepadClient {
  import opened GamepadProtocol

  datatype Gamepad = Gamepad(
    index: nat, name: string, mapping: string, buttons: nat, axes: nat, dualRumble: bool, triggerRumble: bool)

  datatype Record = Record(gamepad: Gamepad, id: ControllerId, registration: nat, announced: bool, sequence: nat)

  /** A registration number marks which registration sent a message; it is not on the wire. */
  datatype ControlMessage = Hello(connected: Connected, registration: nat) | Goodbye(id: ControllerId)
  datatype Datagram = Datagram(message: StateMessage, registration: nat)

  /** A sampled pad without the fields the sender fills in. */
  datatype Sample = Sample(buttons: Buttons, timestamp: real, leftTrigger: real, rightTrigger: real,
                           leftStickX: real, leftStickY: real, rightStickX: real, rightStickY: real)

  datatype Client = Client(records: map<nat, Record>, nextId: ControllerId, registrations: nat)

  const NO_GAMEPADS: Client := Client(map[], 1, 0)

  function HelloOf(r: Record): ControlMessage {
    Hello(Connected(r.id, r.gamepad.name, r.gamepad.mapping, r.gamepad.buttons, r.gamepad.axes,
                    r.gamepad.dualRumble, r.gamepad.triggerRumble), r.registration)
  }

  function StateOf(r: Record, s: Sample): Datagram {
    Datagram(StateMessage(r.id, r.sequence + 1, s.buttons, s.timestamp, s.leftTrigger, s.rightTrigger,
                          s.leftStickX, s.leftStickY, s.rightStickX, s.rightStickY), r.registration)
  }

  function NeutralSample(now: real): Sample { Sample({}, now, 0.0, 0.0, 0.0, 0.0, 0.0, 0.0) }

  /** What an operation leaves behind and puts on the two channels. */
  datatype Sent = Sent(client: Client, control: seq<ControlMessage>, states: seq<Datagram>)

  function Announce(c: Client, index: nat, taken: bool): Sent {
    if index !in c.records || c.records[index].announced || !taken then Sent(c, [], [])
    else
      var r := c.records[index];
      Sent(c.(records := c.records[index := r.(announced := true)]), [HelloOf(r)], [])
  }

  function NewRecord(c: Client, g: Gamepad): Record { Record(g, c.nextId, c.registrations, false, 0) }

  function Register(c: Client, g: Gamepad, taken: bool): Sent {
    if g.index in c.records || |c.records| >= MAXIMUM_GAMEPADS then Sent(c, [], [])
    else
      Announce(Client(c.records[g.index := NewRecord(c, g)], c.nextId + 1, c.registrations + 1), g.index, taken)
  }

  function SendState(c: Client, index: nat, s: Sample, taken: bool): Sent {
    if index !in c.records || !c.records[index].announced || !taken then Sent(c, [], [])
    else
      var r := c.records[index];
      Sent(c.(records := c.records[index := r.(sequence := r.sequence + 1)]), [], [StateOf(r, s)])
  }

  /** A final neutral state, then the notification when asked for and the channel takes it. */
  function Unregister(c: Client, index: nat, now: real, stateTaken: bool, notified: bool): Sent {
    if index !in c.records then Sent(c, [], [])
    else
      var r := c.records[index];
      var last := SendState(c, index, NeutralSample(now), stateTaken);
      Sent(last.client.(records := last.client.records - {index}),
           if r.announced && notified then [Goodbye(r.id)] else [],
           last.states)
  }

  /** Suspending: the records go one after the other, each with its farewell. */
  function UnregisterEach(c: Client, order: seq<nat>, now: real, stateTaken: nat -> bool, notified: nat -> bool): Sent
    decreases |order|
  {
    if order == [] then Sent(c, [], [])
    else
      var first := Unregister(c, order[0], now, stateTaken(order[0]), notified(order[0]));
      var rest := UnregisterEach(first.client, order[1..], now, stateTaken, notified);
      Sent(rest.client, first.control + rest.control, first.states + rest.states)
  }

  lemma {:induction false} NoNotices(c: Client, order: seq<nat>, now: real, stateTaken: nat -> bool)
    ensures UnregisterEach(c, order, now, stateTaken, _ => false).control == []
    decreases |order|
  {
    if order != [] {
      NoNotices(Unregister(c, order[0], now, stateTaken(order[0]), false).client, order[1..], now, stateTaken);
    }
  }

  lemma UnregisterSparesOthers(c: Client, gone: nat, now: real, stateTaken: bool, notified: bool, index: nat)
    requires index in c.records && index != gone
    ensures var c' := Unregister(c, gone, now, stateTaken, notified).client;
            index in c'.records && c'.records[index] == c.records[index]
  {}

  /** When all records go, each announced one says farewell as far as the channels take it: a
      state with its next sequence number and everything let go, and the notice if asked for. */
  lemma {:induction false} EachSaysFarewell(c: Client, order: seq<nat>, now: real, stateTaken: nat -> bool,
                                            notified: nat -> bool, index: nat)
    requires index in order && index in c.records && c.records[index].announced
    ensures var all, r := UnregisterEach(c, order, now, stateTaken, notified), c.records[index];
            && (stateTaken(index) ==>
                  Datagram(StateMessage(r.id, r.sequence + 1, {}, now, 0.0, 0.0, 0.0, 0.0, 0.0, 0.0), r.registration)
                  in all.states)
            && (notified(index) ==> Goodbye(r.id) in all.control)
    decreases |order|
  {
    if order[0] != index {
      hide Unregister;
      UnregisterSparesOthers(c, order[0], now, stateTaken(order[0]), notified(order[0]), index);
      EachSaysFarewell(Unregister(c, order[0], now, stateTaken(order[0]), notified(order[0])).client, order[1..], now,
                       stateTaken, notified, index);
    }
  }

  /** beginSession drops every record without notice and starts the ids over. */
  function Reset(c: Client): Client { c.(records := map[], nextId := 1) }

  ghost predicate Inv(c: Client) {
    && |c.records| <= MAXIMUM_GAMEPADS
    && (forall i | i in c.records ::
          c.records[i].gamepad.index == i && c.records[i].id < c.nextId && c.records[i].registration < c.registrations)
    && (forall i, j | i in c.records && j in c.records && i != j :: c.records[i].id != c.records[j].id)
    && (forall i | i in c.records :: !c.records[i].announced ==> c.records[i].sequence == 0)
  }

  lemma UpdateKeepsInv(c: Client, index: nat, r: Record)
    requires Inv(c) && index in c.records
    requires r.gamepad == c.records[index].gamepad && r.id == c.records[index].id
    requires r.registration == c.records[index].registration && (!r.announced ==> r.sequence == 0)
    ensures Inv(c.(records := c.records[index := r]))
    ensures c.records[index := r].Keys == c.records.Keys
  {
    var records := c.records[index := r];
    assert records.Keys == c.records.Keys;
    SameSize(c.records, records);
    SameIdentities(c.records, records, index);
  }

  lemma SameIdentities(records: map<nat, Record>, records': map<nat, Record>, index: nat)
    requires index in records && index in records' && records' == records[index := records'[index]]
    requires records'[index].id == records[index].id
    requires records'[index].gamepad == records[index].gamepad
    requires records'[index].registration == records[index].registration
    ensures forall i | i in records ::
              i in records' && records'[i].id == records[i].id && records'[i].gamepad == records[i].gamepad
              && records'[i].registration == records[i].registration
  {}

  lemma AnnounceKeepsInv(c: Client, index: nat, taken: bool)
    requires Inv(c)
    ensures Inv(Announce(c, index, taken).client)
    ensures Announce(c, index, taken).client.records.Keys == c.records.Keys
  {
    hide Inv;
    if index in c.records { UpdateKeepsInv(c, index, c.records[index].(announced := true)); }
  }

  lemma SameSize(a: map<nat, Record>, b: map<nat, Record>)
    requires a.Keys == b.Keys
    ensures |a| == |b|
  {
    assert |a| == |a.Keys| && |b| == |b.Keys|;
  }

  lemma RegisterKeepsInv(c: Client, g: Gamepad, taken: bool)
    requires Inv(c)
    ensures Inv(Register(c, g, taken).client)
  {
    if g.index !in c.records && |c.records| < MAXIMUM_GAMEPADS {
      var c1 := Client(c.records[g.index := NewRecord(c, g)], c.nextId + 1, c.registrations + 1);
      assert c1.records.Keys == c.records.Keys + {g.index};
      assert |c1.records.Keys| == |c.records.Keys| + 1;
      assert Inv(c1);
      AnnounceKeepsInv(c1, g.index, taken);
    }
  }

  lemma SendStateKeepsInv(c: Client, index: nat, sample: Sample, taken: bool)
    requires Inv(c)
    ensures Inv(SendState(c, index, sample, taken).client)
    ensures SendState(c, index, sample, taken).client.records.Keys == c.records.Keys
  {
    hide Inv;
    if index in c.records && c.records[index].announced {
      UpdateKeepsInv(c, index, c.records[index].(sequence := c.records[index].sequence + 1));
    }
  }

  lemma UnregisterKeepsInv(c: Client, index: nat, now: real, stateTaken: bool, notified: bool)
    requires Inv(c)
    ensures Inv(Unregister(c, index, now, stateTaken, notified).client)
  {
    if index in c.records {
      var c1 := SendState(c, index, NeutralSample(now), stateTaken).client;
      SendStateKeepsInv(c, index, NeutralSample(now), stateTaken);
      var after := c1.records - {index};
      assert after.Keys == c1.records.Keys - {index};
      assert |after.Keys| <= |c1.records.Keys|;
    }
  }

  /** recordsById finds exactly the records recordsByIndex holds. */
  ghost predicate Linked(byIndex: map<nat, Record>, byId: map<ControllerId, nat>) {
    && (forall i | i in byIndex :: byIndex[i].id in byId && byId[byIndex[i].id] == i)
    && (forall id | id in byId :: byId[id] in byIndex && byIndex[byId[id]].id == id)
  }

  lemma UpdateKeepsLinked(byIndex: map<nat, Record>, byId: map<ControllerId, nat>, index: nat, r: Record)
    requires Linked(byIndex, byId) && index in byIndex && r.id == byIndex[index].id
    ensures Linked(byIndex[index := r], byId)
  {}

  lemma AddKeepsLinked(byIndex: map<nat, Record>, byId: map<ControllerId, nat>, index: nat, r: Record)
    requires Linked(byIndex, byId) && index !in byIndex && r.id !in byId
    ensures Linked(byIndex[index := r], byId[r.id := index])
  {}

  lemma RemoveKeepsLinked(byIndex: map<nat, Record>, byId: map<ControllerId, nat>, index: nat)
    requires Linked(byIndex, byId) && index in byIndex
    ensures Linked(byIndex - {index}, byId - {byIndex[index].id})
  {}

  /** The manager object; recordsById finds the record that recordsByIndex holds.
      `control` and `states` are what the two channels have taken so far. */
  class GamepadInputManager {
    var recordsByIndex: map<nat, Record>
    var recordsById: map<ControllerId, nat>
    var nextControllerId: ControllerId
    var registrations: nat
    var control: seq<ControlMessage>
    var states: seq<Datagram>

    ghost function Abs(): Client
      reads this
    {
      Client(recordsByIndex, nextControllerId, registrations)
    }

    ghost predicate Valid()
      reads this
    {
      Linked(recordsByIndex, recordsById) && forall id | id in recordsById :: id < nextControllerId
    }

    /** The manager has moved, and sent, as the operation says. */
    twostate predicate Did(s: Sent)
      reads this
    {
      && Abs() == s.client
      && control == old(control) + s.control
      && states == old(states) + s.states
    }

    constructor ()
      ensures Valid() && Abs() == NO_GAMEPADS && control == [] && states == []
    {
      recordsByIndex, recordsById, nextControllerId := map[], map[], 1;
      registrations, control, states := 0, [], [];
    }

    method AnnounceRecord(index: nat, taken: bool)
      requires Valid()
      modifies this
      ensures Valid() && Did(Announce(old(Abs()), index, taken))
    {
      if index !in recordsByIndex || recordsByIndex[index].announced || !taken {
        return;
      }
      var r := recordsByIndex[index];
      control := control + [HelloOf(r)];
      UpdateKeepsLinked(recordsByIndex, recordsById, index, r.(announced := true));
      recordsByIndex := recordsByIndex[index := r.(announced := true)];
    }

    method RegisterGamepad(g: Gamepad, taken: bool)
      requires Valid()
      modifies this
      ensures Valid() && Did(Register(old(Abs()), g, taken))
    {
      if g.index in recordsByIndex || |recordsByIndex| >= MAXIMUM_GAMEPADS {
        return;
      }
      var record := Record(g, nextControllerId, registrations, false, 0);
      AddKeepsLinked(recordsByIndex, recordsById, g.index, record);
      nextControllerId, registrations := nextControllerId + 1, registrations + 1;
      recordsByIndex := recordsByIndex[g.index := record];
      recordsById := recordsById[record.id := g.index];
      AnnounceRecord(g.index, taken);
    }

    method SendRecordState(index: nat, sample: Sample, taken: bool)
      requires Valid()
      modifies this
      ensures Valid() && Did(SendState(old(Abs()), index, sample, taken))
      ensures recordsById == old(recordsById)
    {
      if index !in recordsByIndex || !recordsByIndex[index].announced || !taken {
        return;
      }
      var r := recordsByIndex[index];
      states := states + [StateOf(r, sample)];
      UpdateKeepsLinked(recordsByIndex, recordsById, index, r.(sequence := r.sequence + 1));
      recordsByIndex := recordsByIndex[index := r.(sequence := r.sequence + 1)];
    }

    method UnregisterGamepad(index: nat, now: real, stateTaken: bool, notified: bool)
      requires Valid()
      modifies this
      ensures Valid() && Did(Unregister(old(Abs()), index, now, stateTaken, notified))
      ensures recordsByIndex.Keys == old(recordsByIndex).Keys - {index}
      ensures nextControllerId == old(nextControllerId) && registrations == old(registrations)
      ensures old(states) <= states && old(control) <= control
    {
      if index !in recordsByIndex {
        return;
      }
      hide Linked;
      var id, announced := recordsByIndex[index].id, recordsByIndex[index].announced;
      if announced {
        SendRecordState(index, NeutralSample(now), stateTaken);
        if notified {
          control := control + [Goodbye(id)];
        }
      }
      RemoveKeepsLinked(recordsByIndex, recordsById, index);
      recordsByIndex := recordsByIndex - {index};
      recordsById := recordsById - {id};
    }

    /** Unregisters every record; `order` is the map's iteration order. */
    method Suspend(order: seq<nat>, now: real, stateTaken: nat -> bool, notified: nat -> bool)
      requires Valid() && forall index :: index in recordsByIndex ==> index in order
      modifies this
      ensures Valid() && Did(UnregisterEach(old(Abs()), order, now, stateTaken, notified))
      ensures recordsByIndex == map[] && recordsById == map[]
      ensures nextControllerId == old(nextControllerId) && registrations == old(registrations)
    {
      hide Unregister, Linked;
      ghost var all := UnregisterEach(Abs(), order, now, stateTaken, notified);
      for k := 0 to |order|
        invariant Valid() && forall index :: index in recordsByIndex ==> index in order[k..]
        invariant nextControllerId == old(nextControllerId) && registrations == old(registrations)
        invariant var rest := UnregisterEach(Abs(), order[k..], now, stateTaken, notified);
                  && all.client == rest.client
                  && old(control) + all.control == control + rest.control
                  && old(states) + all.states == states + rest.states
      {
        assert order[k..] == [order[k]] + order[k + 1..];
        assert order[k..][1..] == order[k + 1..];
        UnregisterGamepad(order[k], now, stateTaken(order[k]), notified(order[k]));
      }
      NoRecordsNoIds();
    }

    lemma NoRecordsNoIds()
      requires Valid() && recordsByIndex == map[]
      ensures recordsById == map[]
    {
      if id :| id in recordsById {
        assert false;
      }
    }

    /** A new peer connection: old records say farewell without notice, and ids start over. */
    method BeginSession(order: seq<nat>, now: real, stateTaken: nat -> bool)
      requires Valid() && forall index :: index in recordsByIndex ==> index in order
      modifies this
      ensures Valid() && Abs() == Reset(old(Abs()))
      ensures control == old(control)
      ensures states == old(states) + UnregisterEach(old(Abs()), order, now, stateTaken, _ => false).states
    {
      NoNotices(Abs(), order, now, stateTaken);
      Suspend(order, now, stateTaken, _ => false);
      nextControllerId := 1;
    }
  }
}
