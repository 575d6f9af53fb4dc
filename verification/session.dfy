/** `SFNetworkManager` as a state machine: a transport handle plus the send
    and receive queues, with every operation a pure transition. */
module Session {
  import opened Wrappers
  import opened Protocol

  /** The TCP client, reduced to what the manager observes: an identity and
      the readiness flag the transport maintains on its own. */
  datatype Transport = Transport(id: nat, ready: bool)

  /** Either nothing has been allocated (client and both queues null) or the
      manager owns a client and two FIFO queues (front = index 0). */
  datatype Manager =
    | Uninitialised
    | Active(client: Transport, sendQueue: seq<string>, recvQueue: seq<string>)

  /** `init` given the freshly constructed client: new, empty queues. Whatever
      the manager held before is overwritten. */
  function Init(m: Manager, client: Transport): (r: Manager)
    ensures r.Active? && r.client == client
    ensures r.sendQueue == [] && r.recvQueue == []
  {
    Active(client, [], [])
  }

  /** A second `init` forgets the previous client without asking it to stop,
      and discards every item still queued. */
  lemma ReinitAbandonsPriorClient(m: Manager, client: Transport)
    requires m.Active? && m.client.id != client.id
    ensures Uninit(Init(m, client)).released == Some(client)
    ensures Uninit(Init(m, client)).released != Some(m.client)
    ensures Init(m, client).sendQueue == [] && Init(m, client).recvQueue == []
  {
  }

  /** The result of `uninit`: the new state and the client (if any) whose own
      `uninit` was called. */
  datatype Teardown = Teardown(manager: Manager, released: Option<Transport>)

  function Uninit(m: Manager): (r: Teardown)
    ensures r.manager == Uninitialised
    ensures r.released.Some? <==> m.Active?
    ensures m.Active? ==> r.released.value == m.client
  {
    match m
    case Uninitialised => Teardown(Uninitialised, None)
    case Active(client, _, _) => Teardown(Uninitialised, Some(client))
  }

  /** A second `uninit` releases nothing and leaves the same state. */
  lemma UninitIdempotent(m: Manager)
    ensures Uninit(Uninit(m).manager) == Teardown(Uninit(m).manager, None)
  {
  }

  function IsReady(m: Manager): (r: bool)
    ensures r ==> m.Active?
    ensures m.Active? ==> (r <==> m.client.ready)
  {
    m.Active? && m.client.ready
  }

  /** Not ready before `init`, and not ready after any `uninit`. */
  lemma NotReadyWithoutClient(m: Manager)
    ensures !IsReady(Uninitialised)
    ensures !IsReady(Uninit(m).manager)
  {
  }

  /** `sendMessage`: serialise and enqueue at the back of the send queue.
      `SFNetworkManager` dereferences the queue, so the manager must be active. */
  function SendMessage<Req, Login>(json: Json<Req, Login>, m: Manager, req: Req): (r: Manager)
    requires m.Active?
    ensures r.Active? && r.client == m.client && r.recvQueue == m.recvQueue
    ensures |r.sendQueue| == |m.sendQueue| + 1
    ensures r.sendQueue[..|m.sendQueue|] == m.sendQueue
    ensures r.sendQueue[|m.sendQueue|] == json.serialize(req)
  {
    m.(sendQueue := m.sendQueue + [json.serialize(req)])
  }

  /** `onRecvMsg`: enqueue the raw message at the back of the receive queue. */
  function OnRecv(m: Manager, msg: string): (r: Manager)
    requires m.Active?
    ensures r.Active? && r.client == m.client && r.sendQueue == m.sendQueue
    ensures |r.recvQueue| == |m.recvQueue| + 1
    ensures r.recvQueue[..|m.recvQueue|] == m.recvQueue
    ensures r.recvQueue[|m.recvQueue|] == msg
  {
    m.(recvQueue := m.recvQueue + [msg])
  }

  /** Everything one `update` does: the new state, the strings handed to the
      client's `sendData` in call order, and what became of each received
      item in processing order. */
  datatype Tick<Login> = Tick(manager: Manager, sent: seq<string>, outcomes: seq<Outcome<Login>>) {
    function PublishedEvents(): seq<Event<Login>> {
      Events(outcomes)
    }
  }

  /** Reference meaning of `update`: the whole send queue goes out in order,
      the whole receive queue is processed in order, and both end empty. */
  function Update<Req, Login>(json: Json<Req, Login>, m: Manager): (r: Tick<Login>)
    requires m.Active?
    ensures r.manager.Active? && r.manager.client == m.client
    ensures r.manager.sendQueue == [] && r.manager.recvQueue == []
    ensures |r.outcomes| == |m.recvQueue|
    ensures |r.PublishedEvents()| <= |m.recvQueue|
  {
    Tick(Active(m.client, [], []), m.sendQueue, Outcomes(json, m.recvQueue))
  }

  /** `update` as the C# code writes it: two dequeue loops, the second parsing
      each item's envelope and passing it to `handleProtocol`. */
  method UpdateLoop<Req, Login>(json: Json<Req, Login>, m: Manager) returns (t: Tick<Login>, events: seq<Event<Login>>)
    requires m.Active?
    ensures t.manager == Active(m.client, [], [])
    ensures t.sent == m.sendQueue
    ensures |t.outcomes| == |m.recvQueue|
    ensures forall i :: 0 <= i < |m.recvQueue| ==> t.outcomes[i] == Process(json, m.recvQueue[i])
    ensures events == Events(t.outcomes)
    ensures t == Update(json, m)
  {
    var sendQueue := m.sendQueue;
    var sent: seq<string> := [];
    while |sendQueue| > 0
      invariant sent + sendQueue == m.sendQueue
    {
      var data := sendQueue[0];
      sendQueue := sendQueue[1..];
      sent := sent + [data];
    }
    var recvQueue := m.recvQueue;
    var outcomes: seq<Outcome<Login>> := [];
    events := [];
    while |recvQueue| > 0
      invariant |outcomes| + |recvQueue| == |m.recvQueue|
      invariant recvQueue == m.recvQueue[|outcomes|..]
      invariant outcomes == Outcomes(json, m.recvQueue[..|outcomes|])
      invariant events == Events(outcomes)
    {
      var data := recvQueue[0];
      recvQueue := recvQueue[1..];
      var outcome: Outcome<Login>;
      match json.parseEnvelope(data) {
        case None =>
          outcome := Malformed;
        case Some(pid) =>
          outcome := HandleProtocol(json, pid, data);
      }
      ghost var done := m.recvQueue[..|outcomes|];
      assert m.recvQueue[..|outcomes| + 1] == done + [data];
      OutcomesSnoc(json, done, data);
      EventsAppend(outcomes, [outcome]);
      outcomes := outcomes + [outcome];
      if outcome.Published? {
        events := events + [outcome.event];
      }
    }
    assert m.recvQueue[..|outcomes|] == m.recvQueue;
    t := Tick(Active(m.client, [], []), sent, outcomes);
  }

  /** Calls made on the manager between two ticks. */
  datatype Input<Req> = Send(req: Req) | Recv(msg: string)

  /** The string one input puts on the send queue, if it is a send. */
  function SendOf<Req, Login>(json: Json<Req, Login>, input: Input<Req>): seq<string> {
    if input.Send? then [json.serialize(input.req)] else []
  }

  /** The message one input puts on the receive queue, if it is a receive. */
  function RecvOf<Req>(input: Input<Req>): seq<string> {
    if input.Recv? then [input.msg] else []
  }

  /** Serialised requests among the inputs, in call order. */
  function SendsOf<Req, Login>(json: Json<Req, Login>, ins: seq<Input<Req>>): (r: seq<string>)
    ensures |r| <= |ins|
  {
    if |ins| == 0 then [] else SendOf(json, ins[0]) + SendsOf(json, ins[1..])
  }

  /** Raw messages among the inputs, in arrival order. */
  function RecvsOf<Req>(ins: seq<Input<Req>>): (r: seq<string>)
    ensures |r| <= |ins|
  {
    if |ins| == 0 then [] else RecvOf(ins[0]) + RecvsOf(ins[1..])
  }

  /** Every call lands in exactly one queue: each `sendMessage` enqueues one
      string and each `onRecvMsg` one message. */
  lemma {:induction false} EachCallEnqueuesOne<Req, Login>(json: Json<Req, Login>, ins: seq<Input<Req>>)
    ensures |SendsOf(json, ins)| + |RecvsOf(ins)| == |ins|
    decreases |ins|
  {
    if |ins| > 0 {
      EachCallEnqueuesOne(json, ins[1..]);
    }
  }

  /** A run of `sendMessage` calls queues exactly the serialised requests, in
      call order, and nothing on the receive side. */
  lemma {:induction false} SendsInCallOrder<Req, Login>(json: Json<Req, Login>, reqs: seq<Req>)
    ensures SendsOf(json, seq(|reqs|, i requires 0 <= i < |reqs| => Send(reqs[i])))
         == seq(|reqs|, i requires 0 <= i < |reqs| => json.serialize(reqs[i]))
    ensures RecvsOf(seq(|reqs|, i requires 0 <= i < |reqs| => Send(reqs[i]))) == []
    decreases |reqs|
  {
    var ins := seq(|reqs|, i requires 0 <= i < |reqs| => Send(reqs[i]));
    if |reqs| > 0 {
      var tail := seq(|reqs| - 1, i requires 0 <= i < |reqs| - 1 => Send(reqs[1..][i]));
      assert ins[1..] == tail;
      SendsInCallOrder(json, reqs[1..]);
    }
  }

  /** One call on an active manager. */
  function Step<Req, Login>(json: Json<Req, Login>, m: Manager, input: Input<Req>): (r: Manager)
    requires m.Active?
    ensures r.Active? && r.client == m.client
    ensures r.sendQueue == m.sendQueue + SendOf(json, input)
    ensures r.recvQueue == m.recvQueue + RecvOf(input)
  {
    match input
    case Send(req) => SendMessage(json, m, req)
    case Recv(msg) => OnRecv(m, msg)
  }

  lemma AppendAssoc<T>(q: seq<T>, a: seq<T>, b: seq<T>)
    ensures (q + a) + b == q + (a + b)
  {
  }

  /** Performs the inputs one after another on an active manager. */
  function Apply<Req, Login>(json: Json<Req, Login>, m: Manager, ins: seq<Input<Req>>): (r: Manager)
    requires m.Active?
    ensures r.Active? && r.client == m.client
    ensures r.sendQueue == m.sendQueue + SendsOf(json, ins)
    ensures r.recvQueue == m.recvQueue + RecvsOf(ins)
    decreases |ins|
  {
    if |ins| == 0 then m
    else
      var r := Apply(json, Step(json, m, ins[0]), ins[1..]);
      AppendAssoc(m.sendQueue, SendOf(json, ins[0]), SendsOf(json, ins[1..]));
      AppendAssoc(m.recvQueue, RecvOf(ins[0]), RecvsOf(ins[1..]));
      r
  }

  /** FIFO end to end: after any calls, the next `update` hands `sendData`
      the previously queued strings and then the new requests' serialisations
      in call order, and processes received messages in arrival order. */
  lemma UpdateAfterInputs<Req, Login>(json: Json<Req, Login>, m: Manager, ins: seq<Input<Req>>)
    requires m.Active?
    ensures Update(json, Apply(json, m, ins)).sent == m.sendQueue + SendsOf(json, ins)
    ensures Update(json, Apply(json, m, ins)).outcomes == Outcomes(json, m.recvQueue + RecvsOf(ins))
    ensures Update(json, Apply(json, m, ins)).manager == Active(m.client, [], [])
  {
  }

  /** No loss, no reordering across ticks: running `update`, then the
      inputs, then `update` again sends, processes and publishes exactly
      what a single `update` after the inputs would, in the same order. */
  lemma {:induction false} TickSplit<Req, Login>(json: Json<Req, Login>, m: Manager, ins: seq<Input<Req>>)
    requires m.Active?
    ensures
      var first := Update(json, m);
      var second := Update(json, Apply(json, first.manager, ins));
      var whole := Update(json, Apply(json, m, ins));
      && first.sent + second.sent == whole.sent
      && first.outcomes + second.outcomes == whole.outcomes
      && first.PublishedEvents() + second.PublishedEvents() == whole.PublishedEvents()
      && second.manager == whole.manager
  {
    var first := Update(json, m);
    var rs := RecvsOf(ins);
    OutcomesAppend(json, m.recvQueue, rs);
    assert [] + rs == rs;
    assert [] + SendsOf(json, ins) == SendsOf(json, ins);
    EventsAppend(Outcomes(json, m.recvQueue), Outcomes(json, rs));
  }

  /** A well-formed login response received on an idle
      manager yields exactly one event, on "socket_1", carrying the decoded
      response. */
  lemma LoginDelivered<Req, Login>(json: Json<Req, Login>, m: Manager, msg: string)
    requires m.Active? && m.recvQueue == []
    requires json.parseEnvelope(msg) == Some(LoginPid)
    requires json.decodeLogin(msg).Some?
    ensures Update(json, OnRecv(m, msg)).PublishedEvents() == [Event("socket_1", json.decodeLogin(msg).value)]
  {
  }

  /** Item i's contribution to the event log of an update is at most one
      event, and it sits between the events of the items before it and those
      of the items after it. */
  lemma {:induction false} AtMostOneEventPerItem<Req, Login>(json: Json<Req, Login>, m: Manager, i: nat)
    requires m.Active? && i < |m.recvQueue|
    ensures
      var outs := Update(json, m).outcomes;
      && Update(json, m).PublishedEvents() == Events(outs[..i]) + Events([outs[i]]) + Events(outs[i + 1..])
      && |Events([outs[i]])| <= 1
  {
    var outs := Update(json, m).outcomes;
    assert outs == outs[..i] + [outs[i]] + outs[i + 1..];
    EventsAppend(outs[..i] + [outs[i]], outs[i + 1..]);
    EventsAppend(outs[..i], [outs[i]]);
  }
}
