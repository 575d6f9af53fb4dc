/** Demultiplexing of inbound messages by protocol id: the envelope parse done
    by `SFNetworkManager.update` and the id switch of `handleProtocol`. */
module Protocol {
  import opened Wrappers
  import Decimal

  /** A C# `int`, the type of the envelope's `pid` field. */
  type Int32 = x: int | -0x8000_0000 <= x < 0x8000_0000

  /** The JSON library entry points `SFNetworkManager` relies on, left abstract:
      `serialize` is `JsonUtility.ToJson` on a request, `parseEnvelope` is
      `JsonUtility.FromJson<SFBaseResponseMessage>` reduced to its `pid`
      (None when it throws or yields null), `decodeLogin` is
      `JsonUtility.FromJson<SFResponseMsgUnitLogin>` (None likewise). */
  datatype Json<!Req, Login> = Json(
    serialize: Req -> string,
    parseEnvelope: string -> Option<Int32>,
    decodeLogin: string -> Option<Login>)

  /** Protocol id that is accepted and deliberately ignored. */
  const ReservedPid: Int32 := 0
  /** Protocol id of the login response, the only one that is published. */
  const LoginPid: Int32 := 1

  /** A published event: a dispatcher topic and the decoded response. */
  datatype Event<Login> = Event(topic: string, payload: Login)

  /** What became of one inbound item; the non-published cases are the ones
      `SFNetworkManager` merely logs (or, for the reserved id, silently drops). */
  datatype Outcome<Login> =
    | Published(event: Event<Login>)
    | Ignored
    | Unrecognized(pid: Int32)
    | DecodeFailed(pid: Int32)
    | Malformed

  /** Dispatcher topic for a protocol id: "socket_" followed by its decimal form. */
  function Topic(pid: Int32): (r: string)
    ensures |r| > 7 && r[..7] == "socket_"
    ensures pid < 0 <==> r[7] == '-'
    ensures r[7] == '-' ==> 8 < |r| && r[8] != '0'
    ensures r[7] != '-' && 8 < |r| ==> r[7] != '0'
    ensures Decimal.IsIntText(r[7..]) && Decimal.StringToInt(r[7..]) == pid
  {
    var r := "socket_" + Decimal.IntToString(pid);
    assert r[7..] == Decimal.IntToString(pid);
    r
  }

  lemma LoginTopic()
    ensures Topic(LoginPid) == "socket_1"
  {
  }

  /** Different protocol ids never share a topic. */
  lemma TopicInjective(a: Int32, b: Int32)
    requires Topic(a) == Topic(b)
    ensures a == b
  {
  }

  /** `handleProtocol`: at most one event, and only for a login response
      that decodes; the topic is derived from the id. */
  function HandleProtocol<Req, Login>(json: Json<Req, Login>, pid: Int32, data: string): (r: Outcome<Login>)
    ensures r.Published? <==> pid == LoginPid && json.decodeLogin(data).Some?
    ensures r.Published? ==> r.event == Event(Topic(pid), json.decodeLogin(data).value)
    ensures r.Published? ==> r.event.topic == "socket_1"
    ensures r.Ignored? <==> pid == ReservedPid
    ensures r.Unrecognized? <==> pid != ReservedPid && pid != LoginPid
    ensures r.DecodeFailed? <==> pid == LoginPid && json.decodeLogin(data).None?
    ensures (r.Unrecognized? || r.DecodeFailed?) ==> r.pid == pid
    ensures !r.Malformed?
  {
    if pid == ReservedPid then
      Ignored
    else if pid == LoginPid then
      match json.decodeLogin(data)
      case Some(login) => LoginTopic(); Published(Event(Topic(pid), login))
      case None => DecodeFailed(pid)
    else
      Unrecognized(pid)
  }

  /** One iteration of the receive loop: parse the envelope, then dispatch. */
  function Process<Req, Login>(json: Json<Req, Login>, data: string): (r: Outcome<Login>)
    ensures r.Malformed? <==> json.parseEnvelope(data).None?
    ensures json.parseEnvelope(data).Some? ==> r == HandleProtocol(json, json.parseEnvelope(data).value, data)
  {
    match json.parseEnvelope(data)
    case None => Malformed
    case Some(pid) => HandleProtocol(json, pid, data)
  }

  /** Reference meaning of draining a receive queue: each item is processed
      on its own, whatever happened to the items before it. */
  function Outcomes<Req, Login>(json: Json<Req, Login>, items: seq<string>): (r: seq<Outcome<Login>>)
    ensures |r| == |items|
    ensures forall i :: 0 <= i < |items| ==> r[i] == Process(json, items[i])
  {
    seq(|items|, i requires 0 <= i < |items| => Process(json, items[i]))
  }

  /** The events published, in order, for a sequence of outcomes. */
  function Events<Login>(outs: seq<Outcome<Login>>): (r: seq<Event<Login>>)
    ensures |r| <= |outs|
    ensures forall i :: 0 <= i < |r| ==> Published(r[i]) in outs
    ensures forall i :: 0 <= i < |outs| && outs[i].Published? ==> outs[i].event in r
  {
    if |outs| == 0 then []
    else (if outs[0].Published? then [outs[0].event] else []) + Events(outs[1..])
  }

  /** A single outcome contributes its own event if published, else nothing;
      with `EventsAppend` this fixes both the count and the order of events. */
  lemma EventsSingleton<Login>(o: Outcome<Login>)
    ensures Events([o]) == (if o.Published? then [o.event] else [])
  {
  }

  /** Publishing commutes with splitting the outcome log. */
  lemma {:induction false} EventsAppend<Login>(a: seq<Outcome<Login>>, b: seq<Outcome<Login>>)
    ensures Events(a + b) == Events(a) + Events(b)
    decreases |a|
  {
    if |a| == 0 {
      assert a + b == b;
    } else {
      assert (a + b)[1..] == a[1..] + b;
      EventsAppend(a[1..], b);
    }
  }

  lemma OutcomesAppend<Req, Login>(json: Json<Req, Login>, a: seq<string>, b: seq<string>)
    ensures Outcomes(json, a + b) == Outcomes(json, a) + Outcomes(json, b)
  {
  }

  /** Processing one more item extends the outcome log by that item's outcome. */
  lemma OutcomesSnoc<Req, Login>(json: Json<Req, Login>, items: seq<string>, item: string)
    ensures Outcomes(json, items + [item]) == Outcomes(json, items) + [Process(json, item)]
  {
    OutcomesAppend(json, items, [item]);
  }

  /** Events of a whole drain are the events of its parts, in order. */
  lemma DrainAppend<Req, Login>(json: Json<Req, Login>, a: seq<string>, b: seq<string>)
    ensures Events(Outcomes(json, a + b)) == Events(Outcomes(json, a)) + Events(Outcomes(json, b))
  {
    OutcomesAppend(json, a, b);
    EventsAppend(Outcomes(json, a), Outcomes(json, b));
  }

  /** An item that publishes nothing (malformed envelope, unknown or reserved
      id, failed login decode) leaves the processing of the items after it
      exactly as if it had not been queued. */
  lemma BadItemDoesNotBlock<Req, Login>(json: Json<Req, Login>, bad: string, rest: seq<string>)
    requires !Process(json, bad).Published?
    ensures Outcomes(json, [bad] + rest) == [Process(json, bad)] + Outcomes(json, rest)
    ensures Events(Outcomes(json, [bad] + rest)) == Events(Outcomes(json, rest))
  {
    DrainAppend(json, [bad], rest);
  }

  /** Table-driven view of `handleProtocol`: one entry per known id. */
  datatype Entry<Login> = Silent | Decoder(decode: string -> Option<Login>)

  function Registry<Req, Login>(json: Json<Req, Login>): (reg: map<Int32, Entry<Login>>)
    ensures reg.Keys == {ReservedPid, LoginPid}
  {
    map[ReservedPid := Silent, LoginPid := Decoder(json.decodeLogin)]
  }

  /** Generic dispatch through a registry: unknown ids are reported, known
      ids are decoded and published on their derived topic. */
  function Dispatch<Login>(reg: map<Int32, Entry<Login>>, pid: Int32, data: string): (r: Outcome<Login>)
    ensures pid !in reg <==> r.Unrecognized?
    ensures r.Ignored? <==> pid in reg && reg[pid].Silent?
    ensures r.Published? <==> pid in reg && reg[pid].Decoder? && reg[pid].decode(data).Some?
    ensures r.DecodeFailed? <==> pid in reg && reg[pid].Decoder? && reg[pid].decode(data).None?
    ensures r.Published? ==> r.event == Event(Topic(pid), reg[pid].decode(data).value)
    ensures (r.Unrecognized? || r.DecodeFailed?) ==> r.pid == pid
    ensures !r.Malformed?
  {
    if pid !in reg then Unrecognized(pid)
    else match reg[pid]
      case Silent => Ignored
      case Decoder(decode) =>
        match decode(data)
        case Some(v) => Published(Event(Topic(pid), v))
        case None => DecodeFailed(pid)
  }

  /** The hard-coded id switch agrees with registry dispatch on every input. */
  lemma HandleProtocolIsRegistryDispatch<Req, Login>(json: Json<Req, Login>, pid: Int32, data: string)
    ensures HandleProtocol(json, pid, data) == Dispatch(Registry(json), pid, data)
  {
  }
}
