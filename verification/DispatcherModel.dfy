/** The EAP dispatcher on values: which handler a request goes to, and what becomes of the filter for
    old requests, the counter of invalid ones and the current authentication. */
module DispatcherModel {
  import opened Options
  import opened Bytes
  import opened EapPacket
  import opened TlsHandler
  import opened TlsPacket

  const NINVALID_MAX := 5

  /** A registered handler. Only the TLS handler has a state and can reject a request; the others
      (identity, notification, MD5) answer whatever is addressed to them. */
  datatype Service = Tls | Plain(eapType: byte, auth: bool, naks: bool)

  function EapType(s: Service): byte {
    if s.Tls? then TLS_TYPE else s.eapType
  }

  function IsAuth(s: Service): bool {
    s.Tls? || s.auth
  }

  function Naks(s: Service): bool {
    s.Tls? || s.naks
  }

  /** `services` is the list of handlers, the one added last first. lastRequest is -1 when no request
      counts as old. */
  datatype Dispatcher = Dispatcher(services: seq<Service>, auth: Option<Service>, authType: byte, lastRequest: int,
        ninvalid: nat, tls: Handler)

  /** A received packet as the dispatcher reads it; `tls` is what the TLS handler would read. */
  datatype Message = Message(code: byte, id: byte, eapType: byte, tls: Input)

  /** What the world outside answers: TLS to a complete message, a plain handler to its request. */
  datatype Answers = Answers(verdict: Verdict, output: seq<byte>, data: seq<byte>)

  datatype Body = FromTls(reply: Reply) | Data(data: seq<byte>)
  datatype Outcome = Answer(eapType: byte, id: byte, body: Body) | NoAnswer(code: Code)

  function CodeFor(o: Outcome): Code {
    match o
    case Answer(_, _, _) => RetCont
    case NoAnswer(code) => code
  }

  function NewDispatcher(services: seq<Service>): Dispatcher {
    Dispatcher(services, None, 0, 0, 0, NEW_HANDLER)
  }

  function FirstWanting(services: seq<Service>, t: byte): Option<Service> {
    if services == [] then None
    else if EapType(services[0]) == t then Some(services[0])
    else FirstWanting(services[1..], t)
  }

  lemma FirstWantingType(services: seq<Service>, t: byte)
    ensures FirstWanting(services, t).Some? ==> EapType(FirstWanting(services, t).value) == t
  {
  }

  function FirstNaking(services: seq<Service>): Option<Service> {
    if services == [] then None
    else if Naks(services[0]) then Some(services[0])
    else FirstNaking(services[1..])
  }

  /** abort(): only a current authentication is told, but every request is new again. */
  function Aborted(d: Dispatcher): Dispatcher {
    match d.auth
    case None => d.(lastRequest := -1)
    case Some(s) => d.(tls := if s.Tls? then NEW_HANDLER else d.tls, auth := None, authType := 0, lastRequest := -1)
  }

  /** Another method of authentication than the current one is asked for. */
  predicate Switches(d: Dispatcher, s: Service) {
    IsAuth(s) && d.auth.Some? && EapType(s) != d.authType
  }

  function Selected(d: Dispatcher, s: Service): Dispatcher {
    if !IsAuth(s) then d
    else (if Switches(d, s) then Aborted(d) else d).(auth := Some(s), authType := EapType(s))
  }

  function Serve(d: Dispatcher, s: Service, m: Message, a: Answers, frag: nat): (Dispatcher, Outcome) {
    if s.Tls? then
      var (h, r, _) := Process(d.tls, m.tls, a.verdict, a.output, frag);
      (d.(tls := h), if r.Cont? then Answer(m.eapType, m.id, FromTls(r.reply)) else NoAnswer(CodeOf(r)))
    else (d, Answer(m.eapType, m.id, Data(a.data)))
  }

  function Remembered(d: Dispatcher, id: byte): Dispatcher {
    d.(ninvalid := 0, lastRequest := id as int)
  }

  /** A rejection is counted; the sixth in a row turns into an abort. */
  function Counted(d: Dispatcher): (Dispatcher, Outcome) {
    if d.ninvalid + 1 > NINVALID_MAX then (d.(ninvalid := 0), NoAnswer(RetAbort))
    else (d.(ninvalid := d.ninvalid + 1), NoAnswer(RetInv))
  }

  function Settled(d: Dispatcher, id: byte, o: Outcome): (Dispatcher, Outcome) {
    match o
    case Answer(_, _, _) => (Remembered(d, id), o)
    case NoAnswer(code) => if code == RetInv then Counted(d) else (d, o)
  }

  function Request(d: Dispatcher, m: Message, a: Answers, frag: nat): (Dispatcher, Outcome) {
    if m.id as int == d.lastRequest then (d, NoAnswer(RetOld))
    else
      match FirstWanting(d.services, m.eapType)
      case None =>
        (match FirstNaking(d.services)
         case None => (d, NoAnswer(RetInv))
         case Some(s) => (Remembered(d, m.id), Answer(NAK, m.id, Data([EapType(s)]))))
      case Some(s) =>
        var (e, o) := Serve(Selected(d, s), s, m, a, frag);
        Settled(e, m.id, o)
  }

  /** eap::process */
  function Dispatch(d: Dispatcher, m: Message, a: Answers, frag: nat): (Dispatcher, Outcome) {
    if m.code == REQUEST then Request(d, m, a, frag)
    else if m.code == SUCCESS then (d.(auth := None, authType := 0, lastRequest := -1), NoAnswer(RetOk))
    else if m.code == FAILURE then (d, NoAnswer(RetFail))
    else (d, NoAnswer(RetInv))
  }

  // ---- octets ----

  function DataOctets(p: seq<byte>, data: seq<byte>): (q: seq<byte>)
    requires HEADER_LEN + |data| <= |p|
    ensures |q| == |p|
  {
    p[..2] + BigEndian16(|data|) + [p[4]] + data + p[HEADER_LEN + |data|..]
  }

  predicate Fitting(p: seq<byte>, o: Outcome) {
    |p| > HEADER_LEN &&
    match o
    case NoAnswer(_) => true
    case Answer(_, _, FromTls(reply)) => RoomFor(p, reply)
    case Answer(_, _, Data(data)) => HEADER_LEN + |data| <= |p|
  }

  /** The output packet after the dispatcher has run; nothing is written without an answer. */
  function Output(host: Host, p: seq<byte>, o: Outcome): (q: seq<byte>)
    requires Fitting(p, o)
    ensures |q| == |p|
  {
    match o
    case NoAnswer(_) => p
    case Answer(t, id, FromTls(reply)) => Finish(host, Write(host, p, reply), t, id)
    case Answer(t, id, Data(data)) => Finish(host, DataOctets(p, data), t, id)
  }

  /** Enough of a packet is there for the dispatcher and the handler it goes to. */
  predicate Parsable(p: seq<byte>) {
    |p| > HEADER_LEN && (p[0] == REQUEST && p[4] == TLS_TYPE ==> Readable(p))
  }

  function Parse(p: seq<byte>): Message
    requires Parsable(p)
  {
    Message(p[0], p[1], p[4], if p[0] == REQUEST && p[4] == TLS_TYPE then Read(p) else Input(0, 0, []))
  }

  // ---- the counter of invalid requests, over runs ----

  datatype Event = Received(m: Message, a: Answers) | AbortCalled

  function Step(d: Dispatcher, e: Event, frag: nat): (Dispatcher, Outcome) {
    match e
    case Received(m, a) => Dispatch(d, m, a, frag)
    case AbortCalled => (Aborted(d), NoAnswer(RetInv))
  }

  function Run(d: Dispatcher, events: seq<Event>, frag: nat): Dispatcher {
    if events == [] then d
    else Step(Run(d, events[..|events| - 1], frag), events[|events| - 1], frag).0
  }

  /** A handler is run on the event's request and cannot make sense of it. */
  predicate HandlerRejects(d: Dispatcher, e: Event, frag: nat) {
    && e.Received? && e.m.code == REQUEST && e.m.id as int != d.lastRequest
    && FirstWanting(d.services, e.m.eapType) == Some(Tls)
    && Process(Selected(d, Tls).tls, e.m.tls, e.a.verdict, e.a.output, frag).1 == Inv
  }

  /** How many requests handlers have rejected since one was answered or the counter last aborted. */
  function RejectedSince(d: Dispatcher, events: seq<Event>, frag: nat): nat {
    if events == [] then 0
    else
      var before, e := Run(d, events[..|events| - 1], frag), events[|events| - 1];
      var n := RejectedSince(d, events[..|events| - 1], frag);
      if Step(before, e, frag).1.Answer? then 0
      else if !HandlerRejects(before, e, frag) then n
      else if CodeFor(Step(before, e, frag).1) == RetAbort then 0
      else n + 1
  }

  lemma StepCounts(d: Dispatcher, e: Event, frag: nat)
    ensures var (after, o) := Step(d, e, frag);
      && after.ninvalid == (if o.Answer? then 0
                            else if !HandlerRejects(d, e, frag) then d.ninvalid
                            else if d.ninvalid >= NINVALID_MAX then 0 else d.ninvalid + 1)
      && (HandlerRejects(d, e, frag) ==> o == NoAnswer(if d.ninvalid >= NINVALID_MAX then RetAbort else RetInv))
  {
  }

  /** In every run the rejection that follows five others since the last answer or counter abort is
      turned into an abort, and no other is. */
  lemma {:induction false} SixthAborts(services: seq<Service>, events: seq<Event>, e: Event, frag: nat)
    ensures var d := NewDispatcher(services);
      var n := RejectedSince(d, events, frag);
      && n == Run(d, events, frag).ninvalid <= 5
      && (HandlerRejects(Run(d, events, frag), e, frag) ==>
            Step(Run(d, events, frag), e, frag).1 == NoAnswer(if n == 5 then RetAbort else RetInv))
  {
    var d := NewDispatcher(services);
    if events != [] {
      var first, last := events[..|events| - 1], events[|events| - 1];
      SixthAborts(services, first, last, frag);
      StepCounts(Run(d, first, frag), last, frag);
    }
    StepCounts(Run(d, events, frag), e, frag);
  }
}
