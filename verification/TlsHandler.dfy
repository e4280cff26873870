/** The EAP-TLS handler as a machine on values: what each packet does to its state.

    TypeTls.dfy carries these steps out on buffers and cursors. OpenSSL is an oracle: a step is given
    the verdict and the output that process_msg would produce. */
module TlsHandler {
  import opened Options
  import opened Bytes
  import opened EapPacket

  const LENGTH_INCLUDED: byte := 0x80
  const MORE_FRAGS: byte := 0x40
  const EAPTLS_START: byte := 0x20

  datatype Phase = Start | FragSend | FragRecv | Recv
  datatype Kind = TlsStart | TlsAck | TlsFrag | TlsData | TlsInvalid
  datatype Verdict = MoreData | Success | Failed

  /** An EAP-TLS packet as the handler reads it: flags, length field, payload. */
  datatype Input = Input(flags: byte, declared: nat, payload: seq<byte>)

  /** `got` and `announced` describe the receive buffer while fragments come in, `out` what is still to
      be sent while fragments go out. */
  datatype Handler = Handler(phase: Phase, got: seq<byte>, announced: nat, out: seq<byte>, failedOnce: bool)

  /** What is written into the outgoing packet: a frame, an acknowledgement, or nothing at all. */
  datatype Reply =
    | Frame(flags: byte, declared: nat, startLen: byte, chunk: seq<byte>)
    | Ack
    | Silence

  datatype Result = Cont(reply: Reply) | Inv | Abort

  function CodeOf(r: Result): Code {
    match r
    case Cont(_) => RetCont
    case Inv => RetInv
    case Abort => RetAbort
  }

  function HasLength(flags: byte): bool { flags >= 0x80 }

  /** The bit more_frags of a flag octet. */
  function MoreFragments(flags: byte): bool { flags / 0x40 % 2 == 1 }

  function Classify(flags: byte, len: nat): Kind {
    if flags == 0 then (if len == 0 then TlsAck else TlsData)
    else if flags == EAPTLS_START then (if len == 0 then TlsStart else TlsInvalid)
    else if flags == MORE_FRAGS || flags == MORE_FRAGS + LENGTH_INCLUDED then TlsFrag
    else if flags == LENGTH_INCLUDED then TlsData
    else TlsInvalid
  }

  /** frame_next: the next chunk, and what remains behind it. */
  function Chunk(out: seq<byte>, frag: nat): seq<byte> {
    if |out| <= frag then out else out[..frag]
  }

  function Rest(out: seq<byte>, frag: nat): seq<byte> {
    if |out| <= frag then [] else out[frag..]
  }

  function MoreFlag(rest: seq<byte>): byte {
    if rest == [] then 0 else MORE_FRAGS
  }

  /** The state after construction and after abort(). */
  const NEW_HANDLER := Handler(Start, [], 0, [], false)

  /** The complete message goes to TLS; its output, if any, starts a new flight. */
  function RunTls(h: Handler, verdict: Verdict, output: seq<byte>, frag: nat): (Handler, Result) {
    if verdict == Success then (Handler(Start, [], 0, [], h.failedOnce), Cont(Ack))
    else if verdict == Failed && h.failedOnce then (h, Abort)
    else
      var failed := h.failedOnce || verdict == Failed;
      if output == [] then (Handler(Recv, [], 0, [], failed), Cont(Silence))
      else
        var rest := Rest(output, frag);
        (Handler(if rest == [] then Recv else FragSend, [], 0, rest, failed),
         Cont(Frame(LENGTH_INCLUDED + MoreFlag(rest), |output|, 4, Chunk(output, frag))))
  }

  /** What the first half of process() comes to: an answer, or a message for TLS. */
  datatype Intake = Done(result: Result) | Complete(message: seq<byte>)

  function Receive(h: Handler, i: Input, frag: nat): (Handler, Intake) {
    var kind := Classify(i.flags, |i.payload|);
    if kind == TlsInvalid then (h, Done(Inv))
    else match h.phase
      case Start =>
        if kind != TlsStart then (h, Done(Inv)) else (h.(failedOnce := false), Complete([]))
      case FragSend =>
        if kind != TlsAck then (h, Done(Inv))
        else
          var rest := Rest(h.out, frag);
          (h.(phase := if rest == [] then Recv else FragSend, out := rest),
           Done(Cont(Frame(MoreFlag(rest), 0, 0, Chunk(h.out, frag)))))
      case FragRecv =>
        if (kind != TlsFrag && kind != TlsData) || h.announced < |h.got| + |i.payload| then (h, Done(Inv))
        else
          var g := h.(got := h.got + i.payload);
          (g, if kind == TlsFrag then Done(Cont(Ack)) else Complete(g.got))
      case Recv =>
        if kind == TlsFrag && HasLength(i.flags) then
          (h.(phase := FragRecv, got := i.payload, announced := i.declared), Done(Cont(Ack)))
        else if kind == TlsData then (h, Complete(i.payload))
        else (h, Done(Inv))
  }

  /** type_tls::process; the last component is the message handed to TLS, if one was. */
  function Process(h: Handler, i: Input, verdict: Verdict, output: seq<byte>, frag: nat)
    : (Handler, Result, Option<seq<byte>>)
  {
    var (g, intake) := Receive(h, i, frag);
    match intake
    case Done(result) => (g, result, None)
    case Complete(message) =>
      var (t, result) := RunTls(g, verdict, output, frag);
      (t, result, Some(message))
  }

  /** A flight in progress has octets left, and the receive buffer never holds more than was announced. */
  ghost predicate Ok(h: Handler) {
    && (h.phase == FragSend <==> h.out != [])
    && |h.got| <= h.announced
    && (h.phase != FragRecv ==> h.got == [] && h.announced == 0)
  }

  /** A first fragment is no longer than the length it declares. */
  predicate Conforming(h: Handler, i: Input) {
    h.phase == Recv && Classify(i.flags, |i.payload|) == TlsFrag && HasLength(i.flags) ==> |i.payload| <= i.declared
  }

  lemma ProcessKeepsOk(h: Handler, i: Input, verdict: Verdict, output: seq<byte>, frag: nat)
    requires Ok(h) && frag > 0 && Conforming(h, i)
    ensures Ok(Process(h, i, verdict, output, frag).0)
  {
  }

  /** A packet answered ret_inv changes nothing, in any state. */
  lemma InvalidChangesNothing(h: Handler, i: Input, verdict: Verdict, output: seq<byte>, frag: nat)
    ensures Process(h, i, verdict, output, frag).1 == Inv ==>
      Process(h, i, verdict, output, frag).0 == h && Process(h, i, verdict, output, frag).2 == None
  {
  }

  /** A start packet is accepted exactly in phase Start, whatever TLS then says. */
  lemma StartAccepted(h: Handler, i: Input, verdict: Verdict, output: seq<byte>, frag: nat)
    requires Classify(i.flags, |i.payload|) == TlsStart
    ensures Process(h, i, verdict, output, frag).1.Cont? <==> h.phase == Start
    ensures Process(NEW_HANDLER, i, verdict, output, frag).1.Cont?
  {
  }

  // ---- failures of TLS, over runs ----

  /** A packet, or a call of abort(). */
  datatype Event = Packet(i: Input, verdict: Verdict, output: seq<byte>) | AbortCalled

  function After(h: Handler, e: Event, frag: nat): Handler {
    match e
    case Packet(i, verdict, output) => Process(h, i, verdict, output, frag).0
    case AbortCalled => NEW_HANDLER
  }

  function Run(h: Handler, events: seq<Event>, frag: nat): Handler {
    if events == [] then h else After(Run(h, events[..|events| - 1], frag), events[|events| - 1], frag)
  }

  /** TLS is asked about the event's packet and reports that it has failed. */
  predicate Fails(h: Handler, e: Event, frag: nat) {
    e.Packet? && e.verdict == Failed && Process(h, e.i, e.verdict, e.output, frag).2.Some?
  }

  /** TLS has failed since the last start packet that was answered, or since the last abort. */
  predicate FailedSince(h: Handler, events: seq<Event>, frag: nat) {
    events != [] &&
    var before, e := Run(h, events[..|events| - 1], frag), events[|events| - 1];
    || Fails(before, e, frag)
    || (e.Packet? && !(before.phase == Start && Process(before, e.i, e.verdict, e.output, frag).1.Cont?) &&
        FailedSince(h, events[..|events| - 1], frag))
  }

  lemma EventKeepsFailure(h: Handler, e: Event, frag: nat)
    ensures After(h, e, frag).failedOnce <==>
      Fails(h, e, frag) || (e.Packet? && !(h.phase == Start && Process(h, e.i, e.verdict, e.output, frag).1.Cont?)
          && h.failedOnce)
    ensures e.Packet? ==>
      (Process(h, e.i, e.verdict, e.output, frag).1 == Abort <==> Fails(h, e, frag) && h.phase != Start && h.failedOnce)
  {
  }

  /** In every run the handler asks for an abort exactly when TLS fails a second time in one conversation. */
  lemma {:induction false} SecondFailureAborts(events: seq<Event>, e: Event, frag: nat)
    requires e.Packet?
    ensures var h := Run(NEW_HANDLER, events, frag);
      Process(h, e.i, e.verdict, e.output, frag).1 == Abort <==>
      Fails(h, e, frag) && h.phase != Start && FailedSince(NEW_HANDLER, events, frag)
  {
    FailureRemembered(events, frag);
    EventKeepsFailure(Run(NEW_HANDLER, events, frag), e, frag);
  }

  lemma {:induction false} FailureRemembered(events: seq<Event>, frag: nat)
    ensures Run(NEW_HANDLER, events, frag).failedOnce <==> FailedSince(NEW_HANDLER, events, frag)
  {
    if events != [] {
      FailureRemembered(events[..|events| - 1], frag);
      EventKeepsFailure(Run(NEW_HANDLER, events[..|events| - 1], frag), events[|events| - 1], frag);
    }
  }
}
