/** The supplicant's main loop on values: INIT, DO_AUTH and DID_AUTH, the process that keeps sending
    EAPOL-Start ("molestor"), and the output frame. */
module SupplicantModel {
  import opened Bytes
  import opened EapPacket
  import opened TlsPacket
  import opened DispatcherModel

  datatype Stage = INIT | DO_AUTH | DID_AUTH

  const PCKT: byte := 0
  const START: byte := 1

  /** The output buffer: EAPOL type and body length, the EAP packet behind them, and the number of octets
      last sent. */
  datatype Buffer = Buffer(eapolType: byte, bodyLen: nat, body: seq<byte>, outLen: nat)

  const BASE_HEADER_LEN := 4

  /** make_eapol */
  function MakeEapol(b: Buffer, t: byte): Buffer
    requires |b.body| > HEADER_LEN
  {
    b.(eapolType := t, bodyLen := if t == PCKT then EapLen(b.body) else 0)
  }

  /** send: link header and EAPOL header are counted in; what goes out is the buffer up to outLen. */
  function Sent(b: Buffer, linkHeader: nat): Buffer {
    b.(outLen := b.bodyLen + BASE_HEADER_LEN + linkHeader)
  }

  /** What does not change while the program runs. */
  datatype Config = Config(host: Host, frag: nat, linkHeader: nat, sendStart: bool, singleShot: bool)

  /** `running` are the molestor processes alive, `sent` the frames this process has sent. */
  datatype Supplicant = Supplicant(stage: Stage, auth: Dispatcher, molestor: int, running: set<int>, out: Buffer,
        sent: seq<Buffer>, done: bool)

  /** A received frame: its EAPOL type, whether it comes from the known authenticator, the EAP packet in
      it, what is answered to it from outside, and what fork() would return. */
  datatype Frame = Frame(eapolType: byte, samePae: bool, m: Message, a: Answers, fork: int)

  function Send(c: Config, s: Supplicant, t: byte): Supplicant
    requires |s.out.body| > HEADER_LEN
  {
    var b := Sent(MakeEapol(s.out, t), c.linkHeader);
    s.(out := b, sent := s.sent + [b])
  }

  /** start_molestor: a child that cannot be started is replaced by a single frame. */
  function StartMolestor(c: Config, s: Supplicant, fork: int): Supplicant
    requires |s.out.body| > HEADER_LEN
  {
    if fork == -1 then Send(c, s, START).(molestor := -1)
    else s.(molestor := fork, running := s.running + {fork})
  }

  function StopMolestor(s: Supplicant): Supplicant {
    s.(molestor := -1, running := s.running - {s.molestor})
  }

  function StopIfRunning(s: Supplicant): Supplicant {
    if s.molestor != -1 then StopMolestor(s) else s
  }

  function StartIfWanted(c: Config, s: Supplicant, fork: int): Supplicant
    requires |s.out.body| > HEADER_LEN
  {
    if c.sendStart && s.molestor == -1 then StartMolestor(c, s, fork) else s
  }

  function DoAbort(c: Config, s: Supplicant, fork: int): Supplicant
    requires |s.out.body| > HEADER_LEN
  {
    StartIfWanted(c, s.(auth := Aborted(s.auth)), fork)
  }

  /** A frame from another authenticator ends what was going on. */
  function ChangePae(c: Config, s: Supplicant, fork: int): Supplicant
    requires |s.out.body| > HEADER_LEN
  {
    match s.stage
    case INIT => s
    case DO_AUTH => DoAbort(c, s, fork).(stage := INIT)
    case DID_AUTH => s.(stage := INIT)
  }

  function Reply(c: Config, s: Supplicant): Supplicant
    requires |s.out.body| > HEADER_LEN
  {
    Send(c, s.(stage := DO_AUTH), PCKT)
  }

  /** The three-way switch on the stage and the return code. */
  function React(c: Config, s: Supplicant, code: Code, fork: int): Supplicant
    requires |s.out.body| > HEADER_LEN
  {
    match s.stage
    case INIT =>
      (match code
       case RetCont => Reply(c, s)
       case RetOk => StopIfRunning(s)
       case RetFail => StartIfWanted(c, s, fork)
       case RetAbort => s.(auth := Aborted(s.auth))
       case _ => s)
    case DO_AUTH =>
      var s := StopIfRunning(s);
      (match code
       case RetOk => s.(stage := DID_AUTH, done := c.singleShot)
       case RetFail => if c.singleShot then s.(done := true) else DoAbort(c, s.(stage := INIT), fork)
       case RetAbort => DoAbort(c, s.(stage := INIT), fork)
       case RetInv => s
       case _ => Reply(c, s))
    case DID_AUTH =>
      (match code
       case RetCont => Reply(c, s)
       case RetAbort => DoAbort(c, s.(stage := INIT), fork)
       case RetFail => DoAbort(c, s.(stage := INIT), fork)
       case _ => s)
  }

  /** What becomes of the stage before the packet is looked at. */
  function AfterPae(c: Config, s: Supplicant, f: Frame): Supplicant
    requires |s.out.body| > HEADER_LEN
  {
    if f.eapolType != PCKT || f.samePae then s else ChangePae(c, s, f.fork)
  }

  /** The loop goes on, the answer fits into the output buffer, and fork() fails or makes a new process. */
  predicate Possible(c: Config, s: Supplicant, f: Frame) {
    && !s.done && |s.out.body| > HEADER_LEN
    && Fitting(s.out.body, Dispatch(AfterPae(c, s, f).auth, f.m, f.a, c.frag).1)
    && (f.fork == -1 || (f.fork > 0 && f.fork !in s.running))
  }

  /** What the dispatcher makes of a frame. */
  function OutcomeOf(c: Config, s: Supplicant, f: Frame): Outcome
    requires |s.out.body| > HEADER_LEN
  {
    Dispatch(AfterPae(c, s, f).auth, f.m, f.a, c.frag).1
  }

  /** The dispatcher's outcome carried out. */
  function Handled(c: Config, e: Supplicant, f: Frame): (t: Supplicant)
    requires |e.out.body| > HEADER_LEN && Fitting(e.out.body, Dispatch(e.auth, f.m, f.a, c.frag).1)
    ensures |t.out.body| == |e.out.body|
  {
    var (auth, o) := Dispatch(e.auth, f.m, f.a, c.frag);
    if o == NoAnswer(RetOld) then e.(auth := auth, sent := e.sent + [e.out])
    else React(c, e.(auth := auth, out := e.out.(body := Output(c.host, e.out.body, o))), CodeFor(o), f.fork)
  }

  /** One turn of the loop. */
  function Turn(c: Config, s: Supplicant, f: Frame): (t: Supplicant)
    requires Possible(c, s, f)
    ensures |t.out.body| == |s.out.body|
  {
    if f.eapolType != PCKT then s else Handled(c, AfterPae(c, s, f), f)
  }

  function NewSupplicant(c: Config, services: seq<Service>, body: seq<byte>, fork: int): Supplicant
    requires |body| > HEADER_LEN
  {
    StartIfWanted(c, Supplicant(INIT, NewDispatcher(services), -1, {}, Buffer(0, 0, body, 0), [], false), fork)
  }

  /** `frames` lead from each state to the next. */
  ghost predicate Steps(c: Config, states: seq<Supplicant>, frames: seq<Frame>) {
    && |states| == |frames| + 1
    && forall i :: 0 <= i < |frames|
          ==> Possible(c, states[i], frames[i]) && states[i + 1] == Turn(c, states[i], frames[i])
  }

  ghost predicate IsRun(c: Config, services: seq<Service>, fork: int, states: seq<Supplicant>, frames: seq<Frame>) {
    && Steps(c, states, frames) && (fork == -1 || fork > 0)
    && exists body: seq<byte> :: |body| > HEADER_LEN && states[0] == NewSupplicant(c, services, body, fork)
  }
}
