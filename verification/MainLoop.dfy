/** The main loop on its variables and on the output buffer. */
module MainLoop {
  import opened Bytes
  import opened EapPacket
  import opened TlsHandler
  import opened TlsPacket
  import opened EapDispatcher
  import opened DispatcherModel
  import S = SupplicantModel

  class Program {
    const linkHeader: nat
    const sendStart: bool
    const singleShot: bool
    const auth: EapDispatcher
    const out: array<byte>
    var outType: byte
    var outBodyLen: nat
    var outLen: nat
    var stage: S.Stage
    var molestor: int
    var done: bool
    /** The frames sent and the children alive, as the system sees them. */
    var sent: seq<S.Buffer>
    var running: set<int>

    ghost predicate Valid()
      reads this, auth, auth.tls
    {
      && auth.Valid() && out != auth.tls.recvBuffer && out.Length > HEADER_LEN
    }

    function OutBuffer(): S.Buffer
      reads this, out
    {
      S.Buffer(outType, outBodyLen, out[..], outLen)
    }

    ghost function View(): S.Supplicant
      requires Valid()
      reads this, out, auth, auth.tls, auth.tls.recvBuffer
    {
      S.Supplicant(stage, auth.View(), molestor, running, OutBuffer(), sent, done)
    }

    ghost function Config(): S.Config
      reads this, auth, auth.tls
    {
      S.Config(auth.tls.host, auth.tls.fragmentSize, linkHeader, sendStart, singleShot)
    }

    /** Everything up to the loop; `fork` is what fork() returns for the first molestor. */
    constructor (auth: EapDispatcher, out: array<byte>, linkHeader: nat, sendStart: bool, singleShot: bool, fork: int)
      requires auth.Valid() && auth.View() == NewDispatcher(auth.handlers)
      requires out != auth.tls.recvBuffer && out.Length > HEADER_LEN
      ensures Valid() && this.auth == auth && this.out == out
      ensures this.linkHeader == linkHeader && this.sendStart == sendStart && this.singleShot == singleShot
      ensures View() == S.NewSupplicant(Config(), auth.handlers, out[..], fork)
    {
      this.auth, this.out, this.linkHeader, this.sendStart, this.singleShot := auth, out, linkHeader, sendStart,
          singleShot;
      outType, outBodyLen, outLen, stage, molestor, done, sent, running := 0, 0, 0, S.INIT, -1, false, [], {};
      new;
      if sendStart {
        StartMolestor(fork);
      }
    }

    method MakeEapol(t: byte)
      requires Valid()
      modifies this`outType, this`outBodyLen
      ensures OutBuffer() == S.MakeEapol(old(OutBuffer()), t)
    {
      outType := t;
      outBodyLen := if t == S.PCKT then EapLen(out[..]) else 0;
    }

    /** Makes a frame of the given type and sends it. */
    method Send(t: byte)
      requires Valid()
      modifies this`outType, this`outBodyLen, this`outLen, this`sent
      ensures View() == S.Send(Config(), old(View()), t)
    {
      MakeEapol(t);
      outLen := outBodyLen + S.BASE_HEADER_LEN + linkHeader;
      sent := sent + [OutBuffer()];
    }

    method RetransmitLast()
      requires Valid()
      modifies this`sent
      ensures View() == old(View()).(sent := old(sent) + [old(OutBuffer())])
    {
      sent := sent + [OutBuffer()];
    }

    /** start_molestor, given what fork() returns to the parent. */
    method StartMolestor(fork: int)
      requires Valid()
      modifies this`molestor, this`running, this`outType, this`outBodyLen, this`outLen, this`sent
      ensures View() == S.StartMolestor(Config(), old(View()), fork)
    {
      if fork == -1 {
        Send(S.START);
      } else {
        running := running + {fork};
      }
      molestor := fork;
    }

    method StopMolestor()
      requires Valid()
      modifies this`molestor, this`running
      ensures View() == S.StopMolestor(old(View()))
    {
      running := running - {molestor};
      molestor := -1;
    }

    method DoAbort(fork: int)
      requires Valid()
      modifies this`molestor, this`running, this`outType, this`outBodyLen, this`outLen, this`sent
      modifies auth`authHandler, auth`authType, auth`lastRequest, auth.tls`phase, auth.tls`failedOnce
      ensures Valid() && View() == S.DoAbort(Config(), old(View()), fork)
    {
      auth.Abort();
      if sendStart && molestor == -1 {
        StartMolestor(fork);
      }
    }

    /** A frame from another authenticator. */
    method ChangePae(fork: int)
      requires Valid()
      modifies this`stage, this`molestor, this`running, this`outType, this`outBodyLen, this`outLen, this`sent
      modifies auth`authHandler, auth`authType, auth`lastRequest, auth.tls`phase, auth.tls`failedOnce
      ensures Valid() && View() == S.ChangePae(Config(), old(View()), fork)
      ensures auth.tls.View() in {old(auth.tls.View()), NEW_HANDLER}
    {
      match stage {
        case INIT =>
        case DO_AUTH =>
          DoAbort(fork);
          stage := S.INIT;
        case DID_AUTH =>
          stage := S.INIT;
      }
    }

    method ReactInit(code: Code, fork: int) returns (answer: bool)
      requires Valid() && stage == S.INIT
      modifies this`stage, this`molestor, this`running, this`outType, this`outBodyLen, this`outLen, this`sent
      modifies auth`authHandler, auth`authType, auth`lastRequest, auth.tls`phase, auth.tls`failedOnce
      ensures Valid() && answer == (code == RetCont)
      ensures View() == if answer then old(View()).(stage := S.DO_AUTH) else S.React(Config(), old(View()), code, fork)
    {
      answer := false;
      match code {
        case RetCont =>
          stage := S.DO_AUTH;
          answer := true;
        case RetOk =>
          if molestor != -1 {
            StopMolestor();
          }
        case RetFail =>
          if sendStart && molestor == -1 {
            StartMolestor(fork);
          }
        case RetAbort =>
          auth.Abort();
        case _ =>
      }
    }

    method ReactDoAuth(code: Code, fork: int) returns (answer: bool)
      requires Valid() && stage == S.DO_AUTH
      modifies this`stage, this`done, this`molestor, this`running, this`outType, this`outBodyLen, this`outLen, this`sent
      modifies auth`authHandler, auth`authType, auth`lastRequest, auth.tls`phase, auth.tls`failedOnce
      ensures Valid() && answer == (code in {RetCont, RetOld})
      ensures View() == if answer then S.StopIfRunning(old(View())) else S.React(Config(), old(View()), code, fork)
    {
      answer := false;
      if molestor != -1 {
        StopMolestor();
      }
      match code {
        case RetOk =>
          stage := S.DID_AUTH;
          done := singleShot;
        case RetFail =>
          if singleShot {
            done := true;
          } else {
            stage := S.INIT;
            DoAbort(fork);
          }
        case RetAbort =>
          stage := S.INIT;
          DoAbort(fork);
        case RetInv =>
        case _ =>
          answer := true;
      }
    }

    method ReactDidAuth(code: Code, fork: int) returns (answer: bool)
      requires Valid() && stage == S.DID_AUTH
      modifies this`stage, this`molestor, this`running, this`outType, this`outBodyLen, this`outLen, this`sent
      modifies auth`authHandler, auth`authType, auth`lastRequest, auth.tls`phase, auth.tls`failedOnce
      ensures Valid() && answer == (code == RetCont)
      ensures View() == if answer then old(View()).(stage := S.DO_AUTH) else S.React(Config(), old(View()), code, fork)
    {
      answer := false;
      match code {
        case RetCont =>
          stage := S.DO_AUTH;
          answer := true;
        case RetAbort =>
          stage := S.INIT;
          DoAbort(fork);
        case RetFail =>
          stage := S.INIT;
          DoAbort(fork);
        case _ =>
      }
    }

    /** The switch on the stage, and the answer if there is one. */
    method React(code: Code, fork: int)
      requires Valid()
      modifies this`stage, this`done, this`molestor, this`running, this`outType, this`outBodyLen, this`outLen, this`sent
      modifies auth`authHandler, auth`authType, auth`lastRequest, auth.tls`phase, auth.tls`failedOnce
      ensures Valid() && View() == S.React(Config(), old(View()), code, fork)
    {
      var answer;
      match stage {
        case INIT => answer := ReactInit(code, fork);
        case DO_AUTH => answer := ReactDoAuth(code, fork);
        case DID_AUTH => answer := ReactDidAuth(code, fork);
      }
      if answer {
        Send(S.PCKT);
      }
    }

    /** The EAP packet of a frame, whoever sent it. */
    method Handle(input: array<byte>, a: Answers, fork: int)
      requires Valid() && auth.Apart(input, out) && RoomForAll(out[..], a.data, auth.tls.fragmentSize)
      requires Parsable(input[..]) && auth.Acceptable(input[..])
      modifies this, out, auth, auth.tls, auth.tls.recvBuffer
      ensures Valid()
      ensures var f := S.Frame(S.PCKT, true, old(Parse(input[..])), a, fork);
        && Fitting(old(out[..]), Dispatch(old(auth.View()), f.m, a, Config().frag).1)
        && View() == S.Handled(Config(), old(View()), f)
    {
      var rc := auth.Process(input, out, a);
      if rc == RetOld {
        RetransmitLast();
      } else {
        React(rc, fork);
      }
    }

    /** One turn of the loop, from a received frame on. */
    method Turn(eapolType: byte, samePae: bool, input: array<byte>, a: Answers, fork: int)
      requires Valid() && !done && auth.Apart(input, out) && RoomForAll(out[..], a.data, auth.tls.fragmentSize)
      requires Parsable(input[..]) && auth.Acceptable(input[..]) && (fork == -1 || (fork > 0 && fork !in running))
      modifies this, out, auth, auth.tls, auth.tls.recvBuffer
      ensures Valid()
      ensures var f := S.Frame(eapolType, samePae, old(Parse(input[..])), a, fork);
        && S.Possible(Config(), old(View()), f)
        && View() == S.Turn(Config(), old(View()), f)
    {
      ghost var s, f := View(), S.Frame(eapolType, samePae, Parse(input[..]), a, fork);
      RoomSuffices(S.AfterPae(Config(), s, f).auth, f.m, a, auth.tls.fragmentSize, out[..]);
      if eapolType != S.PCKT {
        return;
      }
      if !samePae {
        ChangePae(fork);
      }
      assert View() == S.AfterPae(Config(), s, f);
      Handle(input, a, fork);
    }
  }
}
