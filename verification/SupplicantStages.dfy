/** Exactly when the main loop is in which stage, and what success, failure and aborts lead to. */
module SupplicantStages {
  import opened Options
  import opened Bytes
  import opened EapPacket
  import opened TlsPacket
  import opened DispatcherModel
  import opened SupplicantModel
  import opened SupplicantSafety

  // ---- one turn ----

  /** An EAP packet from the known authenticator, with this return code. */
  predicate Brings(c: Config, s: Supplicant, f: Frame, code: Code)
    requires |s.out.body| > HEADER_LEN
  {
    f.eapolType == 0 && f.samePae && CodeFor(OutcomeOf(c, s, f)) == code
  }

  /** The loop is back at the beginning, without a current authentication or an identifier that is old,
      and a molestor is alive if one is wanted and could be started. */
  predicate Restarted(c: Config, s: Supplicant, t: Supplicant, fork: int) {
    && t.stage == INIT && t.done == s.done && t.auth.auth == None && t.auth.lastRequest == -1
    && t.auth.services == s.auth.services
    && t.molestor == (if s.molestor != -1 then s.molestor else if c.sendStart then fork else -1)
    && t.running == (if s.molestor == -1 && c.sendStart && fork != -1 then s.running + {fork} else s.running)
    && (s.molestor == -1 && c.sendStart && fork == -1 ==> t.sent == s.sent + [t.out] && IsStartFrame(c, t.out))
    && (s.molestor != -1 || !c.sendStart || fork != -1 ==> t.sent == s.sent)
  }

  /** EAPOL-Start: the two headers and no body. */
  predicate IsStartFrame(c: Config, b: Buffer) {
    b.eapolType == 1 && b.bodyLen == 0 && b.outLen == c.linkHeader + 4
  }

  /** The program begins in INIT with a molestor if one is wanted and can be started, and with one start
      frame if one is wanted and cannot. */
  lemma BeginExact(c: Config, services: seq<Service>, body: seq<byte>, fork: int)
    requires |body| > HEADER_LEN
    ensures var s := NewSupplicant(c, services, body, fork);
      && s.stage == INIT && !s.done && s.auth == NewDispatcher(services) && s.out.body == body
      && s.molestor == (if c.sendStart then fork else -1)
      && s.running == (if c.sendStart && fork != -1 then {fork} else {})
      && (c.sendStart && fork == -1 ==> s.sent == [s.out] && IsStartFrame(c, s.out))
      && (!c.sendStart || fork != -1 ==> s.sent == [])
  {
  }

  /** EAP-Success: in DO_AUTH authentication is done, and so is the program in single-shot mode; in INIT it
      only stops the molestor, and in DID_AUTH nothing happens. */
  lemma SuccessExact(c: Config, s: Supplicant, f: Frame)
    requires Possible(c, s, f) && f.eapolType == 0 && f.samePae && f.m.code == 3 && MolestorOk(s)
    ensures var t := Turn(c, s, f);
      && t.stage == (if s.stage == INIT then INIT else DID_AUTH)
      && t.done == (s.stage == DO_AUTH && c.singleShot)
      && t.molestor == -1 && t.running == {} && t.sent == s.sent
      && t.auth == s.auth.(auth := None, authType := 0, lastRequest := -1)
  {
  }

  /** EAP-Failure: in INIT a molestor is started if one is wanted; later the program ends in single-shot mode
      when authentication was under way, and restarts otherwise. */
  lemma FailureExact(c: Config, s: Supplicant, f: Frame)
    requires Possible(c, s, f) && f.eapolType == 0 && f.samePae && f.m.code == 4 && MolestorOk(s)
    ensures var t := Turn(c, s, f);
      && (s.stage == INIT ==> t.stage == INIT && !t.done && t.auth == s.auth)
      && (s.stage == INIT ==> t.molestor == if s.molestor == -1 && c.sendStart then f.fork else s.molestor)
      && (s.stage == DO_AUTH && c.singleShot ==> t.done && t.stage == DO_AUTH && t.running == {})
      && (s.stage == DO_AUTH && !c.singleShot ==> Restarted(c, StopIfRunning(s), t, f.fork))
      && (s.stage == DID_AUTH ==> Restarted(c, s, t, f.fork))
  {
  }

  /** An abort by the dispatcher restarts, except that no molestor is started in INIT. */
  lemma AbortExact(c: Config, s: Supplicant, f: Frame)
    requires Possible(c, s, f) && Brings(c, s, f, RetAbort)
    ensures var t := Turn(c, s, f);
      && t.stage == INIT && !t.done && t.auth.auth == None && t.auth.lastRequest == -1
      && (s.stage == INIT ==> t.molestor == s.molestor && t.running == s.running && t.sent == s.sent)
      && (s.stage != INIT ==> Restarted(c, if s.stage == DO_AUTH then StopIfRunning(s) else s, t, f.fork))
  {
  }

  /** An answer is sent once, as an EAP packet as long as its header says, and leads to DO_AUTH. */
  lemma AnswerExact(c: Config, s: Supplicant, f: Frame)
    requires Possible(c, s, f) && Answered(c, s, f) && f.samePae
    ensures var t := Turn(c, s, f);
      && t.stage == DO_AUTH && !t.done && |t.sent| == |s.sent| + 1 && t.sent[..|s.sent|] == s.sent
      && t.sent[|s.sent|] == t.out && t.out.body == Output(c.host, s.out.body, OutcomeOf(c, s, f))
      && t.out.eapolType == 0 && t.out.bodyLen == EapLen(t.out.body)
      && t.out.outLen == c.linkHeader + 4 + t.out.bodyLen
      && (s.stage == DO_AUTH ==> t.molestor == -1)
  {
  }

  /** A frame that is not an EAP packet changes nothing; what brings ret_inv stops a molestor in DO_AUTH; an
      old request only repeats the last frame. */
  lemma IgnoredExact(c: Config, s: Supplicant, f: Frame)
    requires Possible(c, s, f)
    ensures f.eapolType != 0 ==> Turn(c, s, f) == s
    ensures Brings(c, s, f, RetOld) ==> Turn(c, s, f) == s.(sent := s.sent + [s.out])
    ensures Brings(c, s, f, RetInv) ==> var t := Turn(c, s, f);
      && t.stage == s.stage && !t.done && t.sent == s.sent && t.out == s.out
      && t.molestor == if s.stage == DO_AUTH then -1 else s.molestor
  {
  }

  /** A frame of another authenticator is taken as if the loop had restarted, and from DID_AUTH as if it had
      gone back to INIT. */
  lemma OtherPae(c: Config, s: Supplicant, f: Frame)
    requires Possible(c, s, f) && f.eapolType == 0 && !f.samePae
    ensures var e := AfterPae(c, s, f);
      && (s.stage == INIT ==> e == s)
      && (s.stage == DO_AUTH ==> Restarted(c, s, e, f.fork))
      && (s.stage == DID_AUTH ==> e == s.(stage := INIT))
      && Turn(c, s, f) == Handled(c, e, f)
  {
  }

  // ---- runs ----

  /** The turn ends an authentication that is under way. */
  predicate Stops(c: Config, s: Supplicant, f: Frame)
    requires |s.out.body| > HEADER_LEN
  {
    f.eapolType == 0 && (!f.samePae || f.m.code == 3 || (f.m.code == 4 && !c.singleShot)
      || OutcomeOf(c, s, f) == NoAnswer(RetAbort))
  }

  /** There is a packet in every output buffer. */
  ghost predicate Sized(states: seq<Supplicant>, frames: seq<Frame>) {
    |states| == |frames| + 1 && forall i :: 0 <= i < |states| ==> |states[i].out.body| > HEADER_LEN
  }

  /** Turn i answered a request, and no turn since has stopped what it began. */
  ghost predicate UnderWaySince(c: Config, states: seq<Supplicant>, frames: seq<Frame>, i: int, n: int)
    requires Sized(states, frames) && n <= |frames|
  {
    && 0 <= i < n && Answered(c, states[i], frames[i])
    && forall k :: i < k < n ==> !Stops(c, states[k], frames[k])
  }

  ghost predicate UnderWay(c: Config, states: seq<Supplicant>, frames: seq<Frame>, n: int)
    requires Sized(states, frames) && n <= |frames|
  {
    exists i :: UnderWaySince(c, states, frames, i, n)
  }

  /** EAP-Success from the known authenticator while an authentication is under way. */
  ghost predicate SucceedsAt(c: Config, states: seq<Supplicant>, frames: seq<Frame>, j: int)
    requires Sized(states, frames) && j < |frames|
  {
    && 0 <= j && frames[j].eapolType == 0 && frames[j].samePae && frames[j].m.code == 3
    && UnderWay(c, states, frames, j)
  }

  /** The turn ends the time after a success. */
  predicate Leaves(c: Config, s: Supplicant, f: Frame)
    requires |s.out.body| > HEADER_LEN
  {
    f.eapolType == 0 && (!f.samePae || f.m.code == 4 || Answered(c, s, f) || OutcomeOf(c, s, f) == NoAnswer(RetAbort))
  }

  /** Turn j was a success, and no turn since has ended the time after it. */
  ghost predicate DoneSince(c: Config, states: seq<Supplicant>, frames: seq<Frame>, j: int, n: int)
    requires Sized(states, frames) && n <= |frames|
  {
    && 0 <= j < n && SucceedsAt(c, states, frames, j)
    && forall k :: j < k < n ==> !Leaves(c, states[k], frames[k])
  }

  ghost predicate Done(c: Config, states: seq<Supplicant>, frames: seq<Frame>, n: int)
    requires Sized(states, frames) && n <= |frames|
  {
    exists j :: DoneSince(c, states, frames, j, n)
  }

  /** How the stage moves with a frame. */
  ghost predicate StageMoves(c: Config, s: Supplicant, f: Frame, t: Supplicant)
    requires |s.out.body| > HEADER_LEN
  {
    && (t.stage == DO_AUTH <==> Answered(c, s, f) || (s.stage == DO_AUTH && !Stops(c, s, f)))
    && (t.stage == DID_AUTH <==>
        || (s.stage == DO_AUTH && f.eapolType == 0 && f.samePae && f.m.code == 3)
        || (s.stage == DID_AUTH && !Leaves(c, s, f)))
  }

  ghost predicate StagesMove(c: Config, states: seq<Supplicant>, frames: seq<Frame>) {
    && Sized(states, frames) && states[0].stage == INIT
    && forall i :: 0 <= i < |frames| ==> StageMoves(c, states[i], frames[i], states[i + 1])
  }

  lemma CodesOf(d: Dispatcher, m: Message, a: Answers, frag: nat)
    ensures var o := Dispatch(d, m, a, frag).1;
      && (CodeFor(o) == RetOk <==> m.code == 3) && (CodeFor(o) == RetFail <==> m.code == 4)
      && (CodeFor(o) == RetCont <==> o.Answer?) && (o.Answer? ==> m.code == 1)
  {
  }

  lemma TurnMoves(c: Config, s: Supplicant, f: Frame)
    requires Possible(c, s, f)
    ensures StageMoves(c, s, f, Turn(c, s, f))
  {
    CodesOf(AfterPae(c, s, f).auth, f.m, f.a, c.frag);
  }

  lemma RunMoves(c: Config, services: seq<Service>, fork: int, states: seq<Supplicant>, frames: seq<Frame>)
    requires IsRun(c, services, fork, states, frames)
    ensures StagesMove(c, states, frames)
  {
    RunSized(c, services, fork, states, frames);
    forall i | 0 <= i < |frames| ensures StageMoves(c, states[i], frames[i], states[i + 1]) {
      TurnMoves(c, states[i], frames[i]);
    }
  }

  lemma RunSized(c: Config, services: seq<Service>, fork: int, states: seq<Supplicant>, frames: seq<Frame>)
    requires IsRun(c, services, fork, states, frames)
    ensures Sized(states, frames) && states[0].stage == INIT
  {
    forall i | 0 <= i < |states| ensures |states[i].out.body| > HEADER_LEN {
      if i > 0 {
        assert states[i] == Turn(c, states[i - 1], frames[i - 1]);
      }
    }
  }

  lemma {:induction false} DoAuthSince(c: Config, states: seq<Supplicant>, frames: seq<Frame>, n: nat)
    requires StagesMove(c, states, frames) && n <= |frames|
    ensures states[n].stage == DO_AUTH <==> UnderWay(c, states, frames, n)
  {
    if n > 0 {
      var m := n - 1;
      DoAuthSince(c, states, frames, m);
      assert StageMoves(c, states[m], frames[m], states[n]);
      if states[n].stage == DO_AUTH {
        if Answered(c, states[m], frames[m]) {
          assert UnderWaySince(c, states, frames, m, n);
        } else {
          var i :| UnderWaySince(c, states, frames, i, m);
          assert UnderWaySince(c, states, frames, i, n);
        }
      }
      if i :| UnderWaySince(c, states, frames, i, n) && i < m {
        assert UnderWaySince(c, states, frames, i, m);
      }
    }
  }

  lemma {:induction false} DidAuthSince(c: Config, states: seq<Supplicant>, frames: seq<Frame>, n: nat)
    requires StagesMove(c, states, frames) && n <= |frames|
    ensures states[n].stage == DID_AUTH <==> Done(c, states, frames, n)
  {
    if n > 0 {
      var m := n - 1;
      DidAuthSince(c, states, frames, m);
      DoAuthSince(c, states, frames, m);
      assert StageMoves(c, states[m], frames[m], states[n]);
      if states[n].stage == DID_AUTH {
        if states[m].stage == DO_AUTH {
          assert DoneSince(c, states, frames, m, n);
        } else {
          var j :| DoneSince(c, states, frames, j, m);
          assert DoneSince(c, states, frames, j, n);
        }
      }
      if j :| DoneSince(c, states, frames, j, n) && j < m {
        assert DoneSince(c, states, frames, j, m);
      }
    }
  }

  /** In every run the loop is in DO_AUTH if and only if a request was answered and since then there was no
      success, no abort, no change of authenticator and, outside single-shot mode, no failure. */
  lemma DoAuthExact(c: Config, services: seq<Service>, fork: int, states: seq<Supplicant>, frames: seq<Frame>, n: nat)
    requires IsRun(c, services, fork, states, frames) && n <= |frames|
    ensures Sized(states, frames) && (states[n].stage == DO_AUTH <==> UnderWay(c, states, frames, n))
  {
    RunMoves(c, services, fork, states, frames);
    DoAuthSince(c, states, frames, n);
  }

  /** Main result: in every run the loop is in DID_AUTH if and only if EAP-Success came from the known
      authenticator while an authentication was under way, and since then there was no answer, no failure, no
      abort and no change of authenticator. */
  lemma DidAuthExact(c: Config, services: seq<Service>, fork: int, states: seq<Supplicant>, frames: seq<Frame>, n: nat)
    requires IsRun(c, services, fork, states, frames) && n <= |frames|
    ensures Sized(states, frames) && (states[n].stage == DID_AUTH <==> Done(c, states, frames, n))
  {
    RunMoves(c, services, fork, states, frames);
    DidAuthSince(c, states, frames, n);
  }
}
