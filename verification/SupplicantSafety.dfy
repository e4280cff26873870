/** What holds in every run of the main loop. */
module SupplicantSafety {
  import opened Options
  import opened Bytes
  import opened EapPacket
  import opened TlsHandler
  import opened TlsPacket
  import opened DispatcherModel
  import opened SupplicantModel

  // ---- the stages ----

  /** The turn leaves INIT: whatever was before, it finds the loop there and answers a request. */
  ghost predicate LeavesInit(c: Config, s: Supplicant, f: Frame)
    requires Possible(c, s, f)
  {
    && f.eapolType == PCKT && f.m.code == REQUEST
    && AfterPae(c, s, f).stage == INIT && Turn(c, s, f).stage == DO_AUTH && OutcomeOf(c, s, f).Answer?
  }

  /** EAP-Success from the known authenticator during DO_AUTH. */
  ghost predicate Succeeds(c: Config, s: Supplicant, f: Frame)
    requires Possible(c, s, f)
  {
    f.eapolType == PCKT && f.m.code == SUCCESS && f.samePae && s.stage == DO_AUTH
  }

  /** How the stage moves in one turn. */
  lemma TurnStages(c: Config, s: Supplicant, f: Frame)
    requires Possible(c, s, f)
    ensures var e, t := AfterPae(c, s, f), Turn(c, s, f);
      && (e.stage == INIT && t.stage != INIT ==> LeavesInit(c, s, f))
      && (e.stage == DO_AUTH && t.stage == DID_AUTH ==> Succeeds(c, s, f))
      && (e.stage != INIT ==> e == s)
  {
  }

  /** From turn i on the loop was outside INIT. */
  ghost predicate OutsideInit(c: Config, states: seq<Supplicant>, frames: seq<Frame>, i: int, n: int)
    requires Steps(c, states, frames) && 0 <= i < n <= |frames|
  {
    && LeavesInit(c, states[i], frames[i])
    && forall k :: i < k < n ==> AfterPae(c, states[k], frames[k]).stage != INIT
  }

  ghost predicate SucceededAfter(c: Config, states: seq<Supplicant>, frames: seq<Frame>, i: int, n: int)
    requires Steps(c, states, frames) && 0 <= i < n <= |frames|
  {
    exists j :: i < j < n && Succeeds(c, states[j], frames[j])
  }

  lemma OneMoreTurn(c: Config, states: seq<Supplicant>, frames: seq<Frame>, i: int, n: int)
    requires Steps(c, states, frames) && 0 <= i < n - 1 && n <= |frames|
    requires OutsideInit(c, states, frames, i, n - 1) && AfterPae(c, states[n - 1], frames[n - 1]).stage != INIT
    ensures OutsideInit(c, states, frames, i, n)
    ensures SucceededAfter(c, states, frames, i, n - 1) || Succeeds(c, states[n - 1], frames[n - 1])
        ==> SucceededAfter(c, states, frames, i, n)
  {
  }

  /** In every run the loop is outside INIT only since a turn that answered a request, and in DID_AUTH
      only if EAP-Success came after that turn. */
  lemma {:induction false} AuthenticatedMeans(c: Config, services: seq<Service>, fork: int, states: seq<Supplicant>,
        frames: seq<Frame>, n: nat)
    requires IsRun(c, services, fork, states, frames) && n <= |frames|
    ensures states[n].stage != INIT ==>
      exists i :: 0 <= i < n && OutsideInit(c, states, frames, i, n) &&
                  (states[n].stage == DID_AUTH ==> SucceededAfter(c, states, frames, i, n))
  {
    if n > 0 && states[n].stage != INIT {
      var s, f := states[n - 1], frames[n - 1];
      TurnStages(c, s, f);
      if AfterPae(c, s, f).stage == INIT {
        assert OutsideInit(c, states, frames, n - 1, n);
      } else {
        AuthenticatedMeans(c, services, fork, states, frames, n - 1);
        var i :| 0 <= i < n - 1 && OutsideInit(c, states, frames, i, n - 1) &&
                 (s.stage == DID_AUTH ==> SucceededAfter(c, states, frames, i, n - 1));
        OneMoreTurn(c, states, frames, i, n);
      }
    }
  }

  // ---- the molestor ----

  /** The recorded process is the only one alive, and none is in DID_AUTH. */
  ghost predicate MolestorOk(s: Supplicant) {
    && s.running == (if s.molestor == -1 then {} else {s.molestor})
    && (s.stage == DID_AUTH ==> s.molestor == -1)
  }

  lemma PaeKeepsMolestor(c: Config, s: Supplicant, f: Frame)
    requires Possible(c, s, f) && MolestorOk(s)
    ensures MolestorOk(AfterPae(c, s, f))
  {
  }

  lemma ReactKeepsMolestor(c: Config, s: Supplicant, code: Code, fork: int)
    requires |s.out.body| > HEADER_LEN && MolestorOk(s)
    ensures MolestorOk(React(c, s, code, fork))
  {
  }

  lemma TurnKeepsMolestor(c: Config, s: Supplicant, f: Frame)
    requires Possible(c, s, f) && MolestorOk(s)
    ensures MolestorOk(Turn(c, s, f))
  {
    PaeKeepsMolestor(c, s, f);
    var e := AfterPae(c, s, f);
    var (auth, o) := Dispatch(e.auth, f.m, f.a, c.frag);
    ReactKeepsMolestor(c, e.(auth := auth, out := e.out.(body := Output(c.host, e.out.body, o))), CodeFor(o), f.fork);
  }

  /** In every run at most one molestor is alive, and none while the loop is in DID_AUTH. */
  lemma {:induction false} OneMolestor(c: Config, services: seq<Service>, fork: int, states: seq<Supplicant>,
        frames: seq<Frame>, n: nat)
    requires IsRun(c, services, fork, states, frames) && n <= |frames|
    ensures |states[n].running| <= 1
    ensures states[n].stage == DID_AUTH ==> states[n].running == {}
    ensures MolestorOk(states[n])
  {
    if n > 0 {
      OneMolestor(c, services, fork, states, frames, n - 1);
      TurnKeepsMolestor(c, states[n - 1], frames[n - 1]);
    }
  }

  // ---- retransmission ----

  /** The request would go to another method of authentication than the current one. */
  predicate Switching(d: Dispatcher, m: Message) {
    && m.code == REQUEST && m.id as int != d.lastRequest
    && FirstWanting(d.services, m.eapType).Some? && Switches(d, FirstWanting(d.services, m.eapType).value)
  }

  /** A turn without an answer, a success, a failure or an abort of any kind. */
  predicate Quiet(c: Config, s: Supplicant, f: Frame)
    requires |s.out.body| > HEADER_LEN
  {
    f.eapolType != PCKT ||
    (f.samePae && CodeFor(OutcomeOf(c, s, f)) in {RetInv, RetOld} && !Switching(s.auth, f.m))
  }

  /** The frame answered last is still in the buffer. */
  ghost predicate Holds(s: Supplicant, id: byte, answer: Buffer) {
    s.stage == DO_AUTH && s.auth.lastRequest == id as int && s.out == answer
  }

  lemma AnswerHolds(c: Config, s: Supplicant, f: Frame)
    requires Possible(c, s, f) && f.eapolType == PCKT && OutcomeOf(c, s, f).Answer?
    ensures var t := Turn(c, s, f);
      |t.sent| > 0 && Holds(t, f.m.id, t.sent[|t.sent| - 1])
  {
  }

  lemma QuietHolds(c: Config, s: Supplicant, f: Frame, id: byte, answer: Buffer)
    requires Possible(c, s, f) && Quiet(c, s, f) && Holds(s, id, answer)
    ensures Holds(Turn(c, s, f), id, answer)
  {
  }

  lemma OldIsRepeated(c: Config, s: Supplicant, f: Frame, id: byte, answer: Buffer)
    requires Possible(c, s, f) && Holds(s, id, answer)
    requires f.eapolType == PCKT && f.samePae && f.m.code == REQUEST && f.m.id == id
    ensures Turn(c, s, f) == s.(sent := s.sent + [answer])
  {
  }

  lemma {:induction false} HeldSince(c: Config, states: seq<Supplicant>, frames: seq<Frame>, a: nat, b: nat)
    requires Steps(c, states, frames) && a < b <= |frames|
    requires frames[a].eapolType == PCKT && OutcomeOf(c, states[a], frames[a]).Answer?
    requires forall k :: a < k < b ==> Quiet(c, states[k], frames[k])
    ensures |states[a + 1].sent| > 0
    ensures Holds(states[b], frames[a].m.id, states[a + 1].sent[|states[a + 1].sent| - 1])
    decreases b
  {
    if b == a + 1 {
      AnswerHolds(c, states[a], frames[a]);
    } else {
      HeldSince(c, states, frames, a, b - 1);
      QuietHolds(c, states[b - 1], frames[b - 1], frames[a].m.id, states[a + 1].sent[|states[a + 1].sent| - 1]);
    }
  }

  /** A request with the identifier of one answered in turn a, with only quiet turns in between, is
      answered by the very frame sent then, and changes neither dispatcher nor handler nor stage. */
  lemma DuplicateRepeatsAnswer(c: Config, states: seq<Supplicant>, frames: seq<Frame>, a: nat, b: nat)
    requires Steps(c, states, frames) && a < b < |frames|
    requires frames[a].eapolType == PCKT && OutcomeOf(c, states[a], frames[a]).Answer?
    requires forall k :: a < k < b ==> Quiet(c, states[k], frames[k])
    requires frames[b].eapolType == PCKT && frames[b].samePae && frames[b].m.code == REQUEST
        && frames[b].m.id == frames[a].m.id
    ensures |states[a + 1].sent| > 0
    ensures states[b + 1] == states[b].(sent := states[b].sent + [states[a + 1].sent[|states[a + 1].sent| - 1]])
  {
    HeldSince(c, states, frames, a, b);
    OldIsRepeated(c, states[b], frames[b], frames[a].m.id, states[a + 1].sent[|states[a + 1].sent| - 1]);
  }

  predicate Answered(c: Config, s: Supplicant, f: Frame)
    requires |s.out.body| > HEADER_LEN
  {
    f.eapolType == PCKT && OutcomeOf(c, s, f).Answer?
  }

  /** Turn a answered a request with this identifier, and the turns since were quiet. */
  ghost predicate AnsweredAt(c: Config, states: seq<Supplicant>, frames: seq<Frame>, a: int, n: int, id: int)
    requires Steps(c, states, frames) && n <= |frames|
  {
    && 0 <= a < n && Answered(c, states[a], frames[a]) && frames[a].m.id as int == id
    && forall k :: a < k < n ==> Quiet(c, states[k], frames[k])
  }

  ghost predicate AnsweredBefore(c: Config, states: seq<Supplicant>, frames: seq<Frame>, n: int, id: int)
    requires Steps(c, states, frames) && n <= |frames|
  {
    exists a :: AnsweredAt(c, states, frames, a, n, id)
  }

  /** The turn ends what was going on: an authenticator takes another's place, another method is asked for,
      the dispatcher gives up, or authentication fails. */
  predicate Aborts(c: Config, s: Supplicant, f: Frame)
    requires |s.out.body| > HEADER_LEN
  {
    && f.eapolType == PCKT
    && (|| (s.stage == DO_AUTH && !f.samePae)
        || Switching(AfterPae(c, s, f).auth, f.m)
        || OutcomeOf(c, s, f) == NoAnswer(RetAbort)
        || (f.m.code == FAILURE && AfterPae(c, s, f).stage != INIT))
  }

  /** No turn before n answered, succeeded or aborted. */
  ghost predicate NothingYet(c: Config, states: seq<Supplicant>, frames: seq<Frame>, n: int)
    requires Steps(c, states, frames) && n <= |frames|
  {
    forall k :: 0 <= k < n ==> !Changes(c, states[k], frames[k])
  }

  predicate Changes(c: Config, s: Supplicant, f: Frame)
    requires |s.out.body| > HEADER_LEN
  {
    Answered(c, s, f) || (f.eapolType == PCKT && f.m.code == SUCCESS) || Aborts(c, s, f)
  }

  /** What the dispatcher does to the identifier that counts as old. */
  lemma DispatchLast(d: Dispatcher, m: Message, a: Answers, frag: nat)
    ensures var (e, o) := Dispatch(d, m, a, frag);
      && (o.Answer? ==> e.lastRequest == m.id as int)
      && (!o.Answer? ==> e.lastRequest in {d.lastRequest, -1})
      && (CodeFor(o) == RetOk || (!o.Answer? && Switching(d, m)) ==> e.lastRequest == -1)
      && (CodeFor(o) in {RetInv, RetFail, RetOld} && !Switching(d, m) ==> e.lastRequest == d.lastRequest)
  {
  }

  /** What one turn does to it, and to the stage, where nothing is answered. */
  lemma ReactLast(c: Config, s: Supplicant, code: Code, fork: int)
    requires |s.out.body| > HEADER_LEN && code != RetCont
    ensures var t := React(c, s, code, fork);
      && t.auth.lastRequest in {s.auth.lastRequest, -1}
      && (s.stage == INIT ==> t.stage == INIT)
      && (s.stage == INIT && code != RetAbort ==> t.auth.lastRequest == s.auth.lastRequest)
      && (s.stage == INIT && code == RetAbort ==> t.auth.lastRequest == -1)
      && (s.stage == DO_AUTH && code in {RetFail, RetAbort} ==> t.auth.lastRequest == -1 || t.done)
  {
  }

  lemma TurnLast(c: Config, s: Supplicant, f: Frame)
    requires Possible(c, s, f) && !Answered(c, s, f)
    ensures var t := Turn(c, s, f);
      && t.auth.lastRequest in {s.auth.lastRequest, -1}
      && (s.stage == INIT ==> t.stage == INIT)
      && (s.stage == INIT ==> t.auth.lastRequest == if Changes(c, s, f) then -1 else s.auth.lastRequest)
      && (s.stage == DO_AUTH && !Quiet(c, s, f) ==> t.auth.lastRequest == -1 || t.done)
  {
    if f.eapolType == PCKT {
      var e := AfterPae(c, s, f);
      var (auth, o) := Dispatch(e.auth, f.m, f.a, c.frag);
      DispatchLast(e.auth, f.m, f.a, c.frag);
      if o != NoAnswer(RetOld) {
        ReactLast(c, e.(auth := auth, out := e.out.(body := Output(c.host, e.out.body, o))), CodeFor(o), f.fork);
      }
    }
  }

  lemma StillHeld(c: Config, states: seq<Supplicant>, frames: seq<Frame>, a: int, n: nat, id: int)
    requires Steps(c, states, frames) && n < |frames| && AnsweredAt(c, states, frames, a, n, id)
    requires Quiet(c, states[n], frames[n])
    ensures AnsweredAt(c, states, frames, a, n + 1, id)
  {
  }

  lemma HeldInDoAuth(c: Config, states: seq<Supplicant>, frames: seq<Frame>, a: int, n: nat, id: int)
    requires Steps(c, states, frames) && n <= |frames| && AnsweredAt(c, states, frames, a, n, id)
    ensures states[n].stage == DO_AUTH && states[n].auth.lastRequest == id
  {
    HeldSince(c, states, frames, a, n);
  }

  /** Where the identifier that counts as old comes from. */
  lemma {:induction false} OldComesFrom(c: Config, services: seq<Service>, fork: int, states: seq<Supplicant>,
        frames: seq<Frame>, n: nat)
    requires IsRun(c, services, fork, states, frames) && n <= |frames| && !states[n].done
    ensures var last := states[n].auth.lastRequest;
      || last == -1 || AnsweredBefore(c, states, frames, n, last)
      || (last == 0 && states[n].stage == INIT && NothingYet(c, states, frames, n))
  {
    if n > 0 {
      var m := n - 1;
      var last := states[n].auth.lastRequest;
      OldComesFrom(c, services, fork, states, frames, m);
      if Answered(c, states[m], frames[m]) {
        AnswerHolds(c, states[m], frames[m]);
        assert AnsweredAt(c, states, frames, m, n, last);
      } else if last != -1 {
        TurnLast(c, states[m], frames[m]);
        if AnsweredBefore(c, states, frames, m, last) {
          var a :| AnsweredAt(c, states, frames, a, m, last);
          HeldInDoAuth(c, states, frames, a, m, last);
          StillHeld(c, states, frames, a, m, last);
        }
      }
    }
  }

  /** As long as nothing was answered, succeeded or aborted the loop is in INIT, and 0 counts as old. */
  lemma {:induction false} NothingYetMeans(c: Config, services: seq<Service>, fork: int, states: seq<Supplicant>,
        frames: seq<Frame>, n: nat)
    requires IsRun(c, services, fork, states, frames) && n <= |frames| && NothingYet(c, states, frames, n)
    ensures states[n].stage == INIT && states[n].auth.lastRequest == 0
  {
    if n > 0 {
      NothingYetMeans(c, services, fork, states, frames, n - 1);
      TurnLast(c, states[n - 1], frames[n - 1]);
    }
  }

  /** Main result: in every run a request is taken for old if and only if it repeats, from the same
      authenticator, the identifier of one answered before with only quiet turns since, or its identifier
      is 0 and nothing has been answered, succeeded or aborted yet. */
  lemma OldExact(c: Config, services: seq<Service>, fork: int, states: seq<Supplicant>, frames: seq<Frame>, n: nat)
    requires IsRun(c, services, fork, states, frames) && n < |frames| && frames[n].eapolType == PCKT
    ensures var f := frames[n];
      OutcomeOf(c, states[n], f) == NoAnswer(RetOld) <==>
      && f.m.code == REQUEST
      && (|| (f.samePae && AnsweredBefore(c, states, frames, n, f.m.id as int))
          || (f.m.id == 0 && NothingYet(c, states, frames, n)))
  {
    var s, f := states[n], frames[n];
    var id := f.m.id as int;
    OldAtDispatcher(AfterPae(c, s, f).auth, f.m, f.a, c.frag);
    if OutcomeOf(c, s, f) == NoAnswer(RetOld) {
      OldComesFrom(c, services, fork, states, frames, n);
      PaeLast(c, s, f);
      if AnsweredBefore(c, states, frames, n, id) {
        var a :| AnsweredAt(c, states, frames, a, n, id);
        HeldInDoAuth(c, states, frames, a, n, id);
      }
    } else if f.samePae && AnsweredBefore(c, states, frames, n, id) {
      var a :| AnsweredAt(c, states, frames, a, n, id);
      HeldInDoAuth(c, states, frames, a, n, id);
    } else if NothingYet(c, states, frames, n) {
      NothingYetMeans(c, services, fork, states, frames, n);
      PaeLast(c, s, f);
    }
  }

  /** The input that shows it: the very first request, if its identifier is 0, is not answered. */
  lemma FirstRequestRefused(c: Config, services: seq<Service>, fork: int, states: seq<Supplicant>, frames: seq<Frame>)
    requires IsRun(c, services, fork, states, frames) && |frames| > 0
    requires frames[0].eapolType == PCKT && frames[0].m.code == REQUEST && frames[0].m.id == 0
    ensures OutcomeOf(c, states[0], frames[0]) == NoAnswer(RetOld)
    ensures states[1] == states[0].(sent := states[0].sent + [states[0].out])
  {
    OldExact(c, services, fork, states, frames, 0);
    NothingYetMeans(c, services, fork, states, frames, 0);
  }

  lemma PaeLast(c: Config, s: Supplicant, f: Frame)
    requires Possible(c, s, f)
    ensures AfterPae(c, s, f).auth.lastRequest in {s.auth.lastRequest, -1}
    ensures s.stage == INIT ==> AfterPae(c, s, f) == s
    ensures s.stage == DO_AUTH && f.eapolType == PCKT && !f.samePae ==> AfterPae(c, s, f).auth.lastRequest == -1
  {
  }

  lemma OldAtDispatcher(d: Dispatcher, m: Message, a: Answers, frag: nat)
    ensures Dispatch(d, m, a, frag).1 == NoAnswer(RetOld) <==> m.code == REQUEST && m.id as int == d.lastRequest
  {
  }

  // ---- getting back in step with the authenticator ----

  /** A TLS start packet. */
  predicate TlsStartFrame(f: Frame) {
    && f.eapolType == PCKT && f.m.code == REQUEST && f.m.eapType == TLS_TYPE
    && Classify(f.m.tls.flags, |f.m.tls.payload|) == TlsStart
  }

  predicate ServesTls(s: Supplicant) {
    FirstWanting(s.auth.services, TLS_TYPE) == Some(Tls)
  }

  /** What one turn makes of the dispatcher. */
  lemma TurnAuth(c: Config, s: Supplicant, f: Frame)
    requires Possible(c, s, f) && f.eapolType == PCKT
    ensures var e, t := AfterPae(c, s, f), Turn(c, s, f);
      var (auth, o) := Dispatch(e.auth, f.m, f.a, c.frag);
      && (CodeFor(o) == RetAbort ==> t.auth == Aborted(auth) && !t.done)
      && (CodeFor(o) == RetInv ==> t.auth == auth)
    ensures AfterPae(c, s, f).auth in {s.auth, Aborted(s.auth)}
  {
  }

  /** Only the TLS handler makes the dispatcher give up. */
  lemma AbortIsTls(d: Dispatcher, m: Message, a: Answers, frag: nat)
    requires Dispatch(d, m, a, frag).1 == NoAnswer(RetAbort)
    ensures Dispatch(d, m, a, frag).0.auth == Some(Tls)
    ensures Dispatch(d, m, a, frag).0.services == d.services
    ensures FirstWanting(d.services, TLS_TYPE) == Some(Tls)
  {
    FirstWantingType(d.services, m.eapType);
  }

  /** A packet the dispatcher gives up on leaves the TLS handler as after construction, in every stage. */
  lemma AbortResets(c: Config, s: Supplicant, f: Frame)
    requires Possible(c, s, f) && f.eapolType == PCKT && OutcomeOf(c, s, f) == NoAnswer(RetAbort)
    ensures var t := Turn(c, s, f);
      t.auth.tls == NEW_HANDLER && t.auth.lastRequest == -1 && ServesTls(t) && !t.done
  {
    TurnAuth(c, s, f);
    AbortIsTls(AfterPae(c, s, f).auth, f.m, f.a, c.frag);
  }

  /** With the TLS handler idle a start packet is answered, unless it counts as old. */
  lemma IdleAnswersStart(c: Config, s: Supplicant, f: Frame)
    requires Possible(c, s, f) && TlsStartFrame(f) && ServesTls(s)
    requires s.auth.tls.phase == Start && s.auth.lastRequest != f.m.id as int
    ensures OutcomeOf(c, s, f).Answer?
  {
  }

  /** After an abort in any stage the next start packet is answered, whatever its identifier. */
  lemma AbortThenStart(c: Config, states: seq<Supplicant>, frames: seq<Frame>)
    requires Steps(c, states, frames) && |frames| == 2
    requires frames[0].eapolType == PCKT && OutcomeOf(c, states[0], frames[0]) == NoAnswer(RetAbort)
    requires TlsStartFrame(frames[1])
    ensures OutcomeOf(c, states[1], frames[1]).Answer?
  {
    AbortResets(c, states[0], frames[0]);
    IdleAnswersStart(c, states[1], frames[1]);
  }

  predicate MaybeOld(s: Supplicant, last: int) {
    s.auth.lastRequest == last || s.auth.lastRequest == -1
  }

  /** A start packet at the dispatcher: answered by an idle TLS handler, counted by any other. */
  lemma StartAtDispatcher(d: Dispatcher, m: Message, a: Answers, frag: nat)
    requires m.code == REQUEST && m.eapType == TLS_TYPE && Classify(m.tls.flags, |m.tls.payload|) == TlsStart
    requires FirstWanting(d.services, TLS_TYPE) == Some(Tls) && m.id as int != d.lastRequest
    ensures var e := Selected(d, Tls);
      if e.tls.phase == Start then Dispatch(d, m, a, frag).1.Answer? else Dispatch(d, m, a, frag) == Counted(e)
  {
  }

  /** A start packet that is not answered is counted, and the sixth one aborts. */
  lemma StartCounted(c: Config, s: Supplicant, f: Frame, last: int)
    requires Possible(c, s, f) && TlsStartFrame(f) && ServesTls(s) && MaybeOld(s, last) && f.m.id as int != last
    requires !OutcomeOf(c, s, f).Answer?
    ensures var t := Turn(c, s, f);
      && ServesTls(t) && MaybeOld(t, last)
      && (s.auth.ninvalid >= NINVALID_MAX ==> t.auth.tls.phase == Start)
      && (s.auth.ninvalid < NINVALID_MAX ==> t.auth.ninvalid == s.auth.ninvalid + 1)
  {
    TurnAuth(c, s, f);
    StartAtDispatcher(AfterPae(c, s, f).auth, f.m, f.a, c.frag);
  }

  /** Whatever state the loop is in, one of seven TLS start packets in a row is answered, as long as
      none of them carries the identifier that counts as old at the beginning. */
  lemma {:induction false} ResyncWithinSeven(c: Config, states: seq<Supplicant>, frames: seq<Frame>, from: nat,
        last: int)
    requires Steps(c, states, frames) && from < |frames| && ServesTls(states[from]) && MaybeOld(states[from], last)
    requires forall k :: from <= k < |frames| ==> TlsStartFrame(frames[k]) && frames[k].m.id as int != last
    requires states[from].auth.tls.phase != Start ==>
      |frames| - from >= 7 - if states[from].auth.ninvalid < NINVALID_MAX then states[from].auth.ninvalid
          else NINVALID_MAX
    ensures exists k :: from <= k < |frames| && OutcomeOf(c, states[k], frames[k]).Answer?
    decreases |frames| - from
  {
    var s, f := states[from], frames[from];
    if !OutcomeOf(c, s, f).Answer? {
      if s.auth.tls.phase == Start {
        IdleAnswersStart(c, s, f);
      } else {
        StartCounted(c, s, f, last);
        ResyncWithinSeven(c, states, frames, from + 1, last);
      }
    }
  }
}
