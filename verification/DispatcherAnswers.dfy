/** Which requests the dispatcher answers, and with what. */
module DispatcherAnswers {
  import opened Options
  import opened Bytes
  import opened EapPacket
  import opened TlsHandler
  import opened DispatcherModel

  /** Handler i is the first in the list for a type. */
  predicate FirstFor(services: seq<Service>, i: int, t: byte) {
    0 <= i < |services| && EapType(services[i]) == t && forall k :: 0 <= k < i ==> EapType(services[k]) != t
  }

  /** Handler i is the first in the list that would rather have its own type. */
  predicate FirstToNak(services: seq<Service>, i: int) {
    0 <= i < |services| && Naks(services[i]) && forall k :: 0 <= k < i ==> !Naks(services[k])
  }

  predicate NobodyFor(services: seq<Service>, t: byte) {
    forall k :: 0 <= k < |services| ==> EapType(services[k]) != t
  }

  lemma {:induction false} FirstWantingIs(services: seq<Service>, t: byte)
    ensures NobodyFor(services, t) ==> FirstWanting(services, t) == None
    ensures forall i :: FirstFor(services, i, t) ==> FirstWanting(services, t) == Some(services[i])
  {
    if services != [] && EapType(services[0]) != t {
      var rest := services[1..];
      FirstWantingIs(rest, t);
      if NobodyFor(services, t) {
        assert NobodyFor(rest, t);
      }
      forall i | FirstFor(services, i, t) ensures FirstWanting(services, t) == Some(services[i]) {
        assert FirstFor(rest, i - 1, t);
      }
    }
  }

  lemma {:induction false} FirstNakingIs(services: seq<Service>)
    ensures (forall k :: 0 <= k < |services| ==> !Naks(services[k])) ==> FirstNaking(services) == None
    ensures forall i :: FirstToNak(services, i) ==> FirstNaking(services) == Some(services[i])
  {
    if services != [] && !Naks(services[0]) {
      var rest := services[1..];
      FirstNakingIs(rest);
      forall i | FirstToNak(services, i) ensures FirstNaking(services) == Some(services[i]) {
        assert FirstToNak(rest, i - 1);
      }
    }
  }

  /** The type remembered is that of the current authentication. */
  predicate AuthOk(d: Dispatcher) {
    d.auth.Some? ==> d.authType == EapType(d.auth.value)
  }

  lemma DispatchKeepsAuth(d: Dispatcher, m: Message, a: Answers, frag: nat)
    requires AuthOk(d)
    ensures AuthOk(Dispatch(d, m, a, frag).0) && AuthOk(Aborted(d))
  {
  }

  lemma {:induction false} RunAuthOk(services: seq<Service>, events: seq<DispatcherModel.Event>, frag: nat)
    ensures AuthOk(DispatcherModel.Run(NewDispatcher(services), events, frag))
  {
    if events != [] {
      RunAuthOk(services, events[..|events| - 1], frag);
      var d, e := DispatcherModel.Run(NewDispatcher(services), events[..|events| - 1], frag), events[|events| - 1];
      if e.Received? {
        DispatchKeepsAuth(d, e.m, e.a, frag);
      }
    }
  }

  /** A request for a type that nobody handles gets a NAK that names the type of the first handler that
      would rather have its own, or nothing when there is none. */
  lemma UnknownTypeExact(d: Dispatcher, m: Message, a: Answers, frag: nat)
    requires m.code == 1 && m.id as int != d.lastRequest && NobodyFor(d.services, m.eapType)
    ensures var (e, o) := Dispatch(d, m, a, frag);
      && (forall i :: FirstToNak(d.services, i) ==>
            o == Answer(3, m.id, Data([EapType(d.services[i])])) && e == d.(ninvalid := 0, lastRequest := m.id as int))
      && ((forall k :: 0 <= k < |d.services| ==> !Naks(d.services[k])) ==> o == NoAnswer(RetInv) && e == d)
  {
    FirstWantingIs(d.services, m.eapType);
    FirstNakingIs(d.services);
  }

  /** The dispatcher once handler i has been chosen: the TLS handler starts anew if it was the current method
      of authentication and another one is asked for. */
  lemma ChosenExact(d: Dispatcher, s: Service)
    requires AuthOk(d)
    ensures var e := Selected(d, s);
      && e.auth == (if IsAuth(s) then Some(s) else d.auth)
      && e.tls == (if IsAuth(s) && d.auth == Some(Tls) && EapType(s) != 13 then NEW_HANDLER else d.tls)
      && e.services == d.services && e.ninvalid == d.ninvalid && e.lastRequest in {d.lastRequest, -1}
  {
  }

  /** A request for a type that is handled goes to the first handler for it. A plain handler answers; the TLS
      handler answers what it accepts, and what it rejects is counted. The answer has the type and the
      identifier of the request. */
  lemma KnownTypeExact(d: Dispatcher, m: Message, a: Answers, frag: nat, i: int)
    requires m.code == 1 && m.id as int != d.lastRequest && FirstFor(d.services, i, m.eapType) && AuthOk(d)
    ensures var (e, o) := Dispatch(d, m, a, frag); var s := d.services[i];
      && (o.Answer? ==> o.eapType == m.eapType && o.id == m.id && e.lastRequest == m.id as int && e.ninvalid == 0)
      && e.services == d.services && e.auth == (if IsAuth(s) then Some(s) else d.auth)
      && (s.Plain? ==> o == Answer(m.eapType, m.id, Data(a.data)))
      && (s.Plain? ==> e.tls == if s.auth && d.auth == Some(Tls) && m.eapType != 13 then NEW_HANDLER else d.tls)
      && (s.Tls? ==> var (h, r, _) := Process(d.tls, m.tls, a.verdict, a.output, frag);
            && e.tls == h
            && (r.Cont? ==> o == Answer(13, m.id, FromTls(r.reply)))
            && (r == Abort ==> o == NoAnswer(RetAbort))
            && (r == Inv ==> o == NoAnswer(if d.ninvalid >= 5 then RetAbort else RetInv)))
  {
    FirstWantingIs(d.services, m.eapType);
    ChosenExact(d, d.services[i]);
  }

  /** What the other packets come to: an old request changes nothing; success forgets the current method and
      the last identifier, and nothing else. */
  lemma OthersExact(d: Dispatcher, m: Message, a: Answers, frag: nat)
    ensures var (e, o) := Dispatch(d, m, a, frag);
      && (CodeFor(o) == RetOk <==> m.code == 3) && (CodeFor(o) == RetFail <==> m.code == 4)
      && (CodeFor(o) == RetOld <==> m.code == 1 && m.id as int == d.lastRequest)
      && (m.code !in {1, 3, 4} ==> o == NoAnswer(RetInv))
      && (m.code != 1 || m.id as int == d.lastRequest ==>
            e == if m.code == 3 then d.(auth := None, authType := 0, lastRequest := -1) else d)
  {
  }
}
