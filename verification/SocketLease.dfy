/** Where ids come from: clients get them from the ring and use them for their calls.

    A client is one sequential user of the socket. It may use its id for several calls, one after
    the other (a retransmission). The only assumption is that a call ends within the id cache
    timeout of the issue of its id, and that the clock does not go back. Ids in flight are then
    distinct, and the guard on entries that SocketSafety assumes follows. */
module SocketLease {
  import opened Options
  import opened SocketModel
  import opened SocketRun
  import opened SocketSafety
  import opened IdRing

  datatype Lease = Lease(id: Id, issued: int)

  datatype World = World(sys: System, ring: Ring, now: int, leases: map<nat, Lease>, client: map<nat, nat>)

  datatype Event =
    | Tick(seconds: nat)
    | Ask(q: nat)                           // GenerateNewId for client q
    | Tidy                                  // RefreshIdCache alone
    | Start(q: nat, c: nat, server: Endpoint)
    | Move(a: Action)                       // any other step of a call

  ghost predicate Busy(w: World, q: nat) {
    exists c :: c in w.sys.calls && c in w.client && w.client[c] == q && w.sys.calls[c].InFlight()
  }

  predicate InTime(l: Lease, timeout: int, now: int) {
    l.issued + timeout >= now
  }

  ghost predicate Possible(w: World, e: Event, timeout: int) {
    match e
    case Tick(d) =>
      forall c :: c in w.sys.calls && w.sys.calls[c].InFlight() && c in w.client && w.client[c] in w.leases ==>
        InTime(w.leases[w.client[c]], timeout, w.now + d)
    case Ask(q) => !Busy(w, q)
    case Tidy => true
    case Start(q, c, server) =>
      !Busy(w, q) && q in w.leases && InTime(w.leases[q], timeout, w.now) && c !in w.sys.calls
    case Move(a) => !a.Begin? && Enabled(w.sys, a)
  }

  /** The step of the socket machine inside an event. */
  function Inner(w: World, e: Event): Action {
    match e
    case Start(q, c, server) => if q in w.leases then Begin(c, w.leases[q].id, server) else Idle
    case Move(a) => a
    case _ => Idle
  }

  ghost function After(w: World, e: Event, timeout: int): World
    requires Possible(w, e, timeout)
  {
    match e
    case Tick(d) => w.(now := w.now + d)
    case Ask(q) =>
      var (g, id) := Generate(w.ring, w.now, timeout);
      w.(ring := g, leases := AskedLeases(w.leases, q, id, w.now))
    case Tidy => w.(ring := Refresh(w.ring, w.now, timeout))
    case Start(q, c, server) => w.(sys := Next(w.sys, Inner(w, e)), client := w.client[c := q])
    case Move(a) => w.(sys := Next(w.sys, a))
  }

  ghost predicate NewWorld(w: World) {
    w.sys == Init() && w.ring.oldest == w.ring.next && w.leases == map[] && w.client == map[]
  }

  ghost predicate IsWorldRun(ws: seq<World>, es: seq<Event>, timeout: int) {
    && |ws| == |es| + 1 && NewWorld(ws[0])
    && (forall i :: 0 <= i < |es| ==> Possible(ws[i], es[i], timeout) && ws[i + 1] == After(ws[i], es[i], timeout))
  }

  // ---- why ids in flight are distinct ----

  /** A lease still in time is outstanding in the ring, and no other one in time has its id. */
  ghost predicate LeasesOk(live: map<Id, int>, leases: map<nat, Lease>, timeout: int, now: int) {
    && (forall q :: q in leases && InTime(leases[q], timeout, now) ==>
          leases[q].id in live && live[leases[q].id] == leases[q].issued)
    && (forall p, q :: p in leases && q in leases && p != q && InTime(leases[p], timeout, now)
          && InTime(leases[q], timeout, now)
          ==> leases[p].id != leases[q].id)
  }

  /** Each call in flight runs on its client's lease, in time, and is that client's only one. */
  ghost predicate FlightsOk(calls: map<nat, Call>, client: map<nat, nat>, leases: map<nat, Lease>, timeout: int,
        now: int)
  {
    && (forall c :: c in calls ==> c in client)
    && (forall c :: c in calls && calls[c].InFlight() ==>
          client[c] in leases && InTime(leases[client[c]], timeout, now) && calls[c].id == leases[client[c]].id)
    && (forall c, d :: c in calls && d in calls && c != d && calls[c].InFlight() && calls[d].InFlight()
          ==> client[c] != client[d])
  }

  ghost predicate WorldOk(w: World, timeout: int) {
    && Ordered(w.ring, w.now)
    && LeasesOk(Live(w.ring), w.leases, timeout, w.now)
    && FlightsOk(w.sys.calls, w.client, w.leases, timeout, w.now)
    && CallsOk(w.sys) && Owned(w.sys.k, w.sys.calls)
  }

  /** No two calls in flight use the same id. */
  ghost predicate DistinctInFlight(calls: map<nat, Call>) {
    forall c, d ::
      c in calls && d in calls && calls[c].InFlight() && calls[d].InFlight() && calls[c].id == calls[d].id ==> c == d
  }

  lemma LeasesDistinct(w: World, timeout: int)
    requires WorldOk(w, timeout)
    ensures DistinctInFlight(w.sys.calls)
  {
  }

  /** An id that holds a sync point is that of a follower, and no call enters with it meanwhile. */
  lemma EntryGuarded(w: World, e: Event, timeout: int)
    requires WorldOk(w, timeout) && Possible(w, e, timeout)
    ensures Enabled(w.sys, Inner(w, e)) && Guarded(w.sys, Inner(w, e))
  {
    if e.Move? && e.a.Enters? {
      LeasesDistinct(w, timeout);
      NoFollowerWith(w.sys.calls, e.a.c);
    }
  }

  lemma NoFollowerWith(calls: map<nat, Call>, c: nat)
    requires DistinctInFlight(calls) && c in calls && calls[c].pc.Entering?
    ensures forall d :: !FollowerWith(calls, d, calls[c].id)
  {
  }

  /** Expired ids leave the map without touching any lease in time. */
  lemma ExpireLeases(m: map<Id, int>, leases: map<nat, Lease>, timeout: int, now: int)
    requires LeasesOk(m, leases, timeout, now)
    ensures LeasesOk(Unexpired(m, now, timeout), leases, timeout, now)
  {
  }

  lemma AddLease(m: map<Id, int>, leases: map<nat, Lease>, q: nat, id: Id, timeout: int, now: int)
    requires LeasesOk(m, leases, timeout, now) && id !in m
    ensures LeasesOk(m[id := now], leases[q := Lease(id, now)], timeout, now)
  {
  }

  lemma KeepFlights(s: System, t: System, client: map<nat, nat>, leases: map<nat, Lease>, timeout: int, now: int)
    requires FlightsOk(s.calls, client, leases, timeout, now) && t.calls.Keys == s.calls.Keys && Extends(s, t)
    ensures FlightsOk(t.calls, client, leases, timeout, now)
  {
  }

  lemma MoveKeys(s: System, a: Action)
    requires CallsOk(s) && Owned(s.k, s.calls) && Enabled(s, a) && !a.Begin?
    ensures Next(s, a).calls.Keys == s.calls.Keys
  {
  }

  /** The leases after client q asked. */
  function AskedLeases(leases: map<nat, Lease>, q: nat, id: Option<Id>, now: int): map<nat, Lease> {
    if id.Some? then leases[q := Lease(id.value, now)] else leases - {q}
  }

  lemma AskLeases(r: Ring, leases: map<nat, Lease>, q: nat, timeout: int, now: int)
    requires Ordered(r, now) && LeasesOk(Live(r), leases, timeout, now)
    ensures LeasesOk(Live(Generate(r, now, timeout).0), AskedLeases(leases, q, Generate(r, now, timeout).1, now),
        timeout, now)
  {
    var m := Unexpired(Live(r), now, timeout);
    var id := Generate(r, now, timeout).1;
    GenerateExact(r, now, timeout);
    ExpireLeases(Live(r), leases, timeout, now);
    if id.Some? {
      AddLease(m, leases, q, id.value, timeout, now);
    } else {
      DropLease(m, leases, q, timeout, now);
    }
  }

  lemma DropLease(m: map<Id, int>, leases: map<nat, Lease>, q: nat, timeout: int, now: int)
    requires LeasesOk(m, leases, timeout, now)
    ensures LeasesOk(m, leases - {q}, timeout, now)
  {
  }

  lemma AskFlights(calls: map<nat, Call>, client: map<nat, nat>, leases: map<nat, Lease>, after: map<nat, Lease>,
        q: nat, timeout: int, now: int)
    requires FlightsOk(calls, client, leases, timeout, now) && after - {q} == leases - {q}
    requires forall c :: c in calls && c in client && calls[c].InFlight() ==> client[c] != q
    ensures FlightsOk(calls, client, after, timeout, now)
  {
    forall p | p in leases && p != q ensures p in after && after[p] == leases[p] {
      assert p in leases - {q} && (after - {q})[p] == after[p];
    }
  }

  lemma NotBusy(w: World, q: nat)
    requires !Busy(w, q)
    ensures forall c :: c in w.sys.calls && c in w.client && w.sys.calls[c].InFlight() ==> w.client[c] != q
  {
  }

  lemma KeepAsk(w: World, v: World, q: nat, timeout: int)
    requires WorldOk(w, timeout) && !Busy(w, q) && Ordered(v.ring, v.now)
    requires v.ring == Generate(w.ring, w.now, timeout).0
    requires v == w.(ring := v.ring, leases := AskedLeases(w.leases, q, Generate(w.ring, w.now, timeout).1, w.now))
    ensures WorldOk(v, timeout)
  {
    AskLeases(w.ring, w.leases, q, timeout, w.now);
    NotBusy(w, q);
    assert v.leases - {q} == w.leases - {q};
    AskFlights(w.sys.calls, w.client, w.leases, v.leases, q, timeout, w.now);
  }

  lemma KeepStart(w: World, q: nat, c: nat, server: Endpoint, timeout: int)
    requires WorldOk(w, timeout) && Possible(w, Start(q, c, server), timeout)
    ensures var v := After(w, Start(q, c, server), timeout);
      FlightsOk(v.sys.calls, v.client, v.leases, timeout, v.now)
  {
  }

  lemma KeepWorld(w: World, e: Event, timeout: int)
    requires WorldOk(w, timeout) && Possible(w, e, timeout) && Inv(w.sys)
    ensures WorldOk(After(w, e, timeout), timeout) && Inv(After(w, e, timeout).sys)
  {
    EntryGuarded(w, e, timeout);
    StepInv(w.sys, Inner(w, e));
    match e
    case Tick(d) =>
    case Ask(q) =>
      GenerateExact(w.ring, w.now, timeout);
      KeepAsk(w, After(w, e, timeout), q, timeout);
    case Tidy =>
      RefreshExact(w.ring, w.now, timeout);
      ExpireLeases(Live(w.ring), w.leases, timeout, w.now);
    case Start(q, c, server) => KeepStart(w, q, c, server, timeout);
    case Move(a) => KeepMove(w, a, timeout);
  }

  lemma KeepMove(w: World, a: Action, timeout: int)
    requires WorldOk(w, timeout) && Possible(w, Move(a), timeout) && Inv(Next(w.sys, a))
    ensures WorldOk(After(w, Move(a), timeout), timeout)
  {
    StepExtends(w.sys, a);
    MoveKeys(w.sys, a);
    KeepFlights(w.sys, Next(w.sys, a), w.client, w.leases, timeout, w.now);
  }

  lemma {:induction false} WorldInv(ws: seq<World>, es: seq<Event>, timeout: int, i: nat)
    requires IsWorldRun(ws, es, timeout) && i < |ws|
    ensures WorldOk(ws[i], timeout) && Inv(ws[i].sys)
  {
    if i == 0 {
      InitInv();
    } else {
      WorldInv(ws, es, timeout, i - 1);
      assert Possible(ws[i - 1], es[i - 1], timeout) && ws[i] == After(ws[i - 1], es[i - 1], timeout);
      KeepWorld(ws[i - 1], es[i - 1], timeout);
    }
  }

  /** The calls of a run of clients, as a run of the socket machine. */
  ghost function Systems(ws: seq<World>): (tr: seq<System>)
    ensures |tr| == |ws| && forall i :: 0 <= i < |ws| ==> tr[i] == ws[i].sys
  {
    seq(|ws|, i requires 0 <= i < |ws| => ws[i].sys)
  }

  ghost function Actions(ws: seq<World>, es: seq<Event>): (acts: seq<Action>)
    requires |ws| == |es| + 1
    ensures |acts| == |es| && forall i :: 0 <= i < |es| ==> acts[i] == Inner(ws[i], es[i])
  {
    seq(|es|, i requires 0 <= i < |es| => Inner(ws[i], es[i]))
  }

  /** Main result: when calls end within the timeout of their id's issue, ids in flight are always distinct
      and every entry is guarded. Every theorem of SocketSafety therefore holds without that assumption. */
  lemma LeasedIdsDistinct(ws: seq<World>, es: seq<Event>, timeout: int)
    requires IsWorldRun(ws, es, timeout)
    ensures forall i :: 0 <= i < |ws| ==> DistinctInFlight(ws[i].sys.calls)
    ensures IsRun(Systems(ws), Actions(ws, es)) && EntriesGuarded(Systems(ws), Actions(ws, es))
  {
    var tr, acts := Systems(ws), Actions(ws, es);
    forall i | 0 <= i < |ws| ensures DistinctInFlight(ws[i].sys.calls) {
      WorldInv(ws, es, timeout, i);
      LeasesDistinct(ws[i], timeout);
    }
    forall i | 0 <= i < |acts|
      ensures Leads(tr[i], acts[i], tr[i + 1]) && Guarded(tr[i], acts[i])
    {
      WorldInv(ws, es, timeout, i);
      assert Possible(ws[i], es[i], timeout) && ws[i + 1] == After(ws[i], es[i], timeout);
      EntryGuarded(ws[i], es[i], timeout);
    }
  }

  lemma LeasedRunSafe(ws: seq<World>, es: seq<Event>, timeout: int, i: nat)
    requires IsWorldRun(ws, es, timeout) && i < |ws|
    ensures var s := ws[i].sys;
      && Safe(s)
      && (forall c :: c in s.calls && s.calls[c].pc == Returned(true) ==>
            s.calls[c].pdu.Some? && s.calls[c].pdu.value in s.received
            && s.calls[c].pdu.value.id == s.calls[c].id && s.calls[c].pdu.value.source == s.calls[c].server)
  {
    LeasedIdsDistinct(ws, es, timeout);
    var tr, acts := Systems(ws), Actions(ws, es);
    RunSafe(tr, acts, i);
    forall c | c in tr[i].calls && tr[i].calls[c].pc == Returned(true)
      ensures tr[i].calls[c].pdu.Some? && tr[i].calls[c].pdu.value in tr[i].received
              && tr[i].calls[c].pdu.value.id == tr[i].calls[c].id
              && tr[i].calls[c].pdu.value.source == tr[i].calls[c].server
    {
      RunTrueMeansAnswered(tr, acts, i, c);
    }
  }
}
