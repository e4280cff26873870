/** What holds in every run of MakeRequest calls on one socket. */
module SocketSafety {
  import opened Options
  import opened SocketModel
  import opened SocketRun

  ghost predicate Leads(s: System, a: Action, t: System) {
    Enabled(s, a) && Next(s, a) == t
  }

  /** The actions lead from each state to the next. */
  ghost predicate IsPath(tr: seq<System>, acts: seq<Action>) {
    && |tr| == |acts| + 1
    && (forall i {:trigger acts[i]} :: 0 <= i < |acts| ==> Leads(tr[i], acts[i], tr[i + 1]))
  }

  /** `tr` is a run of the actions from a new socket. */
  ghost predicate IsRun(tr: seq<System>, acts: seq<Action>) {
    IsPath(tr, acts) && tr[0] == Init()
  }

  /** Every call enters with an id that is pending, and is then refused, or that holds no sync point. */
  ghost predicate EntriesGuarded(tr: seq<System>, acts: seq<Action>)
    requires |tr| == |acts| + 1
  {
    forall i {:trigger acts[i]} :: 0 <= i < |acts| ==> Guarded(tr[i], acts[i])
  }

  lemma LeadsInv(s: System, a: Action, t: System)
    requires Inv(s) && Leads(s, a, t) && Guarded(s, a)
    ensures Inv(t)
  {
    StepInv(s, a);
  }

  /** The invariant holds along every path with guarded entries that begins with it. */
  lemma PathInv(tr: seq<System>, acts: seq<Action>, i: nat)
    requires IsPath(tr, acts) && EntriesGuarded(tr, acts) && Inv(tr[0]) && i < |tr|
    ensures Inv(tr[i])
  {
    for j := 0 to i
      invariant Inv(tr[j])
    {
      LeadsInv(tr[j], acts[j], tr[j + 1]);
    }
  }

  lemma RunInv(tr: seq<System>, acts: seq<Action>, i: nat)
    requires IsRun(tr, acts) && EntriesGuarded(tr, acts) && i < |tr|
    ensures Inv(tr[i])
  {
    InitInv();
    PathInv(tr, acts, i);
  }

  /** A path goes on with an action that leads on from its last state. */
  lemma PathGrows(tr: seq<System>, acts: seq<Action>, a: Action, t: System)
    requires IsPath(tr, acts) && Leads(tr[|acts|], a, t)
    ensures IsPath(tr + [t], acts + [a])
  {
  }

  // ---- mutual exclusion and ownership ----

  /** At most one call reads, and m_isReading says whether one does. */
  ghost predicate ReaderExclusive(s: System) {
    && (forall c, d :: c in s.calls && d in s.calls && s.calls[c].Reader() && s.calls[d].Reader() ==> c == d)
    && (s.k.isReading <==> exists c :: c in s.calls && s.calls[c].Reader())
  }

  /** Every pending id belongs to a call in flight with that id, the reader or a follower whose own
      sync point is the one recorded for the id; so a response is never stored for a finished call. */
  ghost predicate PendingLive(s: System) {
    forall id :: id in s.k.pending ==>
      var o := s.k.pending[id].owner;
      && o in s.calls && s.calls[o].id == id && s.calls[o].server == s.k.pending[id].server
      && (s.calls[o].Reader() || (s.calls[o].Follower() && FollowerOk(s.k, s.calls[o])))
  }

  /** Ids map one-to-one onto the set bits, and the count is the size of that map. */
  ghost predicate IndexBijection(k: Socket) {
    && (forall a :: a in k.indices ==> k.indices[a] in k.used)
    && (forall i :: i in k.used ==> exists a :: a in k.indices && k.indices[a] == i)
    && (forall a, b :: a in k.indices && b in k.indices && a != b ==> k.indices[a] != k.indices[b])
    && k.nested == |k.indices|
  }

  /** The sync point a follower sleeps on exists, and no other follower sleeps on it. */
  ghost predicate SleepersSafe(s: System) {
    && (forall c :: c in s.calls && s.calls[c].Follower() ==>
          exists i :: i in s.k.points && s.calls[c].point == Some(s.k.points[i]) && i in s.k.used)
    && (forall c, d :: c in s.calls && d in s.calls && c != d && s.calls[c].Follower() && s.calls[d].Follower() ==>
          s.calls[c].point != s.calls[d].point)
  }

  ghost predicate Safe(s: System) {
    ReaderExclusive(s) && PendingLive(s) && IndexBijection(s.k) && SleepersSafe(s)
  }

  lemma InvReader(s: System)
    requires CallsOk(s) && OneReader(s.k.isReading, s.calls)
    ensures ReaderExclusive(s)
  {
    forall c | c in s.calls ensures IsReader(s.calls, c) == s.calls[c].Reader() {}
    forall c | c in s.calls && s.calls[c].Reader() ensures s.k.isReading {
      assert CallOk(s.k, s.received, c, s.calls[c]);
    }
    if s.k.isReading {
      var c :| IsReader(s.calls, c);
      assert c in s.calls && s.calls[c].Reader();
    }
  }

  lemma InvPending(s: System)
    requires CallsOk(s) && Owned(s.k, s.calls)
    ensures PendingLive(s)
  {
    forall id | id in s.k.pending
      ensures var o := s.k.pending[id].owner;
        && o in s.calls && s.calls[o].id == id && s.calls[o].server == s.k.pending[id].server
        && (s.calls[o].Reader() || (s.calls[o].Follower() && FollowerOk(s.k, s.calls[o])))
    {
      PendingOwner(s, id);
      assert CallOk(s.k, s.received, s.k.pending[id].owner, s.calls[s.k.pending[id].owner]);
    }
  }

  lemma InvIndices(k: Socket)
    requires SocketOk(k)
    ensures IndexBijection(k)
  {
    forall i | i in k.used ensures exists a :: a in k.indices && k.indices[a] == i {
      var a :| Holds(k.indices, a, i);
      assert a in k.indices && k.indices[a] == i;
    }
  }

  lemma InvSleepers(s: System)
    requires DistinctIds(s.calls) && CallsOk(s) && SocketOk(s.k)
    ensures SleepersSafe(s)
  {
    forall c | c in s.calls && s.calls[c].Follower()
      ensures exists i :: i in s.k.points && s.calls[c].point == Some(s.k.points[i]) && i in s.k.used
    {
      assert CallOk(s.k, s.received, c, s.calls[c]);
      var i := s.k.indices[s.calls[c].id];
      assert i in s.k.points && s.calls[c].point == Some(s.k.points[i]) && i in s.k.used;
    }
    forall c, d | c in s.calls && d in s.calls && c != d && s.calls[c].Follower() && s.calls[d].Follower()
      ensures s.calls[c].point != s.calls[d].point
    {
      assert CallOk(s.k, s.received, c, s.calls[c]) && CallOk(s.k, s.received, d, s.calls[d]);
      PointsApart(s.k, s.calls[c], s.calls[d]);
    }
  }

  lemma InvSafe(s: System)
    requires Inv(s)
    ensures Safe(s)
  {
    InvReader(s);
    InvPending(s);
    InvIndices(s.k);
    InvSleepers(s);
  }

  /** Main result: in every state of every run with guarded entries. */
  lemma RunSafe(tr: seq<System>, acts: seq<Action>, i: nat)
    requires IsRun(tr, acts) && EntriesGuarded(tr, acts) && i < |tr|
    ensures Safe(tr[i])
  {
    RunInv(tr, acts, i);
    InvSafe(tr[i]);
  }

  lemma OnlyPermanentPoints(points: map<nat, nat>)
    requires PermanentKept(points) && forall i :: i in points ==> i < PERMANENT
    ensures points == NewSocket().points
  {
    var initial := NewSocket().points;
    assert forall i :: i in initial ==> i < PERMANENT && initial[i] == i;
    assert points.Keys == initial.Keys;
  }

  lemma IdleSocket(k: Socket)
    requires SocketOk(k) && k.pending == map[] && k.indices == map[] && !k.isReading
    ensures k == NewSocket().(created := k.created, signalled := k.signalled)
  {
    assert forall a, j :: !Holds(k.indices, a, j);
    assert k.used == {};
    OnlyPermanentPoints(k.points);
  }

  /** With no call in flight the socket is as new, with only its permanent sync points; the object
      counter and signals nobody consumed are all that a run leaves behind. */
  lemma RunQuiescent(tr: seq<System>, acts: seq<Action>, i: nat)
    requires IsRun(tr, acts) && EntriesGuarded(tr, acts) && i < |tr|
    requires forall c :: c in tr[i].calls ==> !tr[i].calls[c].InFlight()
    ensures tr[i].k == NewSocket().(created := tr[i].k.created, signalled := tr[i].k.signalled)
  {
    RunSafe(tr, acts, i);
    RunInv(tr, acts, i);
    NobodyRegistered(tr[i]);
    IdleSocket(tr[i].k);
  }

  lemma NobodyRegistered(s: System)
    requires ReaderExclusive(s) && Owned(s.k, s.calls)
    requires forall c :: c in s.calls ==> !s.calls[c].InFlight()
    ensures s.k.pending == map[] && s.k.indices == map[] && !s.k.isReading
  {
    assert forall id :: id in s.k.indices ==> exists c :: FollowerWith(s.calls, c, id);
    assert s.k.indices == map[];
    assert s.k.pending == map[];
  }

  // ---- responses ----

  /** A call returns true only with a received packet of its id, from its server, in its result. */
  lemma RunTrueMeansAnswered(tr: seq<System>, acts: seq<Action>, i: nat, c: nat)
    requires IsRun(tr, acts) && EntriesGuarded(tr, acts) && i < |tr|
    requires c in tr[i].calls && tr[i].calls[c].pc == Returned(true)
    ensures var call := tr[i].calls[c];
      && call.pdu.Some? && call.pdu.value in tr[i].received
      && call.pdu.value.id == call.id && call.pdu.value.source == call.server
  {
    RunInv(tr, acts, i);
    assert CallOk(tr[i].k, tr[i].received, c, tr[i].calls[c]);
  }

  /** Each received packet goes to at most one call. */
  lemma RunPacketOnce(tr: seq<System>, acts: seq<Action>, i: nat, c: nat, d: nat)
    requires IsRun(tr, acts) && EntriesGuarded(tr, acts) && i < |tr|
    requires c in tr[i].calls && d in tr[i].calls && tr[i].calls[c].pdu.Some?
        && tr[i].calls[c].pdu == tr[i].calls[d].pdu
    ensures c == d
  {
    RunInv(tr, acts, i);
  }

  /** A call keeps its id and server; a stored response stays, and so does a returned call. */
  ghost predicate Continues(was: Call, now: Call) {
    && now.id == was.id && now.server == was.server
    && (was.pdu.Some? ==> now.pdu == was.pdu)
    && (was.pc.Returned? ==> now == was)
  }

  ghost predicate Extends(s: System, t: System) {
    && s.received <= t.received
    && (forall c :: c in s.calls ==> c in t.calls && Continues(s.calls[c], t.calls[c]))
  }

  lemma GotoExtends(s: System, c: nat, pc: Pc)
    requires c in s.calls && s.calls[c].InFlight()
    ensures Extends(s, Goto(s, c, pc))
  {
  }

  /** Delivery changes the acting call and a registered owner that has no response yet. */
  lemma StoreExtends(s: System, t: System, c: nat, o: nat, p: Packet, pc: Pc)
    requires c in s.calls && s.calls[c].Registered() && o in s.calls && s.calls[o].Registered() && s.calls[o].pdu.None?
    requires c in t.calls && t.calls == s.calls[o := s.calls[o].(pdu := Some(p))][c := t.calls[c]]
        && t.received == s.received
    requires t.calls[c] == (if o == c then s.calls[c].(pdu := Some(p), pc := pc) else s.calls[c].(pc := pc))
    ensures Extends(s, t)
  {
  }

  lemma DeliverExtends(s: System, t: System, c: nat, oldest: Id)
    requires CallsOk(s) && Owned(s.k, s.calls) && c in s.calls && s.calls[c].pc.Holding?
        && t == AfterDeliver(s, c, oldest)
    ensures Extends(s, t)
  {
    var p := s.calls[c].pc.packet;
    if p.id in s.k.pending && p.source == s.k.pending[p.id].server {
      PendingOwner(s, p.id);
      StoreExtends(s, t, c, s.k.pending[p.id].owner, p, t.calls[c].pc);
    } else {
      GotoExtends(s, c, Checking);
    }
  }

  lemma EnterExtends(s: System, c: nat)
    requires At(s, c, Entering)
    ensures Extends(s, AfterEnter(s, c))
  {
  }

  lemma WakeExtends(s: System, c: nat)
    requires At(s, c, Woken)
    ensures Extends(s, AfterWake(s, c))
  {
  }

  lemma StepExtends(s: System, a: Action)
    requires CallsOk(s) && Owned(s.k, s.calls) && Enabled(s, a)
    ensures Extends(s, Next(s, a))
  {
    match a
    case Begin(_, _, _) =>
    case Enters(c) => EnterExtends(s, c);
    case Delivers(c, oldest) => DeliverExtends(s, Next(s, a), c, oldest);
    case Wakes(c) => WakeExtends(s, c);
    case LockTimesOut(c) => GotoExtends(s, c, Returned(false));
    case Sends(c, ok) => GotoExtends(s, c, Next(s, a).calls[c].pc);
    case ReadFails(c) => GotoExtends(s, c, Cleaning);
    case ReadsJunk(c) => GotoExtends(s, c, Checking);
    case Reads(c, _, _) => GotoExtends(s, c, Next(s, a).calls[c].pc);
    case Drops(c) => GotoExtends(s, c, Checking);
    case WaitSucceeds(c) => GotoExtends(s, c, Woken);
    case WaitTimesOut(c) => GotoExtends(s, c, Cleaning);
    case Checks(c, _) => GotoExtends(s, c, Next(s, a).calls[c].pc);
    case Cleans(c, _) => GotoExtends(s, c, Returned(false));
    case Idle =>
  }

  lemma RunStepExtends(tr: seq<System>, acts: seq<Action>, i: nat)
    requires IsRun(tr, acts) && EntriesGuarded(tr, acts) && i < |acts|
    ensures Extends(tr[i], tr[i + 1])
  {
    RunInv(tr, acts, i);
    assert Leads(tr[i], acts[i], tr[i + 1]);
    StepExtends(tr[i], acts[i]);
  }

  lemma ExtendsTransitive(s: System, t: System, u: System)
    requires Extends(s, t) && Extends(t, u)
    ensures Extends(s, u)
  {
  }

  /** Each call receives at most one packet: over a run its result changes at most once. */
  lemma {:induction false} RunStoresOnce(tr: seq<System>, acts: seq<Action>, i: nat, j: nat)
    requires IsRun(tr, acts) && EntriesGuarded(tr, acts) && i <= j < |tr|
    ensures Extends(tr[i], tr[j])
  {
    if i < j {
      RunStoresOnce(tr, acts, i, j - 1);
      RunStepExtends(tr, acts, j - 1);
      ExtendsTransitive(tr[i], tr[j - 1], tr[j]);
    }
  }

  lemma AnsweredWakes(s: System, c: nat)
    requires At(s, c, Waiting) && CallOk(s.k, s.received, c, s.calls[c]) && s.calls[c].pdu.Some?
    ensures Enabled(s, WaitSucceeds(c))
    ensures var w := Next(s, WaitSucceeds(c));
      At(w, c, Woken) && AfterWake(w, c).calls[c] == s.calls[c].(pc := Returned(true))
  {
    var w := Next(s, WaitSucceeds(c));
    assert w.k.pending == s.k.pending && w.calls[c] == s.calls[c].(pc := Woken);
  }

  /** A follower asleep with its response stored can wake, and then returns true with it. */
  lemma RunAnsweredWakes(tr: seq<System>, acts: seq<Action>, i: nat, c: nat)
    requires IsRun(tr, acts) && EntriesGuarded(tr, acts) && i < |tr|
    requires At(tr[i], c, Waiting) && tr[i].calls[c].pdu.Some?
    ensures Enabled(tr[i], WaitSucceeds(c))
    ensures var w := Next(tr[i], WaitSucceeds(c));
      At(w, c, Woken) && AfterWake(w, c).calls[c] == tr[i].calls[c].(pc := Returned(true))
  {
    RunInv(tr, acts, i);
    assert CallsOk(tr[i]);
    AnsweredWakes(tr[i], c);
  }
}
