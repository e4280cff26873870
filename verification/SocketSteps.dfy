/** What the critical sections mean for the calls: who is refused, who gets a response, who is woken, and
    who goes on waiting. */
module SocketSteps {
  import opened Options
  import opened SocketModel
  import opened SocketRun
  import opened SocketSafety
  import opened SocketEntry
  import opened SocketHandOff

  // ---- entry ----

  /** A registered call with this id still waits for its response. */
  ghost predicate Awaited(s: System, id: Id) {
    exists d :: d in s.calls && s.calls[d].Registered() && s.calls[d].id == id && s.calls[d].pdu.None?
  }

  lemma PendingIsAwaited(s: System, id: Id)
    requires CallsOk(s) && Owned(s.k, s.calls)
    ensures id in s.k.pending <==> Awaited(s, id)
  {
    if id in s.k.pending {
      PendingOwner(s, id);
      assert s.calls[s.k.pending[id].owner].pdu.None?;
    }
    if Awaited(s, id) {
      var d :| d in s.calls && s.calls[d].Registered() && s.calls[d].id == id && s.calls[d].pdu.None?;
      assert CallOk(s.k, s.received, d, s.calls[d]);
    }
  }

  lemma ReaderEnters(k: Socket, owner: nat, id: Id, server: Endpoint)
    requires !k.isReading && id !in k.pending
    ensures Enter(k, owner, id, server) == (k.(isReading := true, pending := k.pending[id := Request(owner, server)]),
                                            AsReader)
  {
  }

  lemma FollowerEnters(k: Socket, owner: nat, id: Id, server: Endpoint)
    requires SocketOk(k) && k.isReading && id !in k.pending && id !in k.indices
    ensures var (t, entry) := Enter(k, owner, id, server);
      && t.pending == k.pending[id := Request(owner, server)]
      && id in t.indices && t.indices[id] in t.points && t.indices[id] !in k.used
      && entry == AsFollower(t.points[t.indices[id]])
  {
    FreeBit(k.indices, k.used, id);
    AllocShape(k, Alloc(k).0, Alloc(k).1);
  }

  /** What an entry that is not refused makes of the call. */
  ghost predicate EntersWith(s: System, t: System, c: nat, x: Call) {
    && c in s.calls && t.calls == s.calls[c := x] && t.k.pending == s.k.pending[x.id := Request(c, x.server)]
    && x == s.calls[c].(pc := Sending, shouldRead := !s.k.isReading, point := x.point)
    && (x.shouldRead || (FollowerOk(t.k, x) && t.k.indices[x.id] !in s.k.used))
  }

  lemma EntersAs(s: System, c: nat)
    requires SocketOk(s.k) && At(s, c, Entering) && EntryOk(s, c) && s.calls[c].id !in s.k.pending
    requires !s.calls[c].shouldRead
    ensures EntersWith(s, AfterEnter(s, c), c, AfterEnter(s, c).calls[c])
  {
    if s.k.isReading {
      FollowerEnters(s.k, c, s.calls[c].id, s.calls[c].server);
    } else {
      ReaderEnters(s.k, c, s.calls[c].id, s.calls[c].server);
    }
  }

  lemma EntersAwaited(s: System, c: nat)
    requires At(s, c, Entering) && s.calls[c].id in s.k.pending
    ensures AfterEnter(s, c) == Goto(s, c, Returned(false))
  {
  }

  /** The call is registered and its response awaited: as the reader if nobody reads, and else as a follower
      with a sync point that was free. */
  ghost predicate Registers(s: System, t: System, c: nat) {
    && c in t.calls && t.calls[c].pc == Sending && Awaited(t, t.calls[c].id)
    && (t.calls[c].Reader() <==> forall d :: d in s.calls ==> !s.calls[d].Reader())
    && (t.calls[c].Follower() ==> FollowerOk(t.k, t.calls[c]) && t.k.indices[t.calls[c].id] !in s.k.used)
  }

  lemma EntersRegisters(s: System, t: System, c: nat, x: Call)
    requires ReaderExclusive(s) && EntersWith(s, t, c, x) && s.calls[c].pdu.None?
    ensures Registers(s, t, c)
  {
    assert t.calls[c].Registered() && t.calls[c].pdu.None?;
  }

  /** An entry that is guarded is refused, and then changes nothing else, if and only if a call with its id
      still waits for a response: there is always a sync point for it. Otherwise it registers. */
  lemma EntryOutcome(s: System, c: nat)
    requires Inv(s) && At(s, c, Entering) && EntryOk(s, c)
    ensures var t := AfterEnter(s, c);
      && c in t.calls && t.calls == s.calls[c := t.calls[c]]
      && (if Awaited(s, s.calls[c].id) then t == Goto(s, c, Returned(false)) else Registers(s, t, c))
  {
    PendingIsAwaited(s, s.calls[c].id);
    assert CallOk(s.k, s.received, c, s.calls[c]);
    if s.calls[c].id in s.k.pending {
      EntersAwaited(s, c);
    } else {
      InvReader(s);
      EntersAs(s, c);
      EntersRegisters(s, AfterEnter(s, c), c, AfterEnter(s, c).calls[c]);
    }
  }

  // ---- delivery ----

  /** Call d waits for packet p: its id, its server, and no response yet. */
  ghost predicate WaitsFor(s: System, d: nat, p: Packet) {
    && d in s.calls && s.calls[d].Registered() && s.calls[d].pdu.None?
    && s.calls[d].id == p.id && s.calls[d].server == p.source
  }

  lemma WaitsForIs(s: System, d: nat, p: Packet)
    requires CallsOk(s) && Owned(s.k, s.calls)
    ensures WaitsFor(s, d, p) <==> p.id in s.k.pending && s.k.pending[p.id] == Request(d, p.source)
  {
    if WaitsFor(s, d, p) {
      assert CallOk(s.k, s.received, d, s.calls[d]);
    }
    if p.id in s.k.pending {
      PendingOwner(s, p.id);
    }
  }

  lemma Unmatched(s: System, c: nat, oldest: Id)
    requires c in s.calls && s.calls[c].pc.Holding?
    requires var p := s.calls[c].pc.packet; p.id !in s.k.pending || p.source != s.k.pending[p.id].server
    ensures AfterDeliver(s, c, oldest) == Goto(s, c, Checking)
  {
  }

  lemma ReadsOn(s: System, c: nat)
    requires At(s, c, Checking) && s.calls[c].shouldRead
    ensures Leads(s, Checks(c, true), Goto(s, c, Reading))
  {
  }

  /** A packet that nobody waits for changes nothing, and its reader goes on reading while there is time. */
  lemma StrayIgnored(s: System, c: nat, oldest: Id)
    requires Inv(s) && c in s.calls && s.calls[c].pc.Holding?
    requires forall d :: !WaitsFor(s, d, s.calls[c].pc.packet)
    ensures var t := AfterDeliver(s, c, oldest);
      t == Goto(s, c, Checking) && Leads(t, Checks(c, true), Goto(t, c, Reading))
  {
    var p := s.calls[c].pc.packet;
    assert CallOk(s.k, s.received, c, s.calls[c]);
    if p.id in s.k.pending && p.source == s.k.pending[p.id].server {
      WaitsForIs(s, s.k.pending[p.id].owner, p);
      assert !WaitsFor(s, s.k.pending[p.id].owner, p);
    }
    Unmatched(s, c, oldest);
    ReadsOn(Goto(s, c, Checking), c);
  }

  /** A packet that a call waits for becomes that call's response, and changes no other call. The reader
      returns true with its own; any other call is signalled, and the reader goes on reading. */
  lemma DeliveryOutcome(s: System, c: nat, d: nat, oldest: Id)
    requires Inv(s) && c in s.calls && s.calls[c].pc.Holding? && WaitsFor(s, d, s.calls[c].pc.packet)
    ensures var p := s.calls[c].pc.packet; var t := AfterDeliver(s, c, oldest);
      && t.received == s.received && t.calls.Keys == s.calls.Keys
      && t.k.pending == s.k.pending - {p.id}
      && (d == c ==> t.calls == s.calls[c := s.calls[c].(pc := Returned(true), pdu := Some(p))])
      && (d != c ==>
            && t.calls == s.calls[d := s.calls[d].(pdu := Some(p))][c := s.calls[c].(pc := Checking)]
            && s.calls[d].point.Some?
            && t.k == s.k.(pending := s.k.pending - {p.id}, signalled := s.k.signalled + {s.calls[d].point.value}))
  {
    var p := s.calls[c].pc.packet;
    assert CallOk(s.k, s.received, c, s.calls[c]);
    WaitsForIs(s, d, p);
    if d == c {
      DeliverOwnShape(s, c, oldest);
    } else {
      assert p.id != s.calls[c].id by {
        assert DistinctIds(s.calls);
      }
      RouteTarget(s, c, p.id);
      DeliverOtherShape(s, c, oldest, d, p);
    }
  }

  // ---- waking and leaving ----

  lemma ReleaseUsed(k: Socket, id: Id)
    requires id in k.indices && k.indices[id] < SLOTS
    ensures Release(k, id).used == k.used - {k.indices[id]}
  {
  }

  /** The sync point of the call's id is free again. */
  ghost predicate GivenBack(k: Socket, l: Socket, id: Id) {
    id in k.indices && l.indices == k.indices - {id} && l.used == k.used - {k.indices[id]}
  }

  lemma WakeOf(k: Socket, id: Id)
    requires id in k.indices && k.indices[id] < SLOTS
    ensures var (t, w) := Wake(k, id);
      && t.pending == k.pending
      && (id !in k.pending ==> w == Answered && t.isReading == k.isReading && GivenBack(k, t, id))
      && (id in k.pending && !k.isReading ==> w == TakesOver && t.isReading && GivenBack(k, t, id))
      && (id in k.pending && k.isReading ==> w == KeepsWaiting && t == k)
  {
    ReleaseFrame(k, id);
    ReleaseUsed(k, id);
    ReleaseFrame(k.(isReading := true), id);
    ReleaseUsed(k.(isReading := true), id);
  }

  /** What the invariant says of a follower's id, and of a reader's. */
  lemma RegisteredFacts(s: System, c: nat)
    requires CallsOk(s) && SocketOk(s.k) && c in s.calls && s.calls[c].Registered()
    ensures s.calls[c].id in s.k.pending <==> s.calls[c].pdu.None?
    ensures s.calls[c].shouldRead ==> s.k.isReading && s.calls[c].id !in s.k.indices
    ensures !s.calls[c].shouldRead ==> s.calls[c].id in s.k.indices && s.k.indices[s.calls[c].id] < SLOTS
    ensures s.calls[c].pc.Woken? ==> !s.calls[c].shouldRead
  {
    assert CallOk(s.k, s.received, c, s.calls[c]);
  }

  lemma WakesIs(s: System, c: nat)
    requires c in s.calls
    ensures var t := AfterWake(s, c); var (k, w) := Wake(s.k, s.calls[c].id);
      && t.k == k && t.received == s.received
      && t.calls == s.calls[c := match w
           case Answered => s.calls[c].(pc := Returned(true))
           case TakesOver => s.calls[c].(pc := Checking, shouldRead := true, point := None)
           case KeepsWaiting => s.calls[c].(pc := Checking)]
  {
  }

  /** A follower that wakes returns true if it has its response; else it becomes the reader if nobody reads,
      and goes back to the loop with everything as it was if somebody does. */
  lemma WakeOutcome(s: System, c: nat)
    requires Inv(s) && At(s, c, Woken)
    ensures var t := AfterWake(s, c); var was := s.calls[c];
      && c in t.calls && t.calls == s.calls[c := t.calls[c]] && t.k.pending == s.k.pending
      && (was.pdu.Some? ==> t.calls[c] == was.(pc := Returned(true)) && t.k.isReading == s.k.isReading)
      && (was.pdu.None? && s.k.isReading ==> t == Goto(s, c, Checking))
      && (was.pdu.None? && !s.k.isReading ==>
            && t.calls[c] == was.(pc := Checking, shouldRead := true, point := None) && t.k.isReading)
      && (t == Goto(s, c, Checking) || GivenBack(s.k, t.k, was.id))
  {
    RegisteredFacts(s, c);
    WakesIs(s, c);
    WakeOf(s.k, s.calls[c].id);
  }

  lemma CleanupOfReader(k: Socket, id: Id, oldest: Id)
    requires k.isReading && id !in k.indices
    ensures var t := Cleanup(k, id, true, oldest);
      t.pending == k.pending - {id} && !t.isReading && t.indices == k.indices && t.used == k.used
  {
    HandOffFrame(k.(pending := k.pending - {id}), oldest);
  }

  lemma CleanupOfFollower(k: Socket, id: Id, oldest: Id)
    requires id in k.indices && k.indices[id] < SLOTS
    ensures var t := Cleanup(k, id, false, oldest);
      t.pending == k.pending - {id} && t.isReading == k.isReading && GivenBack(k, t, id)
  {
    ReleaseFrame(k.(pending := k.pending - {id}), id);
    ReleaseUsed(k.(pending := k.pending - {id}), id);
  }

  lemma CleansIs(s: System, t: System, c: nat, oldest: Id)
    requires Leads(s, Cleans(c, oldest), t)
    ensures At(s, c, Cleaning) && t.calls == s.calls[c := s.calls[c].(pc := Returned(false))]
    ensures t.k == Cleanup(s.k, s.calls[c].id, s.calls[c].shouldRead, oldest)
  {
  }

  /** A call that cleans up returns false, its response is no longer awaited and its sync point is free;
      no other call changes. */
  lemma CleaningOutcome(s: System, t: System, c: nat, oldest: Id)
    requires Inv(s) && Leads(s, Cleans(c, oldest), t)
    ensures At(s, c, Cleaning) && t.calls == s.calls[c := s.calls[c].(pc := Returned(false))]
    ensures t.k.pending == s.k.pending - {s.calls[c].id}
    ensures s.calls[c].Follower() ==> t.k.isReading == s.k.isReading && GivenBack(s.k, t.k, s.calls[c].id)
    ensures s.calls[c].Reader() ==> !t.k.isReading && t.k.indices == s.k.indices && t.k.used == s.k.used
  {
    CleansIs(s, t, c, oldest);
    RegisteredFacts(s, c);
    if s.calls[c].shouldRead {
      CleanupOfReader(s.k, s.calls[c].id, oldest);
    } else {
      CleanupOfFollower(s.k, s.calls[c].id, oldest);
    }
  }

  // ---- the loop ----

  lemma DeliveryKeepsLoop(s: System, c: nat, oldest: Id)
    requires Inv(s) && c in s.calls && s.calls[c].pc.Holding?
    ensures At(AfterDeliver(s, c, oldest), c, Checking) || At(AfterDeliver(s, c, oldest), c, Returned(true))
  {
    if d :| WaitsFor(s, d, s.calls[c].pc.packet) {
      DeliveryOutcome(s, c, d, oldest);
    } else {
      StrayIgnored(s, c, oldest);
    }
  }

  lemma OtherStepsKeepLoop(s: System, a: Action, t: System, c: nat)
    requires Leads(s, a, t) && !a.Idle? && a.c == c && c in s.calls && !a.Delivers? && !a.Wakes?
    ensures c in t.calls
    ensures t.calls[c].pc.Cleaning? <==> a in {Sends(c, false), ReadFails(c), WaitTimesOut(c), Checks(c, false)}
  {
  }

  /** A call leaves the loop for the cleanup if and only if its write, its read or its wait fails or its
      time is over. */
  lemma LoopEnds(s: System, a: Action, t: System, c: nat)
    requires Inv(s) && Leads(s, a, t) && c in s.calls && !s.calls[c].pc.Cleaning?
    ensures c in t.calls
    ensures t.calls[c].pc.Cleaning? <==> a in {Sends(c, false), ReadFails(c), WaitTimesOut(c), Checks(c, false)}
  {
    if a.Idle? || a.c != c {
      StepKeepsOthers(s, a, c);
    } else if a.Delivers? {
      DeliveryKeepsLoop(s, c, a.oldest);
    } else if a.Wakes? {
      WakesIs(s, c);
    } else {
      OtherStepsKeepLoop(s, a, t, c);
    }
  }
}
