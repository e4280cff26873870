/** Whether somebody goes on reading when the reader steps down. */
module SocketHandOff {
  import opened SocketModel
  import opened SocketRun
  import opened SocketSafety

  /** Nobody reads, and follower d is signalled. */
  ghost predicate HandedTo(s: System, d: nat) {
    && !s.k.isReading && d in s.calls && s.calls[d].Follower()
    && s.calls[d].point.Some? && s.calls[d].point.value in s.k.signalled
  }

  /** What the scan could test before it picks a follower: no response yet, and not on its way out. */
  predicate StillWaits(s: System, d: nat) {
    d in s.calls && s.calls[d].id in s.k.pending && !s.calls[d].pc.Cleaning?
  }

  /** Some guarded path makes d the reader. */
  ghost predicate CanTakeOver(s: System, d: nat) {
    exists tr: seq<System>, acts: seq<Action> :: IsPath(tr, acts) && EntriesGuarded(tr, acts) && tr[0] == s
        && IsReader(tr[|acts|].calls, d)
  }

  // ---- a signalled follower that still waits ----

  lemma PathOf(tr: seq<System>, acts: seq<Action>, a: Action, t: System) returns (tr': seq<System>, acts': seq<Action>)
    requires IsPath(tr, acts) && EntriesGuarded(tr, acts) && Leads(tr[|acts|], a, t) && !a.Enters?
    ensures IsPath(tr', acts') && EntriesGuarded(tr', acts') && tr'[0] == tr[0] && tr'[|acts'|] == t
  {
    tr', acts' := tr + [t], acts + [a];
    PathGrows(tr, acts, a, t);
  }

  lemma SendLeads(s: System, d: nat)
    requires At(s, d, Sending) && !s.calls[d].shouldRead
    ensures Leads(s, Sends(d, true), Goto(s, d, Waiting))
  {
  }

  lemma CheckLeads(s: System, d: nat)
    requires At(s, d, Checking) && !s.calls[d].shouldRead
    ensures Leads(s, Checks(d, true), Goto(s, d, Waiting))
  {
  }

  lemma FollowerPlaces(s: System, d: nat)
    requires CallsOk(s) && d in s.calls && s.calls[d].Follower()
    ensures s.calls[d].pc in {Sending, Waiting, Woken, Checking, Cleaning}
  {
    assert CallOk(s.k, s.received, d, s.calls[d]);
  }

  /** To the wait, if it is not there. */
  lemma ToWait(s: System, d: nat) returns (tr: seq<System>, acts: seq<Action>)
    requires d in s.calls && !s.calls[d].shouldRead && s.calls[d].pc in {Sending, Waiting, Checking}
    ensures IsPath(tr, acts) && EntriesGuarded(tr, acts) && tr[0] == s && tr[|acts|] == Goto(s, d, Waiting)
  {
    tr, acts := [s], [];
    var t := Goto(s, d, Waiting);
    if s.calls[d].pc == Sending {
      SendLeads(s, d);
      tr, acts := PathOf(tr, acts, Sends(d, true), t);
    } else if s.calls[d].pc == Checking {
      CheckLeads(s, d);
      tr, acts := PathOf(tr, acts, Checks(d, true), t);
    } else {
      assert t.calls == s.calls;
    }
  }

  lemma TakesOverNow(s: System, d: nat)
    requires At(s, d, Woken) && !s.k.isReading && s.calls[d].id in s.k.pending
    ensures Leads(s, Wakes(d), AfterWake(s, d)) && IsReader(AfterWake(s, d).calls, d)
  {
  }

  ghost function AfterWait(s: System, d: nat): System
    requires d in s.calls && s.calls[d].point.Some?
  {
    Goto(s.(k := s.k.(signalled := s.k.signalled - {s.calls[d].point.value})), d, Woken)
  }

  lemma WaitLeads(s: System, d: nat)
    requires At(s, d, Waiting) && s.calls[d].point.Some? && s.calls[d].point.value in s.k.signalled
    ensures Leads(s, WaitSucceeds(d), AfterWait(s, d))
  {
  }

  lemma TakesOver(s: System, d: nat)
    requires Inv(s) && HandedTo(s, d) && StillWaits(s, d)
    ensures CanTakeOver(s, d)
  {
    var tr: seq<System>, acts: seq<Action> := [s], [];
    var t := s;
    FollowerPlaces(s, d);
    if !s.calls[d].pc.Woken? {
      tr, acts := ToWait(s, d);
      WaitLeads(Goto(s, d, Waiting), d);
      t := AfterWait(Goto(s, d, Waiting), d);
      tr, acts := PathOf(tr, acts, WaitSucceeds(d), t);
    }
    TakesOverNow(t, d);
    tr, acts := PathOf(tr, acts, Wakes(d), AfterWake(t, d));
  }

  // ---- any other ----

  /** A call that has its response, or is on its way out, or has returned. */
  predicate Leaving(s: System, d: nat) {
    d in s.calls && (s.calls[d].pdu.Some? || OnItsWayOut(s, d))
  }

  /** A step leaves every call but the acting one where it is. */
  lemma StepKeepsOthers(s: System, a: Action, d: nat)
    requires Enabled(s, a) && d in s.calls && (a.Idle? || a.c != d)
    ensures var t := Next(s, a);
      d in t.calls && t.calls[d].pc == s.calls[d].pc && t.calls[d].shouldRead == s.calls[d].shouldRead
  {
    if a.Delivers? {
      DeliverKeepsOthers(s, a.c, a.oldest, d);
    }
  }

  lemma DeliverKeepsOthers(s: System, c: nat, oldest: Id, d: nat)
    requires c in s.calls && s.calls[c].pc.Holding? && d in s.calls && d != c
    ensures d in AfterDeliver(s, c, oldest).calls
    ensures AfterDeliver(s, c, oldest).calls[d].pc == s.calls[d].pc
    ensures AfterDeliver(s, c, oldest).calls[d].shouldRead == s.calls[d].shouldRead
  {
  }

  predicate OnItsWayOut(s: System, d: nat) {
    d in s.calls && !s.calls[d].shouldRead && (s.calls[d].pc.Cleaning? || s.calls[d].pc.Returned?)
  }

  lemma StaysOnItsWay(s: System, a: Action, d: nat)
    requires Enabled(s, a) && OnItsWayOut(s, d)
    ensures OnItsWayOut(Next(s, a), d)
  {
    if a.Idle? || a.c != d {
      StepKeepsOthers(s, a, d);
    }
  }

  lemma StaysLeaving(s: System, a: Action, d: nat)
    requires CallsOk(s) && Owned(s.k, s.calls) && Enabled(s, a) && Leaving(s, d)
    ensures Leaving(Next(s, a), d)
  {
    if s.calls[d].pdu.Some? {
      StepExtends(s, a);
    } else {
      StaysOnItsWay(s, a, d);
    }
  }

  lemma StepOfPath(tr: seq<System>, acts: seq<Action>, d: nat, i: nat)
    requires IsPath(tr, acts) && EntriesGuarded(tr, acts) && Inv(tr[0]) && i < |acts| && Leaving(tr[i], d)
    ensures Leaving(tr[i + 1], d)
  {
    PathInv(tr, acts, i);
    assert Leads(tr[i], acts[i], tr[i + 1]);
    StaysLeaving(tr[i], acts[i], d);
  }

  lemma LeavingForGood(tr: seq<System>, acts: seq<Action>, d: nat)
    requires IsPath(tr, acts) && EntriesGuarded(tr, acts) && Inv(tr[0]) && Leaving(tr[0], d)
    ensures Leaving(tr[|acts|], d)
  {
    for i := 0 to |acts|
      invariant Leaving(tr[i], d)
    {
      StepOfPath(tr, acts, d, i);
    }
  }

  lemma LeavingNeverReads(s: System, d: nat)
    requires Inv(s) && Leaving(s, d)
    ensures !CanTakeOver(s, d)
  {
    forall tr: seq<System>, acts: seq<Action> | IsPath(tr, acts) && EntriesGuarded(tr, acts) && tr[0] == s
      ensures !IsReader(tr[|acts|].calls, d)
    {
      LeavingForGood(tr, acts, d);
      PathInv(tr, acts, |acts|);
      assert CallOk(tr[|acts|].k, tr[|acts|].received, d, tr[|acts|].calls[d]);
    }
  }

  /** Main result: a hand-off survives, in that the follower signalled can still become the reader, if and
      only if that follower still waits for its response. */
  lemma HandOffExact(s: System, d: nat)
    requires Inv(s) && HandedTo(s, d)
    ensures CanTakeOver(s, d) <==> StillWaits(s, d)
  {
    if StillWaits(s, d) {
      TakesOver(s, d);
    } else {
      assert CallOk(s.k, s.received, d, s.calls[d]);
      LeavingNeverReads(s, d);
    }
  }

  // ---- whom the reader signals when it steps down ----

  /** Steps in ring order from the oldest id to another. */
  function Age(oldest: Id, j: Id): nat {
    (j - oldest) % 256
  }

  lemma GapIsAge(oldest: Id, j: Id)
    ensures Gap(j, Pred(oldest)) == 255 - Age(oldest, j)
  {
  }

  lemma SuccGap(j: Id, last: Id, i: Id)
    requires j != last
    ensures Gap(Succ(j), last) == Gap(j, last) - 1
    ensures Gap(i, last) <= Gap(j, last) && i != j ==> Gap(i, last) <= Gap(Succ(j), last)
  {
  }

  /** The scan finds the first id from j on that holds a sync point, up to `last`. */
  lemma {:induction false} NextWaiterFirst(k: Socket, j: Id, last: Id)
    requires forall i :: i in k.indices ==> k.indices[i] in k.points
    ensures match NextWaiter(k, j, last)
      case None => forall i :: i in k.indices ==> Gap(i, last) > Gap(j, last)
      case Some(w) =>
        && w in k.indices && Gap(w, last) <= Gap(j, last)
        && (forall i :: i in k.indices && Gap(i, last) <= Gap(j, last) ==> Gap(i, last) <= Gap(w, last))
    decreases Gap(j, last)
  {
    if j !in k.indices && j != last {
      NextWaiterFirst(k, Succ(j), last);
      forall i | i in k.indices && Gap(i, last) <= Gap(j, last) ensures Gap(i, last) <= Gap(Succ(j), last) {
        SuccGap(j, last, i);
      }
      SuccGap(j, last, j);
    } else if j == last {
      assert forall i: Id :: Gap(i, last) <= 0 ==> i == last;
    }
  }

  /** The id that holds a sync point with the fewest steps from the oldest one. */
  ghost predicate OldestHolder(k: Socket, oldest: Id, j: Id) {
    j in k.indices && forall i :: i in k.indices ==> Age(oldest, j) <= Age(oldest, i)
  }

  lemma OldestHolderUnique(k: Socket, oldest: Id, i: Id, j: Id)
    requires OldestHolder(k, oldest, i) && OldestHolder(k, oldest, j)
    ensures i == j
  {
  }

  /** The reader that steps down signals the sync point of the oldest id that holds one, and nobody when no
      id does; nothing else changes. */
  lemma HandOffSignals(k: Socket, oldest: Id)
    requires SocketOk(k)
    ensures k.indices == map[] ==> HandOff(k, oldest) == k.(isReading := false)
    ensures k.indices != map[] ==> exists j :: OldestHolder(k, oldest, j)
    ensures forall j :: OldestHolder(k, oldest, j) ==>
      k.indices[j] in k.points
      && HandOff(k, oldest) == k.(isReading := false, signalled := k.signalled + {k.points[k.indices[j]]})
  {
    var r := k.(isReading := false);
    NextWaiterFirst(r, oldest, Pred(oldest));
    forall i: Id ensures Gap(i, Pred(oldest)) == 255 - Age(oldest, i) {
      GapIsAge(oldest, i);
    }
    match NextWaiter(r, oldest, Pred(oldest))
    case None => assert k.indices == map[];
    case Some(w) =>
      assert OldestHolder(k, oldest, w) && |k.indices| > 0;
      forall j | OldestHolder(k, oldest, j) ensures j == w {
        OldestHolderUnique(k, oldest, w, j);
      }
  }

  lemma FollowerOf(s: System, j: Id) returns (d: nat)
    requires Owned(s.k, s.calls) && CallsOk(s) && j in s.k.indices
    ensures FollowerWith(s.calls, d, j) && FollowerOk(s.k, s.calls[d])
  {
    d :| FollowerWith(s.calls, d, j);
    assert CallOk(s.k, s.received, d, s.calls[d]);
  }

  /** The follower whose id is the fewest steps from the oldest one. */
  ghost predicate OldestFollower(calls: map<nat, Call>, oldest: Id, d: nat) {
    && d in calls && calls[d].Follower()
    && forall e :: e in calls && calls[e].Follower() ==>
        Age(oldest, calls[d].id) <= Age(oldest, calls[e].id)
  }

  lemma HolderOfFollower(s: System, oldest: Id, d: nat)
    requires Owned(s.k, s.calls) && CallsOk(s) && OldestFollower(s.calls, oldest, d)
    ensures OldestHolder(s.k, oldest, s.calls[d].id) && FollowerOk(s.k, s.calls[d])
  {
    assert CallOk(s.k, s.received, d, s.calls[d]);
    HoldersOlder(s.k, s.calls, oldest, d);
  }

  lemma HoldersOlder(k: Socket, calls: map<nat, Call>, oldest: Id, d: nat)
    requires Owned(k, calls) && OldestFollower(calls, oldest, d)
    ensures forall i :: i in k.indices ==> Age(oldest, calls[d].id) <= Age(oldest, i)
  {
    forall i | i in k.indices ensures Age(oldest, calls[d].id) <= Age(oldest, i) {
      var e :| FollowerWith(calls, e, i);
    }
  }

  lemma FollowerOfHolder(s: System, oldest: Id, j: Id) returns (d: nat)
    requires Owned(s.k, s.calls) && CallsOk(s) && OldestHolder(s.k, oldest, j)
    ensures OldestFollower(s.calls, oldest, d)
  {
    d := FollowerOf(s, j);
    forall e | e in s.calls && s.calls[e].Follower() ensures s.calls[e].id in s.k.indices {
      assert CallOk(s.k, s.received, e, s.calls[e]);
    }
  }

  lemma NoFollower(s: System)
    requires Owned(s.k, s.calls) && forall e :: e in s.calls ==> !s.calls[e].Follower()
    ensures s.k.indices == map[]
  {
    forall j | j in s.k.indices ensures exists e :: FollowerWith(s.calls, e, j) {
    }
    assert forall j: Id :: j !in s.k.indices;
  }

  lemma SomeFollower(s: System, e: nat)
    requires CallsOk(s) && e in s.calls && s.calls[e].Follower()
    ensures s.calls[e].id in s.k.indices
  {
    assert CallOk(s.k, s.received, e, s.calls[e]);
  }

  /** The step makes c, which was reading, stop. */
  ghost predicate StepsDown(s: System, a: Action, t: System, c: nat) {
    Leads(s, a, t) && IsReader(s.calls, c) && !IsReader(t.calls, c)
  }

  /** The socket is that of a hand-off without the reader's request, and no other call has changed. */
  ghost predicate SteppedDown(s: System, t: System, c: nat, oldest: Id) {
    && c in s.calls && c in t.calls
    && t.k == HandOff(s.k.(pending := s.k.pending - {s.calls[c].id}), oldest)
    && t.calls == s.calls[c := t.calls[c]]
  }

  lemma DeliverStepsDown(s: System, c: nat, oldest: Id)
    requires c in s.calls && s.calls[c].pc.Holding? && CallOk(s.k, s.received, c, s.calls[c])
    requires !IsReader(AfterDeliver(s, c, oldest).calls, c)
    ensures SteppedDown(s, AfterDeliver(s, c, oldest), c, oldest)
  {
  }

  lemma CleanStepsDown(s: System, t: System, c: nat, oldest: Id)
    requires IsReader(s.calls, c) && CallOk(s.k, s.received, c, s.calls[c]) && Leads(s, Cleans(c, oldest), t)
    ensures SteppedDown(s, t, c, oldest)
  {
  }

  /** No other step makes a reader stop. */
  lemma OnlyThese(s: System, a: Action, t: System, c: nat)
    requires Leads(s, a, t) && IsReader(s.calls, c) && !((a.Delivers? || a.Cleans?) && a.c == c)
    requires CallOk(s.k, s.received, c, s.calls[c])
    ensures IsReader(t.calls, c)
  {
    if a.Idle? || a.c != c {
      StepKeepsOthers(s, a, c);
    }
  }

  lemma StepDownIs(s: System, a: Action, t: System, c: nat)
    requires CallsOk(s) && StepsDown(s, a, t, c)
    ensures (a.Delivers? || a.Cleans?) && SteppedDown(s, t, c, a.oldest)
  {
    assert CallOk(s.k, s.received, c, s.calls[c]);
    match a
    case Delivers(d, oldest) => if d == c { DeliverStepsDown(s, c, oldest); } else { OnlyThese(s, a, t, c); }
    case Cleans(d, oldest) => if d == c { CleanStepsDown(s, t, c, oldest); } else { OnlyThese(s, a, t, c); }
    case _ => OnlyThese(s, a, t, c);
  }

  lemma HandedOver(s: System, t: System, c: nat, oldest: Id, d: nat)
    requires Inv(s) && IsReader(s.calls, c) && SteppedDown(s, t, c, oldest) && OldestFollower(s.calls, oldest, d)
    ensures HandedTo(t, d) && t.k.signalled == s.k.signalled + {s.calls[d].point.value}
  {
    HolderOfFollower(s, oldest, d);
    var r := s.k.(pending := s.k.pending - {s.calls[c].id});
    HandOffSignals(r, oldest);
    assert OldestHolder(r, oldest, s.calls[d].id);
  }

  /** Main result: whenever a reader steps down, nobody reads, the follower with the oldest id, if there
      is any follower, is signalled, and no other signal is added. */
  lemma PickedIsHandedTo(s: System, a: Action, t: System, c: nat)
    requires Inv(s) && StepsDown(s, a, t, c)
    ensures (a.Delivers? || a.Cleans?) && !t.k.isReading
    ensures (forall e :: e in s.calls ==> !s.calls[e].Follower()) ==> t.k.signalled == s.k.signalled
    ensures (exists e :: e in s.calls && s.calls[e].Follower()) ==> exists d :: OldestFollower(s.calls, a.oldest, d)
    ensures forall d :: OldestFollower(s.calls, a.oldest, d) ==>
      HandedTo(t, d) && t.k.signalled == s.k.signalled + {s.calls[d].point.value}
  {
    StepDownIs(s, a, t, c);
    var r := s.k.(pending := s.k.pending - {s.calls[c].id});
    HandOffSignals(r, a.oldest);
    if e :| e in s.calls && s.calls[e].Follower() {
      SomeFollower(s, e);
      var j :| OldestHolder(r, a.oldest, j);
      var d := FollowerOfHolder(s, a.oldest, j);
    } else {
      NoFollower(s);
    }
    forall d | OldestFollower(s.calls, a.oldest, d)
      ensures HandedTo(t, d) && t.k.signalled == s.k.signalled + {s.calls[d].point.value}
    {
      HandedOver(s, t, c, a.oldest, d);
    }
  }
}
