/** Any number of MakeRequest calls interleaved on one socket.

    A call runs its critical sections atomically and everything else step by step. Which call
    moves next, what arrives, and which writes, reads, waits and locks fail is open. */
module SocketRun {
  import opened Options
  import opened SocketModel

  /** Where a call stands. `Holding` has read a packet and waits for the mutex; `Checking` is at the
      loop condition; `Cleaning` has left the loop. */
  datatype Pc =
    | Entering | Sending | Reading | Holding(packet: Packet) | Waiting | Woken | Checking | Cleaning
    | Returned(ok: bool)

  datatype Call = Call(id: Id, server: Endpoint, pc: Pc, shouldRead: bool, point: Option<nat>, pdu: Option<Packet>)
  {
    predicate InFlight() { !pc.Returned? }
    predicate Registered() { !pc.Returned? && !pc.Entering? }
    predicate Reader() { Registered() && shouldRead }
    predicate Follower() { Registered() && !shouldRead }
  }

  datatype System = System(k: Socket, calls: map<nat, Call>, received: seq<Packet>)

  datatype Action =
    | Begin(c: nat, id: Id, server: Endpoint)
    | LockTimesOut(c: nat)               // entry mutex
    | Enters(c: nat)
    | Sends(c: nat, ok: bool)
    | ReadFails(c: nat)
    | ReadsJunk(c: nat)                  // too short or not a valid packet
    | Reads(c: nat, id: Id, source: Endpoint)
    | Drops(c: nat)                      // mutex timed out with a packet in hand
    | Delivers(c: nat, oldest: Id)
    | WaitSucceeds(c: nat)
    | WaitTimesOut(c: nat)
    | Wakes(c: nat)
    | Checks(c: nat, again: bool)        // loop condition on the clock
    | Cleans(c: nat, oldest: Id)
    | Idle                               // time passes

  function Init(): System {
    System(NewSocket(), map[], [])
  }

  predicate At(s: System, c: nat, pc: Pc) {
    c in s.calls && s.calls[c].pc == pc
  }

  predicate Enabled(s: System, a: Action) {
    match a
    case Begin(c, id, _) => c !in s.calls
    case LockTimesOut(c) => At(s, c, Entering)
    case Enters(c) => At(s, c, Entering)
    case Sends(c, _) => At(s, c, Sending)
    case ReadFails(c) => At(s, c, Reading)
    case ReadsJunk(c) => At(s, c, Reading)
    case Reads(c, _, _) => At(s, c, Reading)
    case Drops(c) => c in s.calls && s.calls[c].pc.Holding?
    case Delivers(c, _) => c in s.calls && s.calls[c].pc.Holding?
    case WaitSucceeds(c) => At(s, c, Waiting) && s.calls[c].point.Some? && s.calls[c].point.value in s.k.signalled
    case WaitTimesOut(c) => At(s, c, Waiting)
    case Wakes(c) => At(s, c, Woken)
    case Checks(c, _) => At(s, c, Checking)
    case Cleans(c, _) => At(s, c, Cleaning)
    case Idle => true
  }

  function Goto(s: System, c: nat, pc: Pc): System
    requires c in s.calls
  {
    s.(calls := s.calls[c := s.calls[c].(pc := pc)])
  }

  /** The body of the loop starts with a read or with a wait. */
  function LoopEntry(call: Call): Pc {
    if call.shouldRead then Reading else Waiting
  }

  /** The packet is stored through the request's result reference, in whichever call that belongs to. */
  function Store(calls: map<nat, Call>, owner: nat, p: Packet): map<nat, Call> {
    if owner in calls then calls[owner := calls[owner].(pdu := Some(p))] else calls
  }

  ghost function AfterEnter(s: System, c: nat): System
    requires c in s.calls
  {
    var call := s.calls[c];
    var (k, entry) := Enter(s.k, c, call.id, call.server);
    var moved := match entry
      case Refused => call.(pc := Returned(false))
      case AsReader => call.(pc := Sending, shouldRead := true)
      case AsFollower(o) => call.(pc := Sending, point := Some(o));
    s.(k := k, calls := s.calls[c := moved])
  }

  function AfterDeliver(s: System, c: nat, oldest: Id): System
    requires c in s.calls && s.calls[c].pc.Holding?
  {
    var p := s.calls[c].pc.packet;
    var (k, routing) := Deliver(s.k, s.calls[c].id, p, oldest);
    match routing
    case Dropped => Goto(s, c, Checking)
    case Own(o) => Goto(s.(k := k, calls := Store(s.calls, o, p)), c, Returned(true))
    case Other(o) => Goto(s.(k := k, calls := Store(s.calls, o, p)), c, Checking)
    case Stray(o) => Goto(s.(k := k, calls := Store(s.calls, o, p)), c, Cleaning)
  }

  function AfterWake(s: System, c: nat): System
    requires c in s.calls
  {
    var call := s.calls[c];
    var (k, waking) := Wake(s.k, call.id);
    var moved := match waking
      case Answered => call.(pc := Returned(true))
      case TakesOver => call.(pc := Checking, shouldRead := true, point := None)
      case KeepsWaiting => call.(pc := Checking);
    s.(k := k, calls := s.calls[c := moved])
  }

  ghost function Next(s: System, a: Action): System
    requires Enabled(s, a)
  {
    match a
    case Begin(c, id, server) => s.(calls := s.calls[c := Call(id, server, Entering, false, None, None)])
    case LockTimesOut(c) => Goto(s, c, Returned(false))
    case Enters(c) => AfterEnter(s, c)
    case Sends(c, ok) => Goto(s, c, if ok then LoopEntry(s.calls[c]) else Cleaning)
    case ReadFails(c) => Goto(s, c, Cleaning)
    case ReadsJunk(c) => Goto(s, c, Checking)
    case Reads(c, id, source) =>
      var p := Packet(|s.received|, id, source);
      Goto(s, c, Holding(p)).(received := s.received + [p])
    case Drops(c) => Goto(s, c, Checking)
    case Delivers(c, oldest) => AfterDeliver(s, c, oldest)
    case WaitSucceeds(c) =>
      Goto(s.(k := s.k.(signalled := s.k.signalled - {s.calls[c].point.value})), c, Woken)
    case WaitTimesOut(c) => Goto(s, c, Cleaning)
    case Wakes(c) => AfterWake(s, c)
    case Checks(c, again) => Goto(s, c, if again then LoopEntry(s.calls[c]) else Cleaning)
    case Cleans(c, oldest) =>
      Goto(s.(k := Cleanup(s.k, s.calls[c].id, s.calls[c].shouldRead, oldest)), c, Returned(false))
    case Idle => s
  }

  // ---- the invariant ----

  /** No two registered calls use the same id. */
  ghost predicate DistinctIds(calls: map<nat, Call>) {
    forall c, d ::
      c in calls && d in calls && calls[c].Registered() && calls[d].Registered() && calls[c].id == calls[d].id ==>
        c == d
  }

  /** The permanent sync points always exist, the others while in use; no object is at two indices. */
  ghost predicate PointsOk(points: map<nat, nat>, used: set<nat>, created: nat) {
    && (forall i :: i in used ==> i < SLOTS && i in points)
    && (forall i :: i in points ==> (i < PERMANENT || i in used) && points[i] < created)
    && (forall i, j :: i in points && j in points && i != j ==> points[i] != points[j])
  }

  ghost predicate PermanentKept(points: map<nat, nat>) {
    forall i: nat :: i < PERMANENT ==> i in points && points[i] == i
  }

  ghost predicate Holds(indices: map<Id, nat>, id: Id, i: nat) {
    id in indices && indices[id] == i
  }

  /** The map from ids to sync points is injective and its image is the set of bits. */
  ghost predicate IndicesOk(indices: map<Id, nat>, used: set<nat>) {
    && (forall a :: a in indices ==> indices[a] in used)
    && (forall i :: i in used ==> exists a :: Holds(indices, a, i))
    && (forall a, b :: a in indices && b in indices && a != b ==> indices[a] != indices[b])
  }

  ghost predicate SocketOk(k: Socket) {
    && PointsOk(k.points, k.used, k.created)
    && PermanentKept(k.points)
    && IndicesOk(k.indices, k.used)
    && k.nested == |k.indices|
  }

  ghost predicate FollowerOk(k: Socket, call: Call) {
    && call.id in k.indices
    && k.indices[call.id] in k.points
    && call.point == Some(k.points[k.indices[call.id]])
  }

  /** The packet is the one received as number `serial`. */
  ghost predicate Genuine(received: seq<Packet>, p: Packet) {
    p.serial < |received| && received[p.serial] == p
  }

  ghost predicate CallOk(k: Socket, received: seq<Packet>, c: nat, call: Call) {
    && (call.Reader() ==> call.id !in k.indices && call.pdu.None? && k.isReading)
    && (call.Follower() ==> FollowerOk(k, call))
    && (call.pc.Entering? ==> call.pdu.None? && !call.shouldRead)
    // a registered call without a response is pending, one with a response is not
    && (call.Registered() && call.pdu.None? ==>
          call.id in k.pending && k.pending[call.id] == Request(c, call.server))
    && (call.Registered() && call.pdu.Some? ==> call.id !in k.pending)
    && (call.pdu.Some? ==>
          call.pdu.value.id == call.id && call.pdu.value.source == call.server && Genuine(received, call.pdu.value))
    && (call.pc == Returned(true) ==> call.pdu.Some?)
    && (call.pc.Reading? || call.pc.Holding? ==> call.shouldRead)
    && (call.pc.Waiting? || call.pc.Woken? ==> !call.shouldRead)
    && (call.pc.Holding? ==> Genuine(received, call.pc.packet))
    // the wake-up for a delivered response is never lost
    && (call.Follower() && call.pdu.Some? && !call.pc.Woken? && !call.pc.Cleaning? ==> call.point.value in k.signalled)
  }

  ghost predicate CallsOk(s: System) {
    forall c :: c in s.calls ==> CallOk(s.k, s.received, c, s.calls[c])
  }

  ghost predicate FollowerWith(calls: map<nat, Call>, c: nat, id: Id) {
    c in calls && calls[c].Follower() && calls[c].id == id
  }

  ghost predicate Owned(k: Socket, calls: map<nat, Call>) {
    && (forall id :: id in k.pending ==>
          k.pending[id].owner in calls && calls[k.pending[id].owner].Registered()
              && calls[k.pending[id].owner].id == id)
    && (forall id :: id in k.indices ==> exists c :: FollowerWith(calls, c, id))
  }

  ghost predicate IsReader(calls: map<nat, Call>, c: nat) {
    c in calls && calls[c].Reader()
  }

  ghost predicate OneReader(isReading: bool, calls: map<nat, Call>) {
    && (forall c, d :: IsReader(calls, c) && IsReader(calls, d) ==> c == d)
    && (isReading ==> exists c :: IsReader(calls, c))
  }

  /** No packet is stored in two results, and a packet in the reader's hands is in none. */
  ghost predicate SerialsOnce(calls: map<nat, Call>) {
    && (forall c, d :: c in calls && d in calls && c != d && calls[c].pdu.Some? && calls[d].pdu.Some?
                       ==> calls[c].pdu.value.serial != calls[d].pdu.value.serial)
    && (forall c, d :: c in calls && d in calls && calls[c].pc.Holding? && calls[d].pdu.Some?
                       ==> calls[c].pc.packet.serial != calls[d].pdu.value.serial)
  }

  ghost predicate Inv(s: System) {
    && DistinctIds(s.calls)
    && SocketOk(s.k)
    && CallsOk(s)
    && Owned(s.k, s.calls)
    && OneReader(s.k.isReading, s.calls)
    && SerialsOnce(s.calls)
  }

  lemma InitInv()
    ensures Inv(Init())
  {
    var p := NewSocket().points;
    assert forall i :: i in p ==> p[i] == i && i < PERMANENT;
    assert PointsOk(p, {}, PERMANENT);
  }

  // ---- replacing one call ----

  lemma KeepDistinct(calls: map<nat, Call>, after: map<nat, Call>, c: nat, x: Call)
    requires c in calls && after == calls[c := x]
    requires DistinctIds(calls) && x.id == calls[c].id
    requires x.Registered() ==> calls[c].Registered()
    ensures DistinctIds(after)
  {
  }

  lemma KeepOwned(k: Socket, calls: map<nat, Call>, after: map<nat, Call>, c: nat, x: Call)
    requires c in calls && after == calls[c := x]
    requires Owned(k, calls) && x.id == calls[c].id
    requires calls[c].Registered() && x.id in k.pending && k.pending[x.id].owner == c ==> x.Registered()
    requires calls[c].Follower() && x.id in k.indices ==> x.Follower()
    ensures Owned(k, after)
  {
    forall id | id in k.indices ensures exists d :: FollowerWith(after, d, id) {
      var d :| FollowerWith(calls, d, id);
      assert FollowerWith(after, d, id);
    }
  }

  lemma KeepReader(isReading: bool, calls: map<nat, Call>, after: map<nat, Call>, c: nat, x: Call)
    requires c in calls && after == calls[c := x]
    requires OneReader(isReading, calls)
    requires x.Reader() == calls[c].Reader()
    ensures OneReader(isReading, after)
  {
    forall d | IsReader(after, d) ensures IsReader(calls, d) {}
    if isReading {
      var d :| IsReader(calls, d);
      assert IsReader(after, d);
    }
  }

  lemma KeepSerials(calls: map<nat, Call>, after: map<nat, Call>, c: nat, x: Call)
    requires c in calls && after == calls[c := x]
    requires SerialsOnce(calls) && x.pdu == calls[c].pdu
    requires x.pc.Holding? ==>
      || x.pc == calls[c].pc
      || (forall d :: d in calls && calls[d].pdu.Some? ==> calls[d].pdu.value.serial != x.pc.packet.serial)
    ensures SerialsOnce(after)
  {
  }

  /** `x` may replace `was` without any other part of the invariant noticing. */
  ghost predicate SameRole(was: Call, x: Call) {
    && was.id == x.id && was.pdu == x.pdu && was.shouldRead == x.shouldRead
    && was.Registered() == x.Registered()
  }

  lemma KeepCalls(s: System, t: System, c: nat, x: Call)
    requires CallsOk(s) && c in s.calls && t.calls == s.calls[c := x]
    requires t.k == s.k && s.received <= t.received && CallOk(t.k, t.received, c, x)
    ensures CallsOk(t)
  {
    forall d | d in t.calls && d != c ensures CallOk(t.k, t.received, d, t.calls[d]) {
      assert CallOk(s.k, s.received, d, s.calls[d]);
    }
  }

  lemma SerialsBelow(s: System)
    requires CallsOk(s)
    ensures forall d :: d in s.calls && s.calls[d].pdu.Some? ==> s.calls[d].pdu.value.serial < |s.received|
  {
    forall d | d in s.calls && s.calls[d].pdu.Some? ensures s.calls[d].pdu.value.serial < |s.received| {
      assert CallOk(s.k, s.received, d, s.calls[d]);
    }
  }

  lemma KeepRelabel(s: System, t: System, c: nat, x: Call)
    requires Inv(s) && c in s.calls && t.calls == s.calls[c := x]
    requires t.k == s.k && s.received <= t.received
    requires SameRole(s.calls[c], x) && CallOk(t.k, t.received, c, x)
    requires x.pc.Holding? ==> x.pc == s.calls[c].pc || x.pc.packet.serial >= |s.received|
    ensures Inv(t)
  {
    KeepDistinct(s.calls, t.calls, c, x);
    KeepOwned(s.k, s.calls, t.calls, c, x);
    KeepReader(s.k.isReading, s.calls, t.calls, c, x);
    SerialsBelow(s);
    KeepSerials(s.calls, t.calls, c, x);
    KeepCalls(s, t, c, x);
  }

  // ---- what the critical sections do to the socket ----

  lemma AddPoint(points: map<nat, nat>, used: set<nat>, created: nat, i: nat)
    requires PointsOk(points, used, created) && PermanentKept(points) && i < SLOTS && i !in used
    ensures i in points ==> PointsOk(points, used + {i}, created)
    ensures i !in points ==>
      PointsOk(points[i := created], used + {i}, created + 1) && PermanentKept(points[i := created])
  {
  }

  lemma AddIndex(indices: map<Id, nat>, after: map<Id, nat>, used: set<nat>, id: Id, i: nat)
    requires IndicesOk(indices, used) && id !in indices && i !in used && after == indices[id := i]
    ensures IndicesOk(after, used + {i}) && |after| == |indices| + 1
  {
    forall j | j in used + {i} ensures exists a :: Holds(after, a, j) {
      if j == i {
        assert Holds(after, id, j);
      } else {
        var a :| Holds(indices, a, j);
        assert Holds(after, a, j);
      }
    }
  }

  lemma DropIndex(indices: map<Id, nat>, after: map<Id, nat>, used: set<nat>, id: Id)
    requires IndicesOk(indices, used) && id in indices && after == indices - {id}
    ensures IndicesOk(after, used - {indices[id]}) && |after| == |indices| - 1
  {
    assert after.Keys == indices.Keys - {id};
    forall j | j in used - {indices[id]} ensures exists a :: Holds(after, a, j) {
      var a :| Holds(indices, a, j);
      assert Holds(after, a, j);
    }
  }

  lemma DropPoint(points: map<nat, nat>, used: set<nat>, created: nat, i: nat)
    requires PointsOk(points, used, created) && PermanentKept(points)
    ensures i < PERMANENT ==> PointsOk(points, used - {i}, created)
    ensures i >= PERMANENT ==> PointsOk(points - {i}, used - {i}, created) && PermanentKept(points - {i})
  {
  }

  /** What a successful claim of a sync point leaves behind. */
  lemma AllocShape(k: Socket, a: Socket, i: nat)
    requires (a, i) == Alloc(k) && i < SLOTS
    ensures a == k.(used := k.used + {i}, points := a.points, created := a.created)
    ensures i !in k.used
    ensures if i in k.points then a.points == k.points && a.created == k.created
            else a.points == k.points[i := k.created] && a.created == k.created + 1
  {
  }

  lemma ClaimOk(k: Socket, id: Id, a: Socket, i: nat)
    requires SocketOk(k) && id !in k.indices && (a, i) == Alloc(k) && i < SLOTS
    ensures i in a.points && PointsOk(a.points, a.used, a.created) && PermanentKept(a.points)
    ensures IndicesOk(k.indices[id := i], a.used) && |k.indices[id := i]| == k.nested + 1
  {
    AllocShape(k, a, i);
    AddPoint(k.points, k.used, k.created, i);
    AddIndex(k.indices, k.indices[id := i], k.used, id, i);
  }

  lemma ReleaseOk(k: Socket, id: Id)
    requires SocketOk(k) && id in k.indices
    ensures SocketOk(Release(k, id))
  {
    DropIndex(k.indices, k.indices - {id}, k.used, id);
    DropPoint(k.points, k.used, k.created, k.indices[id]);
    assert |k.indices| > 0;
  }

  lemma ReleaseFrame(k: Socket, id: Id)
    ensures var r := Release(k, id);
      r.pending == k.pending && r.isReading == k.isReading && r.indices == k.indices - {id}
  {
  }

  /** Releasing one id leaves the sync point of another alone, signal included. */
  lemma ReleaseOther(k: Socket, id: Id, i: nat, j: nat)
    requires PointsOk(k.points, k.used, k.created) && id in k.indices && i == k.indices[id] && j in k.points && i != j
    ensures var r := Release(k, id);
      j in r.points && r.points[j] == k.points[j] && (k.points[j] in k.signalled ==> k.points[j] in r.signalled)
  {
  }

  lemma HandOffFrame(k: Socket, oldest: Id)
    ensures var r := HandOff(k, oldest);
      r == k.(isReading := false, signalled := r.signalled) && k.signalled <= r.signalled
  {
  }

  // ---- the critical sections keep the invariant ----

  /** A call other than the acting one is still fine if what concerns its id is untouched. */
  lemma CallStable(k: Socket, l: Socket, received: seq<Packet>, d: nat, call: Call)
    requires CallOk(k, received, d, call)
    requires call.Registered() ==> (call.id in k.pending <==> call.id in l.pending)
    requires call.Registered() && call.id in k.pending ==> k.pending[call.id] == l.pending[call.id]
    requires call.Reader() ==> call.id !in l.indices && l.isReading
    requires call.Follower()
        ==> FollowerOk(l, call) && (call.point.value in k.signalled ==> call.point.value in l.signalled)
    ensures CallOk(l, received, d, call)
  {
  }

  /** The id of a call at the entry is pending, so that the duplicate check refuses it, or holds no sync
      point. */
  predicate EntryOk(s: System, c: nat) {
    c in s.calls ==> s.calls[c].id in s.k.pending || s.calls[c].id !in s.k.indices
  }

  /** An id that is neither pending nor holds a sync point belongs to no registered call. */
  lemma IdUnused(s: System, c: nat)
    requires CallsOk(s) && At(s, c, Entering) && EntryOk(s, c) && s.calls[c].id !in s.k.pending
    ensures forall d :: d in s.calls && s.calls[d].Registered() ==> s.calls[d].id != s.calls[c].id
  {
    forall d | d in s.calls && s.calls[d].Registered() ensures s.calls[d].id != s.calls[c].id {
      assert CallOk(s.k, s.received, d, s.calls[d]);
    }
  }

  lemma EnterDistinct(s: System, after: map<nat, Call>, c: nat, x: Call)
    requires DistinctIds(s.calls) && CallsOk(s) && At(s, c, Entering) && EntryOk(s, c) && s.calls[c].id !in s.k.pending
    requires after == s.calls[c := x] && x.id == s.calls[c].id
    ensures DistinctIds(after)
  {
    IdUnused(s, c);
  }

  lemma NoReader(s: System)
    requires CallsOk(s) && !s.k.isReading
    ensures forall d :: d in s.calls ==> !s.calls[d].Reader()
  {
    forall d | d in s.calls ensures !s.calls[d].Reader() {
      assert CallOk(s.k, s.received, d, s.calls[d]);
    }
  }

  lemma GainReader(calls: map<nat, Call>, after: map<nat, Call>, c: nat, x: Call)
    requires forall d :: d in calls && d != c ==> !calls[d].Reader()
    requires after == calls[c := x] && x.Reader()
    ensures OneReader(true, after)
  {
    assert IsReader(after, c);
  }

  /** Entry as the reader. */
  ghost predicate BecomesReader(s: System, t: System, c: nat, x: Call) {
    && At(s, c, Entering) && EntryOk(s, c) && s.calls[c].id !in s.k.pending && !s.k.isReading
    && x == s.calls[c].(pc := Sending, shouldRead := true)
    && t.k == s.k.(isReading := true, pending := s.k.pending[x.id := Request(c, x.server)])
    && t.calls == s.calls[c := x] && t.received == s.received
  }

  lemma EnterReaderCalls(s: System, t: System, c: nat, x: Call)
    requires CallsOk(s) && BecomesReader(s, t, c, x)
    ensures CallsOk(t)
  {
    IdUnused(s, c);
    forall d | d in t.calls ensures CallOk(t.k, t.received, d, t.calls[d]) {
      assert d in s.calls && CallOk(s.k, s.received, d, s.calls[d]);
      if d != c {
        assert t.calls[d] == s.calls[d];
        CallStable(s.k, t.k, s.received, d, s.calls[d]);
      }
    }
  }

  lemma EnterReaderRest(s: System, t: System, c: nat, x: Call)
    requires DistinctIds(s.calls) && CallsOk(s) && SerialsOnce(s.calls) && BecomesReader(s, t, c, x)
    ensures DistinctIds(t.calls) && SerialsOnce(t.calls) && OneReader(true, t.calls)
  {
    NoReader(s);
    GainReader(s.calls, t.calls, c, x);
    EnterDistinct(s, t.calls, c, x);
    KeepSerials(s.calls, t.calls, c, x);
  }

  lemma EnterReaderOwned(s: System, t: System, c: nat, x: Call)
    requires Owned(s.k, s.calls) && BecomesReader(s, t, c, x)
    ensures Owned(t.k, t.calls)
  {
    KeepOwned(s.k, s.calls, t.calls, c, x);
  }

  /** Entry as a follower with sync point `i`. */
  ghost predicate BecomesFollower(s: System, t: System, c: nat, x: Call, a: Socket, i: nat) {
    && At(s, c, Entering) && EntryOk(s, c) && s.calls[c].id !in s.k.pending && s.k.isReading
    && (a, i) == Alloc(s.k) && i < SLOTS && i in a.points
    && x == s.calls[c].(pc := Sending, point := Some(a.points[i]))
    && t.k == a.(indices := s.k.indices[x.id := i], nested := s.k.nested + 1,
                 pending := s.k.pending[x.id := Request(c, x.server)])
    && t.calls == s.calls[c := x] && t.received == s.received
  }

  lemma EnterFollowerOther(s: System, t: System, c: nat, x: Call, a: Socket, i: nat, d: nat, call: Call)
    requires BecomesFollower(s, t, c, x, a, i)
    requires CallOk(s.k, s.received, d, call) && (call.Registered() ==> call.id != x.id)
    ensures CallOk(t.k, t.received, d, call)
  {
    AllocShape(s.k, a, i);
    assert t.k.signalled == s.k.signalled;
    if call.Follower() {
      var j := s.k.indices[call.id];
      assert t.k.indices[call.id] == j;
      assert j in s.k.points;
      assert j in t.k.points && t.k.points[j] == s.k.points[j];
    }
    CallStable(s.k, t.k, s.received, d, call);
  }

  lemma EnterFollowerCalls(s: System, t: System, c: nat, x: Call, a: Socket, i: nat)
    requires CallsOk(s) && BecomesFollower(s, t, c, x, a, i)
    ensures CallsOk(t)
  {
    IdUnused(s, c);
    forall d | d in t.calls ensures CallOk(t.k, t.received, d, t.calls[d]) {
      assert CallOk(s.k, s.received, d, s.calls[d]);
      if d != c {
        EnterFollowerOther(s, t, c, x, a, i, d, s.calls[d]);
      }
    }
  }

  lemma GainFollower(k: Socket, l: Socket, calls: map<nat, Call>, after: map<nat, Call>, c: nat, x: Call, i: nat)
    requires Owned(k, calls) && c in calls && !calls[c].Registered() && x.id == calls[c].id
    requires after == calls[c := x] && x.Follower()
    requires l.pending == k.pending[x.id := Request(c, x.server)] && l.indices == k.indices[x.id := i]
    ensures Owned(l, after)
  {
    forall id | id in l.indices ensures exists d :: FollowerWith(after, d, id) {
      if id == x.id {
        assert FollowerWith(after, c, id);
      } else {
        var d :| FollowerWith(calls, d, id);
        assert FollowerWith(after, d, id);
      }
    }
  }

  lemma EnterFollowerRest(s: System, t: System, c: nat, x: Call, a: Socket, i: nat)
    requires Inv(s) && BecomesFollower(s, t, c, x, a, i)
    ensures DistinctIds(t.calls) && SerialsOnce(t.calls) && OneReader(true, t.calls) && Owned(t.k, t.calls)
  {
    assert CallOk(s.k, s.received, c, s.calls[c]);
    AllocShape(s.k, a, i);
    EnterDistinct(s, t.calls, c, x);
    KeepSerials(s.calls, t.calls, c, x);
    KeepReader(true, s.calls, t.calls, c, x);
    GainFollower(s.k, t.k, s.calls, t.calls, c, x, i);
  }

  lemma KeepEntersAsFollower(s: System, t: System, c: nat, x: Call, a: Socket, i: nat)
    requires Inv(s) && BecomesFollower(s, t, c, x, a, i)
    ensures Inv(t)
  {
    EnterFollowerCalls(s, t, c, x, a, i);
    EnterFollowerRest(s, t, c, x, a, i);
    ClaimOk(s.k, x.id, a, i);
    assert t.k.points == a.points && t.k.used == a.used && t.k.created == a.created;
  }

  lemma KeepEntersAsReader(s: System, t: System, c: nat, x: Call)
    requires Inv(s) && BecomesReader(s, t, c, x)
    ensures Inv(t)
  {
    EnterReaderCalls(s, t, c, x);
    EnterReaderRest(s, t, c, x);
    EnterReaderOwned(s, t, c, x);
  }

  lemma PointBelow(k: Socket)
    requires SocketOk(k)
    ensures SLOTS !in k.points
  {
  }

  lemma KeepRefused(s: System, c: nat)
    requires Inv(s) && At(s, c, Entering)
    ensures Inv(Goto(s, c, Returned(false)))
  {
    assert CallOk(s.k, s.received, c, s.calls[c]);
    KeepRelabel(s, Goto(s, c, Returned(false)), c, s.calls[c].(pc := Returned(false)));
  }

  lemma EnterShape(s: System, c: nat)
    requires SocketOk(s.k) && At(s, c, Entering) && EntryOk(s, c)
    ensures var t := AfterEnter(s, c); var x := t.calls[c]; var (a, i) := Alloc(s.k);
      || t == Goto(s, c, Returned(false))
      || BecomesReader(s, t, c, x)
      || BecomesFollower(s, t, c, x, a, i)
  {
    PointBelow(s.k);
    if s.calls[c].id !in s.k.pending && s.k.isReading && Alloc(s.k).1 < SLOTS {
      AllocShape(s.k, Alloc(s.k).0, Alloc(s.k).1);
    }
  }

  lemma KeepEnters(s: System, c: nat)
    requires Inv(s) && At(s, c, Entering) && EntryOk(s, c)
    ensures Inv(AfterEnter(s, c))
  {
    var t := AfterEnter(s, c);
    var (a, i) := Alloc(s.k);
    EnterShape(s, c);
    if t == Goto(s, c, Returned(false)) {
      KeepRefused(s, c);
    } else if BecomesReader(s, t, c, t.calls[c]) {
      KeepEntersAsReader(s, t, c, t.calls[c]);
    } else {
      KeepEntersAsFollower(s, t, c, t.calls[c], a, i);
    }
  }

  // A packet for another call: it is stored there and that call's sync point is signalled.

  ghost predicate RoutesToOther(s: System, t: System, c: nat, x: Call, o: nat, y: Call, p: Packet) {
    && c in s.calls && o in s.calls && c != o && s.calls[c].pc == Holding(p)
    && p.id in s.k.pending && s.k.pending[p.id] == Request(o, p.source)
    && s.calls[o].Follower() && s.calls[o].id == p.id && s.calls[o].server == p.source && s.calls[o].pdu.None?
    && s.calls[o].point.Some?
    && x == s.calls[c].(pc := Checking) && y == s.calls[o].(pdu := Some(p))
    && t.k == s.k.(pending := s.k.pending - {p.id}, signalled := s.k.signalled + {s.calls[o].point.value})
    && t.calls == s.calls[o := y][c := x] && t.received == s.received
  }

  /** The owner of a pending request is the call that registered it, still without a response. */
  lemma PendingOwner(s: System, id: Id)
    requires CallsOk(s) && Owned(s.k, s.calls) && id in s.k.pending
    ensures var o := s.k.pending[id].owner;
      o in s.calls && s.calls[o].Registered() && s.calls[o].id == id && s.calls[o].pdu.None?
      && s.calls[o].server == s.k.pending[id].server
  {
    var o := s.k.pending[id].owner;
    assert CallOk(s.k, s.received, o, s.calls[o]);
  }

  lemma RouteCall(s: System, t: System, c: nat, x: Call, o: nat, y: Call, p: Packet, d: nat, call: Call)
    requires RoutesToOther(s, t, c, x, o, y, p)
    requires CallOk(s.k, s.received, d, call) && (call.Registered() ==> call.id != p.id)
    ensures CallOk(t.k, t.received, d, call)
  {
    if call.Registered() {
      assert call.id in s.k.pending <==> call.id in t.k.pending;
    }
    CallStable(s.k, t.k, s.received, d, call);
  }

  lemma RouteCalls(s: System, t: System, c: nat, x: Call, o: nat, y: Call, p: Packet)
    requires DistinctIds(s.calls) && CallsOk(s) && RoutesToOther(s, t, c, x, o, y, p)
    ensures CallsOk(t)
  {
    assert CallOk(s.k, s.received, c, s.calls[c]);
    forall d | d in t.calls ensures CallOk(t.k, t.received, d, t.calls[d]) {
      assert CallOk(s.k, s.received, d, s.calls[d]);
      if d != o {
        RouteCall(s, t, c, x, o, y, p, d, s.calls[d]);
      }
    }
  }

  lemma RouteSerials(s: System, t: System, c: nat, x: Call, o: nat, y: Call, p: Packet)
    requires SerialsOnce(s.calls) && OneReader(s.k.isReading, s.calls) && CallsOk(s)
        && RoutesToOther(s, t, c, x, o, y, p)
    ensures SerialsOnce(t.calls)
  {
    forall d | d in s.calls && s.calls[d].pc.Holding? ensures d == c {
      assert CallOk(s.k, s.received, d, s.calls[d]) && CallOk(s.k, s.received, c, s.calls[c]);
      assert IsReader(s.calls, c) && IsReader(s.calls, d);
    }
    forall d, e | d in t.calls && e in t.calls && d != e && t.calls[d].pdu.Some? && t.calls[e].pdu.Some?
      ensures t.calls[d].pdu.value.serial != t.calls[e].pdu.value.serial
    {
    }
  }

  lemma RouteOwned(s: System, t: System, c: nat, x: Call, o: nat, y: Call, p: Packet)
    requires Owned(s.k, s.calls) && RoutesToOther(s, t, c, x, o, y, p)
    ensures Owned(t.k, t.calls)
  {
    var mid := s.calls[o := y];
    KeepOwned(s.k, s.calls, mid, o, y);
    KeepOwned(s.k, mid, t.calls, c, x);
  }

  lemma RouteRest(s: System, t: System, c: nat, x: Call, o: nat, y: Call, p: Packet)
    requires DistinctIds(s.calls) && OneReader(s.k.isReading, s.calls) && RoutesToOther(s, t, c, x, o, y, p)
    ensures DistinctIds(t.calls) && OneReader(t.k.isReading, t.calls)
  {
    var mid := s.calls[o := y];
    KeepDistinct(s.calls, mid, o, y);
    KeepDistinct(mid, t.calls, c, x);
    KeepReader(s.k.isReading, s.calls, mid, o, y);
    KeepReader(s.k.isReading, mid, t.calls, c, x);
  }

  // The reader returns: with its own packet, or from the cleanup.

  ghost predicate ReaderLeaves(s: System, t: System, c: nat, x: Call) {
    && c in s.calls && s.calls[c].Reader()
    && x == s.calls[c].(pc := x.pc, pdu := x.pdu) && x.pc.Returned?
    && t.k == s.k.(pending := s.k.pending - {x.id}, isReading := false, signalled := t.k.signalled)
    && s.k.signalled <= t.k.signalled
    && t.calls == s.calls[c := x] && t.received == s.received
    && (|| (x.pdu == s.calls[c].pdu && x.pc == Returned(false))
        || (s.calls[c].pc.Holding? && x.pdu == Some(s.calls[c].pc.packet)
            && x.pdu.value.id == x.id && x.pdu.value.source == x.server))
  }

  lemma ReaderLeavesCalls(s: System, t: System, c: nat, x: Call)
    requires DistinctIds(s.calls) && OneReader(s.k.isReading, s.calls) && CallsOk(s) && ReaderLeaves(s, t, c, x)
    ensures CallsOk(t)
  {
    assert IsReader(s.calls, c);
    assert CallOk(s.k, s.received, c, s.calls[c]);
    forall d | d in t.calls ensures CallOk(t.k, t.received, d, t.calls[d]) {
      if d != c {
        assert CallOk(s.k, s.received, d, s.calls[d]);
        assert !IsReader(s.calls, d);
        CallStable(s.k, t.k, s.received, d, s.calls[d]);
      }
    }
  }

  lemma ReaderLeavesOwned(s: System, t: System, c: nat, x: Call)
    requires DistinctIds(s.calls) && Owned(s.k, s.calls) && ReaderLeaves(s, t, c, x)
    ensures Owned(t.k, t.calls)
  {
    forall id | id in t.k.indices ensures exists d :: FollowerWith(t.calls, d, id) {
      var d :| FollowerWith(s.calls, d, id);
      assert FollowerWith(t.calls, d, id);
    }
  }

  lemma ReaderLeavesRest(s: System, t: System, c: nat, x: Call)
    requires DistinctIds(s.calls) && OneReader(s.k.isReading, s.calls) && ReaderLeaves(s, t, c, x)
    ensures DistinctIds(t.calls) && OneReader(false, t.calls)
  {
    assert IsReader(s.calls, c);
    KeepDistinct(s.calls, t.calls, c, x);
    forall d | IsReader(t.calls, d) ensures false {
      assert IsReader(s.calls, d);
    }
  }

  lemma ReaderLeavesSerials(s: System, t: System, c: nat, x: Call)
    requires SerialsOnce(s.calls) && OneReader(s.k.isReading, s.calls) && CallsOk(s) && ReaderLeaves(s, t, c, x)
    ensures SerialsOnce(t.calls)
  {
    forall d | d in s.calls && s.calls[d].pc.Holding? ensures d == c {
      assert CallOk(s.k, s.received, d, s.calls[d]);
      assert IsReader(s.calls, c) && IsReader(s.calls, d);
    }
  }

  // A follower gives its sync point back: it returns, or it becomes the reader.

  ghost predicate FollowerLeaves(s: System, t: System, c: nat, x: Call) {
    && c in s.calls && s.calls[c].Follower() && x.id in s.k.indices
    && x == s.calls[c].(pc := x.pc, shouldRead := x.shouldRead, point := x.point)
    && t.calls == s.calls[c := x] && t.received == s.received
    && t.k == Release(s.k.(pending := t.k.pending, isReading := t.k.isReading), x.id)
    && (x.pc.Returned? ==>
          && !x.shouldRead && (x.pc.ok ==> x.pdu.Some?)
          && t.k.isReading == s.k.isReading && t.k.pending == s.k.pending - {x.id})
    && (!x.pc.Returned? ==>
          && x.shouldRead && x.pc.Checking? && x.pdu.None?
          && !s.k.isReading && t.k.isReading && t.k.pending == s.k.pending)
  }

  lemma FollowerLeavesOther(s: System, t: System, c: nat, x: Call, d: nat, call: Call)
    requires SocketOk(s.k) && FollowerLeaves(s, t, c, x)
    requires CallOk(s.k, s.received, d, call) && (call.Registered() ==> call.id != x.id)
    ensures CallOk(t.k, t.received, d, call)
  {
    var base := s.k.(pending := t.k.pending, isReading := t.k.isReading);
    ReleaseFrame(base, x.id);
    if call.Follower() {
      ReleaseOther(base, x.id, s.k.indices[x.id], s.k.indices[call.id]);
    }
    CallStable(s.k, t.k, s.received, d, call);
  }

  lemma FollowerLeavesCalls(s: System, t: System, c: nat, x: Call)
    requires SocketOk(s.k) && DistinctIds(s.calls) && CallsOk(s) && FollowerLeaves(s, t, c, x)
    ensures CallsOk(t)
  {
    ReleaseFrame(s.k.(pending := t.k.pending, isReading := t.k.isReading), x.id);
    forall d | d in t.calls ensures CallOk(t.k, t.received, d, t.calls[d]) {
      assert CallOk(s.k, s.received, d, s.calls[d]);
      if d != c {
        FollowerLeavesOther(s, t, c, x, d, s.calls[d]);
      }
    }
  }

  lemma DropHolder(indices: map<Id, nat>, calls: map<nat, Call>, after: map<nat, Call>, c: nat, x: Call)
    requires c in calls && after == calls[c := x]
    requires forall id :: id in indices ==> exists d :: FollowerWith(calls, d, id)
    ensures forall id :: id in indices && id != calls[c].id ==> exists d :: FollowerWith(after, d, id)
  {
    forall id | id in indices && id != calls[c].id ensures exists d :: FollowerWith(after, d, id) {
      var d :| FollowerWith(calls, d, id);
      assert FollowerWith(after, d, id);
    }
  }

  lemma FollowerLeavesOwned(s: System, t: System, c: nat, x: Call)
    requires DistinctIds(s.calls) && Owned(s.k, s.calls) && FollowerLeaves(s, t, c, x)
    ensures Owned(t.k, t.calls)
  {
    ReleaseFrame(s.k.(pending := t.k.pending, isReading := t.k.isReading), x.id);
    DropHolder(s.k.indices, s.calls, t.calls, c, x);
    forall id | id in t.k.pending
      ensures t.k.pending[id].owner in t.calls && t.calls[t.k.pending[id].owner].Registered()
          && t.calls[t.k.pending[id].owner].id == id
    {
      var o := s.k.pending[id].owner;
      assert t.k.pending[id].owner == o && o in s.calls && s.calls[o].id == id;
      if o != c {
        assert t.calls[o] == s.calls[o];
      }
    }
  }

  lemma FollowerLeavesRest(s: System, t: System, c: nat, x: Call)
    requires DistinctIds(s.calls) && CallsOk(s) && SerialsOnce(s.calls) && FollowerLeaves(s, t, c, x)
    requires OneReader(s.k.isReading, s.calls)
    ensures DistinctIds(t.calls) && SerialsOnce(t.calls) && OneReader(t.k.isReading, t.calls)
  {
    KeepDistinct(s.calls, t.calls, c, x);
    KeepSerials(s.calls, t.calls, c, x);
    if x.pc.Returned? {
      KeepReader(s.k.isReading, s.calls, t.calls, c, x);
    } else {
      NoReader(s);
      GainReader(s.calls, t.calls, c, x);
    }
  }

  lemma KeepFollowerLeaves(s: System, t: System, c: nat, x: Call)
    requires Inv(s) && FollowerLeaves(s, t, c, x)
    ensures Inv(t)
  {
    FollowerLeavesCalls(s, t, c, x);
    FollowerLeavesOwned(s, t, c, x);
    FollowerLeavesRest(s, t, c, x);
    ReleaseOk(s.k.(pending := t.k.pending, isReading := t.k.isReading), x.id);
  }

  lemma KeepReaderLeaves(s: System, t: System, c: nat, x: Call)
    requires Inv(s) && ReaderLeaves(s, t, c, x)
    ensures Inv(t)
  {
    ReaderLeavesCalls(s, t, c, x);
    ReaderLeavesOwned(s, t, c, x);
    ReaderLeavesRest(s, t, c, x);
    ReaderLeavesSerials(s, t, c, x);
  }

  lemma KeepRoutes(s: System, t: System, c: nat, x: Call, o: nat, y: Call, p: Packet)
    requires Inv(s) && RoutesToOther(s, t, c, x, o, y, p)
    ensures Inv(t)
  {
    RouteCalls(s, t, c, x, o, y, p);
    RouteOwned(s, t, c, x, o, y, p);
    RouteRest(s, t, c, x, o, y, p);
    RouteSerials(s, t, c, x, o, y, p);
  }

  // A wait consumes the signal of the caller's own sync point and of no other.

  lemma PointsApart(k: Socket, a: Call, b: Call)
    requires SocketOk(k) && FollowerOk(k, a) && FollowerOk(k, b) && a.id != b.id
    ensures a.point.value != b.point.value
  {
  }

  lemma KeepWaits(s: System, c: nat)
    requires Inv(s) && Enabled(s, WaitSucceeds(c))
    ensures Inv(Next(s, WaitSucceeds(c)))
  {
    var t := Next(s, WaitSucceeds(c));
    var x := s.calls[c].(pc := Woken);
    assert t.calls == s.calls[c := x] && t.received == s.received;
    assert t.k == s.k.(signalled := s.k.signalled - {s.calls[c].point.value});
    assert CallOk(s.k, s.received, c, s.calls[c]);
    WaitCalls(s, t, c, x);
    KeepDistinct(s.calls, t.calls, c, x);
    KeepSerials(s.calls, t.calls, c, x);
    KeepReader(s.k.isReading, s.calls, t.calls, c, x);
    KeepOwned(s.k, s.calls, t.calls, c, x);
  }

  lemma WaitCalls(s: System, t: System, c: nat, x: Call)
    requires SocketOk(s.k) && DistinctIds(s.calls) && CallsOk(s)
    requires At(s, c, Waiting) && s.calls[c].point.Some? && x == s.calls[c].(pc := Woken)
    requires t.calls == s.calls[c := x] && t.received == s.received
    requires t.k == s.k.(signalled := s.k.signalled - {s.calls[c].point.value})
    ensures CallsOk(t)
  {
    assert CallOk(s.k, s.received, c, s.calls[c]);
    forall d | d in t.calls ensures CallOk(t.k, t.received, d, t.calls[d]) {
      assert CallOk(s.k, s.received, d, s.calls[d]);
      if d != c {
        if s.calls[d].Follower() {
          PointsApart(s.k, s.calls[c], s.calls[d]);
        }
        CallStable(s.k, t.k, s.received, d, s.calls[d]);
      }
    }
  }

  // Each critical section takes one of these shapes.

  lemma DeliverOwnShape(s: System, c: nat, oldest: Id)
    requires c in s.calls && s.calls[c].pc.Holding? && CallOk(s.k, s.received, c, s.calls[c])
    requires var p := s.calls[c].pc.packet;
      p.id == s.calls[c].id && p.source == s.calls[c].server
    ensures ReaderLeaves(s, AfterDeliver(s, c, oldest), c,
        s.calls[c].(pc := Returned(true), pdu := Some(s.calls[c].pc.packet)))
  {
    HandOffFrame(s.k.(pending := s.k.pending - {s.calls[c].id}), oldest);
  }

  lemma DeliverOtherShape(s: System, c: nat, oldest: Id, o: nat, p: Packet)
    requires c in s.calls && s.calls[c].pc.Holding? && p == s.calls[c].pc.packet && p.id != s.calls[c].id
    requires p.id in s.k.pending && s.k.pending[p.id] == Request(o, p.source)
    requires o in s.calls && s.calls[o].Follower() && s.calls[o].id == p.id && s.calls[o].server == p.source
        && s.calls[o].pdu.None?
    requires FollowerOk(s.k, s.calls[o])
    ensures RoutesToOther(s, AfterDeliver(s, c, oldest), c, s.calls[c].(pc := Checking), o,
        s.calls[o].(pdu := Some(p)), p)
  {
  }

  lemma RouteTarget(s: System, c: nat, id: Id)
    requires CallsOk(s) && Owned(s.k, s.calls) && OneReader(s.k.isReading, s.calls)
    requires c in s.calls && s.calls[c].Reader() && id != s.calls[c].id && id in s.k.pending
    ensures var o := s.k.pending[id].owner; o in s.calls && s.calls[o].Follower() && FollowerOk(s.k, s.calls[o])
  {
    PendingOwner(s, id);
    var o := s.k.pending[id].owner;
    assert IsReader(s.calls, c) && !IsReader(s.calls, o);
    assert CallOk(s.k, s.received, o, s.calls[o]);
  }

  /** A registered call may go to the loop condition unless it has missed its response. */
  lemma KeepToCheck(s: System, c: nat)
    requires Inv(s) && c in s.calls && s.calls[c].Registered() && s.calls[c].pdu.None?
    ensures Inv(Goto(s, c, Checking))
  {
    var x := s.calls[c].(pc := Checking);
    assert CallOk(s.k, s.received, c, s.calls[c]);
    assert CallOk(s.k, s.received, c, x);
    KeepRelabel(s, Goto(s, c, Checking), c, x);
  }

  lemma KeepDelivers(s: System, c: nat, oldest: Id)
    requires Inv(s) && c in s.calls && s.calls[c].pc.Holding?
    ensures Inv(AfterDeliver(s, c, oldest))
  {
    var call := s.calls[c];
    var p := call.pc.packet;
    assert CallOk(s.k, s.received, c, call);
    if p.id !in s.k.pending || p.source != s.k.pending[p.id].server {
      KeepToCheck(s, c);
    } else if p.id == call.id {
      DeliverOwnShape(s, c, oldest);
      KeepReaderLeaves(s, AfterDeliver(s, c, oldest), c, call.(pc := Returned(true), pdu := Some(p)));
    } else {
      var o := s.k.pending[p.id].owner;
      PendingOwner(s, p.id);
      RouteTarget(s, c, p.id);
      DeliverOtherShape(s, c, oldest, o, p);
      KeepRoutes(s, AfterDeliver(s, c, oldest), c, call.(pc := Checking), o, s.calls[o].(pdu := Some(p)), p);
    }
  }

  lemma WakeShape(s: System, c: nat)
    requires At(s, c, Woken) && CallOk(s.k, s.received, c, s.calls[c])
    ensures var t := AfterWake(s, c);
      (t == Goto(s, c, Checking) && s.calls[c].pdu.None?) || FollowerLeaves(s, t, c, t.calls[c])
  {
    var call := s.calls[c];
    ReleaseFrame(s.k, call.id);
    ReleaseFrame(s.k.(isReading := true), call.id);
    if call.id !in s.k.pending {
      assert s.k.pending - {call.id} == s.k.pending;
    }
  }

  lemma KeepWakes(s: System, c: nat)
    requires Inv(s) && At(s, c, Woken)
    ensures Inv(AfterWake(s, c))
  {
    assert CallOk(s.k, s.received, c, s.calls[c]);
    WakeShape(s, c);
    var t := AfterWake(s, c);
    if t == Goto(s, c, Checking) && s.calls[c].pdu.None? {
      KeepToCheck(s, c);
    } else {
      KeepFollowerLeaves(s, t, c, t.calls[c]);
    }
  }

  lemma KeepCleans(s: System, c: nat, oldest: Id)
    requires Inv(s) && At(s, c, Cleaning)
    ensures Inv(Next(s, Cleans(c, oldest)))
  {
    var t := Next(s, Cleans(c, oldest));
    var call := s.calls[c];
    var r := s.k.(pending := s.k.pending - {call.id});
    assert CallOk(s.k, s.received, c, call);
    if call.shouldRead {
      HandOffFrame(r, oldest);
      KeepReaderLeaves(s, t, c, call.(pc := Returned(false)));
    } else {
      ReleaseFrame(r, call.id);
      KeepFollowerLeaves(s, t, c, call.(pc := Returned(false)));
    }
  }

  // ---- single steps ----

  /** A step that enters does so with an id that is pending or holds no sync point. */
  predicate Guarded(s: System, a: Action) {
    a.Enters? ==> EntryOk(s, a.c)
  }

  lemma KeepBegin(s: System, c: nat, id: Id, server: Endpoint)
    requires Inv(s) && c !in s.calls
    ensures Inv(Next(s, Begin(c, id, server)))
  {
    var t := Next(s, Begin(c, id, server));
    var x := Call(id, server, Entering, false, None, None);
    assert t == s.(calls := s.calls[c := x]);
    BeginRest(s, t, c, x);
    BeginOwned(s.k, s.calls, t.calls, c, x);
    BeginReader(s.k.isReading, s.calls, t.calls, c, x);
  }

  lemma BeginRest(s: System, t: System, c: nat, x: Call)
    requires c !in s.calls && t == s.(calls := s.calls[c := x]) && x.pc.Entering? && x.pdu.None? && !x.shouldRead
    requires DistinctIds(s.calls) && SerialsOnce(s.calls) && CallsOk(s)
    ensures DistinctIds(t.calls) && SerialsOnce(t.calls) && CallsOk(t)
  {
    forall d | d in t.calls && d != c ensures CallOk(t.k, t.received, d, t.calls[d]) {
      assert CallOk(s.k, s.received, d, s.calls[d]);
    }
  }

  lemma BeginOwned(k: Socket, calls: map<nat, Call>, after: map<nat, Call>, c: nat, x: Call)
    requires c !in calls && after == calls[c := x] && Owned(k, calls)
    ensures Owned(k, after)
  {
    forall id | id in k.indices ensures exists d :: FollowerWith(after, d, id) {
      var d :| FollowerWith(calls, d, id);
      assert FollowerWith(after, d, id);
    }
  }

  lemma BeginReader(isReading: bool, calls: map<nat, Call>, after: map<nat, Call>, c: nat, x: Call)
    requires c !in calls && after == calls[c := x] && OneReader(isReading, calls) && !x.Reader()
    ensures OneReader(isReading, after)
  {
    forall d | IsReader(after, d) ensures IsReader(calls, d) {}
    if isReading {
      var d :| IsReader(calls, d);
      assert IsReader(after, d);
    }
  }

  /** Steps outside the critical sections that only move the program counter. */
  lemma KeepMoves(s: System, c: nat, pc: Pc)
    requires Inv(s) && c in s.calls && s.calls[c].Registered() && !pc.Entering? && !pc.Returned? && !pc.Holding?
        && !pc.Woken?
    requires pc.Reading? ==> s.calls[c].shouldRead
    requires pc.Waiting? ==> !s.calls[c].shouldRead
    requires pc.Cleaning? || !(s.calls[c].pc.Woken? || s.calls[c].pc.Cleaning?)
    ensures Inv(Goto(s, c, pc))
  {
    var x := s.calls[c].(pc := pc);
    assert CallOk(s.k, s.received, c, s.calls[c]);
    assert CallOk(s.k, s.received, c, x);
    KeepRelabel(s, Goto(s, c, pc), c, x);
  }

  lemma KeepReads(s: System, c: nat, id: Id, source: Endpoint)
    requires Inv(s) && At(s, c, Reading)
    ensures Inv(Next(s, Reads(c, id, source)))
  {
    var x := s.calls[c].(pc := Holding(Packet(|s.received|, id, source)));
    assert CallOk(s.k, s.received, c, s.calls[c]);
    KeepRelabel(s, Next(s, Reads(c, id, source)), c, x);
  }

  lemma StepInv(s: System, a: Action)
    requires Inv(s) && Enabled(s, a) && Guarded(s, a)
    ensures Inv(Next(s, a))
  {
    match a
    case Begin(c, id, server) => KeepBegin(s, c, id, server);
    case LockTimesOut(c) => KeepRefused(s, c);
    case Enters(c) => KeepEnters(s, c);
    case Sends(c, ok) => KeepMoves(s, c, if ok then LoopEntry(s.calls[c]) else Cleaning);
    case ReadFails(c) => KeepMoves(s, c, Cleaning);
    case ReadsJunk(c) => KeepMoves(s, c, Checking);
    case Reads(c, id, source) => KeepReads(s, c, id, source);
    case Drops(c) => KeepMoves(s, c, Checking);
    case Delivers(c, oldest) => KeepDelivers(s, c, oldest);
    case WaitSucceeds(c) => KeepWaits(s, c);
    case WaitTimesOut(c) => KeepMoves(s, c, Cleaning);
    case Wakes(c) => KeepWakes(s, c);
    case Checks(c, again) => KeepMoves(s, c, if again then LoopEntry(s.calls[c]) else Cleaning);
    case Cleans(c, oldest) => KeepCleans(s, c, oldest);
    case Idle =>
  }
}
