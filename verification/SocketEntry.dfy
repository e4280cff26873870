/** The guard on entries is exact: an entry that violates it leads out of the safe states. */
module SocketEntry {
  import opened Options
  import opened SocketModel
  import opened SocketRun
  import opened SocketSafety

  // ---- with an id that holds no sync point there is a free bit ----

  function Below(n: nat): (b: set<int>)
    ensures |b| == n && forall i :: i in b <==> 0 <= i < n
  {
    if n == 0 then {} else Below(n - 1) + {n - 1}
  }

  lemma {:induction false} SubsetSize(a: set<int>, b: set<int>)
    requires a <= b
    ensures |a| <= |b|
  {
    if exists x: int :: x in a {
      var x: int :| x in a;
      SubsetSize(a - {x}, b - {x});
    }
  }

  /** As many bits are set as ids hold sync points. */
  lemma {:induction false} UsedSize(indices: map<Id, nat>, used: set<nat>)
    requires IndicesOk(indices, used)
    ensures |used| == |indices|
    decreases |indices|
  {
    if indices == map[] {
      assert forall a, i :: !Holds(indices, a, i);
      assert used == {};
    } else {
      var id :| id in indices;
      DropIndex(indices, indices - {id}, used, id);
      UsedSize(indices - {id}, used - {indices[id]});
    }
  }

  lemma FreeBit(indices: map<Id, nat>, used: set<nat>, y: Id)
    requires IndicesOk(indices, used) && y !in indices
    ensures FirstFree(used) < SLOTS
  {
    UsedSize(indices, used);
    FewKeys(indices.Keys, y);
    if Below(SLOTS) <= used {
      SubsetSize(Below(SLOTS), used);
    }
  }

  lemma FewKeys(keys: set<Id>, y: Id)
    requires y !in keys
    ensures |keys| < SLOTS
  {
    SubsetSize(keys, Below(SLOTS) - {y});
  }

  // ---- an unguarded entry ----

  ghost predicate Unguarded(s: System, c: nat) {
    At(s, c, Entering) && !EntryOk(s, c)
  }

  /** A claim of a sync point for an id that holds one already. */
  lemma BijectionBroken(k: Socket, t: Socket, id: Id, i: nat)
    requires IndicesOk(k.indices, k.used) && id in k.indices && i !in k.used
    requires t.indices == k.indices[id := i] && t.used == k.used + {i}
    ensures !IndexBijection(t)
  {
    var j := k.indices[id];
    assert j in t.used && forall b :: b in t.indices ==> t.indices[b] != j;
  }

  lemma EnterTable(k: Socket, owner: nat, id: Id, server: Endpoint)
    requires SocketOk(k) && k.isReading && id !in k.pending && FirstFree(k.used) < SLOTS
    ensures var t := Enter(k, owner, id, server).0; var i := FirstFree(k.used);
      i !in k.used && t.indices == k.indices[id := i] && t.used == k.used + {i}
  {
    var (a, i) := Alloc(k);
    AllocShape(k, a, i);
    assert i in a.points;
  }

  lemma EntryBreaksTable(k: Socket, owner: nat, id: Id, server: Endpoint)
    requires SocketOk(k) && k.isReading && id !in k.pending && id in k.indices && FirstFree(k.used) < SLOTS
    ensures !IndexBijection(Enter(k, owner, id, server).0)
  {
    EnterTable(k, owner, id, server);
    BijectionBroken(k, Enter(k, owner, id, server).0, id, FirstFree(k.used));
  }

  lemma ReaderWithoutPoint(s: System)
    requires CallsOk(s) && SocketOk(s.k) && OneReader(s.k.isReading, s.calls) && s.k.isReading
    ensures FirstFree(s.k.used) < SLOTS
  {
    var r :| IsReader(s.calls, r);
    assert CallOk(s.k, s.received, r, s.calls[r]);
    FreeBit(s.k.indices, s.k.used, s.calls[r].id);
  }

  /** While a call reads, the new follower's sync point takes the place of the old one in the table. */
  lemma FollowerBreaks(s: System, c: nat)
    requires Inv(s) && Unguarded(s, c) && s.k.isReading
    ensures !IndexBijection(AfterEnter(s, c).k)
  {
    ReaderWithoutPoint(s);
    EntryBreaksTable(s.k, c, s.calls[c].id, s.calls[c].server);
  }

  /** A released sync point is not in use, at whatever index one looks for it. */
  lemma ReleaseTakes(k: Socket, id: Id)
    requires PointsOk(k.points, k.used, k.created) && id in k.indices && k.indices[id] in k.points
    ensures var r := Release(k, id);
      forall i :: i in r.points && r.points[i] == k.points[k.indices[id]] ==> i !in r.used
  {
  }

  /** While no call reads, the new reader's cleanup releases the sync point that the old follower sleeps on. */
  lemma CleanupBreaks(k: Socket, id: Id, oldest: Id)
    requires PointsOk(k.points, k.used, k.created) && id in k.indices && k.indices[id] in k.points && k.isReading
    ensures var t := Cleanup(k, id, true, oldest);
      forall i :: i in t.points && t.points[i] == k.points[k.indices[id]] ==> i !in t.used
  {
    var r := k.(pending := k.pending - {id});
    ReleaseTakes(r, id);
    HandOffFrame(Release(r, id), oldest);
  }

  /** The reader's write fails, and it cleans up. */
  ghost function AfterFailure(s: System, c: nat, oldest: Id): System
    requires At(s, c, Sending)
  {
    var t := Goto(s, c, Cleaning);
    Goto(t.(k := Cleanup(t.k, t.calls[c].id, t.calls[c].shouldRead, oldest)), c, Returned(false))
  }

  lemma ReaderBreaks(s: System, c: nat, d: nat, oldest: Id)
    requires Inv(s) && Unguarded(s, c) && !s.k.isReading && FollowerWith(s.calls, d, s.calls[c].id)
    ensures At(AfterEnter(s, c), c, Sending) && !SleepersSafe(AfterFailure(AfterEnter(s, c), c, oldest))
  {
    var id := s.calls[c].id;
    var t := AfterEnter(s, c);
    assert CallOk(s.k, s.received, d, s.calls[d]);
    CleanupBreaks(t.k, id, oldest);
    var u := AfterFailure(t, c, oldest);
    assert d != c && u.calls[d] == s.calls[d] && s.calls[d].point == Some(s.k.points[s.k.indices[id]]);
    assert forall i :: i in u.k.points && u.k.points[i] == s.k.points[s.k.indices[id]] ==> i !in u.k.used;
  }

  lemma BrokenIsUnsafe(s: System)
    requires !IndexBijection(s.k) || !SleepersSafe(s)
    ensures !Safe(s)
  {
  }

  lemma FailureLeads(t: System, c: nat, oldest: Id)
    requires At(t, c, Sending)
    ensures Leads(t, Sends(c, false), Goto(t, c, Cleaning))
    ensures Leads(Goto(t, c, Cleaning), Cleans(c, oldest), AfterFailure(t, c, oldest))
  {
  }

  /** A path on which call c enters first and nobody enters after it. */
  ghost predicate OneEntry(s: System, c: nat, tr: seq<System>, acts: seq<Action>) {
    && IsPath(tr, acts) && tr[0] == s && |acts| > 0 && acts[0] == Enters(c)
    && forall i :: 0 < i < |acts| ==> !acts[i].Enters?
  }

  lemma EntryAlone(s: System, c: nat, t: System) returns (tr: seq<System>, acts: seq<Action>)
    requires Leads(s, Enters(c), t)
    ensures OneEntry(s, c, tr, acts) && |acts| == 1 && tr[1] == t
  {
    tr, acts := [s] + [t], [] + [Enters(c)];
    PathGrows([s], [], Enters(c), t);
  }

  lemma EntryGoesOn(s: System, c: nat, tr: seq<System>, acts: seq<Action>, a: Action, t: System)
    returns (tr': seq<System>, acts': seq<Action>)
    requires OneEntry(s, c, tr, acts) && Leads(tr[|acts|], a, t) && !a.Enters?
    ensures OneEntry(s, c, tr', acts') && |acts'| == |acts| + 1 && tr'[|acts'|] == t
  {
    tr', acts' := tr + [t], acts + [a];
    PathGrows(tr, acts, a, t);
  }

  /** The path out of the safe states: the entry alone, or the entry, a failed write and the cleanup. */
  lemma EntryBreaks(s: System, c: nat) returns (tr: seq<System>, acts: seq<Action>)
    requires Inv(s) && Unguarded(s, c)
    ensures OneEntry(s, c, tr, acts) && |acts| <= 3 && !Safe(tr[|acts|])
  {
    var t := AfterEnter(s, c);
    tr, acts := EntryAlone(s, c, t);
    if s.k.isReading {
      FollowerBreaks(s, c);
      BrokenIsUnsafe(t);
    } else {
      var d :| FollowerWith(s.calls, d, s.calls[c].id);
      var u := AfterFailure(t, c, 0);
      ReaderBreaks(s, c, d, 0);
      BrokenIsUnsafe(u);
      FailureLeads(t, c, 0);
      tr, acts := EntryGoesOn(s, c, tr, acts, Sends(c, false), Goto(t, c, Cleaning));
      tr, acts := EntryGoesOn(s, c, tr, acts, Cleans(c, 0), u);
    }
  }

  lemma OneEntryGuarded(s: System, c: nat, tr: seq<System>, acts: seq<Action>)
    requires EntryOk(s, c) && OneEntry(s, c, tr, acts)
    ensures EntriesGuarded(tr, acts)
  {
  }

  ghost predicate StaysSafe(s: System, c: nat) {
    forall tr, acts, i :: OneEntry(s, c, tr, acts) && 0 <= i <= |acts| ==> Safe(tr[i])
  }

  /** Main result: at the end of any run with guarded entries, a call may enter if and only if its id is
      pending or holds no sync point; otherwise at most three steps lead to a state that is not safe. */
  lemma EntryExact(tr: seq<System>, acts: seq<Action>, c: nat)
    requires IsRun(tr, acts) && EntriesGuarded(tr, acts) && At(tr[|acts|], c, Entering)
    ensures StaysSafe(tr[|acts|], c) <==> EntryOk(tr[|acts|], c)
  {
    var s := tr[|acts|];
    RunInv(tr, acts, |acts|);
    if EntryOk(s, c) {
      forall tr, acts, i | OneEntry(s, c, tr, acts) && 0 <= i <= |acts| ensures Safe(tr[i]) {
        OneEntryGuarded(s, c, tr, acts);
        PathInv(tr, acts, i);
        InvSafe(tr[i]);
      }
    } else {
      var tr', acts' := EntryBreaks(s, c);
      assert OneEntry(s, c, tr', acts');
    }
  }
}
