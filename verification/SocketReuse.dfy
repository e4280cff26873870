/** The guard of SocketEntry can fail: the duplicate check of the code sees only requests that have not
    been delivered, so an id that comes back too early passes it. */
module SocketReuse {
  import opened Options
  import opened SocketModel
  import opened SocketRun
  import opened SocketSafety

  const SERVER := Endpoint(0, 1812)
  const RESPONSE := Packet(0, 5, SERVER)

  const POINTS := NewSocket().points

  function Reader(pc: Pc): Call {
    Call(1, SERVER, pc, true, None, None)
  }

  function Follower(point: nat, pdu: Option<Packet>): Call {
    Call(5, SERVER, Sending, false, Some(point), pdu)
  }

  /** The socket when call 0 reads. */
  const READING := Socket(map[1 := Request(0, SERVER)], map[], {}, POINTS, PERMANENT, {}, true, 0)

  /** ... when call 1 has entered as a follower ... */
  const FOLLOWED := Socket(map[1 := Request(0, SERVER), 5 := Request(1, SERVER)], map[5 := 0], {0}, POINTS,
      PERMANENT, {}, true, 1)

  /** ... when its response has been stored ... */
  const ANSWERED := Socket(map[1 := Request(0, SERVER)], map[5 := 0], {0}, POINTS, PERMANENT, {0}, true, 1)

  /** ... and when call 2 has entered with the same id. */
  const REUSED := Socket(map[1 := Request(0, SERVER), 5 := Request(2, SERVER)], map[5 := 1], {0, 1}, POINTS,
      PERMANENT, {0}, true, 2)

  const ENTERING := Call(5, SERVER, Entering, false, None, None)

  // the states of the run
  const S1 := System(NewSocket(), map[0 := Call(1, SERVER, Entering, false, None, None)], [])
  const S2 := System(READING, map[0 := Reader(Sending)], [])
  const S3 := System(READING, map[0 := Reader(Reading)], [])
  const S4 := System(READING, map[0 := Reader(Reading), 1 := ENTERING], [])
  const S5 := System(FOLLOWED, map[0 := Reader(Reading), 1 := Follower(0, None)], [])
  const S6 := System(FOLLOWED, map[0 := Reader(Holding(RESPONSE)), 1 := Follower(0, None)], [RESPONSE])
  const S7 := System(ANSWERED, map[0 := Reader(Checking), 1 := Follower(0, Some(RESPONSE))], [RESPONSE])
  const S8 := System(ANSWERED, map[0 := Reader(Checking), 1 := Follower(0, Some(RESPONSE)), 2 := ENTERING], [RESPONSE])
  const S9 := System(REUSED, map[0 := Reader(Checking), 1 := Follower(0, Some(RESPONSE)), 2 := Follower(1, None)],
      [RESPONSE])

  lemma FirstTwo()
    ensures FirstFree({}) == 0 && FirstFree({0}) == 1
  {
    var none: set<nat>, one: set<nat> := {}, {0};
    assert 0 < FirstFree(none) ==> 0 in none;
    assert 1 < FirstFree(one) ==> 1 in one;
    assert 0 in one;
  }

  lemma EnterSteps()
    ensures Enter(NewSocket(), 0, 1, SERVER) == (READING, AsReader)
    ensures Enter(READING, 1, 5, SERVER) == (FOLLOWED, AsFollower(0))
    ensures Enter(ANSWERED, 2, 5, SERVER) == (REUSED, AsFollower(1))
  {
    FirstTwo();
    assert READING.used + {0} == FOLLOWED.used && READING.indices[5 := 0] == FOLLOWED.indices;
    assert READING.pending[5 := Request(1, SERVER)] == FOLLOWED.pending;
    assert ANSWERED.pending[5 := Request(2, SERVER)] == REUSED.pending && ANSWERED.indices[5 := 1] == REUSED.indices;
    assert ANSWERED.used + {1} == REUSED.used;
  }

  lemma DeliverStep()
    ensures Deliver(FOLLOWED, 1, RESPONSE, 0) == (ANSWERED, Other(1))
  {
    assert FOLLOWED.pending - {5} == ANSWERED.pending;
    assert POINTS[FOLLOWED.indices[5]] == 0;
    assert FOLLOWED.signalled + {0} == ANSWERED.signalled;
  }

  /** One action of call c that leaves the calls as shown. */
  lemma EnterLeads(s: System, c: nat, t: System, entry: Entry)
    requires At(s, c, Entering) && t.received == s.received
    requires Enter(s.k, c, s.calls[c].id, s.calls[c].server) == (t.k, entry)
    requires match entry
      case Refused => false
      case AsReader => t.calls == s.calls[c := s.calls[c].(pc := Sending, shouldRead := true)]
      case AsFollower(o) => t.calls == s.calls[c := s.calls[c].(pc := Sending, point := Some(o))]
    ensures Leads(s, Enters(c), t)
  {
  }

  lemma ReaderSteps()
    ensures Leads(Init(), Begin(0, 1, SERVER), S1) && Leads(S1, Enters(0), S2) && Leads(S2, Sends(0, true), S3)
  {
    EnterSteps();
    EnterLeads(S1, 0, S2, AsReader);
  }

  lemma FollowerSteps()
    ensures Leads(S3, Begin(1, 5, SERVER), S4) && Leads(S4, Enters(1), S5)
  {
    EnterSteps();
    EnterLeads(S4, 1, S5, AsFollower(0));
  }

  lemma ReadStep()
    ensures Leads(S5, Reads(0, 5, SERVER), S6)
  {
  }

  lemma AnswerStep()
    ensures Leads(S6, Delivers(0, 0), S7)
  {
    DeliverStep();
  }

  lemma ReuseSteps()
    ensures Leads(S7, Begin(2, 5, SERVER), S8) && Leads(S8, Enters(2), S9)
  {
    EnterSteps();
    EnterLeads(S8, 2, S9, AsFollower(1));
  }

  /** A run with guarded entries goes on with a guarded action. */
  lemma Grown(tr: seq<System>, acts: seq<Action>, a: Action, t: System) returns (tr': seq<System>, acts': seq<Action>)
    requires IsRun(tr, acts) && EntriesGuarded(tr, acts) && Leads(tr[|acts|], a, t) && Guarded(tr[|acts|], a)
    ensures IsRun(tr', acts') && EntriesGuarded(tr', acts') && tr'[|acts'|] == t
  {
    tr', acts' := tr + [t], acts + [a];
    PathGrows(tr, acts, a, t);
  }

  /** Call 0 reads for id 1, and call 1 follows with id 5. */
  lemma FollowedRun() returns (tr: seq<System>, acts: seq<Action>)
    ensures IsRun(tr, acts) && EntriesGuarded(tr, acts) && tr[|acts|] == S5
  {
    ReaderSteps();
    FollowerSteps();
    tr, acts := [Init()], [];
    tr, acts := Grown(tr, acts, Begin(0, 1, SERVER), S1);
    tr, acts := Grown(tr, acts, Enters(0), S2);
    tr, acts := Grown(tr, acts, Sends(0, true), S3);
    tr, acts := Grown(tr, acts, Begin(1, 5, SERVER), S4);
    tr, acts := Grown(tr, acts, Enters(1), S5);
  }

  /** Call 1 gets its response, and call 2 begins with id 5. */
  lemma ReuseRun() returns (tr: seq<System>, acts: seq<Action>)
    ensures IsRun(tr, acts) && EntriesGuarded(tr, acts) && tr[|acts|] == S8
  {
    ReadStep();
    AnswerStep();
    ReuseSteps();
    tr, acts := FollowedRun();
    tr, acts := Grown(tr, acts, Reads(0, 5, SERVER), S6);
    tr, acts := Grown(tr, acts, Delivers(0, 0), S7);
    tr, acts := Grown(tr, acts, Begin(2, 5, SERVER), S8);
  }

  /** Call d is a follower with a response, and call c has passed the duplicate check with its id. */
  ghost predicate IdReused(s: System, c: nat, d: nat) {
    && c in s.calls && d in s.calls && c != d && s.calls[c].id == s.calls[d].id
    && s.calls[c].Registered() && s.calls[c].pdu.None?
    && s.calls[d].Follower() && s.calls[d].pdu.Some?
  }

  /** The sync point of follower d is taken, and recorded for no id. */
  ghost predicate PointLost(s: System, d: nat) {
    d in s.calls &&
    exists i :: i in s.k.points && Some(s.k.points[i]) == s.calls[d].point && i in s.k.used
        && Unrecorded(s.k.indices, i)
  }

  ghost predicate Unrecorded(indices: map<Id, nat>, i: nat) {
    forall a :: a in indices ==> indices[a] != i
  }

  /** The duplicate check alone does not keep the tables consistent: after a run in which every entry was
      guarded, call 2 enters with the id of call 1, which has its response and has not woken yet; the
      sync point of call 1 then stays taken, recorded for no id. */
  lemma DuplicateCheckIsNotEnough() returns (tr: seq<System>, acts: seq<Action>, t: System)
    ensures IsRun(tr, acts) && EntriesGuarded(tr, acts) && Leads(tr[|acts|], Enters(2), t)
    ensures !EntryOk(tr[|acts|], 2) && IdReused(t, 2, 1) && PointLost(t, 1) && !IndexBijection(t.k)
  {
    tr, acts := ReuseRun();
    t := S9;
    ReuseSteps();
    assert POINTS[0] == 0 && Unrecorded(REUSED.indices, 0);
    assert 0 in REUSED.used && forall a :: a in REUSED.indices ==> REUSED.indices[a] != 0;
  }
}
