/** A hand-off can be lost: the scan may pick a follower that has its response and only has to wake up. */
module SocketStranded {
  import opened Options
  import opened SocketModel
  import opened SocketRun
  import opened SocketSafety
  import opened SocketHandOff
  import opened SocketReuse

  /** Call c waits for a response, nobody reads, and nobody that could wake up will. */
  ghost predicate Stranded(s: System, c: nat) {
    && At(s, c, Waiting) && s.calls[c].id in s.k.pending && !s.k.isReading
    && forall d :: d in s.calls && s.calls[d].Follower() && (HandedTo(s, d) || s.calls[d].pc.Woken?)
          ==> !StillWaits(s, d)
  }

  const OWN := Packet(1, 1, SERVER)

  function Second(pc: Pc): Call {
    Call(6, SERVER, pc, false, if pc == Entering then None else Some(1), None)
  }

  const FIRST := Follower(0, None)
  const ANSWERED_FIRST := Follower(0, Some(RESPONSE))

  /** The socket when calls 1 and 2 follow, when call 1 has its response, and when call 0 has left. */
  const BOTH := Socket(map[1 := Request(0, SERVER), 5 := Request(1, SERVER), 6 := Request(2, SERVER)],
                       map[5 := 0, 6 := 1], {0, 1}, POINTS, PERMANENT, {}, true, 2)
  const ROUTED := Socket(map[1 := Request(0, SERVER), 6 := Request(2, SERVER)],
                         map[5 := 0, 6 := 1], {0, 1}, POINTS, PERMANENT, {0}, true, 2)
  const LEFT := Socket(map[6 := Request(2, SERVER)], map[5 := 0, 6 := 1], {0, 1}, POINTS, PERMANENT, {0}, false, 2)

  // the states after S5
  const T1 := System(FOLLOWED, map[0 := Reader(Reading), 1 := FIRST, 2 := Second(Entering)], [])
  const T2 := System(BOTH, map[0 := Reader(Reading), 1 := FIRST, 2 := Second(Sending)], [])
  const T3 := System(BOTH, map[0 := Reader(Reading), 1 := FIRST, 2 := Second(Waiting)], [])
  const T4 := System(BOTH, map[0 := Reader(Holding(RESPONSE)), 1 := FIRST, 2 := Second(Waiting)], [RESPONSE])
  const T5 := System(ROUTED, map[0 := Reader(Checking), 1 := ANSWERED_FIRST, 2 := Second(Waiting)], [RESPONSE])
  const T6 := System(ROUTED, map[0 := Reader(Reading), 1 := ANSWERED_FIRST, 2 := Second(Waiting)], [RESPONSE])
  const T7 := System(ROUTED, map[0 := Reader(Holding(OWN)), 1 := ANSWERED_FIRST, 2 := Second(Waiting)], [RESPONSE, OWN])
  const T8 := System(LEFT,
      map[0 := Reader(Returned(true)).(pdu := Some(OWN)), 1 := ANSWERED_FIRST, 2 := Second(Waiting)],
                     [RESPONSE, OWN])

  lemma SecondEnters()
    ensures Enter(FOLLOWED, 2, 6, SERVER) == (BOTH, AsFollower(1))
  {
    FirstTwo();
    assert FOLLOWED.used + {1} == BOTH.used && FOLLOWED.indices[6 := 1] == BOTH.indices;
    assert FOLLOWED.pending[6 := Request(2, SERVER)] == BOTH.pending;
  }

  lemma FirstAnswered()
    ensures Deliver(BOTH, 1, RESPONSE, 0) == (ROUTED, Other(1))
  {
    assert BOTH.pending - {5} == ROUTED.pending;
    assert POINTS[BOTH.indices[5]] == 0;
    assert BOTH.signalled + {0} == ROUTED.signalled;
  }

  lemma ReaderAnswered()
    ensures Deliver(ROUTED, 1, OWN, 5) == (LEFT, Own(0))
  {
    assert ROUTED.pending - {1} == LEFT.pending;
    assert POINTS[ROUTED.indices[5]] == 0;
    assert ROUTED.signalled + {0} == LEFT.signalled;
  }

  lemma SecondFollows()
    ensures Leads(S5, Begin(2, 6, SERVER), T1) && Leads(T1, Enters(2), T2) && Leads(T2, Sends(2, true), T3)
  {
    SecondEnters();
    EnterLeads(T1, 2, T2, AsFollower(1));
  }

  lemma ReaderHolds()
    ensures Leads(T3, Reads(0, 5, SERVER), T4)
  {
  }

  lemma FirstGets()
    ensures Leads(T4, Delivers(0, 0), T5)
  {
    FirstAnswered();
  }

  lemma ReaderReads()
    ensures Leads(T5, Checks(0, true), T6) && Leads(T6, Reads(0, 1, SERVER), T7)
  {
  }

  lemma ReaderGets()
    ensures Leads(T7, Delivers(0, 5), T8)
  {
    ReaderAnswered();
  }

  lemma BothFollow() returns (tr: seq<System>, acts: seq<Action>)
    ensures IsRun(tr, acts) && EntriesGuarded(tr, acts) && tr[|acts|] == T4
  {
    SecondFollows();
    ReaderHolds();
    tr, acts := FollowedRun();
    tr, acts := Grown(tr, acts, Begin(2, 6, SERVER), T1);
    tr, acts := Grown(tr, acts, Enters(2), T2);
    tr, acts := Grown(tr, acts, Sends(2, true), T3);
    tr, acts := Grown(tr, acts, Reads(0, 5, SERVER), T4);
  }

  lemma ReaderLeft() returns (tr: seq<System>, acts: seq<Action>)
    ensures IsRun(tr, acts) && EntriesGuarded(tr, acts) && tr[|acts|] == T8
  {
    FirstGets();
    ReaderReads();
    ReaderGets();
    tr, acts := BothFollow();
    tr, acts := Grown(tr, acts, Delivers(0, 0), T5);
    tr, acts := Grown(tr, acts, Checks(0, true), T6);
    tr, acts := Grown(tr, acts, Reads(0, 1, SERVER), T7);
    tr, acts := Grown(tr, acts, Delivers(0, 5), T8);
  }

  lemma NobodyTakesOver()
    ensures HandedTo(T8, 1) && Stranded(T8, 2)
  {
  }

  /** Call 0 reads, calls 1 and 2 follow; call 1 gets its response and has not woken when call 0 gets its
      own and hands over to it. Call 2 is left waiting with nobody to read for it. */
  lemma HandOffLost() returns (tr: seq<System>, acts: seq<Action>)
    ensures IsRun(tr, acts) && EntriesGuarded(tr, acts)
    ensures HandedTo(tr[|acts|], 1) && Stranded(tr[|acts|], 2)
  {
    tr, acts := ReaderLeft();
    NobodyTakesOver();
  }
}
