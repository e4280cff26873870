/** The socket object: tables and flags updated by the critical sections. The fixed-size tables inside the
    object are sequences of that size.

    Every method is proved to carry out a function of SocketModel or IdRing on the values the tables
    stand for, so the run theorems speak about these methods. */
module RadiusSocket {
  import opened Options
  import opened SocketModel
  import opened IdRing

  const P_MAX_INDEX: nat := 0x7fffffff
  const WORDS := 8
  const WORD_BITS := 32

  /** A 32-bit word of the sync point map as its bits, least significant first. */
  type Word = w: seq<bool> | |w| == WORD_BITS witness seq(WORD_BITS, _ => false)

  const EMPTY_WORD: Word := seq(WORD_BITS, _ => false)
  const FULL_WORD: Word := seq(WORD_BITS, _ => true)

  function Bits(words: seq<Word>): set<nat> {
    set i: nat | i < WORD_BITS * |words| && words[i / WORD_BITS][i % WORD_BITS]
  }

  lemma BitAt(words: seq<Word>, k: nat, i: nat)
    requires k < |words| && i < WORD_BITS
    ensures WORD_BITS * k + i in Bits(words) <==> words[k][i]
  {
    assert (WORD_BITS * k + i) / WORD_BITS == k && (WORD_BITS * k + i) % WORD_BITS == i;
  }

  lemma UpdateBit(words: seq<Word>, n: nat, b: bool)
    requires n < WORD_BITS * |words|
    ensures Bits(words[n / WORD_BITS := words[n / WORD_BITS][n % WORD_BITS := b]])
         == if b then Bits(words) + {n} else Bits(words) - {n}
  {
    var after := words[n / WORD_BITS := words[n / WORD_BITS][n % WORD_BITS := b]];
    forall m: nat | m < WORD_BITS * |words| && m != n
      ensures after[m / WORD_BITS][m % WORD_BITS] == words[m / WORD_BITS][m % WORD_BITS]
    {
    }
  }

  /** FirstFree is determined by the two facts a search establishes. */
  lemma {:induction false} FirstFreeIs(used: set<nat>, i: nat)
    requires i <= SLOTS && (forall j :: 0 <= j < i ==> j in used) && (i < SLOTS ==> i !in used)
    ensures FirstFree(used) == i
  {
    var f := FirstFree(used);
    assert f < i ==> f in used;
    assert i < f ==> i in used;
  }

  // What the fixed-size tables inside the object stand for.

  function PendingOf(table: seq<Option<Request>>): map<Id, Request> {
    map id: Id | 0 <= id < SLOTS && id < |table| && table[id].Some? :: table[id].value
  }

  function PointsOf(table: seq<Option<nat>>): map<nat, nat> {
    map i: nat | i < |table| && table[i].Some? :: table[i].value
  }

  function IndicesOf(table: seq<nat>): map<Id, nat> {
    map id: Id | 0 <= id < SLOTS && id < |table| && table[id] != P_MAX_INDEX :: table[id]
  }

  lemma NewTables()
    ensures PendingOf(seq(SLOTS, _ => None)) == map[]
    ensures IndicesOf(seq(SLOTS, _ => P_MAX_INDEX)) == map[]
    ensures Bits(seq(WORDS, _ => EMPTY_WORD)) == {}
    ensures PointsOf(seq(SLOTS, i requires i >= 0 => if i < PERMANENT then Some(i) else None)) == NewSocket().points
  {
  }

  lemma UpdatePending(table: seq<Option<Request>>, id: Id, r: Option<Request>)
    requires |table| == SLOTS
    ensures PendingOf(table[id := r])
         == if r.Some? then PendingOf(table)[id := r.value] else PendingOf(table) - {id}
  {
  }

  lemma UpdatePoint(table: seq<Option<nat>>, i: nat, o: Option<nat>)
    requires i < |table|
    ensures PointsOf(table[i := o])
         == if o.Some? then PointsOf(table)[i := o.value] else PointsOf(table) - {i}
  {
  }

  lemma UpdateIndex(table: seq<nat>, id: Id, i: nat)
    requires |table| == SLOTS
    ensures IndicesOf(table[id := i])
         == if i != P_MAX_INDEX then IndicesOf(table)[id := i] else IndicesOf(table) - {id}
  {
  }

  class RadiusSocket {
    var pendingRequests: seq<Option<Request>>
    var readSyncPoints: seq<Option<nat>>
    var readSyncPointIndices: seq<nat>
    var syncPointMap: seq<Word>
    var idTimestamps: seq<int>
    const permanentSyncPoints := PERMANENT
    var syncPointsMade: nat
    var signalled: set<nat>
    var isReading: bool
    var nestedCount: nat
    var oldestId: Id
    var nextId: Id

    ghost predicate Valid()
      reads this
    {
      && |pendingRequests| == |readSyncPoints| == |readSyncPointIndices| == |idTimestamps| == SLOTS
      && |syncPointMap| == WORDS
      && (forall id :: 0 <= id < SLOTS ==> readSyncPointIndices[id] < SLOTS || readSyncPointIndices[id] == P_MAX_INDEX)
    }

    /** The state SocketModel works on. */
    ghost function View(): Socket
      reads this
    {
      Socket(PendingOf(pendingRequests), IndicesOf(readSyncPointIndices), Bits(syncPointMap),
             PointsOf(readSyncPoints), syncPointsMade, signalled, isReading, nestedCount)
    }

    /** The state IdRing works on. */
    ghost function RingView(): Ring
      reads this
      requires Valid()
    {
      Ring(oldestId, nextId, idTimestamps)
    }

    constructor (start: Id)
      ensures Valid() && View() == NewSocket() && oldestId == nextId == start
    {
      pendingRequests := seq(SLOTS, _ => None);
      readSyncPoints := seq(SLOTS, i requires i >= 0 => if i < PERMANENT then Some(i) else None);
      readSyncPointIndices := seq(SLOTS, _ => P_MAX_INDEX);
      syncPointMap := seq(WORDS, _ => EMPTY_WORD);
      idTimestamps := seq(SLOTS, _ => 0);
      syncPointsMade, signalled, isReading, nestedCount := PERMANENT, {}, false, 0;
      oldestId, nextId := start, start;
      NewTables();
    }

    /** The first index whose bit is clear, searched word by word; its bit is set. */
    method FindFree() returns (index: nat)
      requires Valid()
      ensures index == (var i := FirstFree(Bits(syncPointMap)); if i == SLOTS then P_MAX_INDEX else i)
    {
      ghost var used := Bits(syncPointMap);
      var idx := 0;
      for k := 0 to WORDS
        invariant idx == WORD_BITS * k
        invariant forall j :: 0 <= j < idx ==> j in used
      {
        if syncPointMap[k] != FULL_WORD {
          for i := 0 to WORD_BITS
            invariant idx == WORD_BITS * k + i
            invariant forall j :: 0 <= j < idx ==> j in used
            invariant forall j :: 0 <= j < i ==> syncPointMap[k][j]
          {
            BitAt(syncPointMap, k, i);
            if !syncPointMap[k][i] {
              FirstFreeIs(used, idx);
              return idx;
            }
            idx := idx + 1;
          }
          assert false;
        } else {
          forall j | idx <= j < idx + WORD_BITS ensures j in used {
            BitAt(syncPointMap, k, j - idx);
          }
          idx := idx + WORD_BITS;
        }
      }
      FirstFreeIs(used, SLOTS);
      return P_MAX_INDEX;
    }

    method AllocReadSyncPoint() returns (index: nat)
      requires Valid()
      modifies this`syncPointsMade, this`syncPointMap, this`readSyncPoints
      ensures Valid()
      ensures (View(), if index == P_MAX_INDEX then SLOTS else index) == Alloc(old(View()))
      ensures index == P_MAX_INDEX || (index < SLOTS && readSyncPoints[index].Some?)
    {
      index := FindFree();
      if index != P_MAX_INDEX {
        UpdateBit(syncPointMap, index, true);
        syncPointMap := syncPointMap[index / WORD_BITS := syncPointMap[index / WORD_BITS][index % WORD_BITS := true]];
        if readSyncPoints[index] == None {
          UpdatePoint(readSyncPoints, index, Some(syncPointsMade));
          readSyncPoints := readSyncPoints[index := Some(syncPointsMade)];
          syncPointsMade := syncPointsMade + 1;
        }
      }
    }

    method FreeReadSyncPoint(index: nat)
      requires Valid()
      modifies this`syncPointMap, this`readSyncPoints, this`signalled
      ensures Valid() && View() == Free(old(View()), index)
    {
      if index < SLOTS {
        UpdateBit(syncPointMap, index, false);
        syncPointMap := syncPointMap[index / WORD_BITS := syncPointMap[index / WORD_BITS][index % WORD_BITS := false]];
        if index >= permanentSyncPoints {
          if readSyncPoints[index].Some? {
            signalled := signalled - {readSyncPoints[index].value};
          }
          UpdatePoint(readSyncPoints, index, None);
          readSyncPoints := readSyncPoints[index := None];
        }
      }
    }

    /** Wakes whoever sleeps on the sync point recorded for an id, if there is one. */
    method SignalId(id: Id)
      requires Valid() && readSyncPointIndices[id] != P_MAX_INDEX && readSyncPoints[readSyncPointIndices[id]].Some?
      modifies this`signalled
      ensures Valid() && View() == Signal(old(View()), id)
    {
      signalled := signalled + {readSyncPoints[readSyncPointIndices[id]].value};
    }

    /** m_isReading is cleared and the scan from the oldest id on signals one sleeper. */
    method StopReading()
      requires Valid()
      modifies this`isReading, this`signalled
      ensures Valid() && View() == HandOff(old(View()), oldestId)
    {
      isReading := false;
      if nestedCount > 0 {
        ghost var v := View();
        var j := oldestId;
        for i := 0 to SLOTS
          invariant View() == v
          invariant i < SLOTS ==> Gap(j, Pred(oldestId)) == SLOTS - 1 - i
          invariant NextWaiter(v, oldestId, Pred(oldestId)) == if i < SLOTS then NextWaiter(v, j, Pred(oldestId))
              else None
        {
          if readSyncPointIndices[j] != P_MAX_INDEX && readSyncPoints[readSyncPointIndices[j]].Some? {
            SignalId(j);
            return;
          }
          j := Succ(j);
        }
      }
    }

    /** The follower's sync point goes back and the count drops. */
    method ReleaseSyncPoint(id: Id)
      requires Valid()
      modifies this`syncPointMap, this`readSyncPoints, this`signalled, this`readSyncPointIndices, this`nestedCount
      ensures Valid() && View() == Release(old(View()), id)
    {
      FreeReadSyncPoint(readSyncPointIndices[id]);
      UpdateIndex(readSyncPointIndices, id, P_MAX_INDEX);
      readSyncPointIndices := readSyncPointIndices[id := P_MAX_INDEX];
      if nestedCount > 0 {
        nestedCount := nestedCount - 1;
      }
    }

    /** Another thread is reading: a sync point is needed to sleep on. (The branch for a sync point that
        could not be made has no counterpart, as making one does not fail here.) */
    method EnterAsFollower(owner: nat, id: Id, server: Endpoint) returns (entry: Entry)
      requires Valid() && isReading && pendingRequests[id].None?
      modifies this`pendingRequests, this`readSyncPointIndices, this`nestedCount
      modifies this`syncPointsMade, this`syncPointMap, this`readSyncPoints
      ensures Valid() && (View(), entry) == Enter(old(View()), owner, id, server)
    {
      var index := AllocReadSyncPoint();
      if index == P_MAX_INDEX {
        return Refused;
      }
      entry := AsFollower(readSyncPoints[index].value);
      UpdateIndex(readSyncPointIndices, id, index);
      readSyncPointIndices := readSyncPointIndices[id := index];
      nestedCount := nestedCount + 1;
      UpdatePending(pendingRequests, id, Some(Request(owner, server)));
      pendingRequests := pendingRequests[id := Some(Request(owner, server))];
    }

    /** Entry of MakeRequest with the mutex held. */
    method EnterRequest(owner: nat, id: Id, server: Endpoint) returns (entry: Entry)
      requires Valid()
      modifies this
      ensures Valid() && (View(), entry) == Enter(old(View()), owner, id, server)
      ensures RingView() == old(RingView())
    {
      if pendingRequests[id].Some? {
        return Refused;
      }
      if !isReading {
        isReading := true;
        UpdatePending(pendingRequests, id, Some(Request(owner, server)));
        pendingRequests := pendingRequests[id := Some(Request(owner, server))];
        entry := AsReader;
      } else {
        entry := EnterAsFollower(owner, id, server);
      }
    }

    /** The reader of request `id` routes a packet with the mutex held. */
    method DeliverPacket(id: Id, p: Packet) returns (routing: Routing)
      requires Valid()
      modifies this
      ensures Valid() && (View(), routing) == Deliver(old(View()), id, p, oldestId)
      ensures RingView() == old(RingView())
    {
      if pendingRequests[p.id] == None || p.source != pendingRequests[p.id].value.server {
        return Dropped;
      }
      var owner := pendingRequests[p.id].value.owner;
      UpdatePending(pendingRequests, p.id, None);
      pendingRequests := pendingRequests[p.id := None];
      if p.id == id {
        StopReading();
        return Own(owner);
      } else if readSyncPointIndices[p.id] != P_MAX_INDEX && readSyncPoints[readSyncPointIndices[p.id]].Some? {
        SignalId(p.id);
        return Other(owner);
      }
      return Stray(owner);
    }

    /** A follower woke up and has the mutex. */
    method WakeFollower(id: Id) returns (waking: Waking)
      requires Valid()
      modifies this
      ensures Valid() && (View(), waking) == Wake(old(View()), id)
      ensures RingView() == old(RingView())
    {
      if pendingRequests[id] == None {
        ReleaseSyncPoint(id);
        return Answered;
      }
      if !isReading {
        isReading := true;
        ReleaseSyncPoint(id);
        return TakesOver;
      }
      return KeepsWaiting;
    }

    /** The end of MakeRequest for every call that has not returned yet. */
    method CleanupRequest(id: Id, shouldRead: bool)
      requires Valid()
      modifies this
      ensures Valid() && View() == Cleanup(old(View()), id, shouldRead, oldestId)
      ensures RingView() == old(RingView())
    {
      UpdatePending(pendingRequests, id, None);
      pendingRequests := pendingRequests[id := None];
      if readSyncPointIndices[id] != P_MAX_INDEX {
        ReleaseSyncPoint(id);
      }
      if isReading && shouldRead {
        StopReading();
      }
    }

    // ---- ids ----

    method RefreshIdCache(now: int, timeout: int)
      requires Valid()
      modifies this`oldestId
      ensures Valid() && RingView() == Refresh(old(RingView()), now, timeout)
    {
      var lastId: int := if nextId >= oldestId then nextId else nextId + 256;
      var i: int := oldestId;
      while i < lastId && idTimestamps[oldestId] + timeout < now
        invariant lastId - i == Dist(oldestId, nextId)
        invariant Refresh(RingView(), now, timeout) == Refresh(old(RingView()), now, timeout)
      {
        i := i + 1;
        oldestId := Succ(oldestId);
      }
    }

    method GenerateNewId(now: int, timeout: int) returns (id: nat)
      requires Valid()
      modifies this`oldestId, this`nextId, this`idTimestamps
      ensures Valid()
      ensures (RingView(), if id == P_MAX_INDEX then None else Some(id)) == Generate(old(RingView()), now, timeout)
      ensures id < SLOTS || id == P_MAX_INDEX
    {
      RefreshIdCache(now, timeout);
      if (nextId + 1) % 256 == oldestId {
        return P_MAX_INDEX;
      }
      id := nextId;
      idTimestamps := idTimestamps[nextId := now];
      nextId := (nextId + 1) % 256;
    }
  }
}
