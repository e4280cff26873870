/** The shared state of one RADIUS client socket, and its four critical sections as functions.

    Each function is one section of `RadiusSocket::MakeRequest` that runs with the read mutex held.
    The class in RadiusSocket.dfy carries them out on its tables; SocketRun.dfy interleaves them. */
module SocketModel {
  import opened Options

  const SLOTS := 256
  /** Sync points with a smaller index than this live as long as the socket does. */
  const PERMANENT := 8

  type Id = x: int | 0 <= x < 256

  datatype Endpoint = Endpoint(addr: int, port: int)

  /** A response that passed the size and format checks; `serial` tells receptions apart. */
  datatype Packet = Packet(serial: nat, id: Id, source: Endpoint)

  /** A pending request; its response goes into the result variable of call `owner`. */
  datatype Request = Request(owner: nat, server: Endpoint)

  datatype Socket = Socket(
    pending: map<Id, Request>,  // non-null m_pendingRequests
    indices: map<Id, nat>,      // m_readSyncPointIndices that are not P_MAX_INDEX
    used: set<nat>,             // bits set in m_syncPointMap
    points: map<nat, nat>,      // non-null m_readSyncPoints: index to sync point object
    created: nat,               // sync point objects made so far
    signalled: set<nat>,        // sync point objects with a signal nobody has consumed
    isReading: bool,
    nested: nat)

  function Succ(i: Id): Id {
    if i == 255 then 0 else i + 1
  }

  function NewSocket(): Socket {
    Socket(map[], map[], {}, map[0 := 0, 1 := 1, 2 := 2, 3 := 3, 4 := 4, 5 := 5, 6 := 6, 7 := 7], PERMANENT, {},
        false, 0)
  }

  ghost function Least(s: set<nat>): (m: nat)
    requires s != {}
    ensures m in s && forall x :: x in s ==> m <= x
  {
    var x :| x in s;
    assert forall y :: y in s && y != x ==> y in s - {x};
    if s - {x} == {} then x
    else
      var m := Least(s - {x});
      if x < m then x else m
  }

  /** The lowest index whose bit is clear, SLOTS when there is none. */
  ghost function FirstFree(used: set<nat>): (i: nat)
    ensures i <= SLOTS
    ensures forall j :: 0 <= j < i ==> j in used
    ensures i < SLOTS ==> i !in used
  {
    var free := set i: nat | i < SLOTS && i !in used;
    assert forall j: nat :: j < SLOTS && j !in used ==> j in free;
    if free == {} then SLOTS else Least(free)
  }

  /** Claims a sync point; the index is SLOTS (P_MAX_INDEX in the source) when all are in use. */
  ghost function Alloc(k: Socket): (Socket, nat) {
    var i := FirstFree(k.used);
    if i == SLOTS then (k, SLOTS)
    else if i in k.points then (k.(used := k.used + {i}), i)
    else (k.(used := k.used + {i}, points := k.points[i := k.created], created := k.created + 1), i)
  }

  /** Gives a sync point back; beyond the permanent ones the object is deleted. */
  function Free(k: Socket, i: nat): Socket {
    if i >= SLOTS then k
    else if i < PERMANENT then k.(used := k.used - {i})
    else k.(used := k.used - {i}, points := k.points - {i},
            signalled := if i in k.points then k.signalled - {k.points[i]} else k.signalled)
  }

  function IndexOf(k: Socket, id: Id): nat {
    if id in k.indices then k.indices[id] else SLOTS
  }

  /** Frees the sync point held for an id and forgets the id's index. */
  function Release(k: Socket, id: Id): Socket {
    var f := Free(k, IndexOf(k, id));
    f.(indices := k.indices - {id}, nested := if k.nested > 0 then k.nested - 1 else 0)
  }

  /** How many steps in ring order lead from one id to another. */
  function Gap(j: Id, last: Id): nat {
    if j <= last then last - j else last - j + SLOTS
  }

  function Pred(i: Id): Id {
    if i == 0 then 255 else i - 1
  }

  /** Searches the ids from j to `last`, in ring order, for one that holds a sync point. */
  function NextWaiter(k: Socket, j: Id, last: Id): Option<Id>
    decreases Gap(j, last)
  {
    if j in k.indices && k.indices[j] in k.points then Some(j)
    else if j == last then None
    else NextWaiter(k, Succ(j), last)
  }

  function Signal(k: Socket, id: Id): Socket {
    if id in k.indices && k.indices[id] in k.points
    then k.(signalled := k.signalled + {k.points[k.indices[id]]})
    else k
  }

  /** The reader steps down and signals the oldest id that has a sync point. */
  function HandOff(k: Socket, oldest: Id): Socket {
    var r := k.(isReading := false);
    if r.nested == 0 then r
    else match NextWaiter(r, oldest, Pred(oldest))
      case None => r
      case Some(j) => Signal(r, j)
  }

  datatype Entry = Refused | AsReader | AsFollower(point: nat)

  /** First section: register the request, as the reader or with a sync point to sleep on. */
  ghost function Enter(k: Socket, owner: nat, id: Id, server: Endpoint): (Socket, Entry) {
    if id in k.pending then (k, Refused)
    else
      var pending := k.pending[id := Request(owner, server)];
      if !k.isReading then (k.(isReading := true, pending := pending), AsReader)
      else
        var (a, i) := Alloc(k);
        if i !in a.points then (Free(a, i), Refused)
        else (a.(indices := a.indices[id := i], nested := a.nested + 1, pending := pending),
              AsFollower(a.points[i]))
  }

  datatype Routing = Dropped | Own(owner: nat) | Other(owner: nat) | Stray(owner: nat)

  /** Second section, run by the reader whose own request has `id`: route a received packet. */
  function Deliver(k: Socket, id: Id, p: Packet, oldest: Id): (Socket, Routing) {
    if p.id !in k.pending || p.source != k.pending[p.id].server then (k, Dropped)
    else
      var owner := k.pending[p.id].owner;
      var r := k.(pending := k.pending - {p.id});
      if p.id == id then (HandOff(r, oldest), Own(owner))
      else if p.id in r.indices && r.indices[p.id] in r.points then (Signal(r, p.id), Other(owner))
      else (r, Stray(owner))
  }

  datatype Waking = Answered | TakesOver | KeepsWaiting

  /** Third section, run by a follower after its sync point was signalled. */
  function Wake(k: Socket, id: Id): (Socket, Waking) {
    if id !in k.pending then (Release(k, id), Answered)
    else if !k.isReading then (Release(k.(isReading := true), id), TakesOver)
    else (k, KeepsWaiting)
  }

  /** Last section, run by every call that did not return from one of the others. */
  function Cleanup(k: Socket, id: Id, shouldRead: bool, oldest: Id): Socket {
    var r := k.(pending := k.pending - {id});
    var f := if id in r.indices then Release(r, id) else r;
    if f.isReading && shouldRead then HandOff(f, oldest) else f
  }
}
