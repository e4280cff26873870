/** The 256-slot ring that hands out request ids and takes them back after a timeout.

    The ids from `oldest` up to, not including, `next` are outstanding; each carries the second in
    which it was issued. The ring refines a map from outstanding id to issue time. */
module IdRing {
  import opened Options
  import opened SocketModel

  type Stamps = s: seq<int> | |s| == SLOTS witness seq(SLOTS, _ => 0)

  datatype Ring = Ring(oldest: Id, next: Id, stamps: Stamps)

  /** Steps from a to b around the ring. */
  function Dist(a: Id, b: Id): nat {
    if b >= a then b - a else b - a + SLOTS
  }

  predicate Outstanding(r: Ring, id: Id) {
    Dist(r.oldest, id) < Dist(r.oldest, r.next)
  }

  predicate Expired(issued: int, timeout: int, now: int) {
    issued + timeout < now
  }

  /** RefreshIdCache: drop ids at the old end while they have expired. */
  function Refresh(r: Ring, now: int, timeout: int): Ring
    decreases Dist(r.oldest, r.next)
  {
    if Dist(r.oldest, r.next) > 0 && Expired(r.stamps[r.oldest], timeout, now)
    then Refresh(r.(oldest := Succ(r.oldest)), now, timeout)
    else r
  }

  /** The next id, unless the ring is full. */
  function Issue(f: Ring, now: int): (Ring, Option<Id>) {
    if Succ(f.next) == f.oldest then (f, None)
    else (f.(stamps := f.stamps[f.next := now], next := Succ(f.next)), Some(f.next))
  }

  /** GenerateNewId: None stands for P_MAX_INDEX. */
  function Generate(r: Ring, now: int, timeout: int): (Ring, Option<Id>) {
    Issue(Refresh(r, now, timeout), now)
  }

  // ---- the map the ring stands for ----

  function Live(r: Ring): map<Id, int> {
    map id: Id | 0 <= id < SLOTS && Outstanding(r, id) :: r.stamps[id]
  }

  function Unexpired(m: map<Id, int>, now: int, timeout: int): map<Id, int> {
    map id | id in m && m[id] + timeout >= now :: m[id]
  }

  /** Stamps grow from the old end to the new end, and none lies in the future. */
  ghost predicate Ordered(r: Ring, now: int) {
    && (forall a: Id, b: Id :: Outstanding(r, a) && Outstanding(r, b) && Dist(r.oldest, a) <= Dist(r.oldest, b)
                               ==> r.stamps[a] <= r.stamps[b])
    && (forall a: Id :: Outstanding(r, a) ==> r.stamps[a] <= now)
  }

  lemma DropOldest(r: Ring, now: int)
    requires r.oldest != r.next
    ensures var s := r.(oldest := Succ(r.oldest));
      && Dist(s.oldest, s.next) == Dist(r.oldest, r.next) - 1
      && (forall id: Id :: Outstanding(s, id) <==> Outstanding(r, id) && id != r.oldest)
      && (forall id: Id :: Outstanding(s, id) ==> Dist(s.oldest, id) == Dist(r.oldest, id) - 1)
      && (Ordered(r, now) ==> Ordered(s, now))
  {
  }

  lemma OldestFirst(r: Ring, now: int, timeout: int)
    requires Ordered(r, now) && (r.oldest == r.next || !Expired(r.stamps[r.oldest], timeout, now))
    ensures Unexpired(Live(r), now, timeout) == Live(r)
  {
    forall id | id in Live(r) ensures !Expired(Live(r)[id], timeout, now) {
      assert Dist(r.oldest, r.oldest) == 0;
      assert r.stamps[r.oldest] <= r.stamps[id];
    }
  }

  lemma ExpiredDropped(r: Ring, now: int, timeout: int)
    requires r.oldest != r.next && Expired(r.stamps[r.oldest], timeout, now)
    ensures Unexpired(Live(r.(oldest := Succ(r.oldest))), now, timeout) == Unexpired(Live(r), now, timeout)
  {
    DropOldest(r, now);
  }

  /** Refreshing releases exactly the expired ids. */
  lemma {:induction false} RefreshExact(r: Ring, now: int, timeout: int)
    requires Ordered(r, now)
    ensures var f := Refresh(r, now, timeout);
      && Live(f) == Unexpired(Live(r), now, timeout)
      && (forall id: Id :: id in Live(f) <==> id in Live(r) && r.stamps[id] + timeout >= now)
      && f.next == r.next && f.stamps == r.stamps && Ordered(f, now)
    decreases Dist(r.oldest, r.next)
  {
    if Dist(r.oldest, r.next) > 0 && Expired(r.stamps[r.oldest], timeout, now) {
      var s := r.(oldest := Succ(r.oldest));
      DropOldest(r, now);
      RefreshExact(s, now, timeout);
      ExpiredDropped(r, now, timeout);
    } else {
      OldestFirst(r, now, timeout);
    }
  }

  lemma {:induction false} LiveCount(r: Ring)
    ensures |Live(r)| == Dist(r.oldest, r.next)
    decreases Dist(r.oldest, r.next)
  {
    if r.oldest == r.next {
      assert Live(r) == map[];
    } else {
      var s := r.(oldest := Succ(r.oldest));
      LiveCount(s);
      DropOldest(r, 0);
      assert Live(r).Keys == Live(s).Keys + {r.oldest};
      assert |Live(r).Keys| == |Live(s).Keys| + 1;
    }
  }

  lemma AddNext(f: Ring, g: Ring, now: int)
    requires Succ(f.next) != f.oldest && Ordered(f, now)
    requires g == f.(stamps := f.stamps[f.next := now], next := Succ(f.next))
    ensures !Outstanding(f, f.next)
    ensures forall a: Id :: Outstanding(g, a) <==> Outstanding(f, a) || a == f.next
    ensures Ordered(g, now)
  {
  }

  lemma LiveAfterAdd(f: Ring, g: Ring, now: int)
    requires Succ(f.next) != f.oldest && Ordered(f, now)
    requires g == f.(stamps := f.stamps[f.next := now], next := Succ(f.next))
    ensures f.next !in Live(f) && Live(g) == Live(f)[f.next := now]
  {
    AddNext(f, g, now);
  }

  lemma FullRing(f: Ring)
    ensures Succ(f.next) == f.oldest <==> |Live(f)| == SLOTS - 1
  {
    LiveCount(f);
  }

  lemma IssueExact(f: Ring, now: int)
    requires Ordered(f, now)
    ensures var (g, id) := Issue(f, now);
      && Ordered(g, now)
      && (id == None <==> |Live(f)| == SLOTS - 1)
      && (id == None ==> Live(g) == Live(f))
      && (id.Some? ==> id.value !in Live(f) && Live(g) == Live(f)[id.value := now])
  {
    FullRing(f);
    if Succ(f.next) != f.oldest {
      var g := Issue(f, now).0;
      AddNext(f, g, now);
      LiveAfterAdd(f, g, now);
    }
  }

  /** Issuing fails exactly when 255 ids are unexpired; otherwise it adds an id that was not
      outstanding, stamped with the current second, to the unexpired ones. */
  lemma GenerateExact(r: Ring, now: int, timeout: int)
    requires Ordered(r, now)
    ensures var (g, id) := Generate(r, now, timeout); var m := Unexpired(Live(r), now, timeout);
      && Ordered(g, now)
      && (id == None <==> |m| == 255)
      && (id == None ==> g.next == r.next && Live(g) == m)
      && (id.Some? ==> id.value == r.next && g.next as int == (r.next + 1) % 256)
      && (id.Some? ==> id.value !in m && Live(g) == m[id.value := now])
  {
    RefreshExact(r, now, timeout);
    IssueExact(Refresh(r, now, timeout), now);
  }

  // ---- runs of the ring ----

  /** A visit to the socket in a given second, to ask for an id or only to tidy the cache. */
  datatype Visit = Visit(asks: bool, at: int)

  /** The ring after some visits, and what each of them got. */
  function Visits(r: Ring, vs: seq<Visit>, timeout: int): (Ring, seq<Option<Id>>)
    decreases |vs|
  {
    if vs == [] then (r, [])
    else
      var (p, ids) := Visits(r, vs[..|vs| - 1], timeout);
      var (g, id) := Served(p, vs[|vs| - 1], timeout);
      (g, ids + [id])
  }

  function Served(p: Ring, v: Visit, timeout: int): (Ring, Option<Id>) {
    if v.asks then Generate(p, v.at, timeout) else (Refresh(p, v.at, timeout), None)
  }

  /** What one visit does to the map. */
  lemma ServedExact(p: Ring, v: Visit, timeout: int)
    requires Ordered(p, v.at)
    ensures var (g, id) := Served(p, v, timeout); var m := Unexpired(Live(p), v.at, timeout);
      && Ordered(g, v.at)
      && Live(g) == (if id.Some? then m[id.value := v.at] else m)
      && (id.Some? ==> id.value !in m && id.value == p.next && g.next as int == (p.next + 1) % 256)
      && (id == None ==> g.next == p.next)
      && (v.asks ==> (id == None <==> |m| == 255))
  {
    RefreshExact(p, v.at, timeout);
    GenerateExact(p, v.at, timeout);
  }

  ghost predicate NonDecreasing(vs: seq<Visit>) {
    forall i, j :: 0 <= i <= j < |vs| ==> vs[i].at <= vs[j].at
  }

  /** Each id issued within the timeout is in `m`, with the second of its issue. */
  ghost predicate Remembers(m: map<Id, int>, vs: seq<Visit>, ids: seq<Option<Id>>, timeout: int, now: int) {
    && |ids| == |vs|
    && (forall i :: 0 <= i < |vs| && ids[i].Some? && !Expired(vs[i].at, timeout, now) ==>
          ids[i].value in m && m[ids[i].value] == vs[i].at)
  }

  lemma VisitRemembers(m: map<Id, int>, vs: seq<Visit>, ids: seq<Option<Id>>, id: Option<Id>, timeout: int, now: int)
    requires |vs| > 0 && vs[|vs| - 1].at <= now
    requires Remembers(m, vs[..|vs| - 1], ids, timeout, vs[|vs| - 1].at)
    requires id.Some? ==> id.value !in Unexpired(m, vs[|vs| - 1].at, timeout)
    ensures var u := Unexpired(m, vs[|vs| - 1].at, timeout);
      Remembers(if id.Some? then u[id.value := vs[|vs| - 1].at] else u, vs, ids + [id], timeout, now)
  {
    assert forall i :: 0 <= i < |vs| - 1 ==> vs[..|vs| - 1][i] == vs[i];
  }

  lemma VisitRemembered(p: Ring, vs: seq<Visit>, ids: seq<Option<Id>>, v: Visit, timeout: int, now: int)
    requires |vs| > 0 && v == vs[|vs| - 1] && v.at <= now
    requires Remembers(Live(p), vs[..|vs| - 1], ids, timeout, v.at) && Ordered(p, v.at)
    ensures var (g, id) := Served(p, v, timeout);
      Remembers(Live(g), vs, ids + [id], timeout, now) && Ordered(g, now)
  {
    ServedExact(p, v, timeout);
    VisitRemembers(Live(p), vs, ids, Served(p, v, timeout).1, timeout, now);
  }

  lemma {:induction false} VisitsRemembered(r: Ring, vs: seq<Visit>, timeout: int, now: int)
    requires r.oldest == r.next && NonDecreasing(vs) && (forall i :: 0 <= i < |vs| ==> vs[i].at <= now)
    ensures var (g, ids) := Visits(r, vs, timeout);
      Remembers(Live(g), vs, ids, timeout, now) && Ordered(g, now)
    decreases |vs|
  {
    if vs != [] {
      var n := |vs| - 1;
      var (p, ids) := Visits(r, vs[..n], timeout);
      VisitsRemembered(r, vs[..n], timeout, vs[n].at);
      VisitRemembered(p, vs, ids, vs[n], timeout, now);
    }
  }

  /** Main result: an id is reissued only after more than the timeout. */
  lemma {:induction false} ReissueIsLate(r: Ring, vs: seq<Visit>, timeout: int, i: nat, j: nat)
    requires r.oldest == r.next && NonDecreasing(vs) && i < j < |vs|
    ensures var ids := Visits(r, vs, timeout).1;
      |ids| == |vs| && (ids[i].Some? && ids[i] == ids[j] ==> vs[j].at > vs[i].at + timeout)
    decreases |vs|
  {
    var n := |vs| - 1;
    var (p, ids) := Visits(r, vs[..n], timeout);
    VisitsRemembered(r, vs[..n], timeout, vs[n].at);
    if j < n {
      ReissueIsLate(r, vs[..n], timeout, i, j);
    } else {
      ServedExact(p, vs[n], timeout);
      assert vs[..n][i] == vs[i];
    }
  }

  // ---- when a visit that asks gets no id ----

  /** Each id in `m` was issued by some visit, in the second recorded for it. */
  ghost predicate Recalls(m: map<Id, int>, vs: seq<Visit>, ids: seq<Option<Id>>) {
    |ids| == |vs| && forall id :: id in m ==> exists i :: 0 <= i < |vs| && ids[i] == Some(id) && vs[i].at == m[id]
  }

  lemma VisitRecalls(m: map<Id, int>, n: map<Id, int>, vs: seq<Visit>, ids: seq<Option<Id>>, id: Option<Id>)
    requires |vs| > 0 && Recalls(m, vs[..|vs| - 1], ids)
    requires forall x :: x in n ==> (id == Some(x) && n[x] == vs[|vs| - 1].at) || (x in m && n[x] == m[x])
    ensures Recalls(n, vs, ids + [id])
  {
    var all := ids + [id];
    forall x | x in n ensures exists i :: 0 <= i < |vs| && all[i] == Some(x) && vs[i].at == n[x] {
      if id == Some(x) && n[x] == vs[|vs| - 1].at {
        assert all[|vs| - 1] == Some(x);
      } else {
        var i :| 0 <= i < |vs| - 1 && ids[i] == Some(x) && vs[..|vs| - 1][i].at == m[x];
        assert all[i] == Some(x) && vs[i].at == n[x];
      }
    }
  }

  lemma {:induction false} VisitsRecalled(r: Ring, vs: seq<Visit>, timeout: int, now: int)
    requires r.oldest == r.next && NonDecreasing(vs) && (forall i :: 0 <= i < |vs| ==> vs[i].at <= now)
    ensures var (g, ids) := Visits(r, vs, timeout);
      Recalls(Live(g), vs, ids)
    decreases |vs|
  {
    if vs != [] {
      var n := |vs| - 1;
      var v := vs[n];
      var (p, ids) := Visits(r, vs[..n], timeout);
      VisitsRecalled(r, vs[..n], timeout, v.at);
      VisitsRemembered(r, vs[..n], timeout, v.at);
      ServedExact(p, v, timeout);
      var (g, id) := Served(p, v, timeout);
      VisitRecalls(Live(p), Live(g), vs, ids, id);
    }
  }

  /** The earlier visits that got ids which have not run out when visit j comes. */
  ghost function Current(vs: seq<Visit>, ids: seq<Option<Id>>, timeout: int, j: nat): set<nat>
    requires j < |vs| && |ids| >= j
  {
    set i: nat | i < j && ids[i].Some? && vs[i].at + timeout >= vs[j].at
  }

  /** As many visits as ids, if each visit got an id of its own and no id is without a visit. */
  lemma {:induction false} SameNumber(visits: set<nat>, ids: set<Id>, got: seq<Option<Id>>)
    requires forall i :: i in visits ==> 0 <= i < |got| && got[i].Some? && got[i].value in ids
    requires forall i, k :: i in visits && k in visits && i != k ==> got[i] != got[k]
    requires forall id :: id in ids ==> exists i :: i in visits && got[i] == Some(id)
    ensures |visits| == |ids|
    decreases |visits|
  {
    if |visits| == 0 {
      assert forall i :: i !in visits;
      assert ids == {};
    } else {
      var i: nat :| i in visits;
      var left := visits - {i};
      forall id | id in ids - {got[i].value} ensures exists k :: k in left && got[k] == Some(id) {
        var k :| k in visits && got[k] == Some(id);
        assert k in left;
      }
      SameNumber(left, ids - {got[i].value}, got);
    }
  }

  lemma CurrentIn(m: map<Id, int>, vs: seq<Visit>, ids: seq<Option<Id>>, timeout: int, n: nat)
    requires n < |vs| && Remembers(m, vs[..n], ids, timeout, vs[n].at)
    ensures forall i :: i in Current(vs, ids, timeout, n) ==> ids[i].value in Unexpired(m, vs[n].at, timeout)
  {
    assert forall i :: 0 <= i < n ==> vs[..n][i] == vs[i];
  }

  lemma CurrentOnto(m: map<Id, int>, vs: seq<Visit>, ids: seq<Option<Id>>, timeout: int, n: nat, id: Id)
    requires n < |vs| && Recalls(m, vs[..n], ids) && id in Unexpired(m, vs[n].at, timeout)
    ensures exists i :: i in Current(vs, ids, timeout, n) && ids[i] == Some(id)
  {
    var i :| 0 <= i < n && ids[i] == Some(id) && vs[..n][i].at == m[id];
    assert i in Current(vs, ids, timeout, n);
  }

  lemma CurrentIsUnexpired(r: Ring, vs: seq<Visit>, timeout: int)
    requires r.oldest == r.next && NonDecreasing(vs) && |vs| > 0
    ensures var n := |vs| - 1;
      var (p, ids) := Visits(r, vs[..n], timeout);
      |ids| == n && |Unexpired(Live(p), vs[n].at, timeout)| == |Current(vs, ids, timeout, n)|
  {
    var n := |vs| - 1;
    var (p, ids) := Visits(r, vs[..n], timeout);
    VisitsRemembered(r, vs[..n], timeout, vs[n].at);
    VisitsRecalled(r, vs[..n], timeout, vs[n].at);
    var c, u := Current(vs, ids, timeout, n), Unexpired(Live(p), vs[n].at, timeout);
    CurrentIn(Live(p), vs, ids, timeout, n);
    forall i, k | i in c && k in c && i != k ensures ids[i] != ids[k] {
      ReissueIsLate(r, vs[..n], timeout, if i < k then i else k, if i < k then k else i);
      assert vs[..n][i] == vs[i] && vs[..n][k] == vs[k];
    }
    forall id | id in u ensures exists i :: i in c && ids[i] == Some(id) {
      CurrentOnto(Live(p), vs, ids, timeout, n, id);
    }
    SameNumber(c, u.Keys, ids);
  }

  /** The answers to the visits before j, and to j itself. */
  lemma {:induction false} VisitsPrefix(r: Ring, vs: seq<Visit>, timeout: int, j: nat)
    requires j < |vs|
    ensures var ids := Visits(r, vs, timeout).1; var (p, before) := Visits(r, vs[..j], timeout);
      && |ids| == |vs| && |before| == j
      && ids[..j] == before && ids[j] == Served(p, vs[j], timeout).1
    decreases |vs|
  {
    var n := |vs| - 1;
    var first := Visits(r, vs[..n], timeout).1;
    var last := Served(Visits(r, vs[..n], timeout).0, vs[n], timeout).1;
    assert Visits(r, vs, timeout).1 == first + [last];
    VisitsSize(r, vs[..n], timeout);
    if j < n {
      VisitsPrefix(r, vs[..n], timeout, j);
      assert vs[..n][..j] == vs[..j] && vs[..n][j] == vs[j];
      assert (first + [last])[..j] == first[..j];
    } else {
      assert (first + [last])[..j] == first;
    }
  }

  lemma {:induction false} VisitsSize(r: Ring, vs: seq<Visit>, timeout: int)
    ensures |Visits(r, vs, timeout).1| == |vs|
    decreases |vs|
  {
    if vs != [] {
      VisitsSize(r, vs[..|vs| - 1], timeout);
    }
  }

  /** What the next visit gets, after any earlier ones. */
  lemma NextVisit(r: Ring, vs: seq<Visit>, v: Visit, timeout: int)
    requires r.oldest == r.next && NonDecreasing(vs) && (forall i :: 0 <= i < |vs| ==> vs[i].at <= v.at)
    ensures var p := Visits(r, vs, timeout).0; var (g, id) := Served(p, v, timeout);
      && (id.Some? ==> id.value == p.next && g.next as int == (p.next + 1) % 256)
      && (id == None ==> g.next == p.next)
      && (v.asks ==> (id == None <==> |Unexpired(Live(p), v.at, timeout)| == 255))
  {
    VisitsRemembered(r, vs, timeout, v.at);
    ServedExact(Visits(r, vs, timeout).0, v, timeout);
  }

  /** Main result: a visit that asks gets no id if and only if 255 earlier visits got ids that have not run
      out, the last second of the timeout included. */
  lemma AskExact(r: Ring, vs: seq<Visit>, timeout: int, j: nat)
    requires r.oldest == r.next && NonDecreasing(vs) && j < |vs| && vs[j].asks
    ensures var ids := Visits(r, vs, timeout).1;
      |ids| == |vs| &&
      (ids[j] == None <==> |set i: nat | i < j && ids[i].Some? && vs[i].at + timeout >= vs[j].at| == 255)
  {
    var us := vs[..j + 1];
    assert us[..j] == vs[..j];
    VisitsPrefix(r, vs, timeout, j);
    NextVisit(r, vs[..j], vs[j], timeout);
    CurrentIsUnexpired(r, us, timeout);
    SameCurrent(vs, Visits(r, vs, timeout).1, timeout, j);
  }

  lemma SameCurrent(vs: seq<Visit>, ids: seq<Option<Id>>, timeout: int, j: nat)
    requires j < |vs| == |ids|
    ensures Current(vs[..j + 1], ids[..j], timeout, j) ==
      set i: nat | i < j && ids[i].Some? && vs[i].at + timeout >= vs[j].at
  {
    assert forall i :: 0 <= i < j ==> vs[..j + 1][i] == vs[i] && ids[..j][i] == ids[i];
  }

  /** How many visits got an id. */
  function Issued(ids: seq<Option<Id>>): nat {
    if ids == [] then 0 else Issued(ids[..|ids| - 1]) + if ids[|ids| - 1].Some? then 1 else 0
  }

  /** The ids come in turn around the ring, whatever was refused in between. */
  lemma {:induction false} IssuedInTurn(r: Ring, vs: seq<Visit>, timeout: int, j: nat)
    requires r.oldest == r.next && NonDecreasing(vs) && j < |vs|
    ensures var ids := Visits(r, vs, timeout).1;
      |ids| == |vs| && (ids[j].Some? ==> ids[j].value as int == (r.next + Issued(ids[..j])) % 256)
  {
    VisitsPrefix(r, vs, timeout, j);
    NextInTurn(r, vs[..j], timeout);
    NextVisit(r, vs[..j], vs[j], timeout);
  }

  /** The next id is as many steps on as ids were issued. */
  predicate InTurn(start: Id, next: Id, ids: seq<Option<Id>>) {
    next as int == (start + Issued(ids)) % 256
  }

  lemma OneTurn(start: Id, next: Id, later: Id, ids: seq<Option<Id>>, id: Option<Id>)
    requires InTurn(start, next, ids)
    requires if id.Some? then later as int == (next + 1) % 256 else later == next
    ensures InTurn(start, later, ids + [id])
  {
    assert (ids + [id])[..|ids|] == ids;
  }

  lemma {:induction false} NextInTurn(r: Ring, vs: seq<Visit>, timeout: int)
    requires r.oldest == r.next && NonDecreasing(vs)
    ensures InTurn(r.next, Visits(r, vs, timeout).0.next, Visits(r, vs, timeout).1)
    decreases |vs|
  {
    if vs != [] {
      var n := |vs| - 1;
      var (p, ids) := Visits(r, vs[..n], timeout);
      var (g, id) := Served(p, vs[n], timeout);
      NextInTurn(r, vs[..n], timeout);
      NextVisit(r, vs[..n], vs[n], timeout);
      OneTurn(r.next, p.next, g.next, ids, id);
    }
  }
}
