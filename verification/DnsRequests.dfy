/**
 The request engine of the DNS resolver: requests in flight, in buckets by transaction id, requests that wait, and the
 counters over them.  A circular list is a sequence that starts at its head; a server or a request is known by a number.
 */
module DnsRequests {
  import opened Common
  import Buckets

  type Server = nat

  datatype Request = Request(addr: nat, ns: Option<Server>, transId: nat)

  /** Which requests to count. */
  datatype Who = Anyone | On(server: Server) | WithId(id: nat) | At(addr: nat)

  predicate Is(r: Request, w: Who) {
    match w
    case Anyone => true
    case On(s) => r.ns == Some(s)
    case WithId(id) => r.transId == id
    case At(a) => r.addr == a
  }

  function Kind(w: Who): (p: Request -> bool) {
    r => Is(r, w)
  }

  function One(r: Request, w: Who): (n: nat) {
    if Is(r, w) then 1 else 0
  }

  function Count(rs: seq<Request>, w: Who): (n: nat) {
    Buckets.Count(rs, Kind(w))
  }

  function Tally(bs: seq<seq<Request>>, w: Who): (n: nat) {
    Buckets.Tally(bs, Kind(w))
  }

  /** Each request is in the bucket of its transaction id. */
  ghost predicate Placed(bs: seq<seq<Request>>) {
    |bs| > 0 && forall i, k :: 0 <= i < |bs| && 0 <= k < |bs[i]| ==> bs[i][k].transId % |bs| == i
  }

  ghost predicate InFlight(bs: seq<seq<Request>>, r: Request) {
    |bs| > 0 && r in bs[r.transId % |bs|]
  }

  /** The position of r in rs. */
  function PositionOf(rs: seq<Request>, r: Request): (k: nat)
    requires r in rs
    ensures k < |rs| && rs[k] == r
  {
    if rs[0] == r then 0 else 1 + PositionOf(rs[1..], r)
  }

  /** evdns_request_remove */
  function Removed(rs: seq<Request>, r: Request): (t: seq<Request>)
    requires r in rs
    ensures |t| == |rs| - 1
  {
    var k := PositionOf(rs, r);
    rs[..k] + rs[k + 1..]
  }

  /** A request put into its bucket, evdns_request_insert. */
  function Inserted(bs: seq<seq<Request>>, r: Request): (t: seq<seq<Request>>)
    requires |bs| > 0
    ensures |t| == |bs|
  {
    var i := r.transId % |bs|;
    bs[i := bs[i] + [r]]
  }

  function TakenOut(bs: seq<seq<Request>>, r: Request): (t: seq<seq<Request>>)
    requires InFlight(bs, r)
    ensures |t| == |bs|
  {
    var i := r.transId % |bs|;
    bs[i := Removed(bs[i], r)]
  }

  lemma {:induction false} CountSnoc(rs: seq<Request>, r: Request)
    ensures forall w :: Count(rs + [r], w) == Count(rs, w) + One(r, w)
    ensures forall w :: Count([r] + rs, w) == Count(rs, w) + One(r, w)
  {
    forall w
      ensures Count(rs + [r], w) == Count(rs, w) + One(r, w)
      ensures Count([r] + rs, w) == Count(rs, w) + One(r, w)
    {
      Buckets.CountSnoc(rs, r, Kind(w));
    }
  }

  lemma {:induction false} RemovedFacts(rs: seq<Request>, r: Request)
    requires r in rs
    ensures forall w :: Count(Removed(rs, r), w) == Count(rs, w) - One(r, w)
  {
    forall w ensures Count(Removed(rs, r), w) == Count(rs, w) - One(r, w) {
      Buckets.CountWithout(rs, PositionOf(rs, r), Kind(w));
    }
  }

  lemma {:induction false} CountFirst(rs: seq<Request>)
    requires rs != []
    ensures forall a :: Count(rs, At(a)) == Count(rs[1..], At(a)) + if rs[0].addr == a then 1 else 0
  {
  }

  lemma {:induction false} InsertedFacts(bs: seq<seq<Request>>, r: Request)
    requires Placed(bs)
    ensures Placed(Inserted(bs, r))
    ensures forall w :: Tally(Inserted(bs, r), w) == Tally(bs, w) + One(r, w)
    ensures forall q :: InFlight(Inserted(bs, r), q) <==> InFlight(bs, q) || q == r
  {
    var i := r.transId % |bs|;
    forall w ensures Tally(Inserted(bs, r), w) == Tally(bs, w) + One(r, w) {
      Buckets.TallyUpdate(bs, i, bs[i] + [r], Kind(w));
      Buckets.CountSnoc(bs[i], r, Kind(w));
    }
  }

  lemma {:induction false} TakenOutFacts(bs: seq<seq<Request>>, r: Request)
    requires Placed(bs) && InFlight(bs, r)
    ensures Placed(TakenOut(bs, r))
    ensures forall w :: Tally(TakenOut(bs, r), w) == Tally(bs, w) - One(r, w)
    ensures forall q :: q != r ==> (InFlight(TakenOut(bs, r), q) <==> InFlight(bs, q))
  {
    var i := r.transId % |bs|;
    var k := PositionOf(bs[i], r);
    forall w ensures Tally(TakenOut(bs, r), w) == Tally(bs, w) - One(r, w) {
      Buckets.TallyUpdate(bs, i, Removed(bs[i], r), Kind(w));
      Buckets.CountWithout(bs[i], k, Kind(w));
    }
    assert bs[i] == bs[i][..k] + [r] + bs[i][k + 1..];
  }

  /** A request that got another server. */
  function Reassigned(bs: seq<seq<Request>>, r: Request, s: Server): (t: seq<seq<Request>>)
    requires InFlight(bs, r)
    ensures |t| == |bs|
  {
    var i := r.transId % |bs|;
    bs[i := bs[i][PositionOf(bs[i], r) := r.(ns := Some(s))]]
  }

  lemma {:induction false} ReassignedFacts(bs: seq<seq<Request>>, r: Request, s: Server)
    requires Placed(bs) && InFlight(bs, r)
    ensures Placed(Reassigned(bs, r, s))
    ensures forall w :: Tally(Reassigned(bs, r, s), w) == Tally(bs, w) - One(r, w) + One(r.(ns := Some(s)), w)
    ensures forall q :: InFlight(Reassigned(bs, r, s), q) ==> InFlight(bs, q) || q == r.(ns := Some(s))
  {
    var i, q := r.transId % |bs|, r.(ns := Some(s));
    var k := PositionOf(bs[i], r);
    forall w ensures Tally(Reassigned(bs, r, s), w) == Tally(bs, w) - One(r, w) + One(q, w) {
      Buckets.TallyUpdate(bs, i, bs[i][k := q], Kind(w));
      Buckets.CountUpdate(bs[i], k, q, Kind(w));
    }
  }

  /** Every request in flight has one of the servers. */
  ghost predicate Assigned(bs: seq<seq<Request>>, servers: set<Server>) {
    forall r :: InFlight(bs, r) ==> r.ns.Some? && r.ns.value in servers
  }

  ghost predicate Distinct(s: seq<Server>) {
    forall i, j :: 0 <= i < j < |s| ==> s[i] != s[j]
  }

  /** What nameserver_failed makes of a request: with another server that is up if it is movable, else as it was. */
  ghost predicate MovedOne(r: Request, q: Request, ns: Server, unsent: set<nat>, up: set<Server>) {
    if r.addr in unsent && r.ns == Some(ns) then q.ns.Some? && q.ns.value in up && q == r.(ns := q.ns) else q == r
  }

  ghost predicate MovedAll(rs: seq<Request>, qs: seq<Request>, ns: Server, unsent: set<nat>, up: set<Server>) {
    |rs| == |qs| && forall k :: 0 <= k < |rs| ==> MovedOne(rs[k], qs[k], ns, unsent, up)
  }

  ghost predicate Moved(
    bs: seq<seq<Request>>, cs: seq<seq<Request>>, ns: Server, unsent: set<nat>, up: set<Server>)
  {
    |bs| == |cs| && forall i :: 0 <= i < |bs| ==> MovedAll(bs[i], cs[i], ns, unsent, up)
  }

  /** No request that was not sent stays with the server. */
  lemma {:induction false} MovedAway(
    bs: seq<seq<Request>>, cs: seq<seq<Request>>, ns: Server, unsent: set<nat>, up: set<Server>, r: Request)
    requires Moved(bs, cs, ns, unsent, up) && ns !in up && InFlight(cs, r) && r.addr in unsent
    ensures r.ns != Some(ns)
  {
    var i := r.transId % |cs|;
    var k :| 0 <= k < |cs[i]| && cs[i][k] == r;
    assert MovedAll(bs[i], cs[i], ns, unsent, up);
    assert MovedOne(bs[i][k], cs[i][k], ns, unsent, up);
  }

  /** A request that was not sent is at another server now. */
  lemma {:induction false} MovedTo(
    bs: seq<seq<Request>>, cs: seq<seq<Request>>, ns: Server, unsent: set<nat>, up: set<Server>, r: Request)
    returns (s: Server)
    requires Moved(bs, cs, ns, unsent, up) && InFlight(bs, r) && r.addr in unsent && r.ns == Some(ns)
    ensures s in up && InFlight(cs, r.(ns := Some(s)))
  {
    var i := r.transId % |bs|;
    var k :| 0 <= k < |bs[i]| && bs[i][k] == r;
    assert MovedAll(bs[i], cs[i], ns, unsent, up);
    assert MovedOne(bs[i][k], cs[i][k], ns, unsent, up);
    s := cs[i][k].ns.value;
  }

  /** A request put into another server's hands, by its place. */
  lemma {:induction false} ReassignedIs(bs: seq<seq<Request>>, i: nat, k: nat, s: Server)
    requires Placed(bs) && (forall id: nat :: Tally(bs, WithId(id)) <= 1) && i < |bs| && k < |bs[i]|
    ensures InFlight(bs, bs[i][k])
    ensures Reassigned(bs, bs[i][k], s) == bs[i := bs[i][k := bs[i][k].(ns := Some(s))]]
  {
    var r := bs[i][k];
    var j := PositionOf(bs[i], r);
    assert Tally(bs, WithId(r.transId)) <= 1;
    if j != k {
      var rest := bs[i][..k] + bs[i][k + 1..];
      assert rest[if j < k then j else j - 1] == r;
      Buckets.CountSome(rest, if j < k then j else j - 1, Kind(WithId(r.transId)));
      Buckets.CountWithout(bs[i], k, Kind(WithId(r.transId)));
      Buckets.TallyUpdate(bs, i, bs[i], Kind(WithId(r.transId)));
      assert false;
    }
  }

  /** No request has a server that is new. */
  lemma {:induction false} NoneOn(bs: seq<seq<Request>>, servers: set<Server>, s: Server)
    requires Placed(bs) && Assigned(bs, servers) && s !in servers
    ensures Tally(bs, On(s)) == 0 && Assigned(bs, servers + {s})
  {
    forall i, k | 0 <= i < |bs| && 0 <= k < |bs[i]| ensures bs[i][k].ns != Some(s) {
      assert InFlight(bs, bs[i][k]);
    }
    Buckets.TallyNone(bs, Kind(On(s)));
  }

  /** The list with a server more, behind the head. */
  function WithServer(s: seq<Server>, ns: Server): (t: seq<Server>) {
    if s == [] then [ns] else s[..1] + [ns] + s[1..]
  }

  lemma {:induction false} AddedSecond(s: seq<Server>, ns: Server)
    requires Distinct(s) && ns !in s
    ensures var t := WithServer(s, ns);
            Distinct(t) && (set x <- t) == (set x <- s) + {ns}
  {
    var t := WithServer(s, ns);
    assert ns in t;
    forall x ensures x in t <==> x in s || x == ns {
      if x in s {
        var k :| 0 <= k < |s| && s[k] == x;
        assert t[if k == 0 then 0 else k + 1] == x;
      }
    }
  }

  lemma {:induction false} TurnedDistinct(s: seq<Server>)
    requires Distinct(s) && s != []
    ensures var t := s[1..] + [s[0]]; Distinct(t) && (set x <- t) == (set x <- s)
  {
    assert forall x :: x in s <==> x == s[0] || x in s[1..];
  }

  /** The list from its element i on, round to the one before it. */
  function FromTo(s: seq<Server>, i: nat): (t: seq<Server>)
    requires i <= |s|
    ensures |t| == |s|
  {
    s[i..] + s[..i]
  }

  lemma {:induction false} Turned(s: seq<Server>, i: nat)
    requires i < |s|
    ensures FromTo(s, i)[0] == s[i] && FromTo(s, i)[1..] + [s[i]] == FromTo(s, i + 1)
    ensures FromTo(s, 0) == s
  {
  }

  /** The requests in flight, in the order of the buckets. */
  function Flat(bs: seq<seq<Request>>): (rs: seq<Request>) {
    if bs == [] then [] else bs[0] + Flat(bs[1..])
  }

  /** Requests put in front of a list one after the other, without server and id. */
  function Suspended(rs: seq<Request>): (t: seq<Request>) {
    if rs == [] then [] else Suspended(rs[1..]) + [Request(rs[0].addr, None, 0)]
  }

  lemma {:induction false} SuspendedSnoc(rs: seq<Request>, r: Request)
    ensures Suspended(rs + [r]) == [Request(r.addr, None, 0)] + Suspended(rs)
  {
    if rs == [] {
      assert [r][1..] == [];
    } else {
      SuspendedSnoc(rs[1..], r);
      assert (rs + [r])[1..] == rs[1..] + [r];
    }
  }

  lemma {:induction false} SuspendedNone()
    ensures Suspended(Flat([])) == []
  {
  }

  lemma {:induction false} FlatSnoc(bs: seq<seq<Request>>, i: nat)
    requires i < |bs|
    ensures Flat(bs[..i + 1]) == Flat(bs[..i]) + bs[i]
  {
    if i == 0 {
      assert bs[..1][1..] == [] && bs[..0] == [];
    } else {
      FlatSnoc(bs[1..], i - 1);
      assert bs[..i + 1][1..] == bs[1..][..i] && bs[..i][1..] == bs[1..][..i - 1];
    }
  }

  /** None of the requests is lost when those in the buckets are suspended. */
  lemma {:induction false} SuspendedAll(bs: seq<seq<Request>>, waiting: seq<Request>)
    requires forall r <- waiting :: r.ns.None?
    ensures forall a :: Count(Suspended(Flat(bs)) + waiting, At(a)) == Tally(bs, At(a)) + Count(waiting, At(a))
    ensures forall r <- Suspended(Flat(bs)) + waiting :: r.ns.None?
  {
    SuspendedCount(Flat(bs));
    forall a ensures Count(Suspended(Flat(bs)) + waiting, At(a)) == Tally(bs, At(a)) + Count(waiting, At(a)) {
      FlatCount(bs, At(a));
      Buckets.CountConcat(Suspended(Flat(bs)), waiting, Kind(At(a)));
    }
  }

  lemma {:induction false} FlatCount(bs: seq<seq<Request>>, w: Who)
    ensures Count(Flat(bs), w) == Tally(bs, w)
  {
    if bs != [] {
      FlatCount(bs[1..], w);
      Buckets.CountConcat(bs[0], Flat(bs[1..]), Kind(w));
    }
  }

  lemma {:induction false} SuspendedCount(rs: seq<Request>)
    ensures forall a :: Count(Suspended(rs), At(a)) == Count(rs, At(a))
    ensures forall r <- Suspended(rs) :: r.ns.None?
  {
    if rs != [] {
      SuspendedCount(rs[1..]);
      var r := Request(rs[0].addr, None, 0);
      forall a ensures Count(Suspended(rs), At(a)) == Count(rs, At(a)) {
        Buckets.CountSnoc(Suspended(rs[1..]), r, Kind(At(a)));
      }
    }
  }

  /** The buckets and the waiting list agree with the counters over them. */
  ghost predicate QueuesOk(bs: seq<seq<Request>>, waiting: seq<Request>, inflight: int, waitingCount: int) {
    && Placed(bs)
    && inflight == Tally(bs, Anyone)
    && waitingCount == |waiting|
    && (forall r <- waiting :: r.ns.None?)
    && (forall id: nat :: Tally(bs, WithId(id)) <= 1)
  }

  /** The list of servers agrees with the set of those known and with the counter of those that are up. */
  ghost predicate ServersOk(servers: seq<Server>, known: set<Server>, up: set<Server>, good: int) {
    known == (set s <- servers) && Distinct(servers) && up <= known && good == |up|
  }

  /** Every request in flight has a known server, and each server's counter agrees. */
  ghost predicate LoadOk(bs: seq<seq<Request>>, load: map<Server, int>) {
    Assigned(bs, load.Keys) && forall s <- load :: load[s] == Tally(bs, On(s))
  }

  /** With no servers and empty buckets. */
  lemma {:induction false} NothingInFlight(bs: seq<seq<Request>>, waiting: seq<Request>)
    requires bs != [] && (forall k :: 0 <= k < |bs| ==> bs[k] == []) && forall r <- waiting :: r.ns.None?
    ensures QueuesOk(bs, waiting, 0, |waiting|) && ServersOk([], {}, {}, 0) && LoadOk(bs, map[])
  {
    hide Tally, Placed;
    TallyEmpty(bs);
  }

  /** With a server more that is up. */
  lemma {:induction false} ServerAdded(servers: seq<Server>, known: set<Server>, up: set<Server>, good: int, ns: Server)
    requires ServersOk(servers, known, up, good) && ns !in servers
    ensures ServersOk(WithServer(servers, ns), known + {ns}, up + {ns}, good + 1) && ns !in known
  {
    hide Distinct, WithServer;
    AddedSecond(servers, ns);
    assert ns !in (set s <- servers);
  }

  lemma {:induction false} LoadAdded(bs: seq<seq<Request>>, load: map<Server, int>, ns: Server)
    requires Placed(bs) && LoadOk(bs, load) && ns !in load
    ensures LoadOk(bs, load[ns := 0]) && load[ns := 0].Keys == load.Keys + {ns}
  {
    hide Tally, Placed, Assigned;
    NoneOn(bs, load.Keys, ns);
    assert load[ns := 0].Keys == load.Keys + {ns};
  }

  /** With a request more in flight. */
  lemma {:induction false} LoadInserted(bs: seq<seq<Request>>, load: map<Server, int>, r: Request)
    requires Placed(bs) && LoadOk(bs, load) && r.ns.Some? && r.ns.value in load
    ensures var s := r.ns.value;
            LoadOk(Inserted(bs, r), load[s := load[s] + 1]) && load[s := load[s] + 1].Keys == load.Keys
  {
    hide Tally, Inserted, Placed;
    InsertedFacts(bs, r);
    assert load[r.ns.value := load[r.ns.value] + 1].Keys == load.Keys;
  }

  lemma {:induction false} QueuesInserted(
    bs: seq<seq<Request>>, waiting: seq<Request>, inflight: int, waitingCount: int, r: Request)
    requires QueuesOk(bs, waiting, inflight, waitingCount) && Tally(bs, WithId(r.transId)) == 0
    ensures QueuesOk(Inserted(bs, r), waiting, inflight + 1, waitingCount)
    ensures waiting != [] ==> QueuesOk(Inserted(bs, r), waiting[1..], inflight + 1, waitingCount - 1)
  {
    hide Tally, Inserted;
    InsertedFacts(bs, r);
  }

  lemma {:induction false} IdFreed(
    bs: seq<seq<Request>>, waiting: seq<Request>, inflight: int, waitingCount: int, r: Request)
    requires QueuesOk(bs, waiting, inflight, waitingCount) && InFlight(bs, r)
    ensures Tally(TakenOut(bs, r), WithId(r.transId)) == 0
  {
    hide Tally, TakenOut, Placed;
    TakenOutFacts(bs, r);
    assert Tally(bs, WithId(r.transId)) <= 1;
  }

  /** With a request less in flight. */
  lemma {:induction false} FlightEnded(
    bs: seq<seq<Request>>, waiting: seq<Request>, inflight: int, waitingCount: int, load: map<Server, int>, r: Request)
    requires QueuesOk(bs, waiting, inflight, waitingCount) && LoadOk(bs, load) && InFlight(bs, r)
    ensures QueuesOk(TakenOut(bs, r), waiting, inflight - 1, waitingCount) && r.ns.Some? && r.ns.value in load
    ensures var s := r.ns.value;
            LoadOk(TakenOut(bs, r), load[s := load[s] - 1]) && load[s := load[s] - 1].Keys == load.Keys
  {
    hide Tally, TakenOut, Placed;
    TakenOutFacts(bs, r);
    OthersStay(bs, r);
    assert load[r.ns.value := load[r.ns.value] - 1].Keys == load.Keys;
  }

  /** With a request at another server. */
  lemma {:induction false} LoadMoved(bs: seq<seq<Request>>, load: map<Server, int>, r: Request, ns: Server)
    requires Placed(bs) && LoadOk(bs, load) && InFlight(bs, r) && ns in load && r.ns != Some(ns)
    ensures r.ns.Some? && r.ns.value in load
    ensures var more := Shifted(load, r.ns.value, ns);
            LoadOk(Reassigned(bs, r, ns), more) && more.Keys == load.Keys
  {
    hide Tally, Reassigned, Placed;
    CountedOn(bs, r);
    ReassignedFacts(bs, r, ns);
    var less := load[r.ns.value := load[r.ns.value] - 1];
    assert less[ns := less[ns] + 1].Keys == load.Keys;
  }

  /** The servers' counters when one request goes from one of them to another. */
  function Shifted(load: map<Server, int>, from: Server, to: Server): (m: map<Server, int>)
    requires from in load && to in load
  {
    var less := load[from := load[from] - 1];
    less[to := less[to] + 1]
  }

  lemma {:induction false} QueuesMoved(
    bs: seq<seq<Request>>, waiting: seq<Request>, inflight: int, waitingCount: int, r: Request, ns: Server)
    requires QueuesOk(bs, waiting, inflight, waitingCount) && InFlight(bs, r)
    ensures QueuesOk(Reassigned(bs, r, ns), waiting, inflight, waitingCount)
    ensures forall a :: Tally(Reassigned(bs, r, ns), At(a)) == Tally(bs, At(a))
  {
    hide Tally, Reassigned, Placed;
    ReassignedFacts(bs, r, ns);
  }

  class DnsBase {
    var reqHeads: seq<seq<Request>>
    var waiting: seq<Request>
    var servers: seq<Server>              // from server_head on
    var up: set<Server>                   // the servers with state 1
    var goodNameservers: int
    var nsInflight: map<Server, int>      // requests_inflight of each server
    var inflight: int
    var waitingCount: int
    var maxInflight: int

    ghost predicate Valid()
      reads this
    {
      && QueuesOk(reqHeads, waiting, inflight, waitingCount)
      && ServersOk(servers, nsInflight.Keys, up, goodNameservers)
      && LoadOk(reqHeads, nsInflight)
    }

    lemma {:induction false} Sizes()
      requires Valid()
      ensures reqHeads != [] && Placed(reqHeads) && waitingCount == |waiting|
    {
    }

    lemma {:induction false} ServersListed()
      requires Valid()
      ensures forall s :: s in nsInflight <==> s in servers
    {
      assert forall s :: s in nsInflight <==> s in (set x <- servers);
    }

    /** What the counters of a valid base say. */
    lemma {:induction false} Counters()
      requires Valid()
      ensures inflight == Tally(reqHeads, Anyone) && waitingCount == |waiting| && goodNameservers == |up|
      ensures forall s <- nsInflight :: nsInflight[s] == Tally(reqHeads, On(s))
    {
    }

    /** How often the request at address a is in flight or waiting. */
    ghost function Present(a: nat): (n: nat)
      reads this
    {
      Tally(reqHeads, At(a)) + Count(waiting, At(a))
    }

    constructor (maxInflight: nat)
      requires maxInflight > 0
      ensures Valid() && waiting == [] && servers == [] && (forall w :: Tally(reqHeads, w) == 0)
      ensures this.maxInflight == maxInflight && up == {} && inflight == 0
    {
      reqHeads, waiting, servers, up, nsInflight := [[]], [], [], {}, map[];
      inflight, waitingCount, goodNameservers, this.maxInflight := 0, 0, 0, maxInflight;
    }

    /** request_find_from_trans_id: the request in flight with an id, if there is one. */
    method FindFromTransId(id: nat) returns (r: Option<Request>)
      requires Valid()
      ensures r.Some? ==> InFlight(reqHeads, r.value) && r.value.transId == id
      ensures r.None? ==> forall q :: InFlight(reqHeads, q) ==> q.transId != id
    {
      var b := reqHeads[id % |reqHeads|];
      var k := 0;
      while k < |b|
        invariant 0 <= k <= |b| && forall m :: 0 <= m < k ==> b[m].transId != id
        modifies {}
      {
        if b[k].transId == id {
          return Some(b[k]);
        }
        k := k + 1;
      }
      return None;
    }

    /** request_submit: into flight with a server, or else into the waiting list. */
    method Submit(req: Request)
      requires Valid()
      requires req.ns.Some? ==> req.ns.value in nsInflight && Tally(reqHeads, WithId(req.transId)) == 0
      modifies this`reqHeads, this`waiting, this`inflight, this`waitingCount, this`nsInflight
      ensures Valid() && forall a :: Present(a) == old(Present(a)) + if a == req.addr then 1 else 0
      ensures req.ns.Some? ==> waiting == old(waiting) && InFlight(reqHeads, req)
      ensures req.ns.None? ==> waiting == old(waiting) + [req] && reqHeads == old(reqHeads)
      ensures inflight == old(inflight) + (if req.ns.Some? then 1 else 0) && nsInflight.Keys == old(nsInflight.Keys)
    {
      Sizes();
      hide Tally, Count, Inserted, Placed, ServersOk, LoadOk;
      if req.ns.Some? {
        InsertedFacts(reqHeads, req);
        LoadInserted(reqHeads, nsInflight, req);
        QueuesInserted(reqHeads, waiting, inflight, waitingCount, req);
        reqHeads := Inserted(reqHeads, req);
        inflight := inflight + 1;
        nsInflight := nsInflight[req.ns.value := nsInflight[req.ns.value] + 1];
      } else {
        CountSnoc(waiting, req);
        waiting := waiting + [req];
        waitingCount := waitingCount + 1;
      }
    }

    /** request_swap_ns */
    method SwapNs(req: Request, ns: Option<Server>)
      requires Valid() && InFlight(reqHeads, req) && (ns.Some? ==> ns.value in nsInflight)
      modifies this`reqHeads, this`nsInflight
      ensures Valid() && forall a :: Present(a) == old(Present(a))
      ensures reqHeads == if ns.None? then old(reqHeads) else Reassigned(old(reqHeads), req, ns.value)
      ensures nsInflight.Keys == old(nsInflight.Keys)
    {
      Sizes();
      hide Tally, Count, Reassigned, Placed, QueuesOk, ServersOk, LoadOk, InFlight;
      if ns.Some? {
        if req.ns != ns {
          MoveTo(req, ns.value);
        } else {
          ReassignedSame(reqHeads, req);
        }
      }
    }

    /** The part of request_swap_ns for another server. */
    method MoveTo(req: Request, ns: Server)
      requires Valid() && InFlight(reqHeads, req) && ns in nsInflight && req.ns != Some(ns)
      modifies this`reqHeads, this`nsInflight
      ensures Valid() && forall a :: Present(a) == old(Present(a))
      ensures reqHeads == Reassigned(old(reqHeads), req, ns) && nsInflight.Keys == old(nsInflight.Keys)
    {
      Sizes();
      hide Tally, Count, Reassigned, Placed, QueuesOk, ServersOk, LoadOk, InFlight, One, Shifted;
      LoadMoved(reqHeads, nsInflight, req, ns);
      QueuesMoved(reqHeads, waiting, inflight, waitingCount, req, ns);
      nsInflight := Shifted(nsInflight, req.ns.value, ns);
      reqHeads := Reassigned(reqHeads, req, ns);
    }

    /** Is each of these numbers 0xffff, or the id of a request in flight? */
    ghost predicate AllTaken(ids: seq<nat>)
      reads this
    {
      forall x <- ids :: x == 0xffff || exists q :: InFlight(reqHeads, q) && q.transId == x
    }

    /** transaction_id_pick, from a stream of random numbers: the first one that is neither 0xffff nor in flight. */
    method TransactionIdPick(random: seq<nat>) returns (id: Option<nat>)
      requires Valid()
      ensures id.Some? ==> id.value != 0xffff && Tally(reqHeads, WithId(id.value)) == 0
      ensures id.Some? ==> exists k :: 0 <= k < |random| && random[k] == id.value && AllTaken(random[..k])
      ensures id.None? ==> AllTaken(random)
    {
      hide Tally;
      var k := 0;
      while k < |random|
        invariant 0 <= k <= |random|
        invariant AllTaken(random[..k])
        modifies {}
      {
        if random[k] != 0xffff {
          var r := FindFromTransId(random[k]);
          if r.None? {
            NoneWithId(reqHeads, random[k]);
            assert random[k] == random[k] && AllTaken(random[..k]);
            return Some(random[k]);
          }
        }
        assert random[..k + 1] == random[..k] + [random[k]];
        k := k + 1;
      }
      assert random[..k] == random;
      return None;
    }

    /** nameserver_pick: the first server from the head on that is up; the next pick starts after it. */
    method NameserverPick() returns (s: Option<Server>, ghost i: nat)
      requires Valid()
      modifies this`servers
      ensures Valid() && |servers| == |old(servers)|
      ensures s.None? <==> servers == []
      ensures s.Some? ==> s.value in nsInflight && i < |servers| && servers == FromTo(old(servers), i + 1)
      ensures s.Some? && up == {} ==> i == 0 && s.value == servers[0]
      ensures s.Some? && up != {} ==>
                s.value == old(servers)[i] && s.value in up && forall k :: 0 <= k < i ==> old(servers)[k] !in up
    {
      hide Tally, Placed, Assigned;
      i := 0;
      if servers == [] {
        return None, 0;
      }
      if goodNameservers == 0 {
        Rotate();
        return Some(servers[0]), 0;
      }
      i := SkipDown();
      s := Some(servers[0]);
      Turned(old(servers), i);
      assert s.value in servers;
      Rotate();
    }

    /** The loop of nameserver_pick over the servers that are down. */
    method SkipDown() returns (ghost i: nat)
      requires Valid() && up != {}
      modifies this`servers
      ensures Valid() && i < |servers| == |old(servers)| && servers == FromTo(old(servers), i)
      ensures old(servers)[i] in up && forall k :: 0 <= k < i ==> old(servers)[k] !in up
    {
      hide DnsBase.Valid;
      i := 0;
      ghost var n := NextUp();
      ghost var was := servers;
      Turned(was, 0);
      while servers[0] !in up
        invariant Valid() && 0 <= i <= n < |was| == |servers| && servers == FromTo(was, i) && servers[0] == was[i]
        invariant forall k :: 0 <= k < i ==> was[k] !in up
        decreases n - i
        modifies this`servers
      {
        hide FromTo;
        Turned(was, i);
        Rotate();
        i := i + 1;
        Turned(was, i);
      }
    }

    /** server_head = server_head->next */
    method Rotate()
      requires Valid() && servers != []
      modifies this`servers
      ensures Valid() && servers == old(servers)[1..] + [old(servers)[0]]
    {
      hide Tally, Placed, Assigned, Distinct;
      TurnedDistinct(servers);
      servers := servers[1..] + [servers[0]];
    }

    ghost method NextUp() returns (i: nat)
      requires Valid() && up != {}
      ensures i < |servers| && servers[i] in up
    {
      var s :| s in up;
      assert s in nsInflight.Keys;
      i :| 0 <= i < |servers| && servers[i] == s;
    }

    /** The loop of evdns_nameserver_add_impl_: is there such a server? */
    method FindServer(ns: Server) returns (found: bool)
      requires Valid()
      ensures found <==> ns in servers
      ensures found <==> ns in nsInflight
    {
      ServersListed();
      var k := 0;
      while k < |servers|
        invariant 0 <= k <= |servers| && ns !in servers[..k]
        modifies {}
      {
        if servers[k] == ns {
          return true;
        }
        k := k + 1;
      }
      assert servers[..k] == servers;
      return false;
    }

    /** evdns_nameserver_add_impl_, with the error of the system calls in it: a new server is up, behind the head. */
    method NameserverAdd(ns: Server, tooLong: bool, alloc: bool, err: int) returns (res: int)
      requires Valid()
      modifies this`servers, this`up, this`nsInflight, this`goodNameservers
      ensures Valid()
      ensures res == if ns in old(nsInflight) then 3 else if tooLong then 2 else if !alloc then -1 else err
      ensures ns in old(nsInflight) || tooLong || !alloc || err != 0 ==> unchanged(this)
      ensures ns !in old(nsInflight) && !tooLong && alloc && err == 0 ==>
                && servers == WithServer(old(servers), ns)
                && up == old(up) + {ns} && nsInflight == old(nsInflight)[ns := 0]
    {
      Sizes();
      hide Tally, Placed, QueuesOk, ServersOk, LoadOk, WithServer;
      var found := FindServer(ns);
      if found {
        return 3;
      }
      if tooLong {
        return 2;
      }
      if !alloc {
        return -1;
      }
      if err != 0 {
        return err;
      }
      ServerAdded(servers, nsInflight.Keys, up, goodNameservers, ns);
      LoadAdded(reqHeads, nsInflight, ns);
      servers := WithServer(servers, ns);
      up, nsInflight := up + {ns}, nsInflight[ns := 0];
      goodNameservers := goodNameservers + 1;
      return 0;
    }

    /** nameserver_up */
    method NameserverUp(ns: Server)
      requires Valid() && ns in nsInflight
      modifies this`up, this`goodNameservers
      ensures Valid() && up == old(up) + {ns}
    {
      hide Tally, Placed, Assigned;
      if ns in up {
        assert up + {ns} == up;
        return;
      }
      up, goodNameservers := up + {ns}, goodNameservers + 1;
    }

    /** The part of nameserver_failed that moves request k of bucket i to another server if it was not sent yet. */
    method ReassignAt(i: nat, k: nat, ns: Server, unsent: set<nat>) returns (ghost q: Request)
      requires Valid() && up != {} && i < |reqHeads| && k < |reqHeads[i]|
      modifies this`reqHeads, this`nsInflight, this`servers
      ensures Valid() && forall a :: Present(a) == old(Present(a))
      ensures reqHeads == old(reqHeads)[i := old(reqHeads)[i][k := q]]
      ensures MovedOne(old(reqHeads)[i][k], q, ns, unsent, up) && nsInflight.Keys == old(nsInflight.Keys)
    {
      hide Tally, Assigned, Reassigned;
      var req := reqHeads[i][k];
      q := req;
      if req.addr in unsent && req.ns == Some(ns) {
        var s, _ := NameserverPick();
        assert InFlight(reqHeads, req);
        ReassignedIs(reqHeads, i, k, s.value);
        SwapNs(req, s);
        q := req.(ns := s);
      } else {
        assert reqHeads[i][k := q] == reqHeads[i];
      }
    }

    /**
     nameserver_failed, the requests at the addresses `unsent` not having been sent yet: those of this server move to
     servers that are up, unless there are none.
     */
    method NameserverFailed(ns: Server, unsent: set<nat>)
      requires Valid() && ns in nsInflight
      modifies this`reqHeads, this`nsInflight, this`servers, this`up, this`goodNameservers
      ensures Valid() && nsInflight.Keys == old(nsInflight.Keys) && forall a :: Present(a) == old(Present(a))
      ensures ns !in old(up) ==> unchanged(this)
      ensures up == old(up) - {ns}
      ensures up == {} ==> unchanged(`reqHeads) && unchanged(`nsInflight) && unchanged(`servers)
      ensures ns in old(up) && up != {} ==> Moved(old(reqHeads), reqHeads, ns, unsent, up)
    {
      hide Tally, Count, Placed, Assigned, MovedOne, Distinct;
      if ns !in up {
        return;
      }
      up, goodNameservers := up - {ns}, goodNameservers - 1;
      assert goodNameservers >= 0;
      if goodNameservers == 0 {
        return;
      }
      var i := 0;
      ghost var was := reqHeads;
      while i < |reqHeads|
        invariant 0 <= i <= |reqHeads| == |was| && Valid() && nsInflight.Keys == old(nsInflight.Keys)
        invariant forall a :: Present(a) == old(Present(a))
        invariant forall m :: 0 <= m < i ==> MovedAll(was[m], reqHeads[m], ns, unsent, up)
        invariant forall m :: i <= m < |was| ==> reqHeads[m] == was[m]
        modifies this`reqHeads, this`nsInflight, this`servers
      {
        ReassignBucket(i, ns, unsent);
        i := i + 1;
      }
    }

    /** The inner loop of nameserver_failed. */
    method ReassignBucket(i: nat, ns: Server, unsent: set<nat>)
      requires Valid() && up != {} && i < |reqHeads|
      modifies this`reqHeads, this`nsInflight, this`servers
      ensures Valid() && forall a :: Present(a) == old(Present(a))
      ensures |reqHeads| == |old(reqHeads)| && reqHeads == old(reqHeads)[i := reqHeads[i]]
      ensures MovedAll(old(reqHeads)[i], reqHeads[i], ns, unsent, up) && nsInflight.Keys == old(nsInflight.Keys)
    {
      hide Tally, Count, MovedOne, DnsBase.Valid;
      var k := 0;
      while k < |reqHeads[i]|
        invariant i < |reqHeads| == |old(reqHeads)| && 0 <= k <= |reqHeads[i]| == |old(reqHeads)[i]|
        invariant Valid() && nsInflight.Keys == old(nsInflight.Keys) && forall a :: Present(a) == old(Present(a))
        invariant reqHeads == old(reqHeads)[i := reqHeads[i]]
        invariant forall m :: 0 <= m < k ==> MovedOne(old(reqHeads)[i][m], reqHeads[i][m], ns, unsent, up)
        invariant forall m :: k <= m < |reqHeads[i]| ==> reqHeads[i][m] == old(reqHeads)[i][m]
        decreases |reqHeads[i]| - k
        modifies this`reqHeads, this`nsInflight, this`servers
      {
        ghost var _ := ReassignAt(i, k, ns, unsent);
        k := k + 1;
      }
    }

    /** One round of the pump: the first waiting request gets a server and an id, and goes into flight. */
    method Promote(ns: Server, id: nat)
      requires Valid() && waiting != [] && ns in nsInflight && Tally(reqHeads, WithId(id)) == 0
      modifies this`reqHeads, this`waiting, this`inflight, this`waitingCount, this`nsInflight
      ensures Valid() && waiting == old(waiting)[1..] && inflight == old(inflight) + 1
      ensures reqHeads == Inserted(old(reqHeads), Request(old(waiting)[0].addr, Some(ns), id))
      ensures nsInflight.Keys == old(nsInflight.Keys)
      ensures forall a :: Present(a) == old(Present(a))
      ensures forall x :: x != id ==> Tally(reqHeads, WithId(x)) == old(Tally(reqHeads, WithId(x)))
    {
      Sizes();
      CountFirst(waiting);
      hide Tally, Inserted, Placed, QueuesOk, ServersOk, LoadOk, Count;
      var req := Request(waiting[0].addr, Some(ns), id);
      InsertedFacts(reqHeads, req);
      LoadInserted(reqHeads, nsInflight, req);
      QueuesInserted(reqHeads, waiting, inflight, waitingCount, req);
      nsInflight := nsInflight[ns := nsInflight[ns] + 1];
      reqHeads := Inserted(reqHeads, req);
      waiting := waiting[1..];
      waitingCount, inflight := waitingCount - 1, inflight + 1;
    }

    /**
     evdns_requests_pump_waiting_queue: as many waiting requests as there is room for go into flight, first come first
     served.  ids are the transaction ids it picks.
     */
    method Pump(ids: seq<nat>) returns (n: nat, ghost granted: seq<Server>)
      requires Valid() && |ids| >= |waiting|
      requires forall i :: 0 <= i < |ids| ==> ids[i] != 0xffff && Tally(reqHeads, WithId(ids[i])) == 0
      requires forall i, j :: 0 <= i < j < |ids| ==> ids[i] != ids[j]
      modifies this`reqHeads, this`waiting, this`inflight, this`waitingCount, this`nsInflight, this`servers
      ensures Valid() && n <= |old(waiting)| && waiting == old(waiting)[n..] && inflight == old(inflight) + n
      ensures waiting == [] || servers == [] || inflight >= maxInflight
      ensures n > 0 ==> inflight <= maxInflight
      ensures forall a :: Present(a) == old(Present(a))
      ensures forall q :: old(InFlight(reqHeads, q)) ==> InFlight(reqHeads, q)
      ensures nsInflight.Keys == old(nsInflight.Keys)
      ensures |granted| == n && (up != {} ==> forall s <- granted :: s in up)
      ensures forall i :: 0 <= i < n ==> InFlight(reqHeads, Request(old(waiting)[i].addr, Some(granted[i]), ids[i]))
    {
      hide Tally, Inserted, Placed, Assigned, QueuesOk, ServersOk, LoadOk;
      n, granted := 0, [];
      Sizes();
      while inflight < maxInflight && waitingCount > 0
        invariant Valid() && n <= |old(waiting)| && waiting == old(waiting)[n..] && inflight == old(inflight) + n
        invariant n > 0 ==> inflight <= maxInflight
        invariant forall i :: n <= i < |ids| ==> Tally(reqHeads, WithId(ids[i])) == 0
        invariant forall a :: Present(a) == old(Present(a))
        invariant forall q :: old(InFlight(reqHeads, q)) ==> InFlight(reqHeads, q)
        invariant |granted| == n && (up != {} ==> forall s <- granted :: s in up)
        invariant nsInflight.Keys == old(nsInflight.Keys)
        invariant forall i :: 0 <= i < n ==> InFlight(reqHeads, Request(old(waiting)[i].addr, Some(granted[i]), ids[i]))
        invariant waitingCount == |waiting| && Placed(reqHeads)
        decreases |waiting|
      {
        var ns, _ := NameserverPick();
        if ns.None? {
          return n, granted;
        }
        ghost var was := reqHeads;
        Promote(ns.value, ids[n]);
        InsertedKeeps(was, Request(old(waiting)[n].addr, ns, ids[n]));
        n, granted := n + 1, granted + [ns.value];
        Sizes();
      }
    }

    /** request_finished for a request in flight: it goes, and the pump runs, which may pick its id again. */
    method FinishInFlight(req: Request, ids: seq<nat>)
      requires Valid() && InFlight(reqHeads, req) && |ids| >= |waiting|
      requires forall i :: 0 <= i < |ids| ==>
                 ids[i] != 0xffff && (ids[i] == req.transId || Tally(reqHeads, WithId(ids[i])) == 0)
      requires forall i, j :: 0 <= i < j < |ids| ==> ids[i] != ids[j]
      modifies this`reqHeads, this`waiting, this`inflight, this`waitingCount, this`nsInflight, this`servers
      ensures Valid() && nsInflight.Keys == old(nsInflight.Keys)
      ensures (waiting == [] || servers == [] || inflight >= maxInflight)
      ensures forall a :: Present(a) == old(Present(a)) - if a == req.addr then 1 else 0
      ensures forall q :: q != req && old(InFlight(reqHeads, q)) ==> InFlight(reqHeads, q)
    {
      hide Tally, QueuesOk, ServersOk, LoadOk;
      TakeOut(req);
      var _, _ := Pump(ids);
    }

    /** evdns_request_remove from the requests in flight, with the counters; its id is free then. */
    method TakeOut(req: Request)
      requires Valid() && InFlight(reqHeads, req)
      modifies this`reqHeads, this`inflight, this`nsInflight
      ensures Valid() && nsInflight.Keys == old(nsInflight.Keys)
      ensures forall a :: Present(a) == old(Present(a)) - if a == req.addr then 1 else 0
      ensures forall q :: q != req && old(InFlight(reqHeads, q)) ==> InFlight(reqHeads, q)
      ensures forall x: nat ::
                Tally(reqHeads, WithId(x)) == if x == req.transId then 0 else old(Tally(reqHeads, WithId(x)))
    {
      Sizes();
      FlightEnded(reqHeads, waiting, inflight, waitingCount, nsInflight, req);
      IdFreed(reqHeads, waiting, inflight, waitingCount, req);
      hide Tally, TakenOut, QueuesOk, ServersOk, LoadOk;
      TakenOutFacts(reqHeads, req);
      OthersStay(reqHeads, req);
      reqHeads := TakenOut(reqHeads, req);
      inflight := inflight - 1;
      nsInflight := nsInflight[req.ns.value := nsInflight[req.ns.value] - 1];
    }

    /** request_finished for a waiting request. */
    method FinishWaiting(req: Request, ids: seq<nat>)
      requires Valid() && req in waiting && |ids| >= |waiting|
      requires forall i :: 0 <= i < |ids| ==> ids[i] != 0xffff && Tally(reqHeads, WithId(ids[i])) == 0
      requires forall i, j :: 0 <= i < j < |ids| ==> ids[i] != ids[j]
      modifies this`reqHeads, this`waiting, this`inflight, this`waitingCount, this`nsInflight, this`servers
      ensures Valid() && nsInflight.Keys == old(nsInflight.Keys)
      ensures (waiting == [] || servers == [] || inflight >= maxInflight)
      ensures forall a :: Present(a) == old(Present(a)) - if a == req.addr then 1 else 0
      ensures forall q :: old(InFlight(reqHeads, q)) ==> InFlight(reqHeads, q)
    {
      hide Tally, Placed, Assigned;
      RemovedFacts(waiting, req);
      waiting := Removed(waiting, req);
      waitingCount := waitingCount - 1;
      var _, _ := Pump(ids);
    }

    /** evdns_base_set_max_requests_inflight: rehashes the requests in flight into a new array of buckets. */
    method SetMaxRequestsInflight(maxinflight: int, alloc: bool) returns (res: int)
      requires Valid()
      modifies this`reqHeads, this`maxInflight
      ensures Valid() && res == if alloc then 0 else -1
      ensures res != 0 ==> unchanged(this)
      ensures res == 0 ==> maxInflight == (if maxinflight < 1 then 1 else maxinflight)
      ensures res == 0 ==> |reqHeads| == (maxInflight + 4) / 5
      ensures forall w :: Tally(reqHeads, w) == old(Tally(reqHeads, w))
      ensures forall q :: InFlight(reqHeads, q) <==> old(InFlight(reqHeads, q))
    {
      var n := if maxinflight < 1 then 1 else maxinflight;
      var nHeads := (n + 4) / 5;
      if !alloc {
        return -1;
      }
      reqHeads := Rehash(reqHeads, nHeads);
      maxInflight := n;
      return 0;
    }

    /** evdns_base_clear_nameservers_and_suspend: the servers go, and what was in flight waits again. */
    method ClearNameserversAndSuspend()
      requires Valid()
      modifies this`reqHeads, this`waiting, this`inflight, this`waitingCount, this`nsInflight, this`servers, this`up
      modifies this`goodNameservers
      ensures Valid() && forall a :: Present(a) == old(Present(a))
      ensures old(servers) == [] ==> unchanged(this)
      ensures old(servers) != [] ==> servers == [] && inflight == 0 && forall q :: !InFlight(reqHeads, q)
      ensures old(servers) != [] ==> waiting == Suspended(Flat(old(reqHeads))) + old(waiting)
    {
      if servers == [] {
        return;
      }
      assert |reqHeads| > 0;
      hide Tally, Count, Placed, Suspended, Flat, ServersOk, LoadOk;
      SuspendedAll(reqHeads, waiting);
      servers, up, nsInflight, goodNameservers := [], {}, map[], 0;
      Suspend();
      inflight := 0;
      TallyEmpty(reqHeads);
      NothingInFlight(reqHeads, waiting);
    }

    /** The loop of evdns_base_clear_nameservers_and_suspend over the requests in flight. */
    method Suspend()
      requires waitingCount == |waiting|
      modifies this`reqHeads, this`waiting, this`waitingCount
      ensures waiting == Suspended(Flat(old(reqHeads))) + old(waiting) && waitingCount == |waiting|
      ensures |reqHeads| == |old(reqHeads)| && forall k :: 0 <= k < |reqHeads| ==> reqHeads[k] == []
    {
      hide Suspended, Flat;
      SuspendedNone();
      var i := 0;
      ghost var was := reqHeads;
      while i < |reqHeads|
        invariant 0 <= i <= |reqHeads| == |was| && waitingCount == |waiting|
        invariant waiting == Suspended(Flat(was[..i])) + old(waiting)
        invariant forall k :: 0 <= k < |was| ==> reqHeads[k] == if k < i then [] else was[k]
        modifies this`reqHeads, this`waiting, this`waitingCount
      {
        SuspendBucket(reqHeads[i], Flat(was[..i]), old(waiting));
        FlatSnoc(was, i);
        reqHeads := reqHeads[i := []];
        i := i + 1;
      }
      assert was[..i] == was;
    }

    /** The inner loop. */
    method SuspendBucket(b: seq<Request>, ghost before: seq<Request>, ghost w: seq<Request>)
      requires waitingCount == |waiting| && waiting == Suspended(before) + w
      modifies this`waiting, this`waitingCount
      ensures waiting == Suspended(before + b) + w && waitingCount == |waiting|
    {
      hide Suspended;
      var k := 0;
      assert before + b[..0] == before;
      while k < |b|
        invariant 0 <= k <= |b| && waitingCount == |waiting|
        invariant waiting == Suspended(before + b[..k]) + w
        modifies this`waiting, this`waitingCount
      {
        SuspendedSnoc(before + b[..k], b[k]);
        assert before + b[..k + 1] == before + b[..k] + [b[k]];
        waiting, waitingCount := [Request(b[k].addr, None, 0)] + waiting, waitingCount + 1;
        k := k + 1;
      }
      assert b[..k] == b;
    }
  }

  /** A request in flight is counted for its server. */
  lemma {:induction false} CountedOn(bs: seq<seq<Request>>, r: Request)
    requires InFlight(bs, r) && r.ns.Some?
    ensures Tally(bs, On(r.ns.value)) > 0
  {
    var i := r.transId % |bs|;
    Buckets.TallySome(bs, i, PositionOf(bs[i], r), Kind(On(r.ns.value)));
  }

  lemma {:induction false} OthersStay(bs: seq<seq<Request>>, r: Request)
    requires Placed(bs) && InFlight(bs, r)
    ensures forall q :: q != r && InFlight(bs, q) ==> InFlight(TakenOut(bs, r), q)
    ensures forall q :: InFlight(TakenOut(bs, r), q) ==> InFlight(bs, q)
  {
    TakenOutFacts(bs, r);
    var i := r.transId % |bs|;
    assert forall q :: q in Removed(bs[i], r) ==> q in bs[i];
  }

  /** The loop of evdns_base_set_max_requests_inflight. */
  method Rehash(oldHeads: seq<seq<Request>>, nHeads: nat) returns (newHeads: seq<seq<Request>>)
    requires Placed(oldHeads) && nHeads > 0
    ensures Placed(newHeads) && |newHeads| == nHeads
    ensures forall w :: Tally(newHeads, w) == Tally(oldHeads, w)
    ensures forall q :: InFlight(newHeads, q) <==> InFlight(oldHeads, q)
  {
    hide Tally, Inserted, TakenOut;
    var heads := oldHeads;
    newHeads := seq(nHeads, _ => []);
    TallyEmpty(newHeads);
    var i := 0;
    while i < |heads|
      invariant 0 <= i <= |heads| == |oldHeads| && Placed(heads) && Placed(newHeads) && |newHeads| == nHeads
      invariant forall w :: Tally(newHeads, w) + Tally(heads, w) == Tally(oldHeads, w)
      invariant forall q :: InFlight(oldHeads, q) <==> InFlight(newHeads, q) || InFlight(heads, q)
      invariant forall k :: 0 <= k < i ==> heads[k] == []
    {
      while heads[i] != []
        invariant i < |heads| == |oldHeads| && Placed(heads) && Placed(newHeads) && |newHeads| == nHeads
        invariant forall w :: Tally(newHeads, w) + Tally(heads, w) == Tally(oldHeads, w)
        invariant forall q :: InFlight(oldHeads, q) <==> InFlight(newHeads, q) || InFlight(heads, q)
        invariant forall k :: 0 <= k < i ==> heads[k] == []
        decreases |heads[i]|
      {
        var req := heads[i][0];
        HeadTaken(heads, i);
        TakenOutFacts(heads, req);
        InsertedFacts(newHeads, req);
        heads, newHeads := TakenOut(heads, req), Inserted(newHeads, req);
      }
      i := i + 1;
    }
    TallyEmpty(heads);
  }

  lemma {:induction false} HeadTaken(bs: seq<seq<Request>>, i: nat)
    requires Placed(bs) && i < |bs| && bs[i] != []
    ensures InFlight(bs, bs[i][0]) && TakenOut(bs, bs[i][0]) == bs[i := bs[i][1..]]
  {
    assert bs[i][0].transId % |bs| == i;
    assert bs[i][..0] + bs[i][1..] == bs[i][1..];
  }

  lemma {:induction false} TallyEmpty(bs: seq<seq<Request>>)
    requires forall k :: 0 <= k < |bs| ==> bs[k] == []
    ensures forall w :: Tally(bs, w) == 0
    ensures bs != [] ==> Placed(bs) && forall q :: !InFlight(bs, q)
  {
    forall w ensures Tally(bs, w) == 0 {
      Buckets.TallyNone(bs, Kind(w));
    }
  }

  lemma {:induction false} InsertedKeeps(bs: seq<seq<Request>>, r: Request)
    requires Placed(bs)
    ensures forall q :: InFlight(Inserted(bs, r), q) <==> InFlight(bs, q) || q == r
  {
    InsertedFacts(bs, r);
  }

  lemma {:induction false} NoneWithId(bs: seq<seq<Request>>, id: nat)
    requires Placed(bs) && forall q :: InFlight(bs, q) ==> q.transId != id
    ensures Tally(bs, WithId(id)) == 0
  {
    forall i, k | 0 <= i < |bs| && 0 <= k < |bs[i]| ensures bs[i][k].transId != id {
      assert InFlight(bs, bs[i][k]);
    }
    Buckets.TallyNone(bs, Kind(WithId(id)));
  }

  lemma {:induction false} ReassignedSame(bs: seq<seq<Request>>, r: Request)
    requires InFlight(bs, r) && r.ns.Some?
    ensures Reassigned(bs, r, r.ns.value) == bs
  {
    assert r.(ns := Some(r.ns.value)) == r;
    var i := r.transId % |bs|;
    assert bs[i][PositionOf(bs[i], r) := r] == bs[i];
  }

  /** A run from the start: a server comes, and a request is sent to it. */
  method FlightExample() returns (base: DnsBase)
    ensures fresh(base) && base.Valid() && base.inflight == 1 && base.waiting == []
    ensures base.up == base.nsInflight.Keys == {7} && InFlight(base.reqHeads, Request(1, Some(7), 5))
  {
    hide Tally, Count, Placed, Buckets.Count, QueuesOk, ServersOk, LoadOk;
    base := new DnsBase(64);
    base.ServersListed();
    var _ := base.NameserverAdd(7, false, true, 0);
    base.ServersListed();
    assert base.nsInflight.Keys == {7};
    base.Submit(Request(1, None, 0));
    base.Sizes();
    var n, granted := base.Pump([5]);
    base.ServersListed();
    assert 7 in base.nsInflight && base.servers != [];
    assert n == 1 && granted[0] in granted;
  }

  /** It goes to another server when the first one fails before it was sent. */
  method FailureExample() returns (base: DnsBase)
    ensures base.Valid() && base.inflight == 1 && base.up == {8}
    ensures InFlight(base.reqHeads, Request(1, Some(8), 5)) && 8 in base.nsInflight && base.nsInflight[8] > 0
  {
    hide Tally, Count, Placed, Buckets.Count, QueuesOk, ServersOk, LoadOk, Moved;
    base := FlightExample();
    base.ServersListed();
    var _ := base.NameserverAdd(8, false, true, 0);
    ghost var was := base.reqHeads;
    base.NameserverFailed(7, {1});
    var _ := MovedTo(was, base.reqHeads, 7, {1}, {8}, Request(1, Some(7), 5));
    base.Counters();
    CountedOn(base.reqHeads, Request(1, Some(8), 5));
  }
}
