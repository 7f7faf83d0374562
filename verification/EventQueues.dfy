/**
 The queues of an event base: events are active at their priority, active later, waiting for a timeout, or inserted for
 I/O, and flags and counters must agree with the queues.
 */
module EventQueues {
  import opened Common

  datatype What = Timeout | Read | Write | Closed | Signal | Finalize

  /** A timeval: microseconds, and the common timeout that the high bits of tv_usec may name. */
  datatype Timeval = Timeval(usec: int, common: Option<nat>)

  datatype Mode = NoBlock | EvenIfFinalizing

  class Event {
    const internal: bool
    const interest: set<What>
    const persist: bool                    // EV_PERSIST
    const pri: nat
    var inserted: bool
    var active: bool
    var activeLater: bool
    var timeout: bool
    var finalizing: bool
    var res: set<What>
    var deadline: int
    var common: Option<nat>

    constructor (internal: bool, interest: set<What>, persist: bool, pri: nat)
      ensures !inserted && !active && !activeLater && !timeout && !finalizing && common == None
      ensures this.internal == internal && this.interest == interest && this.persist == persist && this.pri == pri
    {
      this.internal, this.interest, this.persist, this.pri := internal, interest, persist, pri;
      inserted, active, activeLater, timeout, finalizing := false, false, false, false, false;
      res, deadline, common := {}, 0, None;
    }
  }

  predicate Distinct<T(==)>(s: seq<T>) {
    forall i, j :: 0 <= i < j < |s| ==> s[i] != s[j]
  }

  /** TAILQ_REMOVE */
  function Without<T(==)>(s: seq<T>, x: T): (t: seq<T>) {
    if s == [] then [] else if s[0] == x then s[1..] else [s[0]] + Without(s[1..], x)
  }

  /** The events of priority p, in order. */
  function OfPri(s: seq<Event>, p: nat): (t: seq<Event>) {
    if s == [] then [] else if s[0].pri == p then [s[0]] + OfPri(s[1..], p) else OfPri(s[1..], p)
  }

  /** The elements that are not in gone, in order. */
  function Survivors<T(==)>(s: seq<T>, gone: set<T>): (t: seq<T>) {
    if s == [] then [] else if s[0] in gone then Survivors(s[1..], gone) else [s[0]] + Survivors(s[1..], gone)
  }

  function Total<T>(qs: seq<seq<T>>): (n: nat) {
    if qs == [] then 0 else |qs[0]| + Total(qs[1..])
  }

  lemma {:induction false} TotalUpdate<T>(qs: seq<seq<T>>, i: nat, q: seq<T>)
    requires i < |qs|
    ensures Total(qs[i := q]) == Total(qs) - |qs[i]| + |q|
  {
    if i == 0 {
      assert qs[0 := q][1..] == qs[1..];
    } else {
      TotalUpdate(qs[1..], i - 1, q);
      assert qs[i := q][1..] == qs[1..][i - 1 := q];
    }
  }

  lemma {:induction false} TotalNone(n: nat)
    ensures Total<Event>(seq(n, _ => [])) == 0
  {
    if n > 0 {
      TotalNone(n - 1);
      assert seq<seq<Event>>(n, _ => [])[1..] == seq<seq<Event>>(n - 1, _ => []);
    }
  }

  lemma {:induction false} WithoutAt<T>(s: seq<T>, x: T) returns (k: nat)
    requires x in s
    ensures k < |s| && s[k] == x && Without(s, x) == s[..k] + s[k + 1..]
  {
    if s[0] == x {
      k := 0;
    } else {
      var j := WithoutAt(s[1..], x);
      k := j + 1;
      assert [s[0]] + s[1..][..j] == s[..k];
    }
  }

  lemma {:induction false} WithoutAbsent<T>(s: seq<T>, x: T)
    requires x !in s
    ensures Without(s, x) == s
  {
    if s != [] {
      WithoutAbsent(s[1..], x);
    }
  }

  /** s is a list of the elements of S, each once. */
  ghost predicate Lists<T>(s: seq<T>, S: set<T>) {
    Distinct(s) && (forall x <- s :: x in S) && (forall x <- S :: x in s)
  }

  lemma {:induction false} ListsAdd<T>(s: seq<T>, S: set<T>, x: T)
    requires Lists(s, S) && x !in S
    ensures Lists(s + [x], S + {x})
  {
  }

  lemma {:induction false} ListsInsert<T>(s: seq<T>, S: set<T>, x: T, k: nat)
    requires Lists(s, S) && x !in S && k <= |s|
    ensures Lists(s[..k] + [x] + s[k..], S + {x})
  {
    var t := s[..k] + [x] + s[k..];
    assert s == s[..k] + s[k..];
    forall i, j | 0 <= i < j < |t| ensures t[i] != t[j] {
      assert i < k ==> t[i] == s[i];
      assert j > k ==> t[j] == s[j - 1];
    }
  }

  lemma {:induction false} ListsRemove<T>(s: seq<T>, S: set<T>, x: T)
    requires Lists(s, S) && x in S
    ensures Lists(Without(s, x), S - {x}) && |Without(s, x)| == |s| - 1
  {
    var k := WithoutAt(s, x);
    var t := s[..k] + s[k + 1..];
    assert s == s[..k] + [x] + s[k + 1..];
    forall i, j | 0 <= i < j < |t| ensures t[i] != t[j] {
      assert t[i] == s[if i < k then i else i + 1] && t[j] == s[if j < k then j else j + 1];
    }
    forall i | 0 <= i < |t| ensures t[i] in S - {x} {
      assert t[i] == s[if i < k then i else i + 1];
    }
  }

  function AtPri(A: set<Event>, p: nat): (S: set<Event>) {
    set e <- A | e.pri == p
  }

  /** The queues hold the events of A, each at its priority. */
  ghost predicate Matches(qs: seq<seq<Event>>, A: set<Event>) {
    && (forall e <- A :: e.pri < |qs|)
    && (forall p :: 0 <= p < |qs| ==> Lists(qs[p], AtPri(A, p)))
  }

  lemma {:induction false} MatchesAdd(qs: seq<seq<Event>>, A: set<Event>, e: Event)
    requires Matches(qs, A) && e !in A && e.pri < |qs|
    ensures Matches(qs[e.pri := qs[e.pri] + [e]], A + {e})
    ensures Total(qs[e.pri := qs[e.pri] + [e]]) == Total(qs) + 1
  {
    hide Lists, Total;
    ListsAdd(qs[e.pri], AtPri(A, e.pri), e);
    TotalUpdate(qs, e.pri, qs[e.pri] + [e]);
    forall p | 0 <= p < |qs| ensures AtPri(A + {e}, p) == if p == e.pri then AtPri(A, p) + {e} else AtPri(A, p) {
    }
  }

  lemma {:induction false} MatchesRemove(qs: seq<seq<Event>>, A: set<Event>, e: Event)
    requires Matches(qs, A) && e in A
    ensures Matches(qs[e.pri := Without(qs[e.pri], e)], A - {e})
    ensures Total(qs[e.pri := Without(qs[e.pri], e)]) == Total(qs) - 1
  {
    hide Lists, Total, Without;
    ListsRemove(qs[e.pri], AtPri(A, e.pri), e);
    TotalUpdate(qs, e.pri, Without(qs[e.pri], e));
    forall p | 0 <= p < |qs| ensures AtPri(A - {e}, p) == if p == e.pri then AtPri(A, p) - {e} else AtPri(A, p) {
    }
  }

  /** How many events of S are not internal. */
  ghost function External(S: set<Event>): (n: nat) {
    |Visible(S)|
  }

  function Visible(S: set<Event>): (V: set<Event>) {
    set e <- S | !e.internal
  }

  lemma {:induction false} ExternalAdd(S: set<Event>, e: Event)
    requires e !in S
    ensures External(S + {e}) == External(S) + if e.internal then 0 else 1
  {
    assert Visible(S + {e}) == if e.internal then Visible(S) else Visible(S) + {e};
  }

  lemma {:induction false} ExternalRemove(S: set<Event>, e: Event)
    requires e in S
    ensures External(S - {e}) == External(S) - if e.internal then 0 else 1
  {
    ExternalAdd(S - {e}, e);
    assert S - {e} + {e} == S;
  }

  lemma {:induction false} FirstOut<T>(s: seq<T>)
    requires s != []
    ensures Without(s, s[0]) == s[1..]
  {
  }

  lemma {:induction false} WithoutConcat<T>(a: seq<T>, b: seq<T>, x: T)
    ensures Without(a + b, x) == if x in a then Without(a, x) + b else a + Without(b, x)
  {
    hide Without;
    if a == [] {
      assert a + b == b && a + Without(b, x) == Without(b, x);
    } else {
      WithoutConcat(a[1..], b, x);
      assert (a + b)[1..] == a[1..] + b;
      WithoutStep(a, b, x);
    }
  }

  lemma {:induction false} WithoutStep<T>(a: seq<T>, b: seq<T>, x: T)
    requires a != [] && (a + b)[1..] == a[1..] + b
    requires Without(a[1..] + b, x) == if x in a[1..] then Without(a[1..], x) + b else a[1..] + Without(b, x)
    ensures Without(a + b, x) == if x in a then Without(a, x) + b else a + Without(b, x)
  {
    var u, v, w := Without(a[1..], x), Without(b, x), Without(a[1..] + b, x);
    if a[0] != x {
      assert Without(a + b, x) == [a[0]] + w && Without(a, x) == [a[0]] + u;
      hide Without;
      if x in a[1..] {
        assert [a[0]] + (u + b) == [a[0]] + u + b;
      } else {
        assert [a[0]] + (a[1..] + v) == a + v;
      }
    }
  }

  lemma {:induction false} SurvivorsMembers<T>(s: seq<T>, gone: set<T>)
    ensures forall x :: x in Survivors(s, gone) <==> x in s && x !in gone
  {
    if s != [] {
      SurvivorsMembers(s[1..], gone);
    }
  }

  /** One element more is gone. */
  lemma {:induction false} SurvivorsWithout<T>(s: seq<T>, gone: set<T>, x: T)
    requires Distinct(s) && x !in gone
    ensures Survivors(s, gone + {x}) == Without(Survivors(s, gone), x)
  {
    if s != [] {
      SurvivorsWithout(s[1..], gone, x);
      if s[0] == x {
        SurvivorsMembers(s[1..], gone);
        WithoutAbsent(Survivors(s[1..], gone), x);
        assert Survivors(s, gone)[1..] == Survivors(s[1..], gone);
      } else if s[0] !in gone {
        assert Survivors(s, gone)[1..] == Survivors(s[1..], gone);
      }
    }
  }

  lemma {:induction false} SurvivorsNone<T>(s: seq<T>)
    ensures Survivors(s, {}) == s
  {
    if s != [] {
      SurvivorsNone(s[1..]);
    }
  }

  lemma {:induction false} OfPriSnoc(s: seq<Event>, e: Event, p: nat)
    ensures OfPri(s + [e], p) == OfPri(s, p) + if e.pri == p then [e] else []
    ensures forall x <- OfPri(s, p) :: x in s
  {
    if s == [] {
      assert [e][1..] == [];
    } else {
      OfPriSnoc(s[1..], e, p);
      assert (s + [e])[1..] == s[1..] + [e];
    }
  }

  /** The queue of priority p after the events of fired became active again, at the end. */
  function Refired(q: seq<Event>, fired: seq<Event>, p: nat): (t: seq<Event>) {
    Survivors(q, set e <- fired) + OfPri(fired, p)
  }

  lemma {:induction false} RefiredSnoc(q: seq<Event>, fired: seq<Event>, e: Event, p: nat)
    requires Distinct(q) && e !in fired && (e in q ==> e.pri == p)
    ensures Refired(q, fired + [e], p)
            == if e.pri == p then Without(Refired(q, fired, p), e) + [e] else Refired(q, fired, p)
  {
    hide Survivors, OfPri, Without, Distinct;
    var S := set x <- fired;
    assert (set x <- fired + [e]) == S + {e};
    SurvivorsWithout(q, S, e);
    OfPriSnoc(fired, e, p);
    WithoutConcat(Survivors(q, S), OfPri(fired, p), e);
    SurvivorsMembers(q, S);
    WithoutAbsent(OfPri(fired, p), e);
    if e.pri != p || e !in Survivors(q, S) {
      WithoutAbsent(Survivors(q, S), e);
    }
    var a, b := Without(Survivors(q, S), e), OfPri(fired, p);
    assert e.pri == p ==> a + (b + [e]) == (a + b) + [e];
  }

  /** Each queue holds events of its priority, each once. */
  ghost predicate Separate(qs: seq<seq<Event>>, later: seq<Event>) {
    (forall p :: 0 <= p < |qs| ==> Distinct(qs[p]) && forall e <- qs[p] :: e.pri == p) && Distinct(later)
  }

  /** The events of fired went off whatever queue they were on and then, in this order, into the active queues. */
  ghost predicate Requeued(
    qs: seq<seq<Event>>, later: seq<Event>, fired: seq<Event>, qs': seq<seq<Event>>, later': seq<Event>)
  {
    && |qs'| == |qs|
    && (forall p :: 0 <= p < |qs| ==> qs'[p] == Refired(qs[p], fired, p))
    && later' == Survivors(later, set e <- fired)
  }

  lemma {:induction false} RequeuedNone(qs: seq<seq<Event>>, later: seq<Event>)
    ensures Requeued(qs, later, [], qs, later)
  {
    SurvivorsNone(later);
    var none: seq<Event> := [];
    assert (set e <- none) == {};
    forall p | 0 <= p < |qs| ensures qs[p] == Refired(qs[p], [], p) {
      SurvivorsNone(qs[p]);
    }
  }

  lemma {:induction false} RequeuedSnoc(qs: seq<seq<Event>>, later: seq<Event>, fired: seq<Event>, qs': seq<seq<Event>>,
                                        later': seq<Event>, ev: Event)
    requires Separate(qs, later) && Requeued(qs, later, fired, qs', later') && ev !in fired && ev.pri < |qs|
    ensures Requeued(qs, later, fired + [ev], qs'[ev.pri := Without(qs'[ev.pri], ev) + [ev]], Without(later', ev))
  {
    hide Refired, Without, Survivors;
    forall p | 0 <= p < |qs|
      ensures Refired(qs[p], fired + [ev], p) == if p == ev.pri then Without(qs'[p], ev) + [ev] else qs'[p]
    {
      RefiredSnoc(qs[p], fired, ev, p);
    }
    SurvivorsWithout(later, (set e <- fired), ev);
    assert (set e <- fired + [ev]) == (set e <- fired) + {ev};
  }

  predicate Fits(heap: set<Event>, capacity: nat) {
    |heap| <= capacity
  }

  predicate Fills(heap: set<Event>, capacity: nat) {
    |heap| == capacity
  }

  lemma {:induction false} OneLess(heap: set<Event>, ev: Event, capacity: nat)
    requires ev in heap && Fits(heap, capacity)
    ensures Fits(heap - {ev}, capacity) && !Fills(heap - {ev}, capacity)
  {
  }

  lemma {:induction false} OneMore(heap: set<Event>, ev: Event, capacity: nat)
    requires Fits(heap, capacity) && !Fills(heap, capacity)
    ensures Fits(heap + {ev}, capacity)
  {
  }

  class EventBase {
    ghost const events: set<Event>
    const ctl: seq<Event>                  // the timeout_event of each common timeout
    var queues: seq<seq<Event>>            // activequeues
    var later: seq<Event>                  // active_later_queue
    var heap: set<Event>                   // timeheap
    var capacity: nat                      // how many events its memory holds
    var lists: seq<seq<Event>>             // the events of each common timeout
    var mapped: set<Event>                 // what the maps of descriptors and signals were given
    var eventCount: int
    var eventCountActive: int

    ghost function InsertedSet(): (S: set<Event>)
      reads events`inserted
    {
      set e <- events | e.inserted
    }

    ghost function ActiveSet(): (S: set<Event>)
      reads events`active
    {
      set e <- events | e.active
    }

    ghost function LaterSet(): (S: set<Event>)
      reads events`activeLater
    {
      set e <- events | e.activeLater
    }

    ghost function TimerSet(): (S: set<Event>)
      reads events`timeout
    {
      set e <- events | e.timeout
    }

    /** The events that wait for a timeout of their own, or for the common one with number i. */
    ghost function TimersOf(c: Option<nat>): (S: set<Event>)
      reads events`timeout, events`common
    {
      set e <- events | e.timeout && e.common == c
    }

    ghost predicate ActiveOk()
      reads this`queues, events`active
    {
      (forall e <- events :: e.pri < |queues|) && Matches(queues, ActiveSet())
    }

    ghost predicate LaterOk()
      reads this`later, events`activeLater
    {
      Lists(later, LaterSet())
    }

    ghost predicate TimersOk()
      reads this`heap, this`lists, events`timeout, events`common
    {
      && heap == TimersOf(None)
      && (forall i :: 0 <= i < |lists| ==> Lists(lists[i], TimersOf(Some(i))))
      && (forall e <- events :: e.timeout && e.common.Some? ==> e.common.value < |lists|)
    }

    /** The common timeout lists are in the order of their timeouts. */
    ghost predicate ListsSorted()
      reads this`lists, events`deadline
    {
      forall i :: 0 <= i < |lists| ==> Sorted(lists[i])
    }

    ghost predicate Sorted(s: seq<Event>)
      reads events`deadline
    {
      && (forall e <- s :: e in events)
      && (forall j, k :: 0 <= j < k < |s| ==> s[j].deadline <= s[k].deadline)
    }

    /** An event is never active both now and later; one that is finalizing waits for nothing. */
    ghost predicate FlagsOk()
      reads events`inserted, events`active, events`activeLater, events`timeout, events`finalizing
    {
      forall e <- events :: !(e.active && e.activeLater) && (e.finalizing ==> !e.timeout && !e.inserted)
    }

    /** How many pairs there are of an event that is not internal and a queue it is on. */
    ghost function Memberships(): (n: nat)
      reads events`inserted, events`active, events`activeLater, events`timeout
    {
      External(InsertedSet()) + External(ActiveSet()) + External(LaterSet()) + External(TimerSet())
    }

    ghost predicate CountsOk()
      reads this`queues, this`later, this`eventCount, this`eventCountActive
      reads events`inserted, events`active, events`activeLater, events`timeout
    {
      eventCount == Memberships() && eventCountActive == Total(queues) + |later|
    }

    /** The heap fits its memory. */
    ghost predicate RoomOk()
      reads this`heap, this`capacity
    {
      Fits(heap, capacity)
    }

    predicate Full()
      reads this`heap, this`capacity
    {
      Fills(heap, capacity)
    }

    /** TimersOk, but for one event that is marked as waiting for a timeout, and is in the heap or list of none. */
    ghost predicate TimersBut(ev: Event)
      reads this`heap, this`lists, events`timeout, events`common
    {
      && ev in events && ev.timeout && heap == TimersOf(None) - {ev}
      && (forall i :: 0 <= i < |lists| ==> Lists(lists[i], TimersOf(Some(i)) - {ev}))
      && (forall e <- events :: e.timeout && e.common.Some? ==> e.common.value < |lists|)
    }

    /** The maps hold the events that are inserted. */
    ghost predicate MapOk()
      reads this`mapped, events`inserted
    {
      mapped == InsertedSet()
    }

    /** All but the maps. */
    ghost predicate QueuesOk()
      reads this`queues, this`later, this`heap, this`capacity, this`lists, this`eventCount, this`eventCountActive
      reads events`inserted, events`active, events`activeLater, events`timeout, events`finalizing
      reads events`common, events`deadline
    {
      ActiveOk() && LaterOk() && TimersOk() && RoomOk() && ListsSorted() && FlagsOk() && CountsOk()
    }

    ghost predicate Valid()
      reads this`queues, this`later, this`heap, this`capacity, this`lists, this`eventCount, this`eventCountActive
      reads this`mapped, events`inserted, events`active, events`activeLater, events`timeout, events`finalizing
      reads events`common, events`deadline
    {
      QueuesOk() && MapOk()
    }

    /** What is left of Valid() when ev found no place. */
    ghost predicate ValidBut(ev: Event)
      reads this`queues, this`later, this`heap, this`capacity, this`lists, this`eventCount, this`eventCountActive
      reads this`mapped, events`inserted, events`active, events`activeLater, events`timeout, events`finalizing
      reads events`common, events`deadline
    {
      && ActiveOk() && LaterOk() && TimersBut(ev) && RoomOk() && ListsSorted() && FlagsOk() && CountsOk()
      && MapOk()
    }

    lemma {:induction false} ValidParts(ev: Event)
      requires Valid() && ev in events
      ensures RoomOk() && !(ev.active && ev.activeLater)
    {
      hide ActiveOk, LaterOk, TimersOk, ListsSorted, CountsOk, MapOk;
    }

    lemma {:induction false} NotValid(ev: Event)
      requires ValidBut(ev)
      ensures !Valid() && ev in events && ev.timeout && ev !in heap && forall i :: 0 <= i < |lists| ==> ev !in lists[i]
    {
      hide ActiveOk, LaterOk, ListsSorted, FlagsOk, CountsOk, MapOk;
      assert ev in TimersOf(ev.common);
    }

    /** A base for events that are on no queue yet; ctl are the timers of its common timeouts. */
    constructor (nactivequeues: nat, ghost events: set<Event>, ctl: seq<Event>)
      requires forall e <- events :: !e.inserted && !e.active && !e.activeLater && !e.timeout && e.pri < nactivequeues
      requires forall te <- ctl :: te in events && te.interest == {} && te.common.None? && !te.finalizing
      requires Distinct(ctl)
      ensures Valid() && Scheduled() && this.events == events && this.ctl == ctl
      ensures later == [] && heap == {} && capacity == 0 && mapped == {}
      ensures |queues| == nactivequeues && |lists| == |ctl|
      ensures (forall q <- queues :: q == []) && forall l <- lists :: l == []
    {
      this.events, this.ctl := events, ctl;
      queues, later, heap, lists := seq(nactivequeues, _ => []), [], {}, seq(|ctl|, _ => []);
      eventCount, eventCountActive, mapped, capacity := 0, 0, {}, 0;
      new;
      assert InsertedSet() == {} && ActiveSet() == {} && LaterSet() == {} && TimerSet() == {};
      TotalNone(nactivequeues);
    }

    /** event_queue_insert_inserted */
    method InsertInserted(ev: Event)
      requires QueuesOk() && ev in events && !ev.inserted && !ev.finalizing
      modifies this`eventCount, ev`inserted
      ensures QueuesOk() && ev.inserted && InsertedSet() == old(InsertedSet()) + {ev}
    {
      hide ActiveOk, LaterOk, TimersOk, ListsSorted, External, RoomOk, Full;
      ExternalAdd(InsertedSet(), ev);
      ghost var was := InsertedSet();
      eventCount := eventCount + if ev.internal then 0 else 1;
      ev.inserted := true;
      assert InsertedSet() == was + {ev};
    }

    /** event_queue_remove_inserted */
    method RemoveInserted(ev: Event)
      requires QueuesOk() && ev in events && ev.inserted
      modifies this`eventCount, ev`inserted
      ensures QueuesOk() && !ev.inserted && InsertedSet() == old(InsertedSet()) - {ev}
    {
      hide ActiveOk, LaterOk, TimersOk, ListsSorted, External, RoomOk, Full;
      ExternalRemove(InsertedSet(), ev);
      ghost var was := InsertedSet();
      eventCount := eventCount - if ev.internal then 0 else 1;
      ev.inserted := false;
      assert InsertedSet() == was - {ev};
    }

    /** event_queue_insert_active */
    method InsertActive(ev: Event)
      requires Valid() && ev in events && !ev.activeLater
      modifies this`eventCount, this`eventCountActive, this`queues, ev`active
      ensures Valid() && ev.active
      ensures queues == if old(ev.active) then old(queues) else old(queues)[ev.pri := old(queues)[ev.pri] + [ev]]
    {
      hide LaterOk, TimersOk, ListsSorted, Total, External, Matches, RoomOk, Full;
      if ev.active {
        return;
      }
      ExternalAdd(ActiveSet(), ev);
      MatchesAdd(queues, ActiveSet(), ev);
      ghost var was := ActiveSet();
      eventCount := eventCount + if ev.internal then 0 else 1;
      ev.active := true;
      eventCountActive := eventCountActive + 1;
      queues := queues[ev.pri := queues[ev.pri] + [ev]];
      assert ActiveSet() == was + {ev};
    }

    /** event_queue_remove_active */
    method RemoveActive(ev: Event)
      requires Valid() && ev in events && ev.active
      modifies this`eventCount, this`eventCountActive, this`queues, ev`active
      ensures Valid() && !ev.active && queues == old(queues)[ev.pri := Without(old(queues)[ev.pri], ev)]
    {
      hide LaterOk, TimersOk, ListsSorted, Total, External, Matches, Without, RoomOk, Full;
      ExternalRemove(ActiveSet(), ev);
      MatchesRemove(queues, ActiveSet(), ev);
      ghost var was := ActiveSet();
      eventCount := eventCount - if ev.internal then 0 else 1;
      ev.active := false;
      eventCountActive := eventCountActive - 1;
      queues := queues[ev.pri := Without(queues[ev.pri], ev)];
      assert ActiveSet() == was - {ev};
    }

    /** event_queue_insert_active_later */
    method InsertActiveLater(ev: Event)
      requires Valid() && ev in events
      modifies this`eventCount, this`eventCountActive, this`later, ev`activeLater
      ensures Valid() && (old(ev.active) <==> !ev.activeLater)
      ensures later == if old(ev.active || ev.activeLater) then old(later) else old(later) + [ev]
    {
      hide ActiveOk, TimersOk, ListsSorted, Total, External, Lists, RoomOk, Full;
      if ev.activeLater || ev.active {
        return;
      }
      ExternalAdd(LaterSet(), ev);
      ListsAdd(later, LaterSet(), ev);
      ghost var was := LaterSet();
      eventCount := eventCount + if ev.internal then 0 else 1;
      ev.activeLater := true;
      eventCountActive := eventCountActive + 1;
      later := later + [ev];
      assert LaterSet() == was + {ev};
    }

    /** event_queue_remove_active_later */
    method RemoveActiveLater(ev: Event)
      requires Valid() && ev in events && ev.activeLater
      modifies this`eventCount, this`eventCountActive, this`later, ev`activeLater
      ensures Valid() && !ev.activeLater && later == Without(old(later), ev)
    {
      hide ActiveOk, TimersOk, ListsSorted, Total, External, Lists, Without, RoomOk, Full;
      ExternalRemove(LaterSet(), ev);
      ListsRemove(later, LaterSet(), ev);
      ghost var was := LaterSet();
      eventCount := eventCount - if ev.internal then 0 else 1;
      ev.activeLater := false;
      eventCountActive := eventCountActive - 1;
      later := Without(later, ev);
      assert LaterSet() == was - {ev};
    }

    /** now is was with ev put into list i at k, behind the events that are not later. */
    ghost predicate Put(was: seq<seq<Event>>, now: seq<seq<Event>>, ev: Event, i: nat, k: nat)
      reads ev`deadline, events`deadline
    {
      && PutAt(was, now, ev, i, k)
      && (forall e <- was[i] :: e in events)
      && (forall j :: 0 <= j < |was[i]| ==> (was[i][j].deadline <= ev.deadline <==> j < k))
    }

    predicate PutAt(was: seq<seq<Event>>, now: seq<seq<Event>>, ev: Event, i: nat, k: nat) {
      i < |was| && k <= |was[i]| && now == was[i := was[i][..k] + [ev] + was[i][k..]]
    }

    /** insert_common_timeout_inorder: behind the events that are not later, from the end of the list. */
    method InsertInorder(i: nat, ev: Event) returns (k: nat)
      requires i < |lists| && Sorted(lists[i]) && ev in events
      modifies this`lists
      ensures k <= |old(lists)[i]|
      ensures lists == old(lists)[i := old(lists)[i][..k] + [ev] + old(lists)[i][k..]] && Sorted(lists[i])
      ensures forall j :: 0 <= j < k ==> old(lists)[i][j].deadline <= ev.deadline
      ensures forall j :: k <= j < |old(lists)[i]| ==> ev.deadline < old(lists)[i][j].deadline
    {
      var s := lists[i];
      k := |s|;
      while k > 0 && !(ev.deadline >= s[k - 1].deadline)
        invariant k <= |s| && forall j :: k <= j < |s| ==> ev.deadline < s[j].deadline
        modifies {}
      {
        k := k - 1;
      }
      lists := lists[i := s[..k] + [ev] + s[k..]];
    }

    /** The size of the heap's memory after it was enlarged for one event more. */
    function Enlarged(capacity: nat): (n: nat) {
      if capacity == 0 then 8 else capacity * 2
    }

    /** min_heap_reserve_ for one event more. */
    method Reserve(alloc: bool) returns (ok: bool)
      requires RoomOk()
      modifies this`capacity
      ensures RoomOk() && (old(Valid()) ==> Valid()) && (ok <==> !old(Full()) || alloc) && (ok <==> !Full())
      ensures capacity == if old(Full()) && alloc then Enlarged(old(capacity)) else old(capacity)
    {
      if |heap| == capacity {
        if !alloc {
          return false;
        }
        capacity := Enlarged(capacity);
      }
      return true;
    }

    /** The event is marked as waiting, and has no place yet. */
    method Mark(ev: Event)
      requires Valid() && ev in events && !ev.timeout && !ev.finalizing
      requires ev.common.Some? ==> ev.common.value < |lists|
      modifies this`eventCount, ev`timeout
      ensures ev.timeout && ValidBut(ev)
    {
      hide ActiveOk, LaterOk, MapOk, RoomOk, External, Lists, Total, Sorted, InsertedSet, ActiveSet, LaterSet;
      ExternalAdd(TimerSet(), ev);
      eventCount := eventCount + if ev.internal then 0 else 1;
      ev.timeout := true;
      assert TimerSet() == old(TimerSet()) + {ev};
      assert TimersOf(None) - {ev} == old(TimersOf(None));
      forall i: nat ensures TimersOf(Some(i)) - {ev} == old(TimersOf(Some(i))) {
      }
    }

    /** And no longer. */
    method Unmark(ev: Event)
      requires ValidBut(ev)
      modifies this`eventCount, ev`timeout
      ensures !ev.timeout && Valid()
    {
      hide ActiveOk, LaterOk, MapOk, RoomOk, External, Lists, Total, Sorted, InsertedSet, ActiveSet, LaterSet;
      assert ev in TimersOf(ev.common);
      ExternalRemove(TimerSet(), ev);
      eventCount := eventCount - if ev.internal then 0 else 1;
      ev.timeout := false;
      assert TimerSet() == old(TimerSet()) - {ev};
      assert TimersOf(None) == old(TimersOf(None)) - {ev};
      forall i: nat ensures TimersOf(Some(i)) == old(TimersOf(Some(i))) - {ev} {
      }
    }

    /** min_heap_push_ */
    method Push(ev: Event, alloc: bool) returns (res: int)
      requires ValidBut(ev) && ev.common.None?
      modifies this`heap, this`capacity
      ensures res == if old(Full()) && !alloc then -1 else 0
      ensures if res == 0 then Valid() else ValidBut(ev)
      ensures heap == old(heap) + if res == 0 then {ev} else {}
      ensures capacity == if old(Full()) && alloc then Enlarged(old(capacity)) else old(capacity)
    {
      hide ActiveOk, LaterOk, MapOk, CountsOk, ListsSorted, FlagsOk, Enlarged, Fits, TimersBut, TimersOk;
      var ok := Reserve(alloc);
      if !ok {
        return -1;
      }
      PutInHeap(ev);
      return 0;
    }

    /** The end of min_heap_push_. */
    method PutInHeap(ev: Event)
      requires ValidBut(ev) && ev.common.None? && !Full()
      modifies this`heap
      ensures Valid() && heap == old(heap) + {ev}
    {
      hide ActiveOk, LaterOk, MapOk, CountsOk, ListsSorted, FlagsOk, Lists, Fits, Fills;
      OneMore(heap, ev, capacity);
      forall c: Option<nat> ensures TimersOf(c) == if c.None? then TimersOf(c) - {ev} + {ev} else TimersOf(c) - {ev} {
      }
      heap := heap + {ev};
    }

    /** min_heap_erase_ */
    method Erase(ev: Event)
      requires Valid() && ev in heap
      modifies this`heap
      ensures ValidBut(ev) && heap == old(heap) - {ev} && !Full()
    {
      hide ActiveOk, LaterOk, MapOk, CountsOk, ListsSorted, FlagsOk, Lists, Fits, Fills, InsertedSet;
      OneLess(heap, ev, capacity);
      forall i: nat ensures TimersOf(Some(i)) - {ev} == TimersOf(Some(i)) {
      }
      heap := heap - {ev};
    }

    /** event_queue_insert_timeout for a timeout of the event's own; the result of min_heap_push_ is not looked at. */
    method InsertInHeap(ev: Event, alloc: bool)
      requires Valid() && ev in events && !ev.timeout && !ev.finalizing && ev.common.None?
      modifies this`eventCount, this`heap, this`capacity, ev`timeout
      ensures ev.timeout && if old(Full()) && !alloc then ValidBut(ev) else Valid()
      ensures heap == old(heap) + if old(Full()) && !alloc then {} else {ev}
      ensures capacity == if old(Full()) && alloc then Enlarged(old(capacity)) else old(capacity)
    {
      hide QueuesOk, MapOk, ValidBut, Enlarged, Fits, Fills;
      Mark(ev);
      var _ := Push(ev, alloc);
    }

    /** event_queue_insert_timeout for a common timeout. */
    method InsertListed(ev: Event, i: nat) returns (ghost k: nat)
      requires Valid() && ev in events && !ev.timeout && !ev.finalizing && ev.common == Some(i) && i < |lists|
      modifies this`eventCount, this`lists, ev`timeout
      ensures Valid() && ev.timeout && Put(old(lists), lists, ev, i, k)
    {
      hide ActiveOk, LaterOk, MapOk, CountsOk, FlagsOk, Lists, Sorted, RoomOk, Full;
      Mark(ev);
      assert Lists(lists[i], TimersOf(Some(i)) - {ev}) && Sorted(lists[i]);
      k := InsertInorder(i, ev);
      ListsInsert(old(lists)[i], TimersOf(Some(i)) - {ev}, ev, k);
      forall c: Option<nat>
        ensures TimersOf(c) == if c == Some(i) then TimersOf(c) - {ev} + {ev} else TimersOf(c) - {ev}
      {
      }
    }

    /**
     event_queue_insert_timeout: into the heap, or into the list of a common timeout.  Without memory for a full heap
     the event is marked as waiting all the same.
     */
    method InsertTimeout(ev: Event, alloc: bool) returns (ghost k: nat)
      requires Valid() && ev in events && !ev.timeout && !ev.finalizing
      requires ev.common.Some? ==> ev.common.value < |lists|
      modifies this`eventCount, this`heap, this`capacity, this`lists, ev`timeout
      ensures ev.timeout
      ensures if ev.common.None? && old(Full()) && !alloc then ValidBut(ev) else Valid()
      ensures ev.common.None? ==>
                && lists == old(lists)
                && heap == old(heap) + (if old(Full()) && !alloc then {} else {ev})
                && capacity == if old(Full()) && alloc then Enlarged(old(capacity)) else old(capacity)
      ensures ev.common.Some? ==> unchanged(`heap, `capacity) && Put(old(lists), lists, ev, ev.common.value, k)
    {
      hide QueuesOk, MapOk, Put, Enlarged, ValidBut;
      k := 0;
      if ev.common.Some? {
        k := InsertListed(ev, ev.common.value);
      } else {
        InsertInHeap(ev, alloc);
      }
    }

    /** event_queue_remove_timeout */
    method RemoveTimeout(ev: Event)
      requires Valid() && ev in events && ev.timeout
      modifies this`eventCount, this`heap, this`lists, ev`timeout
      ensures Valid() && !ev.timeout
      ensures ev.common.None? ==> heap == old(heap) - {ev} && lists == old(lists)
      ensures Full() <==> ev.common.Some? && old(Full())
      ensures ev.common.Some? ==> heap == old(heap) && ev.common.value < |lists| == |old(lists)|
      ensures ev.common.Some? ==> lists == old(lists)[ev.common.value := Without(old(lists)[ev.common.value], ev)]
    {
      HeapHolds(ev);
      hide QueuesOk, MapOk, ValidBut, Without, Fits, Fills;
      if ev.common.Some? {
        RemoveListed(ev, ev.common.value);
      } else {
        Erase(ev);
        Unmark(ev);
      }
    }

    /** event_queue_remove_timeout for a common timeout. */
    method RemoveListed(ev: Event, i: nat)
      requires Valid() && ev in events && ev.timeout && ev.common == Some(i) && i < |lists|
      modifies this`eventCount, this`lists, ev`timeout
      ensures Valid() && !ev.timeout && lists == old(lists)[i := Without(old(lists)[i], ev)]
    {
      hide ActiveOk, LaterOk, MapOk, CountsOk, FlagsOk, Lists, Sorted, RoomOk, Without;
      assert Sorted(lists[i]);
      StillSorted(lists[i], ev);
      ListsRemove(lists[i], TimersOf(Some(i)), ev);
      lists := lists[i := Without(lists[i], ev)];
      forall c: Option<nat> ensures TimersOf(c) - {ev} == if c == Some(i) then TimersOf(c) - {ev} else TimersOf(c) {
      }
      Unmark(ev);
    }

    lemma {:induction false} StillSorted(s: seq<Event>, ev: Event)
      requires Sorted(s)
      ensures Sorted(Without(s, ev))
    {
      if ev in s {
        var k := WithoutAt(s, ev);
        hide Without;
        var t := s[..k] + s[k + 1..];
        forall i | 0 <= i < |t| ensures t[i] in events && t[i] == s[if i < k then i else i + 1] {
        }
      } else {
        WithoutAbsent(s, ev);
      }
    }

    /** The timer of each common timeout is an internal event of the base. */
    ghost predicate CtlOk()
      reads this`lists, events`common, events`activeLater, events`finalizing
    {
      && |ctl| == |lists| && Distinct(ctl)
      && (forall te <- ctl :: te in events && te.interest == {} && te.common.None? && !te.activeLater && !te.finalizing)
    }

    /** Common timeout i is not forgotten: its timer goes off once the first event is due, or its callback will run. */
    ghost predicate Covered(i: nat)
      reads this`lists, events`active, events`timeout, events`deadline
    {
      && i < |ctl| && ctl[i] in events
      && i < |lists| && (lists[i] == [] || (lists[i][0] in events && CoveredBy(ctl[i], lists[i][0].deadline)))
    }

    ghost predicate CoveredBy(te: Event, deadline: int)
      reads te`active, te`timeout, te`deadline
    {
      te.active || (te.timeout && te.deadline <= deadline)
    }

    ghost predicate Scheduled()
      reads this`lists, events`common, events`activeLater, events`finalizing
      reads events`active, events`timeout, events`deadline
    {
      CtlOk() && forall i :: 0 <= i < |ctl| ==> Covered(i)
    }

    /** Is an event that waits for a common timeout to find a place in a full heap without memory? */
    predicate NoPlace(ev: Event, alloc: bool)
      reads this`heap, this`capacity, ev`timeout, ev`common
    {
      ev.timeout && ev.common.Some? && Full() && !alloc
    }

    /** The lists after the event is taken off its timeout. */
    function ListsBefore(ev: Event, ls: seq<seq<Event>>): (t: seq<seq<Event>>)
      reads ev`timeout, ev`common
    {
      if ev.timeout && ev.common.Some? && ev.common.value < |ls| then
        ls[ev.common.value := Without(ls[ev.common.value], ev)]
      else
        ls
    }

    /** Taking an event off its list leaves every common timeout covered. */
    lemma {:induction false} HeadsKept(ev: Event)
      requires Valid() && CtlOk() && ev in events
      ensures |ListsBefore(ev, lists)| == |lists|
      ensures forall j :: 0 <= j < |ctl| && Covered(j) ==>
                var s := ListsBefore(ev, lists)[j];
                s == [] || (s[0] in events && s[0] != ev && CoveredBy(ctl[j], s[0].deadline))
    {
      hide ActiveOk, LaterOk, CountsOk, MapOk, FlagsOk, CoveredBy, Without, RoomOk, Full;
      forall j | 0 <= j < |ctl| && Covered(j)
        ensures var s := ListsBefore(ev, lists)[j];
                s == [] || (s[0] in events && s[0] != ev && CoveredBy(ctl[j], s[0].deadline))
      {
        assert Lists(lists[j], TimersOf(Some(j))) && Sorted(lists[j]);
        HeadAfter(lists[j], ev);
        if ListsBefore(ev, lists)[j] != [] {
          assert ListsBefore(ev, lists)[j] == if ev in lists[j] then Without(lists[j], ev) else lists[j];
          LaterCovered(ctl[j], lists[j][0].deadline, ListsBefore(ev, lists)[j][0].deadline);
        }
      }
    }

    lemma {:induction false} LaterCovered(te: Event, deadline: int, deadline': int)
      requires CoveredBy(te, deadline) && deadline <= deadline'
      ensures CoveredBy(te, deadline')
    {
    }

    lemma {:induction false} HeadAfter(s: seq<Event>, ev: Event)
      requires Sorted(s) && Distinct(s)
      ensures Without(s, ev) != [] ==> s != [] && Without(s, ev)[0] in events && Without(s, ev)[0] != ev
      ensures Without(s, ev) != [] ==> Without(s, ev)[0].deadline >= s[0].deadline
      ensures ev !in s ==> Without(s, ev) == s
    {
      if ev in s {
        var k := WithoutAt(s, ev);
        assert Without(s, ev) != [] ==> Without(s, ev)[0] == s[if k == 0 then 1 else 0];
      } else {
        WithoutAbsent(s, ev);
        assert s != [] ==> s[0] in s;
      }
    }

    predicate Ignored(ev: Event, mode: Mode)
      reads ev`finalizing
    {
      ev.finalizing && mode != EvenIfFinalizing
    }

    /** evmap_io_del_ or evmap_signal_del_, of which only the result can fail. */
    method MapDel(ev: Event) returns (res: int)
      modifies this`mapped
      ensures res in {-1, 0, 1} && mapped == old(mapped) - {ev}
    {
      mapped := mapped - {ev};
      res :| res in {-1, 0, 1};
    }

    /**
     event_del_nolock_: off every queue, but not when the event is finalizing.  told is what the map of descriptors or
     signals returned if it was called; a failure there does not keep the event.
     */
    method Del(ev: Event, mode: Mode) returns (res: int, ghost told: Option<int>)
      requires Valid() && ev in events
      modifies this`eventCount, this`eventCountActive, this`queues, this`later, this`heap, this`lists, this`mapped
      modifies ev`inserted, ev`active, ev`activeLater, ev`timeout
      ensures Valid()
      ensures Ignored(ev, mode) ==> unchanged(this) && unchanged(ev)
      ensures !Ignored(ev, mode) ==>
                && !ev.inserted && !ev.active && !ev.activeLater && !ev.timeout && mapped == old(mapped) - {ev}
                && queues == QueuesAfter(old(queues), ev, old(ev.active))
                && later == (if old(ev.activeLater) then Without(old(later), ev) else old(later))
                && heap == (if old(ev.timeout) && ev.common.None? then old(heap) - {ev} else old(heap))
      ensures told.Some? <==> !Ignored(ev, mode) && ev in old(mapped)
      ensures res == if told == Some(-1) then -1 else 0
      ensures |lists| == |old(lists)| && lists == if Ignored(ev, mode) then old(lists) else old(ListsBefore(ev, lists))
      ensures old(CtlOk()) ==> CtlOk() && forall j :: 0 <= j < |ctl| && ctl[j] != ev && old(Covered(j)) ==> Covered(j)
    {
      hide ActiveOk, LaterOk, TimersOk, ListsSorted, CountsOk, MapOk, Without, QueuesAfter, RoomOk, Full;
      if CtlOk() {
        HeadsKept(ev);
      }
      res, told := 0, None;
      Mapped(ev);
      if !Ignored(ev, mode) {
        res, told := Unqueue(ev);
      }
    }

    lemma {:induction false} Mapped(ev: Event)
      requires MapOk() && ev in events
      ensures ev in mapped <==> ev.inserted
    {
    }

    /** What event_del_nolock_ does when it does not ignore the event. */
    method Unqueue(ev: Event) returns (res: int, ghost told: Option<int>)
      requires Valid() && ev in events
      modifies this`eventCount, this`eventCountActive, this`queues, this`later, this`heap, this`lists, this`mapped
      modifies ev`inserted, ev`active, ev`activeLater, ev`timeout
      ensures Valid() && !ev.inserted && !ev.active && !ev.activeLater && !ev.timeout && mapped == old(mapped) - {ev}
      ensures queues == QueuesAfter(old(queues), ev, old(ev.active))
      ensures later == (if old(ev.activeLater) then Without(old(later), ev) else old(later))
      ensures heap == (if old(ev.timeout) && ev.common.None? then old(heap) - {ev} else old(heap))
      ensures lists == old(ListsBefore(ev, lists)) && |lists| == |old(lists)|
      ensures (told.Some? <==> old(ev.inserted)) && res == if told == Some(-1) then -1 else 0
    {
      hide QueuesOk, MapOk, Without, Full, QueuesAfter;
      if ev.timeout {
        RemoveTimeout(ev);
      }
      OffActive(ev);
      res, told := OffMaps(ev);
    }

    /** The part of event_del_nolock_ for the active queues. */
    method OffActive(ev: Event)
      requires Valid() && ev in events
      modifies this`eventCount, this`eventCountActive, this`queues, this`later, ev`active, ev`activeLater
      ensures Valid() && !ev.active && !ev.activeLater
      ensures queues == QueuesAfter(old(queues), ev, old(ev.active))
      ensures later == if old(ev.activeLater) then Without(old(later), ev) else old(later)
    {
      hide LaterOk, TimersOk, ListsSorted, CountsOk, Without, RoomOk, Full, MapOk, Matches;
      PriOk(ev);
      if ev.active {
        RemoveActive(ev);
      } else if ev.activeLater {
        RemoveActiveLater(ev);
      }
    }

    /** The part of event_del_nolock_ for the maps. */
    method OffMaps(ev: Event) returns (res: int, ghost told: Option<int>)
      requires Valid() && ev in events
      modifies this`eventCount, this`mapped, ev`inserted
      ensures Valid() && !ev.inserted && mapped == old(mapped) - {ev}
      ensures (told.Some? <==> old(ev.inserted)) && res == if told == Some(-1) then -1 else 0
    {
      hide ActiveOk, LaterOk, TimersOk, ListsSorted, CountsOk, Without, InsertedSet, RoomOk, Full;
      res, told := 0, None;
      Mapped(ev);
      assert !ev.inserted ==> mapped - {ev} == mapped;
      if ev.inserted {
        RemoveInserted(ev);
        res := MapDel(ev);
        told := Some(res);
        if res == 1 {
          res := 0;
        }
      }
    }

    lemma {:induction false} PriOk(ev: Event)
      requires ActiveOk() && ev in events
      ensures ev.pri < |queues|
    {
    }

    /** event_callback_activate_nolock_ */
    method CallbackActivate(ev: Event) returns (r: int)
      requires Valid() && ev in events
      modifies this`eventCount, this`eventCountActive, this`queues, this`later, ev`active, ev`activeLater
      ensures Valid()
      ensures ev.finalizing ==> r == 0 && unchanged(this) && unchanged(ev)
      ensures !ev.finalizing ==>
                && ev.active && !ev.activeLater && (r == 1 <==> !old(ev.active) && !old(ev.activeLater)) && r in {0, 1}
                && queues == (if old(ev.active) then old(queues) else old(queues)[ev.pri := old(queues)[ev.pri] + [ev]])
                && later == (if old(ev.activeLater) then Without(old(later), ev) else old(later))
      ensures old(Scheduled()) ==> Scheduled()
    {
      hide ActiveOk, LaterOk, TimersOk, ListsSorted, CountsOk, MapOk, Without, RoomOk, Full;
      r := 1;
      if ev.finalizing {
        return 0;
      }
      if ev.activeLater {
        RemoveActiveLater(ev);
        r := 0;
      } else if ev.active {
        return 0;
      }
      InsertActive(ev);
      if old(Scheduled()) {
        assert CtlOk();
        forall i | 0 <= i < |ctl| ensures Covered(i) {
          assert old(Covered(i));
        }
      }
    }

    /** event_active_nolock_ */
    method ActiveNolock(ev: Event, res: set<What>)
      requires Valid() && ev in events
      modifies this`eventCount, this`eventCountActive, this`queues, this`later, ev`active, ev`activeLater, ev`res
      ensures Valid()
      ensures ev.finalizing ==> unchanged(this) && unchanged(ev)
      ensures !ev.finalizing ==>
                && ev.active && !ev.activeLater
                && ev.res == (if old(ev.active || ev.activeLater) then old(ev.res) + res else res)
                && queues == (if old(ev.active) then old(queues) else old(queues)[ev.pri := old(queues)[ev.pri] + [ev]])
                && later == (if old(ev.activeLater) then Without(old(later), ev) else old(later))
      ensures old(Scheduled()) ==> Scheduled()
    {
      hide ActiveOk, LaterOk, TimersOk, ListsSorted, CountsOk, MapOk, Without, RoomOk, Full;
      if ev.finalizing {
        return;
      }
      if ev.active {
        ev.res := ev.res + res;
        return;
      }
      ev.res := if ev.activeLater then ev.res + res else res;
      var _ := CallbackActivate(ev);
    }

    /** event_active_later_nolock_ and event_callback_activate_later_nolock_, also for an event that is finalizing. */
    method ActiveLaterNolock(ev: Event, res: set<What>)
      requires Valid() && ev in events
      modifies this`eventCount, this`eventCountActive, this`later, ev`activeLater, ev`res
      ensures Valid() && (old(ev.active) <==> !ev.activeLater)
      ensures ev.res == if old(ev.active || ev.activeLater) then old(ev.res) + res else res
      ensures later == if old(ev.active || ev.activeLater) then old(later) else old(later) + [ev]
      ensures ev !in ctl && old(Scheduled()) ==> Scheduled()
    {
      hide ActiveOk, LaterOk, TimersOk, ListsSorted, CountsOk, MapOk, RoomOk, Full;
      if ev.active || ev.activeLater {
        ev.res := ev.res + res;
        return;
      }
      ev.res := res;
      InsertActiveLater(ev);

    }

    /** event_finalize_nolock_ */
    method Finalize(ev: Event)
      requires Valid() && ev in events
      modifies this`eventCount, this`eventCountActive, this`queues, this`later, this`heap, this`lists, this`mapped
      modifies ev`inserted, ev`active, ev`activeLater, ev`timeout, ev`finalizing, ev`res
      ensures Valid() && ev.finalizing && !ev.timeout && !ev.inserted
      ensures old(ev.finalizing) ==> unchanged(this) && unchanged(ev)
      ensures !old(ev.finalizing) ==>
                && ev.active && !ev.activeLater && ev.res == {What.Finalize}
                && queues == old(queues)[ev.pri := Without(old(queues)[ev.pri], ev) + [ev]]
                && later == Without(old(later), ev) && heap == old(heap) - {ev} && lists == old(ListsBefore(ev, lists))
      ensures ev !in ctl && old(Scheduled()) ==> Scheduled()
    {
      hide ActiveOk, LaterOk, TimersOk, ListsSorted, CountsOk, MapOk, Without, RoomOk, Full;
      NotQueued(ev);
      HeapHolds(ev);
      var _, _ := Del(ev, NoBlock);
      ActiveNolock(ev, {What.Finalize});
      ev.finalizing := true;
    }

    /** event_queue_make_later_events_active */
    method MakeLaterActive()
      requires Valid()
      modifies this`queues, this`later, events`active, events`activeLater
      ensures Valid() && later == [] && |queues| == |old(queues)|
      ensures forall p :: 0 <= p < |queues| ==> queues[p] == old(queues)[p] + OfPri(old(later), p)
      ensures forall e <- events :: !e.activeLater && (e.active <==> old(e.active || e.activeLater))
      ensures old(Scheduled()) ==> Scheduled()
    {
      hide TimersOk, ListsSorted, External, Lists, Total, Without, RoomOk, Full;
      ghost var n := 0;
      while later != []
        invariant Valid() && n <= |old(later)| && later == old(later)[n..] && |queues| == |old(queues)|
        invariant forall p :: 0 <= p < |queues| ==> queues[p] == old(queues)[p] + OfPri(old(later)[..n], p)
        invariant forall e <- events :: (e.active || e.activeLater) == old(e.active || e.activeLater)
        invariant old(Scheduled()) ==> Scheduled()
        decreases |later|
        modifies this`queues, this`later, events`active, events`activeLater
      {
        var ev := later[0];
        WhoIsLater();
        PromoteFirst(ev);
        assert old(later)[..n + 1] == old(later)[..n] + [ev];
        forall p | 0 <= p < |queues| ensures queues[p] == old(queues)[p] + OfPri(old(later)[..n + 1], p) {
          OfPriSnoc(old(later)[..n], ev, p);
        }
        n := n + 1;
      }
      assert old(later)[..n] == old(later);
      WhoIsLater();
    }

    lemma {:induction false} WhoIsLater()
      requires LaterOk()
      ensures later != [] ==> later[0] in events && later[0].activeLater
      ensures later == [] ==> forall e <- events :: !e.activeLater
    {
      if later != [] {
        assert later[0] in later;
      } else {
        assert forall e <- events :: e.activeLater ==> e in LaterSet();
      }
    }

    method PromoteFirst(ev: Event)
      requires Valid() && later != [] && ev == later[0]
      modifies this`queues, this`later, ev`active, ev`activeLater
      ensures Valid() && later == old(later)[1..]
      ensures ev in events && ev.active && !ev.activeLater
      ensures queues == old(queues)[ev.pri := old(queues)[ev.pri] + [ev]]
      ensures old(Scheduled()) ==> Scheduled()
    {
      hide TimersOk, ListsSorted, External, Total, Matches, Lists, RoomOk, Full;
      WhoIsLater();
      assert Without(later, ev) == later[1..];
      ListsRemove(later, LaterSet(), ev);
      MatchesAdd(queues, ActiveSet(), ev);
      ExternalRemove(LaterSet(), ev);
      ExternalAdd(ActiveSet(), ev);
      later := later[1..];
      ev.activeLater, ev.active := false, true;
      queues := queues[ev.pri := queues[ev.pri] + [ev]];
      assert LaterSet() == old(LaterSet()) - {ev};
      assert ActiveSet() == old(ActiveSet()) + {ev};
      if old(Scheduled()) {
        forall i | 0 <= i < |ctl| ensures Covered(i) {
          assert old(Covered(i));
        }
      }
    }

    /** Is the event to be put into the map of descriptors and signals by event_add? */
    predicate NeedsMap(ev: Event)
      reads ev`inserted, ev`active, ev`activeLater
    {
      ev.interest * {Read, Write, Closed, Signal} != {} && !(ev.inserted || ev.active || ev.activeLater)
    }

    /** Is the event active because of a timeout?  Then a new timeout takes it off its queue. */
    predicate Overdue(ev: Event)
      reads ev`active, ev`res
    {
      ev.active && Timeout in ev.res
    }

    predicate Rescheduled(ev: Event, tv: Option<Timeval>)
      reads ev`active, ev`res
    {
      tv.Some? && Overdue(ev)
    }

    function QueuesAfter(qs: seq<seq<Event>>, ev: Event, off: bool): (t: seq<seq<Event>>) {
      if off && ev.pri < |qs| then qs[ev.pri := Without(qs[ev.pri], ev)] else qs
    }

    /** Is ev now the first event of the common timeout it was added with? */
    predicate First(ev: Event, tv: Option<Timeval>, res: int)
      reads this`lists
    {
      && res == 0 && tv.Some? && tv.value.common.Some? && tv.value.common.value < |lists|
      && lists[tv.value.common.value] != [] && lists[tv.value.common.value][0] == ev
    }

    /** A new place in a list leaves every common timeout covered, but for the event that comes first there. */
    lemma {:induction false} StillCovered(was: seq<seq<Event>>, ev: Event, k: nat, good: set<nat>)
      requires CtlOk() && |was| == |lists|
      requires if ev.common.Some? then Put(was, lists, ev, ev.common.value, k) else lists == was
      requires forall j <- good ::
                 j < |ctl| && (was[j] == [] || (was[j][0] in events && CoveredBy(ctl[j], was[j][0].deadline)))
      ensures forall j <- good :: Covered(j) || FirstOf(ev, j)
    {
      hide CoveredBy;
    }

    /** Is ev the first event of common timeout j? */
    predicate FirstOf(ev: Event, j: nat)
      reads this`lists, ev`common
    {
      ev.common == Some(j) && j < |lists| && lists[j] != [] && lists[j][0] == ev
    }

    /** The part of event_add_nolock_ that puts the event into the map of descriptors or signals. */
    method AddToMap(ev: Event, mapRes: int) returns (res: int)
      requires Valid() && ev in events && !ev.finalizing && mapRes in {-1, 0, 1} && NeedsMap(ev)
      modifies this`eventCount, this`mapped, ev`inserted
      ensures Valid() && res == (if mapRes == -1 then -1 else 0) && ev.inserted == (res == 0)
      ensures res == -1 ==> unchanged(this) && unchanged(ev)
    {
      hide QueuesOk, InsertedSet;
      res := mapRes;
      if res != -1 {
        mapped := mapped + {ev};
        InsertInserted(ev);
      }
      if res == 1 {
        res := 0;
      }
    }

    /**
     event_add_nolock_ up to the point where it may schedule the timer of a common timeout.  mapRes is what the map of
     descriptors and signals returns, alloc whether memory for the heap can be had.
     */
    method AddCore(ev: Event, tv: Option<Timeval>, absolute: bool, now: int, mapRes: int, alloc: bool)
      returns (res: int, ghost k: nat)
      requires Valid() && ev in events && mapRes in {-1, 0, 1}
      requires tv.Some? && tv.value.common.Some? ==> tv.value.common.value < |lists|
      modifies this`eventCount, this`eventCountActive, this`queues, this`heap, this`capacity, this`lists, this`mapped
      modifies ev`inserted, ev`active, ev`timeout, ev`deadline, ev`common
      ensures res in {-1, 0} && |lists| == |old(lists)|
      ensures if res == 0 && tv.Some? && ev.common.None? && old(NoPlace(ev, alloc)) then ValidBut(ev) else Valid()
      ensures res == -1 <==>
                old(ev.finalizing || (tv.Some? && !ev.timeout && Full() && !alloc) || (NeedsMap(ev) && mapRes == -1))
      ensures res == -1 ==> unchanged(`eventCount, `eventCountActive, `queues, `heap, `lists, `mapped) && unchanged(ev)
      ensures !alloc || !old(Full()) ==> unchanged(`capacity)
      ensures res == 0 && tv.Some? && old(!ev.timeout && Full()) ==> capacity == Enlarged(old(capacity))
      ensures res == 0 && tv.Some? && ev.common.Some? && old(ev.timeout) ==> unchanged(`capacity)
      ensures capacity in {old(capacity), Enlarged(old(capacity))}
      ensures res == 0 && tv.Some? && ev.common.Some? ==>
                (Full() <==> old(ev.timeout && ev.common.Some? && Full()))
      ensures res == 0 ==>
                && ev.inserted == old(ev.inserted || NeedsMap(ev))
                && ev.timeout == (old(ev.timeout) || tv.Some?)
                && ev.active == (old(ev.active) && !old(Rescheduled(ev, tv)))
                && queues == QueuesAfter(old(queues), ev, old(Rescheduled(ev, tv)))
      ensures res == 0 && tv.None? ==> unchanged(ev`deadline, ev`common) && unchanged(`heap, `lists)
      ensures res == 0 && tv.Some? ==>
                && ev.deadline == tv.value.usec + (if absolute then 0 else now) && ev.common == tv.value.common
                && heap == old(heap) - {ev} + (if ev.common.None? && !old(NoPlace(ev, alloc)) then {ev} else {})
                && (ev.common.None? ==> lists == old(ListsBefore(ev, lists)))
                && (ev.common.Some? ==> Put(old(ListsBefore(ev, lists)), lists, ev, ev.common.value, k))
      ensures res == 0 && tv.Some? && ev.common.Some? ==>
                PutAt(old(ListsBefore(ev, lists)), lists, ev, ev.common.value, k)
      ensures res == 0 && ev.interest * {Read, Write, Closed, Signal} != {} ==>
                (ev.inserted || ev.active || ev.activeLater <==> old(ev.inserted) || !old(Rescheduled(ev, tv)))
      ensures old(CtlOk()) && ev !in ctl ==>
                CtlOk() && forall j :: 0 <= j < |ctl| && old(Covered(j)) ==>
                  Covered(j) || (tv.Some? && FirstOf(ev, j) && res == 0)
    {
      hide QueuesOk, MapOk, ValidBut, Without, InsertedSet, Fits, Fills, Enlarged, Covered, CtlOk, FirstOf;
      ValidParts(ev);
      res, k := 0, 0;
      if ev.finalizing {
        return -1, 0;
      }
      if tv.Some? && !ev.timeout {
        var ok := Reserve(alloc);
        if !ok {
          return -1, 0;
        }
      }
      if NeedsMap(ev) {
        res := AddToMap(ev, mapRes);
      }
      if res != -1 && tv.Some? {
        k := Reschedule(ev, tv.value.usec + if absolute then 0 else now, tv.value.common, alloc);
      }
    }

    /** The part of event_add_nolock_ that changes the timeout. */
    method Reschedule(ev: Event, deadline: int, common: Option<nat>, alloc: bool)
      returns (ghost k: nat)
      requires Valid() && ev in events && !ev.finalizing && (common.Some? ==> common.value < |lists|)
      requires !ev.timeout ==> !Full()
      modifies this`eventCount, this`eventCountActive, this`queues, this`heap, this`capacity, this`lists
      modifies ev`active, ev`timeout, ev`deadline, ev`common
      ensures |lists| == |old(lists)|
      ensures if common.None? && old(NoPlace(ev, alloc)) then ValidBut(ev) else Valid()
      ensures ev.timeout && ev.deadline == deadline && ev.common == common
      ensures ev.active == (old(ev.active) && Timeout !in ev.res)
      ensures queues == QueuesAfter(old(queues), ev, old(Overdue(ev)))
      ensures heap == old(heap) - {ev} + (if common.None? && !old(NoPlace(ev, alloc)) then {ev} else {})
      ensures !alloc || !old(Full()) ==> unchanged(`capacity)
      ensures capacity in {old(capacity), Enlarged(old(capacity))}
      ensures common.Some? ==> (Full() <==> old(ev.timeout && ev.common.Some? && Full()))
      ensures common.Some? ==> unchanged(`capacity)
      ensures ev.common.None? ==> lists == old(ListsBefore(ev, lists))
      ensures ev.common.Some? ==> Put(old(ListsBefore(ev, lists)), lists, ev, ev.common.value, k)
      ensures old(CtlOk()) && ev !in ctl ==>
                CtlOk() && forall j :: 0 <= j < |ctl| && old(Covered(j)) ==> Covered(j) || FirstOf(ev, j)
    {
      hide ActiveOk, LaterOk, TimersOk, ListsSorted, CountsOk, MapOk, FlagsOk, Without, Overdue, QueuesAfter, RoomOk;
      hide Full;
      ghost var keep := CtlOk() && ev !in ctl;
      ghost var was: seq<seq<Event>> := ListsBefore(ev, lists);
      ghost var good := set j: nat | j < |ctl| && keep && Covered(j);
      if keep {
        HeadsKept(ev);
      }
      k := NewTimeout(ev, deadline, common, alloc);
      if keep {
        forall j | j in good ensures was[j] == [] || (was[j][0] in events && CoveredBy(ctl[j], was[j][0].deadline)) {
          assert old(Covered(j));
          assert ctl[j] in ctl;
        }
        StillCovered(was, ev, k, good);
      }
    }

    /** Off the old timeout, if there is one. */
    method LeaveTimeout(ev: Event)
      requires Valid() && ev in events && (!ev.timeout ==> !Full())
      modifies this`eventCount, this`heap, this`lists, ev`timeout
      ensures Valid() && !ev.timeout && |lists| == |old(lists)|
      ensures heap == old(heap) - {ev} && lists == old(ListsBefore(ev, lists))
      ensures Full() <==> old(ev.timeout && ev.common.Some? && Full())
    {
      HeapHolds(ev);
      hide QueuesOk, MapOk, Without, Full;
      assert ev !in heap ==> heap - {ev} == heap;
      if ev.timeout {
        RemoveTimeout(ev);
      }
    }

    /** Off the active queue, if the event was there because of its timeout. */
    method LeaveActive(ev: Event)
      requires Valid() && ev in events
      modifies this`eventCount, this`eventCountActive, this`queues, ev`active
      ensures Valid() && ev.active == (old(ev.active) && Timeout !in ev.res)
      ensures queues == QueuesAfter(old(queues), ev, old(Overdue(ev)))
    {
      HeapHolds(ev);
      hide QueuesOk, MapOk, Without;
      if ev.active && Timeout in ev.res {
        RemoveActive(ev);
      }
    }

    /** Off the old timeout, and onto the new one. */
    method NewTimeout(ev: Event, deadline: int, common: Option<nat>, alloc: bool)
      returns (ghost k: nat)
      requires Valid() && ev in events && !ev.finalizing && (common.Some? ==> common.value < |lists|)
      requires !ev.timeout ==> !Full()
      modifies this`eventCount, this`eventCountActive, this`queues, this`heap, this`capacity, this`lists
      modifies ev`active, ev`timeout, ev`deadline, ev`common
      ensures |lists| == |old(lists)|
      ensures if common.None? && old(NoPlace(ev, alloc)) then ValidBut(ev) else Valid()
      ensures ev.timeout && ev.deadline == deadline && ev.common == common
      ensures ev.active == (old(ev.active) && Timeout !in ev.res)
      ensures queues == QueuesAfter(old(queues), ev, old(Overdue(ev)))
      ensures heap == old(heap) - {ev} + (if common.None? && !old(NoPlace(ev, alloc)) then {ev} else {})
      ensures !alloc || !old(Full()) ==> unchanged(`capacity)
      ensures capacity in {old(capacity), Enlarged(old(capacity))}
      ensures common.Some? ==> (Full() <==> old(ev.timeout && ev.common.Some? && Full()))
      ensures common.Some? ==> unchanged(`capacity)
      ensures ev.common.None? ==> lists == old(ListsBefore(ev, lists))
      ensures ev.common.Some? ==> Put(old(ListsBefore(ev, lists)), lists, ev, ev.common.value, k)
    {
      hide QueuesOk, MapOk, ValidBut, Put, Full, Enlarged, Overdue, QueuesAfter, ListsBefore;
      LeaveTimeout(ev);
      LeaveActive(ev);
      ghost var was := lists;
      SetTimeout(ev, deadline, common);
      k := InsertTimeout(ev, alloc);
      PutLength(was, lists, ev, common, k);
    }

    lemma {:induction false} PutLength(
      was: seq<seq<Event>>, now: seq<seq<Event>>, ev: Event, common: Option<nat>, k: nat)
      requires if common.Some? then Put(was, now, ev, common.value, k) else now == was
      ensures |now| == |was|
    {
    }

    lemma {:induction false} HeapHolds(ev: Event)
      requires Valid() && ev in events
      ensures ev in heap <==> ev.timeout && ev.common.None?
      ensures ev.timeout && ev.common.Some? ==> ev.common.value < |lists|
      ensures ev.pri < |queues|
    {
      hide LaterOk, ListsSorted, CountsOk, MapOk, Matches, RoomOk, Full;
    }

    /** Writes ev_timeout. */
    method SetTimeout(ev: Event, deadline: int, common: Option<nat>)
      requires Valid() && ev in events && !ev.timeout
      modifies ev`deadline, ev`common
      ensures Valid() && ev.deadline == deadline && ev.common == common
    {
      hide ActiveOk, LaterOk, CountsOk, MapOk, RoomOk, Full;
      NotListed(ev);
      ev.deadline, ev.common := deadline, common;
      assert TimersOf(None) == old(TimersOf(None));
      forall i: nat ensures TimersOf(Some(i)) == old(TimersOf(Some(i))) {
      }
    }

    lemma {:induction false} NotListed(ev: Event)
      requires TimersOk() && ev in events && !ev.timeout
      ensures forall i :: 0 <= i < |lists| ==> ev !in lists[i]
    {
    }

    /** common_timeout_schedule: event_add of the timer, at the time of the first event. */
    method Schedule(i: nat, te: Event, alloc: bool)
      requires Valid() && CtlOk() && i < |lists| && te == ctl[i] && lists[i] != [] && lists[i][0] in events
      modifies this`eventCount, this`eventCountActive, this`queues, this`heap, this`capacity, this`lists, this`mapped
      modifies te`inserted, te`active, te`timeout, te`deadline, te`common
      ensures Valid() && CtlOk() && lists == old(lists)
      ensures Covered(i) <==> alloc || !old(Full()) || old(te.timeout || te.active)
      ensures if alloc || !old(Full()) || old(te.timeout) then
                && te.timeout && te.deadline == lists[i][0].deadline && heap == old(heap) + {te}
                && queues == QueuesAfter(old(queues), te, old(Overdue(te)))
              else
                unchanged(te) && unchanged(this)
      ensures !alloc || !old(Full()) ==> unchanged(`capacity)
      ensures capacity in {old(capacity), Enlarged(old(capacity))}
      ensures forall j :: 0 <= j < |ctl| && j != i && old(Covered(j)) ==> Covered(j)
    {
      hide ActiveOk, LaterOk, ListsSorted, CountsOk, MapOk, FlagsOk, Lists, RoomOk, Full;
      NotItsTimer(te);
      assert !NeedsMap(te) && !te.finalizing;
      assert te in ctl;
      assert lists[i][0] in lists[i] && lists[i][0] != te;
      var _, _ := AddCore(te, Some(Timeval(lists[i][0].deadline, None)), true, 0, 0, alloc);
    }

    lemma {:induction false} NotItsTimer(te: Event)
      requires TimersOk() && te.common.None?
      ensures forall i :: 0 <= i < |lists| ==> te !in lists[i]
    {
    }

    /** The timers that event_add may change: that of the event, and that of its common timeout. */
    function Touched(ev: Event, tv: Option<Timeval>): (S: set<Event>) {
      {ev}
      + if tv.Some? && tv.value.common.Some? && tv.value.common.value < |ctl| then {ctl[tv.value.common.value]} else {}
    }

    /** Does event_add put ev first in the list of a common timeout whose timer is not set? */
    predicate NeedsTimer(ev: Event, tv: Option<Timeval>)
      reads this`lists, Touched(ev, tv)`active, Touched(ev, tv)`timeout
    {
      && tv.Some? && tv.value.common.Some? && tv.value.common.value < |ctl|
      && !ctl[tv.value.common.value].active && !ctl[tv.value.common.value].timeout
    }

    /**
     event_add_nolock_, with the results of the maps and of malloc.  Only an event that waited for a common timeout can
     find the heap full after all: it then gets no place there, or its new common timeout no timer.
     */
    method Add(ev: Event, tv: Option<Timeval>, absolute: bool, now: int, mapRes: int, alloc: bool)
      returns (res: int, ghost k: nat)
      requires Valid() && CtlOk() && ev in events && ev !in ctl && mapRes in {-1, 0, 1}
      requires tv.Some? && tv.value.common.Some? ==> tv.value.common.value < |lists|
      modifies this`eventCount, this`eventCountActive, this`queues, this`heap, this`capacity, this`lists, this`mapped
      modifies Touched(ev, tv)`inserted, Touched(ev, tv)`active, Touched(ev, tv)`timeout, Touched(ev, tv)`deadline
      modifies Touched(ev, tv)`common
      ensures CtlOk() && res in {-1, 0}
      ensures if res == 0 && tv.Some? && ev.common.None? && old(NoPlace(ev, alloc)) then ValidBut(ev) else Valid()
      ensures !alloc || !old(Full()) ==> unchanged(`capacity)
      ensures res == 0 && tv.Some? && old(!ev.timeout && Full()) ==> capacity == Enlarged(old(capacity))
      ensures capacity in {old(capacity), Enlarged(old(capacity))}
      ensures res == -1 <==>
                old(ev.finalizing || (tv.Some? && !ev.timeout && Full() && !alloc) || (NeedsMap(ev) && mapRes == -1))
      ensures res == -1 ==>
                unchanged(`eventCount, `eventCountActive, `queues, `heap, `lists, `mapped) && unchanged(Touched(ev, tv))
      ensures res == 0 ==>
                && ev.inserted == old(ev.inserted || NeedsMap(ev))
                && ev.timeout == (old(ev.timeout) || tv.Some?)
                && ev.active == (old(ev.active) && !old(Rescheduled(ev, tv)))
      ensures res == 0 && tv.Some? ==>
                ev.deadline == tv.value.usec + (if absolute then 0 else now) && ev.common == tv.value.common
      ensures res == 0 && tv.None? ==> unchanged(ev`deadline, ev`common) && unchanged(`heap, `lists)
      ensures res == 0 && tv.Some? && ev.common.None? ==>
                && lists == old(ListsBefore(ev, lists))
                && heap == old(heap) - {ev} + if old(NoPlace(ev, alloc)) then {} else {ev}
      ensures res == 0 && tv.Some? && ev.common.Some? ==>
                && ev.common.value < |ctl| && PutAt(old(ListsBefore(ev, lists)), lists, ev, ev.common.value, k)
                && var te := ctl[ev.common.value];
                   if First(ev, tv, res) && (!old(NoPlace(ev, alloc)) || old(te.timeout)) then
                     && te.timeout && te.deadline == ev.deadline && heap == (old(heap) - {ev}) + {te}
                     && queues == QueuesAfter(
                          QueuesAfter(old(queues), ev, old(Rescheduled(ev, tv))), te, old(Overdue(te)))
                   else
                     && unchanged(te) && heap == old(heap) - {ev}
                     && queues == QueuesAfter(old(queues), ev, old(Rescheduled(ev, tv)))
      ensures res == 0 && (tv.None? || ev.common.None?) ==>
                queues == QueuesAfter(old(queues), ev, old(Rescheduled(ev, tv)))
      ensures res == 0 && ev.interest * {Read, Write, Closed, Signal} != {} ==>
                (ev.inserted || ev.active || ev.activeLater <==> old(ev.inserted) || !old(Rescheduled(ev, tv)))
      ensures old(Scheduled()) ==>
                (Scheduled() <==> !(First(ev, tv, res) && old(NeedsTimer(ev, tv) && NoPlace(ev, alloc))))
      ensures res == 0 && tv.Some? && tv.value.common.Some? && old(NeedsTimer(ev, tv)) ==>
                (Covered(tv.value.common.value) <==> First(ev, tv, res) && !old(NoPlace(ev, alloc)))
    {
      hide ActiveOk, LaterOk, TimersOk, ListsSorted, CountsOk, MapOk, FlagsOk, Covered, Without, QueuesAfter,
        ListsBefore, PutAt, Put, NeedsMap, Rescheduled, Overdue, CoveredBy, RoomOk, Full;
      res, k := AddCore(ev, tv, absolute, now, mapRes, alloc);
      if First(ev, tv, res) {
        Schedule(tv.value.common.value, ctl[tv.value.common.value], alloc);
      } else if res == 0 && tv.Some? && tv.value.common.Some? {
        PutSomewhere(old(ListsBefore(ev, lists)), lists, ev, tv.value.common.value, k);
        Forgotten(tv.value.common.value);
      }
    }

    lemma {:induction false} PutSomewhere(was: seq<seq<Event>>, now: seq<seq<Event>>, ev: Event, i: nat, k: nat)
      requires PutAt(was, now, ev, i, k)
      ensures i < |now| && now[i] != []
    {
    }

    lemma {:induction false} InOrder(i: nat)
      requires Valid() && i < |lists|
      ensures Sorted(lists[i])
    {
    }

    /** A common timeout with events whose timer is neither set nor about to be processed is forgotten. */
    lemma {:induction false} Forgotten(i: nat)
      requires CtlOk() && i < |lists| && lists[i] != []
      ensures !ctl[i].active && !ctl[i].timeout ==> !Covered(i)
    {
      assert ctl[i] in ctl;
    }

    /** Deletes ev and activates it because of its timeout. */
    method Fire(ev: Event)
      requires Valid() && ev in events && ev.timeout
      modifies this`eventCount, this`eventCountActive, this`queues, this`later, this`heap, this`lists, this`mapped
      modifies ev`inserted, ev`active, ev`activeLater, ev`timeout, ev`res
      ensures Valid() && !ev.inserted && ev.active && !ev.activeLater && !ev.timeout && ev.res == {Timeout}
      ensures queues == old(queues)[ev.pri := Without(old(queues)[ev.pri], ev) + [ev]]
      ensures later == Without(old(later), ev)
      ensures ev.common.None? ==> heap == old(heap) - {ev} && lists == old(lists)
      ensures ev.common.Some? ==> heap == old(heap) && lists == old(ListsBefore(ev, lists))
      ensures |lists| == |old(lists)|
      ensures old(CtlOk()) ==> CtlOk() && forall j :: 0 <= j < |ctl| && old(Covered(j)) ==> Covered(j)
      ensures old(Scheduled()) ==> Scheduled()
    {
      hide ActiveOk, LaterOk, TimersOk, ListsSorted, CountsOk, MapOk, Without, RoomOk, Full;
      NotQueued(ev);
      assert !ev.finalizing;
      var _, _ := Del(ev, NoBlock);
      ActiveNolock(ev, {Timeout});
    }

    lemma {:induction false} NotQueued(ev: Event)
      requires Valid() && ev in events
      ensures ev.pri < |queues| && (!ev.active ==> Without(queues[ev.pri], ev) == queues[ev.pri])
      ensures !ev.activeLater ==> Without(later, ev) == later
    {
      hide TimersOk, ListsSorted, CountsOk, MapOk, RoomOk, Full;
      if !ev.active {
        assert ev !in AtPri(ActiveSet(), ev.pri);
        WithoutAbsent(queues[ev.pri], ev);
      }
      if !ev.activeLater {
        assert ev !in LaterSet();
        WithoutAbsent(later, ev);
      }
    }

    /** min_heap_top_ */
    method HeapTop() returns (ev: Option<Event>)
      ensures ev.None? <==> heap == {}
      ensures ev.Some? ==> ev.value in heap && forall e <- heap :: ev.value.deadline <= e.deadline
    {
      if heap == {} {
        return None;
      }
      var rest := heap;
      var top :| top in rest;
      rest := rest - {top};
      while rest != {}
        invariant rest <= heap && top in heap && top !in rest && forall e <- heap - rest :: top.deadline <= e.deadline
        decreases rest
        modifies {}
      {
        var e :| e in rest;
        rest := rest - {e};
        if e.deadline < top.deadline {
          top := e;
        }
      }
      return Some(top);
    }

    /** Events that fired are active because of their timeout, and on no other queue. */
    ghost predicate AllFired(fired: seq<Event>)
      reads events`inserted, events`active, events`activeLater, events`timeout, events`res
    {
      forall e <- fired :: e in events && !e.inserted && e.active && !e.activeLater && !e.timeout && e.res == {Timeout}
    }

    lemma {:induction false} QueuesSeparate()
      requires ActiveOk() && LaterOk()
      ensures Separate(queues, later) && forall e <- events :: e.pri < |queues|
    {
    }

    /** timeout_process: every event in the heap whose time has come is activated, in the order of their times. */
    method TimeoutProcess(now: int) returns (ghost fired: seq<Event>)
      requires Valid() && CtlOk()
      modifies this`eventCount, this`eventCountActive, this`queues, this`later, this`heap, this`lists, this`mapped
      modifies events`inserted, events`active, events`activeLater, events`timeout, events`res
      ensures Valid() && CtlOk() && lists == old(lists) && (old(Scheduled()) ==> Scheduled())
      ensures heap == set e <- old(heap) | e.deadline > now
      ensures Distinct(fired) && forall e :: e in fired <==> e in old(heap) && e.deadline <= now
      ensures forall i, j :: 0 <= i < j < |fired| ==> fired[i].deadline <= fired[j].deadline
      ensures AllFired(fired) && Requeued(old(queues), old(later), fired, queues, later)
      ensures forall e <- events :: e !in fired ==> unchanged(e)
    {
      hide ActiveOk, LaterOk, ListsSorted, CountsOk, MapOk, FlagsOk, RoomOk, TimersOk, Without, Requeued, Separate;
      hide Covered, Scheduled, CtlOk, Lists, TimersOf, ListsBefore, Expired;
      fired := [];
      QueuesSeparate();
      RequeuedNone(queues, later);
      HeapKnown();
      ExpiredNone(heap, now);
      while true
        invariant Valid() && CtlOk() && lists == old(lists) && (old(Scheduled()) ==> Scheduled())
        invariant Expired(old(heap), heap, fired, now) && (forall e <- fired :: e !in heap)
        invariant AllFired(fired) && Requeued(old(queues), old(later), fired, queues, later)
        invariant forall e <- events :: e !in fired ==> unchanged(e)
        decreases heap
      {
        var top := HeapTop();
        if top.None? || top.value.deadline > now {
          break;
        }
        InHeap(top.value);
        RequeuedSnoc(old(queues), old(later), fired, queues, later, top.value);
        ExpiredSnoc(old(heap), heap, fired, now, top.value);
        Fire(top.value);
        fired := fired + [top.value];
      }
      ExpiredAll(old(heap), heap, fired, now);
    }

    /** Of the heap `was`, just the events in rest have not fired; those fired had expired, and went in order. */
    ghost predicate Expired(was: set<Event>, rest: set<Event>, fired: seq<Event>, now: int)
      reads events`deadline
    {
      && rest <= was <= events && Distinct(fired)
      && (forall e <- fired :: e in was && e !in rest) && (forall e <- was :: e in rest || e in fired)
      && (forall e <- was :: e in fired ==> e.deadline <= now)
      && (forall e <- was, f <- rest :: e in fired ==> e.deadline <= f.deadline)
      && (forall i, j :: 0 <= i < j < |fired| ==> fired[i] in was && fired[j] in was
                                                  && fired[i].deadline <= fired[j].deadline)
    }

    lemma {:induction false} ExpiredNone(was: set<Event>, now: int)
      requires was <= events
      ensures Expired(was, was, [], now)
    {
    }

    lemma {:induction false} ExpiredSnoc(was: set<Event>, rest: set<Event>, fired: seq<Event>, now: int, top: Event)
      requires Expired(was, rest, fired, now) && top in rest && top.deadline <= now
      requires forall f <- rest :: top.deadline <= f.deadline
      ensures Expired(was, rest - {top}, fired + [top], now) && top !in fired
    {
    }

    lemma {:induction false} ExpiredAll(was: set<Event>, rest: set<Event>, fired: seq<Event>, now: int)
      requires Expired(was, rest, fired, now) && forall f <- rest :: f.deadline > now
      ensures Distinct(fired) && forall e :: e in fired <==> e in was && e.deadline <= now
      ensures rest == set e <- was | e.deadline > now
      ensures forall i, j :: 0 <= i < j < |fired| ==> fired[i].deadline <= fired[j].deadline
    {
    }

    lemma {:induction false} HeapKnown()
      requires Valid()
      ensures heap <= events
    {
    }

    lemma {:induction false} InHeap(ev: Event)
      requires Valid() && ev in heap
      ensures ev in events && ev.timeout && ev.common.None?
    {
    }

    /**
     common_timeout_callback, after its timer te was taken off the active queue: the events at the front of the list
     whose time has come are activated, and the timer is set for the next one.
     */
    method CommonTimeoutCallback(i: nat, te: Event, now: int, alloc: bool) returns (ghost fired: seq<Event>)
      requires Valid() && CtlOk() && i < |lists| && te == ctl[i] && !te.active
      modifies this`eventCount, this`eventCountActive, this`queues, this`later, this`heap, this`capacity, this`lists
      modifies this`mapped
      modifies events`inserted, events`active, events`activeLater, events`timeout, events`res
      modifies te`deadline, te`common
      ensures Valid() && CtlOk() && |fired| <= |old(lists)[i]| && fired == old(lists)[i][..|fired|]
      ensures lists == old(lists)[i := old(lists)[i][|fired|..]]
      ensures forall e <- old(lists)[i] :: e in fired <==> e.deadline <= now
      ensures AllFired(fired) && Requeued(old(queues), old(later), fired, queues, later)
      ensures forall e <- events :: e !in fired && e != te ==> unchanged(e)
      ensures forall j :: 0 <= j < |ctl| && j != i && old(Covered(j)) ==> Covered(j)
      ensures Covered(i) <==> alloc || !old(Full()) || lists[i] == [] || old(te.timeout)
      ensures lists[i] != [] && Covered(i) ==> te.timeout && te.deadline == lists[i][0].deadline
      ensures lists[i] == [] ==> unchanged(te)
    {
      hide ActiveOk, LaterOk, CountsOk, MapOk, FlagsOk, Requeued, Separate, TimersOk, Without, CoveredBy, RoomOk, Full;
      fired := FireDue(i, te, now);
      if lists[i] != [] {
        Schedule(i, te, alloc);
      }
    }

    /** The loop of common_timeout_callback. */
    method FireDue(i: nat, ghost te: Event, now: int) returns (ghost fired: seq<Event>)
      requires Valid() && CtlOk() && i < |lists| && te == ctl[i]
      modifies this`eventCount, this`eventCountActive, this`queues, this`later, this`heap, this`lists, this`mapped
      modifies events`inserted, events`active, events`activeLater, events`timeout, events`res
      ensures Valid() && CtlOk() && |fired| <= |old(lists)[i]| && fired == old(lists)[i][..|fired|]
      ensures lists == old(lists)[i := old(lists)[i][|fired|..]] && |lists| == |old(lists)|
      ensures heap == old(heap)
      ensures forall e <- old(lists)[i] :: (e in fired <==> e.deadline <= now) && e in events && e != te
      ensures AllFired(fired) && Requeued(old(queues), old(later), fired, queues, later)
      ensures forall e <- events :: e !in fired ==> unchanged(e)
      ensures forall j :: 0 <= j < |ctl| && j != i && old(Covered(j)) ==> Covered(j)
    {
      hide ActiveOk, LaterOk, CountsOk, MapOk, FlagsOk, Requeued, Separate, Without, CoveredBy, Lists, TimersOf,
        Covered, ListsSorted, TimersOk, RoomOk, Full, Scheduled, Sorted;
      var n := 0;
      fired := [];
      QueuesSeparate();
      RequeuedNone(queues, later);
      ListFacts(i, te);
      while lists[i] != [] && lists[i][0].deadline <= now
        invariant Valid() && CtlOk() && n == |fired| <= |old(lists)[i]| && fired == old(lists)[i][..n]
        invariant lists == old(lists)[i := old(lists)[i][n..]] && heap == old(heap)
        invariant AllFired(fired) && Requeued(old(queues), old(later), fired, queues, later)
        invariant forall e <- events :: e !in fired ==> unchanged(e)
        invariant forall e <- fired :: e.deadline <= now
        invariant forall j :: 0 <= j < |ctl| && j != i && old(Covered(j)) ==> Covered(j)
        decreases |old(lists)[i]| - n
      {
        var ev := lists[i][0];
        InList(i);
        RequeuedSnoc(old(queues), old(later), fired, queues, later, ev);
        FirstOut(lists[i]);
        Fire(ev);
        fired, n := fired + [ev], n + 1;
      }
    }

    lemma {:induction false} InList(i: nat)
      requires TimersOk() && i < |lists| && lists[i] != []
      ensures var ev := lists[i][0]; ev in events && ev.timeout && ev.common == Some(i)
    {
      assert lists[i][0] in lists[i];
    }

    lemma {:induction false} ListFacts(i: nat, te: Event)
      requires TimersOk() && i < |lists| && ListsSorted() && te.common.None?
      ensures Distinct(lists[i]) && Sorted(lists[i]) && te !in lists[i]
    {
    }

    /** event_process_active_single_queue takes the first event off its queue. */
    method Take(p: nat) returns (ev: Event)
      requires Valid() && p < |queues| && queues[p] != []
      modifies this`eventCount, this`eventCountActive, this`queues, this`later, this`heap, this`lists, this`mapped
      modifies queues[p][0..1]`inserted, queues[p][0..1]`active, queues[p][0..1]`activeLater, queues[p][0..1]`timeout
      ensures Valid() && ev == old(queues)[p][0] && queues == old(queues)[p := old(queues)[p][1..]] && !ev.active
      ensures ev.persist || ev.finalizing ==>
                unchanged(`later, `heap, `lists, `mapped) && unchanged(ev`inserted, ev`activeLater, ev`timeout)
      ensures !ev.persist && !ev.finalizing ==> !ev.inserted && !ev.timeout && !ev.activeLater
      ensures old(CtlOk()) ==> CtlOk() && forall j :: 0 <= j < |ctl| && ctl[j] != ev && old(Covered(j)) ==> Covered(j)
    {
      hide LaterOk, TimersOk, ListsSorted, CountsOk, MapOk, FlagsOk, Without, RoomOk, Full;
      ev := queues[p][0];
      assert ev in queues[p];
      FirstOut(queues[p]);
      if ev.persist || ev.finalizing {
        RemoveActive(ev);
        if old(CtlOk()) {
          assert CtlOk();
        }
      } else {
        var _, _ := Del(ev, NoBlock);
      }
    }
  }

  /** A base with one event for reading, which waits for it and for a timeout. */
  method Reader() returns (base: EventBase, ev: Event)
    ensures fresh(base) && fresh(ev) && base.Valid() && base.CtlOk() && base.ctl == [] && base.events == {ev}
    ensures ev.interest == {Read} && ev.inserted && ev.timeout && ev.common.None?
    ensures !ev.active && !ev.activeLater && !ev.finalizing
  {
    hide EventBase.QueuesOk, EventBase.MapOk, EventBase.QueuesAfter, EventBase.ListsBefore, EventBase.Overdue;
    ev := new Event(false, {Read}, true, 0);
    base := new EventBase(1, {ev}, []);
    assert Read in ev.interest * {Read, Write, Closed, Signal};
    var _, _ := base.Add(ev, Some(Timeval(5, None)), false, 0, 1, true);
  }

  /** An event for reading that is added again after its timeout has gone off, and before its callback has run. */
  method LostInterestExample() returns (base: EventBase, ev: Event, res: int)
    ensures base.Valid() && res == 0 && ev.interest == {Read}
    ensures ev.timeout && !ev.inserted && !ev.active && !ev.activeLater && ev !in base.mapped
  {
    hide EventBase.QueuesOk, EventBase.MapOk, EventBase.QueuesAfter, EventBase.ListsBefore, Without;
    base, ev := Reader();
    base.Fire(ev);
    ghost var k;
    res, k := base.Add(ev, Some(Timeval(5, None)), false, 6, 1, true);
    base.Mapped(ev);
  }

  /** An event that is on no queue. */
  predicate Idle(e: Event)
    reads e
  {
    && !e.inserted && !e.active && !e.activeLater && !e.timeout && !e.finalizing
    && e.common.None? && e.interest == {} && e.pri == 0
  }

  method IdleEvents(n: nat) returns (s: seq<Event>)
    ensures |s| == n && fresh(s) && Distinct(s) && forall e <- s :: Idle(e)
  {
    s := [];
    while |s| < n
      invariant |s| <= n && fresh(s) && Distinct(s) && forall e <- s :: Idle(e)
    {
      var e := new Event(false, {}, false, 0);
      s := s + [e];
    }
  }

  predicate Differ(te: Event, ue: Event, a: Event, b: Event) {
    te != ue && te != a && te != b && ue != a && ue != b && a != b
  }

  /** A base with two common timeouts, whose timers are te and ue, and nine more events. */
  method IdleBase() returns (base: EventBase, te: Event, ue: Event, a: Event, b: Event, more: seq<Event>)
    ensures fresh(base) && fresh(base.events) && base.Valid() && base.CtlOk() && base.ctl == [te, ue]
    ensures {te, ue, a, b} <= base.events && Differ(te, ue, a, b)
    ensures forall e <- more :: e in base.events && Idle(e) && e !in {te, ue, a, b}
    ensures base.lists == [[], []] && base.capacity == 0 && base.heap == {}
    ensures Idle(te) && Idle(ue) && Idle(a) && Idle(b) && |more| == 7 && Distinct(more)
  {
    hide EventBase.QueuesOk, EventBase.MapOk, EventBase.Covered;
    more := IdleEvents(7);
    te := new Event(true, {}, false, 0);
    ue := new Event(true, {}, false, 0);
    a := new Event(false, {}, false, 0);
    b := new Event(false, {}, false, 0);
    ghost var all := {te, ue, a, b} + set e <- more;
    base := new EventBase(1, all, [te, ue]);
    assert base.lists[0] in base.lists && base.lists[1] in base.lists;
  }

  /** The event a waits for the first common timeout, and the heap is full. */
  ghost predicate Crowded(base: EventBase, te: Event, ue: Event, a: Event, b: Event)
    reads base, base.events
  {
    && base.Valid() && base.CtlOk() && base.ctl == [te, ue] && {te, ue, a, b} <= base.events && Differ(te, ue, a, b)
    && base.lists == [[a], []] && base.capacity == 8 && base.Full()
    && a.timeout && a.common == Some(0) && a.interest == {} && !a.finalizing
    && Idle(ue) && Idle(b)
  }

  method FirstListed() returns (base: EventBase, te: Event, ue: Event, a: Event, b: Event, more: seq<Event>)
    ensures fresh(base) && fresh(base.events) && base.Valid() && base.CtlOk() && base.ctl == [te, ue]
    ensures {te, ue, a, b} <= base.events && Differ(te, ue, a, b)
    ensures forall e <- more :: e in base.events && Idle(e) && e !in {te, ue, a, b}
    ensures base.lists == [[a], []] && base.capacity == 8 && base.heap == {te}
    ensures a.timeout && a.common == Some(0) && a.interest == {} && !a.finalizing
    ensures Idle(ue) && Idle(b) && |more| == 7 && Distinct(more)
  {
    base, te, ue, a, b, more := IdleBase();
    hide EventBase.QueuesOk, EventBase.MapOk, EventBase.QueuesAfter, EventBase.Overdue, EventBase.Covered;
    hide EventBase.ValidBut, Distinct;
    var _, k := base.Add(a, Some(Timeval(5, Some(0))), false, 0, 0, true);
    assert k == 0 && base.lists[0] == [a];
  }

  /** An idle event gets a timeout of its own in a heap that has room. */
  method AddOwn(base: EventBase, ev: Event, usec: int)
    requires base.Valid() && base.CtlOk() && ev in base.events && ev !in base.ctl && Idle(ev) && !base.Full()
    modifies base`eventCount, base`eventCountActive, base`queues, base`heap, base`capacity, base`lists, base`mapped
    modifies ev`inserted, ev`active, ev`timeout, ev`deadline, ev`common
    ensures base.Valid() && base.CtlOk() && base.lists == old(base.lists) && base.capacity == old(base.capacity)
    ensures |base.heap| == |old(base.heap)| + 1
  {
    base.HeapHolds(ev);
    hide EventBase.QueuesOk, EventBase.MapOk, EventBase.QueuesAfter, EventBase.Overdue, EventBase.Covered;
    hide EventBase.ValidBut, EventBase.CtlOk, Fits, Fills;
    var _, _ := base.Add(ev, Some(Timeval(usec, None)), false, 0, 0, true);
    assert base.heap == old(base.heap) + {ev};
  }

  method FullHeap() returns (base: EventBase, te: Event, ue: Event, a: Event, b: Event)
    ensures fresh(base) && fresh(base.events) && Crowded(base, te, ue, a, b)
  {
    hide EventBase.QueuesOk, EventBase.MapOk, EventBase.CtlOk;
    var more;
    base, te, ue, a, b, more := FirstListed();
    var i := 0;
    while i < 7
      invariant 0 <= i <= 7 && base.Valid() && base.CtlOk() && base.lists == [[a], []] && base.capacity == 8
      invariant |base.heap| == i + 1
      invariant a.timeout && a.common == Some(0) && !a.finalizing && Idle(ue) && Idle(b)
      invariant forall j :: i <= j < 7 ==> Idle(more[j])
    {
      assert more[i] in more;
      AddOwn(base, more[i], 50);
      i := i + 1;
    }
  }

  /** That event, moved to the second common timeout without memory for its timer. */
  method Moved() returns (base: EventBase, te: Event, ue: Event, a: Event, b: Event)
    ensures fresh(base) && fresh(base.events) && base.Valid() && base.CtlOk() && base.ctl == [te, ue]
    ensures {te, ue, a, b} <= base.events && Differ(te, ue, a, b)
    ensures base.lists == [[], [a]] && a !in base.heap && a.timeout && a.common == Some(1) && a.deadline == 6
    ensures Idle(ue) && Idle(b) && !base.Covered(1)
  {
    base, te, ue, a, b := FullHeap();
    hide EventBase.QueuesOk, EventBase.MapOk, EventBase.QueuesAfter, EventBase.Overdue, EventBase.Covered;
    hide EventBase.ValidBut, EventBase.CtlOk, Fits, Fills;
    var _, k := base.Add(a, Some(Timeval(5, Some(1))), false, 1, 0, false);
    assert k == 0 && base.lists[1] == [a];
    base.HeapHolds(a);
  }

  /** And another one, behind it, with memory. */
  method Joined() returns (base: EventBase, a: Event, b: Event)
    ensures fresh(base) && fresh(base.events)
    ensures base.Valid() && base.CtlOk() && base.lists == [[], [a, b]] && |base.ctl| == 2 && !base.Covered(1)
    ensures a.timeout && a.deadline == 6 && a !in base.heap
  {
    var te, ue;
    base, te, ue, a, b := Moved();
    hide EventBase.QueuesOk, EventBase.MapOk, EventBase.QueuesAfter, EventBase.Overdue, EventBase.Covered;
    hide EventBase.ValidBut;
    var _, m := base.Add(b, Some(Timeval(5, Some(1))), false, 2, 0, true);
    base.InOrder(1);
    assert base.lists[1] == if m == 0 then [b, a] else [a, b];
    assert base.lists[1][0].deadline <= base.lists[1][1].deadline;
  }

  /** It stays there for good, although there was room for the timer when another event came behind it. */
  method ForgottenExample() returns (base: EventBase, a: Event, ghost fired: seq<Event>)
    ensures base.Valid() && base.CtlOk() && |base.lists| == 2 && a in base.lists[1] && a.deadline == 6 && a !in fired
  {
    hide EventBase.QueuesOk, EventBase.MapOk, EventBase.Covered, EventBase.CtlOk, Requeued;
    var b;
    base, a, b := Joined();
    fired := base.TimeoutProcess(100);
  }

  /** The event moves to a timeout of its own without memory: it is marked as waiting, and is nowhere. */
  method UnplacedExample() returns (base: EventBase, a: Event, res: int)
    ensures res == 0 && base.ValidBut(a) && !base.Valid() && a.timeout && a !in base.heap && base.lists == [[], []]
  {
    var te, ue, b;
    base, te, ue, a, b := FullHeap();
    hide EventBase.QueuesOk, EventBase.MapOk, EventBase.QueuesAfter, EventBase.Overdue, EventBase.Covered;
    ghost var k;
    res, k := base.Add(a, Some(Timeval(5, None)), false, 1, 0, false);
    base.NotValid(a);
  }
}
