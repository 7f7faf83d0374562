/**
 The map from descriptors to the events on them, and the list of changes that a backend applies before it waits: one
 change for each descriptor, whatever was added and deleted since the last time.
 */
module Evmap {
  import opened Common
  import Buckets

  datatype Kind = Read | Write | Closed

  const KINDS: set<Kind> := {Read, Write, Closed}

  datatype Event = Event(id: nat, fd: int, wants: set<Kind>, et: bool)

  lemma {:induction false} AllKinds()
    ensures forall k: Kind :: k in KINDS
  {
    forall k: Kind ensures k in KINDS {
      match k case Read => case Write => case Closed =>
    }
  }

  /** read_change, write_change or close_change: EV_CHANGE_ADD or EV_CHANGE_DEL, with EV_CHANGE_ET, or nothing. */
  datatype Delta = Keep | Add(et: bool) | Del(et: bool)

  datatype Change = Change(fd: int, before: set<Kind>, read: Delta, write: Delta, close: Delta)

  function Of(c: Change, k: Kind): (d: Delta) {
    match k
    case Read => c.read
    case Write => c.write
    case Closed => c.close
  }

  function Kinds(c: Change, adds: bool): (s: set<Kind>) {
    set k <- KINDS | if adds then Of(c, k).Add? else Of(c, k).Del?
  }

  /** The kinds that are watched once the change is made. */
  function Meaning(c: Change): (s: set<Kind>) {
    c.before - Kinds(c, false) + Kinds(c, true)
  }

  /** event_changelist_add_ on the entry of its descriptor */
  function WithAdd(c: Change, kinds: set<Kind>, et: bool): (c': Change) {
    var c1 := if Read in kinds then c.(read := Delta.Add(et)) else c;
    var c2 := if Write in kinds then c1.(write := Delta.Add(et)) else c1;
    if Closed in kinds then c2.(close := Delta.Add(et)) else c2
  }

  /** event_changelist_del_ on the entry of its descriptor: the deletion of what was not there before is no change. */
  function WithDel(c: Change, kinds: set<Kind>, et: bool): (c': Change) {
    var c1 := if Read in kinds then c.(read := if Read in c.before then Delta.Del(et) else Keep) else c;
    var c2 := if Write in kinds then c1.(write := if Write in c.before then Delta.Del(et) else Keep) else c1;
    if Closed in kinds then c2.(close := if Closed in c.before then Delta.Del(et) else Keep) else c2
  }

  /** A pending change deletes only what was there before. */
  ghost predicate Sound(c: Change) {
    Kinds(c, false) <= c.before
  }

  lemma {:induction false} MeaningOfAdd(c: Change, kinds: set<Kind>, et: bool)
    ensures Meaning(WithAdd(c, kinds, et)) == Meaning(c) + kinds && WithAdd(c, kinds, et).fd == c.fd
    ensures WithAdd(c, kinds, et).before == c.before && (Sound(c) ==> Sound(WithAdd(c, kinds, et)))
  {
    var c' := WithAdd(c, kinds, et);
    forall k: Kind ensures Of(c', k) == if k in kinds then Delta.Add(et) else Of(c, k) {
    }
    AllKinds();
  }

  lemma {:induction false} MeaningOfDel(c: Change, kinds: set<Kind>, et: bool)
    ensures Meaning(WithDel(c, kinds, et)) == Meaning(c) - kinds && WithDel(c, kinds, et).fd == c.fd
    ensures WithDel(c, kinds, et).before == c.before && (Sound(c) ==> Sound(WithDel(c, kinds, et)))
  {
    var c' := WithDel(c, kinds, et);
    forall k: Kind
      ensures Of(c', k) == if k in kinds then (if k in c.before then Delta.Del(et) else Keep) else Of(c, k)
    {
    }
    AllKinds();
  }

  datatype Request = AddKinds(kinds: set<Kind>, et: bool) | DelKinds(kinds: set<Kind>, et: bool)

  function Now(s: set<Kind>, req: Request): (t: set<Kind>) {
    match req
    case AddKinds(kinds, _) => s + kinds
    case DelKinds(kinds, _) => s - kinds
  }

  function Noted(c: Change, req: Request): (c': Change) {
    match req
    case AddKinds(kinds, et) => WithAdd(c, kinds, et)
    case DelKinds(kinds, et) => WithDel(c, kinds, et)
  }

  /** A list of additions and deletions, each made at once. */
  function AtOnce(s: set<Kind>, reqs: seq<Request>): (t: set<Kind>)
    decreases |reqs|
  {
    if reqs == [] then s else AtOnce(Now(s, reqs[0]), reqs[1..])
  }

  /** The same list, put together into one change. */
  function Coalesced(c: Change, reqs: seq<Request>): (c': Change)
    decreases |reqs|
  {
    if reqs == [] then c else Coalesced(Noted(c, reqs[0]), reqs[1..])
  }

  lemma {:induction false} CoalescingKeepsMeaning(c: Change, reqs: seq<Request>)
    requires Sound(c)
    ensures Meaning(Coalesced(c, reqs)) == AtOnce(Meaning(c), reqs)
    ensures Coalesced(c, reqs).before == c.before && Coalesced(c, reqs).fd == c.fd && Sound(Coalesced(c, reqs))
    decreases |reqs|
  {
    hide Meaning, Sound, WithAdd, WithDel;
    if reqs != [] {
      match reqs[0]
      case AddKinds(kinds, et) =>
        MeaningOfAdd(c, kinds, et);
        CoalescingKeepsMeaning(WithAdd(c, kinds, et), reqs[1..]);
      case DelKinds(kinds, et) =>
        MeaningOfDel(c, kinds, et);
        CoalescingKeepsMeaning(WithDel(c, kinds, et), reqs[1..]);
    }
  }

  /** The call of epoll_ctl for a change. */
  datatype EpollOp = NoOp | CtlAdd(events: set<Kind>) | CtlMod(events: set<Kind>) | CtlDel

  function OpFor(c: Change): (op: EpollOp) {
    var adds, dels := Kinds(c, true), Kinds(c, false);
    if adds != {} then
      if c.before != {} then CtlMod(adds + (c.before - dels)) else CtlAdd(adds + (c.before - dels))
    else if dels != {} then
      if c.before - dels != {} then CtlMod(c.before - dels) else CtlDel
    else
      NoOp
  }

  /** What the kernel watches after a call; None when the call fails. */
  function Ctl(watched: set<Kind>, op: EpollOp): (r: Option<set<Kind>>) {
    match op
    case NoOp => Some(watched)
    case CtlAdd(events) => if watched == {} then Some(events) else None
    case CtlMod(events) => if watched == {} then None else Some(events)
    case CtlDel => if watched == {} then None else Some({})
  }

  /** The call for a change succeeds, and does what the change means. */
  lemma {:induction false} OpIsRight(c: Change)
    requires Sound(c)
    ensures Ctl(c.before, OpFor(c)) == Some(Meaning(c))
  {
    var adds, dels := Kinds(c, true), Kinds(c, false);
    assert adds + (c.before - dels) == c.before - dels + adds;
    if adds == {} {
      assert c.before - dels + adds == c.before - dels;
      assert dels == {} ==> c.before - dels == c.before;
    }
  }

  function Wants(k: Kind): (p: Event -> bool) {
    (ev: Event) => k in ev.wants
  }

  function Count(evs: seq<Event>, k: Kind): (n: nat) {
    Buckets.Count(evs, Wants(k))
  }

  function Num(ev: Event, k: Kind): (n: nat) {
    if k in ev.wants then 1 else 0
  }

  /** LIST_REMOVE */
  function Unlisted(evs: seq<Event>, ev: Event): (t: seq<Event>) {
    if evs == [] then [] else if evs[0] == ev then evs[1..] else [evs[0]] + Unlisted(evs[1..], ev)
  }

  lemma {:induction false} CountListed(evs: seq<Event>, ev: Event, k: Kind)
    ensures Count([ev] + evs, k) == Count(evs, k) + Num(ev, k)
  {
    Buckets.CountSnoc(evs, ev, Wants(k));
  }

  lemma {:induction false} CountUnlisted(evs: seq<Event>, ev: Event, k: Kind)
    requires ev in evs
    ensures Count(Unlisted(evs, ev), k) == Count(evs, k) - Num(ev, k)
  {
    if evs[0] != ev {
      CountUnlisted(evs[1..], ev, k);
      Buckets.CountSnoc(Unlisted(evs[1..], ev), evs[0], Wants(k));
    }
  }

  /** The events of a list have the descriptor fd. */
  datatype Slot = Slot(nread: nat, nwrite: nat, nclose: nat, events: seq<Event>, idxplus1: nat)

  function Number(s: Slot, k: Kind): (n: nat) {
    match k
    case Read => s.nread
    case Write => s.nwrite
    case Closed => s.nclose
  }

  /** The kinds with a count that is not zero. */
  function Wanted(s: Slot): (w: set<Kind>) {
    set k <- KINDS | Number(s, k) > 0
  }

  ghost predicate Counted(s: Slot, fd: int) {
    && (forall k :: Number(s, k) == Count(s.events, k) <= 0xffff)
    && (forall ev <- s.events :: ev.fd == fd)
  }

  const NO_SLOT := Slot(0, 0, 0, [], 0)

  /** A kind is wanted just when an event of the list wants it. */
  lemma {:induction false} WantedByEvents(s: Slot, fd: int, k: Kind)
    requires Counted(s, fd)
    ensures k in Wanted(s) <==> exists ev :: ev in s.events && k in ev.wants
  {
    AllKinds();
    if i :| 0 <= i < |s.events| && k in s.events[i].wants {
      Buckets.CountSome(s.events, i, Wants(k));
      assert s.events[i] in s.events;
    } else {
      Buckets.CountNone(s.events, Wants(k));
    }
  }

  /** Are two slots the same but for their links to the list of changes? */
  predicate Same(s: Slot, t: Slot) {
    s.(idxplus1 := 0) == t.(idxplus1 := 0)
  }

  lemma {:induction false} SameFacts(s: Slot, t: Slot, fd: int)
    requires Same(s, t)
    ensures (Counted(s, fd) <==> Counted(t, fd)) && Wanted(s) == Wanted(t)
  {
    assert forall k :: Number(s, k) == Number(t, k);
  }

  type Slots = map<int, Slot>
  type Sets = map<int, set<Kind>>

  function SlotOf(io: Slots, fd: int): (s: Slot) {
    if fd in io then io[fd] else NO_SLOT
  }

  function SetOf(kernel: Sets, fd: int): (w: set<Kind>) {
    if fd in kernel then kernel[fd] else {}
  }

  /** idxplus1 leads from each descriptor with a change to that change, and each change belongs to such a descriptor. */
  ghost predicate Linked(io: Slots, cs: seq<Change>) {
    && (forall fd <- io :: io[fd].idxplus1 <= |cs| && (io[fd].idxplus1 > 0 ==> cs[io[fd].idxplus1 - 1].fd == fd))
    && (forall i :: 0 <= i < |cs| ==> cs[i].fd in io && io[cs[i].fd].idxplus1 == i + 1)
  }

  /** Each pending change starts from what the kernel watches. */
  ghost predicate Recorded(cs: seq<Change>, kernel: Sets) {
    forall i :: 0 <= i < |cs| ==> Sound(cs[i]) && cs[i].before == SetOf(kernel, cs[i].fd)
  }

  /** What the backend is to watch: what the kernel watches, or the meaning of the pending change. */
  ghost function Interest(io: Slots, cs: seq<Change>, kernel: Sets, fd: int): (w: set<Kind>)
    requires Linked(io, cs)
  {
    if fd in io && io[fd].idxplus1 > 0 then Meaning(cs[io[fd].idxplus1 - 1]) else SetOf(kernel, fd)
  }

  /** A new change, which says nothing yet. */
  lemma {:induction false} ChangeAdded(io: Slots, cs: seq<Change>, kernel: Sets, fd: int)
    requires Linked(io, cs) && Recorded(cs, kernel) && fd in io && io[fd].idxplus1 == 0
    ensures var c, io' := Change(fd, SetOf(kernel, fd), Keep, Keep, Keep), io[fd := io[fd].(idxplus1 := |cs| + 1)];
            && Linked(io', cs + [c]) && Recorded(cs + [c], kernel)
            && forall f :: Interest(io', cs + [c], kernel, f) == Interest(io, cs, kernel, f)
                           && Same(SlotOf(io', f), SlotOf(io, f))
  {
    var c, io' := Change(fd, SetOf(kernel, fd), Keep, Keep, Keep), io[fd := io[fd].(idxplus1 := |cs| + 1)];
    assert Meaning(c) == c.before;
    hide Meaning, Sound;
    assert Sound(c) by { assert Kinds(c, false) == {}; }
    forall f ensures Interest(io', cs + [c], kernel, f) == Interest(io, cs, kernel, f) {
    }
  }

  /** Another change in place of that of a descriptor. */
  lemma {:induction false} ChangeReplaced(io: Slots, cs: seq<Change>, kernel: Sets, i: nat, c: Change)
    requires Linked(io, cs) && Recorded(cs, kernel) && i < |cs|
    requires Sound(c) && c.before == cs[i].before && c.fd == cs[i].fd
    ensures Linked(io, cs[i := c]) && Recorded(cs[i := c], kernel)
    ensures forall f ::
              Interest(io, cs[i := c], kernel, f) == if f == c.fd then Meaning(c) else Interest(io, cs, kernel, f)
    ensures Interest(io, cs, kernel, c.fd) == Meaning(cs[i])
  {
    hide Meaning, Sound;
    forall f
      ensures Interest(io, cs[i := c], kernel, f) == if f == c.fd then Meaning(c) else Interest(io, cs, kernel, f)
    {
    }
  }

  /** The kinds of ev that no event of the slot wants yet, or that no other one wants. */
  function First(s: Slot, ev: Event): (w: set<Kind>) {
    set k <- KINDS | k in ev.wants && Number(s, k) == 0
  }

  function Last(s: Slot, ev: Event): (w: set<Kind>) {
    set k <- KINDS | k in ev.wants && Number(s, k) == 1
  }

  predicate Full(s: Slot, ev: Event) {
    exists k :: k in ev.wants && Number(s, k) == 0xffff
  }

  function Listed(s: Slot, ev: Event): (t: Slot) {
    Slot(s.nread + Num(ev, Read), s.nwrite + Num(ev, Write), s.nclose + Num(ev, Closed), [ev] + s.events, s.idxplus1)
  }

  function Delisted(s: Slot, ev: Event): (t: Slot)
    requires forall k <- ev.wants :: Number(s, k) > 0
  {
    assert forall k: Kind :: Number(s, k) >= Num(ev, k);
    assert Number(s, Read) == s.nread && Number(s, Write) == s.nwrite && Number(s, Closed) == s.nclose;
    Slot(
      s.nread - Num(ev, Read), s.nwrite - Num(ev, Write), s.nclose - Num(ev, Closed),
      Unlisted(s.events, ev), s.idxplus1)
  }

  lemma {:induction false} ListedFacts(s: Slot, ev: Event)
    requires Counted(s, ev.fd) && !Full(s, ev)
    ensures Counted(Listed(s, ev), ev.fd) && Wanted(Listed(s, ev)) == Wanted(s) + First(s, ev)
  {
    AllKinds();
    var t := Listed(s, ev);
    forall k: Kind ensures Number(t, k) == Number(s, k) + Num(ev, k) && Number(t, k) == Count(t.events, k) {
      CountListed(s.events, ev, k);
    }
  }

  lemma {:induction false} DelistedFacts(s: Slot, ev: Event)
    requires Counted(s, ev.fd) && ev in s.events
    ensures forall k <- ev.wants :: Number(s, k) > 0
    ensures Counted(Delisted(s, ev), ev.fd) && Wanted(Delisted(s, ev)) == Wanted(s) - Last(s, ev)
    ensures Last(s, ev) <= Wanted(s)
  {
    AllKinds();
    forall k: Kind ensures Number(s, k) >= Num(ev, k) && Count(Unlisted(s.events, ev), k) == Number(s, k) - Num(ev, k) {
      CountUnlisted(s.events, ev, k);
    }
    var t := Delisted(s, ev);
    forall k: Kind ensures Number(t, k) == Number(s, k) - Num(ev, k) {
    }
    UnlistedIn(s.events, ev);
  }

  lemma {:induction false} UnlistedIn(evs: seq<Event>, ev: Event)
    ensures forall e <- Unlisted(evs, ev) :: e in evs
  {
    if evs != [] {
      UnlistedIn(evs[1..], ev);
    }
  }

  /** A slot with the same link. */
  lemma {:induction false} SlotReplaced(io: Slots, cs: seq<Change>, kernel: Sets, fd: int, s: Slot)
    requires Linked(io, cs) && s.idxplus1 == SlotOf(io, fd).idxplus1
    ensures Linked(io[fd := s], cs) && forall f :: Interest(io[fd := s], cs, kernel, f) == Interest(io, cs, kernel, f)
  {
    hide Meaning;
    var io' := io[fd := s];
    forall f <- io' ensures io'[f].idxplus1 == SlotOf(io, f).idxplus1 {
    }
  }

  /** The descriptors of the first i changes. */
  ghost function Fds(cs: seq<Change>, i: nat): (s: set<int>)
    requires i <= |cs|
  {
    set j | 0 <= j < i :: cs[j].fd
  }

  lemma {:induction false} RecordedAt(cs: seq<Change>, kernel: Sets, i: nat)
    requires Recorded(cs, kernel) && i < |cs|
    ensures Sound(cs[i]) && cs[i].before == SetOf(kernel, cs[i].fd)
  {
  }

  /** Change i is the only one for its descriptor. */
  lemma {:induction false} OneChangeEach(io: Slots, cs: seq<Change>, i: nat)
    requires Linked(io, cs) && i < |cs|
    ensures cs[i].fd !in Fds(cs, i) && Fds(cs, i + 1) == Fds(cs, i) + {cs[i].fd}
    ensures io[cs[i].fd].idxplus1 == i + 1
  {
  }

  class EventBase {
    var io: Slots
    var changes: array<Change>             // changes_size is its length
    var nChanges: nat
    var kernel: Sets                       // what the kernel watches

    ghost function Pending(): (cs: seq<Change>)
      requires nChanges <= changes.Length
      reads this`changes, this`nChanges, changes
    {
      changes[..nChanges]
    }

    /** The list of changes is in order. */
    ghost predicate InOrder()
      reads this, changes
    {
      nChanges <= changes.Length && Linked(io, Pending()) && Recorded(Pending(), kernel)
    }

    ghost function InterestIn(fd: int): (w: set<Kind>)
      requires InOrder()
      reads this, changes
    {
      Interest(io, Pending(), kernel, fd)
    }

    ghost predicate Valid()
      reads this, changes
    {
      InOrder() && forall fd :: Agrees(fd)
    }

    /** The counts of a descriptor are right, and the backend is to watch what they say. */
    ghost predicate Agrees(fd: int)
      requires InOrder()
      reads this, changes
    {
      Counted(SlotOf(io, fd), fd) && InterestIn(fd) == Wanted(SlotOf(io, fd))
    }

    constructor ()
      ensures Valid() && nChanges == 0 && io == map[] && kernel == map[]
    {
      io, nChanges, kernel := map[], 0, map[];
      changes := new Change[0];
    }

    /** event_changelist_grow */
    method Grow(alloc: bool) returns (res: int)
      requires nChanges <= changes.Length
      modifies this`changes
      ensures res == if alloc then 0 else -1
      ensures res != 0 ==> changes == old(changes)
      ensures res == 0 ==> fresh(changes)
      ensures res == 0 ==> changes.Length == if old(changes).Length < 64 then 64 else old(changes).Length * 2
      ensures nChanges <= changes.Length && Pending() == old(Pending())
    {
      var newSize := if changes.Length < 64 then 64 else changes.Length * 2;
      if !alloc {
        return -1;
      }
      var was := changes;
      var none := Change(0, {}, Keep, Keep, Keep);
      changes := new Change[newSize](i reads was => if 0 <= i < was.Length then was[i] else none);
      return 0;
    }

    /** Does a change for fd need a place that the array does not have? */
    predicate NeedsGrowth(fd: int)
      reads this`io, this`nChanges, this`changes
    {
      SlotOf(io, fd).idxplus1 == 0 && nChanges == changes.Length
    }

    /** The pending change of a descriptor, or a new one that says nothing yet. */
    ghost function Entry(fd: int, before: set<Kind>): (c: Change)
      requires InOrder()
      reads this, changes
    {
      if SlotOf(io, fd).idxplus1 > 0 then
        Pending()[SlotOf(io, fd).idxplus1 - 1]
      else
        Change(fd, before, Keep, Keep, Keep)
    }

    /** event_changelist_get_or_construct */
    method GetOrConstruct(fd: int, before: set<Kind>, alloc: bool) returns (i: int)
      requires InOrder() && fd in io && (io[fd].idxplus1 == 0 ==> before == InterestIn(fd))
      modifies this`io, this`changes, this`nChanges, changes
      ensures InOrder() && (changes == old(changes) || fresh(changes))
      ensures i == -1 <==> old(NeedsGrowth(fd)) && !alloc
      ensures i == -1 ==> io == old(io) && Pending() == old(Pending())
      ensures i != -1 ==> 0 <= i < nChanges && fd in io && io[fd].idxplus1 == i + 1 && Pending()[i].fd == fd
      ensures i != -1 ==> Pending()[i] == old(Entry(fd, before))
      ensures forall f :: InterestIn(f) == old(InterestIn(f)) && Same(SlotOf(io, f), old(SlotOf(io, f)))
    {
      if io[fd].idxplus1 == 0 {
        hide Meaning, Sound, Recorded, Linked, Interest;
        i := Construct(fd, before, alloc);
      } else {
        i := io[fd].idxplus1 - 1;
      }
    }

    /** A new entry for a descriptor that has none. */
    method Construct(fd: int, before: set<Kind>, alloc: bool) returns (i: int)
      requires InOrder() && fd in io && io[fd].idxplus1 == 0 && before == SetOf(kernel, fd)
      modifies this`io, this`changes, this`nChanges, changes
      ensures InOrder() && (changes == old(changes) || fresh(changes))
      ensures i == -1 <==> old(NeedsGrowth(fd)) && !alloc
      ensures i == -1 ==> io == old(io) && Pending() == old(Pending())
      ensures i != -1 ==> 0 <= i < nChanges && fd in io && io[fd].idxplus1 == i + 1 && Pending()[i].fd == fd
      ensures i != -1 ==> Pending()[i] == old(Entry(fd, before))
      ensures forall f :: InterestIn(f) == old(InterestIn(f)) && Same(SlotOf(io, f), old(SlotOf(io, f)))
    {
      hide Meaning, Sound, Recorded, Linked, Interest;
      if nChanges == changes.Length {
        var res := Grow(alloc);
        if res < 0 {
          return -1;
        }
      }
      ChangeAdded(io, Pending(), kernel, fd);
      ghost var was := Pending();
      i := nChanges;
      nChanges := nChanges + 1;
      io := io[fd := io[fd].(idxplus1 := i + 1)];
      changes[i] := Change(fd, before, Keep, Keep, Keep);
      assert Pending() == was + [Change(fd, before, Keep, Keep, Keep)];
    }

    /** event_changelist_add_ */
    method ChangelistAdd(fd: int, before: set<Kind>, kinds: set<Kind>, et: bool, alloc: bool) returns (res: int)
      requires InOrder() && fd in io && (io[fd].idxplus1 == 0 ==> before == InterestIn(fd))
      modifies this`io, this`changes, this`nChanges, changes
      ensures InOrder() && (changes == old(changes) || fresh(changes)) && res in {-1, 0}
      ensures res == -1 <==> old(NeedsGrowth(fd)) && !alloc
      ensures fd in io
      ensures forall f ::
                InterestIn(f) == if f == fd && res == 0 then old(InterestIn(f)) + kinds else old(InterestIn(f))
      ensures forall f :: Same(SlotOf(io, f), old(SlotOf(io, f)))
      ensures res == 0 ==> 0 < SlotOf(io, fd).idxplus1 <= nChanges
      ensures res == 0 ==> Pending()[SlotOf(io, fd).idxplus1 - 1] == WithAdd(old(Entry(fd, before)), kinds, et)
    {
      hide Meaning, Sound, Recorded, Interest, Linked, Entry, WithAdd, WithDel;
      var i := GetOrConstruct(fd, before, alloc);
      if i < 0 {
        return -1;
      }
      MeaningOfAdd(changes[i], kinds, et);
      SetChange(i, WithAdd(changes[i], kinds, et));
      return 0;
    }

    /** event_changelist_del_ */
    method ChangelistDel(fd: int, before: set<Kind>, kinds: set<Kind>, et: bool, alloc: bool) returns (res: int)
      requires InOrder() && fd in io && (io[fd].idxplus1 == 0 ==> before == InterestIn(fd))
      modifies this`io, this`changes, this`nChanges, changes
      ensures InOrder() && (changes == old(changes) || fresh(changes)) && res in {-1, 0}
      ensures res == -1 <==> old(NeedsGrowth(fd)) && !alloc
      ensures fd in io
      ensures forall f ::
                InterestIn(f) == if f == fd && res == 0 then old(InterestIn(f)) - kinds else old(InterestIn(f))
      ensures forall f :: Same(SlotOf(io, f), old(SlotOf(io, f)))
      ensures res == 0 ==> 0 < SlotOf(io, fd).idxplus1 <= nChanges
      ensures res == 0 ==> Pending()[SlotOf(io, fd).idxplus1 - 1] == WithDel(old(Entry(fd, before)), kinds, et)
    {
      hide Meaning, Sound, Recorded, Interest, Linked, Entry, WithAdd, WithDel;
      var i := GetOrConstruct(fd, before, alloc);
      if i < 0 {
        return -1;
      }
      MeaningOfDel(changes[i], kinds, et);
      SetChange(i, WithDel(changes[i], kinds, et));
      return 0;
    }

    method SetChange(i: nat, c: Change)
      requires InOrder() && i < nChanges && c.before == changes[i].before && c.fd == changes[i].fd
      requires Sound(changes[i]) ==> Sound(c)
      modifies changes
      ensures InOrder() && Pending() == old(Pending())[i := c]
      ensures forall f :: InterestIn(f) == if f == c.fd then Meaning(c) else old(InterestIn(f))
      ensures old(InterestIn(c.fd)) == Meaning(old(changes[i]))
    {
      assert Sound(Pending()[i]);
      hide Meaning, Sound, Recorded, Interest, Linked;
      ChangeReplaced(io, Pending(), kernel, i, c);
      changes[i] := c;
      assert Pending() == old(Pending())[i := c];
    }

    /** The slot of a descriptor, made when there is none. */
    method MakeSlot(fd: int, alloc: bool) returns (made: bool)
      requires Valid()
      modifies this`io
      ensures Valid() && made == (old(fd in io) || alloc) && (made ==> fd in io)
      ensures forall f :: SlotOf(io, f) == old(SlotOf(io, f)) && InterestIn(f) == old(InterestIn(f))
    {
      hide Meaning, Sound, Recorded, Interest, Linked, Counted, Wanted;
      if fd !in io {
        if !alloc {
          return false;
        }
        PutSlot(fd, NO_SLOT);
        forall f ensures SlotOf(io, f) == old(SlotOf(io, f)) && Agrees(f) {
          assert old(Agrees(f));
        }
      }
      return true;
    }

    /** evmap_io_add_; alloc and grow say whether there is memory for a slot, and for more changes. */
    method IoAdd(ev: Event, alloc: bool, grow: bool) returns (retval: int)
      requires Valid()
      modifies this`io, this`changes, this`nChanges, changes
      ensures Valid() && retval in {-1, 0, 1} && (changes == old(changes) || fresh(changes))
      ensures retval == -1 <==> ev.fd >= 0 &&
                                old((ev.fd !in io && !alloc) || Full(SlotOf(io, ev.fd), ev)
                                    || (First(SlotOf(io, ev.fd), ev) != {} && NeedsGrowth(ev.fd) && !grow))
      ensures retval == 1 <==> retval != -1 && ev.fd >= 0 && old(First(SlotOf(io, ev.fd), ev)) != {}
      ensures forall f :: f != ev.fd || f < 0 || retval == -1 ==>
                Same(SlotOf(io, f), old(SlotOf(io, f))) && InterestIn(f) == old(InterestIn(f))
      ensures ev.fd >= 0 && retval != -1 ==> Same(SlotOf(io, ev.fd), Listed(old(SlotOf(io, ev.fd)), ev))
    {
      hide Meaning, Sound, Recorded, Interest, Linked, Counted, Wanted, Count, First, Full;
      if ev.fd < 0 {
        return 0;
      }
      var made := MakeSlot(ev.fd, alloc);
      if !made {
        return -1;
      }
      var ctx := io[ev.fd];
      assert Agrees(ev.fd);
      var nread, nwrite, nclose, res := CountUp(ctx, ev);
      if nread > 0xffff || nwrite > 0xffff || nclose > 0xffff {
        return -1;
      }
      retval := 0;
      if res != {} {
        var r := ChangelistAdd(ev.fd, Wanted(ctx), res, ev.et, grow);
        if r == -1 {
          forall f ensures Agrees(f) {
            assert old(Agrees(f));
            SameFacts(old(SlotOf(io, f)), SlotOf(io, f), f);
          }
          return -1;
        }
        retval := 1;
      }
      ListedFacts(ctx, ev);
      PutSlot(ev.fd, Slot(nread, nwrite, nclose, [ev] + ctx.events, SlotOf(io, ev.fd).idxplus1));
      forall f ensures Agrees(f) {
        assert old(Agrees(f));
        SameFacts(if f == ev.fd then Listed(ctx, ev) else old(SlotOf(io, f)), SlotOf(io, f), f);
      }
    }

    /**
     evmap_io_del_; grow says whether there is memory for more changes.  The event is off the list even when the backend
     fails; then the backend watches for what nobody wants.
     */
    method IoDel(ev: Event, grow: bool) returns (retval: int)
      requires Valid() && (ev.fd >= 0 && ev.fd in io ==> ev in io[ev.fd].events)
      modifies this`io, this`changes, this`nChanges, changes
      ensures InOrder() && retval in {-1, 0, 1} && (changes == old(changes) || fresh(changes))
      ensures retval == -1 <==>
                ev.fd >= 0 && old(ev.fd !in io || (Last(io[ev.fd], ev) != {} && NeedsGrowth(ev.fd) && !grow))
      ensures retval == 1 <==> retval != -1 && ev.fd >= 0 && old(Last(SlotOf(io, ev.fd), ev)) != {}
      ensures forall f :: f != ev.fd || f < 0 || old(ev.fd !in io) ==>
                Agrees(f) && Same(SlotOf(io, f), old(SlotOf(io, f))) && InterestIn(f) == old(InterestIn(f))
      ensures ev.fd >= 0 && old(ev.fd in io) ==>
                && (forall k <- ev.wants :: old(Number(SlotOf(io, ev.fd), k)) > 0)
                && Counted(SlotOf(io, ev.fd), ev.fd) && Same(SlotOf(io, ev.fd), Delisted(old(SlotOf(io, ev.fd)), ev))
                && InterestIn(ev.fd)
                   == Wanted(SlotOf(io, ev.fd)) + (if retval == -1 then old(Last(SlotOf(io, ev.fd), ev)) else {})
      ensures Valid() <==> retval != -1 || old(ev.fd !in io)
    {
      hide Meaning, Sound, Recorded, Interest, Linked, Counted, Wanted, Count, Last, Delisted;
      retval := 0;
      if ev.fd < 0 {
        return 0;
      }
      if ev.fd !in io {
        return -1;
      }
      var ctx := io[ev.fd];
      assert Agrees(ev.fd);
      DelistedFacts(ctx, ev);
      var nread, nwrite, nclose, res := CountDown(ctx, ev);
      if res != {} {
        var r := ChangelistDel(ev.fd, Wanted(ctx), res, ev.et, grow);
        retval := if r == -1 then -1 else 1;
      }
      PutSlot(ev.fd, Slot(nread, nwrite, nclose, Unlisted(ctx.events, ev), SlotOf(io, ev.fd).idxplus1));
      forall f ensures f != ev.fd || retval != -1 ==> Agrees(f) {
        assert old(Agrees(f));
        SameFacts(if f == ev.fd then Delisted(ctx, ev) else old(SlotOf(io, f)), SlotOf(io, f), f);
      }
      SameFacts(Delisted(ctx, ev), SlotOf(io, ev.fd), ev.fd);
      assert Wanted(ctx) - res + res == Wanted(ctx);
      assert Agrees(ev.fd) <==> retval != -1;
    }

    /** The backend makes the pending changes, each with one call; no call fails. */
    method ApplyChanges()
      requires InOrder()
      modifies this`kernel
      ensures forall f :: SetOf(kernel, f) == old(InterestIn(f))
    {
      hide Meaning, Sound, Recorded;
      ghost var cs, was := Pending(), kernel;
      var i := 0;
      while i < nChanges
        invariant 0 <= i <= nChanges && Pending() == cs
        invariant forall f :: SetOf(kernel, f) == if f in Fds(cs, i) then Interest(io, cs, was, f) else SetOf(was, f)
        modifies this`kernel
      {
        var c := changes[i];
        assert c == cs[i];
        OneChangeEach(io, cs, i);
        RecordedAt(cs, was, i);
        OpIsRight(c);
        var r := Ctl(SetOf(kernel, c.fd), OpFor(c));
        kernel := kernel[c.fd := r.value];
        i := i + 1;
      }
      forall f ensures SetOf(kernel, f) == old(InterestIn(f)) {
        if f in io && io[f].idxplus1 > 0 {
          assert cs[io[f].idxplus1 - 1].fd in Fds(cs, |cs|);
        } else {
          assert f !in Fds(cs, |cs|);
        }
      }
    }

    /** event_changelist_remove_all_ */
    method RemoveAll()
      requires nChanges <= changes.Length && Linked(io, Pending())
      modifies this`io, this`nChanges
      ensures nChanges == 0 && forall f :: SlotOf(io, f) == old(SlotOf(io, f)).(idxplus1 := 0)
    {
      ghost var cs, was := Pending(), io;
      var i := 0;
      while i < nChanges
        invariant 0 <= i <= nChanges && Pending() == cs && io.Keys == was.Keys
        invariant forall f <- io :: io[f] == if f in Fds(cs, i) then was[f].(idxplus1 := 0) else was[f]
        modifies this`io
      {
        var fd := changes[i].fd;
        assert fd == cs[i].fd;
        OneChangeEach(was, cs, i);
        assert io[fd].idxplus1 == i + 1;
        io := io[fd := io[fd].(idxplus1 := 0)];
        i := i + 1;
      }
      nChanges := 0;
      forall f <- io ensures io[f] == was[f].(idxplus1 := 0) {
        if was[f].idxplus1 > 0 {
          assert cs[was[f].idxplus1 - 1].fd in Fds(cs, |cs|);
        }
      }
    }

    /** Before it waits, the backend makes the changes and forgets them: the kernel then watches what events want. */
    method Flush()
      requires Valid()
      modifies this`io, this`nChanges, this`kernel
      ensures Valid() && nChanges == 0 && forall f :: Same(SlotOf(io, f), old(SlotOf(io, f)))
      ensures forall f :: SetOf(kernel, f) == Wanted(SlotOf(io, f)) && InterestIn(f) == old(InterestIn(f))
    {
      hide Meaning, Sound, Counted, Wanted;
      ApplyChanges();
      RemoveAll();
      assert forall f <- io :: SlotOf(io, f).idxplus1 == 0;
      forall f ensures Agrees(f) && Same(SlotOf(io, f), old(SlotOf(io, f))) && InterestIn(f) == old(InterestIn(f))
        ensures SetOf(kernel, f) == Wanted(SlotOf(io, f))
      {
        assert old(Agrees(f));
        SameFacts(old(SlotOf(io, f)), SlotOf(io, f), f);
      }
    }

    method PutSlot(fd: int, s: Slot)
      requires InOrder() && s.idxplus1 == SlotOf(io, fd).idxplus1
      modifies this`io
      ensures InOrder() && Pending() == old(Pending()) && io == old(io)[fd := s]
      ensures forall f :: InterestIn(f) == old(InterestIn(f))
    {
      SlotReplaced(io, Pending(), kernel, fd, s);
      io := io[fd := s];
    }
  }

  /** How many events would want each kind with ev, and which kinds are new. */
  method CountUp(ctx: Slot, ev: Event) returns (nread: nat, nwrite: nat, nclose: nat, res: set<Kind>)
    requires Counted(ctx, ev.fd)
    ensures Slot(nread, nwrite, nclose, [ev] + ctx.events, ctx.idxplus1) == Listed(ctx, ev) && res == First(ctx, ev)
    ensures nread > 0xffff || nwrite > 0xffff || nclose > 0xffff <==> Full(ctx, ev)
  {
    hide Count;
    nread, nwrite, nclose, res := ctx.nread, ctx.nwrite, ctx.nclose, {};
    if Read in ev.wants {
      nread := nread + 1;
      res := res + if nread == 1 then {Read} else {};
    }
    if Write in ev.wants {
      nwrite := nwrite + 1;
      res := res + if nwrite == 1 then {Write} else {};
    }
    if Closed in ev.wants {
      nclose := nclose + 1;
      res := res + if nclose == 1 then {Closed} else {};
    }
    AllKinds();
    assert Number(ctx, Read) <= 0xffff && Number(ctx, Write) <= 0xffff && Number(ctx, Closed) <= 0xffff;
    assert forall k :: k in res <==> k in First(ctx, ev);
  }

  method CountDown(ctx: Slot, ev: Event) returns (nread: nat, nwrite: nat, nclose: nat, res: set<Kind>)
    requires Counted(ctx, ev.fd) && ev in ctx.events
    ensures forall k <- ev.wants :: Number(ctx, k) > 0
    ensures Slot(nread, nwrite, nclose, Unlisted(ctx.events, ev), ctx.idxplus1) == Delisted(ctx, ev)
    ensures res == Last(ctx, ev)
  {
    DelistedFacts(ctx, ev);
    hide Count, Counted, Unlisted;
    assert forall k: Kind :: Number(ctx, k) >= Num(ev, k);
    assert Number(ctx, Read) == ctx.nread && Number(ctx, Write) == ctx.nwrite && Number(ctx, Closed) == ctx.nclose;
    nread, nwrite, nclose, res := ctx.nread, ctx.nwrite, ctx.nclose, {};
    if Read in ev.wants {
      nread := nread - 1;
      res := res + if nread == 0 then {Read} else {};
    }
    if Write in ev.wants {
      nwrite := nwrite - 1;
      res := res + if nwrite == 0 then {Write} else {};
    }
    if Closed in ev.wants {
      nclose := nclose - 1;
      res := res + if nclose == 0 then {Closed} else {};
    }
    AllKinds();
    assert forall k :: k in res <==> k in Last(ctx, ev);
  }

  /** A descriptor that one event wants to read. */
  function ReadBy(ev: Event, idxplus1: nat): (s: Slot) {
    Slot(1, 0, 0, [ev], idxplus1)
  }

  lemma {:induction false} ReadByFacts(ev: Event, idxplus1: nat)
    requires ev.wants == {Read}
    ensures Counted(ReadBy(ev, idxplus1), ev.fd) && Wanted(ReadBy(ev, idxplus1)) == {Read}
    ensures ev in ReadBy(ev, idxplus1).events && Last(ReadBy(ev, idxplus1), ev) == {Read}
    ensures Wanted(Delisted(ReadBy(ev, idxplus1), ev)) == {} && Delisted(ReadBy(ev, idxplus1), ev).events == []
    ensures Meaning(Change(ev.fd, {}, Delta.Add(false), Keep, Keep)) == {Read}
    ensures Sound(Change(ev.fd, {}, Delta.Add(false), Keep, Keep))
    ensures Counted(NO_SLOT, ev.fd) && Wanted(NO_SLOT) == {}
  {
    forall k: Kind ensures Number(ReadBy(ev, idxplus1), k) == Count([ev], k) {
      Buckets.CountOne(ev, Wants(k));
    }
  }

  function FdReader(fd: int): (ev: Event) {
    Event(0, fd, {Read}, false)
  }

  /** An event on descriptor 5 that the kernel watches, and 64 pending changes, for descriptors 100 to 163. */
  ghost predicate IsFull(io: Slots, cs: seq<Change>, kernel: Sets) {
    && (forall f :: f in io <==> f == 5 || 100 <= f < 164)
    && (forall f :: 100 <= f < 164 ==> io[f] == ReadBy(FdReader(f), f - 99))
    && io[5] == ReadBy(FdReader(5), 0) && kernel == map[5 := {Read}]
    && |cs| == 64 && forall i :: 0 <= i < 64 ==> cs[i] == Change(100 + i, {}, Delta.Add(false), Keep, Keep)
  }

  method FullParts() returns (io: Slots, changes: array<Change>, kernel: Sets)
    ensures fresh(changes) && changes.Length == 64 && IsFull(io, changes[..], kernel)
  {
    hide ReadBy, FdReader;
    io := (map f | 100 <= f < 164 :: ReadBy(FdReader(f), f - 99))[5 := ReadBy(FdReader(5), 0)];
    kernel := map[5 := {Read}];
    changes := new Change[64](i => Change(100 + i, {}, Delta.Add(false), Keep, Keep));
  }

  method FullChangelist() returns (base: EventBase)
    ensures fresh(base) && fresh(base.changes) && base.Valid() && base.nChanges == 64
    ensures 5 in base.io && base.io[5] == ReadBy(FdReader(5), 0) && base.InterestIn(5) == {Read} && base.NeedsGrowth(5)
  {
    hide Counted, Wanted, IsFull, Linked, Recorded;
    base := new EventBase();
    var io, changes, kernel := FullParts();
    base.io, base.kernel, base.changes, base.nChanges := io, kernel, changes, 64;
    ghost var cs := base.Pending();
    assert cs == changes[..];
    FullFacts(io, cs, kernel);
    forall f ensures base.Agrees(f) {
      AgreesFull(io, cs, kernel, f);
    }
  }

  lemma {:induction false} FullFacts(io: Slots, cs: seq<Change>, kernel: Sets)
    requires IsFull(io, cs, kernel)
    ensures Linked(io, cs) && Recorded(cs, kernel)
    ensures 5 in io && io[5] == ReadBy(FdReader(5), 0) && Interest(io, cs, kernel, 5) == {Read}
  {
    hide Sound;
    forall i | 0 <= i < 64 ensures Sound(cs[i]) {
      ReadByFacts(FdReader(100 + i), i + 1);
    }
  }

  lemma {:induction false} AgreesFull(io: Slots, cs: seq<Change>, kernel: Sets, f: int)
    requires IsFull(io, cs, kernel) && Linked(io, cs)
    ensures Counted(SlotOf(io, f), f) && Interest(io, cs, kernel, f) == Wanted(SlotOf(io, f))
  {
    hide Counted, Wanted, Meaning, Linked;
    ReadByFacts(FdReader(f), if f in io then io[f].idxplus1 else 0);
  }

  /** Without memory for one change more, the event goes and the backend goes on watching. */
  method FailedDelExample() returns (base: EventBase, retval: int)
    ensures base.InOrder() && retval == -1 && SlotOf(base.io, 5).events == []
    ensures base.InterestIn(5) == {Read} && Wanted(SlotOf(base.io, 5)) == {}
  {
    hide Counted, Wanted, Meaning, Linked, Recorded, Interest, Last, Delisted, ReadBy, Count, Number, EventBase.Valid;
    base := FullChangelist();
    ReadByFacts(FdReader(5), 0);
    retval := base.IoDel(FdReader(5), false);
    SameFacts(Delisted(ReadBy(FdReader(5), 0), FdReader(5)), SlotOf(base.io, 5), 5);
  }
}
