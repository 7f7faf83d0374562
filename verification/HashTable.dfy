/**
 The chained hash table: an array of buckets, each a list of elements.  A list is a sequence that starts at its head; an
 element carries its key and its cached hash, and eqfn compares keys.
 */
module HashTable {
  import opened Common
  import Buckets

  type Key = int

  datatype Elm = Elm(key: Key, value: int, hash: nat)

  type Table = seq<seq<Elm>>

  const PRIMES: seq<nat> := [
    53, 97, 193, 389,
    769, 1543, 3079, 6151,
    12289, 24593, 49157, 98317,
    196613, 393241, 786433, 1572869,
    3145739, 6291469, 12582917, 25165843,
    50331653, 100663319, 201326611, 402653189,
    805306457, 1610612741]

  lemma {:induction false} PrimesGrow(i: int, j: nat)
    requires -1 <= i < j < |PRIMES|
    ensures PRIMES[j] > if i < 0 then 0 else PRIMES[i]
  {
  }

  /** Which elements to count. */
  datatype Which = Any | Exactly(e: Elm)

  predicate Is(e: Elm, w: Which) {
    w.Any? || e == w.e
  }

  function Kind(w: Which): (p: Elm -> bool) {
    e => Is(e, w)
  }

  function One(e: Elm, w: Which): (n: nat) {
    if Is(e, w) then 1 else 0
  }

  function Tally(t: Table, w: Which): (n: nat) {
    Buckets.Tally(t, Kind(w))
  }

  ghost predicate At(t: Table, e: Elm, i: nat) {
    |t| > 0 && e.hash % |t| == i
  }

  /** Each element of buckets lo, .., hi - 1 is in the bucket of its hash. */
  ghost predicate Placed(t: Table, lo: nat, hi: nat) {
    forall i, k :: lo <= i < hi && i < |t| && 0 <= k < |t[i]| ==> At(t, t[i][k], i)
  }

  /** Each cached hash is the hash of its key. */
  ghost predicate Hashed(t: Table, hash: Key -> nat) {
    forall i, k :: 0 <= i < |t| && 0 <= k < |t[i]| ==> t[i][k].hash == hash(t[i][k].key)
  }

  /** The table holds each element of m once, and nothing else. */
  ghost predicate Holds(t: Table, m: map<Key, Elm>) {
    && (forall e :: Tally(t, Exactly(e)) == if e.key in m && m[e.key] == e then 1 else 0)
    && (forall x <- m :: m[x].key == x)
    && Tally(t, Any) == |m|
  }

  function Pushed(t: Table, i: nat, e: Elm): (u: Table)
    requires i < |t|
    ensures |u| == |t|
  {
    t[i := [e] + t[i]]
  }

  function Unlinked(t: Table, i: nat, k: nat): (u: Table)
    requires i < |t| && k < |t[i]|
    ensures |u| == |t|
  {
    t[i := t[i][..k] + t[i][k + 1..]]
  }

  lemma {:induction false} PushedFacts(t: Table, i: nat, e: Elm)
    requires i < |t|
    ensures forall w :: Tally(Pushed(t, i, e), w) == Tally(t, w) + One(e, w)
  {
    forall w ensures Tally(Pushed(t, i, e), w) == Tally(t, w) + One(e, w) {
      Buckets.TallyUpdate(t, i, [e] + t[i], Kind(w));
      Buckets.CountSnoc(t[i], e, Kind(w));
    }
  }

  lemma {:induction false} UnlinkedFacts(t: Table, i: nat, k: nat)
    requires i < |t| && k < |t[i]|
    ensures forall w :: Tally(Unlinked(t, i, k), w) == Tally(t, w) - One(t[i][k], w)
  {
    forall w ensures Tally(Unlinked(t, i, k), w) == Tally(t, w) - One(t[i][k], w) {
      Buckets.TallyUpdate(t, i, t[i][..k] + t[i][k + 1..], Kind(w));
      Buckets.CountWithout(t[i], k, Kind(w));
    }
  }

  /** What is in a bucket is counted. */
  lemma {:induction false} Counted(t: Table, i: nat, k: nat)
    requires i < |t| && k < |t[i]|
    ensures Tally(t, Exactly(t[i][k])) > 0
  {
    Buckets.TallySome(t, i, k, Kind(Exactly(t[i][k])));
  }

  /** What is counted is in the bucket of its hash. */
  lemma {:induction false} Located(t: Table, e: Elm, hash: Key -> nat)
    requires Placed(t, 0, |t|) && Hashed(t, hash) && Tally(t, Exactly(e)) > 0
    ensures |t| > 0 && e in t[hash(e.key) % |t|]
  {
    if forall i, k :: 0 <= i < |t| && 0 <= k < |t[i]| ==> t[i][k] != e {
      Buckets.TallyNone(t, Kind(Exactly(e)));
    } else {
      var i, k :| 0 <= i < |t| && 0 <= k < |t[i]| && t[i][k] == e;
      assert At(t, t[i][k], i);
    }
  }

  /** An empty table, and empty buckets at the end, add nothing. */
  lemma {:induction false} TallyPadded(t: Table, n: nat, w: Which)
    ensures Tally(t + seq(n, _ => []), w) == Tally(t, w)
  {
    Buckets.TallyConcat(t, seq(n, _ => []), Kind(w));
    Buckets.TallyNone(seq(n, _ => []), Kind(w));
  }

  lemma {:induction false} EmptyBuckets(n: nat, w: Which)
    ensures Tally(seq(n, _ => []), w) == 0
  {
    Buckets.TallyNone(seq(n, _ => []), Kind(w));
  }

  lemma {:induction false} HoldsPushed(t: Table, i: nat, e: Elm, m: map<Key, Elm>)
    requires i < |t| && Holds(t, m) && e.key !in m
    ensures Holds(Pushed(t, i, e), m[e.key := e])
  {
    PushedFacts(t, i, e);
    hide Tally, Pushed;
  }

  lemma {:induction false} HoldsUnlinked(t: Table, i: nat, k: nat, m: map<Key, Elm>)
    requires i < |t| && k < |t[i]| && Holds(t, m)
    ensures t[i][k].key in m && m[t[i][k].key] == t[i][k]
    ensures Holds(Unlinked(t, i, k), m - {t[i][k].key}) && |m - {t[i][k].key}| == |m| - 1
  {
    Counted(t, i, k);
    UnlinkedFacts(t, i, k);
    hide Tally, Unlinked;
    SmallerMap(m, t[i][k].key);
  }

  lemma {:induction false} SmallerMap(m: map<Key, Elm>, key: Key)
    requires key in m
    ensures |m - {key}| == |m| - 1
  {
    assert (m - {key}).Keys == m.Keys - {key};
    assert |(m - {key}).Keys| == |m - {key}| && |m.Keys| == |m|;
  }

  lemma {:induction false} UnlinkedPlaced(t: Table, i: nat, k: nat, hash: Key -> nat)
    requires i < |t| && k < |t[i]| && Placed(t, 0, |t|) && Hashed(t, hash)
    ensures Placed(Unlinked(t, i, k), 0, |t|) && Hashed(Unlinked(t, i, k), hash)
  {
    var u := Unlinked(t, i, k);
    forall j, l | 0 <= j < |u| && 0 <= l < |u[j]| ensures At(u, u[j][l], j) && u[j][l].hash == hash(u[j][l].key) {
      assert u[j][l] == t[j][if j == i && l >= k then l + 1 else l];
      assert At(t, u[j][l], j);
    }
  }

  lemma {:induction false} PushedPlaced(t: Table, i: nat, e: Elm, hash: Key -> nat)
    requires i < |t| && Placed(t, 0, |t|) && Hashed(t, hash) && At(t, e, i) && e.hash == hash(e.key)
    ensures Placed(Pushed(t, i, e), 0, |t|) && Hashed(Pushed(t, i, e), hash)
  {
  }

  /** The elements in the order of HT_START and HT_NEXT. */
  function Order(t: Table): (s: seq<Elm>) {
    if t == [] then [] else t[0] + Order(t[1..])
  }

  /** How many elements come before bucket b. */
  function Before(t: Table, b: nat): (n: nat)
    requires b <= |t|
  {
    if b == 0 then 0 else |t[0]| + Before(t[1..], b - 1)
  }

  lemma {:induction false} OrderAt(t: Table, b: nat, k: nat)
    requires b < |t| && k < |t[b]|
    ensures Before(t, b) + k < |Order(t)| && Order(t)[Before(t, b) + k] == t[b][k]
  {
    if b > 0 {
      OrderAt(t[1..], b - 1, k);
    }
  }

  lemma {:induction false} BeforeNext(t: Table, b: nat)
    requires b < |t|
    ensures Before(t, b + 1) == Before(t, b) + |t[b]|
  {
    if b > 0 {
      BeforeNext(t[1..], b - 1);
    }
  }

  lemma {:induction false} BeforeAll(t: Table)
    ensures Before(t, |t|) == |Order(t)|
  {
    if t != [] {
      BeforeAll(t[1..]);
    }
  }

  lemma {:induction false} OrderCounts(t: Table, w: Which)
    ensures Buckets.Count(Order(t), Kind(w)) == Tally(t, w)
  {
    if t != [] {
      OrderCounts(t[1..], w);
      Buckets.CountConcat(t[0], Order(t[1..]), Kind(w));
    }
  }

  /** The order has each element of the map once, and nothing else. */
  lemma {:induction false} OrderIsPermutation(t: Table, m: map<Key, Elm>)
    requires Holds(t, m)
    ensures |Order(t)| == |m|
    ensures forall e :: e in Order(t) <==> e.key in m && m[e.key] == e
    ensures forall i, j :: 0 <= i < j < |Order(t)| ==> Order(t)[i].key != Order(t)[j].key
  {
    var s := Order(t);
    OrderCounts(t, Any);
    Buckets.CountAll(s, Kind(Any));
    forall e ensures e in s <==> e.key in m && m[e.key] == e {
      OrderCounts(t, Exactly(e));
      if e in s {
        var k :| 0 <= k < |s| && s[k] == e;
        Buckets.CountSome(s, k, Kind(Exactly(e)));
      } else {
        Buckets.CountNone(s, Kind(Exactly(e)));
      }
    }
    forall i, j | 0 <= i < j < |s| ensures s[i].key != s[j].key {
      if s[i].key == s[j].key {
        var e := s[i];
        assert e in s && s[j] in s;
        OrderCounts(t, Exactly(e));
        Buckets.CountWithout(s, j, Kind(Exactly(e)));
        assert (s[..j] + s[j + 1..])[i] == e;
        Buckets.CountSome(s[..j] + s[j + 1..], i, Kind(Exactly(e)));
      }
    }
  }

  /** Element k of bucket b moved to the front of its own bucket, b2. */
  lemma {:induction false} MoveFacts(t: Table, b: nat, k: nat, b2: nat, oldLen: nat, hash: Key -> nat)
    requires b < oldLen <= |t| && k < |t[b]| && b2 < |t| && b2 != b && At(t, t[b][k], b2)
    requires Placed(t, 0, b) && Placed(t, oldLen, |t|) && Hashed(t, hash)
    ensures var u := Pushed(Unlinked(t, b, k), b2, t[b][k]);
            Placed(u, 0, b) && Placed(u, oldLen, |u|) && Hashed(u, hash) && forall w :: Tally(u, w) == Tally(t, w)
  {
    UnlinkedFacts(t, b, k);
    PushedFacts(Unlinked(t, b, k), b2, t[b][k]);
    hide Tally;
  }

  lemma {:induction false} SameElements(t: Table, u: Table, m: map<Key, Elm>)
    requires Holds(t, m) && forall w :: Tally(u, w) == Tally(t, w)
    ensures Holds(u, m)
  {
    hide Tally;
  }

  lemma {:induction false} TallySnoc(t: Table, b: nat, w: Which)
    requires b < |t|
    ensures Tally(t[..b + 1], w) == Tally(t[..b], w) + Buckets.Count(t[b], Kind(w))
  {
    assert t[..b + 1] == t[..b] + [t[b]];
    Buckets.TallyConcat(t[..b], [t[b]], Kind(w));
    assert [t[b]][1..] == [];
  }

  /** How an insertion ends: done, or with an operation that C leaves undefined. */
  datatype Outcome = Done | ModuloZero | PastTheSizes

  /** How the two allocations of a growth come out. */
  datatype Memory = Fresh | InPlace | Out

  class Head {
    const hash: Key -> nat
    const load: real
    var table: array?<seq<Elm>>
    var tableLength: nat
    var nEntries: nat
    var loadLimit: nat
    var primeIdx: int
    ghost var m: map<Key, Elm>

    function Lists(): (t: Table)
      reads this, table
    {
      if table == null then [] else table[..]
    }

    function Limit(idx: nat): (n: int)
      requires idx < |PRIMES|
    {
      (load * PRIMES[idx] as real).Floor
    }

    /** The load factor leaves room for an element in the smallest table, and fits the largest. */
    ghost predicate LoadFits() {
      1.0 <= load * 53.0 && load * 1610612741.0 < 4294967296.0
    }

    ghost predicate Sized()
      reads this, table
    {
      if table == null then
        tableLength == 0 && nEntries == 0 && loadLimit == 0 && primeIdx == -1
      else
        && 0 <= primeIdx < |PRIMES|
        && tableLength == table.Length == PRIMES[primeIdx]
        && loadLimit == Limit(primeIdx)
    }

    ghost predicate Valid()
      reads this, table
    {
      && LoadFits()
      && Sized()
      && Placed(Lists(), 0, |Lists()|)
      && Hashed(Lists(), hash)
      && Holds(Lists(), m)
      && nEntries == |m|
    }

    constructor (hash: Key -> nat, load: real)
      requires 1.0 <= load * 53.0 && load * 1610612741.0 < 4294967296.0
      ensures Valid() && m == map[] && table == null && this.hash == hash && this.load == load
    {
      this.hash, this.load := hash, load;
      table, tableLength, nEntries, loadLimit, primeIdx := null, 0, 0, 0, -1;
      m := map[];
    }

    /** HT_FIND_P_: the place of a matching element in its bucket, or the end of the bucket. */
    method FindP(key: Key) returns (p: Option<(nat, nat)>)
      requires Valid()
      ensures p.None? <==> table == null
      ensures p.Some? ==> tableLength > 0 && p.value.0 == hash(key) % tableLength && p.value.1 <= |table[p.value.0]|
      ensures p.Some? && p.value.1 < |table[p.value.0]| ==>
                key in m && table[p.value.0][p.value.1] == m[key] && m[key].key == key
      ensures p.Some? && p.value.1 == |table[p.value.0]| ==> key !in m
      ensures p.None? ==> key !in m
    {
      hide Holds;
      if table == null {
        NotHere(key);
        return None;
      }
      var b := hash(key) % tableLength;
      var k := 0;
      while k < |table[b]|
        invariant 0 <= k <= |table[b]| && forall j :: 0 <= j < k ==> table[b][j].key != key
        modifies {}
      {
        if table[b][k].key == key {
          Here(b, k);
          return Some((b, k));
        }
        k := k + 1;
      }
      NotHere(key);
      return Some((b, k));
    }

    lemma {:induction false} Here(b: nat, k: nat)
      requires Valid() && b < |Lists()| && k < |Lists()[b]|
      ensures Lists()[b][k].key in m && m[Lists()[b][k].key] == Lists()[b][k]
    {
      Counted(Lists(), b, k);
      hide Tally;
    }

    lemma {:induction false} NotHere(key: Key)
      requires Valid()
      requires var t := Lists();
               t == [] || forall j :: 0 <= j < |t[hash(key) % |t|]| ==> t[hash(key) % |t|][j].key != key
      ensures key !in m
    {
      hide Tally;
      if key in m {
        Located(Lists(), m[key], hash);
      }
    }

    /** HT_FIND */
    method Find(key: Key) returns (e: Option<Elm>)
      requires Valid()
      ensures e == if key in m then Some(m[key]) else None
    {
      hide Holds, Tally, Placed, Hashed;
      var p := FindP(key);
      if p.None? || p.value.1 == |table[p.value.0]| {
        return None;
      }
      return Some(table[p.value.0][p.value.1]);
    }

    /** Does HT_INSERT try to grow the table? */
    predicate MustGrow()
      reads this
    {
      table == null || nEntries >= loadLimit
    }

    /** Does HT_GROW look for a size behind the last one? */
    predicate PastSizes(size: nat)
      reads this
    {
      primeIdx < |PRIMES| - 1 && loadLimit <= size && Limit(|PRIMES| - 1) <= size
    }

    /**
     HT_INSERT of an element that is not there yet.  A growth that fails goes unnoticed: without a table the bucket is
     then looked for modulo zero, and with one it is filled beyond its load limit.
     */
    method Insert(key: Key, value: int, memory: Memory) returns (out: Outcome)
      requires Valid() && key !in m
      modifies this, table
      ensures out == PastTheSizes <==> old(MustGrow() && PastSizes(nEntries + 1))
      ensures out == ModuloZero <==> old(table) == null && memory.Out? && out != PastTheSizes
      ensures out == Done ==>
                && Valid() && m == old(m)[key := Elm(key, value, hash(key))]
                && (nEntries <= loadLimit <==>
                      old(nEntries < loadLimit) || (!memory.Out? && old(primeIdx) < |PRIMES| - 1))
                && (table != null ==> fresh(table) || table == old(table))
                && if old(MustGrow()) && !memory.Out? && old(primeIdx) < |PRIMES| - 1 then
                     Smallest(old(primeIdx), primeIdx, old(nEntries) + 1)
                   else
                     unchanged(`table, `loadLimit, `primeIdx)
    {
      assert |PRIMES| == 26;
      hide Holds, Tally, Placed, Hashed, Limit, PRIMES;
      if table == null || nEntries >= loadLimit {
        var r := Grow(nEntries + 1, memory);
        if r.None? {
          return PastTheSizes;
        }
      }
      if table != null {
        PrimesGrow(-1, primeIdx);
      }
      nEntries := nEntries + 1;
      if tableLength == 0 {
        return ModuloZero;
      }
      var e := Elm(key, value, hash(key));
      var i := e.hash % tableLength;
      Push(i, e);
      return Done;
    }

    method Push(i: nat, e: Elm)
      requires LoadFits() && Sized() && table != null && i < tableLength
      requires e.hash == hash(e.key) && e.hash % tableLength == i
      requires Placed(Lists(), 0, |Lists()|) && Hashed(Lists(), hash) && Holds(Lists(), m)
      requires e.key !in m && nEntries == |m| + 1
      modifies this`m, table
      ensures Valid() && m == old(m)[e.key := e]
    {
      hide Holds, Tally;
      HoldsPushed(Lists(), i, e, m);
      PushedPlaced(Lists(), i, e, hash);
      ghost var was := Lists();
      table[i] := [e] + table[i];
      m := m[e.key := e];
      assert Lists() == Pushed(was, i, e);
    }

    /** HT_REMOVE */
    method Remove(key: Key) returns (e: Option<Elm>)
      requires Valid()
      modifies this`nEntries, this`m, table
      ensures Valid() && m == old(m) - {key}
      ensures e == if key in old(m) then Some(old(m)[key]) else None
    {
      hide Holds, Tally, Placed, Hashed, Limit, PRIMES;
      var p := FindP(key);
      if p.None? || p.value.1 == |table[p.value.0]| {
        assert m == m - {key};
        return None;
      }
      var (b, k) := p.value;
      e := Some(table[b][k]);
      HoldsUnlinked(Lists(), b, k, m);
      UnlinkedPlaced(Lists(), b, k, hash);
      ghost var was := Lists();
      table[b] := table[b][..k] + table[b][k + 1..];
      nEntries := nEntries - 1;
      m := m - {key};
      assert Lists() == Unlinked(was, b, k);
    }

    /** idx is the first size above the old one whose limit is above size. */
    ghost predicate Smallest(oldIdx: int, idx: int, size: nat) {
      && -1 <= oldIdx < idx < |PRIMES| && Limit(idx) > size
      && forall j :: oldIdx < j < idx ==> Limit(j) <= size
    }

    /** HT_GROW: makes room for size elements; none when it reads behind the table of sizes. */
    method Grow(size: nat, memory: Memory) returns (res: Option<int>)
      requires Valid()
      modifies this`table, this`tableLength, this`loadLimit, this`primeIdx, table
      ensures Valid() && m == old(m) && nEntries == old(nEntries)
      ensures res == None <==> old(PastSizes(size))
      ensures old(primeIdx) == |PRIMES| - 1 || old(loadLimit) > size ==> res == Some(0) && unchanged(this)
      ensures res.Some? && old(primeIdx) < |PRIMES| - 1 && old(loadLimit) <= size ==>
                if memory.Out? then res == Some(-1) && unchanged(this)
                else res == Some(0) && fresh(table) && Smallest(old(primeIdx), primeIdx, size)
      ensures res == None ==> unchanged(this)
      ensures old(table) != null ==> unchanged(old(table))
      ensures table != null && table != old(table) ==> fresh(table)
    {
      hide Holds, Tally, Placed, Hashed, Limit, PRIMES;
      if primeIdx == |PRIMES| - 1 || loadLimit > size {
        return Some(0);
      }
      var i := NextPrime(size);
      if i.None? {
        return None;
      }
      var idx := i.value;
      var newLen := PRIMES[idx];
      var newTable: array<seq<Elm>>;
      match memory {
        case Fresh =>
          newTable := Rehash(newLen);
        case InPlace =>
          newTable := RehashInPlace(newLen);
        case Out =>
          return Some(-1);
      }
      SameElements(Lists(), newTable[..], m);
      table, tableLength, primeIdx, loadLimit := newTable, newLen, idx, Limit(idx);
      return Some(0);
    }

    /** The path of HT_GROW with a fresh table. */
    method Rehash(newLen: nat) returns (newTable: array<seq<Elm>>)
      requires Valid() && newLen > 0
      ensures fresh(newTable) && newTable.Length == newLen
      ensures Placed(newTable[..], 0, newLen) && Hashed(newTable[..], hash)
      ensures forall w :: Tally(newTable[..], w) == Tally(Lists(), w)
    {
      hide Holds, Tally;
      newTable := new seq<Elm>[newLen](_ => []);
      assert newTable[..] == seq(newLen, _ => []);
      ghost var t := Lists();
      forall w ensures Tally(newTable[..], w) == Tally(t[..0], w) {
        EmptyBuckets(newLen, w);
        EmptyBuckets(0, w);
        assert t[..0] == seq(0, _ => []);
      }
      var b := 0;
      while b < tableLength
        invariant 0 <= b <= tableLength && Lists() == t
        invariant Placed(newTable[..], 0, newLen) && Hashed(newTable[..], hash)
        invariant forall w :: Tally(newTable[..], w) == Tally(t[..b], w)
        modifies newTable
      {
        MoveChain(newTable, table[b]);
        forall w ensures Tally(t[..b + 1], w) == Tally(t[..b], w) + Buckets.Count(t[b], Kind(w)) {
          TallySnoc(t, b, w);
        }
        b := b + 1;
      }
      assert t[..b] == t;
    }

    /** Moves the elements of a list to the buckets of a new table. */
    method MoveChain(newTable: array<seq<Elm>>, chain: seq<Elm>)
      requires newTable.Length > 0 && forall e <- chain :: e.hash == hash(e.key)
      requires Placed(newTable[..], 0, newTable.Length) && Hashed(newTable[..], hash)
      modifies newTable
      ensures Placed(newTable[..], 0, newTable.Length) && Hashed(newTable[..], hash)
      ensures forall w :: Tally(newTable[..], w) == old(Tally(newTable[..], w)) + Buckets.Count(chain, Kind(w))
    {
      hide Holds, Tally;
      var elm := chain;
      while elm != []
        invariant forall e <- elm :: e.hash == hash(e.key)
        invariant Placed(newTable[..], 0, newTable.Length) && Hashed(newTable[..], hash)
        invariant forall w :: Tally(newTable[..], w) + Buckets.Count(elm, Kind(w))
                             == old(Tally(newTable[..], w)) + Buckets.Count(chain, Kind(w))
        decreases |elm|
      {
        var b2 := elm[0].hash % newTable.Length;
        ghost var was := newTable[..];
        PushedFacts(was, b2, elm[0]);
        newTable[b2] := [elm[0]] + newTable[b2];
        assert newTable[..] == Pushed(was, b2, elm[0]);
        elm := elm[1..];
      }
    }

    /**
     The path of HT_GROW that enlarges the table where it is.  Cursor k of bucket b stays behind each element that is
     already in its place; any other one moves to the front of its bucket, where the loop may see it again.
     */
    method RehashInPlace(newLen: nat) returns (newTable: array<seq<Elm>>)
      requires Valid() && newLen >= tableLength && newLen > 0
      ensures fresh(newTable) && newTable.Length == newLen
      ensures Placed(newTable[..], 0, newLen) && Hashed(newTable[..], hash)
      ensures forall w :: Tally(newTable[..], w) == Tally(Lists(), w)
    {
      hide Holds, Tally;
      newTable := Realloc(newLen);
      var b := 0;
      while b < tableLength
        invariant 0 <= b <= tableLength && newTable.Length == newLen
        invariant Placed(newTable[..], 0, b) && Placed(newTable[..], tableLength, newLen) && Hashed(newTable[..], hash)
        invariant forall w :: Tally(newTable[..], w) == Tally(Lists(), w)
        modifies newTable
      {
        RehashBucket(newTable, b);
        b := b + 1;
      }
    }

    method Realloc(newLen: nat) returns (newTable: array<seq<Elm>>)
      requires Valid() && newLen >= tableLength
      ensures fresh(newTable) && newTable.Length == newLen
      ensures Placed(newTable[..], tableLength, newLen) && Hashed(newTable[..], hash)
      ensures forall w :: Tally(newTable[..], w) == Tally(Lists(), w)
    {
      hide Holds, Tally;
      var t := Lists();
      newTable := new seq<Elm>[newLen](i => if 0 <= i < |t| then t[i] else []);
      assert newTable[..] == t + seq(newLen - |t|, _ => []);
      forall w ensures Tally(newTable[..], w) == Tally(t, w) {
        TallyPadded(t, newLen - |t|, w);
      }
    }

    method RehashBucket(newTable: array<seq<Elm>>, b: nat)
      requires tableLength <= newTable.Length && b < tableLength
      requires Placed(newTable[..], 0, b) && Placed(newTable[..], tableLength, newTable.Length)
      requires Hashed(newTable[..], hash)
      modifies newTable
      ensures Placed(newTable[..], 0, b + 1) && Placed(newTable[..], tableLength, newTable.Length)
      ensures Hashed(newTable[..], hash)
      ensures forall w :: Tally(newTable[..], w) == old(Tally(newTable[..], w))
    {
      hide Holds, Tally;
      var k := 0;
      while k < |newTable[b]|
        invariant 0 <= k <= |newTable[b]| && forall j :: 0 <= j < k ==> newTable[b][j].hash % newTable.Length == b
        invariant Placed(newTable[..], 0, b) && Placed(newTable[..], tableLength, newTable.Length)
        invariant Hashed(newTable[..], hash)
        invariant forall w :: Tally(newTable[..], w) == old(Tally(newTable[..], w))
        decreases |newTable[b]| - k
      {
        var e := newTable[b][k];
        var b2 := e.hash % newTable.Length;
        if b2 == b {
          k := k + 1;
        } else {
          ghost var was := newTable[..];
          MoveFacts(was, b, k, b2, tableLength, hash);
          newTable[b] := newTable[b][..k] + newTable[b][k + 1..];
          newTable[b2] := [e] + newTable[b2];
          assert newTable[..] == Pushed(Unlinked(was, b, k), b2, e);
        }
      }
    }

    /** The loop of HT_GROW over the sizes: the next one whose limit is above size. */
    method NextPrime(size: nat) returns (i: Option<nat>)
      requires Valid() && primeIdx < |PRIMES| - 1
      ensures i.None? <==> Limit(|PRIMES| - 1) <= size
      ensures i.Some? ==> Smallest(primeIdx, i.value, size) && PRIMES[i.value] > tableLength
    {
      hide Holds, Tally, Placed, Hashed, Limit, PRIMES;
      LimitsGrow();
      var idx := primeIdx + 1;
      while Limit(idx) <= size
        invariant primeIdx < idx < |PRIMES|
        invariant forall j :: primeIdx < j < idx ==> Limit(j) <= size
        decreases |PRIMES| - idx
        modifies {}
      {
        idx := idx + 1;
        if idx == |PRIMES| {
          return None;
        }
      }
      PrimesGrow(primeIdx, idx);
      return Some(idx);
    }

    /** The limits of the smallest and the largest table, with a load factor of one half. */
    lemma {:induction false} HalfLoad()
      requires load == 0.5
      ensures |PRIMES| == 26 && Limit(0) == 26 && Limit(25) == 805306370
    {
      assert load * PRIMES[0] as real == 26.5;
      assert load * PRIMES[25] as real == 805306370.5;
    }

    /** No limit is above the last one. */
    lemma {:induction false} LimitsGrow()
      requires LoadFits()
      ensures forall i :: 0 <= i < |PRIMES| ==> Limit(i) <= Limit(|PRIMES| - 1)
    {
      hide PRIMES;
      forall i | 0 <= i < |PRIMES| ensures Limit(i) <= Limit(|PRIMES| - 1) {
        if i < |PRIMES| - 1 {
          PrimesGrow(i, |PRIMES| - 1);
          Monotone(load, PRIMES[i] as real, PRIMES[|PRIMES| - 1] as real);
        }
      }
    }

    /** HT_START: the place of the first element. */
    method Start() returns (p: Option<(nat, nat)>)
      requires Valid()
      ensures p.None? <==> Order(Lists()) == []
      ensures p.Some? ==> var (b, k) := p.value; b < |Lists()| && k < |Lists()[b]| && Before(Lists(), b) + k == 0
    {
      p := FirstFrom(0);
      BeforeAll(Lists());
      if p.Some? {
        OrderAt(Lists(), p.value.0, p.value.1);
      }
    }

    /** The loop of HT_START and HT_NEXT: the first element in bucket lo or later. */
    method FirstFrom(lo: nat) returns (p: Option<(nat, nat)>)
      requires Valid() && lo <= |Lists()|
      ensures p.None? ==> Before(Lists(), lo) == Before(Lists(), |Lists()|)
      ensures p.Some? ==> var (b, k) := p.value;
                          b < |Lists()| && k < |Lists()[b]| && Before(Lists(), b) + k == Before(Lists(), lo)
    {
      hide Before, Holds, Placed, Hashed;
      var b := lo;
      while b < tableLength
        invariant lo <= b <= tableLength && Before(Lists(), b) == Before(Lists(), lo)
        modifies {}
      {
        if table[b] != [] {
          return Some((b, 0));
        }
        BeforeNext(Lists(), b);
        b := b + 1;
      }
      return None;
    }

    /** HT_NEXT: the place after that of an element. */
    method Next(b: nat, k: nat) returns (p: Option<(nat, nat)>)
      requires Valid() && b < |Lists()| && k < |Lists()[b]|
      ensures p.None? <==> Before(Lists(), b) + k + 1 == |Order(Lists())|
      ensures p.Some? ==> var (b', k') := p.value;
                          b' < |Lists()| && k' < |Lists()[b']| && Before(Lists(), b') + k' == Before(Lists(), b) + k + 1
    {
      hide Before, Holds, Hashed;
      if k + 1 < |table[b]| {
        OrderAt(Lists(), b, k + 1);
        return Some((b, k + 1));
      }
      assert At(Lists(), table[b][k], b);
      BeforeNext(Lists(), b);
      BeforeAll(Lists());
      p := FirstFrom(table[b][k].hash % tableLength + 1);
      if p.Some? {
        OrderAt(Lists(), p.value.0, p.value.1);
      }
    }

    /** HT_FOREACH visits each element once. */
    method Foreach() returns (visited: seq<Elm>)
      requires Valid()
      ensures |visited| == nEntries
      ensures forall e :: e in visited <==> e.key in m && m[e.key] == e
      ensures forall i, j :: 0 <= i < j < |visited| ==> visited[i].key != visited[j].key
    {
      hide Before, Holds, Placed, Hashed, Order;
      visited := [];
      var p := Start();
      while p.Some?
        invariant p.Some? ==> var (b, k) := p.value;
                              b < |Lists()| && k < |Lists()[b]| && Before(Lists(), b) + k == |visited|
        invariant |visited| <= |Order(Lists())| && visited == Order(Lists())[..|visited|]
        invariant p.None? ==> |visited| == |Order(Lists())|
        decreases |Order(Lists())| - |visited|
        modifies {}
      {
        var (b, k) := p.value;
        OrderAt(Lists(), b, k);
        visited := visited + [table[b][k]];
        p := Next(b, k);
      }
      OrderIsPermutation(Lists(), m);
    }

    ghost predicate RepOk()
      requires 0 <= primeIdx < |PRIMES| || primeIdx == -1
      reads this, table
    {
      if tableLength == 0 then
        table == null && nEntries == 0 && loadLimit == 0 && primeIdx == -1
      else
        && table != null && primeIdx >= 0 && 0 < loadLimit == Limit(primeIdx)
        && nEntries <= loadLimit
        && tableLength == PRIMES[primeIdx] == table.Length
        && Placed(Lists(), 0, tableLength) && Hashed(Lists(), hash)
        && Tally(Lists(), Any) == nEntries
    }

    /** A table is in order just when its entries stay within the load limit. */
    lemma {:induction false} ValidIsOk()
      requires Valid()
      ensures RepOk() <==> nEntries <= loadLimit
    {
      if table != null {
        assert load * 53.0 <= load * PRIMES[primeIdx] as real by {
          assert load > 0.0;
          PrimesGrow(-1, primeIdx);
          if primeIdx > 0 {
            PrimesGrow(0, primeIdx);
          }
          Monotone(load, 53.0, PRIMES[primeIdx] as real);
        }
      }
    }

    /** HT_REP_IS_BAD_ */
    method RepIsBad() returns (res: int)
      requires 0 <= primeIdx < |PRIMES| || primeIdx == -1
      requires table != null ==> table.Length == tableLength
      ensures res == 0 <==> RepOk()
    {
      hide Tally, PRIMES, Limit;
      if tableLength == 0 {
        return if table == null && nEntries == 0 && loadLimit == 0 && primeIdx == -1 then 0 else 1;
      }
      if table == null || primeIdx < 0 || loadLimit == 0 {
        return 2;
      }
      if nEntries > loadLimit {
        return 3;
      }
      if tableLength != PRIMES[primeIdx] {
        return 4;
      }
      if loadLimit != Limit(primeIdx) {
        return 5;
      }
      var n, i := 0, 0;
      EmptyBuckets(0, Any);
      assert Lists()[..0] == seq(0, _ => []);
      while i < tableLength
        invariant 0 <= i <= tableLength && n == Tally(Lists()[..i], Any)
        invariant Placed(Lists(), 0, i)
        invariant forall j, k :: 0 <= j < i && 0 <= k < |table[j]| ==> table[j][k].hash == hash(table[j][k].key)
        modifies {}
      {
        var k := 0;
        while k < |table[i]|
          invariant 0 <= k <= |table[i]| && n == Tally(Lists()[..i], Any) + k
          invariant forall j :: 0 <= j < k ==> At(Lists(), table[i][j], i) && table[i][j].hash == hash(table[i][j].key)
          modifies {}
        {
          if table[i][k].hash != hash(table[i][k].key) {
            assert Lists()[i][k].hash != hash(Lists()[i][k].key);
            return 1000 + i;
          }
          if table[i][k].hash % tableLength != i {
            assert !At(Lists(), Lists()[i][k], i);
            return 10000 + i;
          }
          n, k := n + 1, k + 1;
        }
        TallySnoc(Lists(), i, Any);
        Buckets.CountAll(table[i], Kind(Any));
        i := i + 1;
      }
      assert Lists()[..tableLength] == Lists();
      return if n != nEntries then 6 else 0;
    }
  }

  lemma {:induction false} Monotone(a: real, x: real, y: real)
    requires a >= 0.0 && x <= y
    ensures a * x <= a * y
  {
  }

  /** A table of the smallest size with one element. */
  method FirstTable() returns (h: Head)
    ensures fresh(h) && h.Valid() && h.table != null && fresh(h.table) && h.primeIdx == 0 && h.load == 0.5
    ensures h.nEntries <= h.loadLimit && h.m.Keys == {0}
  {
    h := new Head((k: Key) => 0, 0.5);
    h.HalfLoad();
    hide PRIMES, Holds, Tally, Placed, Hashed, Head.Limit;
    var _ := h.Insert(0, 0, Fresh);
    assert h.primeIdx == 0;
  }

  /** Elements more, up to its load limit. */
  method Filled() returns (h: Head, n: int)
    ensures fresh(h) && h.Valid() && h.table != null && fresh(h.table) && h.nEntries == h.loadLimit && h.primeIdx == 0
    ensures n !in h.m && h.load == 0.5
  {
    h := FirstTable();
    hide PRIMES, Holds, Tally, Placed, Hashed, Head.Limit, Head.Smallest, Head.PastSizes, Head.LoadFits, Head.Sized;
    n := 1;
    while h.nEntries < h.loadLimit
      invariant h.Valid() && h.primeIdx == 0 && h.nEntries <= h.loadLimit
      invariant h.table != null && fresh(h) && fresh(h.table)
      invariant forall k <- h.m :: k < n
      decreases h.loadLimit - h.nEntries
    {
      var _ := h.Insert(n, 0, Fresh);
      n := n + 1;
    }
  }

  /** When it finds no memory to grow, it takes one element more all the same. */
  method OverLimitExample() returns (h: Head, res: int)
    ensures h.Valid() && h.nEntries > h.loadLimit && res != 0
  {
    var n;
    h, n := Filled();
    h.HalfLoad();
    hide PRIMES, Holds, Tally, Placed, Hashed, Head.Limit;
    assert h.loadLimit == 26;
    var out := h.Insert(n, 0, Out);
    h.ValidIsOk();
    res := h.RepIsBad();
  }
}
