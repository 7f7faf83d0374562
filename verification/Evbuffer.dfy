/**
 The chained byte buffer (struct evbuffer): a list of partly filled chunks with a cached total, a pointer
 to the last chunk and a pointer to the slot that holds the last chunk with data.

 `alloc` says whether malloc succeeds.
 */
module Evbuffer {
  import opened Common
  import opened Chains

  const MAX_AUTO_SIZE: nat := 4096

  /** The room evbuffer_prepend finds in front of the first chunk's data. */
  function PrependRoom(cs: seq<Chain>): (n: nat) {
    if cs == [] then 0 else cs[0].FrontRoom()
  }

  /** What a buffer holds after evbuffer_prepend ran out of memory. */
  ghost function AfterFailedPrepend(cs: seq<Chain>, data: seq<byte>): (s: seq<byte>)
    requires |data| > PrependRoom(cs)
  {
    data[|data| - PrependRoom(cs)..] + Bytes(cs)
  }

  /** The list that takes the copied rest in evbuffer_remove_buffer, once the first i chunks of cs are linked to it. */
  function Receiver(cs: seq<Chain>, ds: seq<Chain>, i: nat): (t: seq<Chain>)
    requires i <= |cs|
  {
    if i == 0 then ds else Trimmed(ds) + cs[..i]
  }

  /** Does evbuffer_remove_buffer lose the bytes that it has to copy out of cs into ds? */
  ghost predicate Lost(cs: seq<Chain>, ds: seq<Chain>, dsTotal: nat, datlen: nat, alloc: bool) {
    var rest := datlen - WholeChunks(cs, datlen);
    && rest > 0
    && (dsTotal + datlen > SIZE_MAX || !(alloc || TakesMore(Receiver(cs, ds, WholeCount(cs, datlen)), rest)))
  }

  /** How many of the bytes that evbuffer_remove_buffer takes from cs arrive. */
  ghost function Arriving(cs: seq<Chain>, ds: seq<Chain>, total: nat, dsTotal: nat, datlen: nat, alloc: bool): (n: nat)
    ensures n <= total
  {
    if datlen >= total then total
    else if Lost(cs, ds, dsTotal, datlen, alloc) then WholeChunks(cs, datlen)
    else datlen
  }

  lemma {:induction false} ReceiverOf(cs: seq<Chain>, ds: seq<Chain>, i: nat)
    requires i <= |cs|
    ensures Receiver(cs[..i], ds, |cs[..i]|) == Receiver(cs, ds, i)
  {
    assert cs[..i][..i] == cs[..i];
  }

  lemma {:induction false} Taken(s: seq<byte>, moved: seq<byte>, part: seq<byte>, left: seq<byte>, was: seq<byte>)
    requires s == moved + part + left
    ensures s[..|moved|] == moved && s[..|moved| + |part|] == moved + part && s[|moved| + |part|..] == left
    ensures was + moved + part == was + (moved + part)
  {
  }

  lemma {:induction false} LostMeans(cs: seq<Chain>, ds: seq<Chain>, dsTotal: nat, datlen: nat, alloc: bool)
    ensures var i, rest := WholeCount(cs, datlen), datlen - WholeChunks(cs, datlen);
            var room := SIZE_MAX - (dsTotal + (datlen - rest));
            Lost(cs, ds, dsTotal, datlen, alloc)
            <==> rest > 0 && (rest > room || !(alloc || TakesMore(Receiver(cs, ds, i), rest)))
  {
  }

  /** A prepend that ran out of memory changed nothing just when there was no room in front. */
  lemma {:induction false} FailedPrepend(cs: seq<Chain>, data: seq<byte>)
    requires |data| > PrependRoom(cs)
    ensures AfterFailedPrepend(cs, data) == Bytes(cs) <==> PrependRoom(cs) == 0
  {
    assert |AfterFailedPrepend(cs, data)| == PrependRoom(cs) + |Bytes(cs)|;
    if PrependRoom(cs) == 0 {
      assert data[|data|..] == [];
    }
  }

  /** The space of a chunk, after the free space of an empty one is moved to its start. */
  function SpaceOnceMoved(c: Chain): (n: nat) {
    if c.off > 0 then c.SpaceLen() else |c.buffer|
  }

  /** The memory of the first chunk, from its data on. */
  function RoomInFront(cs: seq<Chain>): (n: int) {
    if cs == [] then 0 else cs[0].Room()
  }

  /** c is not moved by the counting. */
  predicate Still(c: Chain) {
    c.off > 0 || c.misalign == 0
  }

  /** Chunks k.. are not moved, are fewer than n, and have less than datlen bytes of room together. */
  ghost predicate OneMore(cs: seq<Chain>, k: nat, datlen: nat, n: nat) {
    && k < |cs| < n + k && !cs[|cs| - 1].immutable && SpaceOf(cs, k, |cs| - k) < datlen
    && forall i :: k <= i < |cs| ==> Still(cs[i])
  }

  /** What chunks k.. lack for datlen bytes. */
  ghost function Lack(cs: seq<Chain>, k: nat, datlen: nat): (n: nat)
    requires k <= |cs|
  {
    var space := SpaceOf(cs, k, |cs| - k);
    if space < datlen then datlen - space else 0
  }

  /** ds is cs and a new empty chunk for `room` bytes. */
  ghost predicate Longer(cs: seq<Chain>, ds: seq<Chain>, room: nat) {
    && |ds| == |cs| + 1 && ds[..|cs|] == cs
    && ds[|cs|] == Chain(ds[|cs|].addr, ds[|cs|].buffer, 0, 0, false) && |ds[|cs|].buffer| == MemoryFor(room)
  }

  /** Part of a reservation (struct evbuffer_iovec): len bytes of memory from buffer[pos] of the chunk at addr. */
  datatype Vec = Vec(addr: Address, pos: nat, len: nat)

  /** v starts at CHAIN_SPACE_PTR(c). */
  predicate AtSpace(v: Vec, c: Chain) {
    v.addr == c.addr && v.pos == c.misalign + c.off
  }

  /** vecs describe the start of the free space of the chunks from f on. */
  ghost predicate Describes(vecs: seq<Vec>, cs: seq<Chain>, f: nat) {
    && f + |vecs| <= |cs|
    && forall j :: 0 <= j < |vecs| ==> AtSpace(vecs[j], cs[f + j]) && vecs[j].len <= cs[f + j].SpaceLen()
  }

  /** The memory that vecs describe, in order. */
  ghost function Reserved(vecs: seq<Vec>, cs: seq<Chain>, f: nat): (s: seq<byte>)
    requires Describes(vecs, cs, f)
    ensures |s| == TotalLen(vecs)
  {
    if vecs == [] then [] else cs[f].Free()[..vecs[0].len] + Reserved(vecs[1..], cs, f + 1)
  }

  ghost function TotalLen(vecs: seq<Vec>): (n: nat) {
    if vecs == [] then 0 else vecs[0].len + TotalLen(vecs[1..])
  }

  /** v is all the free space of chunk i. */
  predicate Whole(v: Vec, cs: seq<Chain>, i: int) {
    0 <= i < |cs| && AtSpace(v, cs[i]) && v.len == cs[i].SpaceLen()
  }

  /** Each vector was needed, and takes all the space of its chunk, or if exact no more than what was still needed. */
  ghost predicate Spans(vecs: seq<Vec>, cs: seq<Chain>, f: nat, howmuch: nat, exact: bool) {
    && f + |vecs| <= |cs|
    && forall j :: 0 <= j < |vecs| ==>
         var need, space := howmuch - TotalLen(vecs[..j]), cs[f + j].SpaceLen();
         need > 0 && vecs[j].len == if exact && space > need then need else space
  }

  lemma {:induction false} SpansNone(cs: seq<Chain>, f: nat, howmuch: nat, exact: bool)
    requires f <= |cs|
    ensures Spans([], cs, f, howmuch, exact)
  {
  }

  lemma {:induction false} SpansSnoc(vecs: seq<Vec>, v: Vec, cs: seq<Chain>, f: nat, howmuch: nat, exact: bool)
    requires Spans(vecs, cs, f, howmuch, exact) && f + |vecs| < |cs| && TotalLen(vecs) < howmuch
    requires var need, space := howmuch - TotalLen(vecs), cs[f + |vecs|].SpaceLen();
             v.len == if exact && space > need then need else space
    ensures Spans(vecs + [v], cs, f, howmuch, exact)
  {
    hide Chain.SpaceLen, TotalLen;
    assert vecs[..|vecs|] == vecs;
    forall j | 0 <= j <= |vecs| ensures (vecs + [v])[..j] == vecs[..j] {
    }
  }

  lemma {:induction false} Split(was: seq<byte>, data: seq<byte>, n: nat)
    requires n <= |data|
    ensures (was + data[..n]) + data[n..] == was + data
    ensures n == 0 ==> data[n..] == data && data[..n] == [] && was + data[..n] == was
  {
  }

  class Buffer {
    var chains: seq<Chain>       // from `first`, along `next`
    var last: Address?
    var lastWithDatap: Slot
    var totalLen: nat
    var freezeStart: bool
    var freezeEnd: bool

    constructor ()
      ensures Valid() && Contents() == [] && chains == [] && totalLen == 0 && !freezeStart && !freezeEnd
    {
      chains, last, lastWithDatap, totalLen := [], null, FirstSlot, 0;
      freezeStart, freezeEnd := false, false;
    }

    ghost predicate Valid()
      reads this
    {
      Layout(chains, last, lastWithDatap, totalLen)
    }

    /** The byte string the buffer stands for. */
    ghost function Contents(): (s: seq<byte>)
      reads this
    {
      Bytes(chains)
    }

    /** evbuffer_free_trailing_empty_chains: cuts the empty chunks off; returns where the next one goes. */
    method FreeTrailingEmptyChains() returns (ch: Slot)
      requires Valid()
      modifies this`chains
      ensures Wf(chains) && chains == Trimmed(old(chains)) && Contents() == old(Contents())
      ensures Addrs(chains) <= old(Addrs(chains))
      ensures ch == SlotAt(chains, |chains|)
      ensures LastWithData(chains, lastWithDatap, if chains == [] then 0 else |chains| - 1)
      ensures chains != [] ==> chains[|chains| - 1].off > 0
    {
      hide Chain.Data, Chain.Ok, Find, Bytes, LastData;
      var k := Deref(chains, lastWithDatap);
      TailEmpty(chains, lastWithDatap, k);
      LastDataIs(chains, lastWithDatap, k);
      while k < |chains| && chains[k].off != 0
        invariant Deref(chains, lastWithDatap) <= k <= |chains|
        invariant k > Deref(chains, lastWithDatap) ==> k == Deref(chains, lastWithDatap) + 1 && chains[k - 1].off > 0
      {
        k := k + 1;
      }
      if k < |chains| {
        WfCut(chains, k);
        assert Bytes(chains[..0]) == [] by { assert chains[..0] == []; BytesNone(); }
        chains := chains[..k];
      }
      ch := SlotAt(chains, k);
    }

    /** evbuffer_chain_insert: adds chunk c at the end, in place of any empty chunks there. */
    method ChainInsert(c: Chain)
      requires Valid() && c.Ok() && c.addr !in Addrs(chains)
      modifies this`chains, this`last, this`lastWithDatap, this`totalLen
      ensures Valid() && Contents() == old(Contents()) + c.Data()
      ensures chains == Trimmed(old(chains)) + [c] && Addrs(chains) <= old(Addrs(chains)) + {c.addr}
    {
      hide Chain.Data, Chain.Ok, Wf, Find, Bytes, LastWithData, LastAddr, Trimmed;
      EmptyList(chains, last, lastWithDatap, totalLen);
      if Deref(chains, lastWithDatap) == |chains| {
        InsertBehind(chains, lastWithDatap, c, totalLen);
        assert chains + [c] == [c];
        chains, last := [c], c.addr;
      } else {
        hide Deref;
        var chp := FreeTrailingEmptyChains();
        InsertBehind(chains, lastWithDatap, c, totalLen);
        chains := chains + [c];
        if c.off > 0 {
          lastWithDatap := chp;
        }
        last := c.addr;
      }
      totalLen := totalLen + c.off;
    }

    /** evbuffer_add: appends data; a failed call changes nothing. */
    method Add(data: seq<byte>, alloc: bool) returns (res: int)
      requires Valid()
      modifies this`chains, this`last, this`lastWithDatap, this`totalLen
      ensures Valid() && fresh(Addrs(chains) - old(Addrs(chains)))
      ensures res == 0 ==> Contents() == old(Contents()) + data
      ensures res != 0 ==> res == -1 && unchanged(this)
      ensures res == 0 <==> !freezeEnd && |data| <= SIZE_MAX - old(totalLen)
                            && (TakesMore(old(chains), |data|) || (alloc && |data| <= MAX_CHAIN))
      ensures res == 0 && old(chains) == [] ==>
                && |chains| == 1 && |chains[0].buffer| == MemoryFor(|data|)
                && chains[0] == Chain(chains[0].addr, chains[0].buffer, 0, |data|, false)
    {
      hide Chain.Data, Find, Wf, Bytes, Chain.Write, Chain.Align, LastData;
      if freezeEnd || |data| > SIZE_MAX - totalLen {
        return -1;
      }
      var k := Deref(chains, lastWithDatap);
      LastDataIs(chains, lastWithDatap, k);
      if k == |chains| {
        var c := ChainNew(|data|, alloc);
        if c.None? {
          return -1;
        }
        ChainInsert(c.value);
        assert |c.value.Data()| == 0;
        k := 0;
      }
      var chain := chains[k];
      assert chain.Ok() by { WfAt(chains, k); }
      if !chain.immutable {
        var remain := |chain.buffer| - chain.misalign - chain.off;
        if remain >= |data| {
          FillUp(k, data);
          return 0;
        } else if chain.ShouldRealign(|data|) {
          LayoutGrow(chains, lastWithDatap, k, chain.Align().Write(data), data);
          chains, totalLen := chains[k := chain.Align().Write(data)], totalLen + |data|;
          return 0;
        }
      }
      res := AddChunk(k, data, alloc);
    }

    /** The part of evbuffer_add that fills chunk k up and puts the rest into a new chunk. */
    method AddChunk(k: nat, data: seq<byte>, alloc: bool) returns (res: int)
      requires Valid() && k == Deref(chains, lastWithDatap) < |chains| && chains[k].SpaceLen() <= |data|
      modifies this`chains, this`last, this`lastWithDatap, this`totalLen
      ensures Valid() && fresh(Addrs(chains) - old(Addrs(chains)))
      ensures res == if alloc && |data| <= MAX_CHAIN then 0 else -1
      ensures res == 0 ==> Contents() == old(Contents()) + data
      ensures res != 0 ==> unchanged(this)
    {
      hide Chain.Data, Find, Wf, Bytes, Chain.Write, LastWithData, LastAddr, Deref;
      var chain := chains[k];
      assert chain.Ok() by { WfAt(chains, k); }
      var remain := if chain.immutable then 0 else |chain.buffer| - chain.misalign - chain.off;
      var toAlloc := |chain.buffer|;
      if toAlloc <= MAX_AUTO_SIZE / 2 {
        toAlloc := toAlloc * 2;
      }
      if |data| > toAlloc {
        toAlloc := |data|;
      }
      var tmp := ChainNew(toAlloc, alloc);
      if tmp.None? {
        return -1;
      }
      if remain > 0 {
        FillUp(k, data[..remain]);
      }
      InsertWritten(tmp.value, data[remain..]);
      Split(old(Contents()), data, remain);
      return 0;
    }

    /** Adds the new chunk c with data in it. */
    method InsertWritten(c: Chain, data: seq<byte>)
      requires Valid() && c.Ok() && c.addr !in Addrs(chains) && c.off == 0 && |data| <= c.SpaceLen()
      modifies this`chains, this`last, this`lastWithDatap, this`totalLen
      ensures Valid() && Contents() == old(Contents()) + data && Addrs(chains) <= old(Addrs(chains)) + {c.addr}
    {
      hide Chain.Ok, Chain.SpaceLen, Chain.Data, Chain.Write, Find, Wf, Bytes, LastWithData, LastAddr, Deref;
      DataLength(c);
      ChainInsert(c.Write(data));
    }

    /** Writes data, which fits, to chunk k. */
    method FillUp(k: nat, data: seq<byte>)
      requires Valid() && k == Deref(chains, lastWithDatap) < |chains| && chains[k].Ok()
      requires |data| <= chains[k].SpaceLen()
      modifies this`chains, this`totalLen
      ensures Valid() && Contents() == old(Contents()) + data && Addrs(chains) == old(Addrs(chains))
      ensures chains == old(chains[k := chains[k].Write(data)])
    {
      hide Chain.Data, Find, Wf, Bytes, Chain.Write, Chain.Ok, Chain.SpaceLen, LastWithData, LastAddr;
      var c := chains[k].Write(data);
      LayoutGrow(chains, lastWithDatap, k, c, data);
      assert LastAddr(chains[k := c]) == LastAddr(chains) by { SlotKept(chains, lastWithDatap, k, k, c); }
      chains, totalLen := chains[k := c], totalLen + |data|;
    }

    /** evbuffer_add_reference: appends memory that the buffer must not write. */
    method AddReference(data: seq<byte>, alloc: bool) returns (res: int)
      requires Valid() && |data| <= MAX_CHAIN
      modifies this`chains, this`last, this`lastWithDatap, this`totalLen
      ensures Valid() && fresh(Addrs(chains) - old(Addrs(chains)))
      ensures res == if alloc && !freezeEnd then 0 else -1
      ensures res == 0 ==> Contents() == old(Contents()) + data
      ensures res == 0 ==>
                && chains != [] && var c := chains[|chains| - 1];
                && c == Chain(c.addr, data, 0, |data|, true) && chains == Trimmed(old(chains)) + [c]
      ensures res != 0 ==> unchanged(this)
    {
      hide Wf, Bytes, Trimmed;
      if !alloc || freezeEnd {
        return -1;
      }
      var addr := new Address();
      var c := Chain(addr, data, 0, |data|, true);
      assert c.Data() == data;
      ChainInsert(c);
      return 0;
    }

    /**
     evbuffer_prepend.  A call that fails for want of memory has already put the end of the data
     into the room in front of the first chunk.
     */
    method Prepend(data: seq<byte>, alloc: bool) returns (res: int)
      requires Valid()
      modifies this`chains, this`last, this`lastWithDatap, this`totalLen
      ensures Valid() && fresh(Addrs(chains) - old(Addrs(chains)))
      ensures res == 0 ==> Contents() == data + old(Contents())
      ensures res == 0 || res == -1
      ensures res == -1 <==>
                && data != []
                && (freezeStart || |data| > SIZE_MAX - old(totalLen)
                    || (|data| > PrependRoom(old(chains)) && (!alloc || |data| - PrependRoom(old(chains)) > MAX_CHAIN)))
      ensures res == -1 && (freezeStart || |data| > SIZE_MAX - old(totalLen)) ==> unchanged(this)
      ensures res == -1 && !freezeStart && |data| <= SIZE_MAX - old(totalLen) ==>
                |data| > PrependRoom(old(chains)) && Contents() == AfterFailedPrepend(old(chains), data)
    {
      hide Chain.Data, Find, Wf, Bytes, Chain.Write, Chain.WriteFront;
      if data == [] {
        assert data + Contents() == Contents();
        return 0;
      }
      if freezeStart || |data| > SIZE_MAX - totalLen {
        return -1;
      }
      if chains == [] {
        var c := ChainNew(|data|, alloc);
        if c.None? {
          assert data[|data|..] + Contents() == Contents();
          return -1;
        }
        ChainInsert(c.value);
        BytesNone();
        assert |c.value.Data()| == 0 && Contents() == [];
      }
      res := PrependFirst(data, alloc);
    }

    /** evbuffer_prepend for a buffer with chunks. */
    method PrependFirst(data: seq<byte>, alloc: bool) returns (res: int)
      requires Valid() && chains != [] && data != []
      modifies this`chains, this`last, this`lastWithDatap, this`totalLen
      ensures Valid() && fresh(Addrs(chains) - old(Addrs(chains)))
      ensures var rest := |data| - PrependRoom(old(chains));
              res == if rest > 0 && (!alloc || rest > MAX_CHAIN) then -1 else 0
      ensures res == 0 ==> Contents() == data + old(Contents())
      ensures res == -1 ==> Contents() == AfterFailedPrepend(old(chains), data)
    {
      hide Chain.Data, Find, Wf, Bytes, Chain.Write, Chain.WriteFront;
      var chain := chains[0];
      WfAt(chains, 0);
      var room := chain.FrontRoom();
      if room >= |data| {
        FillFront(data);
        return 0;
      }
      var rest := data[..|data| - room];
      var done := data[|data| - room..];
      assert data == rest + done;
      if room > 0 {
        FillFront(done);
      }
      assert Contents() == done + old(Contents());
      res := PrependChunk(rest, alloc);
      if res == 0 {
        assert rest + (done + old(Contents())) == data + old(Contents());
      }
    }

    /** Writes data, which fits, in front of the data of the first chunk. */
    method FillFront(data: seq<byte>)
      requires Valid() && chains != [] && chains[0].Ok() && 0 < |data| <= chains[0].FrontRoom()
      modifies this`chains, this`totalLen
      ensures Valid() && Contents() == data + old(Contents()) && Addrs(chains) == old(Addrs(chains)) && chains != []
    {
      hide Chain.Data, Find, Wf, Bytes, Chain.WriteFront, Chain.Ok, Chain.FrontRoom, LastAddr;
      var k, c := Deref(chains, lastWithDatap), chains[0].WriteFront(data);
      WfAt(chains, 0);
      DataLength(c);
      LayoutGrowFront(chains, lastWithDatap, k, c, data);
      assert LastAddr(chains[0 := c]) == LastAddr(chains) by { SlotKept(chains, lastWithDatap, k, 0, c); }
      chains, totalLen := chains[0 := c], totalLen + |data|;
    }

    /** The part of evbuffer_prepend that puts a new chunk in front. */
    method PrependChunk(data: seq<byte>, alloc: bool) returns (res: int)
      requires Valid() && chains != [] && data != []
      modifies this`chains, this`lastWithDatap, this`totalLen
      ensures Valid() && fresh(Addrs(chains) - old(Addrs(chains)))
      ensures res == if alloc && |data| <= MAX_CHAIN then 0 else -1
      ensures res == 0 ==> Contents() == data + old(Contents())
      ensures res != 0 ==> unchanged(this)
    {
      hide Chain.Data, Find, Wf, Bytes, Chain.WriteFront, Chain.Ok, LastWithData, Deref, LastAddr;
      var tmp := ChainNew(|data|, alloc);
      if tmp.None? {
        return -1;
      }
      var c := tmp.value;
      assert |c.Data()| == 0 && c.FrontRoom() == |c.buffer|;
      c := c.WriteFront(data);
      assert |c.Data()| == |data|;
      LayoutPrepend(chains, lastWithDatap, Deref(chains, lastWithDatap), c);
      WfOne(c);
      WfConcat([c], chains);
      if lastWithDatap == FirstSlot && chains[0].off > 0 {
        lastWithDatap := NextSlot(c.addr);
      }
      chains, totalLen := [c] + chains, totalLen + |data|;
      return 0;
    }

    /**
     The walk of evbuffer_drain and evbuffer_remove_buffer over the whole chunks in the first len bytes.  Not all
     the data goes, so the last chunk with data stays, but the chunk whose `next` points at it may go.
     */
    method WalkWholeChunks(len: nat) returns (i: nat, rest: nat)
      requires Valid() && len < totalLen
      modifies this`lastWithDatap
      ensures i < |chains| && rest < chains[i].off && chains[i].Ok()
      ensures len - rest == WholeChunks(chains, len) && i == WholeCount(chains, len)
      ensures Wf(chains[..i]) && Addrs(chains[..i]) !! Addrs(chains[i..])
      ensures Addrs(chains) == Addrs(chains[..i]) + Addrs(chains[i..]) && |Bytes(chains[..i])| == len - rest
      ensures var ds := [chains[i].Skip(rest)] + chains[i + 1..];
              && Layout(ds, last, lastWithDatap, totalLen - len) && Addrs(ds) == Addrs(chains[i..])
              && Bytes(chains) == Bytes(chains[..i]) + chains[i].Data()[..rest] + Bytes(ds)
    {
      hide Chain.Data, Find, Bytes, Chain.Skip, Chain.Ok, WholeChunks, WholeCount;
      i, rest := 0, len;
      ghost var k, slot := Deref(chains, lastWithDatap), lastWithDatap;
      assert chains[..0] == [] && chains != [] by { BytesNone(); }
      BytesNone();
      Stops(chains, slot, k, 0);
      while chains[i].off <= rest
        invariant i <= k < |chains| && rest + |Bytes(chains[..i])| == len
        invariant lastWithDatap == if i < k then slot else FirstSlot
        invariant i == k ==> rest < chains[k].off
        modifies this`lastWithDatap
        decreases k - i
      {
        Stops(chains, slot, k, i);
        rest := rest - chains[i].off;
        if lastWithDatap == NextSlot(chains[i].addr) {
          lastWithDatap := FirstSlot;
        }
        i := i + 1;
        Stops(chains, slot, k, i);
      }
      WfAt(chains, i);
      WfCut(chains, i);
      WholeChunksAt(chains, i, len);
      LayoutDrop(chains, slot, k, i, rest);
    }

    /** The first len bytes of cs are gone in ds: whole chunks, and the front of the next one. */
    ghost predicate FrontGone(cs: seq<Chain>, ds: seq<Chain>, len: nat) {
      var i, r := WholeCount(cs, len), len - WholeChunks(cs, len);
      && i < |cs| && r < cs[i].off
      && ds == [cs[i].(misalign := cs[i].misalign + r, off := cs[i].off - r)] + cs[i + 1..]
    }

    /** evbuffer_drain: forgets the first len bytes, or all of them. */
    method Drain(len: nat) returns (res: int)
      requires Valid()
      modifies this`chains, this`last, this`lastWithDatap, this`totalLen
      ensures Valid() && Addrs(chains) <= old(Addrs(chains))
      ensures res == if freezeStart && old(totalLen) > 0 then -1 else 0
      ensures res == 0 ==> Contents() == old(Contents())[if len < old(totalLen) then len else old(totalLen)..]
      ensures res != 0 ==> unchanged(this)
      ensures res == 0 && len < old(totalLen) ==> FrontGone(old(chains), chains, len)
    {
      hide Chain.Data, Find, Bytes, Chain.Ok, WholeCount, WholeChunks;
      if totalLen == 0 {
        return 0;
      }
      if freezeStart {
        return -1;
      }
      BytesNone();
      if len >= totalLen {
        chains, last, lastWithDatap, totalLen := [], null, FirstSlot, 0;
        return 0;
      }
      var i, remaining := WalkWholeChunks(len);
      chains := [chains[i].Skip(remaining)] + chains[i + 1..];
      totalLen := totalLen - len;
      return 0;
    }

    /** ZERO_CHAIN */
    method ZeroChain()
      modifies this`chains, this`last, this`lastWithDatap, this`totalLen
      ensures Valid() && Contents() == [] && chains == []
    {
      chains, last, lastWithDatap, totalLen := [], null, FirstSlot, 0;
    }

    /** APPEND_CHAIN */
    method AppendChain(src: Buffer)
      requires Valid() && src.Valid() && src != this && src.totalLen > 0
      requires Addrs(chains) !! Addrs(src.chains)
      modifies this`chains, this`last, this`lastWithDatap, this`totalLen
      ensures Valid() && Contents() == old(Contents()) + src.Contents()
      ensures Addrs(chains) <= old(Addrs(chains)) + Addrs(src.chains)
    {
      hide Chain.Data, Find, Bytes, Chain.Ok, Wf, Deref, LastWithData, LastAddr, Trimmed;
      BytesNone();
      var chp := FreeTrailingEmptyChains();
      ghost var k := Deref(src.chains, src.lastWithDatap);
      TailEmpty(src.chains, src.lastWithDatap, k);
      WithDataInRange(src.chains, src.lastWithDatap, k);
      LayoutConcat(chains, src.chains, src.lastWithDatap, k);
      WfConcat(chains, src.chains);
      chains := chains + src.chains;
      if src.lastWithDatap == FirstSlot {
        lastWithDatap := chp;
      } else {
        lastWithDatap := src.lastWithDatap;
      }
      last := src.last;
      totalLen := totalLen + src.totalLen;
    }

    /** PREPEND_CHAIN */
    method PrependChain(src: Buffer)
      requires Valid() && src.Valid() && src != this && src.totalLen > 0 && totalLen > 0
      requires Addrs(chains) !! Addrs(src.chains)
      modifies this`chains, this`lastWithDatap, this`totalLen
      ensures Valid() && Contents() == src.Contents() + old(Contents())
      ensures Addrs(chains) <= old(Addrs(chains)) + Addrs(src.chains)
    {
      hide Chain.Data, Find, Bytes, Chain.Ok, Wf;
      BytesNone();
      TailEmpty(chains, lastWithDatap, Deref(chains, lastWithDatap));
      LayoutConcat(src.chains, chains, lastWithDatap, Deref(chains, lastWithDatap));
      WfConcat(src.chains, chains);
      chains := src.chains + chains;
      totalLen := totalLen + src.totalLen;
      assert Deref(chains, lastWithDatap) < |chains|;
      if lastWithDatap == FirstSlot {
        lastWithDatap := SlotAt(src.chains, |src.chains|);
      }
    }

    /** evbuffer_add_buffer: moves everything in src to the end of this buffer. */
    method AddBuffer(src: Buffer) returns (res: int)
      requires Valid() && src.Valid() && (src != this ==> Addrs(chains) !! Addrs(src.chains))
      modifies this`chains, this`last, this`lastWithDatap, this`totalLen
      modifies src`chains, src`last, src`lastWithDatap, src`totalLen
      ensures Valid() && src.Valid() && (src != this ==> Addrs(chains) !! Addrs(src.chains))
      ensures Addrs(chains) + Addrs(src.chains) <= old(Addrs(chains)) + old(Addrs(src.chains))
      ensures res == if old(src.totalLen) > 0 && src != this && (freezeEnd || src.freezeStart) then -1 else 0
      ensures res == 0 && src != this ==> Contents() == old(Contents()) + old(src.Contents()) && src.Contents() == []
      ensures res != 0 || src == this ==> unchanged(this) && unchanged(src)
    {
      hide Chain.Data, Find, Bytes, Chain.Ok, Wf, LastWithData, Deref;
      if src.totalLen == 0 || this == src {
        return 0;
      }
      if freezeEnd || src.freezeStart {
        return -1;
      }
      if totalLen == 0 {
        assert Contents() == [];
        chains, last, lastWithDatap, totalLen := src.chains, src.last, src.lastWithDatap, src.totalLen;
        assert Contents() == old(Contents()) + old(src.Contents());
      } else {
        AppendChain(src);
      }
      src.ZeroChain();
      return 0;
    }

    /** evbuffer_prepend_buffer: moves everything in src to the front of this buffer. */
    method PrependBuffer(src: Buffer) returns (res: int)
      requires Valid() && src.Valid() && (src != this ==> Addrs(chains) !! Addrs(src.chains))
      modifies this`chains, this`last, this`lastWithDatap, this`totalLen
      modifies src`chains, src`last, src`lastWithDatap, src`totalLen
      ensures Valid() && src.Valid() && (src != this ==> Addrs(chains) !! Addrs(src.chains))
      ensures Addrs(chains) + Addrs(src.chains) <= old(Addrs(chains)) + old(Addrs(src.chains))
      ensures res == if old(src.totalLen) > 0 && src != this && (freezeStart || src.freezeStart) then -1 else 0
      ensures res == 0 && src != this ==> Contents() == old(src.Contents()) + old(Contents()) && src.Contents() == []
      ensures res != 0 || src == this ==> unchanged(this) && unchanged(src)
    {
      hide Chain.Data, Find, Bytes, Chain.Ok, Wf, LastWithData, Deref;
      if src.totalLen == 0 || this == src {
        return 0;
      }
      if freezeStart || src.freezeStart {
        return -1;
      }
      if totalLen == 0 {
        assert Contents() == [];
        chains, last, lastWithDatap, totalLen := src.chains, src.last, src.lastWithDatap, src.totalLen;
        assert Contents() == old(src.Contents()) + old(Contents());
      } else {
        PrependChain(src);
      }
      src.ZeroChain();
      return 0;
    }

    /** advance_last_with_data: finds the last chunk with data, from a chunk that is not after it. */
    method AdvanceLastWithData() returns (n: nat)
      requires Wf(chains) && chains != [] && Deref(chains, lastWithDatap) < |chains|
      requires lastWithDatap == SlotAt(chains, Deref(chains, lastWithDatap))
      requires Deref(chains, lastWithDatap) > 0 ==> chains[Deref(chains, lastWithDatap)].off > 0
      modifies this`lastWithDatap
      ensures LastWithData(chains, lastWithDatap, Deref(chains, lastWithDatap))
      ensures old(Deref(chains, lastWithDatap)) + n == |chains| - 1
    {
      hide Chain.Ok, Find, Wf;
      var k := Deref(chains, lastWithDatap);
      ghost var at := k;
      n := 0;
      while k + 1 < |chains|
        invariant n + old(Deref(chains, lastWithDatap)) == k < |chains| && 0 <= at <= k
        invariant lastWithDatap == SlotAt(chains, at) && Deref(chains, lastWithDatap) == at
        invariant at > 0 ==> chains[at].off > 0
        invariant forall i :: at < i <= k ==> chains[i].off == 0
      {
        k := k + 1;
        if chains[k].off > 0 {
          lastWithDatap := SlotAt(chains, k);
          at := k;
          DerefSlotAt(chains, k);
        }
        n := n + 1;
      }
    }

    /** The part of evbuffer_remove_buffer that relinks whole chunks, holding n bytes, to the end. */
    method AppendChains(cs: seq<Chain>, n: nat)
      requires Valid() && Wf(cs) && cs != [] && Addrs(chains) !! Addrs(cs) && n == |Bytes(cs)|
      modifies this`chains, this`last, this`lastWithDatap, this`totalLen
      ensures Valid() && Contents() == old(Contents()) + Bytes(cs) && totalLen == old(totalLen) + n
      ensures chains == Trimmed(old(chains)) + cs && Addrs(chains) <= old(Addrs(chains)) + Addrs(cs)
    {
      hide Chain.Data, Find, Bytes, Chain.Ok, Wf, Trimmed;
      var chp := FreeTrailingEmptyChains();
      ghost var k := if chains == [] then 0 else |chains| - 1;
      BytesConcat(chains, cs);
      WfConcat(chains, cs);
      chains := chains + cs;
      last := cs[|cs| - 1].addr;
      assert lastWithDatap == SlotAt(chains, k);
      DerefSlotAt(chains, k);
      var _ := AdvanceLastWithData();
      totalLen := totalLen + n;
    }

    /**
     evbuffer_remove_buffer: moves the first datlen bytes of this buffer to the end of dst, whole chunks by relinking
     them and the rest by copying.  The copied bytes are lost when dst cannot take them.  The result is the number of
     bytes taken, converted to int.
     */
    method RemoveBuffer(dst: Buffer, datlen: nat, alloc: bool) returns (res: int)
      requires Valid() && dst.Valid() && (dst != this ==> Addrs(chains) !! Addrs(dst.chains))
      modifies this`chains, this`last, this`lastWithDatap, this`totalLen
      modifies dst`chains, dst`last, dst`lastWithDatap, dst`totalLen
      ensures Valid() && dst.Valid() && (dst != this ==> Addrs(chains) !! Addrs(dst.chains))
      ensures datlen == 0 || dst == this ==> res == 0 && unchanged(this) && unchanged(dst)
      ensures datlen > 0 && dst != this && (dst.freezeEnd || freezeStart) ==>
                res == -1 && unchanged(this) && unchanged(dst)
      ensures datlen > 0 && dst != this && !dst.freezeEnd && !freezeStart ==>
                var m := if datlen < old(totalLen) then datlen else old(totalLen);
                && res == ToInt(m) && (res < 0 <==> m % TWO_TO_THE_32 >= TWO_TO_THE_31)
                && Contents() == old(Contents())[m..]
                && dst.Contents() == old(dst.Contents()) + old(Contents())[..Arriving(old(chains), old(dst.chains),
                     old(totalLen), old(dst.totalLen), datlen, alloc)]
    {
      hide Chain.Data, Find, Bytes, Chain.Ok, Wf, Chain.Skip, LastWithData, WholeChunks, LastAddr, Lost;
      if datlen == 0 || dst == this {
        return 0;
      }
      if dst.freezeEnd || freezeStart {
        return -1;
      }
      if datlen >= totalLen {
        var n := totalLen;
        assert Contents()[..n] == Contents() && Contents()[n..] == [];
        var _ := dst.AddBuffer(this);
        return ToInt(n);
      }
      RemoveSome(dst, datlen, alloc);
      return ToInt(datlen);
    }

    /** evbuffer_remove_buffer for a part of the data. */
    method RemoveSome(dst: Buffer, datlen: nat, alloc: bool)
      requires Valid() && dst.Valid() && dst != this && Addrs(chains) !! Addrs(dst.chains)
      requires 0 < datlen < totalLen && !dst.freezeEnd
      modifies this`chains, this`last, this`lastWithDatap, this`totalLen
      modifies dst`chains, dst`last, dst`lastWithDatap, dst`totalLen
      ensures Valid() && dst.Valid() && Addrs(chains) !! Addrs(dst.chains) && Contents() == old(Contents())[datlen..]
      ensures dst.Contents() == old(dst.Contents()) + old(Contents())[..
                if Lost(old(chains), old(dst.chains), old(dst.totalLen), datlen, alloc) then
                  WholeChunks(old(chains), datlen)
                else
                  datlen]
    {
      hide Chain.Data, Find, Bytes, Wf, LastWithData, WholeChunks, WholeCount, LastAddr, Deref, TakesMore, Trimmed;
      hide Lost, Chain.Skip, Chain.Ok, Receiver;
      var i, rest := WalkWholeChunks(datlen);
      var nread := datlen - rest;
      ghost var cs, moved := chains, Bytes(chains[..i]);
      ghost var left := [chains[i].Skip(rest)] + chains[i + 1..];
      LostMeans(cs, dst.chains, dst.totalLen, datlen, alloc);
      ReceiverOf(cs, dst.chains, i);
      dst.Link(chains[..i], nread);
      chains := chains[i..];
      var part := dst.CopyRest(chains[0], rest, alloc);
      chains := chains[0 := chains[0].Skip(rest)];
      assert chains == left;
      totalLen := totalLen - datlen;
      Taken(Bytes(cs), moved, part, Bytes(left), old(dst.Contents()));
    }

    /** Links the chunks that evbuffer_remove_buffer takes whole, if there are any. */
    method Link(cs: seq<Chain>, n: nat)
      requires Valid() && Wf(cs) && Addrs(chains) !! Addrs(cs) && n == |Bytes(cs)|
      modifies this`chains, this`last, this`lastWithDatap, this`totalLen
      ensures Valid() && Contents() == old(Contents()) + Bytes(cs) && totalLen == old(totalLen) + n
      ensures chains == Receiver(cs, old(chains), |cs|) && Addrs(chains) <= old(Addrs(chains)) + Addrs(cs)
    {
      hide Bytes, Wf, Trimmed, Layout;
      if cs != [] {
        assert cs[..|cs|] == cs;
        AppendChains(cs, n);
      } else {
        BytesNone();
      }
    }

    /** The part of evbuffer_remove_buffer that copies the first rest bytes of a chunk to the end of this buffer. */
    method CopyRest(chunk: Chain, rest: nat, alloc: bool) returns (ghost part: seq<byte>)
      requires Valid() && chunk.Ok() && rest < chunk.off && !freezeEnd
      modifies this`chains, this`last, this`lastWithDatap, this`totalLen
      ensures Valid() && fresh(Addrs(chains) - old(Addrs(chains))) && part == chunk.Data()[..rest]
      ensures var taken := rest <= SIZE_MAX - old(totalLen) && (alloc || TakesMore(old(chains), rest));
              Contents() == old(Contents()) + if taken then part else []
    {
      hide Chain.Data, Find, Bytes, Wf, LastWithData, LastAddr, Deref, TakesMore;
      DataPrefix(chunk, rest);
      var data := chunk.buffer[chunk.misalign..chunk.misalign + rest];
      part := data;
      var _ := Add(data, alloc);
      assert data == [] ==> old(Contents()) + data == old(Contents());
    }

    /** The copying loop of evbuffer_pullup: chunks start..i go whole into t, which started as tmp. */
    method PullCopy(tmp: Chain, start: nat, n: nat, k: nat)
      returns (t: Chain, i: nat, removedLast: bool, removedSlot: bool)
      requires Wf(chains) && LastWithData(chains, lastWithDatap, k) && start <= |chains|
      requires tmp.Ok() && !tmp.immutable && tmp.Data() == Bytes(chains[..start]) && tmp.misalign + n <= |tmp.buffer|
      requires tmp.off <= n <= |Bytes(chains)| && start <= k
      ensures start <= i <= |chains| && t.Ok() && !t.immutable && t.addr == tmp.addr
      ensures t.misalign == tmp.misalign && t.misalign + n <= |t.buffer| == |tmp.buffer|
      ensures t.Data() == Bytes(chains[..i]) && t.off <= n && (i < |chains| ==> n - t.off < chains[i].off)
      ensures (removedLast <==> i > k) && (removedSlot <==> start < k <= i) && (i > k ==> t.off == n)
    {
      hide Chain.Data, Find, Bytes, Chain.Ok, Chain.Write, Wf;
      t, i := tmp, start;
      removedLast, removedSlot := false, false;
      while i < |chains| && n - t.off >= chains[i].off
        invariant start <= i <= |chains| && t.off <= n && t.Ok() && !t.immutable && t.addr == tmp.addr
        invariant t.Data() == Bytes(chains[..i]) && t.misalign == tmp.misalign
        invariant t.misalign + n <= |t.buffer| == |tmp.buffer|
        invariant removedLast <==> i > k
        invariant removedSlot <==> start < k <= i
        invariant i > k ==> t.off == n
        modifies {}
      {
        PullStep(chains, lastWithDatap, k, i);
        t := t.Write(chains[i].Data());
        if i == k {
          removedLast := true;
        }
        if lastWithDatap == NextSlot(chains[i].addr) {
          removedSlot := true;
        }
        i := i + 1;
      }
    }

    /**
     The rest of evbuffer_pullup: tmp, which holds what chunks 0..start held, grows to the first n bytes, and the list
     and its pointers are repaired.
     */
    method PullInto(tmp: Chain, start: nat, n: nat)
      requires Valid() && n <= totalLen && chains != [] && chains[0].off < n && start <= 1
      requires tmp.Ok() && !tmp.immutable && tmp.Data() == Bytes(chains[..start]) && tmp.misalign + n <= |tmp.buffer|
      requires if start == 1 then tmp.addr == chains[0].addr else tmp.addr !in Addrs(chains)
      modifies this`chains, this`last, this`lastWithDatap
      ensures Valid() && Contents() == old(Contents())
      ensures Addrs(chains) <= old(Addrs(chains)) + {tmp.addr}
      ensures chains != [] && chains[0].off == n
      ensures chains[0].misalign == tmp.misalign && |chains[0].buffer| == |tmp.buffer|
    {
      hide Chain.Data, Find, Bytes, Chain.Ok, Chain.Write, Chain.Skip, Wf;
      var k := Deref(chains, lastWithDatap);
      PullPre(chains, lastWithDatap, k, start, n);
      var t, i, removedLast, removedSlot := PullCopy(tmp, start, n, k);
      ghost var slot := lastWithDatap;
      if i < |chains| {
        PullStep(chains, slot, k, i);
        WfCut(chains, i);
        assert i > 0 && (start == 1 ==> tmp.addr in Addrs(chains[..i])) by { assert chains[0] in chains[..i]; }
        var rest := n - t.off;
        t := t.Write(chains[i].Data()[..rest]);
        LayoutPull(chains, slot, k, i, rest, t);
        chains := [t] + ([chains[i].Skip(rest)] + chains[i + 1..]);
      } else {
        assert chains[..i] == chains;
        LayoutOne(t);
        chains, last := [t], t.addr;
      }
      if removedLast {
        lastWithDatap := FirstSlot;
      } else if removedSlot {
        lastWithDatap := if |chains| > 1 && chains[1].off > 0 then NextSlot(chains[0].addr) else FirstSlot;
      }
    }

    /**
     evbuffer_pullup: makes the first `size` bytes (all of them if negative) contiguous in the first chunk, whose
     data it returns.
     */
    method Pullup(size: int, alloc: bool) returns (data: Option<seq<byte>>)
      requires Valid()
      modifies this`chains, this`last, this`lastWithDatap
      ensures Valid() && fresh(Addrs(chains) - old(Addrs(chains))) && Contents() == old(Contents())
      ensures var n := if size < 0 then totalLen else size;
              && (data.Some? ==> 0 < n <= totalLen && chains != [] && data.value == chains[0].Data()
                                 && n <= chains[0].off == |data.value| && data.value <= Contents())
              && (data.Some? && old(chains)[0].off >= n ==> unchanged(this))
              && (data.Some? && old(chains)[0].off < n ==>
                    && chains[0].off == n
                    && (old(chains)[0].Room() >= n ==> chains[0].Room() == old(chains)[0].Room())
                    && (old(chains)[0].Room() < n ==> chains[0].Room() >= MIN_BUFFER_SIZE - CHAIN_HEADER))
              && (data.None? ==> unchanged(this))
              && (data.None? <==>
                    n == 0 || n > totalLen || (RoomInFront(old(chains)) < n && !(alloc && n <= MAX_CHAIN)))
    {
      hide Chain.Data, Find, Bytes, Chain.Ok, Wf, Chain.Write, LastWithData, LastAddr, Deref;
      var n: nat := if size < 0 then totalLen else size;
      if n == 0 || n > totalLen {
        return None;
      }
      BytesNone();
      assert chains == [chains[0]] + chains[1..];
      BytesConcat([chains[0]], chains[1..]);
      BytesOne(chains[0]);
      WfAt(chains, 0);
      DataLength(chains[0]);
      if chains[0].off >= n {
        return Some(chains[0].Data());
      }
      if |chains[0].buffer| - chains[0].misalign >= n {
        assert !chains[0].immutable && chains[..1] == [chains[0]] by { ReferenceIsFull(chains[0]); }
        PullInto(chains[0], 1, n);
      } else {
        var tmp := ChainNew(n, alloc);
        if tmp.None? {
          return None;
        }
        assert chains[..0] == [] && |tmp.value.Data()| == 0;
        PullInto(tmp.value, 0, n);
      }
      WfAt(chains, 0);
      assert chains == [chains[0]] + chains[1..];
      BytesConcat([chains[0]], chains[1..]);
      BytesOne(chains[0]);
      return Some(chains[0].Data());
    }

    /** One step of the counting: an empty chunk's space moves to its start; a full one with data does not count. */
    method ScanChunk(i: nat, ghost k: nat) returns (space: nat, counts: bool)
      requires Valid() && k == Deref(chains, lastWithDatap) <= i < |chains|
      modifies this`chains
      ensures Valid() && Contents() == old(Contents()) && Addrs(chains) == old(Addrs(chains))
      ensures |chains| == old(|chains|) && Deref(chains, lastWithDatap) == k
      ensures i > k ==> chains[k] == old(chains[k])
      ensures space == chains[i].SpaceLen() == SpaceOnceMoved(old(chains)[i])
      ensures counts <==> old(chains)[i].off == 0 || space > 0
      ensures i > k ==> old(chains)[i].off == 0
      ensures SpaceOf(chains, k, i + 1 - k) == old(SpaceOf(chains, k, i - k)) + space
      ensures Still(old(chains)[i]) ==> chains == old(chains)
    {
      hide Chain.Data, Find, Bytes, Wf, LastWithData, Chain.Ok, Deref, SpaceOf, Chain.SpaceLen;
      space, counts := chains[i].SpaceLen(), true;
      WithDataInRange(chains, lastWithDatap, k);
      if chains[i].off > 0 {
        counts := space > 0;
      } else {
        var c := chains[i].(misalign := 0);
        RealignEmpty(chains, i);
        LayoutSame(chains, lastWithDatap, k, i, c);
        SpaceFrame(chains, chains[i := c], k, i - k);
        assert Still(chains[i]) ==> chains[i := c] == chains;
        chains := chains[i := c];
        space := |c.buffer|;
      }
      SpaceSnoc(chains, k, i - k);
    }

    /**
     The counting loop of evbuffer_expand_fast_: counts at most n chunks with space, from the last one with data on,
     and moves the empty ones' free space to their start.
     */
    method ExpandScan(datlen: nat, n: nat) returns (enough: bool, used: nat, avail: nat)
      requires Valid() && chains != [] && n >= 2
      modifies this`chains
      ensures Valid() && Contents() == old(Contents()) && Addrs(chains) == old(Addrs(chains))
      ensures var k := Deref(chains, lastWithDatap);
              && k < |chains| && k == old(Deref(chains, lastWithDatap))
              && (enough ==> SpaceOf(chains, FirstWithSpace(chains, k), n) >= datlen)
              && (!enough ==> avail < datlen && used <= n)
              && (!enough && used < n ==> avail == SpaceOf(chains, k, |chains| - k))
              && (!enough && used < n ==> |chains| - k <= used + FirstWithSpace(chains, k) - k)
              && (!enough && used == n ==> chains[k].SpaceLen() < datlen)
              && (datlen == 0 ==>
                    enough && |chains| == |old(chains)| && chains[k].SpaceLen() == SpaceOnceMoved(old(chains)[k]))
      ensures OneMore(old(chains), Deref(chains, lastWithDatap), datlen, n) ==>
                !enough && used < n && chains == old(chains)
    {
      hide Chain.Data, Find, Bytes, Wf, LastWithData, Chain.Ok, Deref, SpaceOf, Chain.SpaceLen;
      used, avail := 0, 0;
      var i := Deref(chains, lastWithDatap);
      SpaceNone(chains, i);
      ghost var k, m := i, |chains|;
      assert k < m by { WithDataInRange(chains, lastWithDatap, k); }
      while i < |chains|
        invariant Valid() && Contents() == old(Contents()) && Addrs(chains) == old(Addrs(chains))
        invariant k <= i <= |chains| == m && k < m && Deref(chains, lastWithDatap) == k && used < n
        invariant avail == SpaceOf(chains, k, i - k)
        invariant i > k ==> chains[k].SpaceLen() <= avail < datlen
        invariant i == k ==> chains == old(chains)
        invariant i - k == used || (i - k == used + 1 && chains[k].SpaceLen() == 0)
        invariant (forall j :: k <= j < i ==> Still(old(chains)[j])) ==> chains == old(chains)
      {
        var space, counts := ScanChunk(i, k);
        avail := avail + space;
        if counts {
          used := used + 1;
        }
        SpaceMono(chains, k, i + 1 - k, |chains| - k);
        if avail >= datlen {
          SpaceFrom(chains, k, i + 1 - k, n);
          return true, used, avail;
        }
        if used == n {
          return false, used, avail;
        }
        i := i + 1;
      }
      return false, used, avail;
    }

    /** evbuffer_expand_fast_: makes room for datlen bytes in the first n chunks with space. */
    method ExpandFast(datlen: nat, n: nat, alloc: bool) returns (res: int)
      requires Valid() && n >= 2
      modifies this`chains, this`last, this`lastWithDatap, this`totalLen
      ensures Valid() && Contents() == old(Contents()) && fresh(Addrs(chains) - old(Addrs(chains)))
      ensures res == 0 || res == -1
      ensures res == 0 ==> var k := Deref(chains, lastWithDatap);
                k < |chains| && SpaceOf(chains, FirstWithSpace(chains, k), n) >= datlen
      ensures res == -1 ==> !alloc || datlen > MAX_CHAIN
      ensures res == 0 ==> (FirstWithSpace(chains, Deref(chains, lastWithDatap)) >= |chains|
                            <==> datlen == 0 && FullAtEnd(old(chains), old(Deref(chains, lastWithDatap))))
      ensures datlen == 0 && FullAtEnd(old(chains), old(Deref(chains, lastWithDatap))) ==> res == 0
      ensures var k := Deref(old(chains), old(lastWithDatap));
              OneMore(old(chains), k, datlen, n) && res == 0 ==>
                && lastWithDatap == old(lastWithDatap) && Deref(chains, lastWithDatap) == k
                && Longer(old(chains), chains, Lack(old(chains), k, datlen))
    {
      hide Chain.Data, Find, Bytes, Chain.Ok, Wf, LastWithData, LastAddr, Deref, SpaceOf;
      if chains == [] || chains[|chains| - 1].immutable {
        res := ExpandAtEnd(datlen, n, alloc);
        return;
      }
      var enough, used, avail := ExpandScan(datlen, n);
      if enough {
        if datlen > 0 {
          SpaceInList(chains, Deref(chains, lastWithDatap), n);
        }
        return 0;
      }
      if used < n {
        res := AddEmpty(datlen - avail, n, alloc);
      } else {
        res := ReplaceEmptyChains(datlen, n, alloc);
      }
      if res == 0 {
        SpaceInList(chains, Deref(chains, lastWithDatap), n);
      }
    }

    /** The part of evbuffer_expand_fast_ for a list without a writable end. */
    method ExpandAtEnd(datlen: nat, n: nat, alloc: bool) returns (res: int)
      requires Valid() && n >= 2 && (chains == [] || chains[|chains| - 1].immutable)
      modifies this`chains, this`last, this`lastWithDatap, this`totalLen
      ensures Valid() && Contents() == old(Contents()) && fresh(Addrs(chains) - old(Addrs(chains)))
      ensures res == if alloc && datlen <= MAX_CHAIN then 0 else -1
      ensures res == 0 ==> var k := Deref(chains, lastWithDatap);
                && k < |chains| && SpaceOf(chains, FirstWithSpace(chains, k), n) >= datlen
                && FirstWithSpace(chains, k) < |chains|
    {
      hide Chain.Data, Find, Bytes, Wf, LastWithData, LastAddr, Deref, SpaceOf, FirstWithSpace;
      var c := ChainNew(datlen, alloc);
      if c.None? {
        return -1;
      }
      assert c.value.SpaceLen() >= datlen && c.value.SpaceLen() > 0;
      DataLength(c.value);
      ChainInsert(c.value);
      SpaceAtEnd(chains, lastWithDatap, Deref(chains, lastWithDatap), n);
      SpaceInList(chains, Deref(chains, lastWithDatap), n);
      return 0;
    }

    /** The part of evbuffer_expand_fast_ that adds an empty chunk. */
    method AddEmpty(room: nat, n: nat, alloc: bool) returns (res: int)
      requires Valid() && chains != [] && Deref(chains, lastWithDatap) < |chains|
      requires |chains| < n + FirstWithSpace(chains, Deref(chains, lastWithDatap))
      modifies this`chains, this`last
      ensures Valid() && Contents() == old(Contents()) && fresh(Addrs(chains) - old(Addrs(chains)))
      ensures res == if alloc && room <= MAX_CHAIN then 0 else -1
      ensures res != 0 ==> unchanged(this)
      ensures res == 0 ==> var k := Deref(chains, lastWithDatap);
                && k == old(Deref(chains, lastWithDatap)) < |chains| && Longer(old(chains), chains, room)
                && SpaceOf(chains, FirstWithSpace(chains, k), n)
                   >= SpaceOf(old(chains), k, |old(chains)| - k) + room
    {
      hide Chain.Data, Find, Bytes, Wf, LastWithData, LastAddr, Deref, SpaceOf, FirstWithSpace;
      var tmp := ChainNew(room, alloc);
      if tmp.None? {
        return -1;
      }
      var c := tmp.value;
      LayoutAddEmpty(chains, lastWithDatap, Deref(chains, lastWithDatap), c, n);
      chains, last := chains + [c], c.addr;
      return 0;
    }

    /** The part of evbuffer_expand_fast_ that replaces all empty chunks by a new one. */
    method ReplaceEmptyChains(datlen: nat, n: nat, alloc: bool) returns (res: int)
      requires Valid() && n >= 2 && chains != [] && Deref(chains, lastWithDatap) < |chains|
      requires chains[Deref(chains, lastWithDatap)].SpaceLen() < datlen
      modifies this`chains, this`last, this`lastWithDatap, this`totalLen
      ensures Valid() && Contents() == old(Contents()) && fresh(Addrs(chains) - old(Addrs(chains)))
      ensures res == 0 || res == -1
      ensures res == 0 ==> var k := Deref(chains, lastWithDatap);
                k < |chains| && SpaceOf(chains, FirstWithSpace(chains, k), n) >= datlen
      ensures res == -1 ==> !alloc || datlen > MAX_CHAIN
    {
      hide Chain.Data, Find, Bytes, Chain.Ok, Wf, LastAddr, Deref, SpaceOf, FirstWithSpace;
      var k := Deref(chains, lastWithDatap);
      var rmvAll := chains[k].off == 0;
      var avail := if rmvAll then 0 else chains[k].SpaceLen();
      TailEmpty(chains, lastWithDatap, k);
      var tmp := ChainNew(datlen - avail, alloc);
      if rmvAll {
        if tmp.None? {
          ZeroChain();
          return -1;
        }
        var c := tmp.value;
        LayoutOne(c);
        assert |c.Data()| == 0 && c.SpaceLen() >= datlen;
        chains, last, lastWithDatap := [c], c.addr, FirstSlot;
        SpaceAtEnd(chains, FirstSlot, 0, n);
        DerefSlotAt(chains, 0);
      } else {
        LayoutTrim(chains, lastWithDatap, k);
        last := chains[k].addr;
        chains := chains[..k + 1];
        if tmp.None? {
          return -1;
        }
        var c := tmp.value;
        assert c.addr !in Addrs(chains) && c.SpaceLen() >= datlen - avail;
        LayoutAddEmpty(chains, lastWithDatap, k, c, n);
        chains, last := chains + [c], c.addr;
      }
      return 0;
    }

    /**
     evbuffer_read_setup_vecs_: describes the free space, up to nVecs chunks and until there is room for howmuch.
     The asserts of the original that a first chunk exists are preconditions here.
     */
    method ReadSetupVecs(howmuch: int, nVecs: nat, exact: bool) returns (n: int, vecs: seq<Vec>)
      requires Valid() && Deref(chains, lastWithDatap) < |chains|
      requires FirstWithSpace(chains, Deref(chains, lastWithDatap)) < |chains|
      requires SpaceOf(chains, FirstWithSpace(chains, Deref(chains, lastWithDatap)), nVecs) >= howmuch
      ensures howmuch < 0 ==> n == -1
      ensures howmuch >= 0 ==> n == |vecs| <= nVecs && TotalLen(vecs) >= howmuch
      ensures howmuch >= 0 && exact ==> TotalLen(vecs) == howmuch
      ensures Describes(vecs, chains, FirstWithSpace(chains, Deref(chains, lastWithDatap)))
      ensures howmuch >= 0 ==> Spans(vecs, chains, FirstWithSpace(chains, Deref(chains, lastWithDatap)), howmuch, exact)
    {
      hide Chain.Data, Find, Bytes, Chain.Ok, Wf, LastWithData, LastAddr, Chain.SpaceLen, Spans;
      vecs := [];
      if howmuch < 0 {
        return -1, [];
      }
      var f := FirstWithSpace(chains, Deref(chains, lastWithDatap));
      assert Spans([], chains, f, howmuch, exact) by { SpansNone(chains, f, howmuch, exact); }
      var soFar := 0;
      while |vecs| < nVecs && soFar < howmuch
        invariant |vecs| <= nVecs && Describes(vecs, chains, f) && soFar == TotalLen(vecs)
        invariant Spans(vecs, chains, f, howmuch, exact)
        invariant soFar == SpaceOf(chains, f, |vecs|) || (exact && soFar == howmuch)
        invariant exact ==> soFar <= howmuch
        modifies {}
      {
        assert f + |vecs| < |chains| by {
          if f + |vecs| >= |chains| {
            SpaceMono(chains, f, nVecs, |vecs|);
          }
        }
        var chain := chains[f + |vecs|];
        SpaceSnoc(chains, f, |vecs|);
        var avail := chain.SpaceLen();
        if avail > howmuch - soFar && exact {
          avail := howmuch - soFar;
        }
        soFar := soFar + avail;
        SpansSnoc(vecs, Vec(chain.addr, chain.misalign + chain.off, avail), chains, f, howmuch, exact);
        TotalLenSnoc(vecs, Vec(chain.addr, chain.misalign + chain.off, avail));
        vecs := vecs + [Vec(chain.addr, chain.misalign + chain.off, avail)];
      }
      n := |vecs|;
    }

    /** A reservation's owner writes data to the start of chunk j's free space. */
    method FillSpace(j: nat, data: seq<byte>)
      requires Valid() && j < |chains| && |data| <= chains[j].SpaceLen()
      modifies this`chains
      ensures Valid() && Contents() == old(Contents())
      ensures chains == old(chains)[j := old(chains)[j].Fill(data)]
      ensures Deref(chains, lastWithDatap) == old(Deref(chains, lastWithDatap))
    {
      hide Chain.Data, Find, Bytes, Wf, LastWithData, LastAddr, Chain.Ok, Chain.Fill;
      WfAt(chains, j);
      LayoutSame(chains, lastWithDatap, Deref(chains, lastWithDatap), j, chains[j].Fill(data));
      chains := chains[j := chains[j].Fill(data)];
    }

    lemma ChunkOk(j: nat)
      requires Valid() && j < |chains|
      ensures chains[j].Ok()
    {
      hide Bytes, Deref, LastWithData, Chain.Ok;
      WfAt(chains, j);
    }

    lemma AddressesDiffer(j: nat)
      requires Valid() && j < |chains|
      ensures forall i :: 0 <= i < |chains| && i != j ==> chains[i].addr != chains[j].addr
    {
      hide Bytes, Deref, LastWithData, Chain.Ok;
    }

    /** Pass 1 of evbuffer_commit_space: are the vectors those of a reservation? */
    method CheckVecs(vecs: seq<Vec>, f: nat) returns (ok: bool)
      ensures ok <==> Describes(vecs, chains, f)
    {
      hide Chain.SpaceLen;
      var i := 0;
      while i < |vecs|
        invariant i <= |vecs| && (i > 0 ==> f + i <= |chains|)
        invariant forall j :: 0 <= j < i ==> AtSpace(vecs[j], chains[f + j]) && vecs[j].len <= chains[f + j].SpaceLen()
        modifies {}
      {
        if f + i >= |chains| {
          return false;
        }
        if !AtSpace(vecs[i], chains[f + i]) || vecs[i].len > chains[f + i].SpaceLen() {
          return false;
        }
        i := i + 1;
      }
      return f <= |chains|;
    }

    /** evbuffer_commit_space: the reserved memory in vecs becomes the end of the data, or nothing changes. */
    method CommitSpace(vecs: seq<Vec>) returns (res: int)
      requires Valid()
      modifies this`chains, this`lastWithDatap, this`totalLen
      ensures Valid() && Addrs(chains) == old(Addrs(chains)) && (res == 0 || res == -1)
      ensures res == -1 ==> unchanged(this)
      ensures res == 0 <==> !freezeEnd && (vecs == [] || CommitFrom(old(chains), old(lastWithDatap), vecs).Some?)
      ensures res == 0 && vecs == [] ==> Contents() == old(Contents())
      ensures res == 0 && vecs != [] ==>
                var f := CommitFrom(old(chains), old(lastWithDatap), vecs).value;
                Contents() == old(Contents()) + Reserved(vecs, old(chains), f)
    {
      hide Chain.Data, Find, Bytes, Wf, LastWithData, LastAddr, Chain.Ok, Deref;
      hide Chain.SpaceLen, Chain.Free, Chain.Commit;
      if freezeEnd {
        return -1;
      }
      if vecs == [] {
        return 0;
      }
      if |vecs| == 1 && chains != [] && AtSpace(vecs[0], chains[|chains| - 1]) {
        var j := |chains| - 1;
        if vecs[0].len > chains[j].SpaceLen() {
          return -1;
        }
        CommitLast(vecs);
        return 0;
      }
      if chains == [] {
        return -1;
      }
      WithDataInRange(chains, lastWithDatap, Deref(chains, lastWithDatap));
      var f := FirstWithSpace(chains, Deref(chains, lastWithDatap));
      var ok := CheckVecs(vecs, f);
      if !ok {
        return -1;
      }
      CommitFirst(vecs, f);
      return 0;
    }

    /** evbuffer_commit_space for a reservation in the last chunk. */
    method CommitLast(vecs: seq<Vec>)
      requires Valid() && |vecs| == 1 && chains != [] && Describes(vecs, chains, |chains| - 1)
      modifies this`chains, this`lastWithDatap, this`totalLen
      ensures Valid() && Addrs(chains) == old(Addrs(chains))
      ensures Contents() == old(Contents()) + Reserved(vecs, old(chains), |old(chains)| - 1)
    {
      hide Chain.Data, Find, Bytes, Wf, LastAddr, Chain.Ok, Deref, Chain.SpaceLen, Chain.Free, Chain.Commit;
      var j, added := |chains| - 1, vecs[0].len;
      ghost var k, more := Deref(chains, lastWithDatap), chains[j].Free()[..added];
      WfAt(chains, j);
      WithDataInRange(chains, lastWithDatap, k);
      LayoutCommit(chains, lastWithDatap, k, j, chains[j].Commit(added), more);
      assert Reserved(vecs, chains, j) == more + Reserved(vecs[1..], chains, j + 1) == more;
      chains := chains[j := chains[j].Commit(added)];
      if added > 0 {
        LayoutBefore(chains, lastWithDatap, k);
        var _ := AdvanceLastWithData();
      }
      totalLen := totalLen + added;
    }

    /** One step of pass 2: len bytes of free space of chunk j become data, `total` being the count so far. */
    method CommitOne(j: nat, len: nat, ghost total: nat)
      requires Layout(chains, last, lastWithDatap, total) && Deref(chains, lastWithDatap) <= j < |chains|
      requires len <= chains[j].SpaceLen()
      modifies this`chains, this`lastWithDatap
      ensures Layout(chains, last, lastWithDatap, total + len) && Deref(chains, lastWithDatap) <= j
      ensures Addrs(chains) == old(Addrs(chains)) && |chains| == |old(chains)|
      ensures forall i :: j < i < |chains| ==> chains[i] == old(chains)[i]
      ensures Contents() == old(Contents()) + old(chains)[j].Free()[..len]
    {
      hide Chain.Data, Find, Bytes, Wf, LastAddr, Chain.Ok, Deref, LastWithData;
      hide Chain.SpaceLen, Chain.Free, Chain.Commit;
      WfAt(chains, j);
      var k := Deref(chains, lastWithDatap);
      LayoutCommit(chains, lastWithDatap, k, j, chains[j].Commit(len), chains[j].Free()[..len]);
      if len > 0 {
        lastWithDatap := SlotAt(chains, j);
      }
      chains := chains[j := chains[j].Commit(len)];
    }

    /** Pass 2 of evbuffer_commit_space. */
    method CommitFirst(vecs: seq<Vec>, f: nat)
      requires Valid() && chains != [] && Describes(vecs, chains, f) && Deref(chains, lastWithDatap) <= f
      modifies this`chains, this`lastWithDatap, this`totalLen
      ensures Valid() && Addrs(chains) == old(Addrs(chains))
      ensures Contents() == old(Contents()) + Reserved(vecs, old(chains), f)
    {
      hide Bytes, Wf, LastAddr, Deref, Chain.SpaceLen, Chain.Free, LastWithData, Reserved, Describes, Layout;
      var i, added := 0, 0;
      ghost var done: seq<byte> := [];
      assert vecs[0..] == vecs;
      DescribesLen(vecs, chains, f);
      while i < |vecs|
        invariant i <= |vecs| && f + |vecs| <= |chains| == |old(chains)| && Describes(vecs[i..], old(chains), f + i)
        invariant Layout(chains, last, lastWithDatap, totalLen + added) && Deref(chains, lastWithDatap) <= f + i
        invariant i > 0 ==> Deref(chains, lastWithDatap) < f + i
        invariant forall j :: f + i <= j < |chains| ==> chains[j] == old(chains)[j]
        invariant Addrs(chains) == old(Addrs(chains)) && Contents() == old(Contents()) + done && |done| == added
        invariant done + Reserved(vecs[i..], old(chains), f + i) == Reserved(vecs, old(chains), f)
      {
        var j, len := f + i, vecs[i].len;
        ghost var more := ReservedStep(vecs, i, old(chains), f, old(Contents()), done);
        CommitOne(j, len, totalLen + added);
        done, added, i := done + more, added + len, i + 1;
      }
      ReservedNone(old(chains), f + i);
      totalLen := totalLen + added;
    }

    /** evbuffer_expand_singlechain: makes room for datlen bytes in one chunk; returns its position. */
    method ExpandSinglechain(datlen: nat, alloc: bool) returns (r: Option<nat>)
      requires Valid()
      modifies this`chains, this`last, this`lastWithDatap, this`totalLen
      ensures Valid() && Contents() == old(Contents()) && fresh(Addrs(chains) - old(Addrs(chains)))
      ensures r.None? ==> !alloc || datlen + MAX_TO_COPY > MAX_CHAIN
      ensures r.Some? ==> r.value < |chains| && chains[r.value].SpaceLen() >= datlen
      ensures r.Some? ==> Deref(chains, lastWithDatap) < |chains|
      ensures var f := FirstFree(old(chains), old(Deref(chains, lastWithDatap)));
              if UsesNext(old(chains), f, datlen) then r == Some(f + 1) && unchanged(this)
              else r.Some? ==>
                     r.value == |chains| - 1 || r.value == FirstWithSpace(chains, Deref(chains, lastWithDatap))
    {
      hide Chain.Data, Find, Bytes, Chain.Ok, Wf, LastWithData, LastAddr, Deref;
      var k := Deref(chains, lastWithDatap);
      if chains == [] {
        r := InsertNew(datlen, alloc);
        return;
      }
      WithDataInRange(chains, lastWithDatap, k);
      var f := FirstWithSpace(chains, k);
      if f == |chains| || chains[f].immutable {
        r := InsertNew(datlen, alloc);
        return;
      }
      var chain := chains[f];
      if chain.SpaceLen() >= datlen {
        return Some(f);
      }
      if chain.off == 0 {
        r := InsertNew(datlen, alloc);
        return;
      }
      WfAt(chains, f);
      assert f == k && chain.off <= |chain.buffer| by { OnlyLastHasData(chains, lastWithDatap, k, f); }
      if chain.ShouldRealign(datlen) {
        LayoutSame(chains, lastWithDatap, k, k, chain.Align());
        chains := chains[k := chain.Align()];
        return Some(k);
      }
      if chain.SpaceLen() < |chain.buffer| / 8 || chain.off > MAX_TO_COPY || datlen >= CHAIN_MAX - chain.off {
        if f + 1 < |chains| && chains[f + 1].SpaceLen() >= datlen {
          return Some(f + 1);
        }
        r := InsertNew(datlen, alloc);
      } else {
        r := Resize(k, datlen, alloc);
      }
    }

    /** evbuffer_chain_insert_new */
    method InsertNew(datlen: nat, alloc: bool) returns (r: Option<nat>)
      requires Valid()
      modifies this`chains, this`last, this`lastWithDatap, this`totalLen
      ensures Valid() && Contents() == old(Contents()) && fresh(Addrs(chains) - old(Addrs(chains)))
      ensures r.None? <==> !alloc || datlen > MAX_CHAIN
      ensures r.None? ==> unchanged(this)
      ensures r.Some? ==> chains != [] && r.value == |chains| - 1 && chains[r.value].SpaceLen() >= datlen
      ensures r.Some? ==> Deref(chains, lastWithDatap) < |chains|
    {
      hide Chain.Data, Find, Bytes, Chain.Ok, Wf, LastWithData, LastAddr, Deref;
      var c := ChainNew(datlen, alloc);
      if c.None? {
        return None;
      }
      assert c.value.addr !in Addrs(chains) && |c.value.Data()| == 0 && c.value.SpaceLen() >= datlen;
      ChainInsert(c.value);
      WithDataInRange(chains, lastWithDatap, Deref(chains, lastWithDatap));
      return Some(|chains| - 1);
    }

    /** The part of evbuffer_expand_singlechain that copies chunk k into a larger one in its place. */
    method Resize(k: nat, datlen: nat, alloc: bool) returns (r: Option<nat>)
      requires Valid() && k == Deref(chains, lastWithDatap) < |chains| && datlen > 0
      requires chains[k].off <= MAX_TO_COPY && datlen < CHAIN_MAX - chains[k].off
      modifies this`chains, this`last
      ensures Valid() && Contents() == old(Contents()) && fresh(Addrs(chains) - old(Addrs(chains)))
      ensures r.None? ==> unchanged(this) && (!alloc || datlen + MAX_TO_COPY > MAX_CHAIN)
      ensures r.Some? ==> r.value == k == Deref(chains, lastWithDatap) < |chains| && chains[k].SpaceLen() >= datlen
    {
      hide Chain.Data, Find, Bytes, Chain.Ok, Wf, LastWithData, Deref, Chain.Write;
      var chain := chains[k];
      WfAt(chains, k);
      var tmp := ChainNew(chain.off + datlen, alloc);
      if tmp.None? {
        return None;
      }
      var c := tmp.value;
      assert |c.Data()| == 0 && c.SpaceLen() == |c.buffer|;
      c := c.Write(chain.Data());
      assert c.off == chain.off && c.SpaceLen() >= datlen by { DataLength(c); DataLength(chain); }
      LayoutReplace(chains, lastWithDatap, k, c);
      AddressesDiffer(k);
      chains := chains[k := c];
      if last == chain.addr {
        last := c.addr;
      }
      return Some(k);
    }

    /**
     evbuffer_reserve_space.  No result stands for a failing assert of the original: nothing was asked for, in more than
     one vector, and the last chunk is full.
     */
    method ReserveSpace(size: int, nVecs: int, alloc: bool) returns (n: Option<int>, vecs: seq<Vec>)
      requires Valid() && 0 <= size + SSIZE_MAX + 1 && size <= SSIZE_MAX
      modifies this`chains, this`last, this`lastWithDatap, this`totalLen
      ensures Valid() && Contents() == old(Contents()) && fresh(Addrs(chains) - old(Addrs(chains)))
      ensures n.None? <==>
                !freezeEnd && nVecs > 1 && size == 0 && FullAtEnd(old(chains), old(Deref(chains, lastWithDatap)))
      ensures n == Some(-1) ==> freezeEnd || nVecs < 1 || !alloc || size < 0 || size + MAX_TO_COPY > MAX_CHAIN
      ensures freezeEnd || nVecs < 1 || size < 0 ==> n == Some(-1)
      ensures n.Some? && n != Some(-1) ==>
                n.value == |vecs| <= nVecs && TotalLen(vecs) >= size && Deref(chains, lastWithDatap) < |chains|
      ensures n.Some? && n != Some(-1) && nVecs > 1 ==>
                && Describes(vecs, chains, FirstWithSpace(chains, Deref(chains, lastWithDatap)))
                && Spans(vecs, chains, FirstWithSpace(chains, Deref(chains, lastWithDatap)), size, false)
      ensures n.Some? && n != Some(-1) && nVecs == 1 ==>
                && |vecs| == 1
                && var f := FirstFree(old(chains), old(Deref(chains, lastWithDatap)));
                   if UsesNext(old(chains), f, size) then unchanged(this) && Whole(vecs[0], chains, f + 1)
                   else Whole(vecs[0], chains, |chains| - 1)
                        || Whole(vecs[0], chains, FirstWithSpace(chains, Deref(chains, lastWithDatap)))
      ensures var k := Deref(old(chains), old(lastWithDatap));
              n.Some? && n != Some(-1) && nVecs > 1 && size >= 0 && OneMore(old(chains), k, size, nVecs) ==>
                && lastWithDatap == old(lastWithDatap) && Deref(chains, lastWithDatap) == k
                && Longer(old(chains), chains, Lack(old(chains), k, size))
    {
      hide Chain.Data, Find, Bytes, Chain.Ok, Wf, LastWithData, LastAddr, Deref, SpaceOf, FullAtEnd;
      hide Chain.SpaceLen, UsesNext, OneMore, Longer, Lack;
      if freezeEnd || nVecs < 1 {
        return Some(-1), [];
      }
      var datlen := if size < 0 then SIZE_MAX + 1 + size else size;
      if nVecs == 1 {
        var r := ExpandSinglechain(datlen, alloc);
        if r.None? {
          return Some(-1), [];
        }
        var chain := chains[r.value];
        ChunkOk(r.value);
        SpaceBound(chain);
        n, vecs := Some(1), [Vec(chain.addr, chain.misalign + chain.off, chain.SpaceLen())];
        return;
      }
      var res := ExpandFast(datlen, nVecs, alloc);
      if res < 0 {
        return Some(-1), [];
      }
      if FirstWithSpace(chains, Deref(chains, lastWithDatap)) >= |chains| {
        return None, [];
      }
      var m;
      m, vecs := ReadSetupVecs(size, nVecs, false);
      n := Some(m);
    }
  }

  /** The first of the chunks that evbuffer_commit_space takes vecs to be in, when they are a reservation there. */
  ghost function CommitFrom(cs: seq<Chain>, s: Slot, vecs: seq<Vec>): (f: Option<nat>)
    ensures f.Some? ==> Describes(vecs, cs, f.value)
  {
    if |vecs| == 1 && cs != [] && AtSpace(vecs[0], cs[|cs| - 1]) then
      if vecs[0].len > cs[|cs| - 1].SpaceLen() then None else Some(|cs| - 1)
    else if Deref(cs, s) < |cs| && Describes(vecs, cs, FirstWithSpace(cs, Deref(cs, s))) then
      Some(FirstWithSpace(cs, Deref(cs, s)))
    else None
  }

  /** One vector reserved in chunk r is committed just when that is the last chunk, or the first one with space. */
  lemma {:induction false} SingleCommits(cs: seq<Chain>, s: Slot, r: nat, v: Vec)
    requires Wf(cs) && Deref(cs, s) < |cs| && r < |cs| && AtSpace(v, cs[r]) && v.len <= cs[r].SpaceLen()
    ensures CommitFrom(cs, s, [v]).Some? <==> r == |cs| - 1 || r == FirstWithSpace(cs, Deref(cs, s))
  {
    hide Deref, Chain.SpaceLen, Chain.Ok;
    var f := FirstWithSpace(cs, Deref(cs, s));
    assert [v][0] == v;
    assert Describes([v], cs, f) <==> f < |cs| && AtSpace(v, cs[f]) && v.len <= cs[f].SpaceLen();
  }

  /** Reserved memory depends on the chunks it is in only. */
  lemma {:induction false} ReservedFrame(vecs: seq<Vec>, cs: seq<Chain>, ds: seq<Chain>, f: nat)
    requires Describes(vecs, cs, f) && Describes(vecs, ds, f)
    requires forall j :: f <= j < f + |vecs| ==> cs[j] == ds[j]
    ensures Reserved(vecs, cs, f) == Reserved(vecs, ds, f)
    decreases |vecs|
  {
    hide Chain.SpaceLen, Chain.Free;
    if vecs != [] {
      ReservedFrame(vecs[1..], cs, ds, f + 1);
    }
  }

  lemma {:induction false} ReservedSnoc(vecs: seq<Vec>, j: nat, cs: seq<Chain>, f: nat)
    requires Describes(vecs, cs, f) && j < |vecs|
    ensures Reserved(vecs[..j + 1], cs, f) == Reserved(vecs[..j], cs, f) + cs[f + j].Free()[..vecs[j].len]
    decreases j
  {
    hide Chain.SpaceLen, Chain.Free;
    assert vecs[..j + 1][1..] == vecs[1..][..j];
    if j > 0 {
      assert vecs[..j][1..] == vecs[1..][..j - 1];
      ReservedSnoc(vecs[1..], j - 1, cs, f + 1);
      var a, b := cs[f].Free()[..vecs[0].len], Reserved(vecs[1..][..j - 1], cs, f + 1);
      var c := cs[f + j].Free()[..vecs[j].len];
      assert a + (b + c) == (a + b) + c;
    } else {
      assert vecs[..1][1..] == [] && vecs[..0] == [];
    }
  }

  /** Filling chunk f + j's vector keeps the reservation, and the memory of the vectors before it. */
  lemma {:induction false} ReservedFill(vecs: seq<Vec>, j: nat, cs: seq<Chain>, f: nat, data: seq<byte>)
    requires Describes(vecs, cs, f) && j < |vecs| && |data| == vecs[j].len && cs[f + j].Ok()
    ensures var ds := cs[f + j := cs[f + j].Fill(data)];
            Describes(vecs, ds, f) && Reserved(vecs[..j + 1], ds, f) == Reserved(vecs[..j], cs, f) + data
  {
    hide Chain.SpaceLen, Chain.Free, Chain.Fill, Chain.Ok, Reserved;
    var ds := cs[f + j := cs[f + j].Fill(data)];
    assert Describes(vecs, ds, f);
    ReservedSnoc(vecs, j, ds, f);
    ReservedFrame(vecs[..j], cs, ds, f);
  }

  ghost predicate SameShape(cs: seq<Chain>, ds: seq<Chain>) {
    |cs| == |ds| && forall j :: 0 <= j < |cs| ==> ds[j].addr == cs[j].addr && ds[j].SpaceLen() == cs[j].SpaceLen()
  }

  method FillOne(b: Buffer, vecs: seq<Vec>, j: nat, f: nat, data: seq<byte>)
    requires b.Valid() && Describes(vecs, b.chains, f) && j < |vecs| && |data| == vecs[j].len
    modifies b`chains
    ensures b.Valid() && b.Contents() == old(b.Contents())
    ensures Describes(vecs, b.chains, f)
    ensures Reserved(vecs[..j + 1], b.chains, f) == old(Reserved(vecs[..j], b.chains, f)) + data
    ensures Deref(b.chains, b.lastWithDatap) == old(Deref(b.chains, b.lastWithDatap))
    ensures SameShape(old(b.chains), b.chains)
  {
    hide Bytes, Wf, LastAddr, Deref, Chain.SpaceLen, Chain.Free, Chain.Fill, LastWithData, Reserved, Layout, Find;
    b.ChunkOk(f + j);
    ReservedFill(vecs, j, b.chains, f, data);
    b.FillSpace(f + j, data);
  }

  /** The owner of a reservation writes payload into it. */
  method FillAll(b: Buffer, vecs: seq<Vec>, f: nat, payload: seq<byte>)
    requires b.Valid() && Describes(vecs, b.chains, f) && TotalLen(vecs) == |payload|
    modifies b`chains
    ensures b.Valid() && b.Contents() == old(b.Contents())
    ensures Describes(vecs, b.chains, f) && Reserved(vecs, b.chains, f) == payload
    ensures Deref(b.chains, b.lastWithDatap) == old(Deref(b.chains, b.lastWithDatap))
    ensures SameShape(old(b.chains), b.chains)
  {
    hide Bytes, Wf, LastAddr, Deref, Chain.SpaceLen, Chain.Free, Chain.Fill, LastWithData, Reserved, Layout, Find;
    var j, at := 0, 0;
    TotalLenFrom(vecs, 0);
    ReservedNone(b.chains, f);
    assert vecs[..0] == [] && payload[..0] == [];
    while j < |vecs|
      invariant b.Valid() && b.Contents() == old(b.Contents())
      invariant j <= |vecs| && Describes(vecs, b.chains, f) && at >= 0 && at + TotalLen(vecs[j..]) == |payload|
      invariant Reserved(vecs[..j], b.chains, f) == payload[..at]
      invariant Deref(b.chains, b.lastWithDatap) == old(Deref(b.chains, b.lastWithDatap))
      invariant SameShape(old(b.chains), b.chains)
    {
      TotalLenFrom(vecs, j);
      var data := payload[at..at + vecs[j].len];
      assert payload[..at] + data == payload[..at + vecs[j].len];
      FillOne(b, vecs, j, f, data);
      j, at := j + 1, at + vecs[j].len;
    }
    TotalLenFrom(vecs, |vecs|);
    assert vecs[..|vecs|] == vecs && payload[..|payload|] == payload;
  }

  /**
   What evbuffer_read does with the bytes it gets, and the owner of a reservation: make room, describe exactly the room
   for payload, write all of it into the vectors, commit.  It appends payload, or fails for want of memory and changes
   no byte.
   */
  method AppendByReserving(b: Buffer, payload: seq<byte>, n: nat, alloc: bool) returns (res: int)
    requires b.Valid() && n >= 2 && payload != [] && !b.freezeEnd
    modifies b`chains, b`last, b`lastWithDatap, b`totalLen
    ensures b.Valid() && b.Contents() == old(b.Contents()) + if res == 0 then payload else []
    ensures alloc && |payload| <= MAX_CHAIN ==> res == 0
    ensures res == 0 || res == -1
  {
    hide Bytes, Wf, LastAddr, Deref, Chain.SpaceLen, Chain.Free, Chain.Fill, LastWithData, Reserved, Layout, Find;
    res := b.ExpandFast(|payload|, n, alloc);
    if res != 0 {
      return -1;
    }
    var f := FirstWithSpace(b.chains, Deref(b.chains, b.lastWithDatap));
    assert f < |b.chains|;
    var _, vecs := b.ReadSetupVecs(|payload|, n, true);
    FillAll(b, vecs, f, payload);
    assert vecs != [];
    assert FirstWithSpace(b.chains, Deref(b.chains, b.lastWithDatap)) == f;
    b.AddressesDiffer(f);
    assert CommitFrom(b.chains, b.lastWithDatap, vecs) == Some(f);
    res := b.CommitSpace(vecs);
  }

  lemma {:induction false} TotalLenFrom(vecs: seq<Vec>, j: nat)
    requires j <= |vecs|
    ensures TotalLen(vecs[j..]) == if j == |vecs| then 0 else vecs[j].len + TotalLen(vecs[j + 1..])
    ensures vecs[0..] == vecs
  {
    if j < |vecs| {
      assert vecs[j..][1..] == vecs[j + 1..];
    }
  }

  lemma {:induction false} ReservedNone(cs: seq<Chain>, f: nat)
    requires f <= |cs|
    ensures Reserved([], cs, f) == []
  {
  }

  lemma {:induction false} DescribesLen(vecs: seq<Vec>, cs: seq<Chain>, f: nat)
    requires Describes(vecs, cs, f)
    ensures f + |vecs| <= |cs|
  {
  }

  /** The part of the reserved memory that vector i adds. */
  lemma {:induction false} ReservedStep(
    vecs: seq<Vec>, i: nat, cs: seq<Chain>, f: nat, was: seq<byte>, done: seq<byte>) returns (more: seq<byte>)
    requires Describes(vecs, cs, f) && i < |vecs|
    ensures f + i < |cs| && |more| == vecs[i].len <= cs[f + i].SpaceLen() && more == cs[f + i].Free()[..vecs[i].len]
    ensures Describes(vecs[i..], cs, f + i) && Describes(vecs[i + 1..], cs, f + i + 1)
    ensures (done + more) + Reserved(vecs[i + 1..], cs, f + i + 1) == done + Reserved(vecs[i..], cs, f + i)
    ensures (was + done) + more == was + (done + more)
  {
    hide Chain.SpaceLen, Chain.Free;
    more := cs[f + i].Free()[..vecs[i].len];
    assert vecs[i..][1..] == vecs[i + 1..];
  }

  lemma {:induction false} TotalLenSnoc(vecs: seq<Vec>, v: Vec)
    ensures TotalLen(vecs + [v]) == TotalLen(vecs) + v.len
  {
    if vecs == [] {
      assert vecs + [v] == [v] && [v][1..] == [];
    } else {
      TotalLenSnoc(vecs[1..], v);
      assert (vecs + [v])[1..] == vecs[1..] + [v];
    }
  }

  /** One byte of room in front: a prepend of two bytes without memory fails, and one of them stays. */
  method FailedPrependExample() returns (b: Buffer, res: int)
    ensures res == -1 && b.Contents() == [8, 9]
  {
    b := new Buffer();
    var _ := b.Add([0, 9], true);
    assert WholeChunks(b.chains, 1) == 0 && WholeCount(b.chains, 1) == 0;
    var _ := b.Drain(1);
    assert b.chains[0].FrontRoom() == 1;
    res := b.Prepend([7, 8], false);
  }

  /** One byte of two is to be copied, without memory: it is gone from the source, and does not arrive. */
  method LostByteExample() returns (src: Buffer, dst: Buffer, res: int)
    ensures res == 1 && src.Contents() == [2] && dst.Contents() == []
  {
    src := new Buffer();
    var _ := src.Add([1, 2], true);
    dst := new Buffer();
    assert WholeChunks(src.chains, 1) == 0;
    res := src.RemoveBuffer(dst, 1, false);
  }

  /** A move of 2^32 - 1 bytes reports failure after all of them have gone. */
  method NegativeResultExample() returns (src: Buffer, dst: Buffer, res: int)
    ensures res == -1 && src.Contents() == [] && |dst.Contents()| == 0xFFFF_FFFF
  {
    var memory := seq(0xFFFF_FFFF, _ => 0);
    src := new Buffer();
    var _ := src.AddReference(memory, true);
    dst := new Buffer();
    res := src.RemoveBuffer(dst, |memory|, false);
  }

  /** Reserving nothing in two vectors trips the assert when the only chunk is full. */
  method ReserveNothingExample() returns (b: Buffer, n: Option<int>)
    ensures n.None?
  {
    b := new Buffer();
    var _ := b.Add(seq(976, _ => 7), true);
    MemoryExamples();
    EmptyList(b.chains, b.last, b.lastWithDatap, b.totalLen);
    WithDataInRange(b.chains, b.lastWithDatap, Deref(b.chains, b.lastWithDatap));
    var vecs;
    n, vecs := b.ReserveSpace(0, 2, true);
  }

  /**
   972 of 976 bytes, and two empty chunks: what is left when more room than that was reserved twice, in more vectors
   each time, and nothing was committed.
   */
  predicate NearlyFull(cs: seq<Chain>) {
    && |cs| == 3 && cs[0].addr != cs[1].addr && cs[1].addr != cs[2].addr
    && |cs[0].buffer| == MemoryFor(972) == 976 && cs[0].off == 972 && cs[0].misalign == 0 && !cs[0].immutable
    && |cs[1].buffer| == MemoryFor(996) == 2000 && cs[1].off == 0 && cs[1].misalign == 0 && !cs[1].immutable
    && |cs[2].buffer| == MemoryFor(996) && cs[2].off == 0 && cs[2].misalign == 0 && !cs[2].immutable
  }

  method NearlyFullBuffer() returns (b: Buffer)
    ensures fresh(b) && b.Valid() && !b.freezeEnd && NearlyFull(b.chains) && Deref(b.chains, b.lastWithDatap) == 0
  {
    b := new Buffer();
    MemoryExamples();
    hide MemoryFor, Layout, Bytes, OneMore, Lack, NearlyFull, Deref;
    var _ := b.Add(seq(972, _ => 7), true);
    OnlyChunk(b);
    LacksRoom(b.chains);
    var n, vecs := b.ReserveSpace(1000, 2, true);
    LacksRoom(b.chains);
    n, vecs := b.ReserveSpace(3000, 3, true);
    NearlyFullNow(b);
  }

  /** With 4 bytes of room, and maybe 2000 more, 996 bytes are missing for 1000 and for 3000 bytes. */
  lemma {:induction false} LacksRoom(cs: seq<Chain>)
    requires |cs| in {1, 2} && forall i :: 0 <= i < |cs| ==> !cs[i].immutable && cs[i].misalign == 0
    requires |cs[0].buffer| == 976 && cs[0].off == 972
    requires |cs| == 2 ==> |cs[1].buffer| == 2000 && cs[1].off == 0
    ensures |cs| == 1 ==> OneMore(cs, 0, 1000, 2) && Lack(cs, 0, 1000) == 996
    ensures |cs| == 2 ==> OneMore(cs, 0, 3000, 3) && Lack(cs, 0, 3000) == 996
  {
    SpaceNone(cs, 0);
    SpaceSnoc(cs, 0, 0);
    if |cs| == 2 {
      SpaceSnoc(cs, 0, 1);
    }
  }

  lemma {:induction false} OnlyChunk(b: Buffer)
    requires b.Valid() && |b.chains| == 1
    ensures Deref(b.chains, b.lastWithDatap) == 0
  {
    hide Bytes;
  }

  lemma {:induction false} NearlyFullNow(b: Buffer)
    requires b.Valid() && |b.chains| == 3 && var cs := b.chains;
                forall i :: 0 <= i < 3 ==> !cs[i].immutable && cs[i].misalign == 0
    requires |b.chains[0].buffer| == 976 && b.chains[0].off == 972
    requires |b.chains[1].buffer| == |b.chains[2].buffer| == 2000 && b.chains[1].off == b.chains[2].off == 0
    ensures NearlyFull(b.chains)
  {
    hide MemoryFor, Bytes, LastWithData, Deref;
    MemoryExamples();
  }

  lemma {:induction false} NearlyFullUses(cs: seq<Chain>, s: Slot, v: Vec)
    requires NearlyFull(cs) && Deref(cs, s) == 0
    ensures FirstFree(cs, 0) == 0 && UsesNext(cs, 0, 5)
    ensures AtSpace(v, cs[1]) ==> CommitFrom(cs, s, [v]) == None
  {
    hide MemoryFor;
  }

  /**
   One vector is reserved in the middle chunk, and cannot be committed, because evbuffer_commit_space looks at the last
   chunk and at the first one with space only.
   */
  method StrayVectorExample() returns (b: Buffer, n: Option<int>, v: Vec, res: int)
    ensures n == Some(1) && v.len == 2000 && res == -1
  {
    b := NearlyFullBuffer();
    hide Bytes, Layout, Deref, CommitFrom, UsesNext, FirstFree, Chain.Data, Describes, MemoryFor;
    var vecs;
    NearlyFullUses(b.chains, b.lastWithDatap, Vec(b.chains[1].addr, 0, 5));
    n, vecs := b.ReserveSpace(5, 1, true);
    v := vecs[0];
    NearlyFullUses(b.chains, b.lastWithDatap, v.(len := 5));
    res := b.CommitSpace([v.(len := 5)]);
  }
}
