/** The chunks of a buffer (struct evbuffer_chain) and lists of them, in `next` order. */
module Chains {
  import opened Common

  const CHAIN_MAX: nat := SSIZE_MAX
  const CHAIN_HEADER: nat := 48
  const MAX_CHAIN: nat := CHAIN_MAX - CHAIN_HEADER
  const MIN_BUFFER_SIZE: nat := 1024
  const MAX_TO_REALIGN: nat := 2048
  const MAX_TO_COPY: nat := 4096

  /** Where a chunk lives.  Two chunks are the same node exactly when their addresses are equal. */
  class Address {
    constructor () {}
  }

  /** One chunk.  The bytes it holds are buffer[misalign..misalign + off]. */
  datatype Chain = Chain(addr: Address, buffer: seq<byte>, misalign: nat, off: nat, immutable: bool) {

    /** A reference chunk is full up to its end, and is only empty when its memory is. */
    ghost predicate Ok() {
      && misalign + off <= |buffer| <= MAX_CHAIN
      && (immutable ==> misalign + off == |buffer| && (off == 0 ==> buffer == []))
    }

    function Data(): (d: seq<byte>)
      ensures Ok() ==> |d| == off
    {
      if misalign + off <= |buffer| then buffer[misalign..misalign + off] else []
    }

    /** The memory from the start of the data on. */
    function Room(): (n: int) {
      |buffer| - misalign
    }

    /** CHAIN_SPACE_LEN */
    function SpaceLen(): (n: nat) {
      if immutable || misalign + off > |buffer| then 0 else |buffer| - (misalign + off)
    }

    /** memcpy of `data` to the free space, and its length added to off. */
    function Write(data: seq<byte>): (c: Chain)
      requires Ok() && |data| <= SpaceLen()
      ensures c.Ok() && c.addr == addr && c.Data() == Data() + data && |c.buffer| == |buffer|
      ensures c.SpaceLen() == SpaceLen() - |data| && c.immutable == immutable && c.misalign == misalign
    {
      this.(buffer := buffer[..misalign + off] + data + buffer[misalign + off + |data|..], off := off + |data|)
    }

    /** The room in front of the data; an empty chunk has all its memory there. */
    function FrontRoom(): (n: nat) {
      if immutable then 0 else if off == 0 then |buffer| else misalign
    }

    /** memcpy of `data` to just before the data. */
    function WriteFront(data: seq<byte>): (c: Chain)
      requires Ok() && |data| <= FrontRoom() && |data| > 0
      ensures c.Ok() && c.addr == addr && c.Data() == data + Data() && !c.immutable
    {
      var m := FrontRoom();
      FrontWritten(this, m, data);
      this.(buffer := buffer[..m - |data|] + data + buffer[m..], misalign := m - |data|, off := off + |data|)
    }

    /** evbuffer_chain_align */
    function Align(): (c: Chain)
      requires Ok() && !immutable
      ensures c.Ok() && c.addr == addr && c.Data() == Data() && |c.buffer| == |buffer|
      ensures c.SpaceLen() == |buffer| - off && !c.immutable
    {
      this.(buffer := buffer[misalign..misalign + off] + buffer[off..], misalign := 0)
    }

    /** evbuffer_chain_should_realign */
    predicate ShouldRealign(datalen: nat)
      requires off <= |buffer|
    {
      |buffer| - off >= datalen && off < |buffer| / 2 && off <= MAX_TO_REALIGN
    }

    /** off += n: the first n bytes of the free space become data. */
    function Commit(n: nat): (c: Chain)
      requires Ok() && n <= SpaceLen()
      ensures c.Ok() && c.addr == addr && c.Data() == Data() + Free()[..n] && c.buffer == buffer
    {
      this.(off := off + n)
    }

    /** The memory after the data. */
    function Free(): (d: seq<byte>)
      ensures |d| == SpaceLen()
    {
      if immutable || misalign + off > |buffer| then [] else buffer[misalign + off..]
    }

    /** Memory written by the owner of a reservation, from the start of the free space. */
    function Fill(data: seq<byte>): (c: Chain)
      requires Ok() && |data| <= SpaceLen()
      ensures c.Ok() && c.addr == addr && c.Data() == Data() && c.off == off && c.misalign == misalign
      ensures c.SpaceLen() == SpaceLen() && c.Free()[..|data|] == data && c.immutable == immutable
    {
      this.(buffer := buffer[..misalign + off] + data + buffer[misalign + off + |data|..])
    }

    /** Forgets the first n bytes. */
    function Skip(n: nat): (c: Chain)
      requires Ok() && n < off
      ensures c.Ok() && c.addr == addr && c.Data() == Data()[n..] && c.off > 0
      ensures c.SpaceLen() == SpaceLen()
    {
      this.(misalign := misalign + n, off := off - n)
    }
  }

  lemma {:induction false} FrontOverwritten(buffer: seq<byte>, m: nat, data: seq<byte>, n: nat)
    requires |data| <= m && m + n <= |buffer|
    ensures var b := buffer[..m - |data|] + data + buffer[m..];
            |b| == |buffer| && b[m - |data|..m + n] == data + buffer[m..m + n]
  {
    var b := buffer[..m - |data|] + data + buffer[m..];
    assert b[m - |data|..m] == data && b[m..m + n] == buffer[m..m + n];
    assert b[m - |data|..m + n] == b[m - |data|..m] + b[m..m + n];
  }

  /** data put just before offset m, which is where c's data is, if it has any. */
  lemma {:induction false} FrontWritten(c: Chain, m: nat, data: seq<byte>)
    requires c.Ok() && !c.immutable && |data| <= m <= |c.buffer| && (c.off == 0 || m == c.misalign)
    ensures var b := c.buffer[..m - |data|] + data + c.buffer[m..];
            var d := c.(buffer := b, misalign := m - |data|, off := c.off + |data|);
            d.Ok() && d.Data() == data + c.Data()
  {
    var b := c.buffer[..m - |data|] + data + c.buffer[m..];
    FrontOverwritten(c.buffer, m, data, c.off);
    assert m - |data| + (c.off + |data|) == m + c.off;
    if c.off == 0 {
      assert c.buffer[m..m] == [] == c.Data();
    }
  }

  /** The address of a `next` pointer: the buffer's own `first`, or the `next` of some chunk. */
  datatype Slot = FirstSlot | NextSlot(owner: Address)

  ghost predicate Wf(cs: seq<Chain>) {
    && (forall i :: 0 <= i < |cs| ==> cs[i].Ok())
    && (forall i, j :: 0 <= i < j < |cs| ==> cs[i].addr != cs[j].addr)
  }

  ghost function Addrs(cs: seq<Chain>): set<Address> {
    set c <- cs :: c.addr
  }

  function SlotAt(cs: seq<Chain>, k: nat): (s: Slot)
    requires k <= |cs|
  {
    if k == 0 then FirstSlot else NextSlot(cs[k - 1].addr)
  }

  /** The position of the chunk at address a. */
  function Find(cs: seq<Chain>, a: Address): (k: nat)
    ensures k <= |cs| && (k < |cs| ==> cs[k].addr == a)
    ensures forall i :: 0 <= i < k ==> cs[i].addr != a
  {
    if cs == [] || cs[0].addr == a then 0 else 1 + Find(cs[1..], a)
  }

  /** The position of the chunk that slot s points at: |cs| when s holds the null at the end. */
  function Deref(cs: seq<Chain>, s: Slot): (k: nat) {
    if s.FirstSlot? then 0 else Find(cs, s.owner) + 1
  }

  lemma {:induction false} DerefSlotAt(cs: seq<Chain>, k: nat)
    requires Wf(cs) && k <= |cs|
    ensures Deref(cs, SlotAt(cs, k)) == k
  {
  }

  lemma {:induction false} WfConcat(a: seq<Chain>, b: seq<Chain>)
    requires Wf(a) && Wf(b) && Addrs(a) !! Addrs(b)
    ensures Wf(a + b) && Addrs(a + b) == Addrs(a) + Addrs(b)
  {
    hide Chain.Ok;
    var c := a + b;
    forall i, j | 0 <= i < j < |c| ensures c[i].addr != c[j].addr {
      if i < |a| <= j {
        assert a[i].addr in Addrs(a) && b[j - |a|].addr in Addrs(b);
      }
    }
    forall x: Address ensures x in Addrs(c) <==> x in Addrs(a) + Addrs(b) {
      if x in Addrs(a) {
        var i :| 0 <= i < |a| && a[i].addr == x;
        assert c[i].addr == x;
      } else if x in Addrs(b) {
        var i :| 0 <= i < |b| && b[i].addr == x;
        assert c[|a| + i].addr == x;
      }
    }
  }

  lemma {:induction false} WfOne(c: Chain)
    requires c.Ok()
    ensures Wf([c]) && Addrs([c]) == {c.addr}
  {
    hide Chain.Ok;
    assert c in [c];
  }

  lemma {:induction false} WfAt(cs: seq<Chain>, k: nat)
    requires Wf(cs) && k < |cs|
    ensures cs[k].Ok() && |cs[k].Data()| == cs[k].off && cs[k].addr in Addrs(cs)
  {
    hide Chain.Data, Chain.Ok;
  }

  lemma {:induction false} WfCut(cs: seq<Chain>, k: nat)
    requires Wf(cs) && k <= |cs|
    ensures Wf(cs[..k]) && Wf(cs[k..]) && Addrs(cs[..k]) !! Addrs(cs[k..])
    ensures Addrs(cs) == Addrs(cs[..k]) + Addrs(cs[k..])
  {
    hide Chain.Ok;
    assert cs == cs[..k] + cs[k..];
  }

  lemma {:induction false} WfUpdate(cs: seq<Chain>, k: nat, c: Chain)
    requires Wf(cs) && k < |cs| && c.Ok() && c.addr == cs[k].addr
    ensures Wf(cs[k := c]) && Addrs(cs[k := c]) == Addrs(cs)
  {
    hide Chain.Ok;
    var ds := cs[k := c];
    forall x: Address ensures x in Addrs(ds) <==> x in Addrs(cs) {
      if x in Addrs(cs) {
        var i :| 0 <= i < |cs| && cs[i].addr == x;
        assert ds[i].addr == x;
      }
    }
  }

  ghost function Bytes(cs: seq<Chain>): (r: seq<byte>) {
    if cs == [] then [] else cs[0].Data() + Bytes(cs[1..])
  }

  lemma {:induction false} Associative(a: seq<byte>, b: seq<byte>, c: seq<byte>)
    ensures a + (b + c) == (a + b) + c
  {
  }

  lemma {:induction false} BytesConcat(a: seq<Chain>, b: seq<Chain>)
    ensures Bytes(a + b) == Bytes(a) + Bytes(b)
  {
    hide Chain.Data;
    if a == [] {
      assert a + b == b;
    } else {
      BytesConcat(a[1..], b);
      assert (a + b)[0] == a[0] && (a + b)[1..] == a[1..] + b;
      Associative(a[0].Data(), Bytes(a[1..]), Bytes(b));
    }
  }

  lemma {:induction false} BytesCut(cs: seq<Chain>, k: nat)
    requires k <= |cs|
    ensures Bytes(cs) == Bytes(cs[..k]) + Bytes(cs[k..])
  {
    hide Chain.Data;
    BytesConcat(cs[..k], cs[k..]);
    assert cs == cs[..k] + cs[k..];
  }

  lemma {:induction false} BytesOne(c: Chain)
    ensures Bytes([c]) == c.Data()
  {
    hide Chain.Data;
    assert [c][1..] == [];
  }

  lemma {:induction false} BytesAt(cs: seq<Chain>, k: nat)
    requires k < |cs|
    ensures Bytes(cs) == Bytes(cs[..k]) + cs[k].Data() + Bytes(cs[k + 1..])
    ensures Bytes(cs[..k + 1]) == Bytes(cs[..k]) + cs[k].Data()
  {
    hide Chain.Data;
    var front, c, back := cs[..k], cs[k], cs[k + 1..];
    BytesConcat(front, [c]);
    BytesOne(c);
    assert cs[..k + 1] == front + [c];
    BytesConcat(front + [c], back);
    assert cs == front + [c] + back;
  }

  lemma {:induction false} BytesUpdate(cs: seq<Chain>, k: nat, c: Chain)
    requires k < |cs|
    ensures Bytes(cs[k := c]) == Bytes(cs[..k]) + c.Data() + Bytes(cs[k + 1..])
  {
    hide Chain.Data;
    BytesAt(cs[k := c], k);
    assert cs[k := c][..k] == cs[..k];
    assert cs[k := c][k + 1..] == cs[k + 1..];
  }

  lemma {:induction false} BytesEmpty(cs: seq<Chain>)
    requires forall i :: 0 <= i < |cs| ==> cs[i].Ok() && cs[i].off == 0
    ensures Bytes(cs) == []
  {
    if cs != [] {
      BytesEmpty(cs[1..]);
    }
  }

  function LastAddr(cs: seq<Chain>): (a: Address?) {
    if cs == [] then null else cs[|cs| - 1].addr
  }

  /** Slot s points at cs[k], the last chunk with data, or the first chunk when there is no data. */
  ghost predicate LastWithData(cs: seq<Chain>, s: Slot, k: nat) {
    && (if cs == [] then k == 0 else k < |cs|)
    && s == SlotAt(cs, k)
    && (forall i :: k < i < |cs| ==> cs[i].off == 0)
    && (k > 0 ==> cs[k].off > 0)
  }

  /** The invariant of the list and its cached pointers and total. */
  ghost predicate Layout(cs: seq<Chain>, last: Address?, s: Slot, total: nat) {
    && Wf(cs)
    && LastWithData(cs, s, Deref(cs, s))
    && total == |Bytes(cs)|
    && last == LastAddr(cs)
  }

  lemma {:induction false} LayoutIntro(cs: seq<Chain>, s: Slot, k: nat)
    requires Wf(cs) && LastWithData(cs, s, k)
    ensures Deref(cs, s) == k && Layout(cs, LastAddr(cs), s, |Bytes(cs)|)
  {
    hide Chain.Ok, Bytes;
    DerefSlotAt(cs, k);
  }

  lemma {:induction false} BytesNone()
    ensures Bytes([]) == []
  {
  }

  /** No data lies beyond the last chunk with data. */
  lemma {:induction false} TailEmpty(cs: seq<Chain>, s: Slot, k: nat)
    requires Wf(cs) && LastWithData(cs, s, k)
    ensures forall j :: k < j <= |cs| ==> Bytes(cs[j..]) == [] && Bytes(cs[..j]) == Bytes(cs)
    ensures cs != [] ==> Bytes(cs) == Bytes(cs[..k]) + cs[k].Data()
    ensures cs != [] && cs[k].off == 0 ==> k == 0 && Bytes(cs) == []
  {
    hide Chain.Data;
    forall j | k < j <= |cs| ensures Bytes(cs[j..]) == [] && Bytes(cs[..j]) == Bytes(cs) {
      BytesEmpty(cs[j..]);
      BytesCut(cs, j);
    }
    if cs != [] {
      BytesAt(cs, k);
    }
  }

  /** A list that ends in data, followed by a list with data: the second one's last data chunk is the last. */
  lemma {:induction false} LayoutConcat(a: seq<Chain>, b: seq<Chain>, s: Slot, k: nat)
    requires Wf(a) && Wf(b) && Addrs(a) !! Addrs(b) && LastWithData(b, s, k) && b != [] && b[k].off > 0
    ensures var t := if s == FirstSlot then SlotAt(a, |a|) else s;
            Deref(a + b, t) == |a| + k && Layout(a + b, LastAddr(b), t, |Bytes(a)| + |Bytes(b)|)
    ensures Bytes(a + b) == Bytes(a) + Bytes(b)
  {
    hide Chain.Data, Chain.Ok, Wf, Bytes, Deref;
    WfConcat(a, b);
    BytesConcat(a, b);
    var c, n := a + b, |a| + k;
    assert forall i :: 0 <= i < |b| ==> c[|a| + i] == b[i];
    assert forall i :: n < i < |c| ==> c[i] == b[i - |a|];
    assert c[n] == b[k] && (k > 0 ==> c[n - 1] == b[k - 1]) && (k == 0 && n > 0 ==> c[n - 1] == a[n - 1]);
    LayoutIntro(c, if s == FirstSlot then SlotAt(a, |a|) else s, n);
  }

  /** A list without trailing empty chunks, with chunk c put at its end. */
  lemma {:induction false} LayoutInsert(a: seq<Chain>, s: Slot, c: Chain)
    requires Wf(a) && c.Ok() && c.addr !in Addrs(a) && LastWithData(a, s, if a == [] then 0 else |a| - 1)
    requires a != [] ==> a[|a| - 1].off > 0
    ensures var t := if c.off > 0 then SlotAt(a, |a|) else s;
            Layout(a + [c], c.addr, t, |Bytes(a)| + c.off)
    ensures Bytes(a + [c]) == Bytes(a) + c.Data()
  {
    hide Chain.Data, Chain.Ok, Deref, Wf, Bytes;
    WfOne(c);
    BytesOne(c);
    DataLength(c);
    if c.off > 0 {
      LayoutConcat(a, [c], FirstSlot, 0);
    } else {
      WfConcat(a, [c]);
      BytesConcat(a, [c]);
      LayoutIntro(a + [c], s, if a == [] then 0 else |a| - 1);
    }
  }

  lemma {:induction false} DataLength(c: Chain)
    requires c.Ok()
    ensures |c.Data()| == c.off <= c.Room()
  {
  }

  /** The same, with where the slot goes. */
  lemma {:induction false} InsertBehind(a: seq<Chain>, s: Slot, c: Chain, total: nat)
    requires Wf(a) && c.Ok() && c.addr !in Addrs(a) && LastWithData(a, s, if a == [] then 0 else |a| - 1)
    requires (a != [] ==> a[|a| - 1].off > 0) && total == |Bytes(a)|
    ensures var t := if c.off > 0 then SlotAt(a, |a|) else s;
            Layout(a + [c], c.addr, t, total + c.off)
    ensures Bytes(a + [c]) == Bytes(a) + c.Data() && Addrs(a + [c]) == Addrs(a) + {c.addr}
  {
    hide Chain.Data, Chain.Ok, Wf, Bytes, LastWithData;
    LayoutInsert(a, s, c);
    WfOne(c);
    WfConcat(a, [c]);
  }

  /** The list that remains when chunks 0..i and r bytes of chunk i go. */
  lemma {:induction false} LayoutDrop(cs: seq<Chain>, s: Slot, k: nat, i: nat, r: nat)
    requires Wf(cs) && LastWithData(cs, s, k) && i <= k < |cs| && r < cs[i].off
    ensures var ds := [cs[i].Skip(r)] + cs[i + 1..];
            var t := if i == k then FirstSlot else s;
            && Layout(ds, LastAddr(cs), t, |Bytes(ds)|) && Deref(ds, t) == k - i
            && Addrs(ds) == Addrs(cs[i..])
            && Bytes(cs) == Bytes(cs[..i]) + cs[i].Data()[..r] + Bytes(ds)
  {
    hide Chain.Data, Chain.Ok, Chain.Skip, Bytes, Deref;
    WfAt(cs, i);
    var c, ds := cs[i].Skip(r), [cs[i].Skip(r)] + cs[i + 1..];
    var t := if i == k then FirstSlot else s;
    WfCut(cs, i);
    assert ds == cs[i..][0 := c];
    WfUpdate(cs[i..], 0, c);
    SlotDropped(cs, s, k, i, c);
    LayoutIntro(ds, t, k - i);
    BytesAt(cs, i);
    BytesConcat([c], cs[i + 1..]);
    BytesOne(c);
    var front, d, back := Bytes(cs[..i]), cs[i].Data(), Bytes(cs[i + 1..]);
    assert d == d[..r] + c.Data();
    assert front + d + back == front + d[..r] + (c.Data() + back);
  }

  lemma {:induction false} SlotDropped(cs: seq<Chain>, s: Slot, k: nat, i: nat, c: Chain)
    requires LastWithData(cs, s, k) && i <= k < |cs| && c.addr == cs[i].addr && c.off > 0
    ensures LastWithData([c] + cs[i + 1..], if i == k then FirstSlot else s, k - i)
    ensures LastAddr([c] + cs[i + 1..]) == LastAddr(cs)
  {
  }

  /** Replacing chunk k by one that holds more. */
  lemma {:induction false} LayoutGrow(cs: seq<Chain>, s: Slot, k: nat, c: Chain, more: seq<byte>)
    requires Wf(cs) && LastWithData(cs, s, k) && k < |cs|
    requires c.Ok() && c.addr == cs[k].addr && c.Data() == cs[k].Data() + more
    ensures Layout(cs[k := c], LastAddr(cs), s, |Bytes(cs)| + |more|) && Deref(cs[k := c], s) == k
    ensures Bytes(cs[k := c]) == Bytes(cs) + more && Addrs(cs[k := c]) == Addrs(cs)
  {
    hide Chain.Data, Chain.Ok, Bytes, Wf, LastWithData, Deref, SlotAt;
    WfAt(cs, k);
    DataLength(c);
    WfUpdate(cs, k, c);
    BytesGrow(cs, s, k, c, more);
    SlotKept(cs, s, k, k, c);
    LayoutIntro(cs[k := c], s, k);
  }

  lemma {:induction false} BytesGrow(cs: seq<Chain>, s: Slot, k: nat, c: Chain, more: seq<byte>)
    requires Wf(cs) && LastWithData(cs, s, k) && k < |cs| && c.Data() == cs[k].Data() + more
    ensures Bytes(cs[k := c]) == Bytes(cs) + more
  {
    hide Chain.Data, Chain.Ok, Bytes, Wf, LastWithData;
    TailEmpty(cs, s, k);
    BytesUpdate(cs, k, c);
    assert Bytes(cs[k + 1..]) == [];
    var front, d := Bytes(cs[..k]), cs[k].Data();
    assert front + (d + more) + [] == (front + d) + more;
  }

  /** A chunk in front of the last one with data, or that one, keeps the slot when it does not lose data. */
  lemma {:induction false} SlotKept(cs: seq<Chain>, s: Slot, k: nat, i: nat, c: Chain)
    requires LastWithData(cs, s, k) && cs != [] && i <= k && c.addr == cs[i].addr && c.off >= cs[i].off
    ensures LastWithData(cs[i := c], s, k) && LastAddr(cs[i := c]) == LastAddr(cs)
  {
  }

  /** Chunk 0 replaced by one with `more` in front of its data. */
  lemma {:induction false} LayoutGrowFront(cs: seq<Chain>, s: Slot, k: nat, c: Chain, more: seq<byte>)
    requires Wf(cs) && LastWithData(cs, s, k) && cs != []
    requires c.Ok() && c.addr == cs[0].addr && c.Data() == more + cs[0].Data()
    ensures Layout(cs[0 := c], LastAddr(cs), s, |Bytes(cs)| + |more|) && Deref(cs[0 := c], s) == k
    ensures Bytes(cs[0 := c]) == more + Bytes(cs) && Addrs(cs[0 := c]) == Addrs(cs)
  {
    hide Chain.Data, Chain.Ok, Wf, LastWithData, Deref, SlotAt;
    WfAt(cs, 0);
    DataLength(c);
    WfUpdate(cs, 0, c);
    SlotKept(cs, s, k, 0, c);
    LayoutIntro(cs[0 := c], s, k);
    assert cs[0 := c][1..] == cs[1..];
    assert more + cs[0].Data() + Bytes(cs[1..]) == more + (cs[0].Data() + Bytes(cs[1..]));
  }

  /** A chunk with data put in front of a non-empty list. */
  lemma {:induction false} LayoutPrepend(cs: seq<Chain>, s: Slot, k: nat, c: Chain)
    requires Wf(cs) && LastWithData(cs, s, k) && cs != []
    requires c.Ok() && c.off > 0 && c.addr !in Addrs(cs)
    ensures var t := if s == FirstSlot && cs[0].off > 0 then NextSlot(c.addr) else s;
            Layout([c] + cs, LastAddr(cs), t, c.off + |Bytes(cs)|)
    ensures Bytes([c] + cs) == c.Data() + Bytes(cs)
  {
    hide Chain.Data, Chain.Ok, Deref, Wf, Bytes;
    WfOne(c);
    BytesOne(c);
    DataLength(c);
    if cs[k].off > 0 {
      LayoutConcat([c], cs, s, k);
    } else {
      WfConcat([c], cs);
      BytesConcat([c], cs);
      LayoutIntro([c] + cs, s, 0);
    }
  }

  /** The last chunk with data, or the first one when there is no data. */
  function LastData(cs: seq<Chain>): (k: nat)
    ensures cs != [] ==> k < |cs|
    ensures k > 0 ==> k < |cs| && cs[k].off > 0
    ensures forall i :: k < i < |cs| ==> cs[i].off == 0
  {
    if cs == [] then 0 else if cs[|cs| - 1].off > 0 then |cs| - 1 else LastData(cs[..|cs| - 1])
  }

  lemma {:induction false} LastDataIs(cs: seq<Chain>, s: Slot, k: nat)
    requires LastWithData(cs, s, k)
    ensures k == LastData(cs)
  {
  }

  /** What evbuffer_free_trailing_empty_chains leaves. */
  function Trimmed(cs: seq<Chain>): (t: seq<Chain>) {
    if cs == [] || cs[LastData(cs)].off == 0 then [] else cs[..LastData(cs) + 1]
  }

  lemma {:induction false} EmptyList(cs: seq<Chain>, last: Address?, s: Slot, total: nat)
    requires Layout(cs, last, s, total)
    ensures (Deref(cs, s) == |cs| <==> cs == []) && Wf(cs) && total == |Bytes(cs)|
    ensures cs == [] ==> LastWithData(cs, s, 0) && Trimmed(cs) == []
  {
    hide Bytes, Chain.Ok;
  }

  /** Does the last chunk with data take n more bytes, in the space after its data or once its data is moved? */
  predicate TakesMore(cs: seq<Chain>, n: nat) {
    && cs != [] && !cs[LastData(cs)].immutable
    && var c := cs[LastData(cs)]; c.SpaceLen() >= n || (c.off <= |c.buffer| && c.ShouldRealign(n))
  }

  /** How many whole chunks fit in n bytes, from the front. */
  function WholeCount(cs: seq<Chain>, n: nat): (i: nat)
    ensures i <= |cs|
  {
    if cs == [] || cs[0].off > n then 0 else 1 + WholeCount(cs[1..], n - cs[0].off)
  }

  /** The bytes in the whole chunks that fit in n bytes, from the front. */
  ghost function WholeChunks(cs: seq<Chain>, n: nat): (w: nat)
    ensures w <= n
  {
    if cs == [] || cs[0].off > n then 0 else cs[0].off + WholeChunks(cs[1..], n - cs[0].off)
  }

  /** Walking whole chunks off the front stops at chunk i. */
  lemma {:induction false} WholeChunksAt(cs: seq<Chain>, i: nat, n: nat)
    requires Wf(cs) && i <= |cs| && |Bytes(cs[..i])| <= n
    requires i < |cs| ==> n - |Bytes(cs[..i])| < cs[i].off
    ensures WholeChunks(cs, n) == |Bytes(cs[..i])| && WholeCount(cs, n) == i
    decreases i
  {
    hide Chain.Data, Chain.Ok;
    if cs != [] {
      WfAt(cs, 0);
      if i == 0 {
        assert cs[..0] == [];
      } else {
        assert cs[..i][1..] == cs[1..][..i - 1];
        WfCut(cs, 1);
        WholeChunksAt(cs[1..], i - 1, n - cs[0].off);
      }
    } else {
      assert cs[..i] == [];
    }
  }

  /** The bytes up to chunk i, and from there to the end of the last chunk with data. */
  lemma {:induction false} StopsAt(cs: seq<Chain>, s: Slot, k: nat, i: nat)
    requires Wf(cs) && LastWithData(cs, s, k) && i <= k < |cs|
    ensures Bytes(cs[..i + 1]) == Bytes(cs[..i]) + cs[i].Data() && |Bytes(cs[..i + 1])| <= |Bytes(cs)|
    ensures i == k ==> |Bytes(cs[..i])| + cs[i].off == |Bytes(cs)|
    ensures forall j :: 0 <= j < |cs| ==> cs[j].addr == cs[i].addr ==> j == i
  {
    hide Chain.Data, Chain.Ok;
    BytesAt(cs, i);
    BytesCut(cs, i + 1);
    TailEmpty(cs, s, k);
    WfAt(cs, i);
  }

  /** What a walk from the front needs at chunk i, not beyond the last chunk with data. */
  lemma {:induction false} Stops(cs: seq<Chain>, s: Slot, k: nat, i: nat)
    requires Wf(cs) && LastWithData(cs, s, k) && i <= k < |cs|
    ensures |Bytes(cs[..i + 1])| == |Bytes(cs[..i])| + cs[i].off <= |Bytes(cs)|
    ensures i == k ==> |Bytes(cs[..i])| + cs[i].off == |Bytes(cs)|
    ensures s == NextSlot(cs[i].addr) <==> i + 1 == k
    ensures i == k ==> s != NextSlot(cs[i].addr)
  {
    hide Chain.Data, Chain.Ok;
    StopsAt(cs, s, k, i);
    WfAt(cs, i);
  }

  lemma {:induction false} DataPrefix(c: Chain, n: nat)
    requires c.Ok() && n <= c.off
    ensures c.Data()[..n] == c.buffer[c.misalign..c.misalign + n]
  {
  }

  /** A reference chunk has no room after its data. */
  lemma {:induction false} ReferenceIsFull(c: Chain)
    requires c.Ok() && |c.buffer| - c.misalign > c.off
    ensures !c.immutable && c.SpaceLen() == |c.buffer| - c.misalign - c.off
  {
  }

  /** When the first chunk lacks some of the first n bytes, it is not the last one with data. */
  lemma {:induction false} PullPre(cs: seq<Chain>, s: Slot, k: nat, start: nat, n: nat)
    requires Wf(cs) && LastWithData(cs, s, k) && cs != [] && cs[0].off < n <= |Bytes(cs)| && start <= 1
    ensures k > 0 && |Bytes(cs[..start])| == (if start == 0 then 0 else cs[0].off)
    ensures cs[0].addr in Addrs(cs) && Bytes(cs[..|cs|]) == Bytes(cs)
  {
    hide Chain.Data, Chain.Ok;
    TailEmpty(cs, s, k);
    WfAt(cs, 0);
    assert cs[..0] == [] && cs[..1] == [cs[0]] && cs[..|cs|] == cs;
    BytesOne(cs[0]);
  }

  /** What copying chunk i needs. */
  lemma {:induction false} PullStep(cs: seq<Chain>, s: Slot, k: nat, i: nat)
    requires Wf(cs) && LastWithData(cs, s, k) && i < |cs|
    ensures Bytes(cs[..i + 1]) == Bytes(cs[..i]) + cs[i].Data() && |cs[i].Data()| == cs[i].off && cs[i].Ok()
    ensures i >= k ==> Bytes(cs[..i + 1]) == Bytes(cs)
    ensures s == NextSlot(cs[i].addr) <==> i + 1 == k
  {
    hide Chain.Data, Chain.Ok;
    BytesAt(cs, i);
    TailEmpty(cs, s, k);
    WfAt(cs, i);
  }

  /** Chunk tmp in place of chunks 0..i and of r bytes of chunk i. */
  lemma {:induction false} LayoutPull(cs: seq<Chain>, s: Slot, k: nat, i: nat, r: nat, tmp: Chain)
    requires Wf(cs) && LastWithData(cs, s, k) && 0 < i <= k < |cs| && r < cs[i].off
    requires tmp.Ok() && tmp.addr !in Addrs(cs[i..]) && tmp.Data() == Bytes(cs[..i]) + cs[i].Data()[..r]
    ensures var ds := [tmp] + ([cs[i].Skip(r)] + cs[i + 1..]);
            && Layout(ds, LastAddr(cs), if i == k then NextSlot(tmp.addr) else s, |Bytes(cs)|)
            && Bytes(ds) == Bytes(cs) && Addrs(ds) == {tmp.addr} + Addrs(cs[i..])
  {
    hide Chain.Data, Chain.Ok, Bytes, Deref, Chain.Skip;
    LayoutDrop(cs, s, k, i, r);
    WfOne(tmp);
    BytesOne(tmp);
    var ds := [cs[i].Skip(r)] + cs[i + 1..];
    WfConcat([tmp], ds);
    LayoutConcat([tmp], ds, if i == k then FirstSlot else s, k - i);
  }

  /** All the data in one chunk. */
  lemma {:induction false} LayoutOne(c: Chain)
    requires c.Ok()
    ensures Layout([c], c.addr, FirstSlot, c.off) && Bytes([c]) == c.Data() && Addrs([c]) == {c.addr}
  {
    hide Chain.Data, Chain.Ok, Bytes;
    WfOne(c);
    BytesOne(c);
    LayoutIntro([c], FirstSlot, 0);
    assert c.Ok() ==> |c.Data()| == c.off;
  }

  /** A chunk replaced by one with the same data. */
  lemma {:induction false} LayoutSame(cs: seq<Chain>, s: Slot, k: nat, i: nat, c: Chain)
    requires Wf(cs) && LastWithData(cs, s, k) && i < |cs|
    requires c.Ok() && c.addr == cs[i].addr && c.off == cs[i].off && c.Data() == cs[i].Data()
    ensures Layout(cs[i := c], LastAddr(cs), s, |Bytes(cs)|) && Deref(cs[i := c], s) == k
    ensures Bytes(cs[i := c]) == Bytes(cs) && Addrs(cs[i := c]) == Addrs(cs)
  {
    hide Chain.Data, Chain.Ok;
    WfUpdate(cs, i, c);
    assert s == SlotAt(cs[i := c], k);
    LayoutIntro(cs[i := c], s, k);
    BytesAt(cs, i);
    BytesUpdate(cs, i, c);
  }

  /** The last chunk with data replaced by a new one with the same data. */
  lemma {:induction false} LayoutReplace(cs: seq<Chain>, s: Slot, k: nat, c: Chain)
    requires Wf(cs) && LastWithData(cs, s, k) && k < |cs|
    requires c.Ok() && c.addr !in Addrs(cs) && c.off == cs[k].off && c.Data() == cs[k].Data()
    ensures Layout(cs[k := c], LastAddr(cs[k := c]), s, |Bytes(cs)|) && Deref(cs[k := c], s) == k
    ensures Bytes(cs[k := c]) == Bytes(cs) && Addrs(cs[k := c]) <= Addrs(cs) + {c.addr}
  {
    hide Chain.Data, Chain.Ok, Bytes, Deref;
    var ds := cs[k := c];
    assert forall x <- cs :: x.addr in Addrs(cs);
    forall i, j | 0 <= i < j < |ds| ensures ds[i].addr != ds[j].addr && ds[i].Ok() && ds[j].Ok() {
      assert cs[i].addr in Addrs(cs) && cs[j].addr in Addrs(cs);
    }
    assert s == SlotAt(ds, k);
    LayoutIntro(ds, s, k);
    BytesAt(cs, k);
    BytesUpdate(cs, k, c);
  }

  lemma {:induction false} CommitBeyond(cs: seq<Chain>, s: Slot, k: nat, j: nat, c: Chain, more: seq<byte>)
    requires Wf(cs) && LastWithData(cs, s, k) && k < j < |cs| && more != []
    requires c.Ok() && c.addr == cs[j].addr && c.Data() == cs[j].Data() + more
    ensures Layout(cs[j := c], LastAddr(cs), SlotAt(cs, j), |Bytes(cs)| + |more|)
    ensures Deref(cs[j := c], SlotAt(cs, j)) == j
    ensures Bytes(cs[j := c]) == Bytes(cs) + more && Addrs(cs[j := c]) == Addrs(cs)
  {
    hide Chain.Data, Chain.Ok, Bytes, Deref;
    WfAt(cs, j);
    assert c.Ok() ==> |c.Data()| == c.off;
    WfUpdate(cs, j, c);
    assert SlotAt(cs, j) == SlotAt(cs[j := c], j);
    LayoutIntro(cs[j := c], SlotAt(cs, j), j);
    TailEmpty(cs, s, k);
    BytesUpdate(cs, j, c);
    assert Bytes(cs[j + 1..]) == [] && Bytes(cs[..j]) == Bytes(cs) && cs[j].Data() == [];
  }

  /** Chunk j, the last with data or one after it, replaced by one that holds more. */
  lemma {:induction false} LayoutCommit(cs: seq<Chain>, s: Slot, k: nat, j: nat, c: Chain, more: seq<byte>)
    requires Wf(cs) && LastWithData(cs, s, k) && k <= j < |cs|
    requires c.Ok() && c.addr == cs[j].addr && c.Data() == cs[j].Data() + more
    ensures var t := if more == [] then s else SlotAt(cs, j);
            Layout(cs[j := c], LastAddr(cs), t, |Bytes(cs)| + |more|)
            && Deref(cs[j := c], t) == if more == [] then k else j
    ensures Bytes(cs[j := c]) == Bytes(cs) + more && Addrs(cs[j := c]) == Addrs(cs)
  {
    hide Chain.Data, Chain.Ok, Bytes, Deref;
    if k == j {
      LayoutGrow(cs, s, k, c, more);
    } else if more == [] {
      WfAt(cs, j);
      assert c.Ok() ==> |c.Data()| == c.off;
      LayoutSame(cs, s, k, j, c);
    } else {
      CommitBeyond(cs, s, k, j, c, more);
    }
  }

  /** The free space in `count` chunks, from chunk f on. */
  ghost function SpaceOf(cs: seq<Chain>, f: nat, count: nat): (n: nat)
    decreases count
  {
    if count == 0 || f >= |cs| then 0 else cs[f].SpaceLen() + SpaceOf(cs, f + 1, count - 1)
  }

  lemma {:induction false} SpaceNone(cs: seq<Chain>, f: nat)
    ensures SpaceOf(cs, f, 0) == 0
  {
  }

  /** The first chunk with free space, of the last one with data and those after it. */
  function FirstWithSpace(cs: seq<Chain>, k: nat): (f: nat)
    requires k < |cs|
    ensures k <= f <= k + 1
  {
    if cs[k].SpaceLen() == 0 then k + 1 else k
  }

  /** The same for any list; an empty one has none. */
  function FirstFree(cs: seq<Chain>, k: nat): (f: nat) {
    if k < |cs| then FirstWithSpace(cs, k) else k
  }

  lemma {:induction false} SpaceBound(c: Chain)
    requires c.Ok()
    ensures c.SpaceLen() <= MAX_CHAIN
  {
  }

  lemma {:induction false} OnlyLastHasData(cs: seq<Chain>, s: Slot, k: nat, f: nat)
    requires LastWithData(cs, s, k) && k <= f <= k + 1 && f < |cs| && cs[f].off > 0
    ensures f == k
  {
  }

  /** The last chunk is the last one with data, may be written, and stays full whatever is done to it. */
  ghost predicate FullAtEnd(cs: seq<Chain>, k: nat) {
    k + 1 == |cs| && !cs[k].immutable && if cs[k].off > 0 then cs[k].SpaceLen() == 0 else cs[k].buffer == []
  }

  /**
   Does evbuffer_expand_singlechain take the chunk after the first one with space, chunk f?  It does when chunk f has
   data and too little space, is not worth moving or copying, and the next one has enough.
   */
  predicate UsesNext(cs: seq<Chain>, f: nat, n: nat) {
    && f + 1 < |cs| && !cs[f].immutable && cs[f].SpaceLen() < n && 0 < cs[f].off <= |cs[f].buffer|
    && !cs[f].ShouldRealign(n)
    && (cs[f].SpaceLen() < |cs[f].buffer| / 8 || cs[f].off > MAX_TO_COPY || n >= CHAIN_MAX - cs[f].off)
    && cs[f + 1].SpaceLen() >= n
  }

  /** Where there is space, there is a chunk with space. */
  lemma {:induction false} SpaceInList(cs: seq<Chain>, k: nat, n: nat)
    requires k < |cs| && SpaceOf(cs, FirstWithSpace(cs, k), n) > 0
    ensures FirstWithSpace(cs, k) < |cs|
  {
  }

  lemma {:induction false} SpaceSnoc(cs: seq<Chain>, f: nat, count: nat)
    requires f + count < |cs|
    ensures SpaceOf(cs, f, count + 1) == SpaceOf(cs, f, count) + cs[f + count].SpaceLen()
    decreases count
  {
    if count > 0 {
      SpaceSnoc(cs, f + 1, count - 1);
    }
  }

  lemma {:induction false} SpaceMono(cs: seq<Chain>, f: nat, a: nat, b: nat)
    requires a <= b || f + b >= |cs|
    ensures SpaceOf(cs, f, a) <= SpaceOf(cs, f, b)
    decreases a
  {
    hide Chain.SpaceLen;
    if a > 0 && f < |cs| && b > 0 {
      SpaceMono(cs, f + 1, a - 1, b - 1);
    }
  }

  /** The sum looks at its own chunks only. */
  lemma {:induction false} SpaceFrame(cs: seq<Chain>, ds: seq<Chain>, f: nat, count: nat)
    requires f + count <= |cs| && f + count <= |ds| && forall i :: f <= i < f + count ==> cs[i] == ds[i]
    ensures SpaceOf(cs, f, count) == SpaceOf(ds, f, count)
    decreases count
  {
    if count > 0 {
      SpaceFrame(cs, ds, f + 1, count - 1);
    }
  }

  /** Space counted from the last chunk with data is counted from the first one with space. */
  lemma {:induction false} SpaceFrom(cs: seq<Chain>, k: nat, count: nat, n: nat)
    requires k < |cs| && count <= n + FirstWithSpace(cs, k) - k
    ensures SpaceOf(cs, k, count) <= SpaceOf(cs, FirstWithSpace(cs, k), n)
  {
    hide Chain.SpaceLen;
    if cs[k].SpaceLen() == 0 {
      if count > 0 {
        SpaceMono(cs, k + 1, count - 1, n);
      }
    } else {
      SpaceMono(cs, k, count, n);
    }
  }

  /** The last chunk's space counts, when the chunk before it is the last one with data or there is none. */
  lemma {:induction false} SpaceAtEnd(cs: seq<Chain>, s: Slot, k: nat, n: nat)
    requires cs != [] && LastWithData(cs, s, k) && n >= 2 && cs[|cs| - 1].off == 0
    requires |cs| > 1 ==> cs[|cs| - 2].off > 0
    ensures k < |cs| && k == if |cs| > 1 then |cs| - 2 else 0
    ensures SpaceOf(cs, FirstWithSpace(cs, k), n) >= cs[|cs| - 1].SpaceLen() + if |cs| > 1 then cs[k].SpaceLen() else 0
  {
    hide Chain.SpaceLen;
    var f := FirstWithSpace(cs, k);
    if f < |cs| {
      assert SpaceOf(cs, f, n) == cs[f].SpaceLen() + SpaceOf(cs, f + 1, n - 1);
    }
  }

  /** A list with an empty chunk added at its end, and the space in it. */
  lemma {:induction false} LayoutAddEmpty(cs: seq<Chain>, s: Slot, k: nat, c: Chain, n: nat)
    requires Wf(cs) && LastWithData(cs, s, k) && cs != [] && c.Ok() && c.off == 0 && c.addr !in Addrs(cs)
    requires |cs| - k < n + FirstWithSpace(cs, k) - k
    ensures var ds := cs + [c];
            && Layout(ds, c.addr, s, |Bytes(cs)|) && Bytes(ds) == Bytes(cs) && Addrs(ds) == Addrs(cs) + {c.addr}
            && Deref(ds, s) == k
            && SpaceOf(ds, FirstWithSpace(ds, k), n) >= SpaceOf(cs, k, |cs| - k) + c.SpaceLen()
  {
    hide Chain.Data, Chain.Ok, Bytes, Deref, Chain.SpaceLen, SpaceOf;
    var ds := cs + [c];
    WfOne(c);
    WfConcat(cs, [c]);
    BytesConcat(cs, [c]);
    BytesOne(c);
    assert |c.Data()| == 0;
    LayoutIntro(ds, s, k);
    SpaceFrame(cs, ds, k, |cs| - k);
    SpaceSnoc(ds, k, |cs| - k);
    SpaceFrom(ds, k, |ds| - k, n);
  }

  /** The list cut after its last chunk with data. */
  lemma {:induction false} LayoutTrim(cs: seq<Chain>, s: Slot, k: nat)
    requires Wf(cs) && LastWithData(cs, s, k) && k < |cs| && cs[k].off > 0
    ensures var ds := cs[..k + 1];
            && LastWithData(ds, s, k) && Layout(ds, cs[k].addr, s, |Bytes(cs)|) && Bytes(ds) == Bytes(cs)
            && Addrs(ds) <= Addrs(cs) && SpaceOf(ds, k, 1) == cs[k].SpaceLen()
  {
    hide Chain.Data, Chain.Ok, Bytes, Deref, Chain.SpaceLen;
    WfCut(cs, k + 1);
    TailEmpty(cs, s, k);
    assert s == SlotAt(cs[..k + 1], k);
    LayoutIntro(cs[..k + 1], s, k);
    assert SpaceOf(cs[..k + 1], k + 1, 0) == 0;
  }

  /** The slot still points at a chunk with data, or at the first one, when a later chunk may have data now. */
  lemma {:induction false} LayoutBefore(cs: seq<Chain>, s: Slot, k: nat)
    requires Wf(cs) && cs != [] && k < |cs| && s == SlotAt(cs, k) && (k > 0 ==> cs[k].off > 0)
    ensures Deref(cs, s) == k
  {
    DerefSlotAt(cs, k);
  }

  lemma {:induction false} WithDataInRange(cs: seq<Chain>, s: Slot, k: nat)
    requires LastWithData(cs, s, k) && cs != []
    ensures k < |cs| && forall i :: 0 <= i < |cs| && i > k ==> cs[i].off == 0
  {
  }

  /** An empty chunk is all free space once its misalignment is gone. */
  lemma {:induction false} RealignEmpty(cs: seq<Chain>, i: nat)
    requires Wf(cs) && i < |cs| && cs[i].off == 0
    ensures var c := cs[i].(misalign := 0);
            c.Ok() && c.Data() == cs[i].Data() && c.SpaceLen() == |c.buffer|
  {
  }

  /** The first number of start, 2 * start, 4 * start, .. that is at least total. */
  function Doubled(start: nat, total: nat): (n: nat)
    requires start > 0
    ensures n >= total && n >= start
    ensures total >= start ==> n < 2 * total
    decreases total - start
  {
    if start >= total then start else Doubled(start * 2, total)
  }

  /** How much memory evbuffer_chain_new gives a chunk that is to hold size bytes. */
  function MemoryFor(size: nat): (n: nat)
    ensures n >= size && n >= MIN_BUFFER_SIZE - CHAIN_HEADER
  {
    if size + CHAIN_HEADER < CHAIN_MAX / 2 then
      Doubled(MIN_BUFFER_SIZE, size + CHAIN_HEADER) - CHAIN_HEADER
    else
      size
  }

  lemma {:induction false} MemoryExamples()
    ensures MemoryFor(2) == MemoryFor(972) == MemoryFor(976) == 976 && MemoryFor(996) == 2000
  {
    assert Doubled(1024, 50) == Doubled(1024, 1020) == Doubled(1024, 1024) == 1024;
    assert Doubled(2048, 1044) == 2048;
  }

  /** evbuffer_chain_new: memory from malloc in powers of two unless very large; none when that fails. */
  method ChainNew(size: nat, alloc: bool) returns (c: Option<Chain>)
    ensures c.None? <==> size > MAX_CHAIN || !alloc
    ensures c.Some? ==> fresh(c.value.addr) && c.value.Ok() && !c.value.immutable
    ensures c.Some? ==> c.value.off == 0 && c.value.misalign == 0 && |c.value.buffer| == MemoryFor(size)
  {
    if size > CHAIN_MAX - CHAIN_HEADER {
      return None;
    }
    var total := size + CHAIN_HEADER;
    var toAlloc := MIN_BUFFER_SIZE;
    if total < CHAIN_MAX / 2 {
      while toAlloc < total
        invariant MIN_BUFFER_SIZE <= toAlloc <= CHAIN_MAX && Doubled(toAlloc, total) == Doubled(MIN_BUFFER_SIZE, total)
        decreases total - toAlloc
      {
        toAlloc := toAlloc * 2;
      }
    } else {
      toAlloc := total;
    }
    if !alloc {
      return None;
    }
    var addr := new Address();
    var memory := new byte[toAlloc - CHAIN_HEADER];
    c := Some(Chain(addr, memory[..], 0, 0, false));
  }
}
