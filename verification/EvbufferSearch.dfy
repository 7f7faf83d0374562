/** Positions in a buffer (struct evbuffer_ptr), chunked search, and lines. */
module EvbufferSearch {
  import opened Common
  import opened Chains
  import opened Evbuffer

  /** pos counts bytes from the front; chain and posInChain say where that is, with null at the end. */
  datatype Ptr = Ptr(pos: int, chain: Address?, posInChain: nat)

  const NOT_FOUND: Ptr := Ptr(-1, null, 0)

  function Index(cs: seq<Chain>, p: Ptr): (i: nat)
    ensures i <= |cs|
  {
    if p.chain == null then |cs| else Find(cs, p.chain)
  }

  /** The two ways in which p gives its position agree. */
  ghost predicate Consistent(cs: seq<Chain>, p: Ptr) {
    var i := Index(cs, p);
    && p.pos == |Bytes(cs[..i])| + p.posInChain
    && (if i == |cs| then p.chain == null && p.posInChain == 0 else p.posInChain <= cs[i].off)
  }

  /** Chunk i's data is a part of the whole. */
  lemma {:induction false} ChunkInBytes(cs: seq<Chain>, i: nat)
    requires Wf(cs) && i < |cs|
    ensures cs[i].Ok() && |cs[i].Data()| == cs[i].off && cs[..|cs|] == cs
    ensures var b := |Bytes(cs[..i])|;
            && |Bytes(cs[..i + 1])| == b + cs[i].off <= |Bytes(cs)|
            && (forall p :: 0 <= p < cs[i].off ==> Bytes(cs)[b + p] == cs[i].Data()[p])
            && (forall p, q :: 0 <= p <= q <= cs[i].off ==> Bytes(cs)[b + p..b + q] == cs[i].Data()[p..q])
  {
    hide Chain.Data, Chain.Ok, Bytes;
    WfAt(cs, i);
    BytesAt(cs, i);
    BytesCut(cs, i + 1);
  }

  lemma {:induction false} IndexAt(cs: seq<Chain>, i: nat, pos: int, posInChain: nat)
    requires Wf(cs) && i < |cs|
    ensures Index(cs, Ptr(pos, cs[i].addr, posInChain)) == i
  {
    hide Chain.Ok;
  }

  datatype PtrHow = PtrSetTo | PtrAdd

  /** evbuffer_ptr_set: the pointer `position` bytes from the front, or from p. */
  method PtrSet(b: Buffer, p: Ptr, position: nat, how: PtrHow) returns (res: int, q: Ptr)
    requires b.Valid() && (how == PtrAdd && p.pos >= 0 ==> Consistent(b.chains, p))
    ensures how == PtrAdd && (p.pos < 0 || p.pos + position > SIZE_MAX) ==> res == -1 && q == p
    ensures !(how == PtrAdd && (p.pos < 0 || p.pos + position > SIZE_MAX)) ==>
              var target := position + if how == PtrAdd then p.pos else 0;
              && res == (if target <= |b.Contents()| then 0 else -1)
              && (res == 0 ==> q.pos == target && Consistent(b.chains, q))
              && (res == 0 && q.chain != null ==> q.posInChain < b.chains[Index(b.chains, q)].off)
              && (res == -1 ==> q == NOT_FOUND)
  {
    hide Chain.Data, Bytes, Chain.Ok, Find, LastWithData, Deref;
    var cs := b.chains;
    var left, i, base, target := position, 0, 0, position;
    assert cs[..0] == [];
    BytesNone();
    if how == PtrAdd {
      if p.pos < 0 || p.pos + position > SIZE_MAX {
        return -1, p;
      }
      i, target, base := Index(cs, p), p.pos + position, p.posInChain;
    }
    while i < |cs| && base + left >= cs[i].off
      invariant 0 <= i <= |cs| && left >= 0 && |Bytes(cs[..i])| + base + left == target
      invariant 0 <= base && if i < |cs| then base <= cs[i].off else base == 0
    {
      ChunkInBytes(cs, i);
      left, base, i := left - (cs[i].off - base), 0, i + 1;
    }
    if i < |cs| {
      ChunkInBytes(cs, i);
      IndexAt(cs, i, target, base + left);
      return 0, Ptr(target, cs[i].addr, base + left);
    } else if left == 0 {
      assert cs[..i] == cs;
      return 0, Ptr(target, null, 0);
    } else {
      assert cs[..i] == cs;
      return -1, NOT_FOUND;
    }
  }

  /** what occurs in s at offset j. */
  ghost predicate MatchAt(s: seq<byte>, what: seq<byte>, j: int) {
    0 <= j && j + |what| <= |s| && s[j..j + |what|] == what
  }

  /** memchr: the first c in data at or after from. */
  method Memchr(data: seq<byte>, from: nat, c: byte) returns (r: Option<nat>)
    requires from <= |data|
    ensures r.Some? ==> from <= r.value < |data| && data[r.value] == c
    ensures r.Some? ==> forall k :: from <= k < r.value ==> data[k] != c
    ensures r.None? ==> forall k :: from <= k < |data| ==> data[k] != c
  {
    var k := from;
    while k < |data|
      invariant from <= k <= |data| && forall j :: from <= j < k ==> data[j] != c
    {
      if data[k] == c {
        return Some(k);
      }
      k := k + 1;
    }
    return None;
  }

  /** memcmp: negative, zero or positive as a is below, equal to or above b. */
  function Memcmp(a: seq<byte>, b: seq<byte>): (r: int)
    requires |a| == |b|
    ensures r == 0 <==> a == b
  {
    if a == [] then 0 else if a[0] != b[0] then a[0] - b[0] else Memcmp(a[1..], b[1..])
  }

  /** Equal bytes in front do not count, and a difference in front decides. */
  lemma {:induction false} MemcmpConcat(a: seq<byte>, b: seq<byte>, c: seq<byte>, d: seq<byte>)
    requires |a| == |b| && |c| == |d|
    ensures Memcmp(a + c, b + d) == if a == b then Memcmp(c, d) else Memcmp(a, b)
  {
    if a == [] {
      assert a + c == c && b + d == d;
    } else {
      MemcmpConcat(a[1..], b[1..], c, d);
      assert (a + c)[1..] == a[1..] + c && (b + d)[1..] == b[1..] + d;
      assert a == [a[0]] + a[1..] && b == [b[0]] + b[1..];
    }
  }

  /** What comparing a part after equal bytes says about the whole. */
  lemma {:induction false} MemcmpPart(s: seq<byte>, mem: seq<byte>, done: nat, n: nat)
    requires done + n <= |mem| == |s| && s[..done] == mem[..done]
    ensures s[done..done + n] != mem[done..done + n] ==>
              Memcmp(s, mem) == Memcmp(s[done..done + n], mem[done..done + n])
  {
    var a, b := s[done..done + n], mem[done..done + n];
    MemcmpConcat(s[..done], mem[..done], a + s[done + n..], b + mem[done + n..]);
    MemcmpConcat(a, b, s[done + n..], mem[done + n..]);
    assert s == s[..done] + (a + s[done + n..]) && mem == mem[..done] + (b + mem[done + n..]);
  }

  /** evbuffer_ptr_memcmp: compares mem with the bytes at the pointer; -1 when there are not so many. */
  method PtrMemcmp(b: Buffer, pos: Ptr, mem: seq<byte>) returns (r: int)
    requires b.Valid() && Consistent(b.chains, pos)
    ensures var s := b.Contents();
            r == if 0 <= pos.pos && pos.pos + |mem| <= SIZE_MAX && pos.pos + |mem| <= |s| then
                   Memcmp(s[pos.pos..pos.pos + |mem|], mem)
                 else
                   -1
    ensures r == 0 <==> pos.pos + |mem| <= SIZE_MAX && MatchAt(b.Contents(), mem, pos.pos)
  {
    hide Chain.Data, Bytes, Chain.Ok, Find, LastWithData, Deref, Memcmp, Agree, MatchAt;
    if pos.pos < 0 || SIZE_MAX - |mem| < pos.pos || pos.pos + |mem| > b.totalLen {
      TooLong(b.Contents(), mem, pos.pos);
      return -1;
    }
    r := MemcmpChunks(b, pos, mem);
  }

  /** The loop of evbuffer_ptr_memcmp. */
  method MemcmpChunks(b: Buffer, pos: Ptr, mem: seq<byte>) returns (r: int)
    requires b.Valid() && Consistent(b.chains, pos) && pos.pos >= 0 && pos.pos + |mem| <= |b.Contents()|
    ensures r == Memcmp(b.Contents()[pos.pos..pos.pos + |mem|], mem)
    ensures r == 0 <==> MatchAt(b.Contents(), mem, pos.pos)
  {
    hide Chain.Data, Bytes, Chain.Ok, Find, LastWithData, Deref, Memcmp, Agree, MatchAt;
    var cs := b.chains;
    ghost var s := Bytes(cs);
    var i, position, done := Index(cs, pos), pos.posInChain, 0;
    AgreeNone(s, mem, pos.pos);
    while done < |mem| && i < |cs|
      invariant 0 <= done <= |mem| && 0 <= i <= |cs| && position >= 0
      invariant done < |mem| ==> pos.pos + done == |Bytes(cs[..i])| + position
      invariant i < |cs| && done < |mem| ==> position <= cs[i].off
      invariant i == |cs| ==> position == 0
      invariant Agree(s, mem, pos.pos, done)
      modifies {}
    {
      var n := if |mem| - done + position > cs[i].off then cs[i].off - position else |mem| - done;
      CompareChunk(cs, i, position, mem, pos.pos, done, n);
      r := Memcmp(cs[i].Data()[position..position + n], mem[done..done + n]);
      if r != 0 {
        return r;
      }
      done, position, i := done + n, 0, i + 1;
    }
    assert cs[..|cs|] == cs;
    AgreeAll(s, mem, pos.pos);
    return 0;
  }

  /** The first `done` bytes of mem occur at offset j. */
  ghost predicate Agree(s: seq<byte>, mem: seq<byte>, j: nat, done: nat) {
    done <= |mem| && j + |mem| <= |s| && s[j..j + done] == mem[..done]
  }

  lemma {:induction false} AgreeNone(s: seq<byte>, mem: seq<byte>, j: nat)
    requires j + |mem| <= |s|
    ensures Agree(s, mem, j, 0)
    ensures !MatchAt(s, mem, j) <==> Memcmp(s[j..j + |mem|], mem) != 0
  {
  }

  lemma {:induction false} TooLong(s: seq<byte>, mem: seq<byte>, j: int)
    ensures !(0 <= j && j + |mem| <= |s|) ==> !MatchAt(s, mem, j)
  {
  }

  lemma {:induction false} AgreeAll(s: seq<byte>, mem: seq<byte>, j: nat)
    requires Agree(s, mem, j, |mem|)
    ensures MatchAt(s, mem, j) && Memcmp(s[j..j + |mem|], mem) == 0
  {
    assert mem[..|mem|] == mem;
  }

  /** Comparing the next n bytes after `done` equal ones. */
  lemma {:induction false} Compare(s: seq<byte>, mem: seq<byte>, j: nat, done: nat, n: nat)
    requires Agree(s, mem, j, done) && done + n <= |mem|
    ensures var r := Memcmp(s[j + done..j + done + n], mem[done..done + n]);
            if r == 0 then Agree(s, mem, j, done + n)
            else !MatchAt(s, mem, j) && Memcmp(s[j..j + |mem|], mem) == r
  {
    Extend(s, mem, j, done, n);
    MemcmpAt(s, mem, j, done, n);
  }

  /** Comparing the next n bytes, from `position` in chunk i on. */
  lemma {:induction false} CompareChunk(
    cs: seq<Chain>, i: nat, position: nat, mem: seq<byte>, j: nat, done: nat, n: nat)
    requires Wf(cs) && i < |cs| && position + n <= cs[i].off && j + done == |Bytes(cs[..i])| + position
    requires Agree(Bytes(cs), mem, j, done) && done + n <= |mem|
    ensures |cs[i].Data()| == cs[i].off && |Bytes(cs[..i + 1])| == |Bytes(cs[..i])| + cs[i].off
    ensures var r := Memcmp(cs[i].Data()[position..position + n], mem[done..done + n]);
            if r == 0 then Agree(Bytes(cs), mem, j, done + n)
            else !MatchAt(Bytes(cs), mem, j) && Memcmp(Bytes(cs)[j..j + |mem|], mem) == r
  {
    hide Chain.Data, Bytes, Chain.Ok, Memcmp, MatchAt;
    ChunkInBytes(cs, i);
    Compare(Bytes(cs), mem, j, done, n);
  }

  lemma {:induction false} MemcmpAt(s: seq<byte>, mem: seq<byte>, j: nat, done: nat, n: nat)
    requires done + n <= |mem| && j + |mem| <= |s| && s[j..j + done] == mem[..done]
    ensures s[j + done..j + done + n] != mem[done..done + n] ==>
              Memcmp(s[j..j + |mem|], mem) == Memcmp(s[j + done..j + done + n], mem[done..done + n])
  {
    var t := s[j..j + |mem|];
    assert t[..done] == s[j..j + done];
    var u, v := t[done..done + n], s[j + done..j + done + n];
    forall k | 0 <= k < n ensures u[k] == v[k] {
      assert t[done + k] == s[j + done + k];
    }
    assert u == v;
    MemcmpPart(t, mem, done, n);
  }

  /** Comparing the next n bytes after `done` equal ones. */
  lemma {:induction false} Extend(s: seq<byte>, mem: seq<byte>, j: nat, done: nat, n: nat)
    requires done + n <= |mem| && j + |mem| <= |s| && s[j..j + done] == mem[..done]
    ensures s[j + done..j + done + n] == mem[done..done + n] <==> s[j..j + done + n] == mem[..done + n]
    ensures s[j..j + done + n] != mem[..done + n] ==> !MatchAt(s, mem, j)
  {
    if MatchAt(s, mem, j) {
      assert s[j..j + done + n] == s[j..j + |mem|][..done + n];
    }
    if s[j + done..j + done + n] == mem[done..done + n] {
      assert s[j..j + done + n] == s[j..j + done] + s[j + done..j + done + n];
      assert mem[..done + n] == mem[..done] + mem[done..done + n];
    } else {
      var k :| 0 <= k < n && s[j + done..j + done + n][k] != mem[done..done + n][k];
      assert s[j..j + done + n][done + k] != mem[..done + n][done + k];
    }
  }

  /** j is the first offset from `from` on where what occurs. */
  ghost predicate FirstMatch(s: seq<byte>, what: seq<byte>, from: int, j: int) {
    from <= j && MatchAt(s, what, j) && forall i :: from <= i < j ==> !MatchAt(s, what, i)
  }

  ghost predicate NoMatch(s: seq<byte>, what: seq<byte>, from: int, to: int) {
    forall j :: from <= j < to ==> !MatchAt(s, what, j)
  }

  /** No occurrence starts in a stretch of chunk i without the first byte. */
  lemma {:induction false} NoFirstByte(cs: seq<Chain>, i: nat, from: nat, to: nat, what: seq<byte>)
    requires Wf(cs) && i < |cs| && from <= to <= cs[i].off && what != []
    requires cs[i].Ok() && |cs[i].Data()| == cs[i].off
    requires forall p :: from <= p < to ==> cs[i].Data()[p] != what[0]
    ensures NoMatch(Bytes(cs), what, |Bytes(cs[..i])| + from, |Bytes(cs[..i])| + to)
  {
    hide Chain.Data, Chain.Ok, Bytes;
    ChunkInBytes(cs, i);
    var s, b := Bytes(cs), |Bytes(cs[..i])|;
    forall j | b + from <= j < b + to ensures !MatchAt(s, what, j) {
      assert s[b + (j - b)] == cs[i].Data()[j - b] != what[0];
    }
  }

  /** A pointer to the front. */
  function FrontOf(cs: seq<Chain>): (p: Ptr) {
    Ptr(0, if cs == [] then null else cs[0].addr, 0)
  }

  /**
   evbuffer_search_range, on the flat bytes: the first match from `start`, if it ends by `end`.  For no pattern, and for
   one longer than any buffer, the code gives the start itself.
   */
  method SearchRange(b: Buffer, what: seq<byte>, start: Option<Ptr>, end: Option<Ptr>) returns (r: Ptr)
    requires b.Valid() && b.totalLen <= SIZE_MAX
    requires start.Some? ==> Consistent(b.chains, start.value)
    requires end.Some? ==> Consistent(b.chains, end.value)
    ensures what == [] || |what| > SSIZE_MAX ==> r == if start.Some? then start.value else FrontOf(b.chains)
    ensures 0 < |what| <= SSIZE_MAX ==>
            var s, from := b.Contents(), if start.Some? then start.value.pos else 0;
            && (r == NOT_FOUND || (FirstMatch(s, what, from, r.pos) && Consistent(b.chains, r) && r.chain != null
                                   && (end.Some? ==> r.pos + |what| <= end.value.pos)))
            && (r == NOT_FOUND ==>
                  forall j :: from <= j && MatchAt(s, what, j) ==> end.Some? && j + |what| > end.value.pos)
  {
    hide Chain.Data, Bytes, Chain.Ok, Find, LastWithData, Deref, MatchAt;
    var cs := b.chains;
    if what == [] || |what| > SSIZE_MAX {
      return if start.Some? then start.value else FrontOf(cs);
    }
    var i, pos, inChain := 0, 0, 0;
    assert cs[..0] == [] && cs[..|cs|] == cs;
    BytesNone();
    if start.Some? {
      i, pos, inChain := Index(cs, start.value), start.value.pos, start.value.posInChain;
    }
    ghost var s, from := b.Contents(), pos;
    while i < |cs|
      invariant 0 <= i <= |cs| && inChain >= 0 && pos == |Bytes(cs[..i])| + inChain && from <= pos
      invariant if i < |cs| then inChain <= cs[i].off else inChain == 0
      invariant NoMatch(s, what, from, pos)
      decreases |cs| - i, if i < |cs| then cs[i].off - inChain else 0
      modifies {}
    {
      ChunkInBytes(cs, i);
      var p := Memchr(cs[i].Data(), inChain, what[0]);
      if p.Some? {
        NoFirstByte(cs, i, inChain, p.value, what);
        pos, inChain := pos + (p.value - inChain), p.value;
        IndexAt(cs, i, pos, inChain);
        r := Ptr(pos, cs[i].addr, inChain);
        var diff := PtrMemcmp(b, r, what);
        if diff == 0 {
          if end.Some? && pos + |what| > end.value.pos {
            return NOT_FOUND;
          }
          return r;
        }
        NotHere(s, what, pos);
        pos, inChain := pos + 1, inChain + 1;
        if inChain == cs[i].off {
          i, inChain := i + 1, 0;
        }
      } else {
        NoFirstByte(cs, i, inChain, cs[i].off, what);
        if end.Some? && end.value.chain == cs[i].addr {
          IndexAt(cs, i, 0, 0);
          EndHere(s, what, from, |Bytes(cs[..i + 1])|);
          return NOT_FOUND;
        }
        pos, i, inChain := pos + cs[i].off - inChain, i + 1, 0;
      }
    }
    EndHere(s, what, from, |s|);
    return NOT_FOUND;
  }

  lemma {:induction false} NotHere(s: seq<byte>, what: seq<byte>, pos: int)
    requires |s| <= SIZE_MAX && !(pos + |what| <= SIZE_MAX && MatchAt(s, what, pos))
    ensures NoMatch(s, what, pos, pos + 1)
  {
  }

  /** Any match from `from` on ends after `to` when none starts before it. */
  lemma {:induction false} EndHere(s: seq<byte>, what: seq<byte>, from: int, to: int)
    requires NoMatch(s, what, from, to) && what != []
    ensures forall j :: from <= j && MatchAt(s, what, j) ==> j >= to && j + |what| > to
    ensures to == |s| ==> forall j :: from <= j ==> !MatchAt(s, what, j)
  {
  }

  const CR: byte := 13
  const LF: byte := 10
  const CHUNK_SZ: nat := 128

  /** j is the first offset from `from` on with a byte in stop. */
  ghost predicate FirstIn(s: seq<byte>, from: int, stop: set<byte>, j: int) {
    0 <= from <= j < |s| && s[j] in stop && forall i :: from <= i < j ==> s[i] !in stop
  }

  /** find_eol_char: the first CR or LF, sought in pieces of CHUNK_SZ bytes. */
  method FindEolChar(data: seq<byte>) returns (r: Option<nat>)
    ensures r.Some? ==> FirstIn(data, 0, {CR, LF}, r.value)
    ensures r.None? ==> forall k :: 0 <= k < |data| ==> data[k] !in {CR, LF}
  {
    var at := 0;
    while at < |data|
      invariant 0 <= at && forall k :: 0 <= k < at && k < |data| ==> data[k] !in {CR, LF}
      decreases |data| - at
    {
      var chunk := data[at..if at + CHUNK_SZ < |data| then at + CHUNK_SZ else |data|];
      var cr := Memchr(chunk, 0, CR);
      var lf := Memchr(chunk, 0, LF);
      assert forall k :: at <= k < at + |chunk| ==> data[k] == chunk[k - at];
      if cr.Some? {
        return Some(at + if lf.Some? && lf.value < cr.value then lf.value else cr.value);
      } else if lf.Some? {
        return Some(at + lf.value);
      }
      at := at + CHUNK_SZ;
    }
    return None;
  }

  /** The bytes that a scan stops at: one (evbuffer_strchr), or CR and LF (evbuffer_find_eol_char). */
  datatype Stop = OneByte(c: byte) | EolChars {
    ghost function Bytes(): set<byte> {
      if OneByte? then {c} else {CR, LF}
    }
  }

  /** evbuffer_strchr and evbuffer_find_eol_char. */
  method Scan(b: Buffer, it: Ptr, stop: Stop) returns (r: Option<Ptr>)
    requires b.Valid() && Consistent(b.chains, it)
    ensures r.Some? ==> FirstIn(b.Contents(), it.pos, stop.Bytes(), r.value.pos)
    ensures r.Some? ==> Consistent(b.chains, r.value) && r.value.chain != null
    ensures r.Some? ==> r.value.posInChain < b.chains[Index(b.chains, r.value)].off
    ensures r.None? ==> forall j :: it.pos <= j < |b.Contents()| ==> b.Contents()[j] !in stop.Bytes()
  {
    hide Chain.Data, Chains.Bytes, Chain.Ok, Find, LastWithData, Deref;
    var cs := b.chains;
    ghost var s := b.Contents();
    assert cs[..|cs|] == cs;
    var i, inChain, pos := Index(cs, it), it.posInChain, it.pos;
    while i < |cs|
      invariant 0 <= i <= |cs| && inChain >= 0 && pos == |Chains.Bytes(cs[..i])| + inChain && it.pos <= pos
      invariant if i < |cs| then inChain <= cs[i].off else inChain == 0
      invariant forall j :: it.pos <= j < pos && j < |s| ==> s[j] !in stop.Bytes()
      modifies {}
    {
      ChunkInBytes(cs, i);
      var data := cs[i].Data();
      var p;
      if stop.OneByte? {
        p := Memchr(data, inChain, stop.c);
      } else {
        var e := FindEolChar(data[inChain..]);
        p := if e.Some? then Some(inChain + e.value) else None;
      }
      assert forall k :: inChain <= k < |data| ==> data[inChain..][k - inChain] == data[k];
      ScanChunk(cs, i, inChain, p, stop.Bytes());
      if p.Some? {
        IndexAt(cs, i, pos + p.value - inChain, p.value);
        return Some(Ptr(pos + p.value - inChain, cs[i].addr, p.value));
      }
      pos, inChain, i := pos + cs[i].off - inChain, 0, i + 1;
    }
    return None;
  }

  /** What a scan of chunk i says about the flat bytes. */
  lemma {:induction false} ScanChunk(cs: seq<Chain>, i: nat, from: nat, p: Option<nat>, stop: set<byte>)
    requires Wf(cs) && i < |cs| && from <= cs[i].off == |cs[i].Data()|
    requires p.Some? ==> FirstIn(cs[i].Data(), from, stop, p.value)
    requires p.None? ==> forall k :: from <= k < cs[i].off ==> cs[i].Data()[k] !in stop
    ensures var s, b := Chains.Bytes(cs), |Chains.Bytes(cs[..i])|;
            && (p.Some? ==> FirstIn(s, b + from, stop, b + p.value))
            && (p.None? ==> forall j :: b + from <= j < b + cs[i].off && j < |s| ==> s[j] !in stop)
  {
    hide Chain.Data, Chain.Ok, Chains.Bytes;
    ChunkInBytes(cs, i);
    var s, b := Chains.Bytes(cs), |Chains.Bytes(cs[..i])|;
    forall j | b <= j < b + cs[i].off ensures s[j] == cs[i].Data()[j - b] {
      assert s[b + (j - b)] == cs[i].Data()[j - b];
    }
  }

  /** s[p..p + n] is the longest run of bytes of set from p on. */
  ghost predicate Run(s: seq<byte>, p: int, n: nat, bytes: set<byte>) {
    && 0 <= p && p + n <= |s|
    && (forall k :: p <= k < p + n ==> s[k] in bytes)
    && (p + n == |s| || s[p + n] !in bytes)
  }

  /** evbuffer_strspn, for the characters CR and LF. */
  method StrSpn(b: Buffer, it: Ptr) returns (count: nat)
    requires b.Valid() && (it.chain != null ==> Consistent(b.chains, it))
    ensures if it.chain == null then count == 0 else Run(b.Contents(), it.pos, count, {CR, LF})
    ensures Consistent(b.chains, it) ==> Run(b.Contents(), it.pos, count, {CR, LF})
  {
    hide Chain.Data, Chains.Bytes, Chain.Ok, Find, LastWithData, Deref;
    var cs := b.chains;
    if it.chain == null {
      assert cs[..|cs|] == cs;
      return 0;
    }
    ghost var s := b.Contents();
    assert cs[..|cs|] == cs;
    var i, inChain := Index(cs, it), it.posInChain;
    count := 0;
    while i < |cs|
      invariant 0 <= i <= |cs| && inChain >= 0 && it.pos + count == |Chains.Bytes(cs[..i])| + inChain
      invariant if i < |cs| then inChain <= cs[i].off else inChain == 0
      invariant forall k :: it.pos <= k < it.pos + count && k < |s| ==> s[k] in {CR, LF}
      modifies {}
    {
      ChunkInBytes(cs, i);
      ghost var base := |Chains.Bytes(cs[..i])|;
      while inChain < cs[i].off
        invariant 0 <= inChain <= cs[i].off && it.pos + count == base + inChain
        invariant forall k :: it.pos <= k < it.pos + count && k < |s| ==> s[k] in {CR, LF}
        modifies {}
      {
        assert s[base + inChain] == cs[i].Data()[inChain];
        if cs[i].Data()[inChain] !in {CR, LF} {
          return count;
        }
        count, inChain := count + 1, inChain + 1;
      }
      i, inChain := i + 1, 0;
    }
  }

  /** evbuffer_ptr_subtract */
  method PtrSubtract(b: Buffer, p: Ptr, howfar: nat) returns (res: int, q: Ptr)
    requires b.Valid() && (p.pos >= 0 ==> Consistent(b.chains, p))
    ensures res == if 0 <= howfar <= p.pos then 0 else -1
    ensures res == 0 ==> q.pos == p.pos - howfar && Consistent(b.chains, q)
    ensures res == 0 && 0 < howfar ==> q.chain != null && q.posInChain < b.chains[Index(b.chains, q)].off
  {
    hide Chain.Data, Chains.Bytes, Chain.Ok, Find, LastWithData, Deref;
    if p.pos < 0 || howfar > p.pos {
      return -1, p;
    }
    InRange(b.chains, p);
    if p.chain != null && howfar <= p.posInChain {
      return 0, Ptr(p.pos - howfar, p.chain, p.posInChain - howfar);
    }
    res, q := PtrSet(b, p, p.pos - howfar, PtrSetTo);
    InRange(b.chains, q);
  }

  lemma {:induction false} InRange(cs: seq<Chain>, p: Ptr)
    requires Wf(cs) && Consistent(cs, p)
    ensures p.pos <= |Chains.Bytes(cs)| && (p.chain == null ==> p.pos == |Chains.Bytes(cs)|)
  {
    hide Chain.Data, Chains.Bytes, Chain.Ok, Find;
    assert cs[..|cs|] == cs;
    if p.chain != null {
      ChunkInBytes(cs, Index(cs, p));
    }
  }

  datatype EolStyle = AnyEol | CrlfStrict | Crlf | LfOnly | Nul

  /** The first line end of s from `from` on is s[p..p + n]. */
  ghost predicate EolAt(s: seq<byte>, from: int, style: EolStyle, p: int, n: nat) {
    match style
    case AnyEol => FirstIn(s, from, {CR, LF}, p) && Run(s, p, n, {CR, LF})
    case CrlfStrict => FirstMatch(s, [CR, LF], from, p) && n == 2
    case Crlf =>
      && n in {1, 2} && FirstIn(s, from, {LF}, p + n - 1)
      && (n == 2 <==> p + n - 1 > from && s[p + n - 2] == CR)
    case LfOnly => FirstIn(s, from, {LF}, p) && n == 1
    case Nul => FirstIn(s, from, {0}, p) && n == 1
  }

  /** There is no line end from `from` on. */
  ghost predicate NoEol(s: seq<byte>, from: nat, style: EolStyle) {
    match style
    case AnyEol => forall j :: from <= j < |s| ==> s[j] !in {CR, LF}
    case CrlfStrict => forall j :: from <= j ==> !MatchAt(s, [CR, LF], j)
    case Crlf => forall j :: from <= j < |s| ==> s[j] != LF
    case LfOnly => forall j :: from <= j < |s| ==> s[j] != LF
    case Nul => forall j :: from <= j < |s| ==> s[j] != 0
  }

  /** evbuffer_search_eol */
  method SearchEol(b: Buffer, start: Option<Ptr>, style: EolStyle) returns (r: Ptr, eolLen: nat)
    requires b.Valid() && b.totalLen <= SIZE_MAX && (start.Some? ==> Consistent(b.chains, start.value))
    ensures var s, from := b.Contents(), if start.Some? then start.value.pos else 0;
            if r == NOT_FOUND then NoEol(s, from, style)
            else r.pos >= 0 && Consistent(b.chains, r) && EolAt(s, from, style, r.pos, eolLen)
  {
    hide Chain.Data, Chains.Bytes, Chain.Ok, Find, LastWithData, Deref;
    var cs := b.chains;
    if start.Some? && start.value.chain == null {
      InRange(cs, start.value);
      return NOT_FOUND, 0;
    }
    assert cs[..0] == [];
    BytesNone();
    var it := if start.Some? then start.value else Ptr(0, if cs == [] then null else cs[0].addr, 0);
    if start.None? && cs != [] {
      IndexAt(cs, 0, 0, 0);
    }
    match style {
      case AnyEol =>
        var e := Scan(b, it, EolChars);
        if e.None? {
          return NOT_FOUND, 0;
        }
        eolLen := StrSpn(b, e.value);
        return e.value, eolLen;
      case CrlfStrict =>
        var e := SearchRange(b, [CR, LF], Some(it), None);
        return e, if e == NOT_FOUND then 0 else 2;
      case Crlf =>
        r, eolLen := SearchCrlf(b, it);
      case LfOnly =>
        var e := Scan(b, it, OneByte(LF));
        if e.None? {
          return NOT_FOUND, 0;
        }
        return e.value, 1;
      case Nul =>
        var e := Scan(b, it, OneByte(0));
        if e.None? {
          return NOT_FOUND, 0;
        }
        return e.value, 1;
    }
  }

  /** evbuffer_search_eol for LF, optionally after CR. */
  method SearchCrlf(b: Buffer, it: Ptr) returns (r: Ptr, eolLen: nat)
    requires b.Valid() && Consistent(b.chains, it) && it.pos >= 0
    ensures if r == NOT_FOUND then NoEol(b.Contents(), it.pos, Crlf)
            else r.pos >= 0 && Consistent(b.chains, r) && EolAt(b.Contents(), it.pos, Crlf, r.pos, eolLen)
  {
    hide Chain.Data, Chains.Bytes, Chain.Ok, Find, LastWithData, Deref;
    var e := Scan(b, it, OneByte(LF));
    if e.None? {
      return NOT_FOUND, 0;
    }
    if e.value.pos == it.pos {
      return e.value, 1;
    }
    var res, before := PtrSubtract(b, e.value, 1);
    var i := Index(b.chains, before);
    ChunkInBytes(b.chains, i);
    assert b.Contents()[|Chains.Bytes(b.chains[..i])| + before.posInChain] == b.chains[i].Data()[before.posInChain];
    if b.chains[i].Data()[before.posInChain] == CR {
      return before, 2;
    }
    return e.value, 1;
  }

  /** evbuffer_copyout_from: the n bytes from pos (or the front) on, or as many as there are. */
  method CopyoutFrom(b: Buffer, pos: Option<Ptr>, datlen: nat) returns (res: int, data: seq<byte>)
    requires b.Valid() && (pos.Some? ==> Consistent(b.chains, pos.value))
    ensures pos.Some? && datlen > SSIZE_MAX - pos.value.pos ==> res == -1
    ensures !(pos.Some? && datlen > SSIZE_MAX - pos.value.pos) ==>
              var s, from := b.Contents(), if pos.Some? then pos.value.pos else 0;
              var n := if from + datlen > |s| then |s| - from else datlen;
              if n > 0 && b.freezeStart then res == -1
              else 0 <= n && from + n <= |s| && res == n && data == s[from..from + n]
  {
    hide Chain.Data, Chains.Bytes, Chain.Ok, Find, LastWithData, Deref;
    var cs := b.chains;
    ghost var s := b.Contents();
    data := [];
    var i, inChain, from := 0, 0, 0;
    assert cs[..0] == [];
    BytesNone();
    if pos.Some? {
      if datlen > SSIZE_MAX - pos.value.pos {
        return -1, [];
      }
      InRange(cs, pos.value);
      i, inChain, from := Index(cs, pos.value), pos.value.posInChain, pos.value.pos;
    }
    var left := if from + datlen > b.totalLen then b.totalLen - from else datlen;
    var n := left;
    if left == 0 {
      return 0, [];
    }
    if b.freezeStart {
      return -1, [];
    }
    assert cs[..|cs|] == cs;
    while left > 0 && i < |cs| && left >= cs[i].off - inChain
      invariant 0 <= i <= |cs| && inChain >= 0 && 0 <= left <= n && from + n <= |s| && left + |data| == n
      invariant left > 0 ==> from + |data| == |Chains.Bytes(cs[..i])| + inChain
      invariant left > 0 ==> if i < |cs| then inChain <= cs[i].off else inChain == 0
      invariant data == s[from..from + |data|]
      modifies {}
    {
      CopyPart(cs, i, inChain, cs[i].off, from, data);
      data, left := data + cs[i].Data()[inChain..cs[i].off], left - (cs[i].off - inChain);
      i, inChain := i + 1, 0;
    }
    if left > 0 {
      CopyPart(cs, i, inChain, inChain + left, from, data);
      data := data + cs[i].Data()[inChain..inChain + left];
    }
    return n, data;
  }

  /** Copying bytes p..q of chunk i after a copy of the bytes before them. */
  lemma {:induction false} CopyPart(cs: seq<Chain>, i: nat, p: nat, q: nat, from: nat, data: seq<byte>)
    requires Wf(cs) && i < |cs| && p <= q <= cs[i].off && from + |data| == |Chains.Bytes(cs[..i])| + p
    requires from + |data| <= |Chains.Bytes(cs)| && data == Chains.Bytes(cs)[from..from + |data|]
    ensures |Chains.Bytes(cs[..i + 1])| == |Chains.Bytes(cs[..i])| + cs[i].off && |cs[i].Data()| == cs[i].off
    ensures from + |data| + (q - p) <= |Chains.Bytes(cs)|
    ensures data + cs[i].Data()[p..q] == Chains.Bytes(cs)[from..from + |data| + (q - p)]
  {
    hide Chain.Data, Chain.Ok, Chains.Bytes;
    ChunkInBytes(cs, i);
    var s := Chains.Bytes(cs);
    var mid, end := from + |data|, from + |data| + (q - p);
    assert s[mid..end] == cs[i].Data()[p..q];
    assert s[from..end] == s[from..mid] + s[mid..end];
  }

  /** evbuffer_remove; the result is converted to int. */
  method Remove(b: Buffer, datlen: nat) returns (res: int, data: seq<byte>)
    requires b.Valid()
    modifies b`chains, b`last, b`lastWithDatap, b`totalLen
    ensures b.Valid()
    ensures var n := if datlen > old(b.totalLen) then old(b.totalLen) else datlen;
            if n > 0 && b.freezeStart then res == -1 && b.Contents() == old(b.Contents())
            else res == ToInt(n) && (res < 0 <==> n % TWO_TO_THE_32 >= TWO_TO_THE_31)
                 && data == old(b.Contents())[..n] && b.Contents() == old(b.Contents())[n..]
  {
    hide Chain.Data, Chains.Bytes, Chain.Ok, Find, LastWithData, Deref, Wf;
    var n;
    n, data := CopyoutFrom(b, None, datlen);
    if n > 0 {
      var r := b.Drain(n);
      if r < 0 {
        n := -1;
      }
    }
    return ToInt(n), data;
  }

  /** The end of evbuffer_readln: p bytes are copied out, and n more are drained. */
  method TakeLine(b: Buffer, p: nat, n: nat) returns (line: seq<byte>)
    requires b.Valid() && !b.freezeStart && p + n <= |b.Contents()| <= SIZE_MAX && b.totalLen == |b.Contents()|
    modifies b`chains, b`last, b`lastWithDatap, b`totalLen
    ensures b.Valid() && |line| == p
    ensures old(b.Contents()) == line + old(b.Contents())[p..p + n] + b.Contents()
  {
    hide Chain.Data, Chains.Bytes, Chain.Ok, Find, LastWithData, Deref, Wf, ToInt;
    Cut(b.Contents(), p, n);
    var _, data := Remove(b, p);
    var _ := b.Drain(n);
    return data;
  }

  /**
   evbuffer_readln: takes the first line and its end off the front: what was there is the line, then the line end,
   then what is left.
   */
  method Readln(b: Buffer, style: EolStyle, alloc: bool) returns (line: Option<seq<byte>>)
    requires b.Valid() && b.totalLen <= SIZE_MAX
    modifies b`chains, b`last, b`lastWithDatap, b`totalLen
    ensures b.Valid()
    ensures line.None? <==> b.freezeStart || !alloc || NoEol(old(b.Contents()), 0, style)
    ensures line.None? ==> unchanged(b)
    ensures line.Some? ==>
              var was, n := old(b.Contents()), |old(b.Contents())| - |b.Contents()| - |line.value|;
              && n >= 0 && EolAt(was, 0, style, |line.value|, n)
              && was == line.value + was[|line.value|..|line.value| + n] + b.Contents()
  {
    hide Chain.Data, Chains.Bytes, Chain.Ok, Find, LastWithData, Deref, Wf;
    hide FirstIn, FirstMatch, Run, NoEol, EolAt, ToInt;
    if b.freezeStart {
      return None;
    }
    var it, extra := SearchEol(b, None, style);
    if it.pos < 0 || !alloc {
      return None;
    }
    ghost var was := b.Contents();
    EolInside(was, style, it.pos, extra);
    var data := TakeLine(b, it.pos, extra);
    return Some(data);
  }

  lemma {:induction false} Cut(s: seq<byte>, p: nat, n: nat)
    requires p + n <= |s|
    ensures s[p..][n..] == s[p + n..] && s == s[..p] + s[p..p + n] + s[p + n..]
  {
  }

  lemma {:induction false} EolInside(s: seq<byte>, style: EolStyle, p: nat, n: nat)
    requires EolAt(s, 0, style, p, n)
    ensures p + n <= |s| && n > 0 && !NoEol(s, 0, style)
  {
  }
}
