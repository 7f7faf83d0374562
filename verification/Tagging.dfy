/** Tagged records in a chained buffer (event_tagging.c), with or without memory for each of its steps. */
module Tagging {
  import opened Common
  import opened TagCodec
  import opened Evbuffer
  import Chains

  /** evbuffer_add takes n bytes into a buffer with chunks cs. */
  ghost predicate Takes(cs: seq<Chains.Chain>, frozen: bool, n: nat, alloc: bool) {
    && !frozen && n <= SIZE_MAX - |Chains.Bytes(cs)|
    && (Chains.TakesMore(cs, n) || (alloc && n <= Chains.MAX_CHAIN))
  }

  /** What evbuffer_add leaves of s: data that is not taken is silently dropped. */
  function Appended(s: seq<byte>, taken: bool, data: seq<byte>): (t: seq<byte>)
    ensures |t| == |s| + if taken then |data| else 0
  {
    if taken then s + data else s
  }

  /** What evbuffer_drain leaves of s: everything if the start is frozen. */
  function Drained(s: seq<byte>, frozen: bool, n: nat): (t: seq<byte>)
    ensures n <= |s| && !frozen ==> t == s[n..]
  {
    if frozen then s else if n < |s| then s[n..] else []
  }

  /** DecodedInt, as the code sees it through the length as an ev_ssize_t. */
  function IntIn(s: seq<byte>, maxNibbles: nat): (r: Option<(nat, nat)>)
    ensures r.Some? ==> r.value.1 <= |s|
  {
    if |s| > SSIZE_MAX then None else DecodedInt(s, maxNibbles)
  }

  /** The header that is found when the tag and the length are drained one after the other. */
  function HeaderIn(s: seq<byte>, frozen: bool): (h: Option<Header>) {
    match DecodedTag(s, 0)
    case None => None
    case Some((t, n)) =>
      match IntIn(Drained(s, frozen, n), 8)
      case None => None
      case Some((len, m)) => Some(Header(t, len, n, m))
  }

  /** What follows the header, or what was there if nothing can be drained. */
  function AfterHeader(s: seq<byte>, frozen: bool, h: Header): (t: seq<byte>) {
    Drained(s, frozen, h.tagLen + h.intLen)
  }

  lemma {:induction false} HeaderInIs(s: seq<byte>, frozen: bool)
    ensures !frozen && |s| <= SSIZE_MAX ==> HeaderIn(s, frozen) == DecodedHeader(s)
    ensures !frozen && HeaderIn(s, frozen).Some? ==> DecodedHeader(s) == HeaderIn(s, frozen)
    ensures frozen && HeaderIn(s, frozen).Some? ==>
              var h := HeaderIn(s, frozen).value; DecodedInt(s, 8) == Some((h.len, h.intLen))
  {
    hide DecodedInt, DecodedTag;
    if DecodedTag(s, 0).Some? {
      assert |s[DecodedTag(s, 0).value.1..]| <= |s|;
    }
  }

  lemma {:induction false} DrainedTwice(s: seq<byte>, frozen: bool, n: nat, m: nat)
    ensures Drained(Drained(s, frozen, n), frozen, m) == Drained(s, frozen, n + m)
  {
    if !frozen && n + m < |s| {
      assert s[n..][m..] == s[n + m..];
    }
  }

  lemma {:induction false} EncodedTagStep(was: seq<byte>, tag: nat, lower: byte)
    requires lower == if tag / 128 > 0 then tag % 128 + 128 else tag % 128
    ensures was + EncodedTag(tag) == was + [lower] + if tag / 128 > 0 then EncodedTag(tag / 128) else []
  {
    if tag / 128 > 0 {
      assert was + ([lower] + EncodedTag(tag / 128)) == (was + [lower]) + EncodedTag(tag / 128);
    }
  }

  /** The loop of evtag_encode_tag. */
  method TagBytes(tag: nat) returns (data: array<byte>, bytes: nat)
    requires tag < TWO_TO_THE_32
    ensures fresh(data) && bytes <= data.Length == 5 && data[..bytes] == EncodedTag(tag)
  {
    hide EncodedTag;
    data := new byte[5];
    var rest, more := tag, true;
    bytes := 0;
    TagRoundTrip(tag, [], 0);
    while more
      invariant 0 <= bytes <= 5 && 0 <= rest && (more ==> bytes < 5 && rest < TagLimit(bytes))
      invariant EncodedTag(tag) == data[..bytes] + if more then EncodedTag(rest) else []
      decreases more, rest
    {
      ghost var was, now := data[..bytes], rest;
      var lower: byte := rest % 128;
      rest := rest / 128;
      if rest > 0 {
        lower := lower + 128;
      }
      data[bytes] := lower;
      bytes := bytes + 1;
      more := rest > 0;
      assert data[..bytes] == was + [lower];
      EncodedTagStep(was, now, lower);
    }
  }

  /** evtag_encode_tag: appends the tag; returns the number of bytes, whether or not the buffer took them. */
  method EncodeTag(b: Buffer, tag: nat, alloc: bool) returns (bytes: nat)
    requires b.Valid() && tag < TWO_TO_THE_32
    modifies b`chains, b`last, b`lastWithDatap, b`totalLen
    ensures b.Valid() && bytes == |EncodedTag(tag)| <= 5
    ensures b.Contents()
            == Appended(old(b.Contents()), Takes(old(b.chains), b.freezeEnd, |EncodedTag(tag)|, alloc), EncodedTag(tag))
  {
    hide Chains.Layout, Chains.Bytes, Chains.TakesMore;
    LengthIs(b);
    TagRoundTrip(tag, [], 0);
    var data;
    data, bytes := TagBytes(tag);
    var _ := b.Add(data[..bytes], alloc);
  }

  /** evtag_encode_int: appends the integer. */
  method EncodeInt(b: Buffer, number: nat, alloc: bool)
    requires b.Valid() && number < TWO_TO_THE_32
    modifies b`chains, b`last, b`lastWithDatap, b`totalLen
    ensures b.Valid() && |EncodedInt(number)| <= 5
    ensures var n := EncodedInt(number);
            b.Contents() == Appended(old(b.Contents()), Takes(old(b.chains), b.freezeEnd, |n|, alloc), n)
  {
    hide Chains.Layout, Chains.Bytes, EncodedInt, Pow16, Chains.TakesMore;
    LengthIs(b);
    IntRoundTrips(number, []);
    Powers();
    var data := new byte[5];
    var len := EncodeIntInternal(data, number, 8);
    var _ := b.Add(data[..len], alloc);
  }

  /** The tag that a decoder finds once it has read i bytes that make up `number`. */
  ghost function TagAfter(number: nat, i: nat, rest: Option<(nat, nat)>): (r: Option<(nat, nat)>) {
    match rest
    case None => None
    case Some((t, n)) => Some((number + Weight(i) * t, i + n))
  }

  function Weight(i: nat): (w: nat) {
    if i == 0 then 1 else 128 * Weight(i - 1)
  }

  lemma {:induction false} TagAfterStep(s: seq<byte>, number: nat, i: nat)
    requires i < |s| && i <= 4 && s[i] >= 128 && !(i == 4 && s[i] % 128 > 15)
    ensures TagAfter(number, i, DecodedTag(s[i..], i))
            == TagAfter(number + Weight(i) * (s[i] % 128), i + 1, DecodedTag(s[i + 1..], i + 1))
  {
    assert s[i..][1..] == s[i + 1..];
    var next := DecodedTag(s[i + 1..], i + 1);
    if next.Some? {
      var t, w, d := next.value.0, Weight(i), s[i] % 128;
      assert Weight(i + 1) == 128 * w;
      assert w * (d + 128 * t) == w * d + (128 * w) * t;
    }
  }

  /** Does the decoder load the sixth byte of s, which no tag has? */
  ghost predicate SixthRead(s: seq<byte>) {
    |s| >= 6 && (forall i :: 0 <= i < 5 ==> s[i] >= 128) && s[4] % 128 <= 15
  }

  /** Where the decoder's load of a sixth byte goes. */
  datatype SixthByte = NotRead | InData | PastData | PastChunk

  /** The loop of decode_tag_internal, over the front `data` of the len bytes s. */
  method ReadTag(data: seq<byte>, len: nat, ghost s: seq<byte>) returns (count: int, tag: nat, ghost sixth: bool)
    requires |s| == len && data <= s && |data| >= if len < 5 then len else 5
    ensures match DecodedTag(s, 0)
            case None => count == -1
            case Some(r) => tag == r.0 && count == r.1
    ensures sixth <==> SixthRead(s)
  {
    hide DecodedTag;
    tag, sixth := 0, false;
    var i := 0;
    assert s[0..] == s;
    TagAfterNone(s);
    while i < len
      invariant 0 <= i <= len && i <= 5 && tag >= 0
      invariant DecodedTag(s, 0) == TagAfter(tag, i, DecodedTag(s[i..], i))
      invariant forall j :: 0 <= j < i ==> s[j] >= 128
      invariant i == 5 ==> s[4] % 128 <= 15
    {
      DecodedTagAt(s, i);
      if i == 5 {
        // The original loads *data before it looks at the shift.
        sixth := true;
        return -1, tag, sixth;
      }
      var lower := data[i];
      assert lower == s[i];
      if i == 4 && lower % 128 > 15 {
        return -1, tag, sixth;
      }
      if lower < 128 {
        return i + 1, tag + Weight(i) * lower, sixth;
      }
      TagAfterStep(s, tag, i);
      tag, i := tag + Weight(i) * (lower % 128), i + 1;
    }
    DecodedTagAt(s, i);
    return -1, tag, sixth;
  }

  lemma {:induction false} TagAfterNone(s: seq<byte>)
    ensures TagAfter(0, 0, DecodedTag(s, 0)) == DecodedTag(s, 0)
  {
  }

  /** The decoder's first step at byte i. */
  lemma {:induction false} DecodedTagAt(s: seq<byte>, i: nat)
    requires i <= |s|
    ensures i == |s| || i > 4 || (i == 4 && s[i] % 128 > 15) ==> DecodedTag(s[i..], i) == None
    ensures i < |s| && i <= 4 && !(i == 4 && s[i] % 128 > 15) && s[i] < 128 ==> DecodedTag(s[i..], i) == Some((s[i], 1))
  {
  }

  /** The bytes that a tag may take. */
  function FrontLen(len: nat): (n: nat) {
    if len < 5 then len else 5
  }

  /** evbuffer_pullup of n bytes fails for want of memory; `room` is what the first chunk has. */
  predicate Dry(room: int, n: nat, alloc: bool) {
    room < n && !alloc
  }

  /** Does malloc work in the evbuffer_pullup for the tag, for an integer's first byte, and for all of the integer? */
  datatype Mallocs = Mallocs(tag: bool, first: bool, rest: bool)

  /** The tag of a buffer with chunks cs cannot be looked at for want of memory. */
  predicate TagDry(cs: seq<Chains.Chain>, len: nat, alloc: bool) {
    len > 0 && Dry(RoomInFront(cs), FrontLen(len), alloc)
  }

  /** The integer s at an offset cannot be looked at for want of memory. */
  predicate IntDry(room: int, s: seq<byte>, offset: nat, maxNibbles: nat, first: bool, rest: bool) {
    && 0 < |s| <= SSIZE_MAX
    && (Dry(room, offset + 1, first)
        || (room >= offset + 1
            && var k := s[0] / 16 + 1; k <= maxNibbles && k / 2 + 1 <= |s| && Dry(room, offset + k / 2 + 1, rest)))
  }

  /**
   decode_tag_internal: the tag at the front, drained on request; the result is its length, or -1.

   It asks for five contiguous bytes and may load a sixth one, which lies behind the data of the first chunk when that
   has at most five bytes, and outside the chunk when it has room for no more.
   */
  method DecodeTagInternal(b: Buffer, doDrain: bool, alloc: bool)
    returns (res: int, tag: nat, ghost sixth: SixthByte)
    requires b.Valid()
    modifies b`chains, b`last, b`lastWithDatap, b`totalLen
    ensures b.Valid()
    ensures TagDry(old(b.chains), |old(b.Contents())|, alloc) ==> res == -1 && b.Contents() == old(b.Contents())
    ensures !TagDry(old(b.chains), |old(b.Contents())|, alloc) ==>
              match DecodedTag(old(b.Contents()), 0)
              case None => res == -1 && b.Contents() == old(b.Contents())
              case Some(r) => (res == r.1 && tag == r.0
                  && b.Contents() == Drained(old(b.Contents()), b.freezeStart || !doDrain, r.1))
    ensures res != -1 && !doDrain ==>
              var room := RoomInFront(old(b.chains));
              if room >= FrontLen(|b.Contents()|) then RoomInFront(b.chains) == room
              else RoomInFront(b.chains) >= Chains.MIN_BUFFER_SIZE - Chains.CHAIN_HEADER
    ensures sixth == NotRead <==>
              TagDry(old(b.chains), |old(b.Contents())|, alloc) || !SixthRead(old(b.Contents()))
    ensures sixth != NotRead ==> (old(b.chains) != []
            && (sixth == InData <==> old(b.chains)[0].off > 5)
            && (sixth == PastChunk <==> old(b.chains)[0].Room() == 5))
  {
    hide Chains.Layout, Chains.Bytes, DecodedTag, Chains.Chain.Ok, Chains.Chain.Data;
    var len := b.totalLen;
    ghost var s := b.Contents();
    LengthIs(b);
    FirstFits(b);
    sixth := NotRead;
    var data := b.Pullup(if len < 5 then len else 5, alloc);
    if data.None? {
      DecodedTagAt(s, 0);
      assert s[0..] == s;
      return -1, 0, sixth;
    }
    ghost var read;
    res, tag, read := ReadTag(data.value, len, s);
    if read {
      sixth := if |data.value| > 5 then InData else if b.chains[0].Room() > 5 then PastData else PastChunk;
    }
    if res >= 0 && doDrain {
      var _ := b.Drain(res);
    }
  }

  /**
   DECODE_INT_INTERNAL: the integer at an offset, not drained; the result is its length, or -1.

   The null pointer of a failed evbuffer_pullup is looked for after the offset was added to it: no result stands for a
   load from there.
   */
  method DecodeIntInternal(b: Buffer, offset: nat, maxNibbles: nat, limit: nat, first: bool, rest: bool)
    returns (res: Option<int>, number: nat)
    requires b.Valid() && offset <= b.totalLen && offset <= 5 && maxNibbles <= 16 && Pow16(maxNibbles) <= limit
    modifies b`chains, b`last, b`lastWithDatap
    ensures b.Valid() && b.Contents() == old(b.Contents()) && offset <= |b.Contents()|
    ensures if IntDry(RoomInFront(old(b.chains)), b.Contents()[offset..], offset, maxNibbles, first, rest) then
              res == if offset == 0 then Some(-1) else None
            else
              match IntIn(b.Contents()[offset..], maxNibbles)
              case None => res == Some(-1)
              case Some(r) => res == Some(r.1) && number == r.0 && number < limit
  {
    hide Chains.Layout, Chains.Bytes, DecodedFrom, Pow16, Chains.Chain.Data, Chains.Chain.Room, Chains.Chain.Ok;
    LengthIs(b);
    FirstFits(b);
    ghost var s := b.Contents()[offset..];
    var len := b.totalLen - offset;
    if len <= 0 || len > SSIZE_MAX {
      return Some(-1), 0;
    }
    var data := b.Pullup(offset + 1, first);
    if data.None? {
      return if offset == 0 then Some(-1) else None, 0;
    }
    assert data.value[offset] == s[0];
    var nibbles := data.value[offset] / 16 + 1;
    if nibbles > maxNibbles || nibbles / 2 + 1 > len {
      return Some(-1), 0;
    }
    len := nibbles / 2 + 1;
    data := b.Pullup(offset + len, rest);
    if data.None? {
      return if offset == 0 then Some(-1) else None, 0;
    }
    PowGrows(nibbles, maxNibbles);
    number := DecodeNibbles(data.value[offset..], nibbles, limit);
    assert data.value[offset..] <= s;
    DecodedPrefix(data.value[offset..], s, 1, nibbles);
    return Some(len), number;
  }

  lemma {:induction false} DecodedPrefix(d: seq<byte>, s: seq<byte>, a: nat, k: nat)
    requires d <= s && k / 2 < |d|
    ensures DecodedFrom(d, a, k) == DecodedFrom(s, a, k)
    decreases k + 1 - a
  {
    if a <= k {
      DecodedPrefix(d, s, a + 1, k);
    }
  }

  /** evtag_decode_int */
  method DecodeInt(b: Buffer, first: bool, rest: bool) returns (res: int, number: nat)
    requires b.Valid()
    modifies b`chains, b`last, b`lastWithDatap, b`totalLen
    ensures b.Valid()
    ensures if IntDry(RoomInFront(old(b.chains)), old(b.Contents()), 0, 8, first, rest) then
              res == -1 && b.Contents() == old(b.Contents())
            else
              match IntIn(old(b.Contents()), 8)
              case None => res == -1 && b.Contents() == old(b.Contents())
              case Some(r) => (res == 0 && number == r.0 < TWO_TO_THE_32
                  && b.Contents() == Drained(old(b.Contents()), b.freezeStart, r.1))
  {
    hide Chains.Layout, Chains.Bytes, DecodedInt, Pow16, IntDry, RoomInFront;
    Powers();
    LengthIs(b);
    assert b.Contents()[0..] == b.Contents();
    var r;
    r, number := DecodeIntInternal(b, 0, 8, TWO_TO_THE_32, first, rest);
    LengthIs(b);
    if r == Some(-1) {
      return -1, number;
    }
    var _ := b.Drain(r.value);
    return 0, number;
  }

  /** The header cannot be looked at for want of memory; `room` is what the first chunk has once the tag is drained. */
  ghost predicate HeaderDry(cs: seq<Chains.Chain>, s: seq<byte>, frozen: bool, m: Mallocs, room: int) {
    || TagDry(cs, |s|, m.tag)
    || (DecodedTag(s, 0).Some? && IntDry(room, Drained(s, frozen, DecodedTag(s, 0).value.1), 0, 8, m.first, m.rest))
  }

  /** What there is when no header could be read: the tag is gone if it was read. */
  ghost function AfterNoHeader(cs: seq<Chains.Chain>, s: seq<byte>, frozen: bool, m: Mallocs): (t: seq<byte>) {
    if TagDry(cs, |s|, m.tag) || DecodedTag(s, 0).None? then s else Drained(s, frozen, DecodedTag(s, 0).value.1)
  }

  /**
   evtag_unmarshal_header: drains the tag and the length, even when it then fails.  `room` is what the first chunk has
   between the two.
   */
  method UnmarshalHeader(b: Buffer, m: Mallocs) returns (res: int, tag: nat, ghost room: int)
    requires b.Valid()
    modifies b`chains, b`last, b`lastWithDatap, b`totalLen
    ensures b.Valid()
    ensures HeaderDry(old(b.chains), old(b.Contents()), b.freezeStart, m, room)
            || HeaderIn(old(b.Contents()), b.freezeStart).None? ==>
              res == -1 && b.Contents() == AfterNoHeader(old(b.chains), old(b.Contents()), b.freezeStart, m)
    ensures !HeaderDry(old(b.chains), old(b.Contents()), b.freezeStart, m, room) ==>
              match HeaderIn(old(b.Contents()), b.freezeStart)
              case None => true
              case Some(h) => (tag == h.tag && h.len < TWO_TO_THE_32
                  && b.Contents() == AfterHeader(old(b.Contents()), b.freezeStart, h)
                  && res == if |b.Contents()| < h.len then -1 else ToInt(h.len))
  {
    hide Chains.Layout, Chains.Bytes, DecodedInt, DecodedTag, Drained, IntIn, IntDry, TagDry, RoomInFront;
    ghost var s := b.Contents();
    var r, t0, _ := DecodeTagInternal(b, true, m.tag);
    tag, room := t0, RoomInFront(b.chains);
    if r == -1 {
      return -1, tag, room;
    }
    ghost var t := b.Contents();
    var len;
    r, len := DecodeInt(b, m.first, m.rest);
    if r == -1 {
      return -1, tag, room;
    }
    LengthIs(b);
    DrainedTwice(s, b.freezeStart, DecodedTag(s, 0).value.1, IntIn(t, 8).value.1);
    if b.totalLen < len {
      return -1, tag, room;
    }
    return ToInt(len), tag, room;
  }

  /** evtag_peek_length loads from a null pointer and the length of the tag. */
  ghost predicate PeeksAtNull(cs: seq<Chains.Chain>, s: seq<byte>, m: Mallocs) {
    && !TagDry(cs, |s|, m.tag) && DecodedTag(s, 0).Some? && RoomInFront(cs) >= FrontLen(|s|)
    && var n := DecodedTag(s, 0).value.1; IntDry(RoomInFront(cs), s[n..], n, 8, m.first, m.rest)
  }

  /** evtag_peek_length: the whole length of the next record, with 32-bit wrap-around. */
  method PeekLength(b: Buffer, m: Mallocs) returns (res: Option<int>, length: nat)
    requires b.Valid()
    modifies b`chains, b`last, b`lastWithDatap, b`totalLen
    ensures b.Valid() && b.Contents() == old(b.Contents())
    ensures res.None? <==> PeeksAtNull(old(b.chains), b.Contents(), m)
    ensures TagDry(old(b.chains), |b.Contents()|, m.tag) ==> res == Some(-1)
    ensures res.Some? && !TagDry(old(b.chains), |b.Contents()|, m.tag) ==>
              match HeaderIn(b.Contents(), false)
              case None => res == Some(-1)
              case Some(h) => res == Some(0) && length == (h.len + h.intLen + h.tagLen) % TWO_TO_THE_32
  {
    hide Chains.Layout, Chains.Bytes, DecodedInt, DecodedTag, Pow16, IntIn, TagDry, IntDry, RoomInFront;
    Powers();
    LengthIs(b);
    DecodedTagLen(b.Contents());
    var len, _, _ := DecodeTagInternal(b, false, m.tag);
    if len == -1 {
      return Some(-1), 0;
    }
    LengthIs(b);
    NewIsEnough(RoomInFront(b.chains), b.Contents()[len..], len, m.first, m.rest);
    var r, n := DecodeIntInternal(b, len, 8, TWO_TO_THE_32, m.first, m.rest);
    if r.None? {
      return None, 0;
    }
    if r == Some(-1) {
      return Some(-1), 0;
    }
    return Some(0), (n + r.value + len) % TWO_TO_THE_32;
  }

  /** A chunk made for the tag has room for the length. */
  lemma {:induction false} NewIsEnough(room: int, s: seq<byte>, offset: nat, first: bool, rest: bool)
    requires offset <= 5
    ensures room >= Chains.MIN_BUFFER_SIZE - Chains.CHAIN_HEADER ==> !IntDry(room, s, offset, 8, first, rest)
  {
  }

  lemma {:induction false} DecodedTagLen(s: seq<byte>)
    ensures DecodedTag(s, 0).Some? ==> DecodedTag(s, 0).value.1 <= 5
  {
    if DecodedTag(s, 0).Some? {
      DecodedTagBounds(s, 0);
    }
  }

  /** The conversion of an int to size_t. */
  function ToSize(n: int): (m: nat)
    requires -TWO_TO_THE_31 <= n < TWO_TO_THE_31
    ensures n >= 0 ==> m == n
    ensures n < 0 ==> m > Chains.MAX_CHAIN && m == SIZE_MAX + 1 + n
  {
    if n >= 0 then n else SIZE_MAX + 1 + n
  }

  /** evtag_consume: drains the next record, and all there is when its length is no int. */
  method Consume(b: Buffer, m: Mallocs) returns (res: int, ghost room: int)
    requires b.Valid()
    modifies b`chains, b`last, b`lastWithDatap, b`totalLen
    ensures b.Valid()
    ensures HeaderDry(old(b.chains), old(b.Contents()), b.freezeStart, m, room)
            || HeaderIn(old(b.Contents()), b.freezeStart).None? ==>
              res == -1 && b.Contents() == AfterNoHeader(old(b.chains), old(b.Contents()), b.freezeStart, m)
    ensures !HeaderDry(old(b.chains), old(b.Contents()), b.freezeStart, m, room) ==>
              match HeaderIn(old(b.Contents()), b.freezeStart)
              case None => true
              case Some(h) => var rest := AfterHeader(old(b.Contents()), b.freezeStart, h);
                  if |rest| < h.len || ToInt(h.len) == -1 then res == -1 && b.Contents() == rest
                  else res == 0 && b.Contents() == Drained(rest, b.freezeStart, ToSize(ToInt(h.len)))
  {
    hide Chains.Layout, Chains.Bytes, HeaderIn, AfterHeader, ToInt, DecodedTag, HeaderDry, TagDry, AfterNoHeader;
    var len, _, r := UnmarshalHeader(b, m);
    room := r;
    if len == -1 {
      return -1, room;
    }
    LengthIs(b);
    var _ := b.Drain(ToSize(len));
    return 0, room;
  }

  /**
   evtag_unmarshal: moves the next record's payload to the end of dst.  No result stands for copying the payload from
   the null pointer of a failed evbuffer_pullup; `behind` is what the first chunk has behind the header.
   */
  method Unmarshal(src: Buffer, dst: Buffer, m: Mallocs, pull: bool, alloc: bool)
    returns (res: Option<int>, tag: nat, ghost room: int, ghost behind: int)
    requires src.Valid() && dst.Valid() && src != dst
    modifies src`chains, src`last, src`lastWithDatap, src`totalLen
    modifies dst`chains, dst`last, dst`lastWithDatap, dst`totalLen
    ensures src.Valid() && dst.Valid()
    ensures HeaderDry(old(src.chains), old(src.Contents()), src.freezeStart, m, room)
            || HeaderIn(old(src.Contents()), src.freezeStart).None? ==>
              && res == Some(-1) && dst.Contents() == old(dst.Contents())
              && src.Contents() == AfterNoHeader(old(src.chains), old(src.Contents()), src.freezeStart, m)
    ensures !HeaderDry(old(src.chains), old(src.Contents()), src.freezeStart, m, room) ==>
              match HeaderIn(old(src.Contents()), src.freezeStart)
              case None => true
              case Some(h) => var rest := AfterHeader(old(src.Contents()), src.freezeStart, h);
                  if |rest| < h.len || h.len >= TWO_TO_THE_31
                     || !Takes(old(dst.chains), dst.freezeEnd, h.len, alloc) then
                    res == Some(-1) && src.Contents() == rest && dst.Contents() == old(dst.Contents())
                  else if h.len > 0 && Dry(behind, h.len, pull) then
                    res == None
                  else
                    res == Some(h.len) && tag == h.tag && src.Contents() == Drained(rest, src.freezeStart, h.len)
                    && dst.Contents() == old(dst.Contents()) + rest[..h.len]
  {
    hide Chains.Layout, Chains.Bytes, HeaderIn, AfterHeader, ToInt, DecodedTag, HeaderDry, TagDry, Chains.TakesMore;
    hide RoomInFront, AfterNoHeader;
    LengthIs(src);
    LengthIs(dst);
    var len;
    len, tag, room := UnmarshalHeader(src, m);
    behind := RoomInFront(src.chains);
    if len == -1 {
      return Some(-1), tag, room, behind;
    }
    if len < 0 {
      // The length, converted to size_t, exceeds any chunk, so adding fails.
      var _ := src.Pullup(len, pull);
      assert ToSize(len) > Chains.MAX_CHAIN;
      return Some(-1), tag, room, behind;
    }
    LengthIs(src);
    res := MovePayload(src, dst, len, pull, alloc);
  }

  /** The end of evtag_unmarshal: evbuffer_pullup, evbuffer_add and evbuffer_drain of len bytes. */
  method MovePayload(src: Buffer, dst: Buffer, len: nat, pull: bool, alloc: bool) returns (res: Option<int>)
    requires src.Valid() && dst.Valid() && src != dst && len <= |src.Contents()| && len < TWO_TO_THE_31
    modifies src`chains, src`last, src`lastWithDatap, src`totalLen
    modifies dst`chains, dst`last, dst`lastWithDatap, dst`totalLen
    ensures src.Valid() && dst.Valid()
    ensures var rest := old(src.Contents());
            if !Takes(old(dst.chains), dst.freezeEnd, len, alloc) then
              res == Some(-1) && src.Contents() == rest && dst.Contents() == old(dst.Contents())
            else if len > 0 && Dry(RoomInFront(old(src.chains)), len, pull) then
              res == None
            else
              res == Some(len) && src.Contents() == Drained(rest, src.freezeStart, len)
              && dst.Contents() == old(dst.Contents()) + rest[..len]
  {
    hide Chains.Layout, Chains.Bytes, Chains.TakesMore, RoomInFront;
    LengthIs(src);
    LengthIs(dst);
    ghost var rest := src.Contents();
    var data := src.Pullup(len, pull);
    var part := if data.Some? then data.value[..len] else seq(len, _ => 0);
    assert data.Some? || len == 0 ==> part == rest[..len];
    var r := dst.Add(part, alloc);
    if r == -1 {
      return Some(-1);
    }
    if data.None? && len > 0 {
      return None;
    }
    LengthIs(src);
    var _ := src.Drain(len);
    return Some(len);
  }

  /** Which of the three parts of a record; also for which of them there is memory. */
  datatype Parts = Parts(tag: bool, len: bool, payload: bool)

  const ALL: Parts := Parts(true, true, true)

  /** What evtag_marshal leaves of s when the buffer takes just the given parts. */
  function Marshalled(s: seq<byte>, parts: Parts, r: Record): (t: seq<byte>)
    requires |r.payload| < TWO_TO_THE_32
  {
    Appended(TagAndLength(s, parts, r), parts.payload, r.payload)
  }

  function TagAndLength(s: seq<byte>, parts: Parts, r: Record): (t: seq<byte>)
    requires |r.payload| < TWO_TO_THE_32
  {
    Appended(Appended(s, parts.tag, EncodedTag(r.tag)), parts.len, EncodedInt(|r.payload|))
  }

  /** Whether data is taken behind s follows from room and memory, unless there is room and no memory. */
  predicate Fitting(s: seq<byte>, frozen: bool, alloc: bool, data: seq<byte>, taken: bool) {
    && (taken ==> !frozen && |data| <= SIZE_MAX - |s|)
    && (alloc && !frozen && |data| <= SIZE_MAX - |s| ==> taken)
  }

  predicate PartsFit(s: seq<byte>, frozen: bool, allocs: Parts, r: Record, parts: Parts)
    requires |r.payload| < TWO_TO_THE_32
  {
    && Fitting(s, frozen, allocs.tag, EncodedTag(r.tag), parts.tag)
    && Fitting(Appended(s, parts.tag, EncodedTag(r.tag)), frozen, allocs.len, EncodedInt(|r.payload|), parts.len)
    && Fitting(TagAndLength(s, parts, r), frozen, allocs.payload, r.payload, parts.payload)
  }

  /** The record is appended just when all of it is taken; with memory, just when the end is open and all of it fits. */
  lemma {:induction false} MarshalledFits(s: seq<byte>, frozen: bool, allocs: Parts, r: Record, parts: Parts)
    requires |r.payload| < TWO_TO_THE_32 && PartsFit(s, frozen, allocs, r, parts)
    ensures Marshalled(s, parts, r) == s + Encoded(r) <==>
              parts.tag && parts.len && (parts.payload || r.payload == [])
    ensures allocs == ALL ==>
              (Marshalled(s, parts, r) == s + Encoded(r) <==> !frozen && |s| + |Encoded(r)| <= SIZE_MAX)
    ensures frozen ==> Marshalled(s, parts, r) == s
  {
    hide EncodedTag, EncodedInt;
    var t, n, p := EncodedTag(r.tag), EncodedInt(|r.payload|), r.payload;
    EncodedNonEmpty(r);
    assert s + t + n + p == s + (t + n + p) && s + t + n == s + (t + n);
    assert |s + Encoded(r)| == |s| + |t| + |n| + |p|;
  }

  lemma {:induction false} EncodedNonEmpty(r: Record)
    requires |r.payload| < TWO_TO_THE_32
    ensures |EncodedTag(r.tag)| > 0 && |EncodedInt(|r.payload|)| > 0
  {
  }

  /** evtag_marshal: appends a record; `low` and `high` are the chunks before and after its length is added. */
  method Marshal(b: Buffer, r: Record, allocs: Parts)
    returns (ghost parts: Parts, ghost low: seq<Chains.Chain>, ghost high: seq<Chains.Chain>)
    requires b.Valid() && r.tag < TWO_TO_THE_32 && |r.payload| < TWO_TO_THE_32
    modifies b`chains, b`last, b`lastWithDatap, b`totalLen
    ensures b.Valid() && b.Contents() == Marshalled(old(b.Contents()), parts, r)
    ensures PartsFit(old(b.Contents()), b.freezeEnd, allocs, r, parts)
    ensures parts == Parts(Takes(old(b.chains), b.freezeEnd, |EncodedTag(r.tag)|, allocs.tag),
                           Takes(low, b.freezeEnd, |EncodedInt(|r.payload|)|, allocs.len),
                           Takes(high, b.freezeEnd, |r.payload|, allocs.payload))
    ensures Chains.Bytes(low) == Appended(old(b.Contents()), parts.tag, EncodedTag(r.tag))
    ensures Chains.Bytes(high) == TagAndLength(old(b.Contents()), parts, r)
  {
    hide Chains.Layout, Chains.Bytes, EncodedTag, EncodedInt, Chains.TakesMore;
    ghost var cs := b.chains;
    var _ := EncodeTag(b, r.tag, allocs.tag);
    low := b.chains;
    EncodeInt(b, |r.payload|, allocs.len);
    high := b.chains;
    LengthIs(b);
    parts := Parts(Takes(cs, b.freezeEnd, |EncodedTag(r.tag)|, allocs.tag),
                   Takes(low, b.freezeEnd, |EncodedInt(|r.payload|)|, allocs.len),
                   Takes(high, b.freezeEnd, |r.payload|, allocs.payload));
    var _ := b.Add(r.payload, allocs.payload);
  }

  /** What evtag_peek_length reports for an encoded record is its size, and evtag_consume removes just that. */
  lemma {:induction false} PeekedLength(r: Record, rest: seq<byte>)
    requires r.Ok()
    ensures var s := Encoded(r) + rest;
            var h := DecodedHeader(s);
            && h.Some? && (h.value.len + h.value.intLen + h.value.tagLen) % TWO_TO_THE_32 == |Encoded(r)|
            && h.value.tag == r.tag && h.value.len == |r.payload|
            && s[h.value.tagLen + h.value.intLen..] == r.payload + rest
            && s[h.value.tagLen + h.value.intLen..][h.value.len..] == rest == s[|Encoded(r)|..]
  {
    hide DecodedHeader, EncodedTag, EncodedInt, Encoded;
    RecordRoundTrip(r, rest);
    Small(|Encoded(r)|);
    assert (r.payload + rest)[|r.payload|..] == rest;
    assert (Encoded(r) + rest)[|Encoded(r)|..] == rest;
  }

  lemma {:induction false} Small(x: nat)
    requires x < TWO_TO_THE_32
    ensures x % TWO_TO_THE_32 == x
  {
  }

  /** What marshalling records leaves of s, with the parts that are taken of each. */
  ghost function AllMarshalled(s: seq<byte>, parts: seq<Parts>, rs: seq<Record>): (t: seq<byte>)
    requires AllOk(rs) && |parts| == |rs|
    decreases |rs|
  {
    if rs == [] then s
    else var n := |rs| - 1; Marshalled(AllMarshalled(s, parts[..n], rs[..n]), parts[n], rs[n])
  }

  ghost predicate AllPartsFit(s: seq<byte>, frozen: bool, allocs: seq<Parts>, rs: seq<Record>, parts: seq<Parts>)
    requires AllOk(rs) && |allocs| == |parts| == |rs|
    decreases |rs|
  {
    rs == []
    || var n := |rs| - 1;
       && AllPartsFit(s, frozen, allocs[..n], rs[..n], parts[..n])
       && PartsFit(AllMarshalled(s, parts[..n], rs[..n]), frozen, allocs[n], rs[n], parts[n])
  }

  /** With memory, records that fit altogether are appended one behind the other; none is if the end is frozen. */
  lemma {:induction false} AllFit(s: seq<byte>, frozen: bool, allocs: seq<Parts>, rs: seq<Record>, parts: seq<Parts>)
    requires AllOk(rs) && |allocs| == |parts| == |rs| && AllPartsFit(s, frozen, allocs, rs, parts)
    ensures (forall i :: 0 <= i < |allocs| ==> allocs[i] == ALL) && !frozen && |s| + |EncodedAll(rs)| <= SIZE_MAX ==>
              AllMarshalled(s, parts, rs) == s + EncodedAll(rs)
    ensures frozen ==> AllMarshalled(s, parts, rs) == s
    decreases |rs|
  {
    hide Encoded, Marshalled, PartsFit;
    if rs != [] {
      var n := |rs| - 1;
      var before := AllMarshalled(s, parts[..n], rs[..n]);
      AllFit(s, frozen, allocs[..n], rs[..n], parts[..n]);
      MarshalledFits(before, frozen, allocs[n], rs[n], parts[n]);
      EncodedAllSnoc(rs[..n], rs[n]);
      assert rs == rs[..n] + [rs[n]];
      assert s + EncodedAll(rs[..n]) + Encoded(rs[n]) == s + (EncodedAll(rs[..n]) + Encoded(rs[n]));
    }
  }

  lemma {:induction false} EncodedAllSnoc(rs: seq<Record>, r: Record)
    requires AllOk(rs) && r.Ok()
    ensures EncodedAll(rs + [r]) == EncodedAll(rs) + Encoded(r)
  {
    hide Encoded;
    if rs == [] {
      assert rs + [r] == [r] && [r][1..] == [] && Encoded(r) + [] == Encoded(r);
    } else {
      EncodedAllSnoc(rs[1..], r);
      assert (rs + [r])[1..] == rs[1..] + [r];
      assert Encoded(rs[0]) + (EncodedAll(rs[1..]) + Encoded(r)) == Encoded(rs[0]) + EncodedAll(rs[1..]) + Encoded(r);
    }
  }

  /** Marshals a list of records. */
  method MarshalAll(b: Buffer, rs: seq<Record>, allocs: seq<Parts>) returns (ghost parts: seq<Parts>)
    requires b.Valid() && AllOk(rs) && |allocs| == |rs|
    modifies b`chains, b`last, b`lastWithDatap, b`totalLen
    ensures b.Valid() && |parts| == |rs| && b.Contents() == AllMarshalled(old(b.Contents()), parts, rs)
    ensures AllPartsFit(old(b.Contents()), b.freezeEnd, allocs, rs, parts)
  {
    hide Chains.Layout, Chains.Bytes, Encoded, Marshalled, PartsFit, Chains.TakesMore;
    ghost var s := b.Contents();
    parts := [];
    var i := 0;
    while i < |rs|
      invariant 0 <= i == |parts| <= |rs| && b.Valid() && b.Contents() == AllMarshalled(s, parts, rs[..i])
      invariant AllPartsFit(s, b.freezeEnd, allocs[..i], rs[..i], parts)
    {
      var p, _, _ := Marshal(b, rs[i], allocs[i]);
      assert rs[..i + 1][..i] == rs[..i] && allocs[..i + 1][..i] == allocs[..i] && (parts + [p])[..i] == parts;
      parts, i := parts + [p], i + 1;
    }
    assert rs[..i] == rs && allocs[..i] == allocs;
  }

  /** Unmarshals n records, each into a buffer of its own. */
  method UnmarshalAll(src: Buffer, n: nat, ghost rs: seq<Record>, ghost rest: seq<byte>) returns (out: seq<Record>)
    requires |rs| == n && AllOk(rs)
    requires src.Valid() && !src.freezeStart && src.totalLen <= SSIZE_MAX && src.Contents() == EncodedAll(rs) + rest
    modifies src`chains, src`last, src`lastWithDatap, src`totalLen
    ensures src.Valid() && out == rs && src.Contents() == rest
  {
    hide Chains.Layout, Chains.Bytes, Encoded, DecodedHeader;
    out := [];
    while |out| < n
      invariant |out| <= n && out == rs[..|out|] && src.Valid() && src.totalLen <= SSIZE_MAX
      invariant src.Contents() == EncodedAll(rs[|out|..]) + rest
      decreases n - |out|
    {
      ghost var r, tail := rs[|out|], EncodedAll(rs[|out| + 1..]) + rest;
      assert rs[|out|..][1..] == rs[|out| + 1..];
      assert src.Contents() == Encoded(r) + tail;
      var next := UnmarshalOne(src, r, tail);
      out := out + [next];
    }
  }

  /** Unmarshals one record into a buffer of its own. */
  method UnmarshalOne(src: Buffer, ghost r: Record, ghost tail: seq<byte>) returns (out: Record)
    requires src.Valid() && !src.freezeStart && src.totalLen <= SSIZE_MAX
    requires r.Ok() && src.Contents() == Encoded(r) + tail
    modifies src`chains, src`last, src`lastWithDatap, src`totalLen
    ensures src.Valid() && src.totalLen <= SSIZE_MAX && out == r && src.Contents() == tail
  {
    hide Chains.Layout, Chains.Bytes, Encoded, DecodedHeader, HeaderIn;
    PeekedLength(r, tail);
    HeaderInIs(src.Contents(), false);
    LengthIs(src);
    var dst := new Buffer();
    LengthIs(dst);
    ghost var h := DecodedHeader(src.Contents()).value;
    assert (r.payload + tail)[..h.len] == r.payload;
    var _, tag, _, _ := Unmarshal(src, dst, Mallocs(true, true, true), true, true);
    LengthIs(src);
    LengthIs(dst);
    assert [] + r.payload == r.payload;
    var payload := Flat(dst);
    return Record(tag, payload);
  }

  /** The whole contents, by evbuffer_pullup. */
  method Flat(b: Buffer) returns (s: seq<byte>)
    requires b.Valid() && b.totalLen <= Chains.MAX_CHAIN
    modifies b`chains, b`last, b`lastWithDatap
    ensures s == old(b.Contents())
  {
    hide Chains.Layout, Chains.Bytes;
    LengthIs(b);
    var data := b.Pullup(-1, true);
    s := if data.Some? then data.value else [];
  }

  lemma {:induction false} LengthIs(b: Buffer)
    requires b.Valid()
    ensures b.totalLen == |b.Contents()|
  {
  }

  lemma {:induction false} FirstFits(b: Buffer)
    requires b.Valid()
    ensures b.chains != [] ==> b.chains[0].off <= b.chains[0].Room()
    ensures b.chains == [] ==> b.Contents() == []
  {
    hide Chains.Chain.Data;
  }

  /** Five bytes that go on, at the end of their chunk, and one more byte in the next: the load goes past the chunk. */
  method SixthByteExample() returns (res: int, ghost sixth: SixthByte)
    ensures res == -1 && sixth == PastChunk
  {
    hide Chains.Bytes, DecodedTag, Chains.Layout;
    var b := new Buffer();
    var _ := b.AddReference([128, 128, 128, 128, 128], true);
    var _ := b.AddReference([0], true);
    ghost var s := b.Contents();
    assert s == [128, 128, 128, 128, 128, 0];
    SixthHasNoTag(s);
    var tag;
    res, tag, sixth := DecodeTagInternal(b, false, true);
  }

  /**
   A tag of one byte and four bytes of a length in one chunk, the length's last byte in the next: without memory to put
   all of the length into one chunk, the null pointer is not noticed.
   */
  method NullPointerExample() returns (res: Option<int>)
    ensures res.None?
  {
    hide Chains.Bytes, Chains.Layout, DecodedTag;
    var b := new Buffer();
    var _ := b.AddReference([5, 0x70, 0, 0, 0], true);
    var _ := b.AddReference([1], true);
    ghost var s := b.Contents();
    assert s == [5, 0x70, 0, 0, 0, 1];
    assert s[0..] == s;
    DecodedTagAt(s, 0);
    var length;
    res, length := PeekLength(b, Mallocs(true, true, false));
  }

  /** Where the sixth byte is read, there is no tag. */
  lemma {:induction false} SixthHasNoTag(s: seq<byte>)
    requires SixthRead(s)
    ensures DecodedTag(s, 0) == None
  {
    if DecodedTag(s, 0).Some? {
      DecodedTagBounds(s, 0);
      TagEnds(s, 0);
    }
  }

  /** A tag's last byte is the only one without the high bit. */
  lemma {:induction false} TagEnds(s: seq<byte>, depth: nat)
    requires DecodedTag(s, depth).Some?
    ensures s[DecodedTag(s, depth).value.1 - 1] < 128
    decreases |s|
  {
    if s[0] >= 128 {
      TagEnds(s[1..], depth + 1);
    }
  }
}
