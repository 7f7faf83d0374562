/** The tagged wire format on byte strings: integers by nibbles, tags by 7-bit groups, and records. */
module TagCodec {
  import opened Common

  /** Nibble k of n, the least significant being nibble 0. */
  function Digit(n: nat, k: nat): (d: nat)
    ensures d < 16
    decreases k
  {
    if k == 0 then n % 16 else Digit(n / 16, k - 1)
  }

  /** How many nibbles n takes, at least one. */
  function NumNibbles(n: nat): (c: nat)
    ensures c >= 1
  {
    if n < 16 then 1 else 1 + NumNibbles(n / 16)
  }

  /** n as the encoder lays it out: the nibble count less one, then the nibbles from the least significant on. */
  function EncodedInt(n: nat): (s: seq<byte>)
    requires n < TWO_TO_THE_64
    ensures |s| == NumNibbles(n) / 2 + 1
  {
    assert NumNibbles(n) <= 16 by { Powers(); NibbleBound(n, 16); }
    seq(NumNibbles(n) / 2 + 1, j requires 0 <= j <= NumNibbles(n) / 2 => EncodedByte(n, j))
  }

  function EncodedByte(n: nat, j: nat): (b: byte)
    requires NumNibbles(n) <= 16
  {
    if j == 0 then (NumNibbles(n) - 1) * 16 + Digit(n, 0) else Digit(n, 2 * j - 1) * 16 + Digit(n, 2 * j)
  }

  function Pow16(k: nat): (p: nat)
    ensures p > 0
  {
    if k == 0 then 1 else 16 * Pow16(k - 1)
  }

  lemma {:induction false} NibbleBound(n: nat, k: nat)
    requires n < Pow16(k) && k >= 1
    ensures NumNibbles(n) <= k
    decreases k
  {
    if n >= 16 {
      assert Pow16(k) == 16 * Pow16(k - 1);
      NibbleBound(n / 16, k - 1);
    }
  }

  /** The number that nibbles a..k of s stand for. */
  function DecodedFrom(s: seq<byte>, a: nat, k: nat): (n: nat)
    requires k / 2 < |s|
    decreases k + 1 - a
  {
    if a > k then 0 else NibbleAt(s, a) + 16 * DecodedFrom(s, a + 1, k)
  }

  /** Nibble k of an encoded integer, the count being nibble 0. */
  function NibbleAt(s: seq<byte>, k: nat): (d: nat)
    requires k / 2 < |s|
    ensures d < 16
  {
    if k % 2 == 1 then s[k / 2] % 16 else s[k / 2] / 16
  }

  /** An integer at the front of s, and its encoded length; none when it is too long or s ends inside it. */
  function DecodedInt(s: seq<byte>, maxNibbles: nat): (r: Option<(nat, nat)>) {
    if s == [] then None
    else
      var k := s[0] / 16 + 1;
      if k > maxNibbles || k / 2 + 1 > |s| then None else Some((DecodedFrom(s, 1, k), k / 2 + 1))
  }

  /** Decoding an encoded integer gives it back, whatever follows it. */
  lemma {:induction false} IntRoundTrip(n: nat, rest: seq<byte>, maxNibbles: nat)
    requires n < TWO_TO_THE_64 && n < Pow16(maxNibbles) && maxNibbles >= 1
    ensures DecodedInt(EncodedInt(n) + rest, maxNibbles) == Some((n, |EncodedInt(n)|))
    ensures |EncodedInt(n)| <= maxNibbles / 2 + 1
  {
    var s, c := EncodedInt(n) + rest, NumNibbles(n);
    NibbleBound(n, maxNibbles);
    NibbleOfEncoded(n, rest, 1);
    forall k | 1 <= k <= c ensures NibbleAt(s, k) == Digit(n, k - 1) {
      NibbleOfEncoded(n, rest, k);
    }
    DecodeDigits(s, n, n, 1);
  }

  lemma {:induction false} NibbleOfEncoded(n: nat, rest: seq<byte>, k: nat)
    requires n < TWO_TO_THE_64 && 1 <= k <= NumNibbles(n)
    ensures NibbleAt(EncodedInt(n) + rest, k) == Digit(n, k - 1)
    ensures (EncodedInt(n) + rest)[0] / 16 == NumNibbles(n) - 1
  {
    NibbleCount(n);
    hide Digit, NumNibbles;
    var s, j := EncodedInt(n) + rest, k / 2;
    assert s[0] == EncodedByte(n, 0) && s[j] == EncodedByte(n, j);
    Halves(NumNibbles(n) - 1, Digit(n, 0));
    if k % 2 == 1 {
      assert 2 * j == k - 1;
      if j > 0 {
        Halves(Digit(n, 2 * j - 1), Digit(n, k - 1));
      }
    } else {
      assert 2 * j - 1 == k - 1;
      Halves(Digit(n, k - 1), Digit(n, k));
    }
  }

  lemma {:induction false} Halves(hi: nat, lo: nat)
    requires hi < 16 && lo < 16
    ensures (hi * 16 + lo) / 16 == hi && (hi * 16 + lo) % 16 == lo
  {
  }

  lemma {:induction false} NibbleCount(n: nat)
    requires n < TWO_TO_THE_64
    ensures 1 <= NumNibbles(n) <= 16
  {
    Powers();
    NibbleBound(n, 16);
  }

  /** The nibbles from a on are those of m, which is n without its first a - 1 nibbles. */
  lemma {:induction false} DecodeDigits(s: seq<byte>, n: nat, m: nat, a: nat)
    requires 1 <= a <= NumNibbles(n) && NumNibbles(n) / 2 < |s|
    requires forall k :: a <= k <= NumNibbles(n) ==> NibbleAt(s, k) == Digit(m, k - a)
    requires NumNibbles(m) == NumNibbles(n) + 1 - a
    ensures DecodedFrom(s, a, NumNibbles(n)) == m
    decreases NumNibbles(n) - a
  {
    var c := NumNibbles(n);
    assert NibbleAt(s, a) == Digit(m, 0) == m % 16;
    if a < c {
      forall k | a + 1 <= k <= c ensures NibbleAt(s, k) == Digit(m / 16, k - (a + 1)) {
        assert NibbleAt(s, k) == Digit(m, k - a);
      }
      DecodeDigits(s, n, m / 16, a + 1);
    } else {
      assert DecodedFrom(s, c + 1, c) == 0;
    }
  }

  /** 32-bit integers take at most 5 bytes, 64-bit ones at most 9. */
  lemma {:induction false} IntRoundTrips(n: nat, rest: seq<byte>)
    ensures n < TWO_TO_THE_32 ==>
              |EncodedInt(n)| <= 5 && DecodedInt(EncodedInt(n) + rest, 8) == Some((n, |EncodedInt(n)|))
    ensures n < TWO_TO_THE_64 ==>
              |EncodedInt(n)| <= 9 && DecodedInt(EncodedInt(n) + rest, 16) == Some((n, |EncodedInt(n)|))
  {
    assert Pow16(8) == TWO_TO_THE_32 && Pow16(16) == TWO_TO_THE_64 by { Powers(); }
    if n < TWO_TO_THE_64 {
      IntRoundTrip(n, rest, 16);
    }
    if n < TWO_TO_THE_32 {
      IntRoundTrip(n, rest, 8);
    }
  }

  lemma {:induction false} Powers()
    ensures Pow16(8) == TWO_TO_THE_32 && Pow16(16) == TWO_TO_THE_64
  {
    assert Pow16(4) == 65536;
    assert Pow16(8) == 65536 * 65536;
    assert Pow16(12) == 65536 * 65536 * 65536;
  }

  /** Nibbles 1.. of s are the first `done` ones of n, and then zeros. */
  ghost predicate NibblesOf(s: seq<byte>, n: nat, done: nat) {
    forall k :: 1 <= k <= 2 * |s| - 1 ==> NibbleAt(s, k) == if k <= done then Digit(n, k - 1) else 0
  }

  lemma {:induction false} SetNibble(s: seq<byte>, n: nat, off: nat)
    requires s != [] && s[0] < 16 && 1 <= off <= 2 * |s| - 1 && NibblesOf(s, n, off - 1)
    ensures var d, b := Digit(n, off - 1), s[off / 2];
            var t := s[off / 2 := if off % 2 == 1 then b / 16 * 16 + d else b % 16 + d * 16];
            t[0] < 16 && NibblesOf(t, n, off)
  {
    var d, b := Digit(n, off - 1), s[off / 2];
    var t := s[off / 2 := if off % 2 == 1 then b / 16 * 16 + d else b % 16 + d * 16];
    forall k | 1 <= k <= 2 * |s| - 1 ensures NibbleAt(t, k) == if k <= off then Digit(n, k - 1) else 0 {
      assert k != off ==> NibbleAt(t, k) == NibbleAt(s, k);
    }
  }

  /** number >> 4k */
  function Shifted(n: nat, k: nat): (r: nat)
    decreases k
  {
    if k == 0 then n else Shifted(n / 16, k - 1)
  }

  lemma {:induction false} ShiftedStep(n: nat, k: nat)
    ensures Shifted(n, k + 1) == Shifted(n, k) / 16 && Digit(n, k) == Shifted(n, k) % 16
    ensures Shifted(n, k) == 0 <==> n == 0 || k >= NumNibbles(n)
    decreases k
  {
    if k > 0 {
      ShiftedStep(n / 16, k - 1);
    }
  }

  lemma {:induction false} NoNibbles(s: seq<byte>, n: nat)
    requires forall j :: 0 <= j < |s| ==> s[j] == 0
    ensures NibblesOf(s, n, 0)
  {
  }

  /** The loop of ENCODE_INT_INTERNAL. */
  method WriteNibbles(data: array<byte>, number: nat, maxNibbles: nat) returns (off: nat)
    requires number < Pow16(maxNibbles) && 1 <= maxNibbles && data.Length == maxNibbles / 2 + 1
    modifies data
    ensures off == if number == 0 then 1 else NumNibbles(number) + 1
    ensures data[0] < 16 && NibblesOf(data[..], number, off - 1)
  {
    hide NibblesOf, NibbleAt, Pow16;
    var rest := number;
    off := 1;
    forall j | 0 <= j < data.Length {
      data[j] := 0;
    }
    ghost var c := NumNibbles(number);
    NibbleBound(number, maxNibbles);
    NoNibbles(data[..], number);
    while rest > 0
      invariant off >= 1 && rest == Shifted(number, off - 1) && off <= c + 1 && (number == 0 ==> off == 1)
      invariant data[0] < 16 && NibblesOf(data[..], number, off - 1)
      decreases c + 1 - off
    {
      ghost var was := data[..];
      var at := off / 2;
      ShiftedStep(number, off - 1);
      SetNibble(was, number, off);
      if off % 2 == 1 {
        data[at] := data[at] / 16 * 16 + rest % 16;
      } else {
        data[at] := data[at] % 16 + rest % 16 * 16;
      }
      assert data[..] == was[at := data[at]];
      rest, off := rest / 16, off + 1;
    }
    ShiftedStep(number, off - 1);
  }

  /** encode_int_internal and encode_int64_internal: fills data, and returns the encoded length. */
  method EncodeIntInternal(data: array<byte>, number: nat, maxNibbles: nat) returns (len: nat)
    requires number < TWO_TO_THE_64 && number < Pow16(maxNibbles) && 1 <= maxNibbles
    requires data.Length == maxNibbles / 2 + 1
    modifies data
    ensures len <= data.Length && data[..len] == EncodedInt(number)
  {
    NibblesFit(number, maxNibbles);
    hide EncodedInt, NibblesOf, Pow16, NumNibbles;
    var off := WriteNibbles(data, number, maxNibbles);
    var nibbles := if off > 2 then off - 2 else 0;
    ghost var was, c := data[..], NumNibbles(number);
    assert nibbles == c - 1 < 16;
    LaidOut(was, number, off - 1);
    data[0] := data[0] % 16 + nibbles % 16 * 16;
    len := (off + 1) / 2;
    assert len == c / 2 + 1;
    assert data[..] == was[0 := (c - 1) * 16 + was[0] % 16];
    assert data[..len] == data[..][..len];
  }

  lemma {:induction false} NibblesFit(n: nat, maxNibbles: nat)
    requires n < TWO_TO_THE_64 && n < Pow16(maxNibbles) && 1 <= maxNibbles
    ensures NumNibbles(n) <= maxNibbles && NumNibbles(n) <= 16 && NumNibbles(0) == 1
  {
    hide Pow16;
    Powers();
    NibbleBound(n, maxNibbles);
    NibbleBound(n, 16);
  }

  /** The bytes that hold a number's nibbles, once the count is in. */
  lemma {:induction false} LaidOut(s: seq<byte>, n: nat, done: nat)
    requires n < TWO_TO_THE_64 && s != [] && s[0] < 16 && NibblesOf(s, n, done)
    requires done == (if n == 0 then 0 else NumNibbles(n)) && NumNibbles(n) / 2 < |s| && NumNibbles(n) <= 16
    ensures s[0 := (NumNibbles(n) - 1) * 16 + s[0] % 16][..NumNibbles(n) / 2 + 1] == EncodedInt(n)
  {
    var c := NumNibbles(n);
    var t := s[0 := (c - 1) * 16 + s[0] % 16];
    DigitBeyond(n, c);
    forall j | 0 <= j <= c / 2 ensures t[j] == EncodedByte(n, j) {
      assert NibbleAt(s, 2 * j + 1) == Digit(n, 2 * j);
      if j > 0 {
        assert NibbleAt(s, 2 * j) == Digit(n, 2 * j - 1);
      }
    }
  }

  lemma {:induction false} DigitBeyond(n: nat, k: nat)
    requires k >= NumNibbles(n)
    ensures Digit(n, k) == 0
    decreases k
  {
    if n < 16 {
      if k > 1 {
        DigitBeyond(0, k - 1);
      }
    } else {
      DigitBeyond(n / 16, k - 1);
    }
  }

  /** The loop of DECODE_INT_INTERNAL: reads nibbles k, k - 1, .. 1 of data, shifting the number up each time. */
  method DecodeNibbles(data: seq<byte>, k: nat, limit: nat) returns (number: nat)
    requires k / 2 < |data| && Pow16(k) <= limit
    ensures number == DecodedFrom(data, 1, k) && number < limit
  {
    var nibbles := k;
    number := 0;
    while nibbles > 0
      invariant 0 <= nibbles <= k
      invariant number == DecodedFrom(data, nibbles + 1, k) && number < Pow16(k - nibbles)
    {
      PowGrows(k - nibbles + 1, k);
      assert Pow16(k - nibbles + 1) == 16 * Pow16(k - nibbles);
      var shifted := number * 16 % limit;
      assert shifted == number * 16 by { NoWrap(number * 16, limit); }
      if nibbles % 2 == 1 {
        number := shifted + data[nibbles / 2] % 16;
      } else {
        number := shifted + data[nibbles / 2] / 16;
      }
      nibbles := nibbles - 1;
    }
  }

  lemma {:induction false} NoWrap(n: nat, limit: nat)
    requires n < limit
    ensures n % limit == n
  {
  }

  lemma {:induction false} PowGrows(a: nat, b: nat)
    requires a <= b
    ensures Pow16(a) <= Pow16(b)
    decreases b - a
  {
    if a < b {
      PowGrows(a + 1, b);
    }
  }

  /** A tag as the encoder lays it out: 7 bits a byte, the lowest first, with the high bit on all but the last byte. */
  function EncodedTag(tag: nat): (s: seq<byte>)
    ensures |s| > 0
  {
    if tag < 128 then [tag] else [128 + tag % 128] + EncodedTag(tag / 128)
  }

  /** A tag at the front of s, whose first `depth` bytes are gone already, and its encoded length. */
  function DecodedTag(s: seq<byte>, depth: nat): (r: Option<(nat, nat)>)
    ensures r.Some? ==> 1 <= r.value.1 <= |s|
    decreases |s|
  {
    if s == [] || depth > 4 || (depth == 4 && s[0] % 128 > 15) then None
    else if s[0] < 128 then Some((s[0], 1))
    else
      match DecodedTag(s[1..], depth + 1)
      case None => None
      case Some((t, n)) => Some((s[0] % 128 + 128 * t, n + 1))
  }

  function TagLimit(depth: nat): (l: nat) {
    match depth
    case 0 => 0x1_0000_0000
    case 1 => 0x200_0000
    case 2 => 0x4_0000
    case 3 => 0x800
    case 4 => 0x10
    case _ => 0
  }

  /** Low bits first: tag 0x166 is e6 02, and not 82 66 as the comment on the wire format says. */
  lemma {:induction false} TagExample()
    ensures EncodedTag(0x166) == [0xE6, 0x02] && DecodedTag([0x82, 0x66], 0) == Some((0x3302, 2))
  {
    assert EncodedTag(2) == [2];
    assert [0x82, 0x66][1..] == [0x66];
    assert DecodedTag([0x66], 1) == Some((0x66, 1));
  }

  /** Least significant nibble first: 0x12 is 12 10, where big-endian order would give 11 20. */
  lemma {:induction false} IntExample()
    ensures EncodedInt(0x12) == [0x12, 0x10]
  {
    assert NumNibbles(0x12) == 2 && Digit(0x12, 1) == 1 && Digit(0x12, 2) == 0;
  }

  /** Decoding an encoded tag gives it back, whatever follows it, from at most 5 bytes. */
  lemma {:induction false} TagRoundTrip(tag: nat, rest: seq<byte>, depth: nat)
    requires tag < TagLimit(depth)
    ensures DecodedTag(EncodedTag(tag) + rest, depth) == Some((tag, |EncodedTag(tag)|))
    ensures |EncodedTag(tag)| <= 5 - depth
    decreases tag
  {
    var s := EncodedTag(tag) + rest;
    if tag < 128 {
      assert s[0] == tag;
    } else {
      assert s[0] == 128 + tag % 128 && s[1..] == EncodedTag(tag / 128) + rest;
      TagRoundTrip(tag / 128, rest, depth + 1);
    }
  }

  /** A successful decoding takes a 32-bit tag from at most 5 bytes, and does not depend on what follows them. */
  lemma {:induction false} DecodedTagBounds(s: seq<byte>, depth: nat)
    requires DecodedTag(s, depth).Some?
    ensures var (t, n) := DecodedTag(s, depth).value; t < TagLimit(depth) && n <= 5 - depth
    decreases |s|
  {
    if s[0] >= 128 {
      DecodedTagBounds(s[1..], depth + 1);
    }
  }

  datatype Record = Record(tag: nat, payload: seq<byte>) {
    /** A 32-bit tag, and a length that evtag_unmarshal_header can return as an int. */
    ghost predicate Ok() {
      tag < TWO_TO_THE_32 && |payload| < TWO_TO_THE_31
    }
  }

  /** A record as evtag_marshal lays it out. */
  function Encoded(r: Record): (s: seq<byte>)
    requires |r.payload| < TWO_TO_THE_32
  {
    EncodedTag(r.tag) + EncodedInt(|r.payload|) + r.payload
  }

  ghost predicate AllOk(rs: seq<Record>) {
    forall i :: 0 <= i < |rs| ==> rs[i].Ok()
  }

  ghost function EncodedAll(rs: seq<Record>): (s: seq<byte>)
    requires AllOk(rs)
  {
    if rs == [] then [] else Encoded(rs[0]) + EncodedAll(rs[1..])
  }

  /** The header of the record at the front of s: its tag, the payload's length, and the two encoded lengths. */
  datatype Header = Header(tag: nat, len: nat, tagLen: nat, intLen: nat)

  function DecodedHeader(s: seq<byte>): (h: Option<Header>)
    ensures h.Some? ==> h.value.tagLen + h.value.intLen <= |s|
  {
    match DecodedTag(s, 0)
    case None => None
    case Some((t, n)) =>
      match DecodedInt(s[n..], 8)
      case None => None
      case Some((len, m)) => Some(Header(t, len, n, m))
  }

  /** The header of an encoded record, whatever follows, says what was encoded and where the payload starts. */
  lemma {:induction false} RecordRoundTrip(r: Record, rest: seq<byte>)
    requires r.tag < TWO_TO_THE_32 && |r.payload| < TWO_TO_THE_32
    ensures var s := Encoded(r) + rest;
            && DecodedHeader(s) == Some(Header(r.tag, |r.payload|, |EncodedTag(r.tag)|, |EncodedInt(|r.payload|)|))
            && s[|EncodedTag(r.tag)|..] == EncodedInt(|r.payload|) + (r.payload + rest)
            && s[|EncodedTag(r.tag)| + |EncodedInt(|r.payload|)|..] == r.payload + rest
            && |Encoded(r)| == |EncodedTag(r.tag)| + |EncodedInt(|r.payload|)| + |r.payload|
    ensures |EncodedTag(r.tag)| <= 5 && |EncodedInt(|r.payload|)| <= 5
  {
    hide EncodedTag, EncodedInt, DecodedTag, DecodedInt;
    var t, n, p := EncodedTag(r.tag), EncodedInt(|r.payload|), r.payload;
    assert Encoded(r) + rest == t + (n + (p + rest));
    TagRoundTrip(r.tag, n + (p + rest), 0);
    IntRoundTrips(|p|, p + rest);
    assert (t + (n + (p + rest)))[|t|..] == n + (p + rest);
    assert (n + (p + rest))[|n|..] == p + rest;
    assert (t + (n + (p + rest)))[|t| + |n|..] == p + rest;
  }
}
