/** Domain names in DNS packets: reading with compression pointers, and writing with a shared label table. */
module DnsName {
  import opened Common

  const DOT: byte := 46

  /**
   The labels that a name at offset j of packet p stands for, and the offset just after the name at its own place;
   none when the packet ends inside it or more than `jumps` pointers have to be followed.
   */
  function Walk(p: seq<byte>, j: nat, jumps: nat): (r: Option<(seq<seq<byte>>, nat)>)
    ensures r.Some? ==> j < r.value.1 <= |p|
    decreases jumps, |p| - j
  {
    if j >= |p| then None
    else if p[j] == 0 then Some(([], j + 1))
    else if p[j] >= 64 then
      if j + 1 >= |p| || Target(p, j) >= |p| || jumps == 0 then None
      else
        match Walk(p, Target(p, j), jumps - 1)
        case None => None
        case Some((ls, _)) => Some((ls, j + 2))
    else if j + 1 + p[j] > |p| then None
    else
      match Walk(p, j + 1 + p[j], jumps)
      case None => None
      case Some((ls, e)) => Some(([p[j + 1..j + 1 + p[j]]] + ls, e))
  }

  /** The offset in a compression pointer, section 4.1.4 of RFC 1035. */
  function Target(p: seq<byte>, j: nat): (t: nat)
    requires j + 1 < |p|
  {
    (p[j] as int) % 64 * 256 + p[j + 1]
  }

  /** Labels with dots between them. */
  function Join(ls: seq<seq<byte>>): (s: seq<byte>) {
    if ls == [] then [] else if |ls| == 1 then ls[0] else ls[0] + [DOT] + Join(ls[1..])
  }

  /** What a reader has once it has read `ls`, the name having ended at `nameEnd` if that is known. */
  ghost function Resume(ls: seq<seq<byte>>, nameEnd: int, rest: Option<(seq<seq<byte>>, nat)>)
    : (r: Option<(seq<seq<byte>>, nat)>)
  {
    match rest
    case None => None
    case Some((ms, e)) => Some((ls + ms, if nameEnd < 0 then e else nameEnd))
  }

  /** What the byte at offset j says about the rest of the name. */
  lemma {:induction false} ParseStep(p: seq<byte>, j: nat, jumps: nat, ls: seq<seq<byte>>, nameEnd: int)
    ensures var goal := Resume(ls, nameEnd, Walk(p, j, jumps));
            if j >= |p| then goal == None
            else if p[j] == 0 then goal == Some((ls, if nameEnd < 0 then j + 1 else nameEnd))
            else if p[j] >= 64 then
              if j + 1 >= |p| || Target(p, j) >= |p| || jumps == 0 then goal == None
              else goal == Resume(ls, if nameEnd < 0 then j + 2 else nameEnd, Walk(p, Target(p, j), jumps - 1))
            else if j + 1 + p[j] > |p| then goal == None
            else
              var l := p[j + 1..j + 1 + p[j]];
              && goal == Resume(ls + [l], nameEnd, Walk(p, j + 1 + p[j], jumps))
              && (goal.Some? ==> |Join(goal.value.0)| >= |Join(ls + [l])|)
  {
    if j < |p| && 0 < p[j] < 64 && j + 1 + p[j] <= |p| {
      var l, next := p[j + 1..j + 1 + p[j]], Walk(p, j + 1 + p[j], jumps);
      if next.Some? {
        assert ls + ([l] + next.value.0) == (ls + [l]) + next.value.0;
        JoinGrows(ls + [l], next.value.0);
      }
    }
    assert ls + [] == ls;
  }

  lemma {:induction false} JoinSnoc(ls: seq<seq<byte>>, l: seq<byte>)
    ensures Join(ls + [l]) == if ls == [] then l else Join(ls) + [DOT] + l
  {
    if ls == [] {
      assert ls + [l] == [l];
    } else {
      JoinSnoc(ls[1..], l);
      assert (ls + [l])[1..] == ls[1..] + [l];
      if |ls| == 1 {
        assert ls[1..] == [] && [] + [l] == [l];
      } else {
        var a, b, c := ls[0] + [DOT], Join(ls[1..]), [DOT] + l;
        assert a + (b + [DOT] + l) == (a + b) + [DOT] + l;
      }
    }
  }

  lemma {:induction false} JoinGrows(ls: seq<seq<byte>>, ms: seq<seq<byte>>)
    ensures |Join(ls)| <= |Join(ls + ms)|
    decreases |ms|
  {
    if ms == [] {
      assert ls + ms == ls;
    } else {
      JoinSnoc(ls, ms[0]);
      JoinGrows(ls + [ms[0]], ms[1..]);
      assert ls + [ms[0]] + ms[1..] == ls + ms;
    }
  }

  lemma {:induction false} ResumeNone(r: Option<(seq<seq<byte>>, nat)>)
    ensures Resume([], -1, r) == r && Join([]) == []
  {
    if r.Some? {
      assert [] + r.value.0 == r.value.0;
    }
  }

  /** The part of name_parse that copies a label, after a dot unless it is the first; false when it does not fit. */
  method AppendLabel(nameOut: array<byte>, at: nat, nameOutLen: nat, l: seq<byte>, ghost ls: seq<seq<byte>>)
    returns (ok: bool, cp: nat)
    requires nameOutLen <= nameOut.Length && (at < nameOutLen || at == 0) && at == |Join(ls)|
    requires at <= nameOut.Length && nameOut[..at] == Join(ls) && l != [] && (at == 0 <==> ls == [])
    modifies nameOut
    ensures ok <==> |Join(ls + [l])| < nameOutLen
    ensures ok ==> 0 < cp == |Join(ls + [l])| <= nameOut.Length && nameOut[..cp] == Join(ls + [l])
    ensures nameOut[nameOutLen..] == old(nameOut[nameOutLen..])
  {
    JoinSnoc(ls, l);
    cp := at;
    if cp != 0 {
      if cp + 1 >= nameOutLen {
        return false, cp;
      }
      nameOut[cp] := DOT;
      cp := cp + 1;
    }
    if cp + |l| >= nameOutLen {
      return false, cp;
    }
    ghost var front := nameOut[..cp];
    assert front == if ls == [] then [] else Join(ls) + [DOT];
    forall i | 0 <= i < |l| {
      nameOut[cp + i] := l[i];
    }
    assert nameOut[..cp + |l|] == front + l;
    return true, cp + |l|;
  }

  /**
   name_parse: reads the name at offset idx into nameOut, with a terminator.  It succeeds exactly when there is a
   name within as many jumps as the packet has bytes and the name and its terminator fit.
   */
  method NameParse(packet: seq<byte>, idx: nat, nameOut: array<byte>, nameOutLen: nat) returns (res: int, next: nat)
    requires nameOutLen <= nameOut.Length
    modifies nameOut
    ensures res == 0 || res == -1
    ensures res == 0 <==> Walk(packet, idx, |packet|).Some? && |Join(Walk(packet, idx, |packet|).value.0)| < nameOutLen
    ensures res == 0 ==>
              var (ls, e) := Walk(packet, idx, |packet|).value;
              && next == e && nameOut[..|Join(ls)|] == Join(ls) && nameOut[|Join(ls)|] == 0
    ensures nameOut[nameOutLen..] == old(nameOut[nameOutLen..])
  {
    hide Walk, Resume, Join, Target;
    var length, nameEnd, j, ptrCount, cp := |packet|, -1, idx, 0, 0;
    ghost var ls: seq<seq<byte>> := [];
    ghost var goal := Walk(packet, idx, length);
    ResumeNone(goal);
    next := idx;
    while true
      invariant 0 <= j && 0 <= ptrCount <= length && 0 <= cp
      invariant goal == Resume(ls, nameEnd, Walk(packet, j, length - ptrCount))
      invariant cp == |Join(ls)| && (cp < nameOutLen || cp == 0) && (cp == 0 <==> ls == [])
      invariant cp <= nameOut.Length && nameOut[..cp] == Join(ls)
      invariant nameOut[nameOutLen..] == old(nameOut[nameOutLen..])
      decreases length - ptrCount, length - j
    {
      ParseStep(packet, j, length - ptrCount, ls, nameEnd);
      if j >= length {
        return -1, idx;
      }
      var labelLen := packet[j];
      if labelLen == 0 {
        j := j + 1;
        break;
      }
      if labelLen >= 64 {
        if j + 1 >= length {
          return -1, idx;
        }
        if nameEnd < 0 {
          nameEnd := j + 2;
        }
        j := Target(packet, j);
        if j >= length {
          return -1, idx;
        }
        ptrCount := ptrCount + 1;
        if ptrCount > length {
          return -1, idx;
        }
      } else {
        if j + 1 + labelLen > length {
          return -1, idx;
        }
        var part := packet[j + 1..j + 1 + labelLen];
        var ok;
        ok, cp := AppendLabel(nameOut, cp, nameOutLen, part, ls);
        if !ok {
          return -1, idx;
        }
        ls, j := ls + [part], j + 1 + labelLen;
      }
    }
    if cp >= nameOutLen {
      return -1, idx;
    }
    nameOut[cp] := 0;
    return 0, if nameEnd < 0 then j else nameEnd;
  }

  const MAX_LABELS: nat := 128

  function IndexOf(s: seq<byte>, c: byte): (i: nat)
    ensures i <= |s| && (i < |s| ==> s[i] == c) && forall k :: 0 <= k < i ==> s[k] != c
  {
    if s == [] || s[0] == c then 0 else 1 + IndexOf(s[1..], c)
  }

  /** The labels of a name; a dot at its end adds none. */
  function Labels(name: seq<byte>): (ls: seq<seq<byte>>)
    decreases |name|
  {
    if name == [] then []
    else
      var i := IndexOf(name, DOT);
      if i == |name| then [name] else [name[..i]] + Labels(name[i + 1..])
  }

  /** Section 3.1 of RFC 1035: labels of 1 to 63 bytes.  A C string has no zero byte. */
  ghost predicate WellFormed(name: seq<byte>) {
    && 0 !in name
    && forall i :: 0 <= i < |Labels(name)| ==> 1 <= |Labels(name)[i]| <= 63
  }

  /** The dot at the end of an absolute name. */
  function FinalDot(name: seq<byte>): (d: seq<byte>) {
    if name != [] && name[|name| - 1] == DOT then [DOT] else []
  }

  /** A name is its labels with dots between them, and the dot at its end if it has one. */
  lemma {:induction false} JoinLabels(name: seq<byte>)
    requires WellFormed(name)
    ensures name == Join(Labels(name)) + FinalDot(name)
    ensures name == [] || Labels(name) != []
    decreases |name|
  {
    hide WellFormed, Join;
    var i := IndexOf(name, DOT);
    JoinCons([], []);
    if name != [] && i < |name| {
      LabelsRest(name);
      JoinLabels(name[i + 1..]);
      JoinLabelsStep(name, i);
    } else if name != [] {
      JoinCons(name, []);
      assert [name] + [] == [name];
    }
  }

  lemma {:induction false} JoinLabelsStep(name: seq<byte>, i: nat)
    requires i < |name| && name[i] == DOT && Labels(name) == [name[..i]] + Labels(name[i + 1..])
    requires name[i + 1..] == Join(Labels(name[i + 1..])) + FinalDot(name[i + 1..])
    requires name[i + 1..] == [] || Labels(name[i + 1..]) != []
    ensures name == Join(Labels(name)) + FinalDot(name)
  {
    hide Join, FinalDot, Labels;
    var front, rest := name[..i], name[i + 1..];
    JoinCons(front, Labels(rest));
    assert name == front + [DOT] + rest;
    FinalDotRest(name, i);
    if rest == [] {
      LabelsNone();
    } else {
      var x, y, z := front + [DOT], Join(Labels(rest)), FinalDot(rest);
      assert x + (y + z) == (x + y) + z;
    }
  }

  lemma {:induction false} LabelsNone()
    ensures Labels([]) == []
  {
  }

  lemma {:induction false} FinalDotRest(name: seq<byte>, i: nat)
    requires i < |name| && name[i] == DOT
    ensures if name[i + 1..] == [] then FinalDot(name) == [DOT] else FinalDot(name) == FinalDot(name[i + 1..])
  {
  }

  lemma {:induction false} JoinCons(l: seq<byte>, ls: seq<seq<byte>>)
    ensures Join([l] + ls) == if ls == [] then l else l + [DOT] + Join(ls)
    ensures Join([]) == []
  {
    assert ([l] + ls)[1..] == ls;
  }

  lemma {:induction false} LabelsRest(name: seq<byte>)
    requires WellFormed(name) && name != [] && IndexOf(name, DOT) < |name|
    ensures var i := IndexOf(name, DOT);
            WellFormed(name[i + 1..]) && Labels(name) == [name[..i]] + Labels(name[i + 1..]) && 1 <= i <= 63
  {
    hide IndexOf;
    var i := IndexOf(name, DOT);
    var rest := name[i + 1..];
    assert Labels(name)[0] == name[..i];
    forall k | 0 <= k < |Labels(rest)| ensures 1 <= |Labels(rest)[k]| <= 63 {
      assert Labels(name)[k + 1] == Labels(rest)[k];
    }
  }

  /** What a walk finds is found in any longer packet, and with more jumps. */
  lemma {:induction false} WalkExtend(p: seq<byte>, q: seq<byte>, j: nat, f: nat, g: nat)
    requires Walk(p, j, f).Some? && p <= q && f <= g
    ensures Walk(q, j, g) == Walk(p, j, f)
    decreases f, |p| - j
  {
    if p[j] >= 64 {
      WalkExtend(p, q, Target(p, j), f - 1, g - 1);
    } else if p[j] > 0 {
      WalkExtend(p, q, j + 1 + p[j], f, g);
      assert q[j + 1..j + 1 + p[j]] == p[j + 1..j + 1 + p[j]];
    }
  }

  /** The labels ls are written out in full from offset a of p up to offset b. */
  ghost predicate Inline(p: seq<byte>, a: nat, ls: seq<seq<byte>>, b: nat)
    decreases |ls|
  {
    if ls == [] then a == b <= |p|
    else
      && 1 <= |ls[0]| <= 63 && a + 1 + |ls[0]| <= |p|
      && p[a] == |ls[0]| && p[a + 1..a + 1 + |ls[0]|] == ls[0]
      && Inline(p, a + 1 + |ls[0]|, ls[1..], b)
  }

  lemma {:induction false} InlineWalk(p: seq<byte>, a: nat, ls: seq<seq<byte>>, b: nat, q: seq<byte>, f: nat)
    requires Inline(p, a, ls, b) && p <= q && Walk(q, b, f).Some?
    ensures Walk(q, a, f) == Some((ls + Walk(q, b, f).value.0, Walk(q, b, f).value.1))
    decreases |ls|
  {
    var (ms, e) := Walk(q, b, f).value;
    if ls == [] {
      assert ls + ms == ms;
    } else {
      InlineWalk(p, a + 1 + |ls[0]|, ls[1..], b, q, f);
      assert q[a + 1..a + 1 + q[a]] == ls[0];
      assert [ls[0]] + (ls[1..] + ms) == ls + ms;
    }
  }

  lemma {:induction false} InlineSnoc(p: seq<byte>, a: nat, ls: seq<seq<byte>>, b: nat, q: seq<byte>, l: seq<byte>)
    requires Inline(p, a, ls, b) && b == |p| && 1 <= |l| <= 63 && q == p + [|l|] + l
    ensures Inline(q, a, ls + [l], |q|)
    decreases |ls|
  {
    if ls == [] {
      assert ls + [l] == [l] && [l][1..] == [];
      assert q[a + 1..a + 1 + |l|] == l;
    } else {
      InlineSnoc(p, a + 1 + |ls[0]|, ls[1..], b, q, l);
      assert (ls + [l])[1..] == ls[1..] + [l];
      assert q[a + 1..a + 1 + |ls[0]|] == p[a + 1..a + 1 + |ls[0]|];
    }
  }

  /** An entry of the label table: a name, and the offset where it was written. */
  datatype Entry = Entry(v: seq<byte>, pos: nat)

  /** Every entry's offset leads to its name, through at most `jumps` pointers. */
  ghost predicate TableOk(p: seq<byte>, entries: seq<Entry>, jumps: nat) {
    forall i :: 0 <= i < |entries| ==> Leads(p, entries[i], jumps)
  }

  /** Every entry's offset fits in a pointer. */
  ghost predicate Low(entries: seq<Entry>) {
    forall e <- entries :: e.pos < 0x4000
  }

  ghost predicate Leads(p: seq<byte>, e: Entry, jumps: nat) {
    var w := Walk(p, e.pos, jumps);
    w.Some? && w.value.0 == Labels(e.v)
  }

  /** An entry whose labels up to the end of p are ls, the others being those of `rest`, which is still to come. */
  ghost predicate Pending(p: seq<byte>, e: Entry, ls: seq<seq<byte>>, rest: seq<byte>) {
    Inline(p, e.pos, ls, |p|) && Labels(e.v) == ls + Labels(rest) && |e.v| > |rest|
  }

  /** p ends with the labels of name, from offset start on, that come before `rest`; newEntries are those so far. */
  ghost predicate Writing(
    p: seq<byte>, start: nat, name: seq<byte>, rest: seq<byte>, newEntries: seq<Entry>, prefixes: seq<seq<seq<byte>>>)
  {
    && prefixes != [] && |prefixes| == |newEntries| + 1
    && WellFormed(rest)
    && Inline(p, start, prefixes[0], |p|) && Labels(name) == prefixes[0] + Labels(rest)
    && forall k :: 0 <= k < |newEntries| ==> Pending(p, newEntries[k], prefixes[k + 1], rest)
  }

  lemma {:induction false} WritingStart(p: seq<byte>, name: seq<byte>)
    requires WellFormed(name)
    ensures Writing(p, |p|, name, name, [], [[]])
  {
    assert [] + Labels(name) == Labels(name);
  }

  lemma {:induction false} PendingStep(
    p: seq<byte>, e: Entry, ls: seq<seq<byte>>, rest: seq<byte>, l: seq<byte>, rest': seq<byte>)
    requires Pending(p, e, ls, rest) && 1 <= |l| <= 63 && Labels(rest) == [l] + Labels(rest') && |rest'| < |rest|
    ensures Pending(p + [|l|] + l, e, ls + [l], rest')
  {
    InlineSnoc(p, e.pos, ls, |p|, p + [|l|] + l, l);
    assert ls + ([l] + Labels(rest')) == (ls + [l]) + Labels(rest');
  }

  function WithEntry(entries: seq<Entry>, e: Entry, added: bool): (es: seq<Entry>) {
    if added then entries + [e] else entries
  }

  /** One label more, with or without an entry for it. */
  lemma {:induction false} WritingStep(
    p: seq<byte>, start: nat, name: seq<byte>, rest: seq<byte>, newEntries: seq<Entry>, prefixes: seq<seq<seq<byte>>>,
    l: seq<byte>, rest': seq<byte>, added: bool) returns (prefixes': seq<seq<seq<byte>>>)
    requires Writing(p, start, name, rest, newEntries, prefixes)
    requires 1 <= |l| <= 63 && Labels(rest) == [l] + Labels(rest') && |rest'| < |rest| && WellFormed(rest')
    ensures Writing(p + [|l|] + l, start, name, rest', WithEntry(newEntries, Entry(rest, |p|), added), prefixes')
  {
    hide Labels, Inline, WellFormed;
    var q := p + [|l|] + l;
    var newEntries' := WithEntry(newEntries, Entry(rest, |p|), added);
    prefixes' := seq(|prefixes|, i requires 0 <= i < |prefixes| => prefixes[i] + [l]) + if added then [[l]] else [];
    InlineSnoc(p, start, prefixes[0], |p|, q, l);
    assert prefixes[0] + ([l] + Labels(rest')) == (prefixes[0] + [l]) + Labels(rest');
    forall k | 0 <= k < |newEntries'| ensures Pending(q, newEntries'[k], prefixes'[k + 1], rest') {
      if k < |newEntries| {
        PendingStep(p, newEntries[k], prefixes[k + 1], rest, l, rest');
      } else {
        InlineHere(p);
        InlineSnoc(p, |p|, [], |p|, q, l);
        assert [] + [l] == [l];
      }
    }
  }

  lemma {:induction false} InlineHere(p: seq<byte>)
    ensures Inline(p, |p|, [], |p|)
  {
  }

  /** Once what follows p leads to `rest`, the name and every entry made for it are complete. */
  lemma {:induction false} WritingDone(
    p: seq<byte>, start: nat, name: seq<byte>, rest: seq<byte>, newEntries: seq<Entry>, prefixes: seq<seq<seq<byte>>>,
    q: seq<byte>, oldEntries: seq<Entry>, f: nat, g: nat)
    requires Writing(p, start, name, rest, newEntries, prefixes) && p <= q && start <= |p|
    requires TableOk(p[..start], oldEntries, f) && f <= g
    requires Walk(q, |p|, g).Some? && Walk(q, |p|, g).value.0 == Labels(rest)
    ensures Walk(q, start, g) == Some((Labels(name), Walk(q, |p|, g).value.1))
    ensures TableOk(q, oldEntries + newEntries, g)
  {
    hide Labels, Inline, WellFormed, Walk;
    InlineWalk(p, start, prefixes[0], |p|, q, g);
    forall k | 0 <= k < |oldEntries + newEntries| ensures Leads(q, (oldEntries + newEntries)[k], g) {
      if k < |oldEntries| {
        WalkExtend(p[..start], q, oldEntries[k].pos, f, g);
      } else {
        InlineWalk(p, newEntries[k - |oldEntries|].pos, prefixes[k - |oldEntries| + 1], |p|, q, g);
      }
    }
  }

  /** A zero byte ends a name. */
  lemma {:induction false} WalkZero(q: seq<byte>, j: nat, f: nat)
    requires j < |q| && q[j] == 0
    ensures Walk(q, j, f) == Some(([], j + 1)) && Labels([]) == []
  {
  }

  /** The two bytes of APPEND16(ref | 0xc000): the offset keeps 14 bits. */
  function PointerBytes(ref: nat): (s: seq<byte>)
    ensures |s| == 2 && s[0] >= 192
  {
    [192 + ref % 0x4000 / 256, ref % 256]
  }

  /** A pointer leads to its offset exactly when the offset is below 0x4000. */
  lemma {:induction false} PointerTarget(p: seq<byte>, ref: nat, rest: seq<byte>)
    ensures Target(p + PointerBytes(ref) + rest, |p|) == ref % 0x4000
    ensures Target(p + PointerBytes(ref) + rest, |p|) == ref <==> ref < 0x4000
  {
    var q := p + PointerBytes(ref) + rest;
    assert q[|p|] == 192 + ref % 0x4000 / 256 && q[|p| + 1] == ref % 256;
  }

  /** A pointer to an entry for `rest` leads to the labels of `rest`. */
  lemma {:induction false} WalkPointer(p: seq<byte>, start: nat, oldEntries: seq<Entry>, i: nat, f: nat)
    requires start <= |p| && TableOk(p[..start], oldEntries, f) && i < |oldEntries| && oldEntries[i].pos < 0x4000
    ensures var q := p + PointerBytes(oldEntries[i].pos);
            Walk(q, |p|, f + 1) == Some((Labels(oldEntries[i].v), |p| + 2))
  {
    hide Labels;
    var q := p + PointerBytes(oldEntries[i].pos);
    PointerTarget(p, oldEntries[i].pos, []);
    assert p + PointerBytes(oldEntries[i].pos) + [] == q;
    assert Leads(p[..start], oldEntries[i], f);
    WalkExtend(p[..start], q, oldEntries[i].pos, f, f);
  }

  /** The place of the first entry for a name, or the number of entries. */
  function Lookup(entries: seq<Entry>, v: seq<byte>): (i: nat)
    ensures i <= |entries|
  {
    if entries == [] || entries[0].v == v then 0 else 1 + Lookup(entries[1..], v)
  }

  lemma {:induction false} LookupIs(entries: seq<Entry>, v: seq<byte>)
    ensures var i := Lookup(entries, v);
            (i < |entries| ==> entries[i].v == v) && forall m :: 0 <= m < i ==> entries[m].v != v
  {
    if entries != [] && entries[0].v != v {
      LookupIs(entries[1..], v);
    }
  }

  /** Entries with longer names do not matter. */
  lemma {:induction false} LookupOld(oldEntries: seq<Entry>, newEntries: seq<Entry>, v: seq<byte>)
    requires forall k :: 0 <= k < |newEntries| ==> |newEntries[k].v| > |v|
    ensures var i, n := Lookup(oldEntries, v), |oldEntries + newEntries|;
            Lookup(oldEntries + newEntries, v) == if i < |oldEntries| then i else n
  {
    hide Lookup;
    LookupIs(oldEntries, v);
    var i, n := Lookup(oldEntries, v), |oldEntries + newEntries|;
    LookupUnique(oldEntries + newEntries, v, if i < |oldEntries| then i else n);
  }

  lemma {:induction false} LookupUnique(entries: seq<Entry>, v: seq<byte>, i: nat)
    requires i <= |entries| && (i < |entries| ==> entries[i].v == v) && forall m :: 0 <= m < i ==> entries[m].v != v
    ensures Lookup(entries, v) == i
  {
    LookupIs(entries, v);
  }

  /**
   A name as it is written with a table of entries, but for the zero byte at the end: labels in full up to the first
   suffix that is in the table, and a pointer for that.  A label of more than 63 bytes stops the writing.
   */
  ghost function Body(entries: seq<Entry>, rest: seq<byte>): (s: seq<byte>)
    decreases |rest|
  {
    var k, i := Lookup(entries, rest), IndexOf(rest, DOT);
    if k < |entries| then PointerBytes(entries[k].pos)
    else if i > 63 then []
    else if i == |rest| then [i] + rest
    else [i] + rest[..i] + Body(entries, rest[i + 1..])
  }

  /** The zero byte behind the last label, which is there already when that is empty. */
  function ZeroAfter(rest: seq<byte>): (z: seq<byte>)
    ensures z == [] || z == [0]
  {
    if rest == [] || rest[|rest| - 1] == 0 then [] else [0]
  }

  /** The zero byte that is still to come after that. */
  ghost function FinalZero(entries: seq<Entry>, rest: seq<byte>): (z: seq<byte>)
    ensures z == [] || z == [0]
    decreases |rest|
  {
    var i := IndexOf(rest, DOT);
    if Lookup(entries, rest) < |entries| || i > 63 then []
    else if i == |rest| then ZeroAfter(rest)
    else FinalZero(entries, rest[i + 1..])
  }

  /** Does the writing get to a label of more than 63 bytes? */
  ghost predicate TooLong(entries: seq<Entry>, rest: seq<byte>)
    decreases |rest|
  {
    var i := IndexOf(rest, DOT);
    Lookup(entries, rest) == |entries| && (i > 63 || (i < |rest| && TooLong(entries, rest[i + 1..])))
  }

  /** The pointer, if one is written, can hold its offset. */
  ghost predicate ReferenceLow(entries: seq<Entry>, rest: seq<byte>)
    decreases |rest|
  {
    var k, i := Lookup(entries, rest), IndexOf(rest, DOT);
    if k < |entries| then entries[k].pos < 0x4000
    else i < |rest| && i <= 63 ==> ReferenceLow(entries, rest[i + 1..])
  }

  /** The entries made on the way: one for each label written, its offset counted from `pos` on. */
  ghost function NewEntries(entries: seq<Entry>, rest: seq<byte>, pos: nat): (es: seq<Entry>)
    decreases |rest|
  {
    var i := IndexOf(rest, DOT);
    if Lookup(entries, rest) < |entries| || i > 63 then []
    else if i == |rest| then [Entry(rest, pos)]
    else [Entry(rest, pos)] + NewEntries(entries, rest[i + 1..], pos + i + 1)
  }

  /** What a table keeps of a list of entries. */
  function Capped(entries: seq<Entry>): (es: seq<Entry>) {
    if |entries| <= MAX_LABELS then entries else entries[..MAX_LABELS]
  }

  /** All of it for the first label. */
  lemma {:induction false} BodyStep(entries: seq<Entry>, rest: seq<byte>, pos: nat)
    ensures var k, i := Lookup(entries, rest), IndexOf(rest, DOT);
            var b, z, es := Body(entries, rest), FinalZero(entries, rest), NewEntries(entries, rest, pos);
            if k < |entries| then
              b == PointerBytes(entries[k].pos) && z == [] && es == [] && !TooLong(entries, rest)
              && (ReferenceLow(entries, rest) <==> entries[k].pos < 0x4000)
            else if i > 63 then b == [] && z == [] && es == [] && TooLong(entries, rest)
            else if i == |rest| then
              b == [i] + rest && z == ZeroAfter(rest)
              && es == [Entry(rest, pos)] && !TooLong(entries, rest)
            else
              var rest' := rest[i + 1..];
              b == [i] + rest[..i] + Body(entries, rest') && z == FinalZero(entries, rest')
              && es == [Entry(rest, pos)] + NewEntries(entries, rest', pos + i + 1)
              && (TooLong(entries, rest) <==> TooLong(entries, rest'))
              && (ReferenceLow(entries, rest) <==> ReferenceLow(entries, rest'))
  {
    hide IndexOf, Lookup, PointerBytes;
  }

  /** What is written has at most two bytes more than the name; a well-formed name has no label that is too long. */
  lemma {:induction false} BodyBound(entries: seq<Entry>, rest: seq<byte>)
    ensures |Body(entries, rest)| + |FinalZero(entries, rest)| <= |rest| + 2
    ensures |Body(entries, rest)| > 0 || TooLong(entries, rest)
    ensures WellFormed(rest) ==> !TooLong(entries, rest)
    decreases |rest|
  {
    hide WellFormed, Body, FinalZero, TooLong, ReferenceLow, NewEntries, Labels;
    BodyStep(entries, rest, 0);
    var i := IndexOf(rest, DOT);
    if Lookup(entries, rest) == |entries| && i <= 63 && i < |rest| {
      BodyBound(entries, rest[i + 1..]);
    }
    if WellFormed(rest) && rest != [] {
      if i < |rest| {
        LabelsRest(rest);
      } else {
        OneLabel(rest);
      }
    }
  }

  lemma {:induction false} OneLabel(rest: seq<byte>)
    requires WellFormed(rest) && rest != [] && IndexOf(rest, DOT) == |rest|
    ensures |rest| <= 63
  {
    assert Labels(rest)[0] == rest;
  }

  /** Does the table have the name, or what follows one of its dots? */
  ghost predicate SuffixKnown(entries: seq<Entry>, rest: seq<byte>)
    decreases |rest|
  {
    var i := IndexOf(rest, DOT);
    Lookup(entries, rest) < |entries| || (i < |rest| && SuffixKnown(entries, rest[i + 1..]))
  }

  /** Without a pointer a name takes one byte more than it has, and a zero byte unless it is empty or ends in a dot. */
  lemma {:induction false} PlainSize(entries: seq<Entry>, name: seq<byte>)
    requires 0 !in name && !TooLong(entries, name) && !SuffixKnown(entries, name)
    ensures |Body(entries, name)| == |name| + 1
    ensures FinalZero(entries, name) == if name == [] || FinalDot(name) == [DOT] then [] else [0]
    decreases |name|
  {
    hide Body, FinalZero, NewEntries, ReferenceLow, FinalDot, Lookup;
    var i := IndexOf(name, DOT);
    BodyStep(entries, name, 0);
    if i < |name| {
      var rest := name[i + 1..];
      assert 0 !in rest;
      PlainSize(entries, rest);
      FinalDotRest(name, i);
    } else {
      NoFinalDot(name);
    }
  }

  lemma {:induction false} NoFinalDot(name: seq<byte>)
    requires IndexOf(name, DOT) == |name|
    ensures FinalDot(name) == []
  {
  }

  /** struct dnslabel_table */
  class LabelTable {
    var labels: seq<Entry>

    constructor ()
      ensures labels == []
    {
      labels := [];
    }

    /** dnslabel_table_get_pos: the first entry for a name, if there is one. */
    method GetPos(name: seq<byte>) returns (i: Option<nat>)
      ensures i == if Lookup(labels, name) < |labels| then Some(Lookup(labels, name)) else None
    {
      var k := 0;
      LookupIs(labels, name);
      while k < |labels|
        invariant 0 <= k <= |labels| && forall m :: 0 <= m < k ==> labels[m].v != name
        modifies {}
      {
        if labels[k].v == name {
          return Some(k);
        }
        k := k + 1;
      }
      return None;
    }

    /** dnslabel_table_add: a full table stays as it is. */
    method Add(name: seq<byte>, pos: nat) returns (added: bool)
      modifies this
      ensures added <==> |old(labels)| != MAX_LABELS
      ensures labels == if added then old(labels) + [Entry(name, pos)] else old(labels)
    {
      if |labels| == MAX_LABELS {
        return false;
      }
      labels := labels + [Entry(name, pos)];
      return true;
    }
  }

  /** The part of dnsname_to_labels that writes a length and a label. */
  method PutLabel(buf: array<byte>, j: nat, l: seq<byte>)
    requires j + 1 + |l| <= buf.Length && |l| < 256
    modifies buf
    ensures buf[..j + 1 + |l|] == old(buf[..j]) + [|l|] + l
  {
    buf[j] := |l|;
    forall i | 0 <= i < |l| {
      buf[j + 1 + i] := l[i];
    }
  }

  /** What writing a well-formed name leaves: the name at `start`, and a table that leads to its entries. */
  ghost predicate Written(q: seq<byte>, start: nat, name: seq<byte>, entries: seq<Entry>, jumps: nat) {
    Walk(q, start, jumps) == Some((Labels(name), |q|)) && TableOk(q, entries, jumps)
  }

  method PutLabelAndZero(buf: array<byte>, j0: nat, rest: seq<byte>) returns (j: nat)
    requires j0 + 1 + |rest| + |ZeroAfter(rest)| <= buf.Length && |rest| < 256
    modifies buf
    ensures j == j0 + 1 + |rest| + |ZeroAfter(rest)|
    ensures buf[..j] == old(buf[..j0]) + ([|rest|] + rest) + ZeroAfter(rest)
  {
    ghost var p := buf[..j0];
    PutLabel(buf, j0, rest);
    j := j0 + 1 + |rest|;
    ghost var q := buf[..j];
    assert q == p + ([|rest|] + rest);
    if buf[j - 1] != 0 {
      buf[j] := 0;
      j := j + 1;
      assert buf[..j] == q + [0];
    }
  }

  /** The part of dnsname_to_labels after the last dot: the last label and the zero byte. */
  method PutLast(
    buf: array<byte>, bufLen: nat, j0: nat, start: nat, name: seq<byte>, rest: seq<byte>, table: LabelTable?,
    ghost oldEntries: seq<Entry>, ghost newEntries: seq<Entry>, ghost prefixes: seq<seq<seq<byte>>>,
    ghost jumps: nat, ghost good: bool)
    returns (res: int)
    requires start <= j0 <= bufLen <= buf.Length && DOT !in rest
    requires |rest| <= 63 && ZeroAfter(rest) != [] && j0 + |rest| + 1 == bufLen ==> bufLen < buf.Length
    requires if table != null then table.labels == oldEntries + newEntries else oldEntries + newEntries == []
    requires good ==>
               TableOk(buf[..start], oldEntries, jumps) && Writing(buf[..j0], start, name, rest, newEntries, prefixes)
    modifies buf, table
    ensures buf[..j0] == old(buf[..j0])
    ensures res == -1 <==> |rest| > 63
    ensures res == -2 <==> |rest| <= 63 && j0 + |rest| + 1 > bufLen
    ensures res == -1 || res == -2 ||
              var z := ZeroAfter(rest);
              && res == j0 + |rest| + 1 + |z| && |rest| <= 63 && buf[..res] == old(buf[..j0]) + ([|rest|] + rest) + z
              && (table != null ==>
                    table.labels == oldEntries + Entered(oldEntries, newEntries, Entry(rest, j0)))
    ensures res >= 0 && good ==> Written(buf[..res], start, name, if table != null then table.labels else [], jumps + 1)
  {
    hide Writing, Labels, Walk, TableOk, IndexOf, PointerBytes, Target, WellFormed, Written, ZeroAfter;
    if good {
      LastLabel(buf[..j0], start, name, rest, newEntries, prefixes);
    }
    if |rest| > 63 {
      return -1;
    }
    if j0 + |rest| + 1 > bufLen {
      return -2;
    }
    var added := false;
    if table != null {
      added := table.Add(rest, j0);
      assert oldEntries + newEntries + [Entry(rest, j0)] == oldEntries + (newEntries + [Entry(rest, j0)]);
    }
    ghost var p := buf[..j0];
    assert p[..start] == buf[..start];
    res := PutLabelAndZero(buf, j0, rest);
    if good {
      LastBytes(p, rest);
      FinishLast(p, start, name, rest, newEntries, prefixes, added, buf[..res], oldEntries, jumps);
    }
  }

  lemma {:induction false} LastBytes(p: seq<byte>, rest: seq<byte>)
    requires |rest| < 256 && 0 !in rest
    ensures p + ([|rest|] + rest) + ZeroAfter(rest) == if rest == [] then p + [0] else p + [|rest|] + rest + [0]
  {
    if rest == [] {
      assert p + ([0] + []) + [] == p + [0];
    } else {
      assert p + ([|rest|] + rest) == p + [|rest|] + rest;
    }
  }

  lemma {:induction false} LastLabel(
    p: seq<byte>, start: nat, name: seq<byte>, rest: seq<byte>, newEntries: seq<Entry>, prefixes: seq<seq<seq<byte>>>)
    requires Writing(p, start, name, rest, newEntries, prefixes) && DOT !in rest
    ensures |rest| <= 63 && 0 !in rest
    ensures rest != [] ==> Labels(rest) == [rest]
    ensures WellFormed([]) && Labels([]) == []
  {
    if rest != [] {
      assert Labels(rest) == [rest];
      assert 1 <= |Labels(rest)[0]| <= 63;
    }
  }

  lemma {:induction false} FinishLast(
    p: seq<byte>, start: nat, name: seq<byte>, rest: seq<byte>, newEntries: seq<Entry>,
    prefixes: seq<seq<seq<byte>>>, added: bool, q: seq<byte>, oldEntries: seq<Entry>, jumps: nat)
    requires Writing(p, start, name, rest, newEntries, prefixes) && DOT !in rest && start <= |p|
    requires TableOk(p[..start], oldEntries, jumps)
    requires q == if rest == [] then p + [0] else p + [|rest|] + rest + [0]
    ensures Written(q, start, name, oldEntries + WithEntry(newEntries, Entry(rest, |p|), added), jumps + 1)
  {
    hide Labels, WellFormed, Walk, TableOk, Writing;
    LastLabel(p, start, name, rest, newEntries, prefixes);
    if rest == [] {
      WalkZero(q, |p|, jumps + 1);
      WritingDone(p, start, name, rest, newEntries, prefixes, q, oldEntries, jumps, jumps + 1);
      if added {
        TableAdd(q, oldEntries + newEntries, Entry(rest, |p|), jumps + 1);
        assert oldEntries + (newEntries + [Entry(rest, |p|)]) == (oldEntries + newEntries) + [Entry(rest, |p|)];
      }
    } else {
      RestNonEmpty(rest);
      RestLength(p, start, name, rest, newEntries, prefixes);
      var prefixes' := WritingStep(p, start, name, rest, newEntries, prefixes, rest, [], added);
      var r := p + [|rest|] + rest;
      WalkZero(q, |r|, jumps + 1);
      assert r[..start] == p[..start];
      var newEntries' := WithEntry(newEntries, Entry(rest, |p|), added);
      WritingDone(r, start, name, [], newEntries', prefixes', q, oldEntries, jumps, jumps + 1);
    }
  }

  lemma {:induction false} TableAdd(q: seq<byte>, entries: seq<Entry>, e: Entry, f: nat)
    requires TableOk(q, entries, f) && Leads(q, e, f)
    ensures TableOk(q, entries + [e], f)
  {
  }

  lemma {:induction false} RestLength(
    p: seq<byte>, start: nat, name: seq<byte>, rest: seq<byte>, newEntries: seq<Entry>, prefixes: seq<seq<seq<byte>>>)
    requires Writing(p, start, name, rest, newEntries, prefixes) && rest != [] && Labels(rest) == [rest]
    ensures 1 <= |rest| <= 63
  {
    assert |Labels(rest)[0]| <= 63;
  }

  lemma {:induction false} RestNonEmpty(rest: seq<byte>)
    requires rest != [] && Labels(rest) == [rest]
    ensures Labels(rest) == [rest] + Labels([])
  {
    assert [rest] + [] == [rest];
  }

  /** APPEND16(ref | 0xc000) */
  method PutPointer(buf: array<byte>, j: nat, ref: nat)
    requires j + 2 <= buf.Length
    modifies buf
    ensures buf[..j + 2] == old(buf[..j]) + PointerBytes(ref)
  {
    var two := PointerBytes(ref);
    buf[j], buf[j + 1] := two[0], two[1];
  }

  lemma {:induction false} TableNone(q: seq<byte>, f: nat)
    ensures TableOk(q, [], f)
  {
  }

  /** The part of dnsname_to_labels that enters the rest of the name in the table and writes its first label. */
  method PutEntry(
    buf: array<byte>, j: nat, start: nat, name: seq<byte>, rest: seq<byte>, dot: nat, table: LabelTable?,
    ghost oldEntries: seq<Entry>, ghost newEntries: seq<Entry>, ghost prefixes: seq<seq<seq<byte>>>, ghost good: bool)
    returns (ghost newEntries': seq<Entry>, ghost prefixes': seq<seq<seq<byte>>>)
    requires start <= j && j + dot + 1 <= buf.Length && dot == IndexOf(rest, DOT) < |rest| && dot <= 63
    requires if table != null then table.labels == oldEntries + newEntries else oldEntries + newEntries == []
    requires good ==> Writing(buf[..j], start, name, rest, newEntries, prefixes)
    modifies buf, table
    ensures buf[..j + 1 + dot] == old(buf[..j]) + ([dot] + rest[..dot])
    ensures if table != null then table.labels == oldEntries + newEntries' else oldEntries + newEntries' == []
    ensures newEntries' == if table != null then Entered(oldEntries, newEntries, Entry(rest, j)) else newEntries
    ensures good ==> Writing(buf[..j + 1 + dot], start, name, rest[dot + 1..], newEntries', prefixes')
  {
    hide Writing, Labels, Walk, TableOk, IndexOf, WellFormed;
    var added := false;
    if table != null {
      added := table.Add(rest, j);
      assert (oldEntries + newEntries) + [Entry(rest, j)] == oldEntries + (newEntries + [Entry(rest, j)]);
    }
    ghost var p := buf[..j];
    PutLabel(buf, j, rest[..dot]);
    assert p + [dot] + rest[..dot] == p + ([dot] + rest[..dot]);
    prefixes' := prefixes;
    if good {
      DotLabel(p, start, name, rest, newEntries, prefixes);
      prefixes' := WritingStep(p, start, name, rest, newEntries, prefixes, rest[..dot], rest[dot + 1..], added);
    }
    newEntries' := if added then newEntries + [Entry(rest, j)] else newEntries;
  }

  /** The part of dnsname_to_labels that looks the rest of the name up, and ends with a pointer if it is known. */
  method PutKnown(
    buf: array<byte>, bufLen: nat, j: nat, start: nat, name: seq<byte>, rest: seq<byte>, table: LabelTable,
    ghost oldEntries: seq<Entry>, ghost newEntries: seq<Entry>, ghost prefixes: seq<seq<seq<byte>>>,
    ghost jumps: nat, ghost good: bool) returns (res: int)
    requires start <= j <= bufLen <= buf.Length && table.labels == oldEntries + newEntries
    requires forall k :: 0 <= k < |newEntries| ==> |newEntries[k].v| > |rest|
    requires good ==>
               TableOk(buf[..start], oldEntries, jumps) && Writing(buf[..j], start, name, rest, newEntries, prefixes)
    modifies buf
    ensures res == 0 <==> Lookup(oldEntries, rest) == |oldEntries|
    ensures res == -2 <==> Lookup(oldEntries, rest) < |oldEntries| && j + 2 > bufLen
    ensures res <= 0 ==> (res == 0 || res == -2) && buf[..] == old(buf[..])
    ensures res > 0 ==>
              var pos := oldEntries[Lookup(oldEntries, rest)].pos;
              && res == j + 2 && buf[..res] == old(buf[..j]) + PointerBytes(pos)
              && (good && pos < 0x4000 ==> Written(buf[..res], start, name, table.labels, jumps + 1))
  {
    hide Writing, Labels, Walk, TableOk, IndexOf, PointerBytes, Target, Written, Lookup;
    LookupOld(oldEntries, newEntries, rest);
    LookupIs(oldEntries, rest);
    var i := table.GetPos(rest);
    if i.None? {
      return 0;
    }
    if j + 2 > bufLen {
      return -2;
    }
    ghost var p := buf[..j];
    assert p[..start] == buf[..start];
    if good && oldEntries[i.value].pos < 0x4000 {
      PointerHere(p, start, name, rest, oldEntries, newEntries, prefixes, i.value, jumps);
    }
    PutPointer(buf, j, table.labels[i.value].pos);
    return j + 2;
  }

  /** Does the final zero byte, which is written without a check, go just behind the buffer? */
  ghost predicate Overruns(entries: seq<Entry>, start: nat, name: seq<byte>, bufLen: nat) {
    |name| <= 255 && FinalZero(entries, name) == [0] && start + |Body(entries, name)| == bufLen
  }

  /**
   Halfway through a name: `front` is p and the labels written so far, `made` are the entries for them, and newEntries
   those of them that the table took, if there is one.
   */
  ghost predicate Midway(
    entries: seq<Entry>, name: seq<byte>, p: seq<byte>, front: seq<byte>, rest: seq<byte>,
    made: seq<Entry>, newEntries: seq<Entry>, entered: bool)
  {
    && |rest| <= |name| && |p| <= |front|
    && (forall k :: 0 <= k < |newEntries| ==> |newEntries[k].v| > |rest|)
    && front + Body(entries, rest) == p + Body(entries, name)
    && FinalZero(entries, rest) == FinalZero(entries, name)
    && (TooLong(entries, rest) <==> TooLong(entries, name))
    && (ReferenceLow(entries, rest) <==> ReferenceLow(entries, name))
    && made + NewEntries(entries, rest, |front|) == NewEntries(entries, name, |p|)
    && (entered ==> entries + newEntries == Capped(entries + made))
  }

  lemma {:induction false} MidwayStart(entries: seq<Entry>, name: seq<byte>, p: seq<byte>, entered: bool)
    requires |entries| <= MAX_LABELS
    ensures Midway(entries, name, p, p, name, [], [], entered)
  {
    hide Body, FinalZero, TooLong, ReferenceLow, NewEntries;
    assert entries + [] == entries;
    assert [] + NewEntries(entries, name, |p|) == NewEntries(entries, name, |p|);
  }

  /** What a table holds after one more attempt to add an entry. */
  function Entered(entries: seq<Entry>, newEntries: seq<Entry>, e: Entry): (es: seq<Entry>) {
    if |entries + newEntries| == MAX_LABELS then newEntries else newEntries + [e]
  }

  lemma {:induction false} CappedStep(entries: seq<Entry>, made: seq<Entry>, newEntries: seq<Entry>, e: Entry)
    requires entries + newEntries == Capped(entries + made)
    ensures entries + Entered(entries, newEntries, e) == Capped(entries + (made + [e]))
  {
    assert entries + (made + [e]) == (entries + made) + [e];
    assert entries + (newEntries + [e]) == (entries + newEntries) + [e];
  }

  /** One label more is written, and entered unless the table is full. */
  lemma {:induction false} MidwayStep(
    entries: seq<Entry>, name: seq<byte>, p: seq<byte>, front: seq<byte>, rest: seq<byte>,
    made: seq<Entry>, newEntries: seq<Entry>, entered: bool)
    requires Midway(entries, name, p, front, rest, made, newEntries, entered)
    requires Lookup(entries, rest) == |entries| && IndexOf(rest, DOT) < |rest| && IndexOf(rest, DOT) <= 63
    ensures var i, e := IndexOf(rest, DOT), Entry(rest, |front|);
            Midway(entries, name, p, front + ([i] + rest[..i]), rest[i + 1..], made + [e],
                   if entered then Entered(entries, newEntries, e) else newEntries, entered)
  {
    hide Body, FinalZero, TooLong, ReferenceLow, NewEntries, Capped, Lookup, IndexOf;
    var i, e := IndexOf(rest, DOT), Entry(rest, |front|);
    var l: seq<byte> := [i] + rest[..i];
    BodyStep(entries, rest, |front|);
    if entered {
      CappedStep(entries, made, newEntries, e);
    }
    var b, es := Body(entries, rest[i + 1..]), NewEntries(entries, rest[i + 1..], |front + l|);
    assert (front + l) + b == front + (l + b);
    assert (made + [e]) + es == made + ([e] + es);
  }

  /** How the name goes on from there. */
  lemma {:induction false} MidwayEnds(
    entries: seq<Entry>, name: seq<byte>, p: seq<byte>, front: seq<byte>, rest: seq<byte>,
    made: seq<Entry>, newEntries: seq<Entry>, entered: bool)
    requires Midway(entries, name, p, front, rest, made, newEntries, entered)
    ensures var k, i, e := Lookup(entries, rest), IndexOf(rest, DOT), Entry(rest, |front|);
            var whole, z, all := p + Body(entries, name), FinalZero(entries, name), NewEntries(entries, name, |p|);
            if k < |entries| then
              && whole == front + PointerBytes(entries[k].pos) && z == [] && all == made && !TooLong(entries, name)
              && (ReferenceLow(entries, name) <==> entries[k].pos < 0x4000)
              && (entered ==> entries + newEntries == Capped(entries + all))
            else if i > 63 then whole == front && z == [] && TooLong(entries, name)
            else if i == |rest| then
              && whole == front + ([i] + rest) && !TooLong(entries, name)
              && z == ZeroAfter(rest)
              && (entered ==> entries + Entered(entries, newEntries, e) == Capped(entries + all))
            else |whole| >= |front| + 1 + i
    ensures forall k :: 0 <= k < |newEntries| ==> |newEntries[k].v| > |rest|
  {
    hide Body, FinalZero, TooLong, ReferenceLow, NewEntries, Capped, Lookup, IndexOf, PointerBytes, Entered;
    BodyStep(entries, rest, |front|);
    if entered {
      CappedStep(entries, made, newEntries, Entry(rest, |front|));
    }
    assert front + [] == front && made + [] == made;
  }

  /** The loop of dnsname_to_labels; the result is 0 where it ends at the last label. */
  method PutLabels(
    buf: array<byte>, bufLen: nat, start: nat, name: seq<byte>, table: LabelTable?,
    ghost oldEntries: seq<Entry>, ghost jumps: nat, ghost good: bool)
    returns (res: int, j: nat, rest: seq<byte>,
             ghost made: seq<Entry>, ghost newEntries: seq<Entry>, ghost prefixes: seq<seq<seq<byte>>>)
    requires start <= bufLen <= buf.Length && |oldEntries| <= MAX_LABELS
    requires if table != null then table.labels == oldEntries else oldEntries == []
    requires good ==> WellFormed(name) && ReferenceLow(oldEntries, name) && TableOk(buf[..start], oldEntries, jumps)
    modifies buf, table
    ensures var body, z := Body(oldEntries, name), FinalZero(oldEntries, name);
            && buf[..start] == old(buf[..start])
            && (res == 0 || if start + |body| > bufLen then res == -2
                            else if TooLong(oldEntries, name) then res == -1
                            else z == [] && res == start + |body| && buf[..res] == old(buf[..start]) + body)
            && (res > 0 && table != null ==>
                  table.labels == Capped(oldEntries + NewEntries(oldEntries, name, start)))
            && (res > 0 && good ==>
                  Written(buf[..res], start, name, if table != null then table.labels else [], jumps + 1))
    ensures res == 0 ==>
              && start <= j <= bufLen && IndexOf(rest, DOT) == |rest| && Lookup(oldEntries, rest) == |oldEntries|
              && (if table != null then table.labels == oldEntries + newEntries else oldEntries + newEntries == [])
              && Midway(oldEntries, name, old(buf[..start]), buf[..j], rest, made, newEntries, table != null)
              && (good ==> Writing(buf[..j], start, name, rest, newEntries, prefixes))
  {
    hide Writing, Labels, Walk, TableOk, IndexOf, PointerBytes, Target, Written, Lookup;
    hide Body, FinalZero, TooLong, ReferenceLow, NewEntries, WellFormed, Capped, Midway;
    newEntries, made, prefixes := [], [], [[]];
    ghost var p := buf[..start];
    j, rest := start, name;
    if good {
      WritingStart(p, name);
    }
    MidwayStart(oldEntries, name, p, table != null);
    assert p[..start] == p && oldEntries + newEntries == oldEntries;
    while true
      invariant start <= j <= bufLen && buf[..start] == p
      invariant if table != null then table.labels == oldEntries + newEntries else oldEntries + newEntries == []
      invariant Midway(oldEntries, name, p, buf[..j], rest, made, newEntries, table != null)
      invariant good ==> Writing(buf[..j], start, name, rest, newEntries, prefixes)
      decreases |rest|
    {
      MidwayEnds(oldEntries, name, p, buf[..j], rest, made, newEntries, table != null);
      if table != null {
        res := PutKnown(
          buf, bufLen, j, start, name, rest, table, oldEntries, newEntries, prefixes, jumps, good);
        if res != 0 {
          return;
        }
      }
      assert Lookup(oldEntries, rest) == |oldEntries|;
      var dot := IndexOf(rest, DOT);
      if dot == |rest| {
        res := 0;
        return;
      }
      if dot > 63 {
        res := -1;
        return;
      }
      if j + dot + 1 > bufLen {
        res := -2;
        return;
      }
      MidwayStep(oldEntries, name, p, buf[..j], rest, made, newEntries, table != null);
      made := made + [Entry(rest, j)];
      newEntries, prefixes := PutEntry(buf, j, start, name, rest, dot, table, oldEntries, newEntries, prefixes, good);
      j, rest := j + 1 + dot, rest[dot + 1..];
    }
  }

  /**
   dnsname_to_labels: writes name, a C string, at offset start, with a pointer to the first suffix of it that is in the
   table; the result is the offset after it, or -1 for a label that is too long, or -2 for too little room.  Since the
   final zero byte is not checked, buf must be longer than bufLen just when that byte goes behind it.
   */
  method NameToLabels(
    buf: array<byte>, bufLen: nat, start: nat, name: seq<byte>, table: LabelTable?, ghost jumps: nat) returns (res: int)
    requires start <= bufLen <= buf.Length && (table != null ==> |table.labels| <= MAX_LABELS) && 0 !in name
    requires Overruns(if table != null then table.labels else [], start, name, bufLen) ==> bufLen < buf.Length
    modifies buf, table
    ensures var entries := if table != null then old(table.labels) else [];
            var body := Body(entries, name);
            && buf[..start] == old(buf[..start])
            && (res == -2 <==> |name| > 255 || start + |body| > bufLen)
            && (res == -1 <==> |name| <= 255 && start + |body| <= bufLen && TooLong(entries, name))
            && (res >= 0 || res == -1 || res == -2)
            && (res >= 0 ==> buf.Length >= res == start + |body| + |FinalZero(entries, name)|
                             && buf[..res] == old(buf[..start]) + body + FinalZero(entries, name))
            && (res == bufLen + 1 <==> Overruns(entries, start, name, bufLen))
            && (res >= 0 && table != null ==> table.labels == Capped(entries + NewEntries(entries, name, start)))
            && (res >= 0 && WellFormed(name) && ReferenceLow(entries, name)
                && TableOk(old(buf[..start]), entries, jumps) ==>
                  Written(buf[..res], start, name, if table != null then table.labels else [], jumps + 1))
  {
    hide Labels, Walk, TableOk, PointerBytes, Written, Lookup, Body, FinalZero, TooLong, ReferenceLow, NewEntries;
    hide WellFormed, Capped;
    ghost var entries := if table != null then table.labels else [];
    ZeroMeans(entries, name);
    if |name| > 255 {
      return -2;
    }
    ghost var good := WellFormed(name) && ReferenceLow(entries, name) && TableOk(buf[..start], entries, jumps);
    res := PutName(buf, bufLen, start, name, table, entries, jumps, good);
  }

  /** The same for a name that is short enough. */
  method PutName(
    buf: array<byte>, bufLen: nat, start: nat, name: seq<byte>, table: LabelTable?,
    ghost entries: seq<Entry>, ghost jumps: nat, ghost good: bool)
    returns (res: int)
    requires start <= bufLen <= buf.Length && |entries| <= MAX_LABELS
    requires if table != null then table.labels == entries else entries == []
    requires Overruns(entries, start, name, bufLen) ==> bufLen < buf.Length
    requires good ==> WellFormed(name) && ReferenceLow(entries, name) && TableOk(buf[..start], entries, jumps)
    requires |name| <= 255
    modifies buf, table
    ensures var body, z := Body(entries, name), FinalZero(entries, name);
            && buf[..start] == old(buf[..start])
            && (if start + |body| > bufLen then res == -2
                else if TooLong(entries, name) then res == -1
                else buf.Length >= res == start + |body| + |z| && buf[..res] == old(buf[..start]) + body + z)
            && (res >= 0 && table != null ==> table.labels == Capped(entries + NewEntries(entries, name, start)))
            && (res >= 0 && good ==>
                  Written(buf[..res], start, name, if table != null then table.labels else [], jumps + 1))
  {
    hide Writing, Labels, Walk, TableOk, IndexOf, PointerBytes, Target, Written, Lookup, Entered;
    hide Body, FinalZero, TooLong, ReferenceLow, NewEntries, WellFormed, Capped, Midway;
    ghost var p := buf[..start];
    ghost var made, newEntries, prefixes;
    var j, rest;
    ZeroMeans(entries, name);
    res, j, rest, made, newEntries, prefixes := PutLabels(buf, bufLen, start, name, table, entries, jumps, good);
    if res == 0 {
      MidwayEnds(entries, name, p, buf[..j], rest, made, newEntries, table != null);
      res := PutLast(buf, bufLen, j, start, name, rest, table, entries, newEntries, prefixes, jumps, good);
    }
  }

  /** What is too long gets no final zero, and what is not is not empty. */
  lemma {:induction false} ZeroMeans(entries: seq<Entry>, name: seq<byte>)
    ensures TooLong(entries, name) ==> FinalZero(entries, name) == []
    ensures |Body(entries, name)| > 0 || TooLong(entries, name)
    decreases |name|
  {
    hide Body, FinalZero, TooLong, NewEntries, ReferenceLow;
    BodyStep(entries, name, 0);
    BodyBound(entries, name);
    var i := IndexOf(name, DOT);
    if Lookup(entries, name) == |entries| && i <= 63 && i < |name| {
      ZeroMeans(entries, name[i + 1..]);
    }
  }

  lemma {:induction false} DotLabel(
    p: seq<byte>, start: nat, name: seq<byte>, rest: seq<byte>, newEntries: seq<Entry>, prefixes: seq<seq<seq<byte>>>)
    requires Writing(p, start, name, rest, newEntries, prefixes) && IndexOf(rest, DOT) < |rest|
    ensures var i := IndexOf(rest, DOT);
            WellFormed(rest[i + 1..]) && Labels(rest) == [rest[..i]] + Labels(rest[i + 1..]) && 1 <= i <= 63
  {
    LabelsRest(rest);
  }

  /** A pointer to an entry for the rest of the name ends the name.  The entry is an old one: new ones are longer. */
  lemma {:induction false} PointerHere(
    p: seq<byte>, start: nat, name: seq<byte>, rest: seq<byte>,
    oldEntries: seq<Entry>, newEntries: seq<Entry>, prefixes: seq<seq<seq<byte>>>, i: nat, jumps: nat)
    requires Writing(p, start, name, rest, newEntries, prefixes)
    requires start <= |p| && TableOk(p[..start], oldEntries, jumps)
    requires i < |oldEntries| && oldEntries[i].v == rest && oldEntries[i].pos < 0x4000
    ensures Written(p + PointerBytes(oldEntries[i].pos), start, name, oldEntries + newEntries, jumps + 1)
  {
    hide Labels, WellFormed, Walk, TableOk, PointerBytes;
    var q := p + PointerBytes(oldEntries[i].pos);
    WalkPointer(p, start, oldEntries, i, jumps);
    WritingDone(p, start, name, rest, newEntries, prefixes, q, oldEntries, jumps, jumps + 1);
  }

  /** In packet q, name_parse at offset `at` finds the name and goes on at `next`. */
  ghost predicate Parses(q: seq<byte>, at: nat, name: seq<byte>, next: nat) {
    Walk(q, at, |q|) == Some((Labels(name), next)) && name == Join(Labels(name)) + FinalDot(name)
  }

  /** A written name is read back, whatever is written after it. */
  lemma {:induction false} RoundTrip(p: seq<byte>, q: seq<byte>, at: nat, name: seq<byte>, jumps: nat)
    requires WellFormed(name) && p <= q && jumps <= |p|
    requires Walk(p, at, jumps) == Some((Labels(name), |p|))
    ensures Parses(q, at, name, |p|)
  {
    hide WellFormed, Walk, Labels, Join;
    WalkExtend(p, q, at, jumps, |q|);
    JoinLabels(name);
  }

  /** A name found in p is found in any packet that starts with p. */
  lemma {:induction false} ParsesExtend(p: seq<byte>, q: seq<byte>, at: nat, name: seq<byte>, next: nat)
    requires Parses(p, at, name, next) && p <= q
    ensures Parses(q, at, name, next)
  {
    hide Labels, Join, FinalDot;
    WalkExtend(p, q, at, |p|, |q|);
  }

  lemma {:induction false} TableExtend(p: seq<byte>, q: seq<byte>, entries: seq<Entry>, f: nat)
    requires TableOk(p, entries, f) && p <= q
    ensures TableOk(q, entries, f)
  {
    hide Labels, Walk;
    forall i | 0 <= i < |entries| ensures Leads(q, entries[i], f) {
      assert Leads(p, entries[i], f);
      WalkExtend(p, q, entries[i].pos, f, f);
    }
  }

  /** The most room that the names take with what is in front of them. */
  function RoomFor(names: seq<seq<byte>>, gaps: seq<seq<byte>>): (n: nat)
    requires |names| == |gaps|
  {
    if names == [] then 0 else |gaps[0]| + |names[0]| + 2 + RoomFor(names[1..], gaps[1..])
  }

  lemma {:induction false} RoomStep(names: seq<seq<byte>>, gaps: seq<seq<byte>>, k: nat)
    requires |names| == |gaps| && k < |names|
    ensures RoomFor(names[k..], gaps[k..]) == |gaps[k]| + |names[k]| + 2 + RoomFor(names[k + 1..], gaps[k + 1..])
  {
    assert names[k..][1..] == names[k + 1..] && gaps[k..][1..] == gaps[k + 1..];
  }

  /** The new entries point into what is written for the name. */
  lemma {:induction false} NewEntriesAt(entries: seq<Entry>, rest: seq<byte>, pos: nat)
    ensures forall e <- NewEntries(entries, rest, pos) :: pos <= e.pos < pos + |Body(entries, rest)|
    decreases |rest|
  {
    hide Body, NewEntries, FinalZero, TooLong, ReferenceLow, Lookup;
    BodyStep(entries, rest, pos);
    var i := IndexOf(rest, DOT);
    if Lookup(entries, rest) == |entries| && i <= 63 && i < |rest| {
      NewEntriesAt(entries, rest[i + 1..], pos + i + 1);
    }
  }

  lemma {:induction false} LowReference(entries: seq<Entry>, rest: seq<byte>)
    requires Low(entries)
    ensures ReferenceLow(entries, rest)
    decreases |rest|
  {
    var i := IndexOf(rest, DOT);
    if Lookup(entries, rest) == |entries| && i < |rest| && i <= 63 {
      LowReference(entries, rest[i + 1..]);
    }
  }

  /** Entries stay low when a name is written below 0x4000. */
  lemma {:induction false} LowKept(entries: seq<Entry>, name: seq<byte>, start: nat)
    requires Low(entries) && start + |Body(entries, name)| <= 0x4000
    ensures Low(Capped(entries + NewEntries(entries, name, start)))
    ensures |Capped(entries + NewEntries(entries, name, start))| <= MAX_LABELS
  {
    hide Body, NewEntries;
    NewEntriesAt(entries, name, start);
  }

  /** The gap ends at offset `at`. */
  ghost predicate GapAt(q: seq<byte>, gap: seq<byte>, at: nat) {
    |gap| <= at <= |q| && q[at - |gap|..at] == gap
  }

  lemma {:induction false} GapExtend(p: seq<byte>, q: seq<byte>, gap: seq<byte>, at: nat)
    requires GapAt(p, gap, at) && p <= q
    ensures GapAt(q, gap, at)
  {
    assert q[at - |gap|..at] == p[at - |gap|..at];
  }

  lemma {:induction false} GapHere(p: seq<byte>, gap: seq<byte>)
    ensures GapAt(p + gap, gap, |p + gap|)
  {
  }

  /** Each gap lies right behind the name before it, and each name right behind its gap. */
  ghost predicate LaidOut(q: seq<byte>, gaps: seq<seq<byte>>, starts: seq<nat>, ends: seq<nat>) {
    && |starts| == |ends| == |gaps|
    && (forall i :: 0 <= i < |starts| ==> starts[i] == (if i == 0 then 0 else ends[i - 1]) + |gaps[i]|)
    && (forall i :: 0 <= i < |starts| ==> GapAt(q, gaps[i], starts[i]))
    && |q| == if ends == [] then 0 else ends[|ends| - 1]
  }

  lemma {:induction false} LaidOutStep(
    p: seq<byte>, q: seq<byte>, gaps: seq<seq<byte>>, starts: seq<nat>, ends: seq<nat>, gap: seq<byte>)
    requires LaidOut(p, gaps, starts, ends) && p + gap <= q
    ensures LaidOut(q, gaps + [gap], starts + [|p + gap|], ends + [|q|])
  {
    hide GapAt;
    var gaps', starts', ends' := gaps + [gap], starts + [|p + gap|], ends + [|q|];
    GapHere(p, gap);
    GapExtend(p + gap, q, gap, |p + gap|);
    forall i | 0 <= i < |starts'|
      ensures starts'[i] == (if i == 0 then 0 else ends'[i - 1]) + |gaps'[i]| && GapAt(q, gaps'[i], starts'[i])
    {
      if i < |starts| {
        GapExtend(p, q, gaps[i], starts[i]);
      }
    }
  }

  /**
   Names written one after the other with one label table, each after some other bytes: when all fit, each of them
   parses from where it was written, and parsing goes on where writing did.
   */
  method WriteNames(buf: array<byte>, bufLen: nat, names: seq<seq<byte>>, gaps: seq<seq<byte>>)
    returns (ok: bool, starts: seq<nat>, ends: seq<nat>, end: nat)
    requires bufLen < buf.Length && bufLen <= 0x4000 && |gaps| == |names|
    requires forall i :: 0 <= i < |names| ==> WellFormed(names[i])
    modifies buf
    ensures ok ==> end <= bufLen + 1 && LaidOut(buf[..end], gaps, starts, ends)
    ensures RoomFor(names, gaps) <= bufLen && (forall name <- names :: |name| <= 255) ==> ok
    ensures ok ==> forall i :: 0 <= i < |names| ==> Parses(buf[..end], starts[i], names[i], ends[i])
  {
    hide WellFormed, Parses, TableOk, Written, Low, Labels, Walk, Body, FinalZero, TooLong, ReferenceLow, NewEntries;
    hide Capped, LaidOut, RoomFor;
    assert names[0..] == names && gaps[0..] == gaps;
    var table := new LabelTable();
    var k := 0;
    starts, ends, end := [], [], 0;
    TableNone(buf[..0], 0);
    NothingYet(buf[..0]);
    while k < |names|
      invariant 0 <= k <= |names| && |starts| == |ends| == k <= end <= bufLen + 1
      invariant TableOk(buf[..end], table.labels, k) && fresh(table)
      invariant Low(table.labels) && |table.labels| <= MAX_LABELS
      invariant RoomFor(names, gaps) <= bufLen && (forall name <- names :: |name| <= 255) ==>
                  end + RoomFor(names[k..], gaps[k..]) <= bufLen
      invariant LaidOut(buf[..end], gaps[..k], starts, ends)
      invariant forall i :: 0 <= i < k ==> Parses(buf[..end], starts[i], names[i], ends[i])
    {
      RoomStep(names, gaps, k);
      assert gaps[..k + 1] == gaps[..k] + [gaps[k]];
      assert names[k] in names;
      ghost var p := buf[..end];
      var start, res := WriteName(buf, bufLen, end, gaps[k], names[k], table, k);
      if res < 0 {
        return false, starts, ends, end;
      }
      ghost var q := buf[..res];
      LaidOutStep(p, q, gaps[..k], starts, ends, gaps[k]);
      forall i | 0 <= i < k ensures Parses(q, starts[i], names[i], ends[i]) {
        ParsesExtend(p, q, starts[i], names[i], ends[i]);
      }
      starts, ends, end, k := starts + [start], ends + [res], res, k + 1;
    }
    assert gaps[..k] == gaps;
    ok := true;
  }

  /** One more name, after its gap. */
  method WriteName(
    buf: array<byte>, bufLen: nat, end: nat, gap: seq<byte>, name: seq<byte>, table: LabelTable, ghost jumps: nat)
    returns (start: nat, res: int)
    requires bufLen < buf.Length && bufLen <= 0x4000 && jumps <= end <= bufLen + 1 && WellFormed(name)
    requires TableOk(buf[..end], table.labels, jumps) && Low(table.labels) && |table.labels| <= MAX_LABELS
    modifies buf, table
    ensures start == end + |gap|
    ensures start + |name| + 2 <= bufLen && |name| <= 255 ==> res >= 0
    ensures res >= 0 ==>
              && start < res <= bufLen + 1 && res <= start + |name| + 2
              && old(buf[..end]) + gap <= buf[..res]
              && TableOk(buf[..res], table.labels, jumps + 1) && Low(table.labels) && |table.labels| <= MAX_LABELS
              && Parses(buf[..res], start, name, res)
  {
    hide WellFormed, Parses, TableOk, Written, Low, Labels, Walk, Body, FinalZero, TooLong, ReferenceLow, NewEntries;
    hide Capped;
    start := end + |gap|;
    if start > bufLen {
      return start, -1;
    }
    ghost var p, entries := buf[..end], table.labels;
    PutGap(buf, end, gap);
    TableExtend(p, buf[..start], entries, jumps);
    LowReference(entries, name);
    BodyBound(entries, name);
    NoZero(name);
    res := NameToLabels(buf, bufLen, start, name, table, jumps);
    if res >= 0 {
      LowKept(entries, name, start);
      WrittenParses(buf[..res], start, name, table.labels, jumps + 1);
    }
  }

  lemma {:induction false} NoZero(name: seq<byte>)
    requires WellFormed(name)
    ensures 0 !in name
  {
  }

  lemma {:induction false} NothingYet(q: seq<byte>)
    requires q == []
    ensures LaidOut(q, [], [], []) && Low([])
  {
  }

  method PutGap(buf: array<byte>, end: nat, gap: seq<byte>)
    requires end + |gap| <= buf.Length
    modifies buf
    ensures buf[..end + |gap|] == old(buf[..end]) + gap
  {
    forall i | 0 <= i < |gap| {
      buf[end + i] := gap[i];
    }
  }

  lemma {:induction false} WrittenParses(q: seq<byte>, start: nat, name: seq<byte>, entries: seq<Entry>, jumps: nat)
    requires WellFormed(name) && Written(q, start, name, entries, jumps) && jumps <= |q|
    ensures Parses(q, start, name, |q|) && TableOk(q, entries, jumps)
  {
    hide WellFormed, TableOk, Labels, Walk;
    RoundTrip(q, q, start, name, jumps);
  }

  lemma {:induction false} InlineWalkNone(p: seq<byte>, a: nat, ls: seq<seq<byte>>, b: nat, q: seq<byte>, f: nat)
    requires Inline(p, a, ls, b) && p <= q && Walk(q, b, f) == None
    ensures Walk(q, a, f) == None
    decreases |ls|
  {
    if ls != [] {
      InlineWalkNone(p, a + 1 + |ls[0]|, ls[1..], b, q, f);
    }
  }

  lemma {:induction false} SameTail(a: seq<seq<byte>>, b: seq<seq<byte>>, c: seq<seq<byte>>)
    ensures a + b == a + c <==> b == c
  {
    if a + b == a + c {
      assert (a + b)[|a|..] == b && (a + c)[|a|..] == c;
    }
  }

  /** Labels and a pointer read as the labels and the suffix just when the offset's low 14 bits lead to the suffix. */
  lemma {:induction false} PointerReads(
    p: seq<byte>, start: nat, ls: seq<seq<byte>>, suffix: seq<byte>, pos: nat, jumps: nat)
    requires Inline(p, start, ls, |p|)
    ensures var q := p + PointerBytes(pos);
            Walk(q, start, jumps + 1) == Some((ls + Labels(suffix), |q|))
            <==> Leads(q, Entry(suffix, pos % 0x4000), jumps)
  {
    hide Labels, Inline;
    var q := p + PointerBytes(pos);
    PointerTarget(p, pos, []);
    assert p + PointerBytes(pos) + [] == q;
    assert Target(q, |p|) == pos % 0x4000;
    PointerWalk(q, |p|, jumps);
    hide Walk, PointerBytes;
    var found := Walk(q, pos % 0x4000, jumps);
    if found.None? {
      InlineWalkNone(p, start, ls, |p|, q, jumps + 1);
    } else {
      InlineWalk(p, start, ls, |p|, q, jumps + 1);
      SameTail(ls, found.value.0, Labels(suffix));
    }
  }

  lemma {:induction false} PointerWalk(q: seq<byte>, j: nat, jumps: nat)
    requires j + 2 == |q| && q[j] >= 64
    ensures Walk(q, j, jumps + 1) == match Walk(q, Target(q, j), jumps)
                                     case None => None
                                     case Some((ls, _)) => Some((ls, j + 2))
  {
  }

  /** "a" in two bytes of room: the final zero byte goes behind them. */
  method OverrunExample() returns (buf: array<byte>, bufLen: nat, res: int)
    ensures bufLen == 2 && res == 3 && buf[..] == [1, 97, 0]
  {
    buf, bufLen := new byte[3], 2;
    assert IndexOf([97], DOT) == 1 by { assert [97][1..] == []; }
    assert Body([], [97]) == [1, 97] && FinalZero([], [97]) == [0];
    res := NameToLabels(buf, bufLen, 0, [97], null, 0);
    assert buf[..0] == [] && buf[..] == buf[..3];
  }

  /** "b" at offset 0, zeros, and "a" at offset 0x4000. */
  predicate Late(p: seq<byte>) {
    |p| == 0x4003 && p[..3] == [1, 98, 0] && p[0x4000..] == [1, 97, 0]
  }

  lemma {:induction false} LateWalks(p: seq<byte>, q: seq<byte>)
    requires Late(p) && q == p + [192, 0]
    ensures Leads(p, Entry([97], 0x4000), 0)
    ensures Walk(q, 0x4003, |q|) == Some(([[98]], 0x4005))
    ensures Body([Entry([97], 0x4000)], [97]) == [192, 0] && FinalZero([Entry([97], 0x4000)], [97]) == []
    ensures Join([[98]]) == [98] && !TooLong([Entry([97], 0x4000)], [97])
  {
    assert p[0x4000..][0] == 1 && p[0x4000..][1] == 97 && p[0x4000..][2] == 0;
    assert p[..3][0] == 1 && p[..3][1] == 98 && p[..3][2] == 0;
    assert [97][1..] == [] && IndexOf([97], DOT) == 1;
    assert Walk(p, 0x4002, 0) == Some(([], 0x4003));
    assert p[0x4001..0x4002] == [97] && [[97]] + [] == [[97]];
    assert Labels([97]) == [[97]];
    assert Walk(q, 2, |q| - 1) == Some(([], 3));
    assert q[1..2] == [98] && [[98]] + [] == [[98]];
    assert Walk(q, 0, |q| - 1) == Some(([[98]], 3));
    assert Target(q, 0x4003) == 0;
  }

  method LatePacket() returns (buf: array<byte>)
    ensures buf.Length == 0x4010 && Late(buf[..0x4003]) && fresh(buf)
  {
    buf := new byte[0x4010](_ => 0);
    buf[0], buf[1], buf[2] := 1, 98, 0;
    buf[0x4000], buf[0x4001], buf[0x4002] := 1, 97, 0;
  }

  /** "a" is in the table, rightly, at offset 0x4000; written once more, it is read back as "b". */
  method LatePointerExample() returns (name: seq<byte>)
    ensures name == [98]
  {
    hide Walk, Body, FinalZero, Leads, Labels, Late, ReferenceLow, TooLong, NewEntries, Join;
    var buf := LatePacket();
    var table := new LabelTable();
    table.labels := [Entry([97], 0x4000)];
    ghost var p := buf[..0x4003];
    LateWalks(p, p + [192, 0]);
    var res := NameToLabels(buf, 0x4010, 0x4003, [97], table, 0);
    assert p + [192, 0] + [] == p + [192, 0];
    var nameOut := new byte[256];
    var r, _ := NameParse(buf[..res], 0x4003, nameOut, 256);
    name := nameOut[..1];
  }
}
