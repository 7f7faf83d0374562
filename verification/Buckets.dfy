/** Counting in lists of buckets, whatever the buckets hold. */
module Buckets {

  function Count<T>(xs: seq<T>, p: T -> bool): (n: nat) {
    if xs == [] then 0 else One(xs[0], p) + Count(xs[1..], p)
  }

  function One<T>(x: T, p: T -> bool): (n: nat) {
    if p(x) then 1 else 0
  }

  /** The count over all buckets. */
  function Tally<T>(bs: seq<seq<T>>, p: T -> bool): (n: nat) {
    if bs == [] then 0 else Count(bs[0], p) + Tally(bs[1..], p)
  }

  lemma {:induction false} CountConcat<T>(a: seq<T>, b: seq<T>, p: T -> bool)
    ensures Count(a + b, p) == Count(a, p) + Count(b, p)
  {
    if a == [] {
      assert a + b == b;
    } else {
      CountConcat(a[1..], b, p);
      assert (a + b)[1..] == a[1..] + b;
    }
  }

  lemma {:induction false} CountOne<T>(x: T, p: T -> bool)
    ensures Count([x], p) == One(x, p)
  {
    assert [x][1..] == [];
  }

  /** Taking out element k. */
  lemma {:induction false} CountWithout<T>(xs: seq<T>, k: nat, p: T -> bool)
    requires k < |xs|
    ensures Count(xs, p) == Count(xs[..k] + xs[k + 1..], p) + One(xs[k], p)
  {
    assert xs == xs[..k] + ([xs[k]] + xs[k + 1..]);
    CountConcat(xs[..k], [xs[k]] + xs[k + 1..], p);
    CountConcat([xs[k]], xs[k + 1..], p);
    CountConcat(xs[..k], xs[k + 1..], p);
    CountOne(xs[k], p);
  }

  /** Replacing element k. */
  lemma {:induction false} CountUpdate<T>(xs: seq<T>, k: nat, x: T, p: T -> bool)
    requires k < |xs|
    ensures Count(xs[k := x], p) == Count(xs, p) - One(xs[k], p) + One(x, p)
  {
    CountWithout(xs, k, p);
    CountWithout(xs[k := x], k, p);
    assert xs[k := x][..k] + xs[k := x][k + 1..] == xs[..k] + xs[k + 1..];
  }

  lemma {:induction false} CountSnoc<T>(xs: seq<T>, x: T, p: T -> bool)
    ensures Count(xs + [x], p) == Count(xs, p) + One(x, p)
    ensures Count([x] + xs, p) == Count(xs, p) + One(x, p)
  {
    CountConcat(xs, [x], p);
    CountConcat([x], xs, p);
    CountOne(x, p);
  }

  lemma {:induction false} CountNone<T>(xs: seq<T>, p: T -> bool)
    requires forall k :: 0 <= k < |xs| ==> !p(xs[k])
    ensures Count(xs, p) == 0
  {
    if xs != [] {
      CountNone(xs[1..], p);
    }
  }

  lemma {:induction false} CountSome<T>(xs: seq<T>, k: nat, p: T -> bool)
    requires k < |xs| && p(xs[k])
    ensures Count(xs, p) > 0
  {
    CountWithout(xs, k, p);
  }

  lemma {:induction false} CountAll<T>(xs: seq<T>, p: T -> bool)
    requires forall k :: 0 <= k < |xs| ==> p(xs[k])
    ensures Count(xs, p) == |xs|
  {
    if xs != [] {
      CountAll(xs[1..], p);
    }
  }

  lemma {:induction false} TallyUpdate<T>(bs: seq<seq<T>>, i: nat, b: seq<T>, p: T -> bool)
    requires i < |bs|
    ensures Tally(bs[i := b], p) == Tally(bs, p) - Count(bs[i], p) + Count(b, p)
    ensures Tally(bs, p) >= Count(bs[i], p)
  {
    if i == 0 {
      assert bs[0 := b][1..] == bs[1..];
    } else {
      TallyUpdate(bs[1..], i - 1, b, p);
      assert bs[i := b][1..] == bs[1..][i - 1 := b];
    }
  }

  lemma {:induction false} TallyConcat<T>(a: seq<seq<T>>, b: seq<seq<T>>, p: T -> bool)
    ensures Tally(a + b, p) == Tally(a, p) + Tally(b, p)
  {
    if a == [] {
      assert a + b == b;
    } else {
      TallyConcat(a[1..], b, p);
      assert (a + b)[1..] == a[1..] + b;
    }
  }

  lemma {:induction false} TallyNone<T>(bs: seq<seq<T>>, p: T -> bool)
    requires forall i, k :: 0 <= i < |bs| && 0 <= k < |bs[i]| ==> !p(bs[i][k])
    ensures Tally(bs, p) == 0
  {
    if bs != [] {
      CountNone(bs[0], p);
      TallyNone(bs[1..], p);
    }
  }

  lemma {:induction false} TallySome<T>(bs: seq<seq<T>>, i: nat, k: nat, p: T -> bool)
    requires i < |bs| && k < |bs[i]| && p(bs[i][k])
    ensures Tally(bs, p) > 0
  {
    TallyUpdate(bs, i, bs[i], p);
    CountSome(bs[i], k, p);
  }
}
