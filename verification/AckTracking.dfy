/** Pruning the receive set when an ACK frame is itself acknowledged:
    track_acked_pkts in lib/src/recovery.c (section 13.2.4 of RFC 9000). */
module AckTracking {
  import opened Nodes
  import opened Ivals
  import opened RemoveRange
  import opened Varint
  import opened AckCodec
  import opened Diet

  /** `b` is `a` without numbers of `v`, of which some may stay. */
  ghost predicate Pruned(a: seq<Iv>, b: seq<Iv>, v: seq<Iv>)
  {
    && Canonical(b)
    && (forall m: int :: Has(b, m) ==> Has(a, m))
    && (forall m: int :: Has(a, m) && !Has(v, m) ==> Has(b, m))
  }

  ghost predicate Subset(v: seq<Iv>, a: seq<Iv>)
  {
    forall m: int :: Has(v, m) ==> Has(a, m)
  }

  ghost predicate Disjoint(v: seq<Iv>, a: seq<Iv>)
  {
    forall m: int :: Has(v, m) ==> !Has(a, m)
  }

  /** State of the loop when the intervals of `v` from `k` on have been removed. */
  ghost predicate Midway(a: seq<Iv>, b: seq<Iv>, v: seq<Iv>, k: nat)
    requires k <= |v|
  {
    && Pruned(a, b, v)
    && (Subset(v, a) ==> Subset(v[..k], b) && Disjoint(v[k..], b))
  }

  lemma MidwayStarts(a: seq<Iv>, v: seq<Iv>)
    requires Canonical(a)
    ensures Midway(a, a, v, |v|)
  {
    assert v[..|v|] == v && v[|v|..] == [];
  }

  lemma SliceHas(v: seq<Iv>, i: nat, j: nat, m: int)
    requires i <= j <= |v|
    ensures Has(v[i..j], m) <==> exists k :: i <= k < j && Within(v[k], m)
  {
    if Has(v[i..j], m) {
      var k :| 0 <= k < |v[i..j]| && Within(v[i..j][k], m);
      assert Within(v[i + k], m);
    }
    if k :| i <= k < j && Within(v[k], m) { assert Within(v[i..j][k - i], m); }
  }

  ghost predicate RangeGone(b: seq<Iv>, b': seq<Iv>, lo: nat, hi: nat)
  {
    RemoveStep(b, b', lo, hi) && (Covered(b, lo, hi) ==> Clear(b', lo, hi))
  }

  /** Removing the interval `v[k]` takes the loop one step further. */
  lemma MidwayStep(a: seq<Iv>, b: seq<Iv>, b': seq<Iv>, v: seq<Iv>, k: nat)
    requires Canonical(v) && k < |v| && Midway(a, b, v, k + 1)
    requires RangeGone(b, b', v[k].lo, v[k].hi)
    ensures Midway(a, b', v, k)
  {
    forall m: int | Has(a, m) && !Has(v, m) ensures Has(b', m) {
      assert Has(b, m);
      assert !Within(v[k], m);
    }
    if Subset(v, a) {
      forall m: int ensures Has(v[..k], m) ==> Has(b', m) { MidwayBelow(b, b', v, k, m); }
      forall m: int | v[k].lo <= m <= v[k].hi ensures Has(b, m) {
        assert Within(v[..k + 1][k], m);
      }
      forall m: int ensures Has(v[k..], m) ==> !Has(b', m) { MidwayAbove(b, b', v, k, m); }
    }
  }

  lemma MidwayBelow(b: seq<Iv>, b': seq<Iv>, v: seq<Iv>, k: nat, m: int)
    requires Canonical(v) && k < |v| && Subset(v[..k + 1], b) && RemoveStep(b, b', v[k].lo, v[k].hi)
    ensures Has(v[..k], m) ==> Has(b', m)
  {
    if Has(v[..k], m) {
      SliceHas(v, 0, k, m);
      var i :| 0 <= i < k && Within(v[i], m);
      assert Within(v[..k + 1][i], m) && Has(v[..k + 1], m);
    }
  }

  lemma MidwayAbove(b: seq<Iv>, b': seq<Iv>, v: seq<Iv>, k: nat, m: int)
    requires Canonical(v) && k < |v| && Disjoint(v[k + 1..], b) && RemoveStep(b, b', v[k].lo, v[k].hi)
    requires Clear(b', v[k].lo, v[k].hi)
    ensures Has(v[k..], m) ==> !Has(b', m)
  {
    if Has(v[k..], m) {
      SliceHas(v, k, |v|, m);
      var i :| k <= i < |v| && Within(v[i], m);
      if i > k { assert Within(v[k + 1..][i - k - 1], m) && Has(v[k + 1..], m); }
    }
  }

  // ----- removing the ranges one after another

  /** What diet_remove_ival leaves of `b`, for a range that is one. */
  ghost predicate Forgot(b: seq<Iv>, b': seq<Iv>, range: (nat, nat))
  {
    range.0 <= range.1 ==> RangeGone(b, b', range.0, range.1)
  }

  /** `b` is left of `a` when the ranges `rs` have been removed in order. */
  ghost predicate Forgotten(a: seq<Iv>, b: seq<Iv>, rs: seq<(nat, nat)>)
    decreases |rs|
  {
    if rs == [] then a == b
    else exists c :: Forgot(a, c, rs[0]) && Forgotten(c, b, rs[1..])
  }

  lemma {:induction false} ForgottenMore(a: seq<Iv>, b: seq<Iv>, b': seq<Iv>, rs: seq<(nat, nat)>, r: (nat, nat))
    requires Forgotten(a, b, rs) && Forgot(b, b', r)
    ensures Forgotten(a, b', rs + [r])
    decreases |rs|
  {
    if rs == [] {
      assert Forgotten(b', b', []) && ([] + [r])[1..] == [];
      assert Forgot(a, b', (rs + [r])[0]);
    } else {
      var c :| Forgot(a, c, rs[0]) && Forgotten(c, b, rs[1..]);
      ForgottenMore(c, b, b', rs[1..], r);
      assert (rs + [r])[1..] == rs[1..] + [r] && (rs + [r])[0] == rs[0];
    }
  }

  lemma {:induction false} ForgottenMidway(a: seq<Iv>, b: seq<Iv>, b': seq<Iv>, v: seq<Iv>, k: nat)
    requires Canonical(v) && k <= |v| && Midway(a, b, v, k) && Forgotten(b, b', Reversed(v[..k]))
    ensures Midway(a, b', v, 0)
    decreases k
  {
    if k > 0 {
      var rs := Reversed(v[..k]);
      assert v[..k][..k - 1] == v[..k - 1] && v[..k][k - 1] == v[k - 1];
      assert rs == [(v[k - 1].lo, v[k - 1].hi)] + Reversed(v[..k - 1]);
      assert rs[1..] == Reversed(v[..k - 1]);
      var c :| Forgot(b, c, rs[0]) && Forgotten(c, b', rs[1..]);
      MidwayStep(a, b, c, v, k - 1);
      ForgottenMidway(a, c, b', v, k - 1);
    }
  }

  /** Removing the intervals of `v`, highest first, removes no number outside `v`; and all
      of `v`, if all of it was there. */
  lemma ForgottenPrunes(a: seq<Iv>, b: seq<Iv>, v: seq<Iv>)
    requires Canonical(a) && Canonical(v) && Forgotten(a, b, Reversed(v))
    ensures Pruned(a, b, v) && (Subset(v, a) ==> Disjoint(v, b))
  {
    MidwayStarts(a, v);
    assert v[..|v|] == v && v[0..] == v;
    ForgottenMidway(a, a, b, v, |v|);
  }

  // ----- the loop

  ghost predicate Upright(rs: seq<(nat, nat)>)
  {
    forall i :: 0 <= i < |rs| ==> rs[i].0 <= rs[i].1
  }

  method Forget(recv: Diet, lo: nat, hi: nat)
    requires recv.Valid() && lo <= hi
    modifies recv, Elems(recv.tree)
    ensures recv.Valid() && Forgot(old(recv.ivals), recv.ivals, (lo, hi))
    ensures forall x :: x in Elems(recv.tree) ==> x in old(Elems(recv.tree)) || fresh(x)
  {
    recv.RemoveIval(lo, hi);
  }

  method ForgetNext(recv: Diet, lo: nat, hi: nat, ghost a: seq<Iv>, ghost done: seq<(nat, nat)>)
    requires recv.Valid() && lo <= hi && Forgotten(a, recv.ivals, done)
    modifies recv, Elems(recv.tree)
    ensures recv.Valid() && Forgotten(a, recv.ivals, done + [(lo, hi)])
    ensures forall x :: x in Elems(recv.tree) ==> x in old(Elems(recv.tree)) || fresh(x)
  {
    ghost var b := recv.ivals;
    Forget(recv, lo, hi);
    ForgottenMore(a, b, recv.ivals, done, (lo, hi));
  }

  /** Where the loop is: the ranges `done` have been removed, `n` are to be read. */
  ghost predicate Tracking(read: Reader, cur: nat, n: nat, lgAck: nat, all: seq<(nat, nat)>, done: seq<(nat, nat)>)
  {
    all == done + TrackRanges(read, cur, n, lgAck)
  }

  lemma TrackingStep(read: Reader, cur: nat, n: nat, lgAck: nat, all: seq<(nat, nat)>, done: seq<(nat, nat)>,
                     rng: (nat, nat), gap: (nat, nat))
    requires Tracking(read, cur, n, lgAck, all, done) && n > 0 && Upright(all)
    requires rng == ReadOrZero(read, cur) && gap == if n > 1 then ReadOrZero(read, rng.1) else (0, rng.1)
    ensures Minus(lgAck, rng.0) <= lgAck
    ensures Tracking(read, gap.1, n - 1, Minus(lgAck, rng.0 + gap.0 + 2), all, done + [(Minus(lgAck, rng.0), lgAck)])
  {
    assert all[|done|] == (Minus(lgAck, rng.0), lgAck);
  }

  /** One round: remove the range and read the gap to the next. */
  method TrackRound(recv: Diet, read: Reader, cur: nat, n: nat, lgAck: nat,
                    ghost a: seq<Iv>, ghost all: seq<(nat, nat)>, ghost done: seq<(nat, nat)>)
    returns (cur': nat, lgAck': nat, ghost done': seq<(nat, nat)>)
    requires recv.Valid() && n > 0 && Upright(all)
    requires Forgotten(a, recv.ivals, done) && Tracking(read, cur, n, lgAck, all, done)
    modifies recv, Elems(recv.tree)
    ensures recv.Valid() && Forgotten(a, recv.ivals, done') && Tracking(read, cur', n - 1, lgAck', all, done')
    ensures forall x :: x in Elems(recv.tree) ==> x in old(Elems(recv.tree)) || fresh(x)
  {
    var rng := ReadOrZero(read, cur);
    var gap := if n > 1 then ReadOrZero(read, rng.1) else (0, rng.1);
    TrackingStep(read, cur, n, lgAck, all, done, rng, gap);
    var lo := Minus(lgAck, rng.0);
    ForgetNext(recv, lo, lgAck, a, done);
    done' := done + [(lo, lgAck)];
    cur', lgAck' := gap.1, Minus(lgAck, rng.0 + gap.0 + 2);
  }

  lemma TrackingStarts(read: Reader, pos: nat)
    ensures var lg := ReadOrZero(read, pos);
            var cnt := ReadOrZero(read, ReadOrZero(read, lg.1).1);
            Tracking(read, cnt.1, cnt.0 + 1, lg.0, TrackAcked(read, pos), [])
  {
    assert [] + TrackAcked(read, pos) == TrackAcked(read, pos);
  }

  lemma TrackingEnds(read: Reader, cur: nat, lgAck: nat, all: seq<(nat, nat)>, done: seq<(nat, nat)>)
    requires Tracking(read, cur, 0, lgAck, all, done)
    ensures done == all
  {
    assert done + [] == done;
  }

  /** track_acked_pkts: the ranges it reads from the ACK frame behind `pos` are removed
      from the receive set in order.  Nothing it reads is checked. */
  method TrackAckedPkts(recv: Diet, s: seq<Byte>, pos: nat, end: nat)
    requires recv.Valid() && end <= |s| && Upright(TrackAcked(Decoder(s, end), pos + 1))
    modifies recv, Elems(recv.tree)
    ensures recv.Valid() && Forgotten(old(recv.ivals), recv.ivals, TrackAcked(Decoder(s, end), pos + 1))
  {
    var read := Decoder(s, end);
    ghost var a, all, done: seq<(nat, nat)> := recv.ivals, TrackAcked(read, pos + 1), [];
    var lg := ReadOrZero(read, pos + 1);
    var del := ReadOrZero(read, lg.1);
    var cnt := ReadOrZero(read, del.1);
    var lgAck, cur, n := lg.0, cnt.1, cnt.0 + 1;
    TrackingStarts(read, pos + 1);
    while n > 0
      invariant n >= 0 && recv.Valid() && Forgotten(a, recv.ivals, done)
      invariant forall x :: x in Elems(recv.tree) ==> x in old(Elems(recv.tree)) || fresh(x)
      invariant Tracking(read, cur, n, lgAck, all, done)
    {
      cur, lgAck, done := TrackRound(recv, read, cur, n, lgAck, a, all, done);
      n := n - 1;
    }
    TrackingEnds(read, cur, lgAck, all, done);
  }

  lemma {:induction false} ReversedUpright(v: seq<Iv>)
    requires Canonical(v)
    ensures Upright(Reversed(v))
  {
    if v != [] { ReversedUpright(v[..|v| - 1]); }
  }
}
