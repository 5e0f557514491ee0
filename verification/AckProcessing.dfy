/** What dec_ack_frame in lib/src/frame.c does with the ranges of an ACK frame. */
module AckProcessing {
  import opened Recovery
  import opened Balance
  import opened Runs
  import opened Ivals
  import opened AckCodec

  /** The books after the frame, and the error that closes the connection, if any. */
  datatype Outcome = Outcome(state: Conn, error: Option<AckError>)

  /** The numbers from `ack` down to `lo`.  `cum` is the end of the lowest interval of
      acked_or_lost when the frame came in, -1 if there is none: from there on down
      the rest of the range is skipped. */
  function AckDown(c: Conn, p: nat, cum: int, lgInFrm: nat, ack: int, lo: nat): (r: Outcome)
    requires p < |c.sp|
    decreases ack + 1
  {
    if ack < lo || ack <= cum then Outcome(c, None)
    else if ack in c.sp[p].resolved then AckDown(c, p, cum, lgInFrm, ack - 1, lo)
    else if ack !in c.sp[p].sent then Outcome(c, Some(NeverSent))
    else
      var c1 := if ack == lgInFrm then RaiseLgAcked(c, p, ack) else c;
      if !Known(c1, c.sp[p].sent[ack]) then Outcome(c, Some(NeverSent))
      else
        var d := OnPktAcked(c1, c.sp[p].sent[ack]);
        if p < |d.sp| then AckDown(d, p, cum, lgInFrm, ack - 1, lo) else Outcome(d, None)
  }

  function AckRanges(c: Conn, p: nat, cum: int, lgInFrm: nat, ranges: seq<(nat, nat)>): (r: Outcome)
    decreases |ranges|
  {
    if ranges == [] || p >= |c.sp| then Outcome(c, None)
    else
      var r := AckDown(c, p, cum, lgInFrm, ranges[0].1, ranges[0].0);
      if r.error.Some? then r else AckRanges(r.state, p, cum, lgInFrm, ranges[1..])
  }

  // ----- one acknowledged number

  /** `d` is `c` with the numbers `done` of space `p` moved to acked_or_lost. */
  ghost predicate Moved(c: Conn, d: Conn, p: nat, done: set<nat>)
  {
    && p < |c.sp| && |d.sp| == |c.sp|
    && (forall q :: 0 <= q < |c.sp| && q != p ==> d.sp[q] == c.sp[q])
    && d.sp[p].resolved == c.sp[p].resolved + done && d.sp[p].sentNrs == c.sp[p].sentNrs - done
    && d.sp[p].lgSent == c.sp[p].lgSent && d.sp[p].abandoned == c.sp[p].abandoned
  }

  lemma MovedTwice(c: Conn, d: Conn, e: Conn, p: nat, a: set<nat>, b: set<nat>)
    requires Moved(c, d, p, a) && Moved(d, e, p, b)
    ensures Moved(c, e, p, a + b)
  {
  }

  lemma SwappedMoves(c: Conn, d: Conn, e: Conn, id: Id, s: Id)
    requires Swapped(c, d, e, id, s) && c.meta[s].nr in d.sp[c.meta[id].space].sentNrs
    ensures Moved(d, e, c.meta[id].space, {})
  {
    var t, n := d.sp[c.meta[id].space], c.meta[s].nr;
    assert t.sentNrs + {n} == t.sentNrs;
  }

  lemma SuccessorSent(c: Conn, d: Conn, id: Id, s: Id)
    requires Vacated(c, d, id) && s in c.meta && s != id && Outstanding(c, s) && c.meta[s].space < SPACES
    ensures c.meta[s].nr in d.sp[c.meta[s].space].sentNrs
  {
    assert Carries(c, d, s) && SpaceOk(d, c.meta[s].space);
  }

  /** The swap of an earlier copy with its successor leaves the set of outstanding
      numbers as it is. */
  lemma SwapMoves(c: Conn, d: Conn, id: Id)
    requires Kept(c) && Vacated(c, d, id) && Known(d, id) && HasPendingSuccessor(d, id)
    ensures Moved(d, SwapWith(d, id, d.meta[id].rtx[0]), d.meta[id].space, {})
  {
    SwapFacts(c, id);
    var s := d.meta[id].rtx[0];
    SuccessorSent(c, d, id, s);
    SwapWithSwaps(c, d, id, s);
    SwappedMoves(c, d, SwapWith(d, id, s), id, s);
  }

  lemma SettleMoves(c: Conn, id: Id, counted: bool)
    requires Known(c, id)
    ensures Moved(c, Settle(c, id, counted), c.meta[id].space, {c.meta[id].nr})
  {
    SettleTakes(c, id, counted);
  }

  lemma AckMoves(c: Conn, id: Id)
    requires Inv(c) && Outstanding(c, id) && Known(c, id)
    ensures Moved(c, OnPktAcked(c, id), c.meta[id].space, {c.meta[id].nr})
  {
    var m := c.meta[id];
    SettleForgets(c, id);
    SettleMoves(c, id, m.inFlight);
    var d := Settle(c, id, m.inFlight);
    AckedFrom(c, d, id);
    if HasPendingSuccessor(d, id) {
      SwapMoves(c, d, id);
      MovedBoth(c, d, OnPktAcked(c, id), m.space, {m.nr});
    } else {
      SameMoved(c, d, OnPktAcked(c, id), m.space, {m.nr});
    }
  }

  lemma MovedBoth(c: Conn, d: Conn, e: Conn, p: nat, done: set<nat>)
    requires Moved(c, d, p, done) && Moved(d, e, p, {})
    ensures Moved(c, e, p, done)
  {
    MovedTwice(c, d, e, p, done, {});
    assert done + {} == done;
  }

  /** What on_pkt_acked does after the settlement. */
  lemma AckedFrom(c: Conn, d: Conn, id: Id)
    requires Outstanding(c, id) && Known(c, id) && d == Settle(c, id, c.meta[id].inFlight)
    ensures Known(d, id) && d.meta == c.meta
    ensures if HasPendingSuccessor(d, id) then OnPktAcked(c, id) == SwapWith(d, id, d.meta[id].rtx[0])
            else OnPktAcked(c, id).sp == d.sp
  {
    if !HasPendingSuccessor(d, id) { AckedFreed(d.(meta := d.meta[id := d.meta[id].(acked := true)]), id); }
  }

  lemma AckedFreed(e: Conn, id: Id)
    requires Known(e, id) && e.meta[id].acked
    ensures FreeIov(e, id).sp == e.sp
  {
  }

  lemma SameMoved(c: Conn, d: Conn, e: Conn, p: nat, done: set<nat>)
    requires Moved(c, d, p, done) && e.sp == d.sp
    ensures Moved(c, e, p, done)
  {
  }

  lemma AckOne(c: Conn, p: nat, ack: nat, largest: bool)
    requires Inv(c) && p < SPACES && ack in c.sp[p].sent
    ensures Known(c, c.sp[p].sent[ack])
    ensures var d := Next(c, Ack(p, ack, largest)); Inv(d) && Moved(c, d, p, {ack})
  {
    assert SpaceOk(c, p);
    StepKeeps(c, Ack(p, ack, largest));
    var b := if largest then RaiseLgAcked(c, p, ack) else c;
    if largest { RaiseKeeps(c, p, ack); }
    RaiseMoves(c, p, ack);
    AckEntry(c, b, p, ack, Next(c, Ack(p, ack, largest)));
  }

  lemma RaiseMoves(c: Conn, p: nat, nr: nat)
    requires p < |c.sp|
    ensures Moved(c, c, p, {}) && Moved(c, RaiseLgAcked(c, p, nr), p, {})
  {
  }

  lemma AckEntry(c: Conn, b: Conn, p: nat, ack: nat, d: Conn)
    requires Inv(b) && p < SPACES && Moved(c, b, p, {}) && ack in b.sp[p].sent && SpaceOk(b, p)
    requires Known(b, b.sp[p].sent[ack]) && d == OnPktAcked(b, b.sp[p].sent[ack])
    ensures Moved(c, d, p, {ack})
  {
    AckMoves(b, b.sp[p].sent[ack]);
    MovedTwice(c, b, d, p, {}, {ack});
    assert {} + {ack} == {ack};
  }

  // ----- a range

  predicate Passes(cum: int, lo: nat, n: nat)
  {
    lo <= n && cum < n
  }

  /** The numbers of a range that the skip lets through. */
  ghost function Live(cum: int, ack: int, lo: nat): (r: set<nat>)
  {
    set n: nat | n <= ack && Passes(cum, lo, n)
  }

  /** What a processed range must come to: an error if and only if it reaches beyond
      what has been sent, and otherwise exactly the numbers above `cum` are resolved. */
  ghost predicate Exact(c: Conn, p: nat, live: set<nat>, r: Outcome)
  {
    && p < |c.sp|
    && (r.error.None? <==> forall n :: n in live ==> n <= c.sp[p].lgSent)
    && (r.error.Some? ==> r.error == Some(NeverSent))
    && Inv(r.state)
    && (r.error.None? ==> Moved(c, r.state, p, live))
  }

  lemma ExactSkips(c: Conn, p: nat, live: set<nat>, ack: nat, r: Outcome)
    requires Inv(c) && p < SPACES && !c.sp[p].abandoned && ack in c.sp[p].resolved && Exact(c, p, live, r)
    ensures Exact(c, p, live + {ack}, r)
  {
    assert SpaceOk(c, p);
    assert c.sp[p].sentNrs - (live + {ack}) == c.sp[p].sentNrs - live;
    assert c.sp[p].resolved + (live + {ack}) == c.sp[p].resolved + live;
  }

  lemma ExactStep(c: Conn, d: Conn, p: nat, live: set<nat>, ack: nat, r: Outcome)
    requires p < |c.sp| && ack <= c.sp[p].lgSent && Moved(c, d, p, {ack}) && Exact(d, p, live, r)
    ensures Exact(c, p, live + {ack}, r)
  {
    if r.error.None? { MovedTwice(c, d, r.state, p, {ack}, live); }
    assert {ack} + live == live + {ack};
  }

  /** The round for an outstanding number. */
  lemma AckDownSent(c: Conn, p: nat, cum: int, lgInFrm: nat, ack: nat, lo: nat) returns (d: Conn)
    requires Inv(c) && p < SPACES && !c.sp[p].abandoned && ack in c.sp[p].sent && ack >= lo && ack > cum
    ensures Enabled(c, Ack(p, ack, ack == lgInFrm)) && d == Next(c, Ack(p, ack, ack == lgInFrm))
    ensures Inv(d) && Moved(c, d, p, {ack}) && ack <= c.sp[p].lgSent
    ensures AckDown(c, p, cum, lgInFrm, ack, lo) == AckDown(d, p, cum, lgInFrm, ack - 1, lo)
  {
    AckOne(c, p, ack, ack == lgInFrm);
    d := Next(c, Ack(p, ack, ack == lgInFrm));
    assert SpaceOk(c, p);
  }

  lemma LiveStep(cum: int, ack: nat, lo: nat)
    requires ack >= lo && ack > cum
    ensures Live(cum, ack, lo) == Live(cum, ack - 1, lo) + {ack}
  {
  }

  lemma DownEnds(c: Conn, p: nat, cum: int, lgInFrm: nat, ack: int, lo: nat)
    requires Inv(c) && p < SPACES && (ack < lo || ack <= cum)
    ensures Exact(c, p, Live(cum, ack, lo), AckDown(c, p, cum, lgInFrm, ack, lo))
  {
    assert Live(cum, ack, lo) == {};
  }

  lemma DownUnsent(c: Conn, p: nat, cum: int, lgInFrm: nat, ack: nat, lo: nat)
    requires Inv(c) && p < SPACES && !c.sp[p].abandoned && ack >= lo && ack > cum
    requires ack !in c.sp[p].resolved && ack !in c.sp[p].sent
    ensures Exact(c, p, Live(cum, ack, lo), AckDown(c, p, cum, lgInFrm, ack, lo))
  {
    assert SpaceOk(c, p);
    assert ack in Live(cum, ack, lo);
  }

  lemma {:induction false} AckDownExact(c: Conn, p: nat, cum: int, lgInFrm: nat, ack: int, lo: nat)
    requires Inv(c) && p < SPACES && !c.sp[p].abandoned
    ensures Exact(c, p, Live(cum, ack, lo), AckDown(c, p, cum, lgInFrm, ack, lo))
    decreases ack + 1
  {
    if ack < lo || ack <= cum {
      DownEnds(c, p, cum, lgInFrm, ack, lo);
    } else if ack in c.sp[p].resolved {
      LiveStep(cum, ack, lo);
      AckDownExact(c, p, cum, lgInFrm, ack - 1, lo);
      ExactSkips(c, p, Live(cum, ack - 1, lo), ack, AckDown(c, p, cum, lgInFrm, ack - 1, lo));
    } else if ack in c.sp[p].sent {
      LiveStep(cum, ack, lo);
      var d := AckDownSent(c, p, cum, lgInFrm, ack, lo);
      AckDownExact(d, p, cum, lgInFrm, ack - 1, lo);
      ExactStep(c, d, p, Live(cum, ack - 1, lo), ack, AckDown(d, p, cum, lgInFrm, ack - 1, lo));
    } else {
      DownUnsent(c, p, cum, lgInFrm, ack, lo);
    }
  }

  // ----- all ranges

  ghost function LiveIn(cum: int, ranges: seq<(nat, nat)>): (r: set<nat>)
    decreases |ranges|
  {
    if ranges == [] then {} else Live(cum, ranges[0].1, ranges[0].0) + LiveIn(cum, ranges[1..])
  }

  ghost predicate Covers(ranges: seq<(nat, nat)>, n: nat)
  {
    exists i :: 0 <= i < |ranges| && ranges[i].0 <= n <= ranges[i].1
  }

  lemma {:induction false} LiveInMembers(cum: int, ranges: seq<(nat, nat)>, n: nat)
    ensures n in LiveIn(cum, ranges) <==> Covers(ranges, n) && n > cum
    decreases |ranges|
  {
    if ranges != [] {
      LiveInMembers(cum, ranges[1..], n);
      if Covers(ranges[1..], n) {
        var i :| 0 <= i < |ranges[1..]| && ranges[1..][i].0 <= n <= ranges[1..][i].1;
        assert ranges[i + 1].0 <= n <= ranges[i + 1].1;
      }
      if Covers(ranges, n) {
        var i :| 0 <= i < |ranges| && ranges[i].0 <= n <= ranges[i].1;
        if i > 0 { assert ranges[1..][i - 1].0 <= n <= ranges[1..][i - 1].1; }
      }
      assert n in Live(cum, ranges[0].1, ranges[0].0) <==> ranges[0].0 <= n <= ranges[0].1 && n > cum;
    }
  }

  lemma ExactBoth(c: Conn, d: Conn, p: nat, a: set<nat>, b: set<nat>, r: Outcome)
    requires p < |c.sp| && Exact(c, p, a, Outcome(d, None)) && Exact(d, p, b, r)
    ensures Exact(c, p, a + b, r)
  {
    if r.error.None? { MovedTwice(c, d, r.state, p, a, b); }
    assert forall n :: n in a + b <==> n in a || n in b;
  }

  /** A whole frame: it is refused if and only if some range above `cum` reaches
      beyond what has been sent; otherwise precisely the numbers of its ranges above
      `cum` are in acked_or_lost afterwards, besides those that were. */
  lemma {:induction false} AckRangesExact(c: Conn, p: nat, cum: int, lgInFrm: nat, ranges: seq<(nat, nat)>)
    requires Inv(c) && p < SPACES && !c.sp[p].abandoned
    ensures Exact(c, p, LiveIn(cum, ranges), AckRanges(c, p, cum, lgInFrm, ranges))
    decreases |ranges|
  {
    if ranges != [] {
      var live, rest := Live(cum, ranges[0].1, ranges[0].0), LiveIn(cum, ranges[1..]);
      AckDownExact(c, p, cum, lgInFrm, ranges[0].1, ranges[0].0);
      var r := AckDown(c, p, cum, lgInFrm, ranges[0].1, ranges[0].0);
      if r.error.None? {
        AckRangesExact(r.state, p, cum, lgInFrm, ranges[1..]);
        ExactBoth(c, r.state, p, live, rest, AckRanges(r.state, p, cum, lgInFrm, ranges[1..]));
      }
    }
  }

  // ----- completeness

  /** After a frame has been accepted, all numbers it acknowledges are resolved if and
      only if those at or below `cum` were resolved before. */
  lemma AckComplete(c: Conn, p: nat, cum: int, lgInFrm: nat, ranges: seq<(nat, nat)>)
    requires Inv(c) && p < SPACES && !c.sp[p].abandoned
    requires AckRanges(c, p, cum, lgInFrm, ranges).error.None?
    ensures var d := AckRanges(c, p, cum, lgInFrm, ranges).state;
            p < |d.sp| &&
            ((forall n: nat :: Covers(ranges, n) ==> n in d.sp[p].resolved) <==>
             (forall n: nat :: Covers(ranges, n) && n <= cum ==> n in c.sp[p].resolved))
  {
    AckRangesExact(c, p, cum, lgInFrm, ranges);
    var d := AckRanges(c, p, cum, lgInFrm, ranges).state;
    forall n: nat ensures n in LiveIn(cum, ranges) <==> Covers(ranges, n) && n > cum { LiveInMembers(cum, ranges, n); }
  }

  /** The end of the lowest interval of acked_or_lost, -1 if it is empty. */
  function CumAck(v: seq<Iv>): (r: int)
  {
    if v == [] then -1 else v[0].hi
  }

  /** It is the last number of an unbroken stretch from the least one on. */
  lemma CumAckIs(v: seq<Iv>)
    requires Canonical(v)
    ensures v == [] ==> CumAck(v) == -1
    ensures v != [] ==> Has(v, CumAck(v)) && !Has(v, CumAck(v) + 1)
    ensures forall m: int, n: int :: Has(v, m) && m <= n <= CumAck(v) ==> Has(v, n)
  {
    if v != [] {
      assert Within(v[0], v[0].hi);
      forall i | 0 <= i < |v| ensures !Within(v[i], v[0].hi + 1) { assert i > 0 ==> v[0].hi + 1 < v[i].lo; }
      forall m: int, n: int | Has(v, m) && m <= n <= CumAck(v) ensures Has(v, n) {
        var i :| 0 <= i < |v| && Within(v[i], m);
        assert i > 0 ==> v[0].hi + 1 < v[i].lo;
        assert Within(v[0], n);
      }
    }
  }

  /** If acked_or_lost is empty or its lowest interval starts at the first number,
      everything that is skipped is resolved. */
  lemma LowestFromFirst(v: seq<Iv>, n: nat)
    requires Canonical(v) && (v != [] ==> v[0].lo == 0)
    ensures n <= CumAck(v) ==> Has(v, n)
  {
    if v != [] && n <= v[0].hi { assert Within(v[0], n); }
  }

  /** Hence an accepted frame then leaves every number it acknowledges resolved. */
  lemma AckCompleteFromFirst(c: Conn, p: nat, v: seq<Iv>, lgInFrm: nat, ranges: seq<(nat, nat)>)
    requires Inv(c) && p < SPACES && !c.sp[p].abandoned
    requires Canonical(v) && (v != [] ==> v[0].lo == 0) && forall n: int :: Has(v, n) <==> n in c.sp[p].resolved
    requires AckRanges(c, p, CumAck(v), lgInFrm, ranges).error.None?
    ensures var d := AckRanges(c, p, CumAck(v), lgInFrm, ranges).state;
            p < |d.sp| && forall n: nat :: Covers(ranges, n) ==> n in d.sp[p].resolved
  {
    AckComplete(c, p, CumAck(v), lgInFrm, ranges);
    forall n: nat | n <= CumAck(v) && Covers(ranges, n) ensures n in c.sp[p].resolved {
      LowestFromFirst(v, n);
      assert Has(v, n);
    }
  }

  // ----- the skip against plain enumeration

  lemma {:induction false} AllResolved(c: Conn, p: nat, lgInFrm: nat, ack: int, lo: nat)
    requires p < |c.sp| && forall n: nat :: lo <= n <= ack ==> n in c.sp[p].resolved
    ensures AckDown(c, p, -1, lgInFrm, ack, lo) == Outcome(c, None)
    decreases ack + 1
  {
    if ack >= lo { AllResolved(c, p, lgInFrm, ack - 1, lo); }
  }

  /** The round for an outstanding number, with and without the skip. */
  lemma SkipSent(c: Conn, p: nat, cum: int, lgInFrm: nat, ack: nat, lo: nat) returns (d: Conn)
    requires Inv(c) && p < SPACES && !c.sp[p].abandoned && ack in c.sp[p].sent && ack >= lo && -1 <= cum < ack
    ensures Inv(d) && Moved(c, d, p, {ack})
    ensures AckDown(c, p, cum, lgInFrm, ack, lo) == AckDown(d, p, cum, lgInFrm, ack - 1, lo)
    ensures AckDown(c, p, -1, lgInFrm, ack, lo) == AckDown(d, p, -1, lgInFrm, ack - 1, lo)
  {
    d := AckDownSent(c, p, cum, lgInFrm, ack, lo);
    var e := AckDownSent(c, p, -1, lgInFrm, ack, lo);
  }

  lemma SkipResolved(c: Conn, p: nat, cum: int, lgInFrm: nat, ack: nat, lo: nat)
    requires p < |c.sp| && ack in c.sp[p].resolved && ack >= lo && ack > cum
    ensures AckDown(c, p, cum, lgInFrm, ack, lo) == AckDown(c, p, cum, lgInFrm, ack - 1, lo)
  {
  }

  lemma SkipUnsent(c: Conn, p: nat, cum: int, lgInFrm: nat, ack: nat, lo: nat)
    requires p < |c.sp| && ack !in c.sp[p].resolved && ack !in c.sp[p].sent && ack >= lo && ack > cum
    ensures AckDown(c, p, cum, lgInFrm, ack, lo) == Outcome(c, Some(NeverSent))
  {
  }

  /** Looking up every number instead of skipping gives the same books and the same
      errors when what is skipped is resolved. */
  lemma {:induction false} SkipAgrees(c: Conn, p: nat, cum: int, lgInFrm: nat, ack: int, lo: nat)
    requires Inv(c) && p < SPACES && !c.sp[p].abandoned && -1 <= cum
    requires forall n: nat :: n <= cum ==> n in c.sp[p].resolved
    ensures AckDown(c, p, cum, lgInFrm, ack, lo) == AckDown(c, p, -1, lgInFrm, ack, lo)
    decreases ack + 1
  {
    if ack >= lo {
      if ack <= cum {
        AllResolved(c, p, lgInFrm, ack, lo);
      } else if ack in c.sp[p].resolved {
        SkipAgrees(c, p, cum, lgInFrm, ack - 1, lo);
        SkipResolved(c, p, cum, lgInFrm, ack, lo);
        SkipResolved(c, p, -1, lgInFrm, ack, lo);
      } else if ack in c.sp[p].sent {
        var d := SkipSent(c, p, cum, lgInFrm, ack, lo);
        SkipAgrees(d, p, cum, lgInFrm, ack - 1, lo);
      } else {
        SkipUnsent(c, p, cum, lgInFrm, ack, lo);
        SkipUnsent(c, p, -1, lgInFrm, ack, lo);
      }
    }
  }

  lemma {:induction false} SkipAgreesOnFrames(c: Conn, p: nat, cum: int, lgInFrm: nat, ranges: seq<(nat, nat)>)
    requires Inv(c) && p < SPACES && !c.sp[p].abandoned && -1 <= cum
    requires forall n: nat :: n <= cum ==> n in c.sp[p].resolved
    ensures AckRanges(c, p, cum, lgInFrm, ranges) == AckRanges(c, p, -1, lgInFrm, ranges)
    decreases |ranges|
  {
    if ranges != [] {
      SkipAgrees(c, p, cum, lgInFrm, ranges[0].1, ranges[0].0);
      AckDownExact(c, p, cum, lgInFrm, ranges[0].1, ranges[0].0);
      var r := AckDown(c, p, cum, lgInFrm, ranges[0].1, ranges[0].0);
      if r.error.None? { SkipAgreesOnFrames(r.state, p, cum, lgInFrm, ranges[1..]); }
    }
  }

  /** The skip can miss an acknowledgement: after packets 0 and 1 are sent and 1 is
      acknowledged, acked_or_lost is [1..1], and a frame that acknowledges 0 and 1 is
      accepted but leaves 0 outstanding. */
  lemma SkipExample() returns (run: seq<Conn>, steps: seq<Step>)
    ensures Run(run, steps)
    ensures var c := run[|steps|];
            var v := [Iv(1, 1, 0)];
            && |c.sp| == SPACES && (forall n: int :: Has(v, n) <==> n in c.sp[2].resolved)
            && var r := AckRanges(c, 2, CumAck(v), 1, [(0, 1)]);
            r.error.None? && |r.state.sp| == SPACES && 0 !in r.state.sp[2].resolved && 0 in r.state.sp[2].sent
  {
    steps := [Send(0, 2, 0, 1000, true, false, false), Send(1, 2, 0, 1000, true, false, false), Ack(2, 1, true)];
    var c0 := NEW_CONN;
    assert c0.sp[2] == NEW_SPACE;
    var c1 := Next(c0, steps[0]);
    assert c1.sp[2] == NEW_SPACE.(sent := map[0 := 0], sentNrs := {0}, lgSent := 0);
    var c2 := Next(c1, steps[1]);
    assert c2.sp[2] == NEW_SPACE.(sent := map[0 := 0, 1 := 1], sentNrs := {0, 1}, lgSent := 1);
    assert c2.meta[1] == Meta(2, 1, 0, 1000, false, true, true, false, false, false, []);
    var c3 := Next(c2, steps[2]);
    assert c3.sp[2].sent == map[0 := 0];
    assert c3.sp[2].resolved == {1};
    run := [c0, c1, c2, c3];
    SkippedAt(c3, [Iv(1, 1, 0)]);
  }

  lemma SkippedAt(c: Conn, v: seq<Iv>)
    requires |c.sp| == SPACES && c.sp[2].sent == map[0 := 0] && c.sp[2].resolved == {1} && v == [Iv(1, 1, 0)]
    ensures forall n: int :: Has(v, n) <==> n in c.sp[2].resolved
    ensures AckRanges(c, 2, CumAck(v), 1, [(0, 1)]) == Outcome(c, None)
  {
    forall n: int ensures Has(v, n) <==> n == 1 {
      assert Within(v[0], 1);
    }
    assert AckDown(c, 2, 1, 1, 1, 0) == Outcome(c, None);
    assert [(0, 1)][1..] == [];
  }
}
