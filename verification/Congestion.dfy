/** The congestion window of lib/src/recovery.c (section 7 of RFC 9002). */
module Congestion {
  import opened Ivals
  import opened RemoveRange

  /** cwnd, ssthresh, rec_start_t and max_ups. */
  datatype Cc = Cc(cwnd: nat, ssthresh: nat, recStart: nat, maxUps: nat)

  const MIN_UPS: nat := 1200
  const LOSS_REDUCTION_DIVISOR: nat := 2

  function InitialWindow(maxUps: nat): (r: nat)
  {
    var floor := Max(2 * maxUps, 14720);
    if 10 * maxUps <= floor then 10 * maxUps else floor
  }

  function MinimumWindow(maxUps: nat): (r: nat)
  {
    2 * maxUps
  }

  /** init_rec */
  const NEW_CC := Cc(InitialWindow(MIN_UPS), UINT_T_MAX, 0, MIN_UPS)

  predicate InRecovery(c: Cc, sentT: nat)
  {
    sentT <= c.recStart
  }

  /** congestion_event */
  function CongestionEvent(c: Cc, sentT: nat, now: nat): (r: Cc)
  {
    if InRecovery(c, sentT) then c
    else
      var w := Max(c.cwnd / LOSS_REDUCTION_DIVISOR, MinimumWindow(c.maxUps));
      c.(recStart := now, cwnd := w, ssthresh := w)
  }

  /** on_pkt_acked_cc, without the accounting of bytes in flight. */
  function OnPktAckedCc(c: Cc, sentT: nat, udpLen: nat): (r: Cc)
    requires c.cwnd > 0
  {
    if InRecovery(c, sentT) then c
    else if c.cwnd < c.ssthresh then c.(cwnd := c.cwnd + udpLen)
    else c.(cwnd := c.cwnd + c.maxUps * udpLen / c.cwnd)
  }

  // ----- runs

  datatype Event =
    | Congested(sentT: nat, now: nat)
    | Acked(sentT: nat, udpLen: nat, now: nat)
    | Resized(maxUps: nat, now: nat)

  ghost predicate Possible(e: Event)
  {
    match e
    case Congested(sentT, now) => sentT <= now
    case Acked(sentT, _, now) => sentT <= now
    case Resized(maxUps, _) => maxUps >= MIN_UPS
  }

  function Step(c: Cc, e: Event): (r: Cc)
  {
    match e
    case Congested(sentT, now) => CongestionEvent(c, sentT, now)
    case Acked(sentT, udpLen, _) => if c.cwnd > 0 then OnPktAckedCc(c, sentT, udpLen) else c
    case Resized(maxUps, _) => c.(maxUps := maxUps)
  }

  /** A run from a fresh connection, with a clock that does not go back. */
  ghost predicate Run(run: seq<Cc>, events: seq<Event>)
  {
    && |run| == |events| + 1 && run[0] == NEW_CC
    && (forall i :: 0 <= i < |events| ==> Possible(events[i]) && run[i + 1] == Step(run[i], events[i]))
    && (forall i, j :: 0 <= i < j < |events| ==> events[i].now <= events[j].now)
  }

  /** Event `i` reduces the window. */
  ghost predicate Reduces(run: seq<Cc>, events: seq<Event>, i: nat)
    requires i < |events| && |run| == |events| + 1
  {
    events[i].Congested? && !InRecovery(run[i], events[i].sentT)
  }

  /** The window never falls below two datagrams of 1200 bytes. */
  lemma {:induction false} WindowFloor(run: seq<Cc>, events: seq<Event>, i: nat)
    requires Run(run, events) && i < |run|
    ensures run[i].cwnd >= MinimumWindow(MIN_UPS) && run[i].maxUps >= MIN_UPS
  {
    if i > 0 {
      WindowFloor(run, events, i - 1);
      assert Possible(events[i - 1]) && run[i] == Step(run[i - 1], events[i - 1]);
    }
  }

  /** The start of the recovery period never moves back and is not in the future. */
  lemma {:induction false} RecStartMoves(run: seq<Cc>, events: seq<Event>, i: nat, j: nat)
    requires Run(run, events) && i < j < |run|
    ensures run[i].recStart <= run[j].recStart <= events[j - 1].now
    decreases j
  {
    assert run[j] == Step(run[j - 1], events[j - 1]) && Possible(events[j - 1]);
    if j - 1 > i {
      RecStartMoves(run, events, i, j - 1);
      assert events[j - 2].now <= events[j - 1].now;
    } else {
      RecStartPast(run, events, i);
    }
  }

  lemma {:induction false} RecStartPast(run: seq<Cc>, events: seq<Event>, i: nat)
    requires Run(run, events) && i < |events|
    ensures run[i].recStart <= events[i].now
  {
    if i > 0 {
      RecStartPast(run, events, i - 1);
      assert run[i] == Step(run[i - 1], events[i - 1]) && events[i - 1].now <= events[i].now;
    }
  }

  lemma ReductionStarts(run: seq<Cc>, events: seq<Event>, i: nat, j: nat)
    requires Run(run, events) && i < j < |events| && Reduces(run, events, i)
    ensures events[i].now <= run[j].recStart
  {
    assert run[i + 1] == Step(run[i], events[i]);
    if i + 1 < j { RecStartMoves(run, events, i + 1, j); }
  }

  /** One reduction per epoch (section 7.3.2 of RFC 9002): the packet that triggers the
      second of two reductions was sent after the first. */
  lemma ReductionsApart(run: seq<Cc>, events: seq<Event>, i: nat, j: nat)
    requires Run(run, events) && i < j < |events| && Reduces(run, events, i) && Reduces(run, events, j)
    ensures events[j].sentT > events[i].now
  {
    ReductionStarts(run, events, i, j);
  }

  /** Acknowledgements of packets sent before a reduction never grow the window. */
  lemma OldAcksDoNotGrow(run: seq<Cc>, events: seq<Event>, i: nat, j: nat)
    requires Run(run, events) && i < j < |events| && Reduces(run, events, i)
    requires events[j].Acked? && events[j].sentT <= events[i].now
    ensures run[j + 1] == run[j]
  {
    ReductionStarts(run, events, i, j);
    assert run[j + 1] == Step(run[j], events[j]);
  }

  /** Between reductions the window does not shrink, and from ssthresh on an ACK of no more
      than a window adds at most one datagram. */
  lemma GrowsBetween(run: seq<Cc>, events: seq<Event>, i: nat)
    requires Run(run, events) && i < |events| && !Reduces(run, events, i)
    ensures run[i].cwnd <= run[i + 1].cwnd
    ensures events[i].Acked? && run[i].cwnd >= run[i].ssthresh && events[i].udpLen <= run[i].cwnd ==>
      run[i + 1].cwnd <= run[i].cwnd + run[i].maxUps
  {
    WindowFloor(run, events, i);
    assert run[i + 1] == Step(run[i], events[i]);
    if events[i].Acked? && events[i].udpLen <= run[i].cwnd {
      Share(run[i].maxUps, events[i].udpLen, run[i].cwnd);
    }
  }

  /** `w` is half of `was`, rounded down, or two datagrams if that is less. */
  ghost predicate Halved(was: nat, maxUps: nat, w: nat)
  {
    w == if was / 2 >= 2 * maxUps then was / 2 else 2 * maxUps
  }

  /** A window that has grown from `was` by the acknowledgement of `udpLen` bytes: by all of
      them below ssthresh, from there on by their share of a datagram per window, rounded
      down. */
  ghost predicate Grown(was: nat, ssthresh: nat, maxUps: nat, udpLen: nat, w: nat)
  {
    if was < ssthresh then w == was + udpLen
    else w >= was && (w - was) * was <= maxUps * udpLen < (w - was + 1) * was
  }

  lemma Quotient(x: nat, c: nat, q: nat)
    requires c > 0 && q == x / c
    ensures q * c <= x < (q + 1) * c
  {
  }

  lemma GrownBy(was: nat, ssthresh: nat, maxUps: nat, udpLen: nat, w: nat)
    requires was > 0 && w == was + if was < ssthresh then udpLen else maxUps * udpLen / was
    ensures Grown(was, ssthresh, maxUps, udpLen, w)
  {
    if was >= ssthresh { Quotient(maxUps * udpLen, was, w - was); }
  }

  /** A reduction halves the window and starts an epoch; other congestion events change
      nothing. */
  lemma ReductionHalves(run: seq<Cc>, events: seq<Event>, i: nat)
    requires Run(run, events) && i < |events| && events[i].Congested?
    ensures var c, d := run[i], run[i + 1];
            if events[i].sentT > c.recStart then
              Halved(c.cwnd, c.maxUps, d.cwnd) && d.ssthresh == d.cwnd && d.recStart == events[i].now && d.maxUps == c.maxUps
            else d == c
  {
    assert run[i + 1] == Step(run[i], events[i]);
  }

  /** An acknowledgement of a packet sent after the last reduction grows the window. */
  lemma AckGrows(run: seq<Cc>, events: seq<Event>, i: nat)
    requires Run(run, events) && i < |events| && events[i].Acked?
    ensures var c, d := run[i], run[i + 1];
            if events[i].sentT > c.recStart then
              Grown(c.cwnd, c.ssthresh, c.maxUps, events[i].udpLen, d.cwnd) && d == c.(cwnd := d.cwnd)
            else d == c
  {
    WindowFloor(run, events, i);
    assert run[i + 1] == Step(run[i], events[i]);
    if events[i].sentT > run[i].recStart {
      GrownBy(run[i].cwnd, run[i].ssthresh, run[i].maxUps, events[i].udpLen, run[i + 1].cwnd);
    }
  }

  /** What the events from `i` up to `j` acknowledge. */
  function AckedBytes(events: seq<Event>, i: nat, j: nat): (r: nat)
    requires i <= j <= |events|
  {
    if i == j then 0 else AckedBytes(events, i, j - 1) + if events[j - 1].Acked? then events[j - 1].udpLen else 0
  }

  /** Slow start: through acknowledgements outside recovery below ssthresh the window grows
      by exactly what is acknowledged, so a window's worth doubles it. */
  lemma {:induction false} SlowStart(run: seq<Cc>, events: seq<Event>, i: nat, j: nat)
    requires Run(run, events) && i <= j <= |events|
    requires forall k :: i <= k < j ==>
      events[k].Acked? && events[k].sentT > run[k].recStart && run[k].cwnd < run[k].ssthresh
    ensures run[j].cwnd == run[i].cwnd + AckedBytes(events, i, j)
    ensures AckedBytes(events, i, j) >= run[i].cwnd ==> run[j].cwnd >= 2 * run[i].cwnd
    decreases j
  {
    if i < j {
      SlowStart(run, events, i, j - 1);
      AckGrows(run, events, j - 1);
    }
  }

  lemma Share(a: nat, b: nat, c: nat)
    requires c > 0 && b <= c
    ensures a * b / c <= a
  {
    var q := a * b / c;
    assert q * c <= a * b <= a * c;
    SmallerFactor(q, a, c);
  }

  lemma SmallerFactor(q: nat, a: nat, c: nat)
    requires c > 0 && q * c <= a * c
    ensures q <= a
  {
  }

  // ----- in place

  lemma RunMore(run: seq<Cc>, events: seq<Event>, e: Event)
    requires Run(run, events) && Possible(e) && forall i :: 0 <= i < |events| ==> events[i].now <= e.now
    ensures Run(run + [Step(run[|events|], e)], events + [e])
  {
    var run', events' := run + [Step(run[|events|], e)], events + [e];
    forall i | 0 <= i < |events'| ensures Possible(events'[i]) && run'[i + 1] == Step(run'[i], events'[i]) {
      if i < |events| { assert events'[i] == events[i] && run'[i] == run[i] && run'[i + 1] == run[i + 1]; }
    }
  }

  /** The window of a connection.  `run` and `events` record its history, so that what is
      proved of all runs holds of every object. */
  class Window {
    var cwnd: nat
    var ssthresh: nat
    var recStart: nat
    var maxUps: nat
    ghost var run: seq<Cc>
    ghost var events: seq<Event>

    function State(): (c: Cc)
      reads this
    {
      Cc(cwnd, ssthresh, recStart, maxUps)
    }

    /** The fields are those of the last state of a run. */
    ghost predicate Valid()
      reads this
    {
      Run(run, events) && State() == run[|events|]
    }

    /** The clock has not gone back behind an earlier event. */
    ghost predicate NotBefore(now: nat)
      reads this
    {
      forall i :: 0 <= i < |events| ==> events[i].now <= now
    }

    constructor ()
      ensures Valid() && events == [] && cwnd == 12000 && cwnd < ssthresh && recStart == 0 && maxUps == 1200
    {
      maxUps, recStart := MIN_UPS, 0;
      cwnd, ssthresh := InitialWindow(MIN_UPS), UINT_T_MAX;
      run, events := [NEW_CC], [];
    }

    /** congestion_event: at most one reduction for all packets sent before `now`, by half
        or down to two datagrams, and never below 2400. */
    method OnCongestion(sentT: nat, now: nat)
      requires Valid() && sentT <= now && NotBefore(now)
      modifies this
      ensures Valid() && events == old(events) + [Congested(sentT, now)] && run[..|old(run)|] == old(run)
      ensures cwnd >= MinimumWindow(MIN_UPS) && maxUps == old(maxUps)
      ensures old(recStart) >= sentT ==> State() == old(State())
      ensures old(recStart) < sentT ==> recStart == now && cwnd == ssthresh && Halved(old(cwnd), maxUps, cwnd)
    {
      ghost var e := Congested(sentT, now);
      RunMore(run, events, e);
      run, events := run + [Step(run[|events|], e)], events + [e];
      WindowFloor(run, events, |events|);
      if sentT <= recStart {
        return;
      }
      recStart := now;
      cwnd := cwnd / LOSS_REDUCTION_DIVISOR;
      cwnd := Max(cwnd, MinimumWindow(maxUps));
      ssthresh := cwnd;
    }

    /** on_pkt_acked_cc: grows the window, and leaves it alone for packets sent before the
        last reduction. */
    method OnAcked(sentT: nat, udpLen: nat, ghost now: nat)
      requires Valid() && sentT <= now && NotBefore(now)
      modifies this
      ensures Valid() && events == old(events) + [Acked(sentT, udpLen, now)] && run[..|old(run)|] == old(run)
      ensures cwnd >= old(cwnd) && cwnd >= MinimumWindow(MIN_UPS)
      ensures recStart == old(recStart) && ssthresh == old(ssthresh) && maxUps == old(maxUps)
      ensures if old(recStart) < sentT then Grown(old(cwnd), ssthresh, maxUps, udpLen, cwnd) else cwnd == old(cwnd)
    {
      ghost var e := Acked(sentT, udpLen, now);
      WindowFloor(run, events, |events|);
      RunMore(run, events, e);
      run, events := run + [Step(run[|events|], e)], events + [e];
      if sentT <= recStart {
        return;
      }
      if cwnd < ssthresh {
        cwnd := cwnd + udpLen;
      } else {
        cwnd := cwnd + maxUps * udpLen / cwnd;
      }
      GrownBy(old(cwnd), ssthresh, maxUps, udpLen, cwnd);
    }

    /** A new path limit. */
    method Resize(ups: nat, ghost now: nat)
      requires Valid() && ups >= MIN_UPS && NotBefore(now)
      modifies this
      ensures Valid() && events == old(events) + [Resized(ups, now)] && run[..|old(run)|] == old(run)
      ensures cwnd == old(cwnd) >= MinimumWindow(MIN_UPS) && recStart == old(recStart) && maxUps == ups
    {
      ghost var e := Resized(ups, now);
      WindowFloor(run, events, |events|);
      RunMore(run, events, e);
      run, events := run + [Step(run[|events|], e)], events + [e];
      maxUps := ups;
    }
  }
}
