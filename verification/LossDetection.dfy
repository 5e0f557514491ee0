/** The first loop nest of detect_lost_pkts in lib/src/recovery.c: which packets
    are lost, and when the next one will be. */
module LossDetection {
  import opened Recovery
  import opened Balance
  import opened Losing
  import opened Runs
  import opened Ivals
  import opened RemoveRange

  const K_GRANULARITY: nat := 1000
  const NS_PER_US: nat := 1000
  const PKT_NR_LIMIT: nat := 0x4000_0000_0000_0000

  function LossDelay(latestRtt: nat, srtt: nat): (r: nat)
    ensures r >= K_GRANULARITY && 8 * r + 8 > NS_PER_US * 9 * Max(latestRtt, srtt)
    ensures r > K_GRANULARITY ==> 8 * r <= NS_PER_US * 9 * Max(latestRtt, srtt)
  {
    Max(K_GRANULARITY, NS_PER_US * 9 * Max(latestRtt, srtt) / 8)
  }

  /** lost_send_t is an unsigned difference: it wraps when the clock shows less than
      the delay. */
  function LostSendT(now: nat, lossDel: nat): (r: int)
  {
    if now >= lossDel then now - lossDel else now - lossDel + UINT_T_MAX + 1
  }

  /** The unsigned test selects the packets sent at least the delay ago exactly when
      the clock shows at least the delay; before that it selects every packet. */
  lemma TimeTestExact(t: nat, now: nat, lossDel: nat)
    requires t <= now && now <= UINT_T_MAX / 2 && lossDel <= UINT_T_MAX / 2
    ensures (t <= LostSendT(now, lossDel) <==> t + lossDel <= now) <==> lossDel <= now
    ensures now < lossDel ==> t <= LostSendT(now, lossDel)
  {
  }

  /** An age of `x` ns is at least a microsecond and at least 9/8 of both RTTs, given in us. */
  ghost predicate Overdue(x: int, latestRtt: nat, srtt: nat)
  {
    x >= 1000 && 8 * x + 8 > 9000 * latestRtt && 8 * x + 8 > 9000 * srtt
  }

  /** Which unresolved packets a pass at time `now` declares lost: all if nothing was acked;
      else those below lg_acked that are three behind it or overdue, where all count as
      overdue while the clock itself shows less than the delay. */
  lemma LossRule(c: Conn, p: nat, n: nat, now: nat, latestRtt: nat, srtt: nat)
    requires Inv(c) && p < SPACES && n in c.sp[p].sent && c.sp[p].lgAcked >= -1
    requires c.clock <= now <= UINT_T_MAX / 2 && LossDelay(latestRtt, srtt) <= UINT_T_MAX / 2
    ensures c.sp[p].sent[n] in c.meta
    ensures var t, lg := c.meta[c.sp[p].sent[n]].t, c.sp[p].lgAcked;
            n in LostSet(c, p, LostSendT(now, LossDelay(latestRtt, srtt))) <==>
            || lg == -1
            || (n < lg && (n + 3 <= lg || (Overdue(now, latestRtt, srtt) ==> Overdue(now - t, latestRtt, srtt))))
  {
    assert SpaceOk(c, p);
    assert MetaOk(c, c.sp[p].sent[n]);
    var t := c.meta[c.sp[p].sent[n]].t;
    DelayIs(now, latestRtt, srtt);
    DelayIs(now - t, latestRtt, srtt);
    TimeTestExact(t, now, LossDelay(latestRtt, srtt));
  }

  lemma DelayIs(x: int, latestRtt: nat, srtt: nat)
    ensures LossDelay(latestRtt, srtt) <= x <==> Overdue(x, latestRtt, srtt)
  {
  }

  /** lg_acked and lg_acked - 1 as unsigned values. */
  function Unsigned(lg: int): (r: nat)
    requires lg >= -1
  {
    if lg == -1 then UINT_T_MAX else lg
  }

  function Below(lg: nat): (r: nat)
  {
    if lg == 0 then UINT_T_MAX else lg - 1
  }

  /** What the loops rely on: sent_pkt_nrs and sent_pkts agree, and lg_acked is not
      outstanding. */
  ghost predicate Readable(c: Conn, p: nat)
  {
    && p < |c.sp| && -1 <= c.sp[p].lgAcked && c.sp[p].lgAcked !in c.sp[p].sentNrs
    && c.sp[p].sent.Keys == c.sp[p].sentNrs
    && forall n :: n in c.sp[p].sent ==> c.sp[p].sent[n] in c.meta && n < PKT_NR_LIMIT
  }

  /** Every state of a run can be scanned. */
  lemma InvReadable(c: Conn, p: nat)
    requires Inv(c) && p < SPACES && AckedOk(c, p) && -1 <= c.sp[p].lgAcked && c.sp[p].lgSent < PKT_NR_LIMIT
    ensures Readable(c, p)
  {
    assert SpaceOk(c, p);
  }

  ghost predicate Seen(c: Conn, p: nat, n: nat)
    requires p < |c.sp|
  {
    n in c.sp[p].sent && c.sp[p].sent[n] in c.meta && (c.sp[p].lgAcked < 0 || n < c.sp[p].lgAcked)
  }

  /** A packet below lg_acked that is not lost yet. */
  ghost predicate Survivor(c: Conn, p: nat, n: nat, lostSendT: int)
    requires p < |c.sp|
  {
    Seen(c, p, n) && !IsLost(c, p, n, lostSendT)
  }

  function SentAt(c: Conn, p: nat, n: nat): (r: nat)
  {
    if p < |c.sp| && n in c.sp[p].sent && c.sp[p].sent[n] in c.meta then c.meta[c.sp[p].sent[n]].t else 0
  }

  /** `lossT` is the least send time plus delay over the survivors below `bound`, or
      0 if there are none. */
  ghost predicate Earliest(c: Conn, p: nat, lostSendT: int, lossDel: nat, bound: int, lossT: nat)
    requires p < |c.sp|
  {
    && (lossT == 0 ==> forall n: nat :: n < bound ==> !Survivor(c, p, n, lostSendT))
    && (lossT != 0 ==>
          && (forall n: nat :: n < bound && Survivor(c, p, n, lostSendT) ==> lossT <= SentAt(c, p, n) + lossDel)
          && exists n: nat :: n < bound && Survivor(c, p, n, lostSendT) && lossT == SentAt(c, p, n) + lossDel)
  }

  ghost predicate Ascending(s: seq<nat>)
  {
    forall i, j :: 0 <= i < j < |s| ==> s[i] < s[j]
  }

  /** `lost` lists the lost numbers below `bound` in order. */
  ghost predicate ListsLost(c: Conn, p: nat, lostSendT: int, bound: int, lost: seq<nat>)
    requires p < |c.sp|
  {
    && Ascending(lost)
    && forall n :: n in lost <==> n < bound && n in LostSet(c, p, lostSendT)
  }

  ghost predicate InFlight(c: Conn, p: nat, n: nat)
  {
    p < |c.sp| && n in c.sp[p].sent && c.sp[p].sent[n] in c.meta && c.meta[c.sp[p].sent[n]].inFlight
  }

  /** `t` is the send time of the last number listed. */
  ghost predicate LastSent(c: Conn, p: nat, lost: seq<nat>, t: nat)
  {
    lost != [] ==> t == SentAt(c, p, lost[|lost| - 1])
  }

  ghost predicate AnyInFlight(c: Conn, p: nat, lost: seq<nat>)
  {
    exists n :: n in lost && InFlight(c, p, n)
  }

  /** What the loops keep, up to but not including number `bound`. */
  ghost predicate Scanned(c: Conn, p: nat, lostSendT: int, lossDel: nat, bound: int,
                          lost: seq<nat>, lossT: nat, inFlightLost: bool)
    requires p < |c.sp|
  {
    && ListsLost(c, p, lostSendT, bound, lost)
    && Earliest(c, p, lostSendT, lossDel, bound, lossT)
    && (inFlightLost <==> AnyInFlight(c, p, lost))
  }

  /** Nothing to see between `a` and `b`. */
  lemma SkipScanned(c: Conn, p: nat, lostSendT: int, lossDel: nat, a: int, b: int,
                    lost: seq<nat>, lossT: nat, inFlightLost: bool)
    requires p < |c.sp| && Scanned(c, p, lostSendT, lossDel, a, lost, lossT, inFlightLost) && a <= b
    requires forall n: nat :: a <= n < b ==> !Seen(c, p, n)
    ensures Scanned(c, p, lostSendT, lossDel, b, lost, lossT, inFlightLost)
  {
    forall n: nat ensures n in lost <==> n < b && n in LostSet(c, p, lostSendT) {
      assert n in LostSet(c, p, lostSendT) ==> Seen(c, p, n);
    }
  }

  lemma AscendingMore(s: seq<nat>, n: nat)
    requires Ascending(s) && forall k :: k in s ==> k < n
    ensures Ascending(s + [n])
  {
    forall i, j | 0 <= i < j < |s| + 1 ensures (s + [n])[i] < (s + [n])[j] {
      assert s[i] in s;
    }
  }

  lemma LostScanned(c: Conn, p: nat, lostSendT: int, lossDel: nat, n: nat,
                    lost: seq<nat>, lossT: nat, inFlightLost: bool)
    requires p < |c.sp| && Scanned(c, p, lostSendT, lossDel, n, lost, lossT, inFlightLost)
    requires n in LostSet(c, p, lostSendT)
    ensures Scanned(c, p, lostSendT, lossDel, n + 1, lost + [n], lossT, inFlightLost || InFlight(c, p, n))
  {
    forall k: nat ensures k in lost + [n] <==> k < n + 1 && k in LostSet(c, p, lostSendT) {}
    assert n in lost + [n];
    AscendingMore(lost, n);
    if exists k :: k in lost && InFlight(c, p, k) {
      var k :| k in lost && InFlight(c, p, k);
      assert k in lost + [n];
    }
  }

  lemma SurvivorScanned(c: Conn, p: nat, lostSendT: int, lossDel: nat, n: nat,
                        lost: seq<nat>, lossT: nat, inFlightLost: bool)
    requires p < |c.sp| && Scanned(c, p, lostSendT, lossDel, n, lost, lossT, inFlightLost)
    requires Survivor(c, p, n, lostSendT) && lossDel > 0
    ensures var at := SentAt(c, p, n) + lossDel;
            Scanned(c, p, lostSendT, lossDel, n + 1, lost,
                    if lossT == 0 then at else if lossT <= at then lossT else at, inFlightLost)
  {
    forall k: nat ensures k in lost <==> k < n + 1 && k in LostSet(c, p, lostSendT) {}
    if lossT != 0 {
      var k: nat :| k < n && Survivor(c, p, k, lostSendT) && lossT == SentAt(c, p, k) + lossDel;
    }
  }

  /** Numbers between intervals have not been sent or are resolved. */
  lemma GapUnseen(c: Conn, p: nat, ivals: seq<Iv>, k: nat, a: int, n: nat)
    requires p < |c.sp| && Canonical(ivals) && k <= |ivals|
    requires c.sp[p].sent.Keys == c.sp[p].sentNrs && forall m: int :: Has(ivals, m) <==> m in c.sp[p].sentNrs
    requires k > 0 ==> a > ivals[k - 1].hi
    requires a <= n && (k < |ivals| ==> n < ivals[k].lo)
    ensures !Seen(c, p, n)
  {
    forall i | 0 <= i < |ivals| ensures !Within(ivals[i], n) {
      if i < k { assert ivals[i].hi <= ivals[k - 1].hi; } else { assert ivals[k].lo <= ivals[i].lo; }
    }
  }

  lemma GapScanned(c: Conn, p: nat, ivals: seq<Iv>, k: nat, a: int, b: int, lostSendT: int, lossDel: nat,
                   lost: seq<nat>, lossT: nat, inFlightLost: bool)
    requires p < |c.sp| && Canonical(ivals) && k < |ivals|
    requires c.sp[p].sent.Keys == c.sp[p].sentNrs && forall m: int :: Has(ivals, m) <==> m in c.sp[p].sentNrs
    requires k > 0 ==> a == ivals[k - 1].hi + 1
    requires k == 0 ==> a == 0
    requires b == ivals[k].lo && Scanned(c, p, lostSendT, lossDel, a, lost, lossT, inFlightLost)
    ensures a <= b && Scanned(c, p, lostSendT, lossDel, b, lost, lossT, inFlightLost)
  {
    forall n: nat | a <= n < b ensures !Seen(c, p, n) { GapUnseen(c, p, ivals, k, a, n); }
    SkipScanned(c, p, lostSendT, lossDel, a, b, lost, lossT, inFlightLost);
  }

  /** After the last interval, or beyond lg_acked, there is nothing left to see. */
  lemma RestScanned(c: Conn, p: nat, ivals: seq<Iv>, k: nat, a: int, lgAcked: nat, lostSendT: int, lossDel: nat,
                    lost: seq<nat>, lossT: nat, inFlightLost: bool)
    requires p < |c.sp| && Canonical(ivals) && k <= |ivals| && -1 <= c.sp[p].lgAcked && lgAcked == Unsigned(c.sp[p].lgAcked)
    requires c.sp[p].sent.Keys == c.sp[p].sentNrs && forall m: int :: Has(ivals, m) <==> m in c.sp[p].sentNrs
    requires forall n :: n in c.sp[p].sentNrs ==> n < PKT_NR_LIMIT
    requires k == |ivals| ==> (if k > 0 then a == ivals[k - 1].hi + 1 else a == 0)
    requires k < |ivals| ==> a == ivals[k].lo && a > lgAcked
    requires Scanned(c, p, lostSendT, lossDel, a, lost, lossT, inFlightLost)
    ensures Scanned(c, p, lostSendT, lossDel, UINT_T_MAX, lost, lossT, inFlightLost)
    ensures forall n :: n in lost <==> n in LostSet(c, p, lostSendT)
  {
    if k < |ivals| {
      assert Within(ivals[k], ivals[k].lo) && Has(ivals, ivals[k].lo);
    } else if k > 0 {
      assert Within(ivals[k - 1], ivals[k - 1].hi) && Has(ivals, ivals[k - 1].hi);
    }
    forall n: nat | a <= n < UINT_T_MAX ensures !Seen(c, p, n) {
      if k == |ivals| { GapUnseen(c, p, ivals, k, a, n); }
    }
    SkipScanned(c, p, lostSendT, lossDel, a, UINT_T_MAX, lost, lossT, inFlightLost);
    forall n: nat | n in LostSet(c, p, lostSendT) ensures n in lost { assert n in c.sp[p].sentNrs; }
  }

  /** The test in the inner loop is the loss rule, for every number it reaches. */
  lemma NumberSeen(c: Conn, p: nat, i: Iv, lgAcked: nat, lostSendT: int, ua: nat)
    requires Readable(c, p) && lgAcked == Unsigned(c.sp[p].lgAcked) && i.lo <= lgAcked
    requires i.lo in c.sp[p].sentNrs && ua in c.sp[p].sent && i.lo <= ua <= Below(lgAcked)
    ensures c.sp[p].sent[ua] in c.meta
    ensures if c.meta[c.sp[p].sent[ua]].t <= lostSendT || lgAcked >= ua + K_PACKET_THRESHOLD
            then ua in LostSet(c, p, lostSendT) else Survivor(c, p, ua, lostSendT)
  {
  }

  lemma AboveUnseen(c: Conn, p: nat, i: Iv, lgAcked: nat, ua: nat)
    requires Readable(c, p) && lgAcked == Unsigned(c.sp[p].lgAcked)
    requires ua > i.hi || ua > Below(lgAcked)
    ensures forall n: nat :: ua <= n < i.hi + 1 ==> !Seen(c, p, n)
  {
  }

  /** One round of the inner loop. */
  method ScanNumber(c: Conn, p: nat, lgAcked: nat, lostSendT: int, lossDel: nat, ua: nat,
                    lost0: seq<nat>, lossT0: nat, lgLostTxT0: nat, inFlightLost0: bool)
    returns (lost: seq<nat>, lossT: nat, lgLostTxT: nat, inFlightLost: bool)
    requires p < |c.sp| && lossDel > 0 && ua in c.sp[p].sent && c.sp[p].sent[ua] in c.meta
    requires if c.meta[c.sp[p].sent[ua]].t <= lostSendT || lgAcked >= ua + K_PACKET_THRESHOLD
             then ua in LostSet(c, p, lostSendT) else Survivor(c, p, ua, lostSendT)
    requires Scanned(c, p, lostSendT, lossDel, ua, lost0, lossT0, inFlightLost0)
    requires LastSent(c, p, lost0, lgLostTxT0)
    ensures Scanned(c, p, lostSendT, lossDel, ua + 1, lost, lossT, inFlightLost)
    ensures LastSent(c, p, lost, lgLostTxT)
  {
    lost, lossT, lgLostTxT, inFlightLost := lost0, lossT0, lgLostTxT0, inFlightLost0;
    var m := c.meta[c.sp[p].sent[ua]];
    if m.t <= lostSendT || lgAcked >= ua + K_PACKET_THRESHOLD {
      LostScanned(c, p, lostSendT, lossDel, ua, lost, lossT, inFlightLost);
      inFlightLost := inFlightLost || m.inFlight;
      lgLostTxT := m.t;
      lost := lost + [ua];
    } else {
      SurvivorScanned(c, p, lostSendT, lossDel, ua, lost, lossT, inFlightLost);
      if lossT == 0 || lossT > m.t + lossDel {
        lossT := m.t + lossDel;
      }
    }
  }

  /** The inner loop, over the numbers of one interval. */
  method ScanInterval(c: Conn, p: nat, i: Iv, lgAcked: nat, lostSendT: int, lossDel: nat,
                      lost0: seq<nat>, lossT0: nat, lgLostTxT0: nat, inFlightLost0: bool)
    returns (lost: seq<nat>, lossT: nat, lgLostTxT: nat, inFlightLost: bool)
    requires Readable(c, p) && lossDel > 0 && i.lo <= i.hi && lgAcked == Unsigned(c.sp[p].lgAcked) && i.lo <= lgAcked
    requires forall n :: Within(i, n) ==> n in c.sp[p].sentNrs
    requires Scanned(c, p, lostSendT, lossDel, i.lo, lost0, lossT0, inFlightLost0)
    requires LastSent(c, p, lost0, lgLostTxT0)
    ensures Scanned(c, p, lostSendT, lossDel, i.hi + 1, lost, lossT, inFlightLost)
    ensures LastSent(c, p, lost, lgLostTxT)
  {
    lost, lossT, lgLostTxT, inFlightLost := lost0, lossT0, lgLostTxT0, inFlightLost0;
    assert Within(i, i.lo);
    var ua := i.lo;
    while ua <= i.hi && ua <= Below(lgAcked)
      invariant i.lo <= ua <= i.hi + 1
      invariant Scanned(c, p, lostSendT, lossDel, ua, lost, lossT, inFlightLost)
      invariant LastSent(c, p, lost, lgLostTxT)
    {
      assert Within(i, ua);
      NumberSeen(c, p, i, lgAcked, lostSendT, ua);
      lost, lossT, lgLostTxT, inFlightLost :=
        ScanNumber(c, p, lgAcked, lostSendT, lossDel, ua, lost, lossT, lgLostTxT, inFlightLost);
      ua := ua + 1;
    }
    AboveUnseen(c, p, i, lgAcked, ua);
    SkipScanned(c, p, lostSendT, lossDel, ua, i.hi + 1, lost, lossT, inFlightLost);
  }

  lemma IntervalSent(c: Conn, p: nat, ivals: seq<Iv>, k: nat)
    requires p < |c.sp| && k < |ivals| && forall n: int :: Has(ivals, n) <==> n in c.sp[p].sentNrs
    ensures forall n :: Within(ivals[k], n) ==> n in c.sp[p].sentNrs
  {
    forall n | Within(ivals[k], n) ensures n in c.sp[p].sentNrs { assert Has(ivals, n); }
  }

  /** The loops of detect_lost_pkts over the intervals of sent_pkt_nrs: `lost` are
      exactly the numbers that meet the loss rule, in order, and `lossT` is the
      earliest time at which a survivor below lg_acked will. */
  method FindLost(c: Conn, p: nat, ivals: seq<Iv>, now: nat, lossDel: nat)
    returns (lost: seq<nat>, lossT: nat, lgLostTxT: nat, inFlightLost: bool)
    requires Readable(c, p) && lossDel > 0
    requires Canonical(ivals) && forall n: int :: Has(ivals, n) <==> n in c.sp[p].sentNrs
    ensures Ascending(lost)
    ensures forall n :: n in lost <==> n in LostSet(c, p, LostSendT(now, lossDel))
    ensures Earliest(c, p, LostSendT(now, lossDel), lossDel, UINT_T_MAX, lossT)
    ensures inFlightLost <==> AnyInFlight(c, p, lost)
    ensures LastSent(c, p, lost, lgLostTxT)
  {
    var lostSendT := LostSendT(now, lossDel);
    var lgAcked := Unsigned(c.sp[p].lgAcked);
    ghost var k, bound;
    lost, lossT, lgLostTxT, inFlightLost, k, bound := ScanAll(c, p, ivals, lgAcked, lostSendT, lossDel);
    RestScanned(c, p, ivals, k, bound, lgAcked, lostSendT, lossDel, lost, lossT, inFlightLost);
  }

  /** `ivals` are the intervals of sent_pkt_nrs. */
  ghost predicate ListsSent(c: Conn, p: nat, ivals: seq<Iv>)
    requires p < |c.sp|
  {
    Canonical(ivals) && forall n: int :: Has(ivals, n) <==> n in c.sp[p].sentNrs
  }

  /** One round of the outer loop. */
  method ScanNext(c: Conn, p: nat, ivals: seq<Iv>, j: nat, lgAcked: nat, lostSendT: int, lossDel: nat,
                  lost0: seq<nat>, lossT0: nat, lgLostTxT0: nat, inFlightLost0: bool)
    returns (lost: seq<nat>, lossT: nat, lgLostTxT: nat, inFlightLost: bool)
    requires Readable(c, p) && lossDel > 0 && lgAcked == Unsigned(c.sp[p].lgAcked) && ListsSent(c, p, ivals)
    requires j < |ivals| && ivals[j].lo <= lgAcked
    requires Scanned(c, p, lostSendT, lossDel, EndOf(ivals, j), lost0, lossT0, inFlightLost0)
    requires LastSent(c, p, lost0, lgLostTxT0)
    ensures Scanned(c, p, lostSendT, lossDel, EndOf(ivals, j + 1), lost, lossT, inFlightLost)
    ensures LastSent(c, p, lost, lgLostTxT)
  {
    GapScanned(c, p, ivals, j, EndOf(ivals, j), ivals[j].lo, lostSendT, lossDel, lost0, lossT0, inFlightLost0);
    IntervalSent(c, p, ivals, j);
    lost, lossT, lgLostTxT, inFlightLost :=
      ScanInterval(c, p, ivals[j], lgAcked, lostSendT, lossDel, lost0, lossT0, lgLostTxT0, inFlightLost0);
  }

  /** The outer loop, up to an interval `k` that starts beyond lg_acked, or to the end. */
  method ScanAll(c: Conn, p: nat, ivals: seq<Iv>, lgAcked: nat, lostSendT: int, lossDel: nat)
    returns (lost: seq<nat>, lossT: nat, lgLostTxT: nat, inFlightLost: bool, ghost k: nat, ghost bound: int)
    requires Readable(c, p) && lossDel > 0 && lgAcked == Unsigned(c.sp[p].lgAcked) && ListsSent(c, p, ivals)
    ensures k <= |ivals| && (k == |ivals| ==> bound == EndOf(ivals, k))
    ensures k < |ivals| ==> bound == ivals[k].lo && bound > lgAcked
    ensures Scanned(c, p, lostSendT, lossDel, bound, lost, lossT, inFlightLost)
    ensures LastSent(c, p, lost, lgLostTxT)
  {
    lost, lossT, lgLostTxT, inFlightLost := [], 0, 0, false;
    var j := 0;
    while j < |ivals|
      invariant 0 <= j <= |ivals| && Scanned(c, p, lostSendT, lossDel, EndOf(ivals, j), lost, lossT, inFlightLost)
      invariant LastSent(c, p, lost, lgLostTxT)
    {
      if ivals[j].lo > lgAcked {
        GapScanned(c, p, ivals, j, EndOf(ivals, j), ivals[j].lo, lostSendT, lossDel, lost, lossT, inFlightLost);
        k, bound := j, ivals[j].lo;
        return;
      }
      lost, lossT, lgLostTxT, inFlightLost :=
        ScanNext(c, p, ivals, j, lgAcked, lostSendT, lossDel, lost, lossT, lgLostTxT, inFlightLost);
      j := j + 1;
    }
    k, bound := j, EndOf(ivals, j);
  }

  /** The number behind the first `k` intervals. */
  function EndOf(ivals: seq<Iv>, k: nat): (r: nat)
    requires k <= |ivals|
  {
    if k > 0 then ivals[k - 1].hi + 1 else 0
  }
}
