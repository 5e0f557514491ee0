/** Loss detection (detect_lost_pkts in lib/src/recovery.c) on the books. */
module Losing {
  import opened Recovery
  import opened Balance

  /** The loss rule for one outstanding packet of space `p`.  With nothing acked yet
      lg_acked is UINT_T_MAX, and then every packet passes. */
  predicate IsLost(c: Conn, p: nat, n: nat, lostSendT: int)
    requires p < |c.sp| && n in c.sp[p].sent && c.sp[p].sent[n] in c.meta
  {
    var lg := c.sp[p].lgAcked;
    (lg < 0 || n < lg) &&
    (lg < 0 || c.meta[c.sp[p].sent[n]].t <= lostSendT || lg >= n + K_PACKET_THRESHOLD)
  }

  ghost function LostSet(c: Conn, p: nat, lostSendT: int): (r: set<nat>)
    requires p < |c.sp|
  {
    set n | n in c.sp[p].sent && c.sp[p].sent[n] in c.meta && IsLost(c, p, n, lostSendT)
  }

  /** What the second loop of detect_lost_pkts does for number `n`. */
  ghost function LoseOne(d: Conn, p: nat, lost: set<nat>, n: nat): (r: Conn)
  {
    if n in lost && p < |d.sp| && n in d.sp[p].sent && Known(d, d.sp[p].sent[n]) then Lose(d, d.sp[p].sent[n]) else d
  }

  /** That loop, up to but not including number `n`. */
  ghost function LoseUpTo(c: Conn, p: nat, lost: set<nat>, n: nat): (r: Conn)
  {
    if n == 0 then c else LoseOne(LoseUpTo(c, p, lost, n - 1), p, lost, n - 1)
  }

  /** One whole pass. */
  ghost function LossPass(c: Conn, p: nat, lostSendT: int): (r: Conn)
    requires p < |c.sp|
  {
    LoseUpTo(c, p, LostSet(c, p, lostSendT), if c.sp[p].lgSent >= 0 then c.sp[p].lgSent + 1 else 0)
  }

  /** `e` is `d` with `id` out of the tables; the other records keep everything but
      their links. */
  ghost predicate Gone(d: Conn, e: Conn, id: Id)
    requires Known(d, id)
  {
    var m := d.meta[id];
    && |e.sp| == SPACES
    && (forall q :: 0 <= q < SPACES && q != m.space ==> e.sp[q] == d.sp[q])
    && e.sp[m.space] == d.sp[m.space].(sent := d.sp[m.space].sent - {m.nr},
                                       sentNrs := d.sp[m.space].sentNrs - {m.nr},
                                       resolved := d.sp[m.space].resolved + {m.nr})
    && (forall x :: x in d.meta && x != id ==> SameEntry(d, e, x))
  }

  lemma LoseGoneFreed(d: Conn, e: Conn, id: Id)
    requires Known(d, id) && LinksOk(d, id)
    requires e == Settle(d, id, d.meta[id].inFlight).(meta := Unlink(d, id) - {id})
    ensures Gone(d, e, id)
  {
    TakenGone(d, Settle(d, id, d.meta[id].inFlight), e, id);
    forall x | x in d.meta && x != id ensures SameEntry(d, e, x) {
      ForgetEntry(d, d, e, id, x);
    }
  }

  lemma TakenGone(d: Conn, c: Conn, e: Conn, id: Id)
    requires Known(d, id) && c == Settle(d, id, d.meta[id].inFlight) && e.sp == c.sp
    ensures var m := d.meta[id];
            && |e.sp| == SPACES && (forall q :: 0 <= q < SPACES && q != m.space ==> e.sp[q] == d.sp[q])
            && e.sp[m.space] == d.sp[m.space].(sent := d.sp[m.space].sent - {m.nr},
                                               sentNrs := d.sp[m.space].sentNrs - {m.nr},
                                               resolved := d.sp[m.space].resolved + {m.nr})
  {
    SettleTakes(d, id, d.meta[id].inFlight);
  }

  lemma LoseGone(d: Conn, id: Id)
    requires Inv(d) && Outstanding(d, id) && Known(d, id)
    requires !d.meta[id].hasRtx ==> d.meta[id].rtx == []
    ensures Gone(d, Lose(d, id), id)
  {
    KeptNear(d, id);
    if !d.meta[id].strm || d.meta[id].hasRtx {
      LoseFrees(d, id);
      LoseGoneFreed(d, Lose(d, id), id);
    } else {
      LoseGoneMarked(d, Lose(d, id), id);
    }
  }

  lemma LoseGoneMarked(d: Conn, e: Conn, id: Id)
    requires Known(d, id) && d.meta[id].strm && !d.meta[id].hasRtx && e == Lose(d, id)
    ensures Gone(d, e, id)
  {
    TakenGone(d, Settle(d, id, d.meta[id].inFlight), e, id);
  }

  ghost predicate SameTime(c: Conn, d: Conn, x: Id)
  {
    x in c.meta && x in d.meta && c.meta[x].t == d.meta[x].t && SameWeight(c, d, x)
  }

  /** The records of the other spaces count for what they did. */
  ghost predicate OthersCount(c: Conn, d: Conn, p: nat)
    requires |c.sp| == SPACES
  {
    forall q, k :: 0 <= q < SPACES && q != p && k in c.sp[q].sent ==> SameWeight(c, d, c.sp[q].sent[k])
  }

  /** The state of the pass before number `n`: exactly the lost numbers below `n`
      are settled, the rest is as it was. */
  ghost predicate Midway(c: Conn, p: nat, lost: set<nat>, d: Conn, n: nat)
    requires p < |c.sp|
  {
    && p < SPACES && |c.sp| == |d.sp| == SPACES
    && (forall q :: 0 <= q < SPACES && q != p ==> d.sp[q] == c.sp[q])
    && d.sp[p].lgSent == c.sp[p].lgSent && d.sp[p].lgAcked == c.sp[p].lgAcked && d.sp[p].abandoned == c.sp[p].abandoned
    && (forall k :: k in d.sp[p].sent <==> k in c.sp[p].sent && !(k in lost && k < n))
    && (forall k :: k in d.sp[p].sent ==> d.sp[p].sent[k] == c.sp[p].sent[k] && SameTime(c, d, c.sp[p].sent[k]))
    && (forall k :: k in d.sp[p].resolved <==> k in c.sp[p].resolved || (k in lost && k < n))
    && OthersCount(c, d, p)
  }

  /** What the pass has kept of the numbers below a lost one was sent later. */
  lemma SurvivorsSentLater(c: Conn, p: nat, lostSendT: int, d: Conn, n: nat, k: nat)
    requires |c.sp| == SPACES && p < SPACES && Midway(c, p, LostSet(c, p, lostSendT), d, n)
    requires SpaceOk(c, p) && SpaceOk(d, p)
    requires n in LostSet(c, p, lostSendT) && n in d.sp[p].sent && k in d.sp[p].sent && k < n
    ensures d.meta[d.sp[p].sent[k]].t > d.meta[d.sp[p].sent[n]].t
  {
    assert k !in LostSet(c, p, lostSendT);
    LostLater(c, p, lostSendT, n, k);
    assert SameTime(c, d, c.sp[p].sent[k]) && SameTime(c, d, c.sp[p].sent[n]);
  }

  /** A number below a lost one that is not lost itself was sent later. */
  lemma LostLater(c: Conn, p: nat, lostSendT: int, n: nat, k: nat)
    requires p < |c.sp| && n in LostSet(c, p, lostSendT) && k !in LostSet(c, p, lostSendT) && k < n
    requires k in c.sp[p].sent && c.sp[p].sent[k] in c.meta
    ensures c.meta[c.sp[p].sent[k]].t > c.meta[c.sp[p].sent[n]].t
  {
  }

  /** So the copy that is lost has no earlier copies outstanding: those have lower
      numbers and were sent no later. */
  lemma NoEarlierCopies(d: Conn, p: nat, n: nat)
    requires Inv(d) && p < SPACES && n in d.sp[p].sent && SpaceOk(d, p)
    requires forall k :: k in d.sp[p].sent && k < n ==> d.meta[d.sp[p].sent[k]].t > d.meta[d.sp[p].sent[n]].t
    ensures var id := d.sp[p].sent[n]; !d.meta[id].hasRtx ==> d.meta[id].rtx == []
  {
    var id := d.sp[p].sent[n];
    assert MetaOk(d, id);
    if d.meta[id].rtx != [] { assert MetaOk(d, d.meta[id].rtx[0]); }
  }

  lemma GoneMidway(c: Conn, p: nat, lost: set<nat>, d: Conn, e: Conn, n: nat)
    requires p < SPACES && |c.sp| == SPACES && Midway(c, p, lost, d, n) && n in lost && n in d.sp[p].sent
    requires Known(d, d.sp[p].sent[n]) && d.meta[d.sp[p].sent[n]].space == p && d.meta[d.sp[p].sent[n]].nr == n
    requires forall k :: k in d.sp[p].sent && k != n ==> d.sp[p].sent[k] != d.sp[p].sent[n]
    requires forall q, k :: 0 <= q < SPACES && q != p && k in d.sp[q].sent ==> d.sp[q].sent[k] != d.sp[p].sent[n]
    requires Gone(d, e, d.sp[p].sent[n])
    ensures Midway(c, p, lost, e, n + 1)
  {
    forall k | k in e.sp[p].sent ensures e.sp[p].sent[k] == c.sp[p].sent[k] && SameTime(c, e, c.sp[p].sent[k]) {
      assert k in d.sp[p].sent && SameEntry(d, e, d.sp[p].sent[k]);
    }
    forall q, k | 0 <= q < SPACES && q != p && k in c.sp[q].sent ensures SameWeight(c, e, c.sp[q].sent[k]) {
      assert SameWeight(c, d, c.sp[q].sent[k]) && SameEntry(d, e, d.sp[q].sent[k]);
    }
  }

  /** A record has one entry in the tables. */
  lemma OnlyEntry(d: Conn, p: nat, n: nat)
    requires Inv(d) && p < SPACES && n in d.sp[p].sent
    ensures forall k :: k in d.sp[p].sent && k != n ==> d.sp[p].sent[k] != d.sp[p].sent[n]
    ensures forall q, k :: 0 <= q < SPACES && q != p && k in d.sp[q].sent ==> d.sp[q].sent[k] != d.sp[p].sent[n]
  {
    assert SpaceOk(d, p);
    forall q, k | 0 <= q < SPACES && q != p && k in d.sp[q].sent ensures d.sp[q].sent[k] != d.sp[p].sent[n] {
      assert SpaceOk(d, q);
    }
  }

  /** One round keeps the books and settles the next lost number. */
  lemma LoseRound(c: Conn, p: nat, lostSendT: int, d: Conn, n: nat)
    requires Inv(c) && p < SPACES && Inv(d) && Midway(c, p, LostSet(c, p, lostSendT), d, n)
    requires n in LostSet(c, p, lostSendT) && n in d.sp[p].sent
    ensures var id := d.sp[p].sent[n];
            Known(d, id) && Inv(Lose(d, id)) && Midway(c, p, LostSet(c, p, lostSendT), Lose(d, id), n + 1)
  {
    assert SpaceOk(d, p) && SpaceOk(c, p);
    var id := d.sp[p].sent[n];
    forall k | k in d.sp[p].sent && k < n ensures d.meta[d.sp[p].sent[k]].t > d.meta[id].t {
      SurvivorsSentLater(c, p, lostSendT, d, n, k);
    }
    NoEarlierCopies(d, p, n);
    LoseKeeps(d, id);
    LoseGone(d, id);
    OnlyEntry(d, p, n);
    GoneMidway(c, p, LostSet(c, p, lostSendT), d, Lose(d, id), n);
  }

  lemma MidwayStart(c: Conn, p: nat, lost: set<nat>)
    requires Inv(c) && p < SPACES
    ensures Midway(c, p, lost, c, 0)
  {
    forall q | 0 <= q < SPACES ensures EntriesIn(c, q) { assert SpaceOk(c, q); }
    MidwayHere(c, p, lost);
  }

  ghost predicate EntriesIn(c: Conn, q: nat)
    requires q < |c.sp|
  {
    forall k :: k in c.sp[q].sent ==> c.sp[q].sent[k] in c.meta
  }

  lemma MidwayHere(c: Conn, p: nat, lost: set<nat>)
    requires |c.sp| == SPACES && p < SPACES && forall q :: 0 <= q < SPACES ==> EntriesIn(c, q)
    ensures Midway(c, p, lost, c, 0)
  {
    assert EntriesIn(c, p);
    forall q, k | 0 <= q < SPACES && k in c.sp[q].sent ensures SameWeight(c, c, c.sp[q].sent[k]) { assert EntriesIn(c, q); }
  }

  lemma MidwaySkip(c: Conn, p: nat, lost: set<nat>, d: Conn, n: nat)
    requires p < |c.sp| && Midway(c, p, lost, d, n) && n !in lost
    ensures Midway(c, p, lost, d, n + 1)
  {
  }

  /** The state of the pass before number `n`, books included. */
  ghost predicate OnTrack(c: Conn, p: nat, lostSendT: int, d: Conn, n: nat)
  {
    Inv(c) && p < SPACES && Inv(d) && Midway(c, p, LostSet(c, p, lostSendT), d, n)
  }

  lemma NextRound(c: Conn, p: nat, lostSendT: int, d: Conn, n: nat) returns (e: Conn)
    requires OnTrack(c, p, lostSendT, d, n)
    ensures e == LoseOne(d, p, LostSet(c, p, lostSendT), n)
    ensures OnTrack(c, p, lostSendT, e, n + 1)
  {
    e := LoseOne(d, p, LostSet(c, p, lostSendT), n);
    if n in LostSet(c, p, lostSendT) {
      LoseRound(c, p, lostSendT, d, n);
    } else {
      MidwaySkip(c, p, LostSet(c, p, lostSendT), d, n);
    }
  }

  /** What every round keeps holds after the loop. */
  lemma {:induction false} LoseUpToInduct(c: Conn, p: nat, lost: set<nat>, n: nat, keeps: (Conn, nat) -> bool)
    requires keeps(c, 0)
    requires forall d: Conn, k: nat :: keeps(d, k) ==> keeps(LoseOne(d, p, lost, k), k + 1)
    ensures keeps(LoseUpTo(c, p, lost, n), n)
  {
    if n > 0 { LoseUpToInduct(c, p, lost, n - 1, keeps); }
  }

  lemma LoseUpToTrack(c: Conn, p: nat, lostSendT: int, n: nat)
    requires Inv(c) && p < SPACES
    ensures OnTrack(c, p, lostSendT, LoseUpTo(c, p, LostSet(c, p, lostSendT), n), n)
  {
    var lost := LostSet(c, p, lostSendT);
    MidwayStart(c, p, lost);
    var keeps := (d: Conn, k: nat) => OnTrack(c, p, lostSendT, d, k);
    forall d: Conn, k: nat | keeps(d, k) ensures keeps(LoseOne(d, p, lost, k), k + 1) {
      var e := NextRound(c, p, lostSendT, d, k);
    }
    LoseUpToInduct(c, p, lost, n, keeps);
  }

  lemma MidwayEnd(c: Conn, p: nat, lost: set<nat>, e: Conn, n: nat)
    requires p < SPACES && |c.sp| == SPACES && Midway(c, p, lost, e, n)
    requires forall k :: k in lost ==> k in c.sp[p].sent && k < n
    ensures e.sp[p].sent.Keys == c.sp[p].sent.Keys - lost && e.sp[p].resolved == c.sp[p].resolved + lost
  {
  }

  /** Loss detection is exact: one pass moves precisely the numbers that meet the
      loss rule from sent_pkts to acked_or_lost, in this space only. */
  lemma LossPassExact(c: Conn, p: nat, lostSendT: int)
    requires Inv(c) && p < SPACES
    ensures var lost := LostSet(c, p, lostSendT);
            var e := LossPass(c, p, lostSendT);
            && Inv(e)
            && e.sp[p].sent.Keys == c.sp[p].sent.Keys - lost
            && e.sp[p].resolved == c.sp[p].resolved + lost
            && (forall n :: n in e.sp[p].sent ==> e.sp[p].sent[n] == c.sp[p].sent[n])
            && (forall q :: 0 <= q < SPACES && q != p ==> e.sp[q] == c.sp[q])
            && e.sp[p] == c.sp[p].(sent := e.sp[p].sent, sentNrs := e.sp[p].sentNrs, resolved := e.sp[p].resolved)
            && OthersCount(c, e, p) && forall n :: n in e.sp[p].sent ==> SameTime(c, e, c.sp[p].sent[n])
  {
    assert SpaceOk(c, p);
    LoseUpToTrack(c, p, lostSendT, c.sp[p].lgSent + 1);
    var e := LossPass(c, p, lostSendT);
    MidwayEnd(c, p, LostSet(c, p, lostSendT), e, c.sp[p].lgSent + 1);
  }
}
