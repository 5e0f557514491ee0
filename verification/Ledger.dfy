/** The books over whole runs, told by what was sent and acknowledged: in_flight,
    ae_in_flight and lg_acked (lib/src/recovery.c) in terms of the steps alone. */
module Ledger {
  import opened Recovery
  import opened Balance
  import opened Sending
  import opened Losing
  import opened Runs
  import opened AckProcessing
  import opened Ivals

  // ----- what each number counts for does not change

  /** The numbers that `d` has outstanding in space `p` were so in `c`, and count for the
      same. */
  ghost predicate Loads(c: Conn, d: Conn, p: nat)
  {
    && |c.sp| == |d.sp| == SPACES && p < SPACES
    && forall n :: n in d.sp[p].sent ==>
         n in c.sp[p].sent && Weight(true, d, p, n) == Weight(true, c, p, n) && Weight(false, d, p, n) == Weight(false, c, p, n)
  }

  lemma LoadsBoth(c: Conn, d: Conn, e: Conn, p: nat)
    requires Loads(c, d, p) && Loads(d, e, p)
    ensures Loads(c, e, p)
  {
  }

  lemma TakenLoads(c: Conn, d: Conn, id: Id, p: nat)
    requires Known(c, id) && Taken(c, d, id) && p < SPACES
    ensures Loads(c, d, p)
  {
    forall n | n in d.sp[p].sent
      ensures n in c.sp[p].sent && Weight(true, d, p, n) == Weight(true, c, p, n) && Weight(false, d, p, n) == Weight(false, c, p, n)
    {
      TakenWeight(true, c, d, id, p, n);
      TakenWeight(false, c, d, id, p, n);
    }
  }

  lemma SameKeysLoads(d: Conn, e: Conn, p: nat)
    requires SameKeys(d, e) && p < SPACES
    ensures Loads(d, e, p)
  {
    forall n | n in d.sp[p].sent
      ensures Weight(true, d, p, n) == Weight(true, e, p, n) && Weight(false, d, p, n) == Weight(false, e, p, n)
    {
      assert SameEntry(d, e, d.sp[p].sent[n]);
    }
  }

  /** A record that the tables do not refer to is forgotten. */
  lemma ForgetLoads(c: Conn, d: Conn, e: Conn, id: Id, p: nat)
    requires Kept(c) && Vacated(c, d, id) && e == d.(meta := Unlink(c, id) - {id}) && p < SPACES
    ensures Loads(d, e, p)
  {
    KeptNear(c, id);
    ForgetEntries(c, d, e, id);
    SameKeysLoads(d, e, p);
  }

  lemma FreeLoads(c: Conn, id: Id, p: nat)
    requires Inv(c) && id in c.meta && p < SPACES
    ensures Known(c, id) && Loads(c, FreeIov(c, id), p)
  {
    KeptNear(c, id);
    if Outstanding(c, id) {
      SettleForgets(c, id);
      var d := Settle(c, id, c.meta[id].inFlight);
      TakenLoads(c, d, id, p);
      ForgetLoads(c, d, FreeIov(c, id), id, p);
      LoadsBoth(c, d, FreeIov(c, id), p);
    } else {
      SettledVacated(c, id);
      ForgetLoads(c, c, FreeIov(c, id), id, p);
    }
  }

  lemma SettledVacated(c: Conn, id: Id)
    requires Kept(c) && id in c.meta && !Outstanding(c, id)
    ensures Vacated(c, c, id)
  {
    forall x | x in c.meta && x != id ensures Carries(c, c, x) { assert MetaOk(c, x); }
    forall p, n | 0 <= p < SPACES && n in c.sp[p].sent ensures c.sp[p].sent[n] != id { assert SpaceOk(c, p); }
    assert MetaOk(c, id);
  }

  lemma {:induction false} FreeAllLoads(c: Conn, q: nat, order: seq<Id>, p: nat)
    requires Inv(c) && Lists(c, q, order) && p < SPACES
    ensures Loads(c, FreeAll(c, order), p)
    decreases |order|
  {
    if order == [] {
      SelfLoads(c, p);
    } else {
      assert order[0] in order;
      FreeKeeps(c, order[0]);
      FreeLoads(c, order[0], p);
      FreeLists(c, q, order);
      FreeAllLoads(FreeIov(c, order[0]), q, order[1..], p);
      LoadsBoth(c, FreeIov(c, order[0]), FreeAll(c, order), p);
    }
  }

  lemma SelfLoads(c: Conn, p: nat)
    requires |c.sp| == SPACES && p < SPACES
    ensures Loads(c, c, p)
  {
  }

  lemma AbandonLoads(c: Conn, q: nat, order: seq<Id>, p: nat)
    requires Inv(c) && q < SPACES && Lists(c, q, order) && p < SPACES
    ensures Loads(c, AbandonPn(c, q, order), p)
  {
    FreeAllLoads(c, q, order, p);
    ClosedLoads(FreeAll(c, order), AbandonPn(c, q, order), q, p);
    LoadsBoth(c, FreeAll(c, order), AbandonPn(c, q, order), p);
  }

  lemma ClosedLoads(d: Conn, e: Conn, q: nat, p: nat)
    requires |d.sp| == SPACES && q < SPACES && p < SPACES
    requires e == d.(sp := d.sp[q := d.sp[q].(sent := map[], sentNrs := {}, resolved := {}, abandoned := true)])
    ensures Loads(d, e, p)
  {
  }

  lemma LossLoads(c: Conn, q: nat, lostSendT: int, p: nat)
    requires Inv(c) && q < SPACES && p < SPACES
    ensures Loads(c, LossPass(c, q, lostSendT), p)
  {
    var e := LossPass(c, q, lostSendT);
    LossPassExact(c, q, lostSendT);
    WeighsSame(c, e, q, p);
  }

  lemma WeighsSame(c: Conn, e: Conn, q: nat, p: nat)
    requires |c.sp| == |e.sp| == SPACES && q < SPACES && p < SPACES && OthersCount(c, e, q) && (p != q ==> e.sp[p] == c.sp[p])
    requires forall n :: n in e.sp[q].sent ==> n in c.sp[q].sent && e.sp[q].sent[n] == c.sp[q].sent[n]
    requires forall n :: n in e.sp[q].sent ==> SameTime(c, e, c.sp[q].sent[n])
    ensures Loads(c, e, p)
  {
    forall n | n in e.sp[p].sent
      ensures n in c.sp[p].sent && Weight(true, e, p, n) == Weight(true, c, p, n) && Weight(false, e, p, n) == Weight(false, c, p, n)
    {
      assert SameWeight(c, e, c.sp[p].sent[n]);
    }
  }

  lemma SwapLoads(c: Conn, d: Conn, id: Id, p: nat)
    requires Kept(c) && Vacated(c, d, id) && Known(d, id) && HasPendingSuccessor(d, id) && p < SPACES
    ensures Loads(d, SwapWith(d, id, d.meta[id].rtx[0]), p)
  {
    SwapFacts(c, id);
    var s := d.meta[id].rtx[0];
    var e := SwapWith(d, id, s);
    SwapWithSwaps(c, d, id, s);
    SwapCoreHolds(c, d, e, id, s);
    CoreLoads(d, e, id, s, p);
  }

  lemma CoreLoads(d: Conn, e: Conn, id: Id, s: Id, p: nat)
    requires SwapCore(d, e, id, s) && p < SPACES
    ensures Loads(d, e, p)
  {
    forall n | n in e.sp[p].sent
      ensures n in d.sp[p].sent && Weight(true, e, p, n) == Weight(true, d, p, n) && Weight(false, e, p, n) == Weight(false, d, p, n)
    {
      SwapWeight(true, d, e, id, s, p, n);
      SwapWeight(false, d, e, id, s, p, n);
    }
  }

  lemma AckLoads(c: Conn, id: Id, p: nat)
    requires Inv(c) && Outstanding(c, id) && p < SPACES
    ensures Known(c, id) && Loads(c, OnPktAcked(c, id), p)
  {
    SettleForgets(c, id);
    var d, e := Settle(c, id, c.meta[id].inFlight), OnPktAcked(c, id);
    TakenLoads(c, d, id, p);
    assert Known(d, id);
    if HasPendingSuccessor(d, id) {
      SwapLoads(c, d, id, p);
    } else {
      MarkedLoads(c, d, id, p);
    }
    LoadsBoth(c, d, e, p);
  }

  lemma MarkedLoads(c: Conn, d: Conn, id: Id, p: nat)
    requires Kept(c) && Vacated(c, d, id) && Known(d, id) && p < SPACES
    ensures var c2 := d.(meta := d.meta[id := d.meta[id].(acked := true)]);
            Loads(d, c2, p) && Loads(d, FreeIov(c2, id), p)
  {
    KeptNear(c, id);
    var c2 := d.(meta := d.meta[id := d.meta[id].(acked := true)]);
    forall q, n | 0 <= q < SPACES && n in d.sp[q].sent ensures SameEntry(d, c2, d.sp[q].sent[n]) { assert SpaceOk(d, q); }
    SameKeysLoads(d, c2, p);
    UnlinkMarked(c, c2, id, c2.meta[id]);
    ForgetLoads(c, d, d.(meta := Unlink(c, id) - {id}), id, p);
    assert FreeIov(c2, id) == d.(meta := Unlink(c, id) - {id});
  }

  // ----- what a transmission adds

  /** A transmission as the step describes it: what it adds to in_flight, 1200 bytes for any
      packet of the Initial space, and to ae_in_flight. */
  datatype Tx = Tx(bytes: nat, ae: nat)

  /** What step `s` transmits in space `p`: a new packet, which counts if it elicits an ACK
      or is padded, or one sent before, which always does. */
  ghost function TxOf(c: Conn, s: Step, p: nat): (r: seq<Tx>)
  {
    match s
    case Send(_, q, _, udpLen, ackEliciting, padded, _) =>
      if q != p then []
      else [Tx(if !ackEliciting && !padded then 0 else if p == 0 then 1200 else udpLen, if ackEliciting then 1 else 0)]
    case Again(id, _, _, udpLen) =>
      if id in c.meta && c.meta[id].space == p then [Tx(if p == 0 then 1200 else udpLen, 1)] else []
    case _ => []
  }

  /** From `c` to `e`, space `p` has sent `txs`, and earlier numbers count for the same. */
  ghost predicate After(c: Conn, e: Conn, p: nat, txs: seq<Tx>)
  {
    && |c.sp| == |e.sp| == SPACES && p < SPACES && |txs| <= 1 && e.sp[p].lgSent == c.sp[p].lgSent + |txs|
    && forall n :: n in e.sp[p].sent ==>
         if n <= c.sp[p].lgSent then
           n in c.sp[p].sent && Weight(true, e, p, n) == Weight(true, c, p, n) && Weight(false, e, p, n) == Weight(false, c, p, n)
         else |txs| == 1 && Weight(true, e, p, n) == txs[0].bytes && Weight(false, e, p, n) == txs[0].ae
  }

  lemma LoadsAfter(c: Conn, d: Conn, p: nat)
    requires Loads(c, d, p) && d.sp[p].lgSent == c.sp[p].lgSent && forall n :: n in c.sp[p].sent ==> n <= c.sp[p].lgSent
    ensures After(c, d, p, [])
  {
  }

  lemma WithinSent(c: Conn, p: nat)
    requires Kept(c) && p < SPACES
    ensures c.sp[p].lgSent >= -1 && forall n :: n in c.sp[p].sent ==> n <= c.sp[p].lgSent
  {
    assert SpaceOk(c, p);
  }

  /** A packet entered under the next number. */
  lemma EnterAfter(c: Conn, d: Conn, e: Conn, id: Id, p: nat, txs: seq<Tx>)
    requires Entered(d, e, id) && Ready(d, id) && Loads(c, d, p) && d.sp[p].lgSent == c.sp[p].lgSent
    requires if p == e.meta[id].space then
               var m := e.meta[id];
               txs == [Tx(if !m.inFlight then 0 else if p == 0 then 1200 else m.udpLen, if m.inFlight && m.ackEliciting then 1 else 0)]
             else txs == []
    ensures After(c, e, p, txs)
  {
    forall n | n in e.sp[p].sent
      ensures if n <= c.sp[p].lgSent then
                && n in c.sp[p].sent && Weight(true, e, p, n) == Weight(true, c, p, n)
                && Weight(false, e, p, n) == Weight(false, c, p, n)
              else |txs| == 1 && Weight(true, e, p, n) == txs[0].bytes && Weight(false, e, p, n) == txs[0].ae
    {
      if n in d.sp[p].sent { assert d.sp[p].sent[n] != id; }
    }
  }

  lemma SpareLoads(c: Conn, d: Conn, id: Id, p: nat)
    requires Kept(c) && p < SPACES && (id !in c.meta || c.meta[id].lost || c.meta[id].acked)
    requires id in d.meta && d == c.(meta := c.meta[id := d.meta[id]])
    ensures Loads(c, d, p)
  {
    assert SpaceOk(c, p);
    SpareSpace(c, d, id, p);
  }

  lemma SendAfter(c: Conn, id: Id, q: nat, now: nat, udpLen: nat, ackEliciting: bool, padded: bool, strm: bool, p: nat)
    requires Inv(c) && id !in c.meta && q < SPACES && p < SPACES
    ensures var s := Send(id, q, now, udpLen, ackEliciting, padded, strm);
            After(c, SendNew(c, id, q, now, udpLen, ackEliciting, padded, strm), p, TxOf(c, s, p))
  {
    var m := Meta(q, 0, now, udpLen, false, ackEliciting || padded, ackEliciting, false, false, strm, []);
    var d := c.(meta := c.meta[id := m]);
    WithinSent(c, q);
    SpareRecord(c, d, id);
    SpareLoads(c, d, id, p);
    SentEnters(d, id, now, udpLen);
    EnterAfter(c, d, OnPktSent(d, id, now, udpLen), id, p, TxOf(c, Send(id, q, now, udpLen, ackEliciting, padded, strm), p));
  }

  lemma CopyLoads(c: Conn, d: Conn, id: Id, orig: Id, p: nat)
    requires Copied(c, d, id, orig) && p < SPACES && SpaceOk(c, p) && RecordOk(c, id)
    ensures Loads(c, d, p) && d.sp[p].lgSent == c.sp[p].lgSent
  {
    CopyKeys(c, d, id, orig, p);
    forall n | n in d.sp[p].sent
      ensures n in c.sp[p].sent && Weight(true, d, p, n) == Weight(true, c, p, n) && Weight(false, d, p, n) == Weight(false, c, p, n)
    {
      CopyWeight(true, c, d, id, orig, p, n);
      CopyWeight(false, c, d, id, orig, p, n);
    }
  }

  lemma AgainAfter(c: Conn, id: Id, orig: Id, now: nat, udpLen: nat, p: nat)
    requires Inv(c) && Enabled(c, Again(id, orig, now, udpLen)) && p < SPACES
    ensures After(c, Resend(c, id, orig, now, udpLen), p, TxOf(c, Again(id, orig, now, udpLen), p))
  {
    KeptNear(c, id);
    assert SpaceOk(c, p);
    var d := RtxPkt(c, id, orig);
    if c.meta[id].lost {
      assert c == c.(meta := c.meta[id := c.meta[id]]);
      SpareRecord(c, c, id);
      SelfLoads(c, p);
    } else {
      RtxCopies(c, id, orig);
      CopyReady(c, d, id, orig);
      CopyLoads(c, d, id, orig, p);
    }
    SentEnters(d, id, now, udpLen);
    EnterAfter(c, d, OnPktSent(d, id, now, udpLen), id, p, TxOf(c, Again(id, orig, now, udpLen), p));
  }

  lemma RaiseLoads(c: Conn, q: nat, nr: nat, p: nat)
    requires |c.sp| == SPACES && q < SPACES && p < SPACES
    ensures Loads(c, RaiseLgAcked(c, q, nr), p)
  {
  }

  lemma AckAfter(c: Conn, q: nat, nr: nat, largest: bool, p: nat)
    requires Inv(c) && Enabled(c, Ack(q, nr, largest)) && p < SPACES
    ensures After(c, Next(c, Ack(q, nr, largest)), p, [])
  {
    var id, b := c.sp[q].sent[nr], if largest then RaiseLgAcked(c, q, nr) else c;
    assert SpaceOk(c, q);
    RaiseLoads(c, q, nr, p);
    SelfLoads(c, p);
    if largest { RaiseKeeps(c, q, nr); }
    AckLoads(b, id, p);
    AckGrows(b, id, p);
    LoadsBoth(c, b, OnPktAcked(b, id), p);
    WithinSent(c, p);
    LoadsAfter(c, OnPktAcked(b, id), p);
  }

  lemma StepAfter(c: Conn, s: Step, p: nat)
    requires Inv(c) && Enabled(c, s) && p < SPACES
    ensures After(c, Next(c, s), p, TxOf(c, s, p))
  {
    WithinSent(c, p);
    match s
    case Send(id, q, now, udpLen, ackEliciting, padded, strm) =>
      SendAfter(c, id, q, now, udpLen, ackEliciting, padded, strm, p);
    case Again(id, orig, now, udpLen) => AgainAfter(c, id, orig, now, udpLen, p);
    case Ack(q, nr, largest) => AckAfter(c, q, nr, largest, p);
    case Detect(q, lostSendT) =>
      LossLoads(c, q, lostSendT, p);
      LossPassExact(c, q, lostSendT);
      LoadsAfter(c, LossPass(c, q, lostSendT), p);
    case Free(id) =>
      FreeLoads(c, id, p);
      FreeGrows(c, id, p);
      LoadsAfter(c, FreeIov(c, id), p);
    case Abandon(q, order) =>
      AbandonLoads(c, q, order, p);
      FreeAllGrows(c, order, p);
      LoadsAfter(c, AbandonPn(c, q, order), p);
  }

  // ----- runs

  /** The transmissions of space `p` in the first `i` steps; their numbers are their places
      in the list. */
  ghost function Log(run: seq<Conn>, steps: seq<Step>, p: nat, i: nat): (r: seq<Tx>)
    requires |run| == |steps| + 1 && i <= |steps|
  {
    if i == 0 then [] else Log(run, steps, p, i - 1) + TxOf(run[i - 1], steps[i - 1], p)
  }

  /** The outstanding numbers of space `p` count for what was sent under them. */
  ghost predicate Booked(c: Conn, p: nat, log: seq<Tx>)
  {
    && p < |c.sp| && |log| == c.sp[p].lgSent + 1
    && forall n :: n in c.sp[p].sent ==>
         n < |log| && Weight(true, c, p, n) == log[n].bytes && Weight(false, c, p, n) == log[n].ae
  }

  lemma BookedAfter(c: Conn, e: Conn, p: nat, log: seq<Tx>, txs: seq<Tx>)
    requires Booked(c, p, log) && After(c, e, p, txs) && forall n :: n in e.sp[p].sent ==> n <= e.sp[p].lgSent
    ensures Booked(e, p, log + txs)
  {
  }

  lemma {:induction false} RunBooked(run: seq<Conn>, steps: seq<Step>, i: nat, p: nat)
    requires Run(run, steps) && i < |run| && p < SPACES
    ensures Booked(run[i], p, Log(run, steps, p, i))
  {
    RunKeeps(run, steps, i);
    if i == 0 {
      assert NEW_CONN.sp[p] == NEW_SPACE;
    } else {
      RunBooked(run, steps, i - 1, p);
      RunKeeps(run, steps, i - 1);
      StepAfter(run[i - 1], steps[i - 1], p);
      WithinSent(run[i], p);
      BookedAfter(run[i - 1], run[i], p, Log(run, steps, p, i - 1), TxOf(run[i - 1], steps[i - 1], p));
    }
  }

  /** What the first `n` transmissions add up to, less the resolved ones. */
  ghost function Open(bytes: bool, log: seq<Tx>, resolved: set<nat>, n: nat): (r: nat)
    requires n <= |log|
  {
    if n == 0 then 0
    else
      Open(bytes, log, resolved, n - 1)
      + if n - 1 in resolved then 0 else if bytes then log[n - 1].bytes else log[n - 1].ae
  }

  lemma {:induction false} TotalOpen(bytes: bool, c: Conn, p: nat, log: seq<Tx>, n: nat)
    requires p < |c.sp| && Booked(c, p, log) && SpaceOk(c, p) && !c.sp[p].abandoned && n <= |log|
    ensures Total(bytes, c, p, n) == Open(bytes, log, c.sp[p].resolved, n)
  {
    if n > 0 {
      TotalOpen(bytes, c, p, log, n - 1);
      assert n - 1 in c.sp[p].sent <==> n - 1 !in c.sp[p].resolved;
    }
  }

  lemma {:induction false} TotalNone(bytes: bool, c: Conn, p: nat, n: nat)
    requires p < |c.sp| && c.sp[p].sent == map[]
    ensures Total(bytes, c, p, n) == 0
  {
    if n > 0 { TotalNone(bytes, c, p, n - 1); }
  }

  /** What space `p` has in flight: nothing once it is abandoned. */
  ghost function InSpace(bytes: bool, run: seq<Conn>, steps: seq<Step>, i: nat, p: nat): (r: nat)
    requires |run| == |steps| + 1 && i < |run| && p < |run[i].sp|
  {
    var log := Log(run, steps, p, i);
    if run[i].sp[p].abandoned then 0 else Open(bytes, log, run[i].sp[p].resolved, |log|)
  }

  lemma SpaceOpen(bytes: bool, run: seq<Conn>, steps: seq<Step>, i: nat, p: nat)
    requires Run(run, steps) && i < |run| && p < SPACES
    ensures |run[i].sp| == SPACES && SpaceTotal(bytes, run[i], p) == InSpace(bytes, run, steps, i, p)
  {
    RunKeeps(run, steps, i);
    RunBooked(run, steps, i, p);
    var c, log := run[i], Log(run, steps, p, i);
    assert SpaceOk(c, p);
    if c.sp[p].abandoned {
      if c.sp[p].lgSent >= 0 { TotalNone(bytes, c, p, c.sp[p].lgSent + 1); }
    } else {
      TotalOpen(bytes, c, p, log, |log|);
    }
  }

  /** In every state of every run, in_flight is the sum over the transmissions of the live
      spaces that are not in acked_or_lost, each at the length it was sent with, or 1200
      bytes in the Initial space; and ae_in_flight is the number of those that elicit an
      ACK. */
  lemma InFlightIs(run: seq<Conn>, steps: seq<Step>, i: nat)
    requires Run(run, steps) && i < |run|
    ensures |run[i].sp| == 3
    ensures run[i].inFlight == InSpace(true, run, steps, i, 0) + InSpace(true, run, steps, i, 1) + InSpace(true, run, steps, i, 2)
    ensures run[i].aeInFlight ==
      InSpace(false, run, steps, i, 0) + InSpace(false, run, steps, i, 1) + InSpace(false, run, steps, i, 2)
  {
    RunKeeps(run, steps, i);
    forall bytes, p | 0 <= p < SPACES ensures SpaceTotal(bytes, run[i], p) == InSpace(bytes, run, steps, i, p) {
      SpaceOpen(bytes, run, steps, i, p);
    }
  }

  /** Packet numbers are given out in order: the numbers of a space are the places of its
      transmissions. */
  lemma NumbersInOrder(run: seq<Conn>, steps: seq<Step>, i: nat, p: nat)
    requires Run(run, steps) && i < |run| && p < SPACES
    ensures p < |run[i].sp| && run[i].sp[p].lgSent + 1 == |Log(run, steps, p, i)|
    ensures !run[i].sp[p].abandoned ==>
      forall n: int :: n in run[i].sp[p].sentNrs <==> 0 <= n < |Log(run, steps, p, i)| && n !in run[i].sp[p].resolved
  {
    RunKeeps(run, steps, i);
    RunBooked(run, steps, i, p);
    assert SpaceOk(run[i], p);
  }

  // ----- the largest acknowledged number

  /** `lg` is the largest number that the first `i` steps acknowledged as the largest of a
      frame in space `p`, and -1 if there was none. */
  ghost predicate LargestAcked(steps: seq<Step>, i: nat, p: nat, lg: int)
    requires i <= |steps|
  {
    && (forall j :: 0 <= j < i && AcksLargest(steps[j], p) ==> steps[j].nr <= lg)
    && (lg == -1 || exists j :: 0 <= j < i && AcksLargest(steps[j], p) && steps[j].nr == lg)
  }

  /** The step processes the largest number of a frame for space `p`. */
  predicate AcksLargest(s: Step, p: nat)
  {
    s.Ack? && s.p == p && s.largest
  }

  /** What a step may do to lg_acked. */
  ghost predicate LgStep(lg: int, s: Step, p: nat, lg': int)
  {
    lg' == if AcksLargest(s, p) && s.nr > lg then s.nr else lg
  }

  lemma SentLg(c: Conn, s: Step, p: nat)
    requires Enabled(c, s) && p < SPACES && (s.Send? || s.Again?)
    ensures |Next(c, s).sp| == SPACES && Next(c, s).sp[p].lgAcked == c.sp[p].lgAcked
  {
    match s
    case Send(id, q, now, udpLen, ackEliciting, padded, strm) =>
      var m := Meta(q, 0, now, udpLen, false, ackEliciting || padded, ackEliciting, false, false, strm, []);
      SendForward(c.(meta := c.meta[id := m]), id, now, udpLen, p);
    case Again(id, orig, now, udpLen) =>
      RtxForward(c, id, orig, p);
      SendForward(RtxPkt(c, id, orig), id, now, udpLen, p);
  }

  lemma AckLg(c: Conn, q: nat, nr: nat, largest: bool, p: nat)
    requires Enabled(c, Ack(q, nr, largest)) && p < SPACES
    ensures var d := Next(c, Ack(q, nr, largest));
            |d.sp| == SPACES && LgStep(c.sp[p].lgAcked, Ack(q, nr, largest), p, d.sp[p].lgAcked)
  {
    var b := if largest then RaiseLgAcked(c, q, nr) else c;
    RaisedLg(c, q, nr, p);
    AckGrows(b, c.sp[q].sent[nr], p);
    AckSpaces(b, c.sp[q].sent[nr]);
  }

  lemma RaisedLg(c: Conn, q: nat, nr: nat, p: nat)
    requires |c.sp| == SPACES && q < SPACES && p < SPACES
    ensures var d := RaiseLgAcked(c, q, nr);
            |d.sp| == SPACES && d.meta == c.meta && LgStep(c.sp[p].lgAcked, Ack(q, nr, true), p, d.sp[p].lgAcked)
  {
  }

  lemma AckSpaces(b: Conn, id: Id)
    requires Known(b, id)
    ensures |OnPktAcked(b, id).sp| == SPACES
  {
    var d := Settle(b, id, b.meta[id].inFlight && !b.meta[id].lost);
    SettleTakes(b, id, b.meta[id].inFlight && !b.meta[id].lost);
  }

  lemma StepLgAcked(c: Conn, s: Step, p: nat)
    requires Inv(c) && Enabled(c, s) && p < SPACES
    ensures |Next(c, s).sp| == SPACES && LgStep(c.sp[p].lgAcked, s, p, Next(c, s).sp[p].lgAcked)
  {
    match s
    case Send(_, _, _, _, _, _, _) => SentLg(c, s, p);
    case Again(_, _, _, _) => SentLg(c, s, p);
    case Ack(q, nr, largest) => AckLg(c, q, nr, largest, p);
    case Detect(q, lostSendT) => LossPassExact(c, q, lostSendT);
    case Free(id) => FreeLg(c, id, p);
    case Abandon(q, order) => FreeAllGrows(c, order, p);
  }

  lemma FreeLg(c: Conn, id: Id, p: nat)
    requires Known(c, id) && p < SPACES
    ensures |FreeIov(c, id).sp| == SPACES && FreeIov(c, id).sp[p].lgAcked == c.sp[p].lgAcked
  {
    SettleTakes(c, id, c.meta[id].inFlight);
    FreeGrows(c, id, p);
  }

  lemma LargestNext(steps: seq<Step>, i: nat, p: nat, lg: int, lg': int)
    requires i < |steps| && LargestAcked(steps, i, p, lg) && lg >= -1 && LgStep(lg, steps[i], p, lg')
    ensures LargestAcked(steps, i + 1, p, lg') && lg' >= -1
  {
  }

  /** One step of the run. */
  lemma RunLgStep(run: seq<Conn>, steps: seq<Step>, i: nat, p: nat)
    requires Run(run, steps) && i < |steps| && p < SPACES
    ensures |run[i].sp| == |run[i + 1].sp| == SPACES && LgStep(run[i].sp[p].lgAcked, steps[i], p, run[i + 1].sp[p].lgAcked)
  {
    RunKeeps(run, steps, i);
    StepLgAcked(run[i], steps[i], p);
  }

  /** Through such steps from -1 on. */
  lemma {:induction false} LargestThrough(steps: seq<Step>, p: nat, lgs: seq<int>, i: nat)
    requires |lgs| == |steps| + 1 && lgs[0] == -1 && i < |lgs|
    requires forall j :: 0 <= j < |steps| ==> LgStep(lgs[j], steps[j], p, lgs[j + 1])
    ensures lgs[i] >= -1 && LargestAcked(steps, i, p, lgs[i])
  {
    if i > 0 {
      LargestThrough(steps, p, lgs, i - 1);
      LargestNext(steps, i - 1, p, lgs[i - 1], lgs[i]);
    }
  }

  /** The values of lg_acked along a run. */
  ghost function LgAckeds(run: seq<Conn>, p: nat): (r: seq<int>)
    requires forall j :: 0 <= j < |run| ==> p < |run[j].sp|
    ensures |r| == |run| && forall j :: 0 <= j < |run| ==> r[j] == run[j].sp[p].lgAcked
  {
    seq(|run|, j requires 0 <= j < |run| => run[j].sp[p].lgAcked)
  }

  lemma RunSpaces(run: seq<Conn>, steps: seq<Step>, j: nat)
    requires Run(run, steps) && j < |run|
    ensures |run[j].sp| == SPACES && (j == 0 ==> forall p :: 0 <= p < SPACES ==> run[j].sp[p] == NEW_SPACE)
  {
    RunKeeps(run, steps, j);
  }

  /** In every state of every run lg_acked is the largest number acknowledged as the largest
      of a frame, and unset before the first. */
  lemma LgAckedIs(run: seq<Conn>, steps: seq<Step>, i: nat, p: nat)
    requires Run(run, steps) && i < |run| && p < SPACES
    ensures p < |run[i].sp| && run[i].sp[p].lgAcked >= -1 && LargestAcked(steps, i, p, run[i].sp[p].lgAcked)
  {
    forall j | 0 <= j < |run| ensures |run[j].sp| == SPACES { RunSpaces(run, steps, j); }
    RunSpaces(run, steps, 0);
    var lgs := LgAckeds(run, p);
    forall j | 0 <= j < |steps| ensures LgStep(lgs[j], steps[j], p, lgs[j + 1]) { RunLgStep(run, steps, j, p); }
    LargestThrough(steps, p, lgs, i);
  }

  // ----- lg_acked after a frame

  /** What lg_acked of space `p` becomes when a frame with the largest number `lg` has been
      processed: that number if it was outstanding, was looked at and is larger. */
  ghost function LgAfter(c: Conn, p: nat, lg: nat, seen: bool): (r: int)
    requires p < |c.sp|
  {
    if seen && lg in c.sp[p].sentNrs && c.sp[p].lgAcked < lg then lg else c.sp[p].lgAcked
  }

  /** In `r`, lg_acked has not fallen, and without an error it is as it should be. */
  ghost predicate LgDone(c: Conn, p: nat, lg: nat, seen: bool, r: Outcome)
  {
    && p < |c.sp| && p < |r.state.sp| && c.sp[p].lgAcked <= r.state.sp[p].lgAcked
    && (r.error.None? ==> r.state.sp[p].lgAcked == LgAfter(c, p, lg, seen))
  }

  lemma SentApart(c: Conn, p: nat)
    requires Kept(c) && p < SPACES && !c.sp[p].abandoned
    ensures c.sp[p].sentNrs !! c.sp[p].resolved && c.sp[p].sent.Keys == c.sp[p].sentNrs
  {
    assert SpaceOk(c, p);
  }

  /** The walk from `ack` down to `lo` comes by number `lg`. */
  predicate Reached(cum: int, lg: nat, ack: int, lo: nat)
  {
    lo <= lg <= ack && lg > cum
  }

  /** One outstanding number on the way down. */
  lemma LgDown(c: Conn, d: Conn, p: nat, cum: int, lg: nat, ack: nat, lo: nat, r: Outcome)
    requires p < |c.sp| && Moved(c, d, p, {ack}) && ack in c.sp[p].sentNrs && ack >= lo && ack > cum
    requires LgStep(c.sp[p].lgAcked, Ack(p, ack, ack == lg), p, d.sp[p].lgAcked)
    requires LgDone(d, p, lg, Reached(cum, lg, ack - 1, lo), r)
    ensures LgDone(c, p, lg, Reached(cum, lg, ack, lo), r)
  {
  }

  lemma LgSent(c: Conn, p: nat, cum: int, lg: nat, ack: nat, lo: nat) returns (d: Conn)
    requires Inv(c) && p < SPACES && !c.sp[p].abandoned && ack in c.sp[p].sent && ack >= lo && ack > cum
    ensures Inv(d) && Moved(c, d, p, {ack}) && LgStep(c.sp[p].lgAcked, Ack(p, ack, ack == lg), p, d.sp[p].lgAcked)
    ensures AckDown(c, p, cum, lg, ack, lo) == AckDown(d, p, cum, lg, ack - 1, lo) && ack in c.sp[p].sentNrs
    ensures !d.sp[p].abandoned
  {
    d := AckDownSent(c, p, cum, lg, ack, lo);
    StepLgAcked(c, Ack(p, ack, ack == lg), p);
    SentApart(c, p);
  }

  lemma LgResolved(c: Conn, p: nat, cum: int, lg: nat, ack: nat, lo: nat, r: Outcome)
    requires p < |c.sp| && ack in c.sp[p].resolved && c.sp[p].sentNrs !! c.sp[p].resolved && ack >= lo && ack > cum
    requires LgDone(c, p, lg, Reached(cum, lg, ack - 1, lo), r)
    ensures LgDone(c, p, lg, Reached(cum, lg, ack, lo), r)
  {
  }

  lemma LgEnds(c: Conn, p: nat, cum: int, lg: nat, ack: int, lo: nat)
    requires p < |c.sp| && (ack < lo || ack <= cum)
    ensures LgDone(c, p, lg, Reached(cum, lg, ack, lo), AckDown(c, p, cum, lg, ack, lo))
  {
  }

  lemma LgUnsent(c: Conn, p: nat, cum: int, lg: nat, ack: nat, lo: nat)
    requires p < |c.sp| && ack !in c.sp[p].resolved && ack !in c.sp[p].sent && ack >= lo && ack > cum
    ensures LgDone(c, p, lg, Reached(cum, lg, ack, lo), AckDown(c, p, cum, lg, ack, lo))
  {
    SkipUnsent(c, p, cum, lg, ack, lo);
  }

  lemma {:induction false} AckDownLg(c: Conn, p: nat, cum: int, lg: nat, ack: int, lo: nat)
    requires Inv(c) && p < SPACES && !c.sp[p].abandoned
    ensures LgDone(c, p, lg, Reached(cum, lg, ack, lo), AckDown(c, p, cum, lg, ack, lo))
    decreases ack + 1
  {
    if ack < lo || ack <= cum {
      LgEnds(c, p, cum, lg, ack, lo);
    } else if ack in c.sp[p].resolved {
      AckDownLg(c, p, cum, lg, ack - 1, lo);
      SkipResolved(c, p, cum, lg, ack, lo);
      SentApart(c, p);
      LgResolved(c, p, cum, lg, ack, lo, AckDown(c, p, cum, lg, ack - 1, lo));
    } else if ack in c.sp[p].sent {
      var d := LgSent(c, p, cum, lg, ack, lo);
      AckDownLg(d, p, cum, lg, ack - 1, lo);
      LgDown(c, d, p, cum, lg, ack, lo, AckDown(d, p, cum, lg, ack - 1, lo));
    } else {
      LgUnsent(c, p, cum, lg, ack, lo);
    }
  }

  lemma LgBoth(c: Conn, d: Conn, p: nat, lg: nat, live: set<nat>, seen: bool, r: Outcome)
    requires Moved(c, d, p, live) && LgDone(c, p, lg, lg in live, Outcome(d, None)) && LgDone(d, p, lg, seen, r)
    ensures LgDone(c, p, lg, lg in live || seen, r)
  {
  }

  /** A whole frame: lg_acked never falls, and once the frame is accepted it is the larger of
      what it was and the largest number, if that was outstanding and not skipped. */
  lemma {:induction false} AckRangesLg(c: Conn, p: nat, cum: int, lg: nat, ranges: seq<(nat, nat)>)
    requires Inv(c) && p < SPACES && !c.sp[p].abandoned
    ensures LgDone(c, p, lg, Covers(ranges, lg) && lg > cum, AckRanges(c, p, cum, lg, ranges))
    decreases |ranges|
  {
    LiveInMembers(cum, ranges, lg);
    if ranges != [] {
      var live := Live(cum, ranges[0].1, ranges[0].0);
      var r := AckDown(c, p, cum, lg, ranges[0].1, ranges[0].0);
      AckDownLg(c, p, cum, lg, ranges[0].1, ranges[0].0);
      AckDownExact(c, p, cum, lg, ranges[0].1, ranges[0].0);
      if r.error.None? {
        LiveInMembers(cum, ranges[1..], lg);
        AckRangesLg(r.state, p, cum, lg, ranges[1..]);
        LgBoth(c, r.state, p, lg, live, Covers(ranges[1..], lg) && lg > cum, AckRanges(r.state, p, cum, lg, ranges[1..]));
      }
    }
  }
}
