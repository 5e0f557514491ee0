/** Whole runs of the packet bookkeeping: every interleaving of sends,
    retransmissions, acknowledgements, loss passes, frees and abandoned spaces. */
module Runs {
  import opened Recovery
  import opened Balance
  import opened Sending
  import opened Losing

  // ----- abandoning a space

  /** free_iov over `order`. */
  function FreeAll(c: Conn, order: seq<Id>): (r: Conn)
    decreases |order|
  {
    if order == [] then c
    else FreeAll(if Known(c, order[0]) then FreeIov(c, order[0]) else c, order[1..])
  }

  /** `order` lists the records of space `p`. */
  ghost predicate Lists(c: Conn, p: nat, order: seq<Id>)
  {
    NoDup(order) && forall id :: id in order <==> id in c.meta && c.meta[id].space == p
  }

  /** abandon_pn: free_stream and free_pn release the records of the space, in some
      order, and the tables go. */
  function AbandonPn(c: Conn, p: nat, order: seq<Id>): (r: Conn)
  {
    var d := FreeAll(c, order);
    if p < |d.sp| then
      d.(sp := d.sp[p := d.sp[p].(sent := map[], sentNrs := {}, resolved := {}, abandoned := true)])
    else d
  }

  /** Freeing a record removes it and moves nothing between spaces. */
  lemma FreeRemoves(c: Conn, id: Id)
    requires Known(c, id) && LinksOk(c, id)
    ensures FreeIov(c, id).meta.Keys == c.meta.Keys - {id}
    ensures forall x :: x in c.meta && x != id ==> FreeIov(c, id).meta[x].space == c.meta[x].space
  {
    FreeMeta(c, id);
    UnlinkRemoves(c, id, Unlink(c, id));
  }

  lemma UnlinkRemoves(c: Conn, id: Id, u: map<Id, Meta>)
    requires id in c.meta && LinksOk(c, id) && u == Unlink(c, id)
    ensures u.Keys == c.meta.Keys && (u - {id}).Keys == c.meta.Keys - {id}
    ensures forall x :: x in c.meta && x != id ==> (u - {id})[x].space == c.meta[x].space
  {
    UnlinkKeeps(c, id);
    forall x | x in c.meta && x != id ensures (u - {id})[x].space == c.meta[x].space {
      assert Relinked(c.meta[x], u[x]);
    }
  }

  /** The accounting of free_iov does not touch the records. */
  lemma FreeMeta(c: Conn, id: Id)
    requires Known(c, id)
    ensures FreeIov(c, id).meta == Unlink(c, id) - {id}
  {
    var c1 := OnPktLost(c, id, false);
    assert c1.meta == c.meta;
    SameUnlink(c, c1, id);
  }

  lemma SameUnlink(c: Conn, d: Conn, id: Id)
    requires id in c.meta && d.meta == c.meta
    ensures Unlink(d, id) == Unlink(c, id)
  {
  }

  lemma FreeLists(c: Conn, p: nat, order: seq<Id>)
    requires Kept(c) && Lists(c, p, order) && order != [] && Known(c, order[0])
    ensures Lists(FreeIov(c, order[0]), p, order[1..])
  {
    KeptNear(c, order[0]);
    FreeRemoves(c, order[0]);
    assert forall x :: x in order <==> x == order[0] || x in order[1..];
    assert order[0] !in order[1..];
  }

  lemma {:induction false} FreeAllKeeps(c: Conn, p: nat, order: seq<Id>)
    requires Inv(c) && Lists(c, p, order)
    ensures Inv(FreeAll(c, order)) && Lists(FreeAll(c, order), p, [])
    decreases |order|
  {
    if order != [] {
      assert order[0] in order;
      FreeKeeps(c, order[0]);
      FreeLists(c, p, order);
      FreeAllKeeps(FreeIov(c, order[0]), p, order[1..]);
    }
  }

  /** The tables of a space without records are empty. */
  lemma NothingSent(d: Conn, p: nat)
    requires Kept(d) && p < SPACES && Lists(d, p, [])
    ensures d.sp[p].sent == map[]
  {
    assert SpaceOk(d, p);
  }

  lemma ClosedBalanced(d: Conn, e: Conn, p: nat)
    requires Inv(d) && p < SPACES && Lists(d, p, []) && d.sp[p].sent == map[]
    requires e == d.(sp := d.sp[p := d.sp[p].(sent := map[], sentNrs := {}, resolved := {}, abandoned := true)])
    ensures Balanced(e)
  {
    forall q, n | 0 <= q < SPACES && n in d.sp[q].sent ensures SameWeight(d, e, d.sp[q].sent[n]) {
      assert SpaceOk(d, q);
    }
    SameLoadBalanced(d, e);
  }

  lemma ClosedKeeps(d: Conn, e: Conn, p: nat)
    requires Inv(d) && p < SPACES && Lists(d, p, [])
    requires e == d.(sp := d.sp[p := d.sp[p].(sent := map[], sentNrs := {}, resolved := {}, abandoned := true)])
    ensures Inv(e)
  {
    NothingSent(d, p);
    ClosedBalanced(d, e, p);
    forall q | 0 <= q < SPACES ensures SpaceOk(e, q) { assert SpaceOk(d, q); }
    forall x | x in e.meta ensures MetaOk(e, x) { ClosedMeta(d, e, p, x); }
  }

  lemma ClosedMeta(d: Conn, e: Conn, p: nat, x: Id)
    requires Kept(d) && p < SPACES && Lists(d, p, []) && x in d.meta && e.meta == d.meta && e.clock == d.clock
    requires |e.sp| == SPACES && forall q :: 0 <= q < SPACES && q != p ==> e.sp[q] == d.sp[q]
    ensures MetaOk(e, x)
  {
    assert MetaOk(d, x);
    assert d.meta[x].space != p;
  }

  lemma AbandonKeeps(c: Conn, p: nat, order: seq<Id>)
    requires Inv(c) && p < SPACES && Lists(c, p, order)
    ensures Inv(AbandonPn(c, p, order)) && AbandonPn(c, p, order).sp[p].abandoned
  {
    FreeAllKeeps(c, p, order);
    ClosedKeeps(FreeAll(c, order), AbandonPn(c, p, order), p);
  }

  // ----- steps

  datatype Step =
    | Send(id: Id, p: nat, now: nat, udpLen: nat, ackEliciting: bool, padded: bool, strm: bool)
    | Again(id: Id, orig: Id, now: nat, udpLen: nat)
    | Ack(p: nat, nr: nat, largest: bool)
    | Detect(p: nat, lostSendT: int)
    | Free(id: Id)
    | Abandon(p: nat, order: seq<Id>)

  /** What the code checks, or its callers guarantee, before each step. */
  ghost predicate Enabled(c: Conn, s: Step)
  {
    && |c.sp| == SPACES
    && match s
       case Send(id, p, now, _, ackEliciting, _, strm) =>
         id !in c.meta && p < SPACES && !c.sp[p].abandoned && now >= c.clock && (strm ==> ackEliciting)
       case Again(id, orig, now, _) =>
         Known(c, id) && !c.meta[id].acked && !c.meta[id].hasRtx && c.meta[id].strm && orig !in c.meta && now >= c.clock
       case Ack(p, nr, _) => p < SPACES && nr in c.sp[p].sent && Known(c, c.sp[p].sent[nr])
       case Detect(p, _) => p < SPACES && !c.sp[p].abandoned
       case Free(id) => Known(c, id)
       case Abandon(p, order) => p < PN_DATA && Lists(c, p, order)
  }

  /** on_ack_received_1 */
  function RaiseLgAcked(c: Conn, p: nat, nr: nat): (r: Conn)
    requires p < |c.sp|
  {
    c.(sp := c.sp[p := c.sp[p].(lgAcked := if c.sp[p].lgAcked < nr then nr else c.sp[p].lgAcked)])
  }

  ghost function Next(c: Conn, s: Step): (r: Conn)
    requires Enabled(c, s)
  {
    match s
    case Send(id, p, now, udpLen, ackEliciting, padded, strm) => SendNew(c, id, p, now, udpLen, ackEliciting, padded, strm)
    case Again(id, orig, now, udpLen) => Resend(c, id, orig, now, udpLen)
    case Ack(p, nr, largest) => OnPktAcked(if largest then RaiseLgAcked(c, p, nr) else c, c.sp[p].sent[nr])
    case Detect(p, lostSendT) => LossPass(c, p, lostSendT)
    case Free(id) => FreeIov(c, id)
    case Abandon(p, order) => AbandonPn(c, p, order)
  }

  /** `run[0]` is a fresh connection and each state follows from the one before. */
  ghost predicate Run(run: seq<Conn>, steps: seq<Step>)
  {
    && |run| == |steps| + 1 && run[0] == NEW_CONN
    && forall i :: 0 <= i < |steps| ==> Enabled(run[i], steps[i]) && run[i + 1] == Next(run[i], steps[i])
  }

  // ----- what a step does to the resolved numbers

  /** Space `p` keeps what it has resolved. */
  ghost predicate Grown(c: Conn, d: Conn, p: nat)
  {
    && p < |c.sp| && p < |d.sp| && d.sp[p].lgAcked == c.sp[p].lgAcked && d.sp[p].lgSent == c.sp[p].lgSent
    && d.sp[p].abandoned == c.sp[p].abandoned && c.sp[p].resolved <= d.sp[p].resolved
  }

  lemma SettleGrows(c: Conn, id: Id, counted: bool, p: nat)
    requires Known(c, id) && p < SPACES
    ensures Grown(c, Settle(c, id, counted), p)
    ensures p == c.meta[id].space ==> c.meta[id].nr in Settle(c, id, counted).sp[p].resolved
  {
    SettleTakes(c, id, counted);
  }

  lemma FreeGrows(c: Conn, id: Id, p: nat)
    requires Known(c, id) && p < SPACES
    ensures Grown(c, FreeIov(c, id), p)
  {
    SettleGrows(c, id, c.meta[id].inFlight, p);
  }

  /** An acknowledged number ends up in acked_or_lost. */
  lemma AckGrows(c: Conn, id: Id, p: nat)
    requires Known(c, id) && p < SPACES
    ensures Grown(c, OnPktAcked(c, id), p)
    ensures p == c.meta[id].space ==> c.meta[id].nr in OnPktAcked(c, id).sp[p].resolved
  {
    var counted := c.meta[id].inFlight && !c.meta[id].lost;
    SettleGrows(c, id, counted, p);
    var d := Settle(c, id, counted);
    assert Known(d, id);
    if HasPendingSuccessor(d, id) {
      SwapGrows(d, id, d.meta[id].rtx[0], p);
    } else {
      FreeGrows(d.(meta := d.meta[id := d.meta[id].(acked := true)]), id, p);
    }
  }

  lemma SwapGrows(d: Conn, id: Id, s: Id, p: nat)
    requires Known(d, id) && Known(d, s) && p < SPACES
    ensures Grown(d, SwapWith(d, id, s), p)
  {
  }

  lemma {:induction false} FreeAllGrows(c: Conn, order: seq<Id>, p: nat)
    requires |c.sp| == SPACES && p < SPACES
    ensures Grown(c, FreeAll(c, order), p) && |FreeAll(c, order).sp| == SPACES
    decreases |order|
  {
    if order != [] {
      if Known(c, order[0]) {
        FreeGrows(c, order[0], p);
        FreeAllGrows(FreeIov(c, order[0]), order[1..], p);
      } else {
        FreeAllGrows(c, order[1..], p);
      }
    }
  }

  // ----- every step keeps the books

  lemma RaiseKeeps(c: Conn, p: nat, nr: nat)
    requires Inv(c) && p < SPACES
    ensures Inv(RaiseLgAcked(c, p, nr))
  {
    var d := RaiseLgAcked(c, p, nr);
    RaiseLoad(c, d, p);
    SameLoadBalanced(c, d);
    forall q | 0 <= q < SPACES ensures SpaceOk(d, q) {
      assert SpaceOk(c, q);
      RaisedSpace(c, d, p, q);
    }
    forall x | x in d.meta ensures MetaOk(d, x) {
      assert MetaOk(c, x);
      RaisedMeta(c, d, p, x);
    }
  }

  /** `d` is `c` but for lg_acked of space `p`. */
  ghost predicate Raised(c: Conn, d: Conn, p: nat)
  {
    && |c.sp| == |d.sp| == SPACES && p < SPACES && d == c.(sp := d.sp)
    && (forall q :: 0 <= q < SPACES && q != p ==> d.sp[q] == c.sp[q])
    && d.sp[p] == c.sp[p].(lgAcked := d.sp[p].lgAcked)
  }

  lemma RaiseLoad(c: Conn, d: Conn, p: nat)
    requires Kept(c) && Raised(c, d, p)
    ensures SameLoad(c, d)
  {
    forall q, n | 0 <= q < SPACES && n in c.sp[q].sent ensures SameWeight(c, d, c.sp[q].sent[n]) {
      assert SpaceOk(c, q);
    }
  }

  lemma RaisedSpace(c: Conn, d: Conn, p: nat, q: nat)
    requires Raised(c, d, p) && q < SPACES && SpaceOk(c, q)
    ensures SpaceOk(d, q)
  {
  }

  lemma RaisedMeta(c: Conn, d: Conn, p: nat, x: Id)
    requires Raised(c, d, p) && x in c.meta && MetaOk(c, x)
    ensures MetaOk(d, x)
  {
  }

  lemma StepKeeps(c: Conn, s: Step)
    requires Inv(c) && Enabled(c, s)
    ensures Inv(Next(c, s))
  {
    match s
    case Send(id, p, now, udpLen, ackEliciting, padded, strm) =>
      SendNewKeeps(c, id, p, now, udpLen, ackEliciting, padded, strm);
    case Again(id, orig, now, udpLen) =>
      if c.meta[id].lost {
        ResendLostKeeps(c, id, orig, now, udpLen);
      } else {
        ResendKeeps(c, id, orig, now, udpLen);
      }
    case Ack(p, nr, largest) =>
      assert SpaceOk(c, p);
      if largest { RaiseKeeps(c, p, nr); }
      AckKeeps(if largest then RaiseLgAcked(c, p, nr) else c, c.sp[p].sent[nr]);
    case Detect(p, lostSendT) => LossPassExact(c, p, lostSendT);
    case Free(id) => FreeKeeps(c, id);
    case Abandon(p, order) => AbandonKeeps(c, p, order);
  }

  // ----- numbers are resolved once

  /** The largest acked number of a live space is among its resolved ones. */
  ghost predicate AckedOk(c: Conn, p: nat)
  {
    p < |c.sp| && (c.sp[p].abandoned || c.sp[p].lgAcked == -1 || c.sp[p].lgAcked in c.sp[p].resolved)
  }

  /** Space `p` has not been abandoned, keeps what it has resolved, and what it
      newly resolves was outstanding. */
  ghost predicate Forward(c: Conn, d: Conn, p: nat)
  {
    && p < |c.sp| && p < |d.sp|
    && (!d.sp[p].abandoned ==>
          && !c.sp[p].abandoned && c.sp[p].resolved <= d.sp[p].resolved
          && d.sp[p].resolved - c.sp[p].resolved <= c.sp[p].sentNrs
          && c.sp[p].lgSent <= d.sp[p].lgSent)
  }

  lemma GrownForward(c: Conn, d: Conn, p: nat)
    requires Kept(c) && Kept(d) && Grown(c, d, p) && p < SPACES
    ensures Forward(c, d, p) && (AckedOk(c, p) ==> AckedOk(d, p))
  {
    assert SpaceOk(c, p) && SpaceOk(d, p);
  }

  lemma SendForward(c: Conn, id: Id, now: nat, udpLen: nat, p: nat)
    requires Known(c, id) && p < SPACES
    ensures var d := OnPktSent(c, id, now, udpLen);
            && d.sp[p].resolved == c.sp[p].resolved && d.sp[p].lgAcked == c.sp[p].lgAcked
            && d.sp[p].abandoned == c.sp[p].abandoned && c.sp[p].lgSent <= d.sp[p].lgSent
  {
  }

  lemma RtxForward(c: Conn, id: Id, orig: Id, p: nat)
    requires Known(c, id) && p < SPACES
    ensures var d := RtxPkt(c, id, orig);
            && Known(d, id) && d.sp[p].resolved == c.sp[p].resolved && d.sp[p].lgAcked == c.sp[p].lgAcked
            && d.sp[p].abandoned == c.sp[p].abandoned && c.sp[p].lgSent == d.sp[p].lgSent
  {
  }

  lemma AckForward(c: Conn, p: nat, nr: nat, largest: bool, q: nat)
    requires Inv(c) && Enabled(c, Ack(p, nr, largest)) && q < SPACES
    ensures var d := Next(c, Ack(p, nr, largest));
            Forward(c, d, q) && (AckedOk(c, q) ==> AckedOk(d, q))
  {
    assert SpaceOk(c, p) && SpaceOk(c, q);
    StepKeeps(c, Ack(p, nr, largest));
    var b := if largest then RaiseLgAcked(c, p, nr) else c;
    var d := OnPktAcked(b, c.sp[p].sent[nr]);
    AckGrows(b, c.sp[p].sent[nr], q);
    assert SpaceOk(d, q);
  }

  /** Every step only moves numbers from sent_pkt_nrs to acked_or_lost. */
  lemma StepForward(c: Conn, s: Step, p: nat)
    requires Inv(c) && Enabled(c, s) && p < SPACES
    ensures Forward(c, Next(c, s), p) && (AckedOk(c, p) ==> AckedOk(Next(c, s), p))
  {
    var d := Next(c, s);
    match s
    case Send(id, q, now, udpLen, ackEliciting, padded, strm) =>
      var m := Meta(q, 0, now, udpLen, false, ackEliciting || padded, ackEliciting, false, false, strm, []);
      SendForward(c.(meta := c.meta[id := m]), id, now, udpLen, p);
    case Again(id, orig, now, udpLen) => AgainForward(c, id, orig, now, udpLen, p);
    case Ack(q, nr, largest) => AckForward(c, q, nr, largest, p);
    case Detect(q, lostSendT) =>
      LossPassExact(c, q, lostSendT);
      GrownForward(c, d, p);
    case Free(id) => FreeForward(c, id, p);
    case Abandon(q, order) =>
      AbandonForward(c, q, order, p);
  }

  lemma AgainForward(c: Conn, id: Id, orig: Id, now: nat, udpLen: nat, p: nat)
    requires Known(c, id) && p < SPACES
    ensures var d := Resend(c, id, orig, now, udpLen); Forward(c, d, p) && (AckedOk(c, p) ==> AckedOk(d, p))
  {
    RtxForward(c, id, orig, p);
    SendForward(RtxPkt(c, id, orig), id, now, udpLen, p);
  }

  lemma FreeForward(c: Conn, id: Id, p: nat)
    requires Inv(c) && Known(c, id) && p < SPACES
    ensures Forward(c, FreeIov(c, id), p) && (AckedOk(c, p) ==> AckedOk(FreeIov(c, id), p))
  {
    FreeGrows(c, id, p);
    FreeKeeps(c, id);
    GrownForward(c, FreeIov(c, id), p);
  }

  lemma AbandonForward(c: Conn, q: nat, order: seq<Id>, p: nat)
    requires Inv(c) && q < SPACES && Lists(c, q, order) && p < SPACES
    ensures var d := AbandonPn(c, q, order); Forward(c, d, p) && (AckedOk(c, p) ==> AckedOk(d, p))
  {
    FreeAllGrows(c, order, p);
    FreeAllKeeps(c, q, order);
    GrownForward(c, FreeAll(c, order), p);
  }

  // ----- the theorems

  lemma NewConnKept()
    ensures Inv(NEW_CONN) && forall p :: 0 <= p < SPACES ==> AckedOk(NEW_CONN, p)
  {
    assert forall p :: 0 <= p < SPACES ==> NEW_CONN.sp[p] == NEW_SPACE;
    assert NEW_SPACE.sent.Keys == {};
    forall p | 0 <= p < SPACES ensures SpaceOk(NEW_CONN, p) {}
  }

  /** Over every run, in_flight and ae_in_flight balance and the number tables
      partition what has been sent. */
  lemma {:induction false} RunKeeps(run: seq<Conn>, steps: seq<Step>, i: nat)
    requires Run(run, steps) && i < |run|
    ensures Inv(run[i]) && forall p :: 0 <= p < SPACES ==> AckedOk(run[i], p)
  {
    if i == 0 {
      NewConnKept();
    } else {
      RunKeeps(run, steps, i - 1);
      StepKeeps(run[i - 1], steps[i - 1]);
      forall p | 0 <= p < SPACES ensures AckedOk(run[i], p) { StepForward(run[i - 1], steps[i - 1], p); }
    }
  }

  lemma RunForward(run: seq<Conn>, steps: seq<Step>, i: nat, p: nat)
    requires Run(run, steps) && i < |steps| && p < SPACES
    ensures Forward(run[i], run[i + 1], p)
  {
    RunKeeps(run, steps, i);
    StepForward(run[i], steps[i], p);
  }

  lemma RunApart(run: seq<Conn>, steps: seq<Step>, i: nat, p: nat, n: nat)
    requires Run(run, steps) && i < |run| && p < SPACES && p < |run[i].sp|
    requires n in run[i].sp[p].resolved && !run[i].sp[p].abandoned
    ensures n !in run[i].sp[p].sentNrs && n !in run[i].sp[p].sent
  {
    RunKeeps(run, steps, i);
    assert SpaceOk(run[i], p);
  }

  /** A number that has been resolved stays resolved and is never outstanding again,
      as long as its space lives. */
  lemma {:induction false} ResolvedOnce(run: seq<Conn>, steps: seq<Step>, i: nat, j: nat, p: nat, n: nat)
    requires Run(run, steps) && i <= j < |run| && p < SPACES && p < |run[i].sp| && p < |run[j].sp|
    requires n in run[i].sp[p].resolved && !run[j].sp[p].abandoned
    ensures n in run[j].sp[p].resolved && n !in run[j].sp[p].sentNrs && n !in run[j].sp[p].sent
    decreases j
  {
    if i < j {
      RunForward(run, steps, j - 1, p);
      ResolvedOnce(run, steps, i, j - 1, p, n);
    }
    RunApart(run, steps, j, p, n);
  }
}
