/** Sending and resending packets keeps the books. */
module Sending {
  import opened Recovery
  import opened Balance

  /** First transmission of a packet, under the unused index `id`. */
  function SendNew(c: Conn, id: Id, p: nat, now: nat, udpLen: nat, ackEliciting: bool, padded: bool, strm: bool): (r: Conn)
    requires |c.sp| == SPACES && p < SPACES
  {
    var m := Meta(p, 0, now, udpLen, false, ackEliciting || padded, ackEliciting, false, false, strm, []);
    OnPktSent(c.(meta := c.meta[id := m]), id, now, udpLen)
  }

  /** tx_stream for a packet sent before: rtx_pkt, then enc_pkt and on_pkt_sent. */
  function Resend(c: Conn, id: Id, orig: Id, now: nat, udpLen: nat): (r: Conn)
    requires Known(c, id)
  {
    OnPktSent(RtxPkt(c, id, orig), id, now, udpLen)
  }

  /** `e` is `d` with packet `id` entered under the next number of its space. */
  ghost predicate Entered(d: Conn, e: Conn, id: Id)
  {
    && |d.sp| == |e.sp| == SPACES && id in e.meta
    && var m := e.meta[id];
    && m.space < SPACES && d.sp[m.space].lgSent >= -1 && m.nr == d.sp[m.space].lgSent + 1
    && (forall p :: 0 <= p < SPACES && p != m.space ==> e.sp[p] == d.sp[p])
    && e.sp[m.space] == d.sp[m.space].(lgSent := m.nr, sent := d.sp[m.space].sent[m.nr := id],
                                       sentNrs := d.sp[m.space].sentNrs + {m.nr})
    && (forall x :: x != id ==> (x in d.meta <==> x in e.meta) && (x in d.meta ==> e.meta[x] == d.meta[x]))
    && e.inFlight == d.inFlight + (if m.inFlight then PaddedLen(m) else 0)
    && e.aeInFlight == d.aeInFlight + (if m.inFlight && m.ackEliciting then 1 else 0)
  }

  lemma SentEnters(c: Conn, id: Id, now: nat, udpLen: nat)
    requires Known(c, id) && c.sp[c.meta[id].space].lgSent >= -1
    requires c.meta[id].ackEliciting ==> c.meta[id].inFlight
    ensures Entered(c, OnPktSent(c, id, now, udpLen), id)
    ensures var e := OnPktSent(c, id, now, udpLen);
            e.meta[id] == c.meta[id].(nr := c.sp[c.meta[id].space].lgSent + 1, t := now, udpLen := udpLen, lost := false) &&
            e.clock == now
  {
  }

  /** In `d`, the tables do not refer to `id` and hold no number beyond lg_sent. */
  ghost predicate Ready(d: Conn, id: Id)
  {
    && |d.sp| == SPACES
    && (forall p, n :: 0 <= p < SPACES && n in d.sp[p].sent ==> d.sp[p].sent[n] != id && n <= d.sp[p].lgSent)
  }

  lemma EnterTotal(bytes: bool, d: Conn, e: Conn, id: Id, p: nat)
    requires Entered(d, e, id) && Ready(d, id) && p < SPACES && d.sp[p].lgSent >= -1
    ensures SpaceTotal(bytes, e, p) ==
            SpaceTotal(bytes, d, p) + if p == e.meta[id].space then Weight(bytes, e, p, e.meta[id].nr) else 0
  {
    forall j | 0 <= j < d.sp[p].lgSent + 1 ensures Weight(bytes, d, p, j) == Weight(bytes, e, p, j) {
      if j in d.sp[p].sent { assert d.sp[p].sent[j] != id; }
    }
    TotalSame(bytes, d, e, p, d.sp[p].lgSent + 1);
  }

  /** The sums of `e` are those of `d` and what one entry of space `p` counts for. */
  lemma OneMore(d: Conn, e: Conn, p: nat, x: nat, y: nat)
    requires |d.sp| == |e.sp| == SPACES && p < SPACES && Balanced(d)
    requires forall q :: 0 <= q < SPACES ==> SpaceTotal(true, e, q) == SpaceTotal(true, d, q) + if q == p then x else 0
    requires forall q :: 0 <= q < SPACES ==> SpaceTotal(false, e, q) == SpaceTotal(false, d, q) + if q == p then y else 0
    requires e.inFlight == d.inFlight + x && e.aeInFlight == d.aeInFlight + y
    ensures Balanced(e)
  {
  }

  lemma EnterBalanced(d: Conn, e: Conn, id: Id)
    requires Entered(d, e, id) && Ready(d, id) && Balanced(d)
    requires forall p :: 0 <= p < SPACES ==> d.sp[p].lgSent >= -1
    ensures Balanced(e)
  {
    var m := e.meta[id];
    forall p | 0 <= p < SPACES
      ensures SpaceTotal(true, e, p) == SpaceTotal(true, d, p) + (if p == m.space then Weight(true, e, p, m.nr) else 0)
      ensures SpaceTotal(false, e, p) == SpaceTotal(false, d, p) + if p == m.space then Weight(false, e, p, m.nr) else 0
    {
      EnterTotal(true, d, e, id, p);
      EnterTotal(false, d, e, id, p);
    }
    OneMore(d, e, m.space, Weight(true, e, m.space, m.nr), Weight(false, e, m.space, m.nr));
  }

  lemma EnterSpaceOk(d: Conn, e: Conn, id: Id, p: nat)
    requires Entered(d, e, id) && Ready(d, id) && p < SPACES && SpaceOk(d, p) && Outstanding(e, id)
    requires p == e.meta[id].space ==> !d.sp[p].abandoned
    ensures SpaceOk(e, p)
  {
    forall n | n in e.sp[p].sent
      ensures Outstanding(e, e.sp[p].sent[n]) && e.meta[e.sp[p].sent[n]].space == p && e.meta[e.sp[p].sent[n]].nr == n
    {
      if n in d.sp[p].sent { assert d.sp[p].sent[n] != id; }
    }
  }

  lemma SpareSpace(c: Conn, d: Conn, id: Id, q: nat)
    requires |c.sp| == SPACES && q < SPACES && SpaceOk(c, q) && (id !in c.meta || c.meta[id].lost || c.meta[id].acked)
    requires id in d.meta && d == c.(meta := c.meta[id := d.meta[id]])
    ensures SpaceOk(d, q) && forall n :: n in d.sp[q].sent ==> d.sp[q].sent[n] != id && n <= d.sp[q].lgSent
    ensures forall n :: n in d.sp[q].sent ==> SameWeight(c, d, d.sp[q].sent[n])
  {
  }

  /** A record the tables do not refer to. */
  lemma SpareRecord(c: Conn, d: Conn, id: Id)
    requires Inv(c) && (id !in c.meta || c.meta[id].lost || c.meta[id].acked)
    requires id in d.meta && d == c.(meta := c.meta[id := d.meta[id]])
    ensures Ready(d, id) && Balanced(d)
    ensures forall q :: 0 <= q < SPACES ==> SpaceOk(d, q)
  {
    forall q | 0 <= q < SPACES
      ensures SpaceOk(d, q) && forall n :: n in d.sp[q].sent ==> d.sp[q].sent[n] != id && n <= d.sp[q].lgSent
      ensures forall n :: n in d.sp[q].sent ==> SameWeight(c, d, d.sp[q].sent[n])
    {
      assert SpaceOk(c, q);
      SpareSpace(c, d, id, q);
    }
    SameLoadBalanced(c, d);
  }

  lemma EnterKeeps(d: Conn, e: Conn, id: Id)
    requires Entered(d, e, id) && Ready(d, id) && Balanced(d) && Outstanding(e, id) && !d.sp[e.meta[id].space].abandoned
    requires forall q :: 0 <= q < SPACES ==> SpaceOk(d, q)
    ensures Balanced(e) && forall q :: 0 <= q < SPACES ==> SpaceOk(e, q)
  {
    forall q | 0 <= q < SPACES ensures d.sp[q].lgSent >= -1 { assert SpaceOk(d, q); }
    EnterBalanced(d, e, id);
    forall q | 0 <= q < SPACES ensures SpaceOk(e, q) { EnterSpaceOk(d, e, id, q); }
  }

  lemma EnterCarries(c: Conn, d: Conn, e: Conn, id: Id, x: Id)
    requires |c.sp| == SPACES && x in c.meta && x != id && Entered(d, e, id) && e.clock >= c.clock
    requires d.sp == c.sp && RecordOk(c, x) && SpaceOk(c, c.meta[x].space)
    ensures Carries(c, e, x)
  {
  }

  lemma NewSelf(d: Conn, e: Conn, id: Id)
    requires Entered(d, e, id) && Outstanding(e, id) && e.meta[id].rtx == [] && !e.meta[id].hasRtx
    requires e.meta[id].t <= e.clock && !d.sp[e.meta[id].space].abandoned
    requires (e.meta[id].ackEliciting ==> e.meta[id].inFlight) && (e.meta[id].strm ==> e.meta[id].ackEliciting)
    ensures MetaOk(e, id)
  {
  }

  /** The first transmission of a packet. */
  lemma SendNewKeeps(c: Conn, id: Id, p: nat, now: nat, udpLen: nat, ackEliciting: bool, padded: bool, strm: bool)
    requires Inv(c) && id !in c.meta && p < SPACES && !c.sp[p].abandoned && now >= c.clock
    requires strm ==> ackEliciting
    ensures Inv(SendNew(c, id, p, now, udpLen, ackEliciting, padded, strm))
  {
    var m := Meta(p, 0, now, udpLen, false, ackEliciting || padded, ackEliciting, false, false, strm, []);
    var d := c.(meta := c.meta[id := m]);
    var e := SendNew(c, id, p, now, udpLen, ackEliciting, padded, strm);
    SpareRecord(c, d, id);
    assert SpaceOk(c, p);
    SentEnters(d, id, now, udpLen);
    NewInv(c, d, e, id);
  }

  lemma NewInv(c: Conn, d: Conn, e: Conn, id: Id)
    requires Kept(c) && id !in c.meta && d.sp == c.sp && e.clock >= c.clock
    requires Entered(d, e, id) && Ready(d, id) && Balanced(d) && forall q :: 0 <= q < SPACES ==> SpaceOk(d, q)
    requires Outstanding(e, id) && !d.sp[e.meta[id].space].abandoned && e.meta[id].t <= e.clock
    requires e.meta[id].rtx == [] && !e.meta[id].hasRtx
    requires (e.meta[id].ackEliciting ==> e.meta[id].inFlight) && (e.meta[id].strm ==> e.meta[id].ackEliciting)
    requires forall x :: x in e.meta <==> x == id || x in c.meta
    requires forall y :: y in c.meta ==> e.meta[y] == c.meta[y]
    ensures Inv(e)
  {
    EnterKeeps(d, e, id);
    NewSelf(d, e, id);
    NewOthers(c, d, e, id);
  }

  lemma NewOthers(c: Conn, d: Conn, e: Conn, id: Id)
    requires Kept(c) && id !in c.meta && d.sp == c.sp && Entered(d, e, id) && e.clock >= c.clock
    requires forall y :: y in c.meta ==> y in e.meta && e.meta[y] == c.meta[y]
    ensures forall x :: x in c.meta ==> MetaOk(e, x)
  {
    forall x | x in c.meta ensures MetaOk(e, x) {
      KeptNear(c, x);
      EnterCarries(c, d, e, id, x);
      NewMetaOk(c, e, x);
    }
  }

  /** A packet with earlier copies is not lost, unless it has been acked. */
  lemma CopiesMeanNotLost(c: Conn, id: Id)
    requires Kept(c) && id in c.meta && !c.meta[id].hasRtx
    ensures c.meta[id].rtx != [] ==> c.meta[id].acked || !c.meta[id].lost
  {
    assert MetaOk(c, id);
    if c.meta[id].rtx != [] { assert MetaOk(c, c.meta[id].rtx[0]); }
  }

  /** Resending a lost packet. */
  lemma ResendLostKeeps(c: Conn, id: Id, orig: Id, now: nat, udpLen: nat)
    requires Inv(c) && id in c.meta && c.meta[id].lost && !c.meta[id].acked && !c.meta[id].hasRtx && now >= c.clock
    ensures Known(c, id) && Inv(Resend(c, id, orig, now, udpLen))
  {
    KeptNear(c, id);
    CopiesMeanNotLost(c, id);
    var e := Resend(c, id, orig, now, udpLen);
    assert c == c.(meta := c.meta[id := c.meta[id]]);
    SpareRecord(c, c, id);
    SentEnters(c, id, now, udpLen);
    EnterKeeps(c, e, id);
    NewSelf(c, e, id);
    LostOthers(c, e, id);
  }

  lemma LostOthers(c: Conn, e: Conn, id: Id)
    requires Kept(c) && id in c.meta && c.meta[id].rtx == [] && !c.meta[id].hasRtx && Entered(c, e, id) && e.clock >= c.clock
    requires forall y :: y in c.meta && y != id ==> y in e.meta && e.meta[y] == c.meta[y]
    ensures forall x :: x in c.meta && x != id ==> MetaOk(e, x)
  {
    forall x | x in c.meta && x != id ensures MetaOk(e, x) {
      KeptNear(c, x);
      KeptNear(c, id);
      EnterCarries(c, c, e, id, x);
      LostMetaOk(c, e, id, x);
    }
  }

  /** No other record refers to a lost packet. */
  lemma LostMetaOk(c: Conn, e: Conn, id: Id, x: Id)
    requires id in c.meta && c.meta[id].rtx == [] && !c.meta[id].hasRtx && x in c.meta && x != id && Carries(c, e, x)
    requires forall y :: y in c.meta && y != id ==> y in e.meta && e.meta[y] == c.meta[y]
    requires MetaOk(c, x)
    ensures MetaOk(e, x)
  {
    CarriedRecord(c, e, x);
    if c.meta[x].hasRtx && c.meta[x].rtx != [] { assert LinkOk(e, x, c.meta[x].rtx[0]); }
  }

  /** Records of other packets are not affected by a new one. */
  lemma NewMetaOk(c: Conn, e: Conn, x: Id)
    requires x in c.meta && Carries(c, e, x) && MetaOk(c, x)
    requires forall y :: y in c.meta ==> y in e.meta && e.meta[y] == c.meta[y]
    ensures MetaOk(e, x)
  {
    CarriedRecord(c, e, x);
  }

  // ----- resending a packet that is still outstanding

  /** `d` is `c` after rtx_pkt gave the old transmission of `id` the record `orig`. */
  ghost predicate Copied(c: Conn, d: Conn, id: Id, orig: Id)
  {
    && |c.sp| == SPACES && Outstanding(c, id) && orig !in c.meta && c.meta[id].space < SPACES
    && var m := c.meta[id];
    && d.meta == c.meta[id := m.(rtx := [orig] + m.rtx)][orig := m.(hasRtx := true, rtx := [id])]
    && d.sp == c.sp[m.space := c.sp[m.space].(sent := c.sp[m.space].sent[m.nr := orig])]
    && d.inFlight == c.inFlight && d.aeInFlight == c.aeInFlight && d.clock == c.clock
  }

  lemma RtxCopies(c: Conn, id: Id, orig: Id)
    requires Kept(c) && Outstanding(c, id) && orig !in c.meta
    ensures Known(c, id) && Copied(c, RtxPkt(c, id, orig), id, orig)
  {
    KeptNear(c, id);
    var s, n := c.sp[c.meta[id].space], c.meta[id].nr;
    assert (s.sent - {n})[n := orig] == s.sent[n := orig] && s.sentNrs - {n} + {n} == s.sentNrs;
  }

  lemma CopyEntry(c: Conn, d: Conn, id: Id, orig: Id, p: nat, n: nat)
    requires Copied(c, d, id, orig) && p < SPACES && n in d.sp[p].sent && SpaceOk(c, p) && RecordOk(c, id)
    ensures var x := d.sp[p].sent[n];
            x != id && n <= d.sp[p].lgSent && Outstanding(d, x) && d.meta[x].space == p && d.meta[x].nr == n
  {
  }

  lemma CopyKeys(c: Conn, d: Conn, id: Id, orig: Id, p: nat)
    requires Copied(c, d, id, orig) && p < SPACES && SpaceOk(c, p) && RecordOk(c, id)
    ensures d.sp[p].sent.Keys == c.sp[p].sent.Keys && d.sp[p] == c.sp[p].(sent := d.sp[p].sent)
    ensures c.sp[p].abandoned ==> d.sp[p].sent == map[]
  {
  }

  lemma CopySpaceOk(c: Conn, d: Conn, id: Id, orig: Id, p: nat)
    requires Copied(c, d, id, orig) && p < SPACES && SpaceOk(c, p) && RecordOk(c, id)
    ensures SpaceOk(d, p)
    ensures forall n :: n in d.sp[p].sent ==> d.sp[p].sent[n] != id && n <= d.sp[p].lgSent
  {
    CopyKeys(c, d, id, orig, p);
    forall n | n in d.sp[p].sent
      ensures var x := d.sp[p].sent[n];
              x != id && n <= d.sp[p].lgSent && Outstanding(d, x) && d.meta[x].space == p && d.meta[x].nr == n
    {
      CopyEntry(c, d, id, orig, p, n);
    }
  }

  lemma CopyWeight(bytes: bool, c: Conn, d: Conn, id: Id, orig: Id, p: nat, j: nat)
    requires Copied(c, d, id, orig) && p < SPACES && SpaceOk(c, p) && RecordOk(c, id)
    ensures Weight(bytes, c, p, j) == Weight(bytes, d, p, j)
  {
    if j in c.sp[p].sent {
      var x := c.sp[p].sent[j];
      if x == id { assert d.sp[p].sent[j] == orig; } else { assert d.sp[p].sent[j] == x && d.meta[x] == c.meta[x]; }
    }
  }

  lemma CopyTotal(bytes: bool, c: Conn, d: Conn, id: Id, orig: Id, p: nat)
    requires Copied(c, d, id, orig) && p < SPACES && SpaceOk(c, p) && RecordOk(c, id)
    ensures SpaceTotal(bytes, c, p) == SpaceTotal(bytes, d, p)
  {
    CopyKeys(c, d, id, orig, p);
    if c.sp[p].lgSent >= 0 {
      forall j | 0 <= j < c.sp[p].lgSent + 1 ensures Weight(bytes, c, p, j) == Weight(bytes, d, p, j) {
        CopyWeight(bytes, c, d, id, orig, p, j);
      }
      TotalSame(bytes, c, d, p, c.sp[p].lgSent + 1);
    }
  }

  lemma SameTotals(c: Conn, d: Conn)
    requires |c.sp| == |d.sp| == SPACES && Balanced(c) && d.inFlight == c.inFlight && d.aeInFlight == c.aeInFlight
    requires forall p :: 0 <= p < SPACES ==>
      SpaceTotal(true, c, p) == SpaceTotal(true, d, p) && SpaceTotal(false, c, p) == SpaceTotal(false, d, p)
    ensures Balanced(d)
  {
  }

  lemma CopyBalanced(c: Conn, d: Conn, id: Id, orig: Id)
    requires Inv(c) && Copied(c, d, id, orig)
    ensures Balanced(d)
  {
    forall p | 0 <= p < SPACES
      ensures SpaceTotal(true, c, p) == SpaceTotal(true, d, p) && SpaceTotal(false, c, p) == SpaceTotal(false, d, p)
    {
      assert SpaceOk(c, p) && MetaOk(c, id);
      CopyTotal(true, c, d, id, orig, p);
      CopyTotal(false, c, d, id, orig, p);
    }
    SameTotals(c, d);
  }

  /** `e` is `c` with `id` sent again: its record has a new number, time and length,
      and one more earlier copy. */
  ghost predicate Resent(c: Conn, e: Conn, id: Id, orig: Id)
  {
    && |c.sp| == SPACES && Outstanding(c, id) && !c.meta[id].hasRtx && c.meta[id].strm && orig !in c.meta
    && var m := c.meta[id];
    && e.meta.Keys == c.meta.Keys + {orig} && m.space < SPACES && |e.sp| == SPACES
    && e.meta[orig] == m.(hasRtx := true, rtx := [id])
    && e.meta[id] == m.(rtx := [orig] + m.rtx, nr := e.meta[id].nr, t := e.meta[id].t, udpLen := e.meta[id].udpLen)
    && e.meta[id].nr > c.sp[m.space].lgSent && c.clock <= e.meta[id].t <= e.clock
    && (forall x :: x in c.meta && x != id ==> e.meta[x] == c.meta[x] && Carries(c, e, x))
    && (forall p :: 0 <= p < SPACES ==> e.sp[p].abandoned == c.sp[p].abandoned)
    && m.nr in e.sp[m.space].sent && e.sp[m.space].sent[m.nr] == orig
    && e.meta[id].nr in e.sp[m.space].sent && e.sp[m.space].sent[e.meta[id].nr] == id
  }

  lemma ResentSelf(c: Conn, e: Conn, id: Id, orig: Id)
    requires Resent(c, e, id, orig) && MetaOk(c, id)
    ensures MetaOk(e, id)
  {
    assert orig !in c.meta[id].rtx;
    forall o | o in e.meta[id].rtx ensures o in e.meta && e.meta[o].hasRtx && e.meta[o].rtx == [id] {
      if o != orig { assert o in c.meta[id].rtx && o != id; }
    }
  }

  lemma ResentCopy(c: Conn, e: Conn, id: Id, orig: Id)
    requires Resent(c, e, id, orig) && MetaOk(c, id) && c.meta[id].nr <= c.sp[c.meta[id].space].lgSent
    ensures MetaOk(e, orig)
  {
    assert LinkOk(e, orig, id);
  }

  lemma ResentOther(c: Conn, e: Conn, id: Id, orig: Id, x: Id)
    requires Resent(c, e, id, orig) && x in c.meta && x != id && MetaOk(c, x) && MetaOk(c, id)
    requires c.meta[id].nr <= c.sp[c.meta[id].space].lgSent
    ensures MetaOk(e, x)
  {
    CarriedRecord(c, e, x);
    if c.meta[x].hasRtx {
      if c.meta[x].rtx != [] {
        assert LinkOk(c, x, c.meta[x].rtx[0]);
        assert LinkOk(e, x, c.meta[x].rtx[0]);
      }
    } else {
      forall o | o in c.meta[x].rtx ensures o in e.meta && e.meta[o].hasRtx && e.meta[o].rtx == [x] {
        assert o != id;
      }
    }
  }

  /** Resending a packet that is still outstanding: the old number stays accounted
      for under the copy, the new one is accounted for on its own. */
  lemma ResendKeeps(c: Conn, id: Id, orig: Id, now: nat, udpLen: nat)
    requires Inv(c) && Outstanding(c, id) && !c.meta[id].hasRtx && c.meta[id].strm && orig !in c.meta && now >= c.clock
    ensures Known(c, id) && Inv(Resend(c, id, orig, now, udpLen))
  {
    KeptNear(c, id);
    var d := RtxPkt(c, id, orig);
    var e := Resend(c, id, orig, now, udpLen);
    RtxCopies(c, id, orig);
    CopyReady(c, d, id, orig);
    CopyBalanced(c, d, id, orig);
    SentEnters(d, id, now, udpLen);
    EnterKeeps(d, e, id);
    ResendResent(c, d, e, id, orig);
    ResentMetas(c, e, id, orig);
  }

  lemma CopyReady(c: Conn, d: Conn, id: Id, orig: Id)
    requires Kept(c) && Copied(c, d, id, orig)
    ensures Ready(d, id) && forall q :: 0 <= q < SPACES ==> SpaceOk(d, q)
  {
    forall q | 0 <= q < SPACES
      ensures SpaceOk(d, q) && forall n :: n in d.sp[q].sent ==> d.sp[q].sent[n] != id && n <= d.sp[q].lgSent
    {
      assert SpaceOk(c, q) && MetaOk(c, id);
      CopySpaceOk(c, d, id, orig, q);
    }
  }

  lemma ResentMetas(c: Conn, e: Conn, id: Id, orig: Id)
    requires Kept(c) && Resent(c, e, id, orig)
    ensures forall x :: x in e.meta ==> MetaOk(e, x)
  {
    KeptNear(c, id);
    EntryCounts(c, id);
    ResentSelf(c, e, id, orig);
    ResentCopy(c, e, id, orig);
    forall x | x in c.meta && x != id ensures MetaOk(e, x) {
      KeptNear(c, x);
      ResentOther(c, e, id, orig, x);
    }
  }

  lemma CopyCarries(c: Conn, d: Conn, id: Id, orig: Id, x: Id)
    requires Copied(c, d, id, orig) && x in c.meta && x != id && RecordOk(c, x) && RecordOk(c, id)
    ensures Carries(c, d, x) && d.meta[x] == c.meta[x]
  {
  }

  lemma EnterStillCarries(c: Conn, d: Conn, e: Conn, id: Id, x: Id)
    requires x in c.meta && Carries(c, d, x) && Entered(d, e, id) && e.clock >= c.clock
    requires Outstanding(c, x) ==> c.meta[x].nr <= d.sp[c.meta[x].space].lgSent
    ensures Carries(c, e, x)
  {
  }

  lemma ResendCarries(c: Conn, d: Conn, e: Conn, id: Id, orig: Id, x: Id)
    requires Kept(c) && Copied(c, d, id, orig) && Entered(d, e, id) && x in c.meta && x != id && e.clock >= c.clock
    ensures x in e.meta && e.meta[x] == c.meta[x] && Carries(c, e, x)
  {
    KeptNear(c, x);
    KeptNear(c, id);
    CopyCarries(c, d, id, orig, x);
    if Outstanding(c, x) { EntryCounts(c, x); }
    EnterStillCarries(c, d, e, id, x);
  }

  lemma ResendEntries(c: Conn, d: Conn, e: Conn, id: Id, orig: Id)
    requires Copied(c, d, id, orig) && Entered(d, e, id) && RecordOk(c, id) && SpaceOk(c, c.meta[id].space)
    ensures e.meta.Keys == c.meta.Keys + {orig} && orig in d.meta && e.meta[orig] == d.meta[orig]
    ensures e.meta[id].space == c.meta[id].space ==>
      var t := e.sp[c.meta[id].space].sent;
      c.meta[id].nr in t && t[c.meta[id].nr] == orig && e.meta[id].nr in t && t[e.meta[id].nr] == id
  {
    assert d.meta.Keys == c.meta.Keys + {orig};
    assert forall x :: x in e.meta <==> x in d.meta;
  }

  lemma ResendResent(c: Conn, d: Conn, e: Conn, id: Id, orig: Id)
    requires Kept(c) && Copied(c, d, id, orig) && Entered(d, e, id) && !c.meta[id].hasRtx && c.meta[id].strm
    requires e.meta[id] == d.meta[id].(nr := e.meta[id].nr, t := e.clock, udpLen := e.meta[id].udpLen) && e.clock >= c.clock
    ensures Resent(c, e, id, orig)
  {
    KeptNear(c, id);
    ResendEntries(c, d, e, id, orig);
    forall x | x in c.meta && x != id ensures x in e.meta && e.meta[x] == c.meta[x] && Carries(c, e, x) {
      ResendCarries(c, d, e, id, orig, x);
    }
  }
}
