/** What every step of the packet bookkeeping keeps. */
module Balance {
  import opened Recovery

  // ----- bytes and packets in flight

  /** What number `n` of space `p` adds to in_flight (`bytes`) or to ae_in_flight. */
  ghost function Weight(bytes: bool, c: Conn, p: nat, n: nat): (w: nat)
  {
    if p < |c.sp| && n in c.sp[p].sent && c.sp[p].sent[n] in c.meta then
      var m := c.meta[c.sp[p].sent[n]];
      if !m.inFlight then 0 else if bytes then PaddedLen(m) else if m.ackEliciting then 1 else 0
    else 0
  }

  ghost function Total(bytes: bool, c: Conn, p: nat, n: nat): (r: nat)
  {
    if n == 0 then 0 else Total(bytes, c, p, n - 1) + Weight(bytes, c, p, n - 1)
  }

  ghost function SpaceTotal(bytes: bool, c: Conn, p: nat): (r: nat)
    requires p < |c.sp|
  {
    if c.sp[p].lgSent < 0 then 0 else Total(bytes, c, p, c.sp[p].lgSent + 1)
  }

  /** in_flight is the sum of the padded lengths, and ae_in_flight the number, of
      the unresolved packets of all spaces. */
  ghost predicate Balanced(c: Conn)
    requires |c.sp| == SPACES
  {
    && c.inFlight == SpaceTotal(true, c, 0) + SpaceTotal(true, c, 1) + SpaceTotal(true, c, 2)
    && c.aeInFlight == SpaceTotal(false, c, 0) + SpaceTotal(false, c, 1) + SpaceTotal(false, c, 2)
  }

  lemma {:induction false} TotalSame(bytes: bool, c: Conn, d: Conn, p: nat, n: nat)
    requires forall j :: 0 <= j < n ==> Weight(bytes, c, p, j) == Weight(bytes, d, p, j)
    ensures Total(bytes, c, p, n) == Total(bytes, d, p, n)
  {
    if n > 0 { TotalSame(bytes, c, d, p, n - 1); }
  }

  /** Changing the weight of one number changes the total by as much. */
  lemma {:induction false} TotalChange(bytes: bool, c: Conn, d: Conn, p: nat, n: nat, k: nat)
    requires k < n
    requires forall j :: 0 <= j < n && j != k ==> Weight(bytes, c, p, j) == Weight(bytes, d, p, j)
    ensures Total(bytes, d, p, n) == Total(bytes, c, p, n) - Weight(bytes, c, p, k) + Weight(bytes, d, p, k)
  {
    if n - 1 == k {
      TotalSame(bytes, c, d, p, n - 1);
    } else {
      TotalChange(bytes, c, d, p, n - 1, k);
    }
  }

  lemma {:induction false} TotalAtLeast(bytes: bool, c: Conn, p: nat, n: nat, k: nat)
    requires k < n
    ensures Weight(bytes, c, p, k) <= Total(bytes, c, p, n)
  {
    if n - 1 != k { TotalAtLeast(bytes, c, p, n - 1, k); }
  }

  // ----- the invariant

  ghost predicate Outstanding(c: Conn, id: Id)
  {
    id in c.meta && !c.meta[id].acked && !c.meta[id].lost
  }

  /** sent_pkts and sent_pkt_nrs have the same keys; every number sent so far is
      either in them or in acked_or_lost, never both; each entry carries its key. */
  ghost predicate SpaceOk(c: Conn, p: nat)
    requires p < |c.sp|
  {
    var s := c.sp[p];
    && s.lgSent >= -1 && s.sent.Keys == s.sentNrs
    && (forall n :: n in s.sent ==>
          Outstanding(c, s.sent[n]) && c.meta[s.sent[n]].space == p && c.meta[s.sent[n]].nr == n)
    && (if s.abandoned then s.sent == map[]
        else s.sentNrs !! s.resolved && forall n: int :: n in s.sentNrs || n in s.resolved <==> 0 <= n <= s.lgSent)
  }

  /** An earlier copy `o` and its successor `r`: as long as the successor is not
      acked it is outstanding itself, was sent later and has the higher number. */
  ghost predicate LinkOk(c: Conn, o: Id, r: Id)
    requires o in c.meta
  {
    && r in c.meta && r != o && !c.meta[r].hasRtx && o in c.meta[r].rtx
    && c.meta[r].space == c.meta[o].space
    && (c.meta[r].acked || (!c.meta[r].lost && c.meta[o].nr < c.meta[r].nr && c.meta[o].t <= c.meta[r].t))
  }

  ghost predicate NoDup(s: seq<Id>)
  {
    forall i, j :: 0 <= i < j < |s| ==> s[i] != s[j]
  }

  /** A record by itself and in the tables. */
  ghost predicate RecordOk(c: Conn, id: Id)
    requires |c.sp| == SPACES && id in c.meta
  {
    var m := c.meta[id];
    && m.space < SPACES && !c.sp[m.space].abandoned && m.t <= c.clock
    && (Outstanding(c, id) ==> m.nr in c.sp[m.space].sent && c.sp[m.space].sent[m.nr] == id)
    && (m.ackEliciting ==> m.inFlight)
    && (m.strm || m.hasRtx ==> m.ackEliciting)
    && (m.hasRtx ==> Outstanding(c, id))
  }

  /** Its links to other transmissions of the same data. */
  ghost predicate LinksOk(c: Conn, id: Id)
    requires id in c.meta
  {
    var m := c.meta[id];
    if m.hasRtx then |m.rtx| <= 1 && (m.rtx != [] ==> LinkOk(c, id, m.rtx[0]))
    else
      && NoDup(m.rtx) && (m.rtx != [] ==> m.strm)
      && forall o :: o in m.rtx ==> o in c.meta && c.meta[o].hasRtx && c.meta[o].rtx == [id]
  }

  ghost predicate MetaOk(c: Conn, id: Id)
    requires |c.sp| == SPACES && id in c.meta
  {
    RecordOk(c, id) && LinksOk(c, id)
  }

  /** The invariant for a record and its successor, if it has one. */
  ghost predicate Near(c: Conn, id: Id)
    requires |c.sp| == SPACES && id in c.meta
  {
    MetaOk(c, id) && (c.meta[id].hasRtx && c.meta[id].rtx != [] ==> MetaOk(c, c.meta[id].rtx[0]))
  }

  ghost predicate Kept(c: Conn)
  {
    && |c.sp| == SPACES
    && (forall p :: 0 <= p < SPACES ==> SpaceOk(c, p))
    && (forall id :: id in c.meta ==> MetaOk(c, id))
  }

  ghost predicate Inv(c: Conn)
  {
    Kept(c) && Balanced(c)
  }

  // ----- settling a packet

  /** Two states whose records differ only in fields that do not count. */
  ghost predicate SameLoad(c: Conn, d: Conn)
  {
    && |c.sp| == |d.sp| == SPACES && c.inFlight == d.inFlight && c.aeInFlight == d.aeInFlight
    && (forall p :: 0 <= p < SPACES ==> c.sp[p].lgSent == d.sp[p].lgSent && c.sp[p].sent == d.sp[p].sent)
    && (forall p, n :: 0 <= p < SPACES && n in c.sp[p].sent ==> SameWeight(c, d, c.sp[p].sent[n]))
  }

  ghost predicate SameWeight(c: Conn, d: Conn, id: Id)
  {
    && id in c.meta && id in d.meta
    && c.meta[id].inFlight == d.meta[id].inFlight && c.meta[id].ackEliciting == d.meta[id].ackEliciting
    && c.meta[id].space == d.meta[id].space && c.meta[id].udpLen == d.meta[id].udpLen
  }

  lemma SameLoadBalanced(c: Conn, d: Conn)
    requires SameLoad(c, d) && Balanced(c)
    ensures Balanced(d)
  {
    forall bytes, p | 0 <= p < SPACES ensures SpaceTotal(bytes, c, p) == SpaceTotal(bytes, d, p) {
      if c.sp[p].lgSent >= 0 {
        TotalSame(bytes, c, d, p, c.sp[p].lgSent + 1);
      }
    }
  }

  lemma KeptNear(c: Conn, id: Id)
    requires Kept(c) && id in c.meta
    ensures Near(c, id) && c.meta[id].space < SPACES && SpaceOk(c, c.meta[id].space)
  {
    assert MetaOk(c, id);
  }

  /** What an outstanding packet adds is part of the sum. */
  lemma EntryCounts(c: Conn, id: Id)
    requires |c.sp| == SPACES && Outstanding(c, id) && RecordOk(c, id) && SpaceOk(c, c.meta[id].space)
    ensures var m := c.meta[id];
            && 0 <= m.nr <= c.sp[m.space].lgSent
            && Weight(true, c, m.space, m.nr) == (if m.inFlight then PaddedLen(m) else 0)
            && Weight(false, c, m.space, m.nr) == (if m.inFlight && m.ackEliciting then 1 else 0)
  {
  }

  lemma WeightWithin(bytes: bool, c: Conn, p: nat, n: nat)
    requires |c.sp| == SPACES && p < SPACES && Balanced(c) && n <= c.sp[p].lgSent
    ensures Weight(bytes, c, p, n) <= if bytes then c.inFlight else c.aeInFlight
  {
    TotalAtLeast(bytes, c, p, c.sp[p].lgSent + 1, n);
  }

  /** The accounting check in remove_from_in_flight cannot fire. */
  lemma NoUnderrun(c: Conn, id: Id)
    requires Inv(c) && Outstanding(c, id)
    ensures c.meta[id].inFlight ==> PaddedLen(c.meta[id]) <= c.inFlight
    ensures c.meta[id].inFlight && c.meta[id].ackEliciting ==> 1 <= c.aeInFlight
  {
    KeptNear(c, id);
    EntryCounts(c, id);
    WeightWithin(true, c, c.meta[id].space, c.meta[id].nr);
    WeightWithin(false, c, c.meta[id].space, c.meta[id].nr);
  }

  /** `d` is `c` after the packet `id` was taken out of sent_pkts and its number
      recorded in acked_or_lost. */
  ghost predicate Taken(c: Conn, d: Conn, id: Id)
    requires Known(c, id)
  {
    var m := c.meta[id];
    && d.meta == c.meta && |d.sp| == SPACES && d.clock == c.clock
    && (forall q :: 0 <= q < SPACES && q != m.space ==> d.sp[q] == c.sp[q])
    && d.sp[m.space] == c.sp[m.space].(sent := c.sp[m.space].sent - {m.nr},
                                       sentNrs := c.sp[m.space].sentNrs - {m.nr},
                                       resolved := c.sp[m.space].resolved + {m.nr})
  }

  lemma SettleTakes(c: Conn, id: Id, counted: bool)
    requires Known(c, id)
    ensures Taken(c, Settle(c, id, counted), id)
  {
  }

  lemma TakenWeight(bytes: bool, c: Conn, d: Conn, id: Id, q: nat, j: nat)
    requires Known(c, id) && Taken(c, d, id) && q < SPACES && (q != c.meta[id].space || j != c.meta[id].nr)
    ensures Weight(bytes, d, q, j) == Weight(bytes, c, q, j)
  {
  }

  lemma TakenWeights(c: Conn, d: Conn, id: Id, bytes: bool, q: nat)
    requires Known(c, id) && Taken(c, d, id) && q < SPACES
    requires c.meta[id].nr <= c.sp[c.meta[id].space].lgSent
    ensures SpaceTotal(bytes, d, q) ==
            SpaceTotal(bytes, c, q) - if q == c.meta[id].space then Weight(bytes, c, q, c.meta[id].nr) else 0
  {
    var m := c.meta[id];
    forall j: nat | q != m.space || j != m.nr ensures Weight(bytes, d, q, j) == Weight(bytes, c, q, j) {
      TakenWeight(bytes, c, d, id, q, j);
    }
    if q == m.space {
      TotalChange(bytes, c, d, q, c.sp[q].lgSent + 1, m.nr);
    } else if c.sp[q].lgSent >= 0 {
      TotalSame(bytes, c, d, q, c.sp[q].lgSent + 1);
    }
  }

  /** The sums of `d` are those of `c` less what one entry of space `p` counted for. */
  lemma LessOne(c: Conn, d: Conn, p: nat, x: nat, y: nat)
    requires |c.sp| == |d.sp| == SPACES && p < SPACES && Balanced(c)
    requires forall q :: 0 <= q < SPACES ==> SpaceTotal(true, d, q) == SpaceTotal(true, c, q) - if q == p then x else 0
    requires forall q :: 0 <= q < SPACES ==> SpaceTotal(false, d, q) == SpaceTotal(false, c, q) - if q == p then y else 0
    requires d.inFlight == c.inFlight - x && d.aeInFlight == c.aeInFlight - y
    ensures Balanced(d)
  {
  }

  lemma SettleBalanced(c: Conn, id: Id)
    requires Inv(c) && Outstanding(c, id)
    ensures Known(c, id) && Balanced(Settle(c, id, c.meta[id].inFlight))
  {
    KeptNear(c, id);
    SettleSums(c, id);
  }

  lemma SettleSums(c: Conn, id: Id)
    requires |c.sp| == SPACES && Balanced(c) && Outstanding(c, id) && RecordOk(c, id) && SpaceOk(c, c.meta[id].space)
    ensures Balanced(Settle(c, id, c.meta[id].inFlight))
  {
    var m := c.meta[id];
    var d := Settle(c, id, m.inFlight);
    SettleTakes(c, id, m.inFlight);
    EntryCounts(c, id);
    forall q | 0 <= q < SPACES
      ensures && SpaceTotal(true, d, q) == SpaceTotal(true, c, q) - (if q == m.space then Weight(true, c, q, m.nr) else 0)
              && SpaceTotal(false, d, q) == SpaceTotal(false, c, q) - if q == m.space then Weight(false, c, q, m.nr) else 0
    {
      TakenWeights(c, d, id, true, q);
      TakenWeights(c, d, id, false, q);
    }
    LessOne(c, d, m.space, Weight(true, c, m.space, m.nr), Weight(false, c, m.space, m.nr));
  }

  lemma TakenSpaceOk(c: Conn, d: Conn, id: Id, p: nat)
    requires Known(c, id) && Taken(c, d, id) && p < SPACES && SpaceOk(c, p) && RecordOk(c, id) && Outstanding(c, id)
    ensures SpaceOk(d, p) && d.sp[p].abandoned == c.sp[p].abandoned
    ensures forall n :: n in d.sp[p].sent ==> d.sp[p].sent[n] != id
  {
  }

  /** Changing records without touching what the tables rely on. */
  ghost predicate SameKeys(d: Conn, e: Conn)
  {
    && e.sp == d.sp && |d.sp| == SPACES && e.inFlight == d.inFlight && e.aeInFlight == d.aeInFlight && e.clock == d.clock
    && forall p, n :: 0 <= p < SPACES && n in d.sp[p].sent ==> SameEntry(d, e, d.sp[p].sent[n])
  }

  ghost predicate SameEntry(d: Conn, e: Conn, x: Id)
  {
    x in d.meta && x in e.meta && e.meta[x] == d.meta[x].(strm := e.meta[x].strm, rtx := e.meta[x].rtx)
  }

  lemma SameKeysSpaceOk(d: Conn, e: Conn, p: nat)
    requires SameKeys(d, e) && p < SPACES && SpaceOk(d, p)
    ensures SpaceOk(e, p)
  {
  }

  lemma SameKeysBalanced(d: Conn, e: Conn)
    requires SameKeys(d, e) && Balanced(d)
    ensures Balanced(e)
  {
    SameLoadBalanced(d, e);
  }

  // ----- freeing a packet

  lemma {:induction false} DropFacts(s: seq<Id>, x: Id)
    requires NoDup(s)
    ensures NoDup(Drop(s, x)) && forall y :: y in Drop(s, x) <==> y in s && y != x
  {
    if s != [] {
      DropFacts(s[1..], x);
      assert forall y :: y in s <==> y == s[0] || y in s[1..];
      assert s[0] !in s[1..] && s[0] !in Drop(s[1..], x);
    }
  }

  /** Unlinking touches only links, of neighbours only. */
  lemma UnlinkKeeps(c: Conn, id: Id)
    requires id in c.meta && LinksOk(c, id)
    ensures Unlink(c, id).Keys == c.meta.Keys
    ensures forall x :: x in c.meta ==> Relinked(c.meta[x], Unlink(c, id)[x])
  {
  }

  /** The same record but for its links; the stream may have been released. */
  ghost predicate Relinked(m: Meta, u: Meta)
  {
    u == m.(strm := u.strm, rtx := u.rtx) && (u.strm ==> m.strm)
  }

  /** `e` has a table entry for `x` as `c` has, and knows the same spaces. */
  ghost predicate Carries(c: Conn, e: Conn, x: Id)
    requires x in c.meta
  {
    && |c.sp| == |e.sp| == SPACES && c.meta[x].space < SPACES && e.clock >= c.clock
    && (forall p :: 0 <= p < SPACES ==> e.sp[p].abandoned == c.sp[p].abandoned)
    && (Outstanding(c, x) ==>
          c.meta[x].nr in e.sp[c.meta[x].space].sent && e.sp[c.meta[x].space].sent[c.meta[x].nr] == x)
  }

  lemma CarriedRecord(c: Conn, e: Conn, x: Id)
    requires x in c.meta && x in e.meta && Carries(c, e, x) && RecordOk(c, x) && Relinked(c.meta[x], e.meta[x])
    ensures RecordOk(e, x)
  {
  }

  /** No other record refers to one without links. */
  lemma UnlinkedAlone(c: Conn, e: Conn, id: Id, x: Id)
    requires id in c.meta && x in c.meta && x != id && LinksOk(c, id) && LinksOk(c, x)
    requires c.meta[id].rtx == [] && e.meta == c.meta - {id}
    ensures LinksOk(e, x)
  {
  }

  lemma UnlinkedEarlier(c: Conn, e: Conn, id: Id, s: Id, x: Id)
    requires id in c.meta && s in c.meta && x in c.meta && x != id && LinksOk(c, id) && LinksOk(c, s) && LinksOk(c, x)
    requires c.meta[id].hasRtx && c.meta[id].rtx == [s]
    requires e.meta == (c.meta - {id})[s := c.meta[s].(rtx := Drop(c.meta[s].rtx, id))]
    ensures LinksOk(e, x)
  {
    DropFacts(c.meta[s].rtx, id);
    if x == s {
      DroppedLinks(c, e, id, s);
    } else if !c.meta[x].hasRtx {
      OtherLinks(c, e, id, s, x);
    }
  }

  lemma DroppedLinks(c: Conn, e: Conn, id: Id, s: Id)
    requires id in c.meta && s in c.meta && s != id && !c.meta[s].hasRtx && LinksOk(c, s)
    requires e.meta == (c.meta - {id})[s := c.meta[s].(rtx := Drop(c.meta[s].rtx, id))]
    ensures LinksOk(e, s)
  {
    DropFacts(c.meta[s].rtx, id);
  }

  lemma OtherLinks(c: Conn, e: Conn, id: Id, s: Id, x: Id)
    requires id in c.meta && s in c.meta && x in c.meta && x != id && x != s && c.meta[id].rtx == [s] && !c.meta[s].hasRtx
    requires !c.meta[x].hasRtx && LinksOk(c, x)
    requires e.meta == (c.meta - {id})[s := c.meta[s].(rtx := Drop(c.meta[s].rtx, id))]
    ensures LinksOk(e, x)
  {
    forall o | o in c.meta[x].rtx ensures o in e.meta && e.meta[o].hasRtx && e.meta[o].rtx == [x] {
      assert o != s && o != id;
    }
  }

  lemma UnlinkedLatest(c: Conn, e: Conn, id: Id, x: Id)
    requires |c.sp| == SPACES && id in c.meta && x in c.meta && x != id && LinksOk(c, id) && LinksOk(c, x)
    requires c.meta[id].rtx != [] && !c.meta[id].hasRtx && e.meta == Unlink(c, id) - {id}
    requires c.meta[x].hasRtx && c.meta[x].rtx != [] ==> !c.meta[c.meta[x].rtx[0]].hasRtx
    ensures LinksOk(e, x)
  {
    if x in c.meta[id].rtx {
      assert e.meta[x] == c.meta[x].(strm := false, rtx := []);
    } else {
      assert e.meta[x] == c.meta[x];
      if c.meta[x].hasRtx {
        if c.meta[x].rtx != [] {
          var r := c.meta[x].rtx[0];
          assert r !in c.meta[id].rtx && e.meta[r] == c.meta[r];
        }
      } else {
        forall o | o in c.meta[x].rtx ensures o in e.meta && e.meta[o] == c.meta[o] {
          assert o !in c.meta[id].rtx;
        }
      }
    }
  }

  lemma UnlinkedLinks(c: Conn, e: Conn, id: Id, x: Id)
    requires |c.sp| == SPACES && id in c.meta && x in c.meta && x != id && Near(c, id) && Near(c, x)
    requires e.meta == Unlink(c, id) - {id}
    ensures x in e.meta && LinksOk(e, x)
  {
    if c.meta[id].rtx == [] {
      UnlinkedAlone(c, e, id, x);
    } else if c.meta[id].hasRtx {
      var s := c.meta[id].rtx[0];
      assert e.meta == (c.meta - {id})[s := c.meta[s].(rtx := Drop(c.meta[s].rtx, id))];
      UnlinkedEarlier(c, e, id, s, x);
    } else {
      UnlinkedLatest(c, e, id, x);
    }
  }

  /** `d` is `c` with the packet `id` out of the tables, its record still there. */
  ghost predicate Vacated(c: Conn, d: Conn, id: Id)
  {
    && id in c.meta && d.meta == c.meta && d.clock == c.clock && |d.sp| == SPACES
    && |c.sp| == SPACES
    && (forall p :: 0 <= p < SPACES ==> SpaceOk(d, p) && d.sp[p].abandoned == c.sp[p].abandoned)
    && (forall p, n :: 0 <= p < SPACES && n in d.sp[p].sent ==> d.sp[p].sent[n] != id)
    && (forall x :: x in c.meta && x != id ==> Carries(c, d, x))
  }

  lemma ForgetEntry(c: Conn, d: Conn, e: Conn, id: Id, x: Id)
    requires id in c.meta && LinksOk(c, id) && d.meta == c.meta && e.meta == Unlink(c, id) - {id}
    requires x in c.meta && x != id
    ensures SameEntry(d, e, x)
  {
    UnlinkKeeps(c, id);
  }

  lemma ForgetEntries(c: Conn, d: Conn, e: Conn, id: Id)
    requires Vacated(c, d, id) && LinksOk(c, id) && e == d.(meta := Unlink(c, id) - {id})
    ensures SameKeys(d, e)
  {
    forall p, n | 0 <= p < SPACES && n in d.sp[p].sent ensures SameEntry(d, e, d.sp[p].sent[n]) {
      assert SpaceOk(d, p);
      ForgetEntry(c, d, e, id, d.sp[p].sent[n]);
    }
  }

  lemma ForgetRecord(c: Conn, d: Conn, e: Conn, id: Id, x: Id)
    requires id in c.meta && x in c.meta && x != id && LinksOk(c, id) && Carries(c, d, x) && RecordOk(c, x)
    requires e == d.(meta := Unlink(c, id) - {id})
    ensures x in e.meta && RecordOk(e, x)
  {
    UnlinkKeeps(c, id);
    CarriedRecord(c, e, x);
  }

  lemma ForgetMetas(c: Conn, d: Conn, e: Conn, id: Id, x: Id)
    requires Kept(c) && Vacated(c, d, id) && e == d.(meta := Unlink(c, id) - {id}) && x in c.meta && x != id
    ensures x in e.meta && MetaOk(e, x)
  {
    KeptNear(c, id);
    KeptNear(c, x);
    ForgetRecord(c, d, e, id, x);
    UnlinkedLinks(c, e, id, x);
  }

  lemma ForgetKeeps(c: Conn, d: Conn, e: Conn, id: Id)
    requires Kept(c) && Vacated(c, d, id) && e == d.(meta := Unlink(c, id) - {id}) && Balanced(d)
    ensures Inv(e)
  {
    KeptNear(c, id);
    UnlinkKeeps(c, id);
    ForgetEntries(c, d, e, id);
    SameKeysBalanced(d, e);
    forall x | x in e.meta ensures MetaOk(e, x) { ForgetMetas(c, d, e, id, x); }
    forall p | 0 <= p < SPACES ensures SpaceOk(e, p) { SameKeysSpaceOk(d, e, p); }
  }

  lemma TakenCarries(c: Conn, d: Conn, id: Id, x: Id)
    requires Known(c, id) && Taken(c, d, id) && x in c.meta && x != id && RecordOk(c, id) && RecordOk(c, x)
    requires Outstanding(c, id)
    ensures Carries(c, d, x)
  {
  }

  /** free_iov keeps the invariant, whatever record is freed. */
  lemma FreeKeeps(c: Conn, id: Id)
    requires Inv(c) && id in c.meta
    ensures Known(c, id) && Inv(FreeIov(c, id))
  {
    assert MetaOk(c, id);
    if Outstanding(c, id) {
      SettleForgets(c, id);
      ForgetKeeps(c, Settle(c, id, c.meta[id].inFlight), FreeIov(c, id), id);
    } else {
      forall x | x in c.meta && x != id ensures Carries(c, c, x) { assert MetaOk(c, x); }
      forall p, n | 0 <= p < SPACES && n in c.sp[p].sent ensures c.sp[p].sent[n] != id { assert SpaceOk(c, p); }
      ForgetKeeps(c, c, FreeIov(c, id), id);
    }
  }

  // ----- losing a packet

  /** One round of the second loop of detect_lost_pkts. */
  ghost function Lose(c: Conn, id: Id): (r: Conn)
    requires Known(c, id)
  {
    var c1 := OnPktLost(c, id, true);
    if !c.meta[id].strm || c.meta[id].hasRtx then FreeIov(c1, id) else c1
  }

  /** Losing a packet that has no earlier copies outstanding keeps the invariant.
      A packet whose data is in a stream stays, marked lost; any other is freed. */
  lemma LoseKeeps(c: Conn, id: Id)
    requires Inv(c) && Outstanding(c, id)
    requires !c.meta[id].hasRtx ==> c.meta[id].rtx == []
    ensures Known(c, id) && Inv(Lose(c, id))
  {
    assert MetaOk(c, id);
    var m := c.meta[id];
    var d := Settle(c, id, m.inFlight);
    SettleForgets(c, id);
    if !m.strm || m.hasRtx {
      LoseFrees(c, id);
      ForgetKeeps(c, d, Lose(c, id), id);
    } else {
      MarkKeeps(c, d, Lose(c, id), id);
    }
  }

  /** Marking a packet lost just before it is freed makes no difference. */
  lemma LoseFrees(c: Conn, id: Id)
    requires Kept(c) && Outstanding(c, id) && Known(c, id) && (!c.meta[id].strm || c.meta[id].hasRtx)
    requires !c.meta[id].hasRtx ==> c.meta[id].rtx == []
    ensures Lose(c, id) == Settle(c, id, c.meta[id].inFlight).(meta := Unlink(c, id) - {id})
  {
    assert MetaOk(c, id);
    var c1 := OnPktLost(c, id, true);
    UnlinkMarked(c, c1, id, c1.meta[id]);
  }

  /** `e` is `d` with the record of `id` marked acked or lost. */
  ghost predicate Marked(c: Conn, d: Conn, e: Conn, id: Id)
  {
    && Vacated(c, d, id)
    && id in e.meta && e == d.(meta := d.meta[id := e.meta[id]])
    && e.meta[id] == c.meta[id].(acked := e.meta[id].acked, lost := e.meta[id].lost)
    && (e.meta[id].acked || (e.meta[id].lost && c.meta[id].rtx == []))
    && !c.meta[id].hasRtx
  }

  lemma MarkedSelf(c: Conn, d: Conn, e: Conn, id: Id)
    requires Marked(c, d, e, id) && MetaOk(c, id)
    ensures MetaOk(e, id)
  {
    assert e.meta[id].rtx == c.meta[id].rtx;
  }

  lemma MarkedOther(c: Conn, d: Conn, e: Conn, id: Id, x: Id)
    requires Marked(c, d, e, id) && x in c.meta && x != id && MetaOk(c, x) && MetaOk(c, id)
    ensures MetaOk(e, x)
  {
    assert Carries(c, d, x) && e.meta[x] == c.meta[x];
    CarriedRecord(c, e, x);
    if c.meta[x].hasRtx && c.meta[x].rtx != [] { assert LinkOk(e, x, c.meta[x].rtx[0]); }
  }

  lemma MarkedEntries(c: Conn, d: Conn, e: Conn, id: Id)
    requires Marked(c, d, e, id)
    ensures SameKeys(d, e)
  {
    forall p, n | 0 <= p < SPACES && n in d.sp[p].sent ensures SameEntry(d, e, d.sp[p].sent[n]) {
      assert SpaceOk(d, p);
    }
  }

  /** A packet out of the tables may be marked acked, or lost if it has no earlier
      copies. */
  lemma MarkKeeps(c: Conn, d: Conn, e: Conn, id: Id)
    requires Kept(c) && Marked(c, d, e, id) && Balanced(d)
    ensures Inv(e)
  {
    MarkedEntries(c, d, e, id);
    SameKeysBalanced(d, e);
    forall p | 0 <= p < SPACES ensures SpaceOk(e, p) { SameKeysSpaceOk(d, e, p); }
    forall x | x in e.meta ensures MetaOk(e, x) {
      assert MetaOk(c, x) && MetaOk(c, id);
      if x == id { MarkedSelf(c, d, e, id); } else { MarkedOther(c, d, e, id, x); }
    }
  }

  // ----- acknowledging a packet

  /** An outstanding packet out of the tables, as Settle leaves it. */
  lemma SettleForgets(c: Conn, id: Id)
    requires Inv(c) && Outstanding(c, id)
    ensures Known(c, id)
    ensures var d := Settle(c, id, c.meta[id].inFlight);
            Balanced(d) && Taken(c, d, id) && Vacated(c, d, id)
  {
    KeptNear(c, id);
    var d := Settle(c, id, c.meta[id].inFlight);
    SettleTakes(c, id, c.meta[id].inFlight);
    SettleBalanced(c, id);
    TakenVacates(c, d, id);
  }

  lemma TakenVacates(c: Conn, d: Conn, id: Id)
    requires Kept(c) && Outstanding(c, id) && Known(c, id) && Taken(c, d, id)
    ensures Vacated(c, d, id)
  {
    forall p | 0 <= p < SPACES
      ensures SpaceOk(d, p) && d.sp[p].abandoned == c.sp[p].abandoned
      ensures forall n :: n in d.sp[p].sent ==> d.sp[p].sent[n] != id
    {
      assert SpaceOk(c, p) && MetaOk(c, id);
      TakenSpaceOk(c, d, id, p);
    }
    forall x | x in c.meta && x != id ensures Carries(c, d, x) {
      assert MetaOk(c, x) && MetaOk(c, id);
      TakenCarries(c, d, id, x);
    }
  }

  /** `e` is `d` after the earlier copy `id` and its outstanding successor `s`
      changed places: `s` is marked acked under the acked number, `id` stands in
      for the number and length of `s`. */
  ghost predicate Swapped(c: Conn, d: Conn, e: Conn, id: Id, s: Id)
  {
    && Vacated(c, d, id) && s in c.meta && c.meta[id].hasRtx && c.meta[id].rtx == [s] && !c.meta[s].acked
    && c.meta[id].space == c.meta[s].space < SPACES
    && var m, ms := c.meta[id], c.meta[s];
    && e.meta == d.meta[id := m.(nr := ms.nr, udpLen := ms.udpLen)]
                       [s := ms.(nr := m.nr, udpLen := m.udpLen, acked := true)]
    && e.sp == d.sp[m.space := d.sp[m.space].(sent := d.sp[m.space].sent[ms.nr := id],
                                              sentNrs := d.sp[m.space].sentNrs + {ms.nr})]
    && e.inFlight == d.inFlight && e.aeInFlight == d.aeInFlight && e.clock == d.clock
  }

  /** What the invariant says about an earlier copy and its outstanding successor. */
  lemma SwapFacts(c: Conn, id: Id)
    requires Kept(c) && id in c.meta && c.meta[id].hasRtx && c.meta[id].rtx != [] && !c.meta[c.meta[id].rtx[0]].acked
    ensures var m := c.meta[id];
            var s := m.rtx[0];
            && m.rtx == [s] && s != id && Outstanding(c, s) && c.meta[s].space == m.space < SPACES
            && m.inFlight && m.ackEliciting && c.meta[s].inFlight && c.meta[s].ackEliciting && c.meta[s].strm
            && c.meta[s].nr in c.sp[m.space].sent && c.sp[m.space].sent[c.meta[s].nr] == s
            && c.meta[s].nr != m.nr && !c.meta[s].hasRtx && id in c.meta[s].rtx
  {
    assert MetaOk(c, id);
    assert MetaOk(c, c.meta[id].rtx[0]);
  }

  /** What the accounting needs to know about a swap: in `d`, nothing refers to
      `id`, and only the number of `s` refers to `s`. */
  ghost predicate SwapCore(d: Conn, e: Conn, id: Id, s: Id)
  {
    && |d.sp| == |e.sp| == SPACES && id in d.meta && s in d.meta && id != s
    && e.inFlight == d.inFlight && e.aeInFlight == d.aeInFlight
    && var m, ms := d.meta[id], d.meta[s];
    && m.space == ms.space < SPACES && m.inFlight && ms.inFlight && m.ackEliciting && ms.ackEliciting
    && ms.nr in d.sp[ms.space].sent && d.sp[ms.space].sent[ms.nr] == s
    && (forall p, n :: 0 <= p < SPACES && n in d.sp[p].sent ==>
          && d.sp[p].sent[n] in d.meta && d.sp[p].sent[n] != id
          && (d.sp[p].sent[n] == s ==> p == ms.space && n == ms.nr))
    && e.meta == d.meta[id := m.(nr := ms.nr, udpLen := ms.udpLen)]
                       [s := ms.(nr := m.nr, udpLen := m.udpLen, acked := true)]
    && (forall p :: 0 <= p < SPACES ==> e.sp[p].lgSent == d.sp[p].lgSent)
    && (forall p :: 0 <= p < SPACES ==>
          e.sp[p].sent == if p == m.space then d.sp[p].sent[ms.nr := id] else d.sp[p].sent)
  }

  lemma SwapCoreHolds(c: Conn, d: Conn, e: Conn, id: Id, s: Id)
    requires Kept(c) && Swapped(c, d, e, id, s)
    ensures SwapCore(d, e, id, s)
  {
    SwapFacts(c, id);
    SwapRefers(c, d, e, id, s);
    SwapSpaces(c, d, e, id, s);
  }

  lemma SwapSpaces(c: Conn, d: Conn, e: Conn, id: Id, s: Id)
    requires Swapped(c, d, e, id, s)
    ensures |e.sp| == SPACES && forall p :: 0 <= p < SPACES ==> e.sp[p].lgSent == d.sp[p].lgSent
    ensures forall p :: 0 <= p < SPACES ==>
      e.sp[p].sent == if p == c.meta[id].space then d.sp[p].sent[c.meta[s].nr := id] else d.sp[p].sent
  {
  }

  lemma SwapRefers(c: Conn, d: Conn, e: Conn, id: Id, s: Id)
    requires Swapped(c, d, e, id, s)
    ensures forall p, n :: 0 <= p < SPACES && n in d.sp[p].sent ==>
      && d.sp[p].sent[n] in d.meta && d.sp[p].sent[n] != id
      && (d.sp[p].sent[n] == s ==> p == c.meta[s].space && n == c.meta[s].nr)
  {
    forall p, n | 0 <= p < SPACES && n in d.sp[p].sent
      ensures && d.sp[p].sent[n] in d.meta && d.sp[p].sent[n] != id
              && (d.sp[p].sent[n] == s ==> p == c.meta[s].space && n == c.meta[s].nr)
    {
      assert SpaceOk(d, p);
    }
  }

  lemma SwapWeight(bytes: bool, d: Conn, e: Conn, id: Id, s: Id, p: nat, j: nat)
    requires SwapCore(d, e, id, s) && p < SPACES
    ensures Weight(bytes, d, p, j) == Weight(bytes, e, p, j)
  {
    if j in d.sp[p].sent && !(p == d.meta[s].space && j == d.meta[s].nr) {
      assert e.meta[d.sp[p].sent[j]] == d.meta[d.sp[p].sent[j]];
    }
  }

  lemma SwapBalanced(d: Conn, e: Conn, id: Id, s: Id)
    requires SwapCore(d, e, id, s) && Balanced(d)
    ensures Balanced(e)
  {
    forall bytes, p | 0 <= p < SPACES ensures SpaceTotal(bytes, d, p) == SpaceTotal(bytes, e, p) {
      if d.sp[p].lgSent >= 0 {
        forall j | 0 <= j < d.sp[p].lgSent + 1 ensures Weight(bytes, d, p, j) == Weight(bytes, e, p, j) {
          SwapWeight(bytes, d, e, id, s, p, j);
        }
        TotalSame(bytes, d, e, p, d.sp[p].lgSent + 1);
      }
    }
  }

  /** What is known of the two records that change places. */
  ghost predicate SwapPair(c: Conn, d: Conn, id: Id, s: Id)
  {
    && |c.sp| == |d.sp| == SPACES && id in c.meta && s in c.meta && id != s && c.meta[s].space < SPACES
    && Outstanding(c, id) && Outstanding(c, s) && MetaOk(c, id) && MetaOk(c, s)
    && c.meta[s].nr in d.sp[c.meta[s].space].sent && d.sp[c.meta[s].space].sent[c.meta[s].nr] == s
  }

  lemma SwapPairHolds(c: Conn, d: Conn, e: Conn, id: Id, s: Id)
    requires Kept(c) && Swapped(c, d, e, id, s)
    ensures SwapPair(c, d, id, s)
  {
    SwapFacts(c, id);
    assert MetaOk(c, id) && MetaOk(c, s) && Carries(c, d, s);
  }

  lemma SwapEntry(c: Conn, d: Conn, e: Conn, id: Id, s: Id, p: nat, n: nat)
    requires Swapped(c, d, e, id, s) && SwapPair(c, d, id, s) && p < SPACES && n in e.sp[p].sent
    ensures var x := e.sp[p].sent[n]; Outstanding(e, x) && e.meta[x].space == p && e.meta[x].nr == n
  {
    assert SpaceOk(d, p);
    if !(p == c.meta[s].space && n == c.meta[s].nr) {
      var x := d.sp[p].sent[n];
      assert x != id && x != s;
    }
  }

  lemma SwapNumbers(c: Conn, d: Conn, e: Conn, id: Id, s: Id, p: nat)
    requires Swapped(c, d, e, id, s) && SwapPair(c, d, id, s) && p < SPACES
    ensures e.sp[p].sentNrs == d.sp[p].sentNrs && e.sp[p].sent.Keys == d.sp[p].sent.Keys
    ensures e.sp[p] == d.sp[p].(sent := e.sp[p].sent)
  {
    assert SpaceOk(d, p);
    if p == c.meta[s].space { assert e.sp[p].sentNrs == d.sp[p].sentNrs; }
  }

  lemma SwapSpaceOk(c: Conn, d: Conn, e: Conn, id: Id, s: Id, p: nat)
    requires Swapped(c, d, e, id, s) && SwapPair(c, d, id, s) && p < SPACES
    ensures SpaceOk(e, p)
  {
    assert SpaceOk(d, p);
    SwapNumbers(c, d, e, id, s, p);
    forall n | n in e.sp[p].sent
      ensures Outstanding(e, e.sp[p].sent[n]) && e.meta[e.sp[p].sent[n]].space == p && e.meta[e.sp[p].sent[n]].nr == n
    {
      SwapEntry(c, d, e, id, s, p, n);
    }
  }

  lemma SwapRecord(c: Conn, d: Conn, e: Conn, id: Id, s: Id, x: Id)
    requires Swapped(c, d, e, id, s) && SwapPair(c, d, id, s) && x in c.meta && x != id && x != s && RecordOk(c, x)
    ensures x in e.meta && RecordOk(e, x)
  {
    assert Carries(c, d, x);
    var p := c.meta[x].space;
    SwapNumbers(c, d, e, id, s, p);
    assert e.meta[x] == c.meta[x];
    assert p == c.meta[s].space ==> e.sp[p].sent == d.sp[p].sent[c.meta[s].nr := id];
  }

  lemma SwapMetaOther(c: Conn, d: Conn, e: Conn, id: Id, s: Id, x: Id)
    requires Swapped(c, d, e, id, s) && SwapPair(c, d, id, s) && x in c.meta && x != id && x != s && MetaOk(c, x)
    ensures x in e.meta && MetaOk(e, x)
  {
    SwapRecord(c, d, e, id, s, x);
    SwapLinks(c, e, id, s, x);
  }

  /** The links of the other records survive the swap. */
  lemma SwapLinks(c: Conn, e: Conn, id: Id, s: Id, x: Id)
    requires x in c.meta && x != id && x != s && id in c.meta && s in c.meta && id != s && LinksOk(c, x) && LinksOk(c, s)
    requires c.meta[id].hasRtx && c.meta[id].rtx == [s] && !c.meta[s].hasRtx
    requires e.meta.Keys == c.meta.Keys && (forall y :: y in c.meta && y != id && y != s ==> e.meta[y] == c.meta[y])
    requires e.meta[s].acked && e.meta[s].space == c.meta[s].space && e.meta[s].rtx == c.meta[s].rtx && !e.meta[s].hasRtx
    requires e.meta[id].hasRtx && e.meta[id].rtx == [s]
    ensures LinksOk(e, x)
  {
    if c.meta[x].hasRtx {
      if c.meta[x].rtx != [] { assert LinkOk(c, x, c.meta[x].rtx[0]); }
    } else {
      forall o | o in c.meta[x].rtx ensures o in e.meta && e.meta[o].hasRtx && e.meta[o].rtx == [x] {
        assert o != s;
      }
    }
  }

  lemma SwapSelf(c: Conn, d: Conn, e: Conn, id: Id, s: Id)
    requires Swapped(c, d, e, id, s) && SwapPair(c, d, id, s)
    ensures MetaOk(e, id)
  {
    SwapNumbers(c, d, e, id, s, c.meta[id].space);
    assert LinkOk(c, id, s) && LinkOk(e, id, s);
  }

  lemma SwapSuccessor(c: Conn, d: Conn, e: Conn, id: Id, s: Id)
    requires Swapped(c, d, e, id, s) && SwapPair(c, d, id, s)
    ensures MetaOk(e, s)
  {
    SwapNumbers(c, d, e, id, s, c.meta[s].space);
    assert LinkOk(c, id, s) && e.meta[s].rtx == c.meta[s].rtx;
    forall o | o in c.meta[s].rtx ensures o in e.meta && e.meta[o].hasRtx && e.meta[o].rtx == [s] {
      assert o != s;
    }
  }

  lemma SwapKeeps(c: Conn, d: Conn, e: Conn, id: Id, s: Id)
    requires Kept(c) && Swapped(c, d, e, id, s) && Balanced(d)
    ensures Inv(e)
  {
    SwapCoreHolds(c, d, e, id, s);
    SwapBalanced(d, e, id, s);
    SwapPairHolds(c, d, e, id, s);
    forall p | 0 <= p < SPACES ensures SpaceOk(e, p) { SwapSpaceOk(c, d, e, id, s, p); }
    forall x | x in e.meta ensures MetaOk(e, x) {
      assert MetaOk(c, x);
      if x == id { SwapSelf(c, d, e, id, s); } else if x == s { SwapSuccessor(c, d, e, id, s); }
      else { SwapMetaOther(c, d, e, id, s, x); }
    }
  }

  lemma SwapWithSwaps(c: Conn, d: Conn, id: Id, s: Id)
    requires Vacated(c, d, id) && Known(d, id) && Known(d, s)
    requires c.meta[id].hasRtx && c.meta[id].rtx == [s] && !c.meta[s].acked && id != s
    requires c.meta[id].space == c.meta[s].space
    ensures Swapped(c, d, SwapWith(d, id, s), id, s)
  {
    var t, n := d.sp[c.meta[id].space], c.meta[s].nr;
    assert (t.sent - {n})[n := id] == t.sent[n := id] && t.sentNrs - {n} + {n} == t.sentNrs + {n};
  }

  lemma AckSwaps(c: Conn, d: Conn, id: Id)
    requires Kept(c) && Vacated(c, d, id) && Balanced(d) && Known(d, id) && HasPendingSuccessor(d, id)
    ensures Inv(SwapWith(d, id, d.meta[id].rtx[0]))
  {
    SwapFacts(c, id);
    var s := d.meta[id].rtx[0];
    SwapWithSwaps(c, d, id, s);
    SwapKeeps(c, d, SwapWith(d, id, s), id, s);
  }

  /** Marks on a record do not matter for unlinking and freeing it. */
  lemma UnlinkMarked(c: Conn, d: Conn, id: Id, m: Meta)
    requires id in c.meta && d.meta == c.meta[id := m]
    requires m == c.meta[id].(acked := m.acked, lost := m.lost)
    requires m.hasRtx && m.rtx != [] ==> m.rtx[0] != id
    ensures Unlink(d, id) - {id} == Unlink(c, id) - {id}
  {
  }

  lemma AckFrees(c: Conn, d: Conn, id: Id)
    requires Kept(c) && Vacated(c, d, id) && Balanced(d) && Known(d, id)
    ensures Inv(FreeIov(d.(meta := d.meta[id := d.meta[id].(acked := true)]), id))
  {
    assert MetaOk(c, id);
    var c2 := d.(meta := d.meta[id := d.meta[id].(acked := true)]);
    UnlinkMarked(c, c2, id, c2.meta[id]);
    ForgetKeeps(c, d, d.(meta := Unlink(c, id) - {id}), id);
    assert FreeIov(c2, id) == d.(meta := Unlink(c, id) - {id});
  }

  lemma AckMarks(c: Conn, d: Conn, id: Id)
    requires Kept(c) && Vacated(c, d, id) && Balanced(d) && !d.meta[id].hasRtx
    ensures Inv(d.(meta := d.meta[id := d.meta[id].(acked := true)]))
  {
    MarkKeeps(c, d, d.(meta := d.meta[id := d.meta[id].(acked := true)]), id);
  }

  /** on_pkt_acked keeps the invariant, in particular through the swap of numbers
      and lengths with a later copy. */
  lemma AckKeeps(c: Conn, id: Id)
    requires Inv(c) && Outstanding(c, id)
    ensures Known(c, id) && Inv(OnPktAcked(c, id))
  {
    assert MetaOk(c, id);
    SettleForgets(c, id);
    var d := Settle(c, id, c.meta[id].inFlight);
    assert Known(d, id);
    if HasPendingSuccessor(d, id) {
      AckSwaps(c, d, id);
    } else if d.meta[id].strm && !d.meta[id].hasRtx {
      AckMarks(c, d, id);
    } else {
      AckFrees(c, d, id);
    }
  }

  lemma SettleMeta(c: Conn, id: Id, counted: bool)
    requires Known(c, id)
    ensures Settle(c, id, counted).meta == c.meta && Known(Settle(c, id, counted), id)
  {
  }

  lemma AckLeaves(d: Conn, id: Id, s: Id)
    requires Known(d, id) && d.meta[id].hasRtx && d.meta[id].rtx == [s] && LinkOk(d, id, s) && d.meta[s].acked
    requires d.meta[id].acked
    ensures var e := FreeIov(d, id); id !in e.meta && s in e.meta && e.meta[s].acked
  {
  }

  /** An acknowledgement of any copy reaches the record that the stream holds: the latest
      copy is then marked acked, and every other acknowledged record is freed. */
  lemma AckReaches(c: Conn, id: Id)
    requires Inv(c) && Outstanding(c, id)
    ensures Known(c, id)
    ensures var m, d := c.meta[id], OnPktAcked(c, id);
            if m.hasRtx && m.rtx != [] then
              && m.rtx[0] in c.meta && m.rtx[0] in d.meta && d.meta[m.rtx[0]].acked
              && (if c.meta[m.rtx[0]].acked then id !in d.meta
                  else id in d.meta && d.meta[id].nr == c.meta[m.rtx[0]].nr)
            else if m.strm && !m.hasRtx then id in d.meta && d.meta[id].acked
            else id !in d.meta
  {
    assert MetaOk(c, id);
    var m := c.meta[id];
    var d := Settle(c, id, m.inFlight);
    SettleMeta(c, id, m.inFlight);
    if m.hasRtx && m.rtx != [] && c.meta[m.rtx[0]].acked {
      AckLeaves(d.(meta := d.meta[id := m.(acked := true)]), id, m.rtx[0]);
    }
  }
}
