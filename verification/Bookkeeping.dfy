/** The connection's packet books as an object that is updated in place, statement
    by statement like the C functions.  Every method is proved against the
    transition of the same name. */
module Bookkeeping {
  import opened Recovery
  import opened Balance
  import opened Losing
  import opened Runs
  import opened Ivals
  import opened LossDetection
  import opened RemoveRange

  /** The records linked to `id` are in the table. */
  ghost predicate LinksIn(c: Conn, id: Id)
  {
    && id in c.meta
    && (c.meta[id].hasRtx && c.meta[id].rtx != [] ==> c.meta[id].rtx[0] in c.meta)
    && (!c.meta[id].hasRtx ==> forall x :: x in c.meta[id].rtx ==> x in c.meta)
  }

  lemma KeptLinksIn(c: Conn, id: Id)
    requires Kept(c) && id in c.meta
    ensures Known(c, id) && LinksIn(c, id)
  {
    assert MetaOk(c, id);
  }

  /** `m` is `m0` with stream and links of the records `ids` cleared. */
  ghost predicate Released(m0: map<Id, Meta>, m: map<Id, Meta>, ids: seq<Id>)
  {
    && m.Keys == m0.Keys
    && forall x :: x in m0 ==> m[x] == if x in ids then m0[x].(strm := false, rtx := []) else m0[x]
  }

  lemma ReleasedMore(m0: map<Id, Meta>, m: map<Id, Meta>, ids: seq<Id>, x: Id)
    requires Released(m0, m, ids) && x in m0
    ensures Released(m0, m[x := m[x].(strm := false, rtx := [])], ids + [x])
  {
  }

  lemma ReleasedAll(c: Conn, id: Id, m: map<Id, Meta>)
    requires id in c.meta && !c.meta[id].hasRtx && c.meta[id].rtx != [] && Released(c.meta, m, c.meta[id].rtx)
    ensures m == Unlink(c, id)
  {
  }

  // ----- the loss pass as a fold over the numbers

  /** The rounds `f` for the numbers below `n`, one after another. */
  ghost function Fold(f: (Conn, nat) -> Conn, c: Conn, n: nat): (r: Conn)
  {
    if n == 0 then c else f(Fold(f, c, n - 1), n - 1)
  }

  /** `f` does what the second loop of detect_lost_pkts does for one number. */
  ghost predicate Rounds(f: (Conn, nat) -> Conn, p: nat, lost: set<nat>)
  {
    forall d: Conn, k: nat {:trigger LoseOne(d, p, lost, k)} :: f(d, k) == LoseOne(d, p, lost, k)
  }

  /** `all` are the numbers that a pass over `c` loses, `f` its rounds. */
  ghost predicate Passing(c: Conn, p: nat, lostSendT: int, all: set<nat>, f: (Conn, nat) -> Conn)
  {
    Inv(c) && p < SPACES && all == LostSet(c, p, lostSendT) && Rounds(f, p, all)
  }

  lemma {:induction false} FoldIs(f: (Conn, nat) -> Conn, c: Conn, p: nat, lost: set<nat>, n: nat)
    requires Rounds(f, p, lost)
    ensures Fold(f, c, n) == LoseUpTo(c, p, lost, n)
  {
    if n > 0 {
      FoldIs(f, c, p, lost, n - 1);
      RoundIs(f, p, lost, Fold(f, c, n - 1), n - 1);
    }
  }

  lemma RoundIs(f: (Conn, nat) -> Conn, p: nat, lost: set<nat>, d: Conn, k: nat)
    requires Rounds(f, p, lost)
    ensures f(d, k) == LoseOne(d, p, lost, k) && (k !in lost ==> f(d, k) == d)
  {
  }

  /** Rounds for numbers that are not lost change nothing. */
  lemma {:induction false} FoldSkip(f: (Conn, nat) -> Conn, c: Conn, p: nat, lost: set<nat>, a: nat, b: nat)
    requires a <= b && (forall n :: a <= n < b ==> n !in lost) && Rounds(f, p, lost)
    ensures Fold(f, c, b) == Fold(f, c, a)
  {
    if a < b {
      FoldSkip(f, c, p, lost, a, b - 1);
      RoundIs(f, p, lost, Fold(f, c, b - 1), b - 1);
    }
  }

  lemma BetweenListed(lost: seq<nat>, i: nat, all: set<nat>)
    requires Ascending(lost) && i < |lost| && forall n :: n in lost <==> n in all
    ensures var bound := if i > 0 then lost[i - 1] + 1 else 0;
            lost[i] in all && bound <= lost[i] && forall n :: bound <= n < lost[i] ==> n !in all
  {
    assert lost[i] in lost;
    forall n | n in all ensures n >= lost[i] || (i > 0 && n <= lost[i - 1]) {
      var j :| 0 <= j < |lost| && lost[j] == n;
    }
  }

  lemma AfterListed(c: Conn, p: nat, lost: seq<nat>, lostSendT: int, bound: nat)
    requires p < |c.sp| && Ascending(lost) && forall n :: n in lost <==> n in LostSet(c, p, lostSendT)
    requires bound == if |lost| > 0 then lost[|lost| - 1] + 1 else 0
    requires c.sp[p].lgSent >= -1 && forall n :: n in c.sp[p].sent ==> n <= c.sp[p].lgSent
    ensures bound <= c.sp[p].lgSent + 1 && forall n :: bound <= n ==> n !in LostSet(c, p, lostSendT)
  {
    if |lost| > 0 { assert lost[|lost| - 1] in lost; }
    forall n | n in LostSet(c, p, lostSendT) ensures n < bound {
      var j :| 0 <= j < |lost| && lost[j] == n;
    }
  }

  lemma SentWithin(c: Conn, p: nat)
    requires Kept(c) && p < SPACES
    ensures c.sp[p].lgSent >= -1 && forall n :: n in c.sp[p].sent ==> n <= c.sp[p].lgSent
  {
    assert SpaceOk(c, p);
  }

  /** A lost number is still outstanding when its round comes. */
  lemma TrackSent(c: Conn, p: nat, lostSendT: int, d: Conn, n: nat)
    requires OnTrack(c, p, lostSendT, d, n) && n in LostSet(c, p, lostSendT)
    ensures p < |d.sp| && n in d.sp[p].sent && Known(d, d.sp[p].sent[n]) && Outstanding(d, d.sp[p].sent[n])
  {
    assert SpaceOk(d, p);
  }

  /** After the last lost number the pass is complete. */
  lemma PassDone(c: Conn, p: nat, lost: seq<nat>, lostSendT: int, bound: nat, f: (Conn, nat) -> Conn)
    requires Inv(c) && p < SPACES && Ascending(lost) && forall n :: n in lost <==> n in LostSet(c, p, lostSendT)
    requires bound == if |lost| > 0 then lost[|lost| - 1] + 1 else 0
    requires Rounds(f, p, LostSet(c, p, lostSendT))
    ensures Fold(f, c, bound) == LossPass(c, p, lostSendT)
  {
    SentWithin(c, p);
    AfterListed(c, p, lost, lostSendT, bound);
    FoldSkip(f, c, p, LostSet(c, p, lostSendT), bound, c.sp[p].lgSent + 1);
    FoldIs(f, c, p, LostSet(c, p, lostSendT), c.sp[p].lgSent + 1);
  }

  ghost predicate Greatest(all: set<nat>, n: nat)
  {
    n in all && forall m :: m in all ==> m <= n
  }

  /** The last number listed is the greatest lost one. */
  lemma LastLost(c: Conn, p: nat, lost: seq<nat>, all: set<nat>, t: nat)
    requires Ascending(lost) && (forall n :: n in lost <==> n in all) && p < |c.sp|
    requires LastSent(c, p, lost, t)
    ensures all != {} ==> exists n :: Greatest(all, n) && t == SentAt(c, p, n)
  {
    if all != {} {
      var x :| x in all;
      assert x in lost;
      var n := lost[|lost| - 1];
      assert n in lost;
      forall m | m in all ensures m <= n { var j :| 0 <= j < |lost| && lost[j] == m; }
      assert Greatest(all, n);
    }
  }

  /** find_sent_pkt */
  function Lookup(c: Conn, p: nat, n: nat): (r: Option<Id>)
    requires p < |c.sp|
  {
    if n in c.sp[p].sent then Some(c.sp[p].sent[n]) else None
  }

  /** sent_pkts has the keys that sent_pkt_nrs lists, each leading to a record of the space
      with that number. */
  ghost predicate InStep(c: Conn, p: nat)
    requires p < |c.sp|
  {
    && c.sp[p].sent.Keys == c.sp[p].sentNrs
    && forall n :: n in c.sp[p].sent ==>
         var id := c.sp[p].sent[n]; id in c.meta && c.meta[id].nr == n && c.meta[id].space == p
  }

  /** pm_by_nr_ins keeps the two tables in step, and find_sent_pkt then finds the record
      under its number and everything else as before. */
  lemma InsertInStep(c: Conn, id: Id, q: nat, n: nat)
    requires Known(c, id) && q < SPACES
    ensures var d := PmByNrIns(c, id);
            && (InStep(c, q) ==> InStep(d, q))
            && Lookup(d, q, n) == if q == c.meta[id].space && n == c.meta[id].nr then Some(id) else Lookup(c, q, n)
  {
    if InStep(c, q) && q == c.meta[id].space {
      assert PmByNrIns(c, id).sp[q].sent.Keys == c.sp[q].sent.Keys + {c.meta[id].nr};
    }
  }

  /** pm_by_nr_del keeps them in step, and find_sent_pkt then finds nothing under the number
      and everything else as before. */
  lemma DeleteInStep(c: Conn, id: Id, q: nat, n: nat)
    requires Known(c, id) && q < SPACES
    ensures var d := PmByNrDel(c, id);
            && (InStep(c, q) ==> InStep(d, q))
            && Lookup(d, q, n) == if q == c.meta[id].space && n == c.meta[id].nr then None else Lookup(c, q, n)
  {
    if InStep(c, q) && q == c.meta[id].space {
      assert PmByNrDel(c, id).sp[q].sent.Keys == c.sp[q].sent.Keys - {c.meta[id].nr};
    }
  }

  /** Deleting undoes inserting under a new number. */
  lemma DeleteUndoes(c: Conn, id: Id)
    requires Known(c, id) && InStep(c, c.meta[id].space) && Lookup(c, c.meta[id].space, c.meta[id].nr) == None
    ensures PmByNrDel(PmByNrIns(c, id), id) == c
  {
    var p, nr := c.meta[id].space, c.meta[id].nr;
    var s := c.sp[p];
    assert s.sent[nr := id] - {nr} == s.sent && s.sentNrs + {nr} - {nr} == s.sentNrs;
    assert c.sp[p := s] == c.sp;
  }

  function Exchanged(meta: map<Id, Meta>, id: Id, s: Id): (r: map<Id, Meta>)
    requires id in meta && s in meta
    ensures r.Keys == meta.Keys
  {
    var m, ms := meta[id], meta[s];
    meta[id := m.(nr := ms.nr, udpLen := ms.udpLen)][s := ms.(nr := m.nr, udpLen := m.udpLen)]
  }

  /** Marking the successor acked after the tables have been updated, or before, comes to
      the same. */
  lemma StandInIs(c: Conn, id: Id, s: Id, swapped: map<Id, Meta>, d: Conn)
    requires Known(c, id) && Known(c, s) && id != s && swapped == Exchanged(c.meta, id, s)
    requires d.meta == swapped[s := swapped[s].(acked := true)]
    requires d == PmByNrIns(PmByNrDel(c, s).(meta := swapped), id).(meta := d.meta)
    ensures d == SwapWith(c, id, s)
  {
    MarkedAfter(c.meta, id, s, swapped);
  }

  lemma MarkedAfter(meta: map<Id, Meta>, id: Id, s: Id, swapped: map<Id, Meta>)
    requires id in meta && s in meta && id != s && swapped == Exchanged(meta, id, s)
    ensures var m, ms := meta[id], meta[s];
            swapped[s := swapped[s].(acked := true)] ==
            meta[id := m.(nr := ms.nr, udpLen := ms.udpLen)][s := ms.(nr := m.nr, udpLen := m.udpLen, acked := true)]
  {
    var m, ms := meta[id], meta[s];
    UpdateTwice(meta[id := m.(nr := ms.nr, udpLen := ms.udpLen)], s, ms.(nr := m.nr, udpLen := m.udpLen),
                ms.(nr := m.nr, udpLen := m.udpLen, acked := true));
  }

  lemma UpdateTwice(meta: map<Id, Meta>, s: Id, a: Meta, b: Meta)
    ensures meta[s := a][s := b] == meta[s := b] && meta[s := a][s] == a
  {
  }

  class Books {
    var meta: map<Id, Meta>
    var sp: seq<Space>
    var inFlight: nat
    var aeInFlight: nat
    var clock: nat

    function State(): (c: Conn)
      reads this
    {
      Conn(meta, sp, inFlight, aeInFlight, clock)
    }

    constructor ()
      ensures State() == NEW_CONN && Inv(State())
    {
      meta, sp, inFlight, aeInFlight, clock := map[], [NEW_SPACE, NEW_SPACE, NEW_SPACE], 0, 0, 0;
      new;
      NewConnKept();
    }

    /** pm_by_nr_del */
    method PmByNrDel(id: Id)
      requires Known(State(), id)
      modifies this`sp
      ensures State() == Recovery.PmByNrDel(old(State()), id)
    {
      var m := meta[id];
      var s := sp[m.space];
      sp := sp[m.space := s.(sent := s.sent - {m.nr}, sentNrs := s.sentNrs - {m.nr})];
    }

    /** pm_by_nr_ins */
    method PmByNrIns(id: Id)
      requires Known(State(), id)
      modifies this`sp
      ensures State() == Recovery.PmByNrIns(old(State()), id)
    {
      var m := meta[id];
      var s := sp[m.space];
      sp := sp[m.space := s.(sent := s.sent[m.nr := id], sentNrs := s.sentNrs + {m.nr})];
    }

    /** remove_from_in_flight: the checked underrun is a precondition here, so every
        caller is proved never to trip it. */
    method RemoveFromInFlight(id: Id)
      requires Known(State(), id)
      requires inFlight >= PaddedLen(meta[id]) && (meta[id].ackEliciting ==> aeInFlight > 0)
      modifies this`inFlight, this`aeInFlight
      ensures State() == Recovery.RemoveFromInFlight(old(State()), id)
    {
      inFlight := inFlight - PaddedLen(meta[id]);
      if meta[id].ackEliciting {
        aeInFlight := aeInFlight - 1;
      }
    }

    /** on_pkt_lost */
    method OnPktLost(id: Id, isLost: bool)
      requires Inv(State()) && Outstanding(State(), id)
      modifies this
      ensures Known(old(State()), id) && State() == Recovery.OnPktLost(old(State()), id, isLost)
    {
      assert MetaOk(State(), id);
      NoUnderrun(State(), id);
      if meta[id].inFlight {
        RemoveFromInFlight(id);
      }
      var m := meta[id];
      sp := sp[m.space := sp[m.space].(resolved := sp[m.space].resolved + {m.nr})];
      PmByNrDel(id);
      if isLost {
        meta := meta[id := meta[id].(lost := true)];
      }
    }

    /** on_pkt_sent, with the number that enc_pkt assigns. */
    method OnPktSent(id: Id, now: nat, len: nat)
      requires Known(State(), id) && sp[meta[id].space].lgSent >= -1
      modifies this
      ensures State() == Recovery.OnPktSent(old(State()), id, now, len)
    {
      var p := meta[id].space;
      sp := sp[p := sp[p].(lgSent := sp[p].lgSent + 1)];
      meta := meta[id := meta[id].(nr := sp[p].lgSent, t := now, udpLen := len, lost := false)];
      clock := now;
      PmByNrIns(id);
      if meta[id].inFlight {
        if meta[id].ackEliciting {
          aeInFlight := aeInFlight + 1;
        }
        inFlight := inFlight + PaddedLen(meta[id]);
      }
    }

    /** The loop of free_iov that releases the earlier copies of the latest one. */
    method ReleaseCopies(id: Id)
      requires id in meta && !meta[id].hasRtx && meta[id].rtx != []
      requires forall x :: x in meta[id].rtx ==> x in meta
      modifies this`meta
      ensures meta == Unlink(old(State()), id)
    {
      ghost var c := State();
      var copies := meta[id].rtx;
      var i := 0;
      while i < |copies|
        invariant 0 <= i <= |copies| && Released(c.meta, meta, copies[..i])
      {
        var x := copies[i];
        assert x in copies && copies[..i + 1] == copies[..i] + [x];
        ReleasedMore(c.meta, meta, copies[..i], x);
        meta := meta[x := meta[x].(strm := false, rtx := [])];
        i := i + 1;
      }
      assert copies[..i] == copies;
      ReleasedAll(c, id, meta);
    }

    /** The part of free_iov that follows the accounting. */
    method FreeSettled(id: Id)
      requires LinksIn(State(), id)
      modifies this`meta
      ensures meta == Unlink(old(State()), id) - {id}
    {
      var m := meta[id];
      if m.rtx != [] {
        if m.hasRtx {
          var s := m.rtx[0];
          meta := meta[s := meta[s].(rtx := Drop(meta[s].rtx, id))];
        } else {
          ReleaseCopies(id);
        }
      }
      meta := meta - {id};
    }

    /** free_iov of a transmitted packet. */
    method FreeIov(id: Id)
      requires Known(State(), id) && LinksIn(State(), id)
      requires Inv(State()) || meta[id].acked || meta[id].lost
      modifies this
      ensures State() == Recovery.FreeIov(old(State()), id)
      ensures old(Inv(State())) ==> Inv(State())
    {
      ghost var c := State();
      if !meta[id].acked && !meta[id].lost && !sp[meta[id].space].abandoned {
        OnPktLost(id, false);
      }
      FreeSettled(id);
      if Inv(c) { FreeKeeps(c, id); }
    }

    /** What on_pkt_acked does before it looks at retransmissions. */
    method SettleAcked(id: Id)
      requires Inv(State()) && Outstanding(State(), id)
      modifies this`sp, this`inFlight, this`aeInFlight
      ensures Known(old(State()), id) && State() == Settle(old(State()), id, meta[id].inFlight)
    {
      assert MetaOk(State(), id);
      NoUnderrun(State(), id);
      if meta[id].inFlight && !meta[id].lost {
        RemoveFromInFlight(id);
      }
      var m := meta[id];
      sp := sp[m.space := sp[m.space].(resolved := sp[m.space].resolved + {m.nr})];
      PmByNrDel(id);
    }

    /** The acked earlier copy `id` takes over number and length of its successor
        `s`, which is marked acked in its place. */
    method StandIn(id: Id, s: Id)
      requires Known(State(), id) && Known(State(), s) && id != s
      modifies this`sp, this`meta
      ensures State() == SwapWith(old(State()), id, s)
    {
      ghost var c := State();
      PmByNrDel(s);
      Exchange(id, s);
      ghost var swapped := meta;
      PmByNrIns(id);
      meta := meta[s := meta[s].(acked := true)];
      StandInIs(c, id, s, swapped, State());
    }

    /** Number and length of two records change places. */
    method Exchange(id: Id, s: Id)
      requires id in meta && s in meta && id != s
      modifies this`meta
      ensures meta == Exchanged(old(meta), id, s)
    {
      var ackedNr, ackedLen := meta[id].nr, meta[id].udpLen;
      meta := meta[id := meta[id].(nr := meta[s].nr, udpLen := meta[s].udpLen)];
      meta := meta[s := meta[s].(nr := ackedNr, udpLen := ackedLen)];
    }

    /** on_pkt_acked, without the walk along the stream's queue. */
    method OnPktAcked(id: Id)
      requires Inv(State()) && Outstanding(State(), id)
      modifies this
      ensures Known(old(State()), id) && State() == Recovery.OnPktAcked(old(State()), id)
      ensures Inv(State())
    {
      ghost var c := State();
      AckKeeps(c, id);
      assert MetaOk(c, id);
      SettleAcked(id);
      ghost var d := State();
      var m := meta[id];
      if m.hasRtx && m.rtx != [] && !meta[m.rtx[0]].acked {
        assert HasPendingSuccessor(d, id);
        StandIn(id, m.rtx[0]);
      } else {
        meta := meta[id := m.(acked := true)];
        if !(m.strm && !m.hasRtx) {
          FreeIov(id);
        }
      }
    }

    /** on_ack_received_1, as far as the books are concerned. */
    method RaiseLgAcked(p: nat, nr: nat)
      requires p < |sp|
      modifies this`sp
      ensures State() == Runs.RaiseLgAcked(old(State()), p, nr)
    {
      if sp[p].lgAcked < nr {
        sp := sp[p := sp[p].(lgAcked := nr)];
      }
    }

    /** rtx_pkt */
    method RtxPkt(id: Id, orig: Id)
      requires Kept(State()) && id in meta && !meta[id].acked && orig !in meta
      modifies this`meta, this`sp
      ensures Known(old(State()), id) && State() == Recovery.RtxPkt(old(State()), id, orig)
    {
      assert MetaOk(State(), id);
      if meta[id].lost {
        return;
      }
      meta := meta[orig := meta[id].(hasRtx := true, rtx := [id])];
      PmByNrDel(id);
      meta := meta[id := meta[id].(rtx := [orig] + meta[id].rtx)];
      PmByNrIns(orig);
    }

    /** One round of the second loop of detect_lost_pkts. */
    method LoseNr(p: nat, n: nat)
      requires Inv(State()) && p < SPACES && n in sp[p].sent && Known(State(), sp[p].sent[n])
      requires Outstanding(State(), sp[p].sent[n])
      modifies this
      ensures State() == Lose(old(State()), old(sp[p].sent[n]))
    {
      var id := sp[p].sent[n];
      KeptLinksIn(State(), id);
      OnPktLost(id, true);
      if !meta[id].strm || meta[id].hasRtx {
        FreeIov(id);
      }
    }

    /** From the state of the pass before number `bound` to the one after the next
        lost number `n`. */
    method LoseNext(p: nat, n: nat, ghost c: Conn, ghost lostSendT: int, ghost all: set<nat>,
                    ghost f: (Conn, nat) -> Conn, ghost bound: nat)
      requires Passing(c, p, lostSendT, all, f) && n in all && bound <= n && (forall k :: bound <= k < n ==> k !in all)
      requires State() == Fold(f, c, bound)
      modifies this
      ensures State() == Fold(f, c, n + 1)
    {
      ghost var d := State();
      FoldSkip(f, c, p, all, bound, n);
      FoldIs(f, c, p, all, n);
      LoseUpToTrack(c, p, lostSendT, n);
      TrackSent(c, p, lostSendT, d, n);
      LoseNr(p, n);
      assert State() == LoseOne(d, p, all, n);
    }

    /** The second loop of detect_lost_pkts, with the rounds as a function. */
    method LoseEach(p: nat, lost: seq<nat>, ghost c: Conn, ghost lostSendT: int, ghost all: set<nat>,
                    ghost f: (Conn, nat) -> Conn)
      returns (ghost bound: nat)
      requires State() == c && Passing(c, p, lostSendT, all, f) && Ascending(lost) && forall n :: n in lost <==> n in all
      modifies this
      ensures bound == (if |lost| > 0 then lost[|lost| - 1] + 1 else 0) && State() == Fold(f, c, bound)
    {
      bound := 0;
      var i := 0;
      while i < |lost|
        invariant 0 <= i <= |lost| && bound == if i > 0 then lost[i - 1] + 1 else 0
        invariant State() == Fold(f, c, bound)
      {
        BetweenListed(lost, i, all);
        LoseNext(p, lost[i], c, lostSendT, all, f, bound);
        bound, i := lost[i] + 1, i + 1;
      }
    }

    /** The second loop of detect_lost_pkts. */
    method LoseListed(p: nat, lost: seq<nat>, ghost lostSendT: int)
      requires Inv(State()) && p < SPACES && Ascending(lost)
      requires forall n :: n in lost <==> n in LostSet(State(), p, lostSendT)
      modifies this
      ensures State() == LossPass(old(State()), p, lostSendT)
    {
      ghost var c := State();
      ghost var all := LostSet(c, p, lostSendT);
      ghost var f := (d: Conn, k: nat) => LoseOne(d, p, all, k);
      ghost var bound := LoseEach(p, lost, c, lostSendT, all, f);
      PassDone(c, p, lost, lostSendT, bound, f);
    }

    /** detect_lost_pkts, given the intervals that the walk over sent_pkt_nrs lists. */
    method DetectLostPkts(p: nat, ivals: seq<Iv>, now: nat, latestRtt: nat, srtt: nat)
      returns (lossT: nat, lgLostTxT: nat, inFlightLost: bool)
      requires Inv(State()) && p < SPACES && AckedOk(State(), p) && !sp[p].abandoned
      requires sp[p].lgAcked >= -1 && sp[p].lgSent < PKT_NR_LIMIT
      requires Canonical(ivals) && forall n: int :: Has(ivals, n) <==> n in sp[p].sentNrs
      modifies this
      ensures State() == LossPass(old(State()), p, LostSendT(now, LossDelay(latestRtt, srtt))) && Inv(State())
      ensures var lossDel := LossDelay(latestRtt, srtt);
              Earliest(old(State()), p, LostSendT(now, lossDel), lossDel, UINT_T_MAX, lossT)
      ensures var all := LostSet(old(State()), p, LostSendT(now, LossDelay(latestRtt, srtt)));
              && (inFlightLost <==> exists n :: n in all && InFlight(old(State()), p, n))
              && (all != {} ==> exists n :: Greatest(all, n) && lgLostTxT == SentAt(old(State()), p, n))
    {
      ghost var c := State();
      InvReadable(c, p);
      var lossDel := LossDelay(latestRtt, srtt);
      var lost;
      lost, lossT, lgLostTxT, inFlightLost := FindLost(State(), p, ivals, now, lossDel);
      LastLost(c, p, lost, LostSet(c, p, LostSendT(now, lossDel)), lgLostTxT);
      assert AnyInFlight(c, p, lost) <==> exists n :: n in LostSet(c, p, LostSendT(now, lossDel)) && InFlight(c, p, n);
      LoseListed(p, lost, LostSendT(now, lossDel));
      LossPassExact(c, p, LostSendT(now, lossDel));
    }

    /** abandon_pn */
    method AbandonPn(p: nat, order: seq<Id>)
      requires Inv(State()) && p < PN_DATA && Lists(State(), p, order)
      modifies this
      ensures State() == Runs.AbandonPn(old(State()), p, order) && Inv(State())
    {
      AbandonKeeps(State(), p, order);
      ghost var c := State();
      var i := 0;
      while i < |order|
        invariant 0 <= i <= |order| && Inv(State()) && Lists(State(), p, order[i..])
        invariant FreeAll(State(), order[i..]) == FreeAll(c, order)
      {
        assert order[i..][0] == order[i] && order[i..][1..] == order[i + 1..];
        assert order[i] in order[i..];
        KeptLinksIn(State(), order[i]);
        FreeLists(State(), p, order[i..]);
        FreeIov(order[i]);
        i := i + 1;
      }
      sp := sp[p := sp[p].(sent := map[], sentNrs := {}, resolved := {}, abandoned := true)];
    }
  }
}
