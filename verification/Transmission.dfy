/** The sending half of a stream as an object that is updated in place, and the loop
    of tx_stream in lib/src/conn.c. */
module Transmission {
  import opened Streams
  import opened StreamSender

  /** A call of tx_stream: the first `k'` chunks have then been transmitted; the
      frames sent are those of such chunks at their own offsets; no chunk was passed
      over. */
  ghost predicate TxStep(s: Sender, k: nat, s': Sender, k': nat, frames: seq<Frame>)
  {
    && k <= k' && Sent(s', k') && SameContent(s'.chunks, s.chunks)
    && (forall f :: f in frames ==> exists i :: 0 <= i < k' && f == FrameOf(s'.chunks[i]))
    && (forall i :: k <= i < k' ==> FrameOf(s'.chunks[i]) in frames)
  }

  lemma NoStep(s: Sender, k: nat)
    requires Sent(s, k)
    ensures TxStep(s, k, s, k, [])
  {
  }

  lemma FrameStays(s: Sender, k: nat, i: nat, j: nat)
    requires Sent(s, k) && i <= k && i < |s.chunks| && j < k
    ensures FrameOf(Transmit(s, i).chunks[j]) == FrameOf(s.chunks[j])
  {
  }

  /** Transmitting one more chunk. */
  lemma MoreStep(s: Sender, k: nat, m: Sender, km: nat, frames: seq<Frame>, i: nat)
    requires TxStep(s, k, m, km, frames) && i <= km && i < |m.chunks|
    ensures var s' := Transmit(m, i);
            TxStep(s, k, s', if i == km then km + 1 else km, frames + [FrameOf(s'.chunks[i])])
  {
    var s', k' := Transmit(m, i), if i == km then km + 1 else km;
    var fs := frames + [FrameOf(s'.chunks[i])];
    TransmitKeeps(m, km, i);
    SameContentTrans(s'.chunks, m.chunks, s.chunks);
    forall f | f in fs ensures exists j :: 0 <= j < k' && f == FrameOf(s'.chunks[j]) {
      if f in frames {
        var j :| 0 <= j < km && f == FrameOf(m.chunks[j]);
        FrameStays(m, km, i, j);
      }
    }
    forall j | k <= j < k' ensures FrameOf(s'.chunks[j]) in fs {
      if j < km { FrameStays(m, km, i, j); }
    }
  }

  lemma SameContentTrans(a: seq<Chunk>, b: seq<Chunk>, c: seq<Chunk>)
    requires SameContent(a, b) && SameContent(b, c)
    ensures SameContent(a, c)
  {
  }

  /** The walk can start at out_una or behind out_last: everything before has been
      transmitted. */
  lemma StartsWithin(s: Sender, k: nat)
    requires Sent(s, k)
    ensures s.una <= k && s.last + 1 <= k
  {
    if s.una > 0 { assert s.chunks[s.una - 1].acked; }
  }

  // ----- exactly what goes out

  /** A chunk that a call of tx_stream sends when it comes to it: one that is not acked and
      has not been transmitted, is lost, or is among those to be sent again as a probe. */
  predicate Due(c: Chunk, txLimit: nat)
  {
    !c.acked && (!c.txed || c.lost || txLimit > 0)
  }

  /** The chunks due from `a` up to `b`, in order. */
  ghost function Picks(chunks: seq<Chunk>, txLimit: nat, a: nat, b: nat): (r: seq<nat>)
    requires a <= b <= |chunks|
    ensures forall i :: i in r <==> a <= i < b && Due(chunks[i], txLimit)
    decreases b
  {
    if a == b then [] else Picks(chunks, txLimit, a, b - 1) + if Due(chunks[b - 1], txLimit) then [b - 1] else []
  }

  /** They are transmitted one after another. */
  ghost function TransmitAll(s: Sender, picks: seq<nat>): (r: Sender)
    requires forall i :: i in picks ==> i < |s.chunks|
    ensures |r.chunks| == |s.chunks|
    decreases |picks|
  {
    if picks == [] then s
    else
      var n := |picks| - 1;
      assert picks[n] in picks && forall i :: i in picks[..n] ==> i in picks;
      Transmit(TransmitAll(s, picks[..n]), picks[n])
  }

  /** What the call is given to go by. */
  datatype Limits = Limits(crypto: bool, txLimit: nat, limited: bool, maxData: nat, hasWnd: nat -> bool, closing: nat -> bool)

  /** The frames are those of the chunks `picks`. */
  ghost predicate FramesOf(frames: seq<Frame>, chunks: seq<Chunk>, picks: seq<nat>)
  {
    |frames| == |picks| && forall j :: 0 <= j < |picks| ==> picks[j] < |chunks| && frames[j] == FrameOf(chunks[picks[j]])
  }

  /** At most sixteen, and no more probes than wanted; with room in the window, and within the
      peer's limit; and the connection was open until the last one. */
  ghost predicate Within(l: Limits, start: nat, v: nat, picks: seq<nat>, frames: seq<Frame>)
  {
    && |picks| <= 16 && (l.txLimit > 0 ==> |picks| <= l.txLimit)
    && (forall i :: start <= i < v ==> l.hasWnd(i) || l.txLimit > 0)
    && (l.limited && !l.crypto ==> forall f :: f in frames ==> f.off + |f.data| <= l.maxData)
    && (forall j :: 0 <= j < |picks| - 1 ==> !l.closing(picks[j]))
  }

  /** The walk has come from chunk `start` to chunk `v`: it has sent precisely the chunks due
      on the way, in order. */
  ghost predicate Walked(s: Sender, l: Limits, start: nat, v: nat, s': Sender, frames: seq<Frame>)
  {
    && start <= v <= |s.chunks|
    && var picks := Picks(s.chunks, l.txLimit, start, v);
       s' == TransmitAll(s, picks) && FramesOf(frames, s'.chunks, picks) && Within(l, start, v, picks, frames)
  }

  /** Why it stopped at `v`: the queue ended, the window was full, the next chunk due would
      go beyond the peer's limit, or the last one sent was enough. */
  ghost predicate Stopped(s: Sender, l: Limits, start: nat, v: nat, s': Sender, frames: seq<Frame>)
    requires start <= v <= |s.chunks|
  {
    || v == |s.chunks|
    || (!l.hasWnd(v) && l.txLimit == 0)
    || (Due(s.chunks[v], l.txLimit) && l.limited && !l.crypto
        && (if s.chunks[v].lost then s.chunks[v].off else s'.data) + |s.chunks[v].data| > l.maxData)
    || (start < v && Due(s.chunks[v - 1], l.txLimit) && (|frames| == 16 || |frames| == l.txLimit || l.closing(v - 1)))
  }

  /** The first chunk due goes out if there is room for it: in particular lost data is sent
      again. */
  lemma FirstDueGoes(s: Sender, l: Limits, start: nat, v: nat, s': Sender, frames: seq<Frame>, i: nat)
    requires Walked(s, l, start, v, s', frames) && Stopped(s, l, start, v, s', frames)
    requires start <= i < |s.chunks| && Due(s.chunks[i], l.txLimit)
    requires forall j :: start <= j < i ==> !Due(s.chunks[j], l.txLimit)
    requires forall j :: start <= j <= i ==> l.hasWnd(j) || l.txLimit > 0
    requires l.limited && !l.crypto ==> (if s.chunks[i].lost then s.chunks[i].off else s.data) + |s.chunks[i].data| <= l.maxData
    ensures i < v && frames != [] && frames[0] == FrameOf(s'.chunks[i])
  {
    NonePicked(s.chunks, l.txLimit, start, if v <= i then v else i);
    assert v <= i ==> s' == s;
    FirstPick(s.chunks, l.txLimit, start, v, i);
  }

  /** A chunk that is marked lost is due, and the next call walks towards it. */
  lemma LostLiesAhead(s: Sender, k: nat, i: nat, crypto: bool, txLimit: nat)
    requires Sent(s, k) && i < k && !s.chunks[i].acked
    ensures var s' := MarkLost(s, i);
            && Due(s'.chunks[i], txLimit) && (if crypto || s'.last < 0 then s'.una else s'.last + 1) <= i
            && forall j :: 0 <= j < |s.chunks| && j != i ==> s'.chunks[j] == s.chunks[j]
  {
  }

  lemma FirstPick(chunks: seq<Chunk>, txLimit: nat, a: nat, b: nat, i: nat)
    requires a <= b <= |chunks| && a <= i < |chunks| && Due(chunks[i], txLimit)
    requires forall j :: a <= j < i ==> !Due(chunks[j], txLimit)
    ensures i < b ==> var r := Picks(chunks, txLimit, a, b); r != [] && r[0] == i
  {
    if i < b {
      PicksAscend(chunks, txLimit, a, b);
      var r := Picks(chunks, txLimit, a, b);
      assert i in r && r[0] in r;
      var j :| 0 <= j < |r| && r[j] == i;
    }
  }

  ghost predicate Ascends(r: seq<nat>)
  {
    forall i, j :: 0 <= i < j < |r| ==> r[i] < r[j]
  }

  lemma {:induction false} PicksAscend(chunks: seq<Chunk>, txLimit: nat, a: nat, b: nat)
    requires a <= b <= |chunks|
    ensures Ascends(Picks(chunks, txLimit, a, b))
    decreases b
  {
    if a < b {
      PicksAscend(chunks, txLimit, a, b - 1);
      var r := Picks(chunks, txLimit, a, b - 1);
      forall i | 0 <= i < |r| ensures r[i] < b - 1 { assert r[i] in r; }
    }
  }

  lemma {:induction false} NonePicked(chunks: seq<Chunk>, txLimit: nat, a: nat, b: nat)
    requires a <= b <= |chunks| && forall i :: a <= i < b ==> !Due(chunks[i], txLimit)
    ensures Picks(chunks, txLimit, a, b) == []
    decreases b
  {
    if a < b { NonePicked(chunks, txLimit, a, b - 1); }
  }

  lemma WalkStarts(s: Sender, l: Limits, start: nat)
    requires start <= |s.chunks|
    ensures Walked(s, l, start, start, s, []) && CanGoOn(s, l, start, start, [])
  {
  }

  /** Nothing sent so far was a reason to stop. */
  ghost predicate CanGoOn(s: Sender, l: Limits, start: nat, v: nat, frames: seq<Frame>)
    requires start <= v <= |s.chunks|
  {
    && |frames| < 16 && (l.txLimit > 0 ==> |frames| < l.txLimit)
    && forall i :: i in Picks(s.chunks, l.txLimit, start, v) ==> !l.closing(i)
  }

  /** The walk passes a chunk that is not due. */
  lemma WalkPasses(s: Sender, l: Limits, start: nat, v: nat, s': Sender, frames: seq<Frame>)
    requires Walked(s, l, start, v, s', frames) && CanGoOn(s, l, start, v, frames)
    requires v < |s.chunks| && !Due(s.chunks[v], l.txLimit) && (l.hasWnd(v) || l.txLimit > 0)
    ensures Walked(s, l, start, v + 1, s', frames) && CanGoOn(s, l, start, v + 1, frames)
  {
    PicksSame(s.chunks, l.txLimit, start, v);
    WithinFurther(l, start, v, Picks(s.chunks, l.txLimit, start, v), frames);
  }

  lemma PicksSame(chunks: seq<Chunk>, txLimit: nat, start: nat, v: nat)
    requires start <= v < |chunks| && !Due(chunks[v], txLimit)
    ensures Picks(chunks, txLimit, start, v + 1) == Picks(chunks, txLimit, start, v)
  {
  }

  lemma WithinFurther(l: Limits, start: nat, v: nat, picks: seq<nat>, frames: seq<Frame>)
    requires Within(l, start, v, picks, frames) && (l.hasWnd(v) || l.txLimit > 0)
    ensures Within(l, start, v + 1, picks, frames)
  {
  }

  /** Chunk `v` is next. */
  lemma PicksMore(chunks: seq<Chunk>, txLimit: nat, start: nat, v: nat, picks: seq<nat>)
    requires start <= v < |chunks| && Due(chunks[v], txLimit) && picks == Picks(chunks, txLimit, start, v)
    ensures Picks(chunks, txLimit, start, v + 1) == picks + [v] && forall j :: 0 <= j < |picks| ==> picks[j] < v
  {
    forall j | 0 <= j < |picks| ensures picks[j] < v { assert picks[j] in picks; }
  }

  lemma TransmitMore(s: Sender, picks: seq<nat>, v: nat)
    requires (forall i :: i in picks ==> i < |s.chunks|) && v < |s.chunks|
    ensures TransmitAll(s, picks + [v]) == Transmit(TransmitAll(s, picks), v)
  {
    assert (picks + [v])[..|picks|] == picks;
  }

  lemma FramesMore(m: Sender, picks: seq<nat>, v: nat, frames: seq<Frame>, f: Frame)
    requires FramesOf(frames, m.chunks, picks) && v < |m.chunks| && (forall j :: 0 <= j < |picks| ==> picks[j] < v)
    requires f == FrameOf(Transmit(m, v).chunks[v])
    ensures FramesOf(frames + [f], Transmit(m, v).chunks, picks + [v])
  {
    assert v !in picks;
  }

  lemma WithinMore(l: Limits, start: nat, v: nat, picks: seq<nat>, frames: seq<Frame>, f: Frame)
    requires Within(l, start, v, picks, frames) && |picks| < 16 && (l.txLimit > 0 ==> |picks| < l.txLimit)
    requires (l.hasWnd(v) || l.txLimit > 0) && (l.limited && !l.crypto ==> f.off + |f.data| <= l.maxData)
    requires forall i :: i in picks ==> !l.closing(i)
    ensures Within(l, start, v + 1, picks + [v], frames + [f])
  {
    forall j | 0 <= j < |picks| ensures !l.closing((picks + [v])[j]) { assert picks[j] in picks; }
  }

  /** It sends one that is. */
  lemma WalkSends(s: Sender, l: Limits, start: nat, v: nat, m: Sender, frames: seq<Frame>, f: Frame)
    requires Walked(s, l, start, v, m, frames) && CanGoOn(s, l, start, v, frames)
    requires v < |s.chunks| && Due(s.chunks[v], l.txLimit) && (l.hasWnd(v) || l.txLimit > 0)
    requires f == FrameOf(Transmit(m, v).chunks[v]) && (l.limited && !l.crypto ==> f.off + |f.data| <= l.maxData)
    ensures Walked(s, l, start, v + 1, Transmit(m, v), frames + [f])
  {
    var picks := Picks(s.chunks, l.txLimit, start, v);
    PicksMore(s.chunks, l.txLimit, start, v, picks);
    TransmitMore(s, picks, v);
    FramesMore(m, picks, v, frames, f);
    WithinMore(l, start, v, picks, frames, f);
  }

  /** The walk goes on behind a chunk that has been sent. */
  lemma GoesOn(s: Sender, l: Limits, start: nat, v: nat, frames: seq<Frame>, f: Frame)
    requires start <= v < |s.chunks| && CanGoOn(s, l, start, v, frames) && Due(s.chunks[v], l.txLimit)
    requires |frames| + 1 != 16 && |frames| + 1 != l.txLimit && !l.closing(v)
    ensures CanGoOn(s, l, start, v + 1, frames + [f])
  {
  }

  /** A chunk that the walk has not come to is as it was. */
  lemma {:induction false} Unsent(s: Sender, picks: seq<nat>, v: nat)
    requires (forall i :: i in picks ==> i < v) && v <= |s.chunks|
    ensures forall i :: v <= i < |s.chunks| ==> TransmitAll(s, picks).chunks[i] == s.chunks[i]
    decreases |picks|
  {
    if picks != [] {
      var n := |picks| - 1;
      assert picks[n] in picks && forall i :: i in picks[..n] ==> i in picks;
      Unsent(s, picks[..n], v);
    }
  }

  /** A chunk is sent at its own offset or, the first time, at the end of what has been. */
  lemma OffsetWithin(m: Sender, k: nat, v: nat)
    requires Sent(m, k) && v <= k && v < |m.chunks|
    ensures Transmit(m, v).chunks[v].off <= (if m.chunks[v].lost then m.chunks[v].off else m.data)
  {
    if v < k { StartGrows(m.chunks, v, k); }
  }

  lemma {:induction false} StartGrows(chunks: seq<Chunk>, i: nat, k: nat)
    requires i <= k <= |chunks|
    ensures Start(chunks, i) <= Start(chunks, k)
    decreases k
  {
    if i < k { StartGrows(chunks, i, k - 1); }
  }

  class OutStream {
    var chunks: seq<Chunk>
    var una: nat
    var last: int
    var data: nat

    function State(): (s: Sender)
      reads this
    {
      Sender(chunks, una, last, data)
    }

    constructor ()
      ensures State() == NEW_SENDER && Sent(State(), 0)
    {
      chunks, una, last, data := [], 0, -1, 0;
    }

    /** rtx_pkt and enc_pkt as far as the stream is concerned. */
    method TransmitChunk(i: nat) returns (f: Frame)
      requires i < |chunks|
      modifies this
      ensures State() == Transmit(old(State()), i) && f == FrameOf(chunks[i])
    {
      if chunks[i].txed {
        chunks := chunks[i := chunks[i].(lost := false)];
      } else {
        chunks := chunks[i := chunks[i].(txed := true, off := data)];
        data := data + |chunks[i].data|;
      }
      f := FrameOf(chunks[i]);
      last := i;
    }

    method SendChunk(v: nat, sent: seq<Frame>, ghost s: Sender, ghost k: nat, ghost km: nat)
      returns (frames: seq<Frame>, ghost k': nat)
      requires TxStep(s, k, State(), km, sent) && v <= km && v < |chunks|
      modifies this
      ensures TxStep(s, k, State(), k', frames) && v < k' && una == old(una)
      ensures State() == Transmit(old(State()), v) && frames == sent + [FrameOf(chunks[v])]
    {
      MoreStep(s, k, State(), km, sent, v);
      var f := TransmitChunk(v);
      frames := sent + [f];
      k' := if v == km then km + 1 else km;
    }

    /** A chunk that is due and within the limit goes out. */
    method SendDue(v: nat, l: Limits, sent: seq<Frame>, ghost s: Sender, ghost k: nat, ghost km: nat, ghost start: nat)
      returns (done: bool, frames: seq<Frame>, ghost k': nat)
      requires Going(s, k, l, start, v, State(), km, sent) && v < |s.chunks| && (l.hasWnd(v) || l.txLimit > 0)
      requires v < |chunks| && Due(chunks[v], l.txLimit) && chunks[v] == s.chunks[v]
      requires l.limited && !l.crypto ==> (if chunks[v].lost then chunks[v].off else data) + |chunks[v].data| <= l.maxData
      modifies this
      ensures una == old(una)
      ensures if done then Over(s, k, l, start, v + 1, State(), k', frames)
              else Going(s, k, l, start, v + 1, State(), k', frames)
    {
      OffsetWithin(State(), km, v);
      WalkSends(s, l, start, v, State(), sent, FrameOf(Transmit(State(), v).chunks[v]));
      frames, k' := SendChunk(v, sent, s, k, km);
      done := |frames| == BURST_LEN || (l.txLimit > 0 && |frames| == l.txLimit) || l.closing(v);
      if !done { GoesOn(s, l, start, v, sent, FrameOf(chunks[v])); }
    }

    /** One round of the loop of tx_stream, with room in the window. */
    method TxChunk(v: nat, l: Limits, sent: seq<Frame>, ghost s: Sender, ghost k: nat, ghost km: nat, ghost start: nat)
      returns (done: bool, next: nat, frames: seq<Frame>, ghost k': nat)
      requires Going(s, k, l, start, v, State(), km, sent) && v < |s.chunks| && (l.hasWnd(v) || l.txLimit > 0)
      modifies this
      ensures una == old(una)
      ensures if done then Over(s, k, l, start, next, State(), k', frames)
              else next == v + 1 && Going(s, k, l, start, next, State(), k', frames)
    {
      Unsent(s, Picks(s.chunks, l.txLimit, start, v), v);
      done, next, frames, k' := false, v + 1, sent, km;
      if chunks[v].acked || (l.txLimit == 0 && chunks[v].txed && !chunks[v].lost) {
        WalkPasses(s, l, start, v, State(), sent);
        PassedSent(State(), km, v);
        return;
      }
      if l.limited && !l.crypto && l.maxData < (if chunks[v].lost then chunks[v].off else data) + |chunks[v].data| {
        return true, v, sent, km;
      }
      done, frames, k' := SendDue(v, l, sent, s, k, km, start);
    }

    /** The loop of tx_stream. */
    method TxFrom(first: nat, l: Limits, ghost s: Sender, ghost k: nat)
      returns (frames: seq<Frame>, ghost k': nat, ghost end: nat)
      requires s == State() && Going(s, k, l, first, first, s, k, [])
      modifies this
      ensures una == old(una) && Over(s, k, l, first, end, State(), k', frames)
    {
      k', frames := k, [];
      var v: nat, done := first, false;
      while v < |chunks| && !done
        invariant una == old(una)
        invariant if done then Over(s, k, l, first, v, State(), k', frames) else Going(s, k, l, first, v, State(), k', frames)
        decreases !done, |s.chunks| - v
      {
        if !l.hasWnd(v) && l.txLimit == 0 {
          break;
        }
        done, v, frames, k' := TxChunk(v, l, frames, s, k, k', first);
      }
      end := v;
    }

    /** tx_stream.  A stream is held back while it is blocked with nothing lost, or while
        the connection opens without 0-RTT (`opening`).  The functions in `l` answer, chunk
        by chunk, whether the congestion window has room and whether the connection is
        closing; `l.maxData` is the peer's limit, checked after the handshake.  The walk
        goes from `start` to `end`. */
    method TxStream(blocked: bool, lostCnt: nat, opening: bool, l: Limits, ghost k: nat)
      returns (frames: seq<Frame>, ghost k': nat, ghost start: nat, ghost end: nat)
      requires Sent(State(), k)
      modifies this
      ensures TxStep(old(State()), k, State(), k', frames) && una == old(una)
      ensures if (blocked && lostCnt == 0) || (opening && !l.crypto) || old(una) == |old(chunks)| then
                frames == [] && State() == old(State())
              else
                && start == (if l.crypto || old(last) < 0 then old(una) else old(last) + 1)
                && Walked(old(State()), l, start, end, State(), frames)
                && Stopped(old(State()), l, start, end, State(), frames)
    {
      ghost var s := State();
      k', frames := k, [];
      start, end := una, una;
      NoStep(s, k);
      if una >= |chunks| || (blocked && lostCnt == 0) || (opening && !l.crypto) {
        return;
      }
      StartsWithin(s, k);
      var v: nat := if !l.crypto && last >= 0 then last + 1 else una;
      start := v;
      WalkStarts(s, l, start);
      frames, k', end := TxFrom(v, l, s, k);
    }
  }

  /** A chunk that is acked or transmitted is among those that have been. */
  lemma PassedSent(s: Sender, k: nat, v: nat)
    requires Sent(s, k) && v < |s.chunks| && v <= k && (s.chunks[v].acked || s.chunks[v].txed)
    ensures v < k
  {
  }

  /** The state of the loop in the middle, and at its end. */
  ghost predicate Going(s: Sender, k: nat, l: Limits, start: nat, v: nat, s': Sender, k': nat, frames: seq<Frame>)
  {
    && |s'.chunks| == |s.chunks| && TxStep(s, k, s', k', frames)
    && v <= k' && Walked(s, l, start, v, s', frames) && CanGoOn(s, l, start, v, frames)
  }

  ghost predicate Over(s: Sender, k: nat, l: Limits, start: nat, v: nat, s': Sender, k': nat, frames: seq<Frame>)
  {
    && |s'.chunks| == |s.chunks| && TxStep(s, k, s', k', frames)
    && Walked(s, l, start, v, s', frames) && Stopped(s, l, start, v, s', frames)
  }
}
