/** Stream frames and their reassembly: dec_stream_or_crypto_frame in
    lib/src/frame.c, as a function on the receiver's state. */
module Streams {
  import opened Varint

  /** Stream data at an offset. */
  datatype Frame = Frame(off: nat, data: seq<Byte>, fin: bool)

  /** Receiving half of a stream: the queue `queued` of in-order frames, in_data_off,
      in_data, the parked frames by offset, and whether a FIN has been delivered. */
  datatype Receiver = Receiver(queued: seq<Frame>, off: nat, data: nat, ooo: seq<Frame>, closed: bool)

  const NEW_RECEIVER := Receiver([], 0, 0, [], false)

  /** The inclusive right edge: offset plus strm_data_len_adj. */
  function Edge(f: Frame): (r: nat)
  {
    if |f.data| > 0 then f.off + |f.data| - 1 else f.off
  }

  /** Empty frames without FIN are ignored. */
  predicate Useful(f: Frame)
  {
    |f.data| > 0 || f.fin
  }

  /** trim_frame, when the frame starts before `off`. */
  function Trim(f: Frame, off: nat): (r: Frame)
    requires off <= f.off + |f.data|
  {
    if off > f.off then Frame(off, f.data[off - f.off..], f.fin) else f
  }

  /** Queue a frame that reaches the in-order offset. */
  function Enqueue(r: Receiver, f: Frame): (r': Receiver)
    requires f.off <= r.off <= Edge(f)
  {
    var t := Trim(f, r.off);
    r.(queued := r.queued + [t], off := r.off + |t.data|)
  }

  /** The loop that dequeues parked frames once a hole has been filled. */
  function Drain(r: Receiver): (r': Receiver)
    decreases |r.ooo|
  {
    if r.ooo == [] then r
    else
      var p := r.ooo[0];
      if Edge(p) < r.off then Drain(r.(ooo := r.ooo[1..]))
      else if p.off > r.off then r
      else Drain(Enqueue(r, p).(ooo := r.ooo[1..]))
  }

  predicate LastIsFin(queued: seq<Frame>)
  {
    queued != [] && queued[|queued| - 1].fin
  }

  /** The first parked frame whose right edge is not below `off`. */
  function FirstReaching(ooo: seq<Frame>, off: nat): (k: nat)
    ensures k <= |ooo| && (forall i :: 0 <= i < k ==> Edge(ooo[i]) < off) && (k < |ooo| ==> Edge(ooo[k]) >= off)
  {
    if ooo == [] then 0
    else if Edge(ooo[0]) >= off then 0
    else
      var k := FirstReaching(ooo[1..], off);
      assert forall i :: 0 < i < k + 1 ==> ooo[i] == ooo[1..][i - 1];
      k + 1
  }

  /** splay_insert by offset. */
  function Park(ooo: seq<Frame>, f: Frame): (r: seq<Frame>)
  {
    if ooo == [] || f.off < ooo[0].off then [f] + ooo else [ooo[0]] + Park(ooo[1..], f)
  }

  /** A new frame reaches the in-order offset. */
  function InOrder(r: Receiver, f: Frame): (r': Receiver)
    requires f.off <= r.off <= Edge(f)
  {
    var r1 := Enqueue(r, f);
    var r2 := Drain(r1.(data := r1.data + (r1.off - r.off)));
    r2.(closed := r2.closed || LastIsFin(r2.queued))
  }

  /** One frame arrives. */
  function Receive(r: Receiver, f: Frame): (r': Receiver)
  {
    if !Useful(f) then r
    else if f.off <= r.off <= Edge(f) then
      if r.closed then r else InOrder(r, f)
    else if f.off + |f.data| <= r.off || r.closed then r
    else
      if Blocked(r.ooo, f) then r
      else r.(ooo := Park(r.ooo, f), data := r.data + |f.data|)
  }

  function ReceiveAll(r: Receiver, fs: seq<Frame>): (r': Receiver)
  {
    if fs == [] then r else Receive(ReceiveAll(r, fs[..|fs| - 1]), fs[|fs| - 1])
  }

  // ----- what the receiver keeps

  /** The bytes of a queue of frames. */
  function Bytes(fs: seq<Frame>): (r: seq<Byte>)
  {
    if fs == [] then [] else Bytes(fs[..|fs| - 1]) + fs[|fs| - 1].data
  }

  /** `f` carries bytes of the stream `w`; `ended` says that `w` is complete. */
  ghost predicate Piece(f: Frame, w: seq<Byte>, ended: bool)
  {
    && f.off + |f.data| <= |w| && f.data == w[f.off..f.off + |f.data|]
    && (f.fin ==> ended && f.off + |f.data| == |w|)
  }

  /** Parked frames are useful pieces, in order, and pairwise disjoint. */
  ghost predicate ParkedOk(ooo: seq<Frame>, w: seq<Byte>, ended: bool)
  {
    && (forall i :: 0 <= i < |ooo| ==> Useful(ooo[i]) && Piece(ooo[i], w, ended))
    && Disjoint(ooo)
  }

  /** What is queued are exactly the first in_data_off bytes of the stream; the last
      frame ends there, so the check of the final size cannot fail. */
  ghost predicate QueuedOk(r: Receiver, w: seq<Byte>, ended: bool)
  {
    && r.off <= |w| && Bytes(r.queued) == w[..r.off]
    && (r.queued != [] ==> r.queued[|r.queued| - 1].off + |r.queued[|r.queued| - 1].data| == r.off)
    && (LastIsFin(r.queued) ==> ended && r.off == |w|)
  }

  ghost predicate Sound(r: Receiver, w: seq<Byte>, ended: bool)
  {
    && QueuedOk(r, w, ended) && ParkedOk(r.ooo, w, ended)
    && (forall i :: 0 <= i < |r.ooo| ==> r.ooo[i].off > r.off)
    && (r.closed <==> LastIsFin(r.queued))
  }

  lemma BytesMore(fs: seq<Frame>, f: Frame)
    ensures Bytes(fs + [f]) == Bytes(fs) + f.data
  {
    assert (fs + [f])[..|fs|] == fs;
  }

  lemma EnqueueOk(r: Receiver, f: Frame, w: seq<Byte>, ended: bool)
    requires QueuedOk(r, w, ended) && Piece(f, w, ended) && f.off <= r.off <= Edge(f)
    ensures QueuedOk(Enqueue(r, f), w, ended)
    ensures LastIsFin(Enqueue(r, f).queued) <==> f.fin
    ensures Enqueue(r, f).off == f.off + |f.data|
  {
    var t := Trim(f, r.off);
    BytesMore(r.queued, t);
    TrimmedPiece(f, r.off, w, ended, t);
    SlicesJoin(w, r.off, f.off + |f.data|);
  }

  lemma SlicesJoin(w: seq<Byte>, a: nat, b: nat)
    requires a <= b <= |w|
    ensures w[..a] + w[a..b] == w[..b]
  {
  }

  lemma TrimmedPiece(f: Frame, off: nat, w: seq<Byte>, ended: bool, t: Frame)
    requires Piece(f, w, ended) && f.off <= off <= f.off + |f.data| && t == Trim(f, off)
    ensures t.off == off && t.fin == f.fin && |t.data| == f.off + |f.data| - off
    ensures t.data == w[off..f.off + |f.data|]
  {
  }

  lemma ParkedTail(ooo: seq<Frame>, w: seq<Byte>, ended: bool)
    requires ParkedOk(ooo, w, ended) && ooo != []
    ensures ParkedOk(ooo[1..], w, ended)
  {
  }

  /** The state of the drain loop. */
  ghost predicate Draining(r: Receiver, w: seq<Byte>, ended: bool)
  {
    QueuedOk(r, w, ended) && ParkedOk(r.ooo, w, ended)
  }

  /** `d` is a later state of the drain loop than `r`. */
  ghost predicate Later(r: Receiver, d: Receiver)
  {
    d.closed == r.closed && d.data == r.data && r.off <= d.off && (LastIsFin(r.queued) ==> LastIsFin(d.queued))
  }

  lemma DrainOne(r: Receiver, w: seq<Byte>, ended: bool) returns (d: Receiver)
    requires Draining(r, w, ended) && r.ooo != [] && (Edge(r.ooo[0]) < r.off || r.ooo[0].off <= r.off)
    ensures Draining(d, w, ended) && Later(r, d) && |d.ooo| < |r.ooo| && Drain(r) == Drain(d)
  {
    ParkedTail(r.ooo, w, ended);
    var p := r.ooo[0];
    if Edge(p) < r.off {
      d := r.(ooo := r.ooo[1..]);
    } else {
      EnqueueOk(r, p, w, ended);
      d := Enqueue(r, p).(ooo := r.ooo[1..]);
    }
  }

  /** The drain loop keeps the queue right and leaves only frames above the offset. */
  lemma {:induction false} DrainOk(r: Receiver, w: seq<Byte>, ended: bool)
    requires Draining(r, w, ended)
    ensures Draining(Drain(r), w, ended) && Later(r, Drain(r))
    ensures forall i :: 0 <= i < |Drain(r).ooo| ==> Drain(r).ooo[i].off > Drain(r).off
    decreases |r.ooo|
  {
    if r.ooo != [] && (Edge(r.ooo[0]) < r.off || r.ooo[0].off <= r.off) {
      var d := DrainOne(r, w, ended);
      DrainOk(d, w, ended);
    }
  }

  lemma {:induction false} ParkMembers(ooo: seq<Frame>, f: Frame)
    ensures forall g :: g in Park(ooo, f) <==> g == f || g in ooo
    decreases |ooo|
  {
    if ooo != [] {
      assert forall g :: g in ooo <==> g == ooo[0] || g in ooo[1..];
      if f.off >= ooo[0].off { ParkMembers(ooo[1..], f); }
    }
  }

  lemma ConsParked(p: Frame, ooo: seq<Frame>, w: seq<Byte>, ended: bool)
    requires ParkedOk(ooo, w, ended) && Useful(p) && Piece(p, w, ended)
    requires forall g :: g in ooo ==> Edge(p) < g.off
    ensures ParkedOk([p] + ooo, w, ended)
  {
    var q := [p] + ooo;
    forall i, j | 0 <= i < j < |q| ensures Edge(q[i]) < q[j].off {
      assert q[j] in ooo;
      if i > 0 { assert q[i] == ooo[i - 1] && q[j] == ooo[j - 1]; }
    }
  }

  lemma {:induction false} ParkOk(ooo: seq<Frame>, f: Frame, w: seq<Byte>, ended: bool)
    requires ParkedOk(ooo, w, ended) && Useful(f) && Piece(f, w, ended) && !Blocked(ooo, f)
    ensures ParkedOk(Park(ooo, f), w, ended)
    decreases |ooo|
  {
    if ooo == [] {
      ConsParked(f, [], w, ended);
    } else {
      ParkedTail(ooo, w, ended);
      NotBlocked(ooo, f);
      if f.off >= ooo[0].off {
        ParkOk(ooo[1..], f, w, ended);
        ParkMembers(ooo[1..], f);
        ConsParked(ooo[0], Park(ooo[1..], f), w, ended);
      } else {
        ConsParked(f, ooo, w, ended);
      }
    }
  }

  /** What it means for the first parked frame and for the others that nothing overlaps. */
  lemma NotBlocked(ooo: seq<Frame>, f: Frame)
    requires Disjoint(ooo) && ooo != [] && !Blocked(ooo, f)
    ensures f.off >= ooo[0].off ==> Edge(ooo[0]) < f.off && !Blocked(ooo[1..], f)
    ensures f.off < ooo[0].off ==> forall g :: g in ooo ==> Edge(f) < g.off
    ensures forall g :: g in ooo[1..] ==> Edge(ooo[0]) < g.off
  {
    FirstDecides(ooo, f);
    assert !Overlap(ooo[0], f);
    FirstDecides(ooo[1..], f);
    forall i | 0 <= i < |ooo[1..]| ensures !Overlap(ooo[1..][i], f) { assert ooo[1..][i] == ooo[i + 1]; }
  }

  lemma ParkSound(r: Receiver, f: Frame, w: seq<Byte>, ended: bool)
    requires Sound(r, w, ended) && Piece(f, w, ended) && Useful(f) && f.off > r.off && !Blocked(r.ooo, f)
    ensures Sound(r.(ooo := Park(r.ooo, f), data := r.data + |f.data|), w, ended)
  {
    ParkOk(r.ooo, f, w, ended);
    ParkAbove(r.ooo, f, r.off, Park(r.ooo, f));
  }

  lemma ParkAbove(ooo: seq<Frame>, f: Frame, off: nat, q: seq<Frame>)
    requires f.off > off && (forall i :: 0 <= i < |ooo| ==> ooo[i].off > off) && q == Park(ooo, f)
    ensures forall i :: 0 <= i < |q| ==> q[i].off > off
  {
    ParkMembers(ooo, f);
    forall i | 0 <= i < |q| ensures q[i].off > off { assert q[i] in q; }
  }

  /** Two frames share an offset; an empty frame stands at its own. */
  predicate Overlap(f: Frame, g: Frame)
  {
    f.off <= Edge(g) && g.off <= Edge(f)
  }

  ghost predicate AnyOverlaps(ooo: seq<Frame>, f: Frame)
  {
    exists i :: 0 <= i < |ooo| && Overlap(ooo[i], f)
  }

  ghost predicate Disjoint(ooo: seq<Frame>)
  {
    forall i, j :: 0 <= i < j < |ooo| ==> Edge(ooo[i]) < ooo[j].off
  }

  /** The first parked frame that reaches `f` overlaps it. */
  predicate Blocked(ooo: seq<Frame>, f: Frame)
  {
    var k := FirstReaching(ooo, f.off);
    k < |ooo| && ooo[k].off <= Edge(f)
  }

  /** The first parked frame that reaches `f` decides whether any overlaps it. */
  lemma FirstDecides(ooo: seq<Frame>, f: Frame)
    requires Disjoint(ooo)
    ensures Blocked(ooo, f) <==> AnyOverlaps(ooo, f)
  {
    var k := FirstReaching(ooo, f.off);
    if k < |ooo| && ooo[k].off <= Edge(f) { assert Overlap(ooo[k], f); }
    if i :| 0 <= i < |ooo| && Overlap(ooo[i], f) {
      assert k <= i;
      if k < i { assert Edge(ooo[k]) < ooo[i].off; }
    }
  }

  lemma {:induction false} ParkLength(ooo: seq<Frame>, f: Frame)
    ensures |Park(ooo, f)| == |ooo| + 1
  {
    if ooo != [] && f.off >= ooo[0].off { ParkLength(ooo[1..], f); }
  }

  /** Out-of-order data for an open stream is ignored if and only if it overlaps parked
      data, even in part; otherwise it is parked. */
  lemma IgnoredIffOverlaps(r: Receiver, f: Frame, w: seq<Byte>, ended: bool)
    requires Sound(r, w, ended) && Useful(f) && f.off > r.off && !r.closed
    ensures Receive(r, f) == r <==> AnyOverlaps(r.ooo, f)
    ensures Receive(r, f) != r ==>
      Receive(r, f) == r.(ooo := Park(r.ooo, f), data := r.data + |f.data|) && f in Receive(r, f).ooo
  {
    FirstDecides(r.ooo, f);
    ParkLength(r.ooo, f);
    ParkMembers(r.ooo, f);
  }

  lemma InOrderSound(r: Receiver, f: Frame, w: seq<Byte>, ended: bool)
    requires Sound(r, w, ended) && Piece(f, w, ended) && f.off <= r.off <= Edge(f) && !r.closed
    ensures Sound(InOrder(r, f), w, ended) && r.off <= InOrder(r, f).off
  {
    EnqueueOk(r, f, w, ended);
    var r1 := Enqueue(r, f);
    DrainOk(r1.(data := r1.data + (r1.off - r.off)), w, ended);
  }

  /** Every arriving piece of the stream leaves the receiver sound: what it has queued
      are the first in_data_off bytes of the stream, and what it has parked is
      disjoint and above them.  The checked final size is always right. */
  lemma ReceiveOk(r: Receiver, f: Frame, w: seq<Byte>, ended: bool)
    requires Sound(r, w, ended) && Piece(f, w, ended)
    ensures Sound(Receive(r, f), w, ended) && r.off <= Receive(r, f).off
  {
    if Useful(f) {
      if f.off <= r.off <= Edge(f) {
        if !r.closed { InOrderSound(r, f, w, ended); }
      } else if f.off + |f.data| > r.off && !r.closed {
        if !Blocked(r.ooo, f) { ParkSound(r, f, w, ended); }
      }
    }
  }

  /** The stream may grow while frames are under way. */
  lemma PieceGrows(f: Frame, w: seq<Byte>, ended: bool, more: seq<Byte>, ended': bool)
    requires Piece(f, w, ended) && (ended ==> more == [] && ended')
    ensures Piece(f, w + more, ended')
  {
    assert (w + more)[f.off..f.off + |f.data|] == w[f.off..f.off + |f.data|];
    assert ended ==> w + more == w;
  }

  lemma SoundGrows(r: Receiver, w: seq<Byte>, ended: bool, more: seq<Byte>, ended': bool)
    requires Sound(r, w, ended) && (ended ==> more == [] && ended')
    ensures Sound(r, w + more, ended')
  {
    assert (w + more)[..r.off] == w[..r.off];
    forall i | 0 <= i < |r.ooo| ensures Piece(r.ooo[i], w + more, ended') {
      PieceGrows(r.ooo[i], w, ended, more, ended');
    }
    assert ended ==> w + more == w;
  }
}
