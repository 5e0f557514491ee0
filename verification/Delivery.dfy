/** What an arriving frame adds: which bytes and which end of a stream the receiver of
    lib/src/frame.c holds afterwards, and how far it has delivered. */
module Delivery {
  import opened Varint
  import opened Streams

  // ----- bytes

  predicate InFrame(f: Frame, x: nat)
  {
    f.off <= x < f.off + |f.data|
  }

  ghost predicate Parked(ooo: seq<Frame>, x: nat)
  {
    exists i :: 0 <= i < |ooo| && InFrame(ooo[i], x)
  }

  /** Byte `x` of the stream has been delivered or is parked. */
  ghost predicate Held(r: Receiver, x: nat)
  {
    x < r.off || Parked(r.ooo, x)
  }

  lemma ParkedFirst(ooo: seq<Frame>, x: nat)
    requires ooo != []
    ensures Parked(ooo, x) <==> InFrame(ooo[0], x) || Parked(ooo[1..], x)
  {
    if i :| 0 <= i < |ooo| && InFrame(ooo[i], x) {
      if i > 0 { assert InFrame(ooo[1..][i - 1], x); }
    }
    if i :| 0 <= i < |ooo[1..]| && InFrame(ooo[1..][i], x) { assert InFrame(ooo[i + 1], x); }
  }

  /** The offset is the first byte that is missing. */
  lemma FirstMissing(r: Receiver, w: seq<Byte>, ended: bool)
    requires Sound(r, w, ended)
    ensures !Held(r, r.off) && forall x: nat :: x < r.off ==> Held(r, x)
  {
  }

  /** A round of the drain loop holds on to everything. */
  lemma RoundHolds(r: Receiver, w: seq<Byte>, ended: bool, x: nat)
    requires Draining(r, w, ended) && r.ooo != [] && (Edge(r.ooo[0]) < r.off || r.ooo[0].off <= r.off)
    ensures var p := r.ooo[0];
            var d := if Edge(p) < r.off then r.(ooo := r.ooo[1..]) else Enqueue(r, p).(ooo := r.ooo[1..]);
            Held(r, x) <==> Held(d, x)
  {
    ParkedFirst(r.ooo, x);
    if Edge(r.ooo[0]) >= r.off { EnqueueOk(r, r.ooo[0], w, ended); }
  }

  lemma {:induction false} DrainHolds(r: Receiver, w: seq<Byte>, ended: bool, x: nat)
    requires Draining(r, w, ended)
    ensures Held(r, x) <==> Held(Drain(r), x)
    decreases |r.ooo|
  {
    if r.ooo != [] && (Edge(r.ooo[0]) < r.off || r.ooo[0].off <= r.off) {
      RoundHolds(r, w, ended, x);
      var p := r.ooo[0];
      ParkedTail(r.ooo, w, ended);
      if Edge(p) < r.off {
        DrainHolds(r.(ooo := r.ooo[1..]), w, ended, x);
      } else {
        EnqueueOk(r, p, w, ended);
        DrainHolds(Enqueue(r, p).(ooo := r.ooo[1..]), w, ended, x);
      }
    }
  }

  lemma InOrderHolds(r: Receiver, f: Frame, w: seq<Byte>, ended: bool, x: nat)
    requires Sound(r, w, ended) && Piece(f, w, ended) && f.off <= r.off <= Edge(f) && !r.closed
    ensures Held(InOrder(r, f), x) <==> Held(r, x) || InFrame(f, x)
  {
    EnqueueOk(r, f, w, ended);
    var r1 := Enqueue(r, f);
    DrainHolds(r1.(data := r1.data + (r1.off - r.off)), w, ended, x);
  }

  lemma ParkHolds(ooo: seq<Frame>, f: Frame, x: nat)
    ensures Parked(Park(ooo, f), x) <==> Parked(ooo, x) || InFrame(f, x)
  {
    ParkMembers(ooo, f);
    var q := Park(ooo, f);
    if i :| 0 <= i < |q| && InFrame(q[i], x) { assert q[i] in q; }
    if i :| 0 <= i < |ooo| && InFrame(ooo[i], x) {
      assert ooo[i] in ooo && ooo[i] in q;
      var j :| 0 <= j < |q| && q[j] == ooo[i];
    }
    if InFrame(f, x) {
      assert f in q;
      var j :| 0 <= j < |q| && q[j] == f;
    }
  }

  /** No byte that was held is lost, and the bytes of the frame are held, whether they are
      new, overlap what is delivered or reach over what is parked; only a frame from beyond
      the offset that overlaps parked data adds nothing. */
  lemma ReceiveHolds(r: Receiver, f: Frame, w: seq<Byte>, ended: bool, x: nat)
    requires Sound(r, w, ended) && Piece(f, w, ended)
    ensures Held(Receive(r, f), x) <==> Held(r, x) || (InFrame(f, x) && !(f.off > r.off && AnyOverlaps(r.ooo, f)))
  {
    if Useful(f) {
      if f.off <= r.off <= Edge(f) {
        if !r.closed { InOrderHolds(r, f, w, ended, x); }
      } else if f.off + |f.data| > r.off && !r.closed {
        FirstDecides(r.ooo, f);
        if !Blocked(r.ooo, f) { ParkHolds(r.ooo, f, x); }
      }
    }
  }

  /** Nothing that arrives, proper or not, changes a closed stream. */
  lemma {:induction false} ClosedForGood(r: Receiver, fs: seq<Frame>)
    requires r.closed
    ensures ReceiveAll(r, fs) == r
    decreases |fs|
  {
    if fs != [] { ClosedForGood(r, fs[..|fs| - 1]); }
  }

  /** Data that reaches the offset is delivered to its end and on to the first byte behind
      it that is not parked. */
  lemma DeliversToGap(r: Receiver, f: Frame, w: seq<Byte>, ended: bool)
    requires Sound(r, w, ended) && Piece(f, w, ended) && Useful(f) && f.off <= r.off <= Edge(f) && !r.closed
    ensures var d, e := Receive(r, f), f.off + |f.data|;
            && r.off <= e <= d.off <= |w| && Bytes(d.queued) == w[..d.off]
            && !Parked(r.ooo, d.off) && (forall x: nat :: e <= x < d.off ==> Parked(r.ooo, x))
            && d.data == r.data + (e - r.off)
  {
    var d, e := Receive(r, f), f.off + |f.data|;
    ReceiveOk(r, f, w, ended);
    FirstMissing(d, w, ended);
    EnqueueOk(r, f, w, ended);
    var r1 := Enqueue(r, f);
    DrainOk(r1.(data := r1.data + (r1.off - r.off)), w, ended);
    forall x: nat | e <= x ensures Held(d, x) <==> Parked(r.ooo, x) { ReceiveHolds(r, f, w, ended, x); }
  }

  // ----- the end of the stream

  ghost predicate FinParked(ooo: seq<Frame>, from: nat)
  {
    exists i :: 0 <= i < |ooo| && ooo[i].fin && Edge(ooo[i]) >= from
  }

  /** The receiver knows where the stream ends. */
  ghost predicate FinHeld(r: Receiver)
  {
    LastIsFin(r.queued) || FinParked(r.ooo, 0)
  }

  lemma FinFirst(ooo: seq<Frame>, from: nat)
    requires ooo != []
    ensures FinParked(ooo, from) <==> (ooo[0].fin && Edge(ooo[0]) >= from) || FinParked(ooo[1..], from)
  {
    if i :| 0 <= i < |ooo| && ooo[i].fin && Edge(ooo[i]) >= from {
      if i > 0 { assert ooo[1..][i - 1].fin; }
    }
    if i :| 0 <= i < |ooo[1..]| && ooo[1..][i].fin && Edge(ooo[1..][i]) >= from { assert ooo[i + 1].fin; }
  }

  /** Frames behind `p` lie beyond it. */
  lemma FinBeyond(ooo: seq<Frame>, a: nat, b: nat)
    requires ooo != [] && Disjoint(ooo) && a <= Edge(ooo[0]) + 1 && b <= Edge(ooo[0]) + 1
    ensures FinParked(ooo[1..], a) <==> FinParked(ooo[1..], b)
  {
    forall i | 0 <= i < |ooo[1..]| ensures Edge(ooo[1..][i]) >= a && Edge(ooo[1..][i]) >= b {
      assert ooo[1..][i] == ooo[i + 1] && Edge(ooo[0]) < ooo[i + 1].off;
    }
  }

  /** What the drain loop makes of the end: the ends that it does not find stale. */
  lemma {:induction false} DrainFin(r: Receiver, w: seq<Byte>, ended: bool)
    requires Draining(r, w, ended)
    ensures FinHeld(Drain(r)) <==> LastIsFin(r.queued) || FinParked(r.ooo, r.off)
    decreases |r.ooo|
  {
    if r.ooo != [] {
      var p := r.ooo[0];
      ParkedTail(r.ooo, w, ended);
      FinFirst(r.ooo, r.off);
      FinFirst(r.ooo, 0);
      if Edge(p) < r.off {
        DrainFin(r.(ooo := r.ooo[1..]), w, ended);
      } else if p.off > r.off {
        FinBeyond(r.ooo, 0, r.off);
      } else {
        EnqueueOk(r, p, w, ended);
        var d := Enqueue(r, p).(ooo := r.ooo[1..]);
        DrainFin(d, w, ended);
        FinBeyond(r.ooo, d.off, r.off);
      }
    }
  }

  /** The stream is closed once everything up to its known end is delivered. */
  lemma ClosedIff(r: Receiver, w: seq<Byte>, ended: bool)
    requires Sound(r, w, ended)
    ensures r.closed <==> FinHeld(r) && r.off == |w|
  {
    forall i | 0 <= i < |r.ooo| && r.off == |w| ensures !r.ooo[i].fin { assert Piece(r.ooo[i], w, ended); }
  }

  /** Exactly which frames leave the receiver knowing the end: one that carries it and is
      not ignored, and among those parked the ones that the new data does not cover. */
  lemma ReceiveFin(r: Receiver, f: Frame, w: seq<Byte>, ended: bool)
    requires Sound(r, w, ended) && Piece(f, w, ended) && !r.closed
    ensures FinHeld(Receive(r, f)) <==>
      if Useful(f) && f.off <= r.off <= Edge(f) then f.fin || FinParked(r.ooo, f.off + |f.data|)
      else FinHeld(r) || (f.fin && f.off > r.off && !AnyOverlaps(r.ooo, f))
  {
    if Useful(f) {
      if f.off <= r.off <= Edge(f) {
        EnqueueOk(r, f, w, ended);
        var r1 := Enqueue(r, f);
        DrainFin(r1.(data := r1.data + (r1.off - r.off)), w, ended);
      } else if f.off + |f.data| > r.off || f.off > r.off {
        FirstDecides(r.ooo, f);
        if !Blocked(r.ooo, f) { ParkFin(r.ooo, f); }
      }
    }
  }

  lemma ParkFin(ooo: seq<Frame>, f: Frame)
    ensures FinParked(Park(ooo, f), 0) <==> FinParked(ooo, 0) || f.fin
  {
    ParkMembers(ooo, f);
    var q := Park(ooo, f);
    if i :| 0 <= i < |q| && q[i].fin && Edge(q[i]) >= 0 { assert q[i] in q; }
    if i :| 0 <= i < |ooo| && ooo[i].fin && Edge(ooo[i]) >= 0 {
      assert ooo[i] in ooo && ooo[i] in q;
      var j :| 0 <= j < |q| && q[j] == ooo[i];
    }
    if f.fin {
      assert f in q;
      var j :| 0 <= j < |q| && q[j] == f;
    }
  }

  /** So the end can be forgotten: the last byte comes first, with the end, and is parked;
      then both bytes come without it.  All is delivered, and the stream stays open. */
  lemma FinForgottenExample()
    ensures var w := [1, 2];
            var r := Receive(NEW_RECEIVER, Frame(1, [2], true));
            var d := Receive(r, Frame(0, w, false));
            && Piece(Frame(1, [2], true), w, true) && Piece(Frame(0, w, false), w, true)
            && FinHeld(r) && d.off == 2 && !d.closed && !FinHeld(d)
  {
    var a, b := Frame(1, [2], true), Frame(0, [1, 2], false);
    var r := Receive(NEW_RECEIVER, a);
    assert Park([], a) == [a] && r == Receiver([], 0, 1, [a], false);
    assert r.ooo[0].fin;
    var r1 := Receiver([b], 2, 3, [a], false);
    assert [] + [b] == [b];
    assert Drain(r1) == Drain(r1.(ooo := [])) by { assert [a][1..] == []; }
  }
}
