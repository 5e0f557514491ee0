/** The receiving half of a stream as an object that is updated in place, like
    struct q_stream by dec_stream_or_crypto_frame in lib/src/frame.c. */
module Reassembly {
  import opened Streams

  lemma ParkLater(ooo: seq<Frame>, k: nat, f: Frame)
    requires k < |ooo| && ooo[k].off <= f.off
    ensures ooo[..k] + Park(ooo[k..], f) == ooo[..k + 1] + Park(ooo[k + 1..], f)
  {
    assert ooo[k..][0] == ooo[k] && ooo[k..][1..] == ooo[k + 1..];
  }

  lemma ParkHere(ooo: seq<Frame>, k: nat, f: Frame)
    requires k <= |ooo| && (k < |ooo| ==> f.off < ooo[k].off)
    ensures ooo[..k] + Park(ooo[k..], f) == ooo[..k] + [f] + ooo[k..]
  {
    if k < |ooo| { assert ooo[k..][0] == ooo[k]; }
  }

  class InStream {
    var queued: seq<Frame>
    var off: nat
    var data: nat
    var ooo: seq<Frame>
    var closed: bool

    function State(): (r: Receiver)
      reads this
    {
      Receiver(queued, off, data, ooo, closed)
    }

    constructor ()
      ensures State() == NEW_RECEIVER
    {
      queued, off, data, ooo, closed := [], 0, 0, [], false;
    }

    /** track_bytes_in */
    method TrackBytesIn(n: nat)
      modifies this`data
      ensures data == old(data) + n
    {
      data := data + n;
    }

    /** Trim a frame that starts before in_data_off and put it at the end of the
        queue. */
    method Enqueue(f: Frame)
      requires f.off <= off <= Edge(f)
      modifies this`queued, this`off
      ensures State() == Streams.Enqueue(old(State()), f)
    {
      var t := f;
      if off > f.off {
        var diff := off - f.off;
        t := Frame(f.off + diff, f.data[diff..], f.fin);
      }
      off := off + |t.data|;
      queued := queued + [t];
    }

    /** Dequeue parked frames once a hole has been filled: drop stale ones, stop at a
        gap, trim and queue the others. */
    method DrainOoo()
      modifies this`queued, this`off, this`ooo
      ensures State() == Drain(old(State()))
    {
      ghost var r := State();
      while ooo != []
        invariant Drain(State()) == Drain(r) && data == old(data) && closed == old(closed)
        decreases |ooo|
      {
        var p := ooo[0];
        if Edge(p) < off {
          ooo := ooo[1..];
          continue;
        }
        if p.off > off {
          break;
        }
        Enqueue(p);
        ooo := ooo[1..];
      }
    }

    /** Look for parked data that overlaps with `f`. */
    method Overlaps(f: Frame) returns (yes: bool)
      ensures yes == Blocked(ooo, f) && (Disjoint(ooo) ==> (yes <==> AnyOverlaps(ooo, f)))
    {
      var k := 0;
      while k < |ooo| && Edge(ooo[k]) < f.off
        invariant 0 <= k <= |ooo| && forall i :: 0 <= i < k ==> Edge(ooo[i]) < f.off
      {
        k := k + 1;
      }
      ghost var first := FirstReaching(ooo, f.off);
      assert first == k;
      if Disjoint(ooo) { FirstDecides(ooo, f); }
      yes := k < |ooo| && ooo[k].off <= Edge(f);
    }

    /** splay_insert by offset. */
    method ParkFrame(f: Frame)
      modifies this`ooo
      ensures ooo == Park(old(ooo), f)
    {
      var k := 0;
      while k < |ooo| && ooo[k].off <= f.off
        invariant 0 <= k <= |ooo| && ooo == old(ooo) && Park(ooo, f) == ooo[..k] + Park(ooo[k..], f)
      {
        ParkLater(ooo, k, f);
        k := k + 1;
      }
      ParkHere(ooo, k, f);
      ooo := ooo[..k] + [f] + ooo[k..];
    }

    /** New in-order data. */
    method TakeInOrder(f: Frame)
      requires f.off <= off <= Edge(f)
      modifies this
      ensures State() == InOrder(old(State()), f)
    {
      var was := off;
      Enqueue(f);
      TrackBytesIn(off - was);
      DrainOoo();
      if queued != [] && queued[|queued| - 1].fin {
        closed := true;
      }
    }

    /** dec_stream_or_crypto_frame, once the frame has been parsed and its stream
        found. */
    method DecStreamFrame(f: Frame)
      modifies this
      ensures State() == Receive(old(State()), f)
    {
      if |f.data| == 0 && !f.fin {
        return;
      }
      if off >= f.off && off <= Edge(f) {
        if !closed {
          TakeInOrder(f);
        }
        return;
      }
      if f.off + |f.data| <= off || closed {
        return;
      }
      var overlap := Overlaps(f);
      if overlap {
        return;
      }
      TrackBytesIn(|f.data|);
      ParkFrame(f);
    }
  }
}
