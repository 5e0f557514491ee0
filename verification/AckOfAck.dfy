/** Runs of a receiver that prunes its receive set as its own ACK frames are
    acknowledged (section 13.2.4 of RFC 9000). */
module AckOfAck {
  import opened Ivals
  import opened Varint
  import opened AckCodec
  import opened AckExact
  import opened AckTracking
  import opened RemoveRange

  /** A packet with an ACK frame for the receive set `v` in it at `pos`. */
  datatype AckPkt = AckPkt(v: seq<Iv>, delay: nat, ecn: Ecn, bytes: seq<Byte>, pos: nat)

  /** recv, recv_all, the packets with ACK frames that were sent, by number, and the
      packets the peer has acknowledged. */
  datatype Receiver = Receiver(recv: seq<Iv>, recvAll: seq<Iv>, frames: map<nat, AckPkt>, acked: set<nat>)

  const NEW_RECEIVER := Receiver([], [], map[], {})

  datatype Event =
    | Arrives(nr: nat, t: nat)        // a packet of the peer
    | SendsAck(nr: nat, pkt: AckPkt)  // a packet of our own that carries an ACK frame
    | IsAcked(nr: nat)                // the peer acknowledges it

  /** The packet carries the frame that enc_ack_frame writes for `v`. */
  ghost predicate Carries(pkt: AckPkt, v: seq<Iv>)
  {
    && pkt.v == v && Canonical(v) && v != [] && Encodable(v, pkt.delay, pkt.ecn)
    && At(pkt.bytes, pkt.pos, AckBytes(v, pkt.delay, pkt.ecn))
  }

  /** The ranges that track_acked_pkts reads from it. */
  function Tracked(pkt: AckPkt): (r: seq<(nat, nat)>)
  {
    TrackAcked(Decoder(pkt.bytes, |pkt.bytes|), pkt.pos + 1)
  }

  /** What an event may do.  A packet seen before is dropped (dec_pkt_hdr_remainder finds
      it in recv_all); every number is sent once; track_acked_pkts removes the ranges it
      reads. */
  ghost predicate Step(r: Receiver, e: Event, r': Receiver)
  {
    match e
    case Arrives(nr, t) =>
      if Has(r.recvAll, nr) then r' == r
      else
        && InsertStep(r.recv, r'.recv, nr, t) && InsertStep(r.recvAll, r'.recvAll, nr, 0)
        && r'.frames == r.frames && r'.acked == r.acked
    case SendsAck(nr, pkt) =>
      nr !in r.frames && Carries(pkt, r.recv) && r' == r.(frames := r.frames[nr := pkt])
    case IsAcked(nr) =>
      && nr in r.frames && nr !in r.acked
      && r'.recvAll == r.recvAll && r'.frames == r.frames && r'.acked == r.acked + {nr}
      && Forgotten(r.recv, r'.recv, Tracked(r.frames[nr]))
  }

  ghost predicate Run(run: seq<Receiver>, events: seq<Event>)
  {
    && |run| == |events| + 1 && run[0] == NEW_RECEIVER
    && forall i :: 0 <= i < |events| ==> Step(run[i], events[i], run[i + 1])
  }

  /** `m` lay in a range of an ACK frame carried by an acknowledged packet. */
  ghost predicate Confirmed(r: Receiver, m: int)
  {
    exists nr :: nr in r.acked && nr in r.frames && Has(r.frames[nr].v, m)
  }

  /** decv gives back the ranges of all frames sent.  Numbers below 2^48 are enough. */
  ghost predicate ReadableFrames(r: Receiver)
  {
    forall nr :: nr in r.frames ==> Carries(r.frames[nr], r.frames[nr].v) && RangesPlain(r.frames[nr].v)
  }

  ghost predicate Safe(r: Receiver)
  {
    && Canonical(r.recv) && Canonical(r.recvAll)
    && (forall m: int :: Has(r.recv, m) ==> Has(r.recvAll, m))
    && (forall m: int :: Has(r.recvAll, m) ==> Has(r.recv, m) || Confirmed(r, m))
    && (forall nr :: nr in r.frames ==> Subset(r.frames[nr].v, r.recvAll))
  }

  /** The pruning step removes numbers of the frame only. */
  lemma AckPrunes(r: Receiver, nr: nat, r': Receiver)
    requires Canonical(r.recv) && Step(r, IsAcked(nr), r') && ReadableFrames(r)
    ensures Pruned(r.recv, r'.recv, r.frames[nr].v)
  {
    var pkt := r.frames[nr];
    TrackExact(pkt.v, pkt.delay, pkt.ecn, pkt.bytes, pkt.pos, |pkt.bytes|);
    ForgottenPrunes(r.recv, r'.recv, pkt.v);
  }

  lemma ConfirmedStays(r: Receiver, e: Event, r': Receiver, m: int)
    requires Step(r, e, r') && Confirmed(r, m)
    ensures Confirmed(r', m)
  {
    var nr :| nr in r.acked && nr in r.frames && Has(r.frames[nr].v, m);
    assert nr in r'.acked && nr in r'.frames && Has(r'.frames[nr].v, m);
  }

  lemma AckConfirms(r: Receiver, nr: nat, r': Receiver, m: int)
    requires Safe(r) && Step(r, IsAcked(nr), r') && Has(r.recvAll, m)
    requires Pruned(r.recv, r'.recv, r.frames[nr].v)
    ensures Has(r'.recv, m) || Confirmed(r', m)
  {
    if Has(r.recv, m) {
      if Has(r.frames[nr].v, m) { assert nr in r'.acked && nr in r'.frames; }
    } else {
      ConfirmedStays(r, IsAcked(nr), r', m);
    }
  }

  lemma ArrivesSafe(r: Receiver, nr: nat, t: nat, r': Receiver)
    requires Safe(r) && Step(r, Arrives(nr, t), r')
    ensures Safe(r')
  {
    forall m: int | Has(r'.recvAll, m) ensures Has(r'.recv, m) || Confirmed(r', m) {
      if Has(r.recvAll, m) && !Has(r.recv, m) { ConfirmedStays(r, Arrives(nr, t), r', m); }
    }
    forall n | n in r'.frames ensures Subset(r'.frames[n].v, r'.recvAll) {
      assert Subset(r.frames[n].v, r.recvAll);
    }
  }

  lemma SendsSafe(r: Receiver, nr: nat, pkt: AckPkt, r': Receiver)
    requires Safe(r) && Step(r, SendsAck(nr, pkt), r')
    ensures Safe(r')
  {
    forall m: int | Has(r'.recvAll, m) ensures Has(r'.recv, m) || Confirmed(r', m) {
      if !Has(r.recv, m) { ConfirmedStays(r, SendsAck(nr, pkt), r', m); }
    }
    forall n | n in r'.frames ensures Subset(r'.frames[n].v, r'.recvAll) {
      if n in r.frames { assert Subset(r.frames[n].v, r.recvAll); }
    }
  }

  lemma AckedSafe(r: Receiver, nr: nat, r': Receiver)
    requires Safe(r) && Step(r, IsAcked(nr), r') && Pruned(r.recv, r'.recv, r.frames[nr].v)
    ensures Safe(r')
  {
    forall m: int | Has(r'.recvAll, m) ensures Has(r'.recv, m) || Confirmed(r', m) {
      AckConfirms(r, nr, r', m);
    }
  }

  lemma StepSafe(r: Receiver, e: Event, r': Receiver)
    requires Safe(r) && Step(r, e, r') && ReadableFrames(r)
    ensures Safe(r')
  {
    match e
    case Arrives(nr, t) => ArrivesSafe(r, nr, t, r');
    case SendsAck(nr, pkt) => SendsSafe(r, nr, pkt, r');
    case IsAcked(nr) =>
      AckPrunes(r, nr, r');
      AckedSafe(r, nr, r');
  }

  /** Frames and received numbers are never taken back. */
  ghost predicate Extends(r: Receiver, r': Receiver)
  {
    && (forall nr :: nr in r.frames ==> nr in r'.frames && r'.frames[nr] == r.frames[nr])
    && Subset(r.recvAll, r'.recvAll)
  }

  lemma StepExtends(r: Receiver, e: Event, r': Receiver)
    requires Step(r, e, r')
    ensures Extends(r, r')
  {
  }

  lemma RunExtends(run: seq<Receiver>, events: seq<Event>, i: nat, j: nat)
    requires Run(run, events) && i <= j < |run|
    ensures Extends(run[i], run[j]) && (ReadableFrames(run[j]) ==> ReadableFrames(run[i]))
  {
    forall n: nat | n < |events| ensures Extends(run[n], run[n + 1]) { StepExtends(run[n], events[n], run[n + 1]); }
    ExtendsThrough(run, i, j);
    if ReadableFrames(run[j]) { ReadableBefore(run[i], run[j]); }
  }

  lemma {:induction false} ExtendsThrough(run: seq<Receiver>, i: nat, j: nat)
    requires i <= j < |run| && forall n: nat :: n < |run| - 1 ==> Extends(run[n], run[n + 1])
    ensures Extends(run[i], run[j])
    decreases j
  {
    if i < j {
      ExtendsThrough(run, i, j - 1);
      assert Extends(run[j - 1], run[j - 1 + 1]);
    }
  }

  lemma ReadableBefore(r: Receiver, r': Receiver)
    requires Extends(r, r') && ReadableFrames(r')
    ensures ReadableFrames(r)
  {
  }

  /** In every state of a run recv is a subset of recv_all, and what is missing from
      it was confirmed. */
  lemma {:induction false} RunSafe(run: seq<Receiver>, events: seq<Event>, i: nat)
    requires Run(run, events) && i < |run| && ReadableFrames(run[i])
    ensures Safe(run[i])
  {
    if i > 0 {
      RunExtends(run, events, i - 1, i);
      RunSafe(run, events, i - 1);
      StepSafe(run[i - 1], events[i - 1], run[i]);
    }
  }

  /** A received number leaves recv only if it lay in a range of an ACK frame carried
      by a packet that the peer acknowledged, as long as the frames can be read. */
  lemma LeavesOnlyConfirmed(run: seq<Receiver>, events: seq<Event>, i: nat, j: nat, m: int)
    requires Run(run, events) && i <= j < |run| && ReadableFrames(run[j])
    requires Has(run[i].recv, m) && !Has(run[j].recv, m)
    ensures Confirmed(run[j], m)
  {
    RunExtends(run, events, i, j);
    RunSafe(run, events, i);
    RunSafe(run, events, j);
  }

  lemma StaysAway(r: Receiver, e: Event, r': Receiver, m: int)
    requires Safe(r) && Step(r, e, r') && ReadableFrames(r) && Has(r.recvAll, m) && !Has(r.recv, m)
    ensures !Has(r'.recv, m)
  {
    if e.IsAcked? { AckPrunes(r, e.nr, r'); }
  }

  ghost predicate Away(r: Receiver, m: int)
  {
    Has(r.recvAll, m) && !Has(r.recv, m)
  }

  lemma {:induction false} AwayThrough(run: seq<Receiver>, i: nat, j: nat, m: int)
    requires i <= j < |run| && Away(run[i], m)
    requires forall n: nat :: i <= n < j && Away(run[n], m) ==> Away(run[n + 1], m)
    ensures Away(run[j], m)
    decreases j
  {
    if i < j {
      AwayThrough(run, i, j - 1, m);
      assert Away(run[j - 1 + 1], m);
    }
  }

  lemma AwayNext(run: seq<Receiver>, events: seq<Event>, n: nat, m: int)
    requires Run(run, events) && n < |events| && ReadableFrames(run[n]) && Away(run[n], m)
    ensures Away(run[n + 1], m)
  {
    RunSafe(run, events, n);
    StepExtends(run[n], events[n], run[n + 1]);
    StaysAway(run[n], events[n], run[n + 1], m);
  }

  /** And since a number is accepted once, it never comes back. */
  lemma NeverComesBack(run: seq<Receiver>, events: seq<Event>, i: nat, j: nat, m: int)
    requires Run(run, events) && i <= j < |run| && ReadableFrames(run[j])
    requires Has(run[i].recvAll, m) && !Has(run[i].recv, m)
    ensures !Has(run[j].recv, m)
  {
    forall n: nat | i <= n < j && Away(run[n], m) ensures Away(run[n + 1], m) {
      RunExtends(run, events, n, j);
      AwayNext(run, events, n, m);
    }
    AwayThrough(run, i, j, m);
  }

  lemma SmallStep(r: Receiver, e: Event, r': Receiver)
    requires Safe(r) && Step(r, e, r') && ReadableFrames(r)
    requires forall m: int :: Has(r.recvAll, m) ==> m < 0x1_0000_0000_0000
    ensures ReadableFrames(r')
  {
    if e.SendsAck? {
      var v := e.pkt.v;
      assert Within(v[|v| - 1], v[|v| - 1].hi) && Has(v, v[|v| - 1].hi);
      SmallRangesPlain(v);
    }
  }

  /** The frames of a run over numbers below 2^48 can be read. */
  lemma {:induction false} SmallReadable(run: seq<Receiver>, events: seq<Event>, i: nat)
    requires Run(run, events) && i < |run|
    requires forall m: int :: Has(run[i].recvAll, m) ==> m < 0x1_0000_0000_0000
    ensures ReadableFrames(run[i])
  {
    if i > 0 {
      RunExtends(run, events, i - 1, i);
      SmallReadable(run, events, i - 1);
      RunSafe(run, events, i - 1);
      SmallStep(run[i - 1], events[i - 1], run[i]);
    }
  }

  // ----- a run in which a frame cannot be read

  const N48: nat := 0x1_0000_0000_0000
  const N49: nat := 0x2_0000_0000_0000

  ghost function One(n: nat): (r: seq<Iv>)
    ensures Canonical(r) && r == [Iv(n, n, 0)]
  {
    [Iv(n, n, 0)]
  }

  lemma FirstInserted(n: nat)
    ensures InsertStep([], One(n), n, 0)
  {
    forall m: int ensures Has(One(n), m) <==> m == n { HasOne(Iv(n, n, 0), m); }
    forall m: int ensures !Has([], m) {}
  }

  lemma SecondInserted(a: nat, b: nat)
    requires a + 1 < b
    ensures Canonical(One(a) + One(b)) && InsertStep(One(a), One(a) + One(b), b, 0)
    ensures RemoveStep(One(a) + One(b), One(a), b, b) && Clear(One(a), b, b)
  {
    var v := One(a) + One(b);
    assert v == [Iv(a, a, 0), Iv(b, b, 0)];
    forall m: int ensures (Has(One(a), m) <==> m == a) && (Has(v, m) <==> m == a || m == b) {
      HasOne(Iv(a, a, 0), m);
      HasTwo(Iv(a, a, 0), Iv(b, b, 0), m);
    }
    assert v[0] in One(a) && !Within(v[0], b) && v[1] == Iv(b, b, 0) && !Has(One(a), b);
    assert PartOf(v, One(a)[0]);
  }

  lemma MisreadArrivals(pkt: AckPkt)
    ensures var a, b := One(N48), One(N48) + One(N49);
            && Step(NEW_RECEIVER, Arrives(N48, 0), Receiver(a, a, map[], {}))
            && Step(Receiver(a, a, map[0 := pkt], {}), Arrives(N49, 0), Receiver(b, b, map[0 := pkt], {}))
  {
    FirstInserted(N48);
    SecondInserted(N48, N49);
    HasOne(Iv(N48, N48, 0), N49);
  }

  lemma MisreadPruned(pkt: AckPkt)
    requires Carries(pkt, One(N48)) && pkt.ecn == NoEcn
    ensures var a, b := One(N48), One(N48) + One(N49);
            Step(Receiver(b, b, map[0 := pkt], {}), IsAcked(0), Receiver(a, b, map[0 := pkt], {0}))
  {
    var a, b := One(N48), One(N48) + One(N49);
    SecondInserted(N48, N49);
    MisreadExample(N48, pkt.delay, pkt.bytes, pkt.pos);
    var rs := [(N49, N49)];
    assert Forgotten(a, a, rs[1..]) && Forgot(b, a, rs[0]);
  }

  /** There are such packets. */
  lemma MisreadCarried(pkt: AckPkt)
    requires pkt == AckPkt(One(N48), 0, NoEcn, AckBytes(One(N48), 0, NoEcn), 0)
    ensures Carries(pkt, One(N48))
  {
    assert pkt.bytes[0..|pkt.bytes|] == pkt.bytes;
  }

  lemma MisreadStates(pkt: AckPkt) returns (r1: Receiver, r2: Receiver, r3: Receiver, r4: Receiver)
    requires Carries(pkt, One(N48)) && pkt.ecn == NoEcn
    ensures Step(NEW_RECEIVER, Arrives(N48, 0), r1) && Step(r1, SendsAck(0, pkt), r2)
    ensures Step(r2, Arrives(N49, 0), r3) && Step(r3, IsAcked(0), r4)
    ensures Has(r3.recv, N49) && !Has(r4.recv, N49) && !Confirmed(r4, N49)
  {
    var a, b := One(N48), One(N48) + One(N49);
    r1, r2 := Receiver(a, a, map[], {}), Receiver(a, a, map[0 := pkt], {});
    r3, r4 := Receiver(b, b, map[0 := pkt], {}), Receiver(a, b, map[0 := pkt], {0});
    MisreadArrivals(pkt);
    MisreadSent(pkt);
    MisreadPruned(pkt);
    assert Within(b[1], N49);
    HasOne(Iv(N48, N48, 0), N49);
  }

  lemma MisreadSent(pkt: AckPkt)
    requires Carries(pkt, One(N48))
    ensures var a := One(N48);
            Step(Receiver(a, a, map[], {}), SendsAck(0, pkt), Receiver(a, a, map[0 := pkt], {}))
  {
    assert map[][0 := pkt] == map[0 := pkt];
  }

  /** 2^48 arrives and is acknowledged in some packet, 2^49 arrives, and the
      acknowledgement of the ACK removes 2^49, which no frame described. */
  lemma MisreadRunExample(pkt: AckPkt) returns (run: seq<Receiver>, events: seq<Event>)
    requires Carries(pkt, One(N48)) && pkt.ecn == NoEcn
    ensures Run(run, events) && |run| == 5
    ensures Has(run[3].recv, N49) && !Has(run[4].recv, N49) && !Confirmed(run[4], N49)
  {
    var r1, r2, r3, r4 := MisreadStates(pkt);
    run, events := RunLonger([NEW_RECEIVER], [], Arrives(N48, 0), r1);
    run, events := RunLonger(run, events, SendsAck(0, pkt), r2);
    run, events := RunLonger(run, events, Arrives(N49, 0), r3);
    run, events := RunLonger(run, events, IsAcked(0), r4);
  }

  lemma RunLonger(run: seq<Receiver>, events: seq<Event>, e: Event, r: Receiver)
    returns (run': seq<Receiver>, events': seq<Event>)
    requires Run(run, events) && Step(run[|run| - 1], e, r)
    ensures run' == run + [r] && events' == events + [e] && Run(run', events')
  {
    run', events' := run + [r], events + [e];
  }
}
