/** A sender and a receiver of packets: although the receiver expands packet numbers
    (undo_hp in lib/src/pkt.c) against a receive set that it keeps pruning, the numbers the
    sender truncates for it (needed_pkt_nr_len) can always be told. */
module NumberRuns {
  import opened Ivals
  import opened Varint
  import opened AckCodec
  import opened AckTracking
  import opened AckOfAck
  import opened PacketNumber

  /** A packet on its way: lg_acked when its number was truncated, and the packets of the
      receiver that it acknowledges. */
  datatype Pkt = Pkt(lgAcked: int, acks: set<nat>)

  /** The sender's next number and lg_acked (-1 if unset), the packets of the receiver that
      have reached it, the packets it has sent, and the receiver. */
  datatype World = World(next: nat, lgAcked: int, got: set<nat>, net: map<nat, Pkt>, rx: Receiver)

  const NEW_WORLD := World(0, -1, {}, map[], NEW_RECEIVER)

  datatype Event =
    | Sends(acks: set<nat>)                 // the sender sends its next packet
    | Gets(n: nat, t: nat, mid: seq<Receiver>, order: seq<nat>)  // it arrives, perhaps again
    | Acks(nr: nat, pkt: AckPkt)            // the receiver sends an ACK frame
    | GetsAck(nr: nat, lgAcked: int)        // which arrives, and may raise lg_acked

  /** diet_max(&pn->recv) + 1, where diet_max is 0 on an empty set. */
  function Expected(r: Receiver): (n: nat)
  {
    if r.recv == [] then 1 else r.recv[|r.recv| - 1].hi + 1
  }

  /** The expected number is the one above the greatest that is still in recv, or 1. */
  lemma ExpectedIs(r: Receiver)
    requires Canonical(r.recv)
    ensures r.recv == [] ==> Expected(r) == 1
    ensures r.recv != [] ==> Has(r.recv, Expected(r) - 1)
    ensures forall m: int :: Has(r.recv, m) ==> m < Expected(r)
  {
    var v := r.recv;
    if v != [] { assert Within(v[|v| - 1], Expected(r) - 1); }
    forall m: int | Has(v, m) ensures m < Expected(r) {
      var i :| 0 <= i < |v| && Within(v[i], m);
      assert i < |v| - 1 ==> v[i].hi + 1 < v[|v| - 1].lo;
    }
  }

  /** The length of the number field of packet `n`. */
  function FieldLen(p: Pkt, n: nat): (r: nat)
  {
    if p.lgAcked <= n then NeededPktNrLen(p.lgAcked, n) else 4
  }

  /** The receiver makes the right number out of the field; a packet with a wrong one does
      not decrypt. */
  predicate Opens(r: Receiver, p: Pkt, n: nat)
  {
    var len := FieldLen(p, n);
    Expand(Expected(r), len, Value(Truncate(n, len))) == n
  }

  /** The receiver processes the frames of packet `n`, pruning for every ACK it finds, and
      then records the number. */
  ghost predicate Processes(r: Receiver, n: nat, t: nat, acks: set<nat>, mid: seq<Receiver>, order: seq<nat>, r': Receiver)
  {
    && |mid| == |order| + 1 && mid[0] == r && (forall i :: 0 <= i < |order| ==> order[i] in acks)
    && (forall i :: 0 <= i < |order| ==> AckOfAck.Step(mid[i], AckOfAck.IsAcked(order[i]), mid[i + 1]))
    && AckOfAck.Step(mid[|order|], AckOfAck.Arrives(n, t), r')
  }

  ghost predicate Step(w: World, e: Event, w': World)
  {
    match e
    case Sends(acks) =>
      acks <= w.got && w' == w.(next := w.next + 1, net := w.net[w.next := Pkt(w.lgAcked, acks)])
    case Gets(n, t, mid, order) =>
      && n in w.net && w' == w.(rx := w'.rx)
      && if !Opens(w.rx, w.net[n], n) || Has(w.rx.recvAll, n) then w'.rx == w.rx
         else Processes(w.rx, n, t, w.net[n].acks, mid, order, w'.rx)
    case Acks(nr, pkt) =>
      w' == w.(rx := w'.rx) && AckOfAck.Step(w.rx, AckOfAck.SendsAck(nr, pkt), w'.rx)
    case GetsAck(nr, lgAcked) =>
      && nr in w.rx.frames && w' == w.(got := w.got + {nr}, lgAcked := lgAcked)
      && (lgAcked == w.lgAcked || (lgAcked > w.lgAcked && Has(w.rx.frames[nr].v, lgAcked)))
  }

  ghost predicate Run(run: seq<World>, events: seq<Event>)
  {
    && |run| == |events| + 1 && run[0] == NEW_WORLD
    && forall i :: 0 <= i < |events| ==> Step(run[i], events[i], run[i + 1])
  }

  // ----- the largest number in the receive set

  /** Every member is below the expected number. */
  lemma BelowExpected(r: Receiver, m: int)
    requires Canonical(r.recv) && Has(r.recv, m)
    ensures 0 <= m < Expected(r)
  {
    var i :| 0 <= i < |r.recv| && Within(r.recv[i], m);
    if i < |r.recv| - 1 { assert r.recv[i].hi + 1 < r.recv[|r.recv| - 1].lo; }
  }

  lemma TopMember(r: Receiver)
    requires Canonical(r.recv) && r.recv != []
    ensures Has(r.recv, Expected(r) - 1)
  {
    assert Within(r.recv[|r.recv| - 1], Expected(r) - 1);
  }

  /** If what was removed lies below the number that was added, the expected number does
      not fall. */
  lemma ExpectedRises(r: Receiver, r': Receiver, n: nat)
    requires Canonical(r.recv) && Canonical(r'.recv) && Has(r'.recv, n)
    requires forall m: int :: Has(r.recv, m) && !Has(r'.recv, m) ==> m < n
    ensures Expected(r) <= Expected(r')
  {
    BelowExpected(r', n);
    if r.recv != [] {
      TopMember(r);
      var t := Expected(r) - 1;
      if Has(r'.recv, t) { BelowExpected(r', t); }
    }
  }

  // ----- what every step keeps

  /** The sender has sent everything the receiver knows; ACK frames and lg_acked speak of
      numbers below the expected one; and a packet that acknowledges an ACK frame has a
      number above those in the frame, since it was sent later. */
  ghost predicate Honest(w: World)
  {
    && Safe(w.rx) && (forall m: int :: Has(w.rx.recvAll, m) ==> m < w.next)
    && (forall nr, m: int :: nr in w.rx.frames && Has(w.rx.frames[nr].v, m) ==> m < Expected(w.rx))
    && (forall nr :: nr in w.got ==> nr in w.rx.frames)
    && w.lgAcked < w.next && w.lgAcked < Expected(w.rx)
    && (forall n :: n in w.net ==> PktHonest(w, n))
  }

  ghost predicate PktHonest(w: World, n: nat)
    requires n in w.net
  {
    && n < w.next && w.net[n].lgAcked < n && w.net[n].lgAcked < Expected(w.rx)
    && forall nr :: nr in w.net[n].acks ==>
         nr in w.rx.frames && forall m: int :: Has(w.rx.frames[nr].v, m) ==> m < n
  }

  lemma SendsHonest(w: World, acks: set<nat>, w': World)
    requires Honest(w) && Step(w, Sends(acks), w')
    ensures Honest(w')
  {
    forall n | n in w'.net ensures PktHonest(w', n) {
      if n == w.next {
        forall nr | nr in acks ensures nr in w.rx.frames && forall m: int :: Has(w.rx.frames[nr].v, m) ==> m < n {
          assert Subset(w.rx.frames[nr].v, w.rx.recvAll);
        }
      } else {
        assert PktHonest(w, n);
      }
    }
  }

  lemma GetsAckHonest(w: World, nr: nat, lgAcked: int, w': World)
    requires Honest(w) && Step(w, GetsAck(nr, lgAcked), w')
    ensures Honest(w')
  {
    assert Subset(w.rx.frames[nr].v, w.rx.recvAll);
    forall n | n in w'.net ensures PktHonest(w', n) { assert PktHonest(w, n); }
  }

  lemma AcksHonest(w: World, nr: nat, pkt: AckPkt, w': World)
    requires Honest(w) && Step(w, Acks(nr, pkt), w')
    ensures Honest(w')
  {
    SendsSafe(w.rx, nr, pkt, w'.rx);
    forall k, m: int | k in w'.rx.frames && Has(w'.rx.frames[k].v, m) ensures m < Expected(w'.rx) {
      if k == nr { BelowExpected(w.rx, m); } else { assert Has(w.rx.frames[k].v, m); }
    }
    forall n | n in w'.net ensures PktHonest(w', n) { assert PktHonest(w, n); }
  }

  /** From `r` to `a` only numbers below `n` have left the receive set. */
  ghost predicate LostBelow(r: Receiver, a: Receiver, n: nat)
  {
    && Safe(a) && a.frames == r.frames && a.recvAll == r.recvAll
    && forall m: int :: Has(r.recv, m) && !Has(a.recv, m) ==> m < n
  }

  lemma PruneBelow(r: Receiver, a: Receiver, nr: nat, b: Receiver, n: nat)
    requires LostBelow(r, a, n) && ReadableFrames(r) && AckOfAck.Step(a, AckOfAck.IsAcked(nr), b)
    requires forall m: int :: nr in r.frames && Has(r.frames[nr].v, m) ==> m < n
    ensures LostBelow(r, b, n)
  {
    AckPrunes(a, nr, b);
    AckedSafe(a, nr, b);
  }

  /** While packet `n` is processed only numbers below it leave the receive set. */
  lemma {:induction false} PrunesBelow(r: Receiver, n: nat, mid: seq<Receiver>, order: seq<nat>, i: nat)
    requires Safe(r) && ReadableFrames(r) && i < |mid| == |order| + 1 && mid[0] == r
    requires forall k :: 0 <= k < |order| ==> AckOfAck.Step(mid[k], AckOfAck.IsAcked(order[k]), mid[k + 1])
    requires forall k, m: int :: 0 <= k < |order| && order[k] in r.frames && Has(r.frames[order[k]].v, m) ==> m < n
    ensures LostBelow(r, mid[i], n)
  {
    if i > 0 {
      PrunesBelow(r, n, mid, order, i - 1);
      PruneBelow(r, mid[i - 1], order[i - 1], mid[i], n);
    }
  }

  lemma ProcessesRises(r: Receiver, n: nat, t: nat, acks: set<nat>, mid: seq<Receiver>, order: seq<nat>, r': Receiver)
    requires Safe(r) && ReadableFrames(r) && Processes(r, n, t, acks, mid, order, r') && !Has(r.recvAll, n)
    requires forall nr, m: int :: nr in acks && nr in r.frames && Has(r.frames[nr].v, m) ==> m < n
    ensures Safe(r') && r'.frames == r.frames && Expected(r) <= Expected(r')
    ensures forall m: int :: Has(r'.recvAll, m) <==> m == n || Has(r.recvAll, m)
  {
    var z := mid[|order|];
    PrunesBelow(r, n, mid, order, |order|);
    ArrivesSafe(z, n, t, r');
    ExpectedRises(r, r', n);
  }

  lemma GetsHonest(w: World, n: nat, t: nat, mid: seq<Receiver>, order: seq<nat>, w': World)
    requires Honest(w) && ReadableFrames(w.rx) && Step(w, Gets(n, t, mid, order), w')
    ensures Honest(w') && Expected(w.rx) <= Expected(w'.rx)
  {
    if w'.rx != w.rx {
      assert PktHonest(w, n);
      ProcessesRises(w.rx, n, t, w.net[n].acks, mid, order, w'.rx);
    }
    forall k | k in w'.net ensures PktHonest(w', k) { assert PktHonest(w, k); }
  }

  lemma StepHonest(w: World, e: Event, w': World)
    requires Honest(w) && ReadableFrames(w.rx) && Step(w, e, w')
    ensures Honest(w') && Expected(w.rx) <= Expected(w'.rx)
  {
    match e
    case Sends(acks) => SendsHonest(w, acks, w');
    case Gets(n, t, mid, order) => GetsHonest(w, n, t, mid, order, w');
    case Acks(nr, pkt) => AcksHonest(w, nr, pkt, w');
    case GetsAck(nr, lgAcked) => GetsAckHonest(w, nr, lgAcked, w');
  }

  // ----- runs

  /** Frames are never taken back. */
  ghost predicate Keeps(r: Receiver, r': Receiver)
  {
    forall nr :: nr in r.frames ==> nr in r'.frames && r'.frames[nr] == r.frames[nr]
  }

  lemma MidKeeps(mid: seq<Receiver>, order: seq<nat>, i: nat)
    requires i < |mid| == |order| + 1
    requires forall k :: 0 <= k < |order| ==> AckOfAck.Step(mid[k], AckOfAck.IsAcked(order[k]), mid[k + 1])
    ensures Keeps(mid[0], mid[i])
  {
    forall n: nat | n < i ensures Keeps(mid[n], mid[n + 1]) {
      assert AckOfAck.Step(mid[n], AckOfAck.IsAcked(order[n]), mid[n + 1]);
    }
    KeepsThrough(mid, 0, i);
  }

  lemma StepKeeps(w: World, e: Event, w': World)
    requires Step(w, e, w')
    ensures Keeps(w.rx, w'.rx)
  {
    if e.Gets? && w'.rx != w.rx {
      MidKeeps(e.mid, e.order, |e.order|);
      assert AckOfAck.Step(e.mid[|e.order|], AckOfAck.Arrives(e.n, e.t), w'.rx);
    }
  }

  lemma {:induction false} RunHonest(run: seq<World>, events: seq<Event>, i: nat)
    requires Run(run, events) && i < |run| && ReadableFrames(run[i].rx)
    ensures Honest(run[i])
  {
    if i > 0 {
      ReadableBefore(run, events, i - 1, i);
      RunHonest(run, events, i - 1);
      StepHonest(run[i - 1], events[i - 1], run[i]);
    }
  }

  /** The expected number never falls, although the receive set is pruned. */
  lemma ExpectedNeverFalls(run: seq<World>, events: seq<Event>, i: nat, j: nat)
    requires Run(run, events) && i <= j < |run| && ReadableFrames(run[j].rx)
    ensures Rises(run[i], run[j])
  {
    forall n: nat | n < j ensures Rises(run[n], run[n + 1]) {
      ReadableBefore(run, events, n, j);
      RunHonest(run, events, n);
      StepHonest(run[n], events[n], run[n + 1]);
    }
    RisesThrough(run, i, j);
  }

  ghost predicate Rises(w: World, w': World)
  {
    Expected(w.rx) <= Expected(w'.rx)
  }

  lemma {:induction false} RisesThrough(run: seq<World>, i: nat, j: nat)
    requires i <= j < |run| && forall n: nat :: n < j ==> Rises(run[n], run[n + 1])
    ensures Rises(run[i], run[j])
    decreases j
  {
    if i < j {
      RisesThrough(run, i, j - 1);
      assert Rises(run[j - 1], run[j - 1 + 1]);
    }
  }

  lemma {:induction false} KeepsThrough(rs: seq<Receiver>, i: nat, j: nat)
    requires i <= j < |rs| && forall n: nat :: n < j ==> Keeps(rs[n], rs[n + 1])
    ensures Keeps(rs[i], rs[j])
    decreases j
  {
    if i < j {
      KeepsThrough(rs, i, j - 1);
      assert Keeps(rs[j - 1], rs[j - 1 + 1]);
    }
  }

  lemma ReadableBefore(run: seq<World>, events: seq<Event>, i: nat, j: nat)
    requires Run(run, events) && i <= j < |run| && ReadableFrames(run[j].rx)
    ensures ReadableFrames(run[i].rx)
  {
    var rs := seq(|run|, n requires 0 <= n < |run| => run[n].rx);
    forall n: nat | n < j ensures Keeps(rs[n], rs[n + 1]) { StepKeeps(run[n], events[n], run[n + 1]); }
    KeepsThrough(rs, i, j);
    KeepsReadable(rs[i], rs[j]);
  }

  lemma KeepsReadable(r: Receiver, r': Receiver)
    requires Keeps(r, r') && ReadableFrames(r')
    ensures ReadableFrames(r)
  {
  }

  /** In every state of every run, whatever packet arrives: its number is recovered unless
      it is half a window late, or was sent 2^31 or more numbers after lg_acked. */
  lemma AlwaysRecovered(run: seq<World>, events: seq<Event>, i: nat, n: nat)
    requires Run(run, events) && i < |run| && ReadableFrames(run[i].rx) && n in run[i].net && n < PKT_NR_LIMIT
    requires var p := run[i].net[n];
             && n - (if p.lgAcked < 0 then 0 else p.lgAcked) < 0x8000_0000
             && Expected(run[i].rx) < n + Pow256(FieldLen(p, n)) / 2
    ensures Opens(run[i].rx, run[i].net[n], n)
  {
    RunHonest(run, events, i);
    assert PktHonest(run[i], n);
    RecoversNumber(run[i].net[n].lgAcked, n, Expected(run[i].rx));
  }
}
