/** Reassembly is order independent: when all frames are pieces of one partition of
    the stream, the receiver's state depends only on the set of pieces seen. */
module Partition {
  import opened Streams

  /** Consecutive pieces; only the last may carry FIN, and only then be empty. */
  ghost predicate Chain(ps: seq<Frame>)
  {
    && (ps != [] ==> ps[0].off == 0)
    && (forall i :: 0 < i < |ps| ==> ps[i].off == ps[i - 1].off + |ps[i - 1].data|)
    && (forall i :: 0 <= i < |ps| ==> Useful(ps[i]))
    && (forall i :: 0 <= i < |ps| - 1 ==> |ps[i].data| > 0 && !ps[i].fin)
  }

  /** Where the first `k` pieces end. */
  function End(ps: seq<Frame>, k: nat): (r: nat)
    requires k <= |ps|
  {
    if k == 0 then 0 else ps[k - 1].off + |ps[k - 1].data|
  }

  /** The first piece from `k` on that has not been seen. */
  function Missing(n: nat, seen: set<nat>, k: nat): (r: nat)
    requires k <= n
    ensures k <= r <= n && (forall i :: k <= i < r ==> i in seen) && (r < n ==> r !in seen)
    decreases n - k
  {
    if k < n && k in seen then Missing(n, seen, k + 1) else k
  }

  /** The pieces seen with index from `j` up to `i`. */
  function Seen(ps: seq<Frame>, seen: set<nat>, j: nat, i: nat): (r: seq<Frame>)
    requires j <= i <= |ps|
    decreases i - j
  {
    if j == i then [] else (if j in seen then [ps[j]] else []) + Seen(ps, seen, j + 1, i)
  }

  function Total(fs: seq<Frame>): (r: nat)
  {
    if fs == [] then 0 else |fs[0].data| + Total(fs[1..])
  }

  /** The state that a set of pieces leads to: the longest complete prefix is queued,
      the other pieces are parked, and in_data counts the bytes of both. */
  function StateOf(ps: seq<Frame>, seen: set<nat>): (r: Receiver)
  {
    var k := Missing(|ps|, seen, 0);
    Upto(ps, seen, k)
  }

  /** The first `k` pieces queued, the pieces seen beyond piece `k` parked. */
  function Upto(ps: seq<Frame>, seen: set<nat>, k: nat): (r: Receiver)
    requires k <= |ps|
  {
    var rest := if k < |ps| then Seen(ps, seen, k + 1, |ps|) else [];
    Receiver(ps[..k], End(ps, k), End(ps, k) + Total(rest), rest, k > 0 && ps[k - 1].fin)
  }

  // ----- order of the pieces

  lemma {:induction false} LaterStart(ps: seq<Frame>, i: nat, j: nat)
    requires Chain(ps) && i < j < |ps|
    ensures Edge(ps[i]) < ps[j].off && ps[i].off < ps[j].off && End(ps, i + 1) <= ps[j].off
    decreases j
  {
    if i < j - 1 { LaterStart(ps, i, j - 1); }
  }

  lemma StartIsEnd(ps: seq<Frame>, k: nat)
    requires Chain(ps) && k < |ps|
    ensures ps[k].off == End(ps, k) && End(ps, k + 1) == End(ps, k) + |ps[k].data|
  {
  }

  lemma {:induction false} SeenMembers(ps: seq<Frame>, seen: set<nat>, j: nat, i: nat)
    requires j <= i <= |ps|
    ensures forall f :: f in Seen(ps, seen, j, i) ==> exists k :: j <= k < i && k in seen && ps[k] == f
    decreases i - j
  {
    if j < i { SeenMembers(ps, seen, j + 1, i); }
  }

  lemma {:induction false} SeenSplit(ps: seq<Frame>, seen: set<nat>, j: nat, m: nat, i: nat)
    requires j <= m <= i <= |ps|
    ensures Seen(ps, seen, j, i) == Seen(ps, seen, j, m) + Seen(ps, seen, m, i)
    decreases m - j
  {
    if j < m { SeenSplit(ps, seen, j + 1, m, i); }
  }

  lemma {:induction false} SeenSame(ps: seq<Frame>, seen: set<nat>, more: set<nat>, j: nat, i: nat)
    requires j <= i <= |ps| && forall k :: j <= k < i ==> (k in seen <==> k in more)
    ensures Seen(ps, seen, j, i) == Seen(ps, more, j, i)
    decreases i - j
  {
    if j < i { SeenSame(ps, seen, more, j + 1, i); }
  }

  lemma {:induction false} MissingSame(n: nat, seen: set<nat>, k: nat, j: nat)
    requires k <= j <= n && forall i :: k <= i < j ==> i in seen
    ensures Missing(n, seen, k) == Missing(n, seen, j)
    decreases j - k
  {
    if k < j { MissingSame(n, seen, k + 1, j); }
  }

  // ----- draining

  /** The state of the drain loop when the first `j` pieces are queued. */
  function Filling(ps: seq<Frame>, seen: set<nat>, j: nat): (r: Receiver)
    requires j <= |ps|
  {
    var rest := Seen(ps, seen, j, |ps|);
    Receiver(ps[..j], End(ps, j), End(ps, j) + Total(rest), rest, false)
  }

  /** A piece that has been seen is drained. */
  lemma DrainStep(ps: seq<Frame>, seen: set<nat>, j: nat)
    requires Chain(ps) && j < |ps| && j in seen
    ensures Drain(Filling(ps, seen, j)) == Drain(Filling(ps, seen, j + 1))
  {
    StartIsEnd(ps, j);
    assert Seen(ps, seen, j, |ps|)[1..] == Seen(ps, seen, j + 1, |ps|);
    assert ps[..j] + [ps[j]] == ps[..j + 1];
  }

  lemma FillsHere(ps: seq<Frame>, seen: set<nat>, j: nat)
    requires j <= |ps| && (j < |ps| ==> j !in seen)
    ensures Filling(ps, seen, j) == Upto(ps, seen, j).(closed := false)
  {
    assert j < |ps| ==> Seen(ps, seen, j, |ps|) == Seen(ps, seen, j + 1, |ps|);
  }

  lemma {:induction false} DrainFills(ps: seq<Frame>, seen: set<nat>, j: nat)
    requires Chain(ps) && j <= |ps|
    ensures var k := Missing(|ps|, seen, j);
            Drain(Filling(ps, seen, j)) == Upto(ps, seen, k).(closed := false)
    decreases |ps| - j
  {
    if j < |ps| && j in seen {
      DrainStep(ps, seen, j);
      DrainFills(ps, seen, j + 1);
    } else {
      FillsHere(ps, seen, j);
      if j < |ps| { NothingToDrain(ps, seen, j); }
    }
  }

  lemma NothingToDrain(ps: seq<Frame>, seen: set<nat>, j: nat)
    requires Chain(ps) && j < |ps| && j !in seen
    ensures Drain(Filling(ps, seen, j)) == Filling(ps, seen, j)
  {
    var rest := Seen(ps, seen, j, |ps|);
    if rest != [] {
      SeenMembers(ps, seen, j, |ps|);
      assert rest[0] in rest;
      var k :| j <= k < |ps| && k in seen && ps[k] == rest[0];
      StartIsEnd(ps, j);
      LaterStart(ps, j, k);
    }
  }

  // ----- one piece arrives

  /** The end of Receive: a FIN at the end of the queue closes the stream. */
  function Closing(r: Receiver): (r': Receiver)
  {
    r.(closed := r.closed || LastIsFin(r.queued))
  }

  /** A piece of the queued prefix changes nothing. */
  lemma OldPiece(ps: seq<Frame>, seen: set<nat>, i: nat)
    requires Chain(ps) && i < Missing(|ps|, seen, 0)
    ensures Receive(StateOf(ps, seen), ps[i]) == StateOf(ps, seen) && seen + {i} == seen
  {
    var k := Missing(|ps|, seen, 0);
    StartIsEnd(ps, i);
    if i + 1 < k {
      LaterStart(ps, i, k - 1);
      StartIsEnd(ps, k - 1);
    }
  }

  /** Queueing the missing piece starts the drain loop. */
  lemma StartsFilling(ps: seq<Frame>, seen: set<nat>, i: nat)
    requires Chain(ps) && i < |ps| && i == Missing(|ps|, seen, 0)
    ensures var r := StateOf(ps, seen);
            && ps[i].off == r.off && !r.closed
            && Enqueue(r, ps[i]).(data := r.data + |ps[i].data|) == Filling(ps, seen + {i}, i + 1)
  {
    StartIsEnd(ps, i);
    SeenSame(ps, seen, seen + {i}, i + 1, |ps|);
    assert ps[..i] + [ps[i]] == ps[..i + 1];
  }

  lemma FillingEnds(ps: seq<Frame>, seen: set<nat>, j: nat)
    requires Chain(ps) && 0 < j <= |ps| && forall i :: 0 <= i < j ==> i in seen
    ensures Closing(Drain(Filling(ps, seen, j))) == StateOf(ps, seen)
  {
    DrainFills(ps, seen, j);
    MissingSame(|ps|, seen, 0, j);
    ClosingUpto(ps, seen, Missing(|ps|, seen, j));
  }

  lemma ClosingUpto(ps: seq<Frame>, seen: set<nat>, k: nat)
    requires k <= |ps|
    ensures Closing(Upto(ps, seen, k).(closed := false)) == Upto(ps, seen, k)
  {
  }

  lemma ReceivesInOrder(r: Receiver, f: Frame, filling: Receiver, r': Receiver)
    requires Useful(f) && f.off == r.off && !r.closed
    requires Enqueue(r, f).(data := r.data + |f.data|) == filling && Closing(Drain(filling)) == r'
    ensures Receive(r, f) == r'
  {
  }

  /** The missing piece is queued, and with it all that follow. */
  lemma MissingPiece(ps: seq<Frame>, seen: set<nat>, i: nat, r: Receiver, r': Receiver)
    requires Chain(ps) && i < |ps| && i == Missing(|ps|, seen, 0)
    requires r == StateOf(ps, seen) && r' == StateOf(ps, seen + {i})
    ensures Receive(r, ps[i]) == r'
  {
    StartsFilling(ps, seen, i);
    var more, j := seen + {i}, i + 1;
    FillingEnds(ps, more, j);
    ReceivesInOrder(r, ps[i], Filling(ps, more, j), r');
  }

  /** A later piece that has been parked before is recognised as overlapping. */
  lemma ParkedPiece(ps: seq<Frame>, seen: set<nat>, i: nat)
    requires Chain(ps) && Missing(|ps|, seen, 0) < i < |ps| && i in seen
    ensures Receive(StateOf(ps, seen), ps[i]) == StateOf(ps, seen) && seen + {i} == seen
  {
    var k := Missing(|ps|, seen, 0);
    StartIsEnd(ps, k);
    LaterStart(ps, k, i);
    var a, b := Seen(ps, seen, k + 1, i), Seen(ps, seen, i, |ps|);
    SeenSplit(ps, seen, k + 1, i, |ps|);
    BelowPiece(ps, seen, k + 1, i);
    FirstIs(a, b, ps[i].off);
  }

  /** The parked pieces around a later piece that has not been seen. */
  lemma Around(ps: seq<Frame>, seen: set<nat>, j: nat, i: nat) returns (a: seq<Frame>, b: seq<Frame>)
    requires Chain(ps) && j <= i < |ps| && i !in seen
    ensures Seen(ps, seen, j, |ps|) == a + b && Seen(ps, seen + {i}, j, |ps|) == a + ([ps[i]] + b)
    ensures forall f :: f in a ==> Edge(f) < ps[i].off && f.off < ps[i].off
    ensures forall f :: f in b ==> f.off > Edge(ps[i]) && f.off > ps[i].off
  {
    var more := seen + {i};
    a, b := Seen(ps, seen, j, i), Seen(ps, seen, i + 1, |ps|);
    SeenSplit(ps, seen, j, i, |ps|);
    assert Seen(ps, seen, i, |ps|) == b;
    SeenSplit(ps, more, j, i, |ps|);
    SeenSame(ps, seen, more, j, i);
    SeenSame(ps, seen, more, i + 1, |ps|);
    assert Seen(ps, more, i, |ps|) == [ps[i]] + b;
    BelowPiece(ps, seen, j, i);
    AbovePiece(ps, seen, i);
  }

  /** A later piece seen for the first time is parked at its place. */
  lemma NewPiece(ps: seq<Frame>, seen: set<nat>, i: nat, r: Receiver, r': Receiver)
    requires Chain(ps) && Missing(|ps|, seen, 0) < i < |ps| && i !in seen
    requires r == StateOf(ps, seen) && r' == StateOf(ps, seen + {i})
    ensures Receive(r, ps[i]) == r'
  {
    var k := Missing(|ps|, seen, 0);
    MissingSame(|ps|, seen + {i}, 0, k);
    StillMissing(|ps|, seen, i, k);
    PieceParks(ps, seen, i, k, r, r');
  }

  lemma PieceParks(ps: seq<Frame>, seen: set<nat>, i: nat, k: nat, r: Receiver, r': Receiver)
    requires Chain(ps) && k < i < |ps| && i !in seen && r == Upto(ps, seen, k) && r' == Upto(ps, seen + {i}, k)
    ensures Receive(r, ps[i]) == r'
  {
    StartIsEnd(ps, k);
    LaterStart(ps, k, i);
    var a, b := Around(ps, seen, k + 1, i);
    UptoParked(ps, seen, k, a + b, r);
    UptoParked(ps, seen + {i}, k, a + ([ps[i]] + b), r');
    ParksBetween(r, ps[i], a, b);
  }

  lemma StillMissing(n: nat, seen: set<nat>, i: nat, k: nat)
    requires k < i < n && k !in seen
    ensures Missing(n, seen + {i}, k) == k
  {
  }

  lemma UptoParked(ps: seq<Frame>, seen: set<nat>, k: nat, parked: seq<Frame>, r: Receiver)
    requires Chain(ps) && k < |ps| && Seen(ps, seen, k + 1, |ps|) == parked && r == Upto(ps, seen, k)
    ensures r == Receiver(ps[..k], End(ps, k), End(ps, k) + Total(parked), parked, false)
  {
  }

  lemma ParksBetween(r: Receiver, f: Frame, a: seq<Frame>, b: seq<Frame>)
    requires Useful(f) && f.off > r.off && !r.closed && r.ooo == a + b
    requires forall g :: g in a ==> Edge(g) < f.off && g.off < f.off
    requires forall g :: g in b ==> g.off > Edge(f) && g.off > f.off
    ensures Receive(r, f) == r.(ooo := a + ([f] + b), data := r.data + |f.data|)
    ensures Total(a + ([f] + b)) == Total(r.ooo) + |f.data|
  {
    if b != [] { assert b[0] in b; }
    FirstIs(a, b, f.off);
    ParkBetween(a, b, f);
    TotalConcat(a, b);
    TotalConcat(a, [f] + b);
    assert ([f] + b)[1..] == b;
    if b != [] { assert (a + b)[|a|] == b[0]; }
  }

  lemma BelowPiece(ps: seq<Frame>, seen: set<nat>, j: nat, i: nat)
    requires Chain(ps) && j <= i < |ps|
    ensures forall f :: f in Seen(ps, seen, j, i) ==> Edge(f) < ps[i].off && f.off < ps[i].off
  {
    SeenMembers(ps, seen, j, i);
    forall f | f in Seen(ps, seen, j, i) ensures Edge(f) < ps[i].off && f.off < ps[i].off {
      var k :| j <= k < i && k in seen && ps[k] == f;
      LaterStart(ps, k, i);
    }
  }

  lemma AbovePiece(ps: seq<Frame>, seen: set<nat>, i: nat)
    requires Chain(ps) && i < |ps|
    ensures forall f :: f in Seen(ps, seen, i + 1, |ps|) ==> f.off > Edge(ps[i]) && f.off > ps[i].off
  {
    SeenMembers(ps, seen, i + 1, |ps|);
    forall f | f in Seen(ps, seen, i + 1, |ps|) ensures f.off > Edge(ps[i]) && f.off > ps[i].off {
      var k :| i + 1 <= k < |ps| && k in seen && ps[k] == f;
      LaterStart(ps, i, k);
    }
  }

  lemma FirstIs(a: seq<Frame>, b: seq<Frame>, off: nat)
    requires (forall f :: f in a ==> Edge(f) < off) && (b != [] ==> Edge(b[0]) >= off)
    ensures FirstReaching(a + b, off) == |a|
  {
    forall i | 0 <= i < |a| ensures Edge((a + b)[i]) < off { assert a[i] in a; }
    if b != [] { assert (a + b)[|a|] == b[0]; }
  }

  lemma {:induction false} ParkBetween(a: seq<Frame>, b: seq<Frame>, f: Frame)
    requires (forall g :: g in a ==> g.off < f.off) && (forall g :: g in b ==> g.off > f.off)
    ensures Park(a + b, f) == a + ([f] + b)
    decreases |a|
  {
    if a == [] {
      assert a + b == b;
      if b != [] { assert b[0] in b; }
    } else {
      assert a[0] in a && (a + b)[0] == a[0] && (a + b)[1..] == a[1..] + b;
      ParkBetween(a[1..], b, f);
    }
  }

  lemma {:induction false} TotalConcat(a: seq<Frame>, b: seq<Frame>)
    ensures Total(a + b) == Total(a) + Total(b)
  {
    if a == [] {
      assert a + b == b;
    } else {
      assert (a + b)[1..] == a[1..] + b;
      TotalConcat(a[1..], b);
    }
  }

  lemma PieceArrives(ps: seq<Frame>, seen: set<nat>, i: nat)
    requires Chain(ps) && i < |ps|
    ensures Receive(StateOf(ps, seen), ps[i]) == StateOf(ps, seen + {i})
  {
    var k := Missing(|ps|, seen, 0);
    if i < k {
      OldPiece(ps, seen, i);
    } else if i == k {
      MissingPiece(ps, seen, i, StateOf(ps, seen), StateOf(ps, seen + {i}));
    } else if i in seen {
      ParkedPiece(ps, seen, i);
    } else {
      NewPiece(ps, seen, i, StateOf(ps, seen), StateOf(ps, seen + {i}));
    }
  }

  // ----- any arrival sequence

  function Arrivals(ps: seq<Frame>, order: seq<nat>): (r: seq<Frame>)
    requires forall i :: 0 <= i < |order| ==> order[i] < |ps|
  {
    seq(|order|, i requires 0 <= i < |order| => ps[order[i]])
  }

  function Set(order: seq<nat>): (r: set<nat>)
  {
    set i | i in order
  }

  lemma LastArrival(ps: seq<Frame>, order: seq<nat>, n: nat)
    requires |order| == n + 1 && forall i :: 0 <= i < |order| ==> order[i] < |ps|
    ensures Set(order) == Set(order[..n]) + {order[n]}
    ensures ReceiveAll(NEW_RECEIVER, Arrivals(ps, order))
         == Receive(ReceiveAll(NEW_RECEIVER, Arrivals(ps, order[..n])), ps[order[n]])
  {
    assert Arrivals(ps, order)[..n] == Arrivals(ps, order[..n]);
  }

  /** Order independence: after any sequence of arrivals, with repetitions, the state
      is the one its set of pieces determines. */
  lemma {:induction false} OrderIndependent(ps: seq<Frame>, order: seq<nat>)
    requires Chain(ps) && forall i :: 0 <= i < |order| ==> order[i] < |ps|
    ensures ReceiveAll(NEW_RECEIVER, Arrivals(ps, order)) == StateOf(ps, Set(order))
    decreases |order|
  {
    if order == [] {
      Nothing(ps);
      assert Set(order) == {};
    } else {
      var n := |order| - 1;
      OrderIndependent(ps, order[..n]);
      LastArrival(ps, order, n);
      PieceArrives(ps, Set(order[..n]), order[n]);
    }
  }

  lemma Nothing(ps: seq<Frame>)
    ensures StateOf(ps, {}) == NEW_RECEIVER
  {
    if ps != [] { NoneSeen(ps, 1); }
  }

  lemma {:induction false} NoneSeen(ps: seq<Frame>, j: nat)
    requires j <= |ps|
    ensures Seen(ps, {}, j, |ps|) == []
    decreases |ps| - j
  {
    if j < |ps| { NoneSeen(ps, j + 1); }
  }

  /** Two arrival sequences of the same pieces lead to the same state. */
  lemma SamePiecesSameState(ps: seq<Frame>, a: seq<nat>, b: seq<nat>)
    requires Chain(ps) && Set(a) == Set(b)
    requires forall i :: 0 <= i < |a| ==> a[i] < |ps|
    requires forall i :: 0 <= i < |b| ==> b[i] < |ps|
    ensures ReceiveAll(NEW_RECEIVER, Arrivals(ps, a)) == ReceiveAll(NEW_RECEIVER, Arrivals(ps, b))
  {
    OrderIndependent(ps, a);
    OrderIndependent(ps, b);
  }

  /** Once every piece has arrived, everything is queued and nothing parked. */
  lemma AllSeenAllQueued(ps: seq<Frame>, order: seq<nat>)
    requires Chain(ps) && (forall i :: 0 <= i < |order| ==> order[i] < |ps|)
    requires forall i :: 0 <= i < |ps| ==> i in order
    ensures var r := ReceiveAll(NEW_RECEIVER, Arrivals(ps, order));
            r.queued == ps && r.off == r.data == End(ps, |ps|) && r.ooo == [] && (r.closed <==> LastIsFin(ps))
  {
    OrderIndependent(ps, order);
    assert Missing(|ps|, Set(order), 0) == |ps|;
    assert ps[..|ps|] == ps;
  }

  /** Without a common partition the order matters: of two overlapping frames the one
      that comes second is ignored. */
  lemma OverlapExample()
    ensures var a, b := Frame(2, [0, 0], false), Frame(3, [0, 0], false);
            && ReceiveAll(NEW_RECEIVER, [a, b]).ooo == [a]
            && ReceiveAll(NEW_RECEIVER, [b, a]).ooo == [b]
  {
    var a, b := Frame(2, [0, 0], false), Frame(3, [0, 0], false);
    TwoFrames(a, b);
    TwoFrames(b, a);
  }

  lemma TwoFrames(f: Frame, g: Frame)
    requires f.off > 0 && g.off > 0 && |f.data| == |g.data| == 2 && f.off <= g.off + 1 && g.off <= f.off + 1
    ensures ReceiveAll(NEW_RECEIVER, [f, g]).ooo == [f]
  {
    var r := Receive(NEW_RECEIVER, f);
    assert [f, g][..1] == [f] && [f][..0] == [];
    assert ReceiveAll(NEW_RECEIVER, []) == NEW_RECEIVER && ReceiveAll(NEW_RECEIVER, [f]) == r;
    assert r.ooo == [f] && r.off == 0;
    assert FirstReaching([f], g.off) == 0;
  }
}
