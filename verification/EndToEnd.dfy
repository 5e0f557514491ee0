/** A sender and a receiver of a stream over a network that drops, duplicates and
    reorders frames. */
module EndToEnd {
  import opened Ivals
  import opened Varint
  import opened Streams
  import opened StreamCodec
  import opened StreamSender
  import opened Transmission

  /** The stream `id`, with at most `full` bytes to a frame.  `sent` chunks have been
      transmitted at least once; `net` holds the bytes of every frame ever sent, each of
      which may arrive at any time, any number of times, or never. */
  datatype World = World(id: Option<nat>, full: nat, tx: Sender, sent: nat, net: set<seq<Byte>>, rx: Receiver)

  function NewWorld(id: Option<nat>, full: nat): (w: World)
  {
    World(id, full, NEW_SENDER, 0, {}, Streams.NEW_RECEIVER)
  }

  datatype Event =
    | Writes(data: seq<Byte>, fin: bool)
    | Transmits(frames: seq<Frame>)
    | IsAcked(i: nat)
    | IsLost(i: nat)
    | Advances(una: nat)
    | Delivers(bytes: seq<Byte>)

  /** A packet with the bytes `b` of a frame arrives: it is parsed, and received if it is
      for this stream. */
  function Arrive(w: World, b: seq<Byte>): (r: Receiver)
  {
    if b == [] then w.rx
    else
      var p := ParseFrame(b, 0, |b|);
      if p.Some? && p.value.0.sid == w.id then Receive(w.rx, p.value.0.frame) else w.rx
  }

  ghost predicate Step(w: World, e: Event, w': World)
  {
    match e
    case Writes(data, fin) =>
      && !Ended(w.tx.chunks) && |data| <= w.full && (fin ==> w.id.Some?)
      && w' == w.(tx := Write(w.tx, data, fin))
    case Transmits(frames) =>
      && w'.id == w.id && w'.full == w.full && w'.rx == w.rx
      && w'.net == w.net + (set f | f in frames :: WireBytes(Wire(w.id, f), w.full))
      && TxStep(w.tx, w.sent, w'.tx, w'.sent, frames)
    case IsAcked(i) => i < w.sent <= |w.tx.chunks| && w' == w.(tx := MarkAcked(w.tx, i))
    case IsLost(i) => i < w.sent <= |w.tx.chunks| && w' == w.(tx := MarkLost(w.tx, i))
    case Advances(una) =>
      && una <= |w.tx.chunks| && (forall i :: 0 <= i < una ==> w.tx.chunks[i].acked)
      && w' == w.(tx := Advance(w.tx, una))
    case Delivers(b) => b in w.net && w' == w.(rx := Arrive(w, b))
  }

  /** The bytes of the frame for chunk `i`. */
  function ChunkBytes(w: World, i: nat): (r: seq<Byte>)
    requires i < |w.tx.chunks|
  {
    WireBytes(Wire(w.id, FrameOf(w.tx.chunks[i])), w.full)
  }

  ghost predicate Run(run: seq<World>, events: seq<Event>)
  {
    && |run| == |events| + 1 && run[0] == NewWorld(run[0].id, run[0].full) && run[0].full < 0x1_0000
    && (run[0].id.Some? ==> run[0].id.value < VARINT_LIMIT)
    && forall i :: 0 <= i < |events| ==> Step(run[i], events[i], run[i + 1])
  }

  // ----- the sender and the network

  /** Chunks fit into a frame, and only streams end. */
  ghost predicate Framable(w: World)
  {
    && w.full < 0x1_0000 && (w.id.Some? ==> w.id.value < VARINT_LIMIT)
    && forall i :: 0 <= i < |w.tx.chunks| ==> |w.tx.chunks[i].data| <= w.full && (w.tx.chunks[i].fin ==> w.id.Some?)
  }

  /** Everything in the network is a frame of a transmitted chunk. */
  ghost predicate NetOk(w: World)
  {
    w.sent <= |w.tx.chunks| && forall b :: b in w.net ==> exists i :: 0 <= i < w.sent && b == ChunkBytes(w, i)
  }

  ghost predicate Sending(w: World)
  {
    Sent(w.tx, w.sent) && NetOk(w) && Framable(w)
  }

  /** Transmitted chunks stay as they are, and what is written only grows. */
  ghost predicate Grows(w: World, w': World)
  {
    && w.id == w'.id && w.full == w'.full && w.sent <= w'.sent && w.sent <= |w.tx.chunks| <= |w'.tx.chunks|
    && (forall i :: 0 <= i < w.sent ==> FrameOf(w'.tx.chunks[i]) == FrameOf(w.tx.chunks[i]))
    && Written(w.tx.chunks) <= Written(w'.tx.chunks)
  }

  lemma SameStream(a: seq<Chunk>, b: seq<Chunk>)
    requires SameContent(a, b)
    ensures Written(a) == Written(b) && Ended(a) == Ended(b)
  {
    SameWritten(a, b);
  }

  lemma ContentGrows(w: World, w': World)
    requires Sent(w.tx, w.sent) && Sent(w'.tx, w'.sent) && w.sent <= w'.sent && w.id == w'.id && w.full == w'.full
    requires SameContent(w'.tx.chunks, w.tx.chunks)
    ensures Grows(w, w') && (Framable(w) ==> Framable(w'))
  {
    SameStream(w'.tx.chunks, w.tx.chunks);
  }

  lemma WriteGrows(w: World, data: seq<Byte>, fin: bool, w': World)
    requires Sending(w) && Step(w, Writes(data, fin), w')
    ensures Sent(w'.tx, w'.sent) && Framable(w') && Grows(w, w')
    ensures Written(w'.tx.chunks) == Written(w.tx.chunks) + data && Ended(w'.tx.chunks) == fin
  {
    WriteKeeps(w.tx, w.sent, data, fin);
    assert w'.tx.chunks[..|w.tx.chunks|] == w.tx.chunks;
  }

  lemma StepGrows(w: World, e: Event, w': World)
    requires Sending(w) && Step(w, e, w')
    ensures Sent(w'.tx, w'.sent) && Framable(w') && Grows(w, w')
  {
    match e
    case Writes(data, fin) => WriteGrows(w, data, fin, w');
    case Transmits(frames) => ContentGrows(w, w');
    case IsAcked(i) =>
      MarkKeeps(w.tx, w.sent, i);
      ContentGrows(w, w');
    case IsLost(i) =>
      MarkKeeps(w.tx, w.sent, i);
      ContentGrows(w, w');
    case Advances(una) =>
    case Delivers(b) =>
  }

  lemma NetGrows(w: World, w': World, b: seq<Byte>)
    requires NetOk(w) && Grows(w, w') && b in w.net
    ensures exists i :: 0 <= i < w'.sent && i < |w'.tx.chunks| && b == ChunkBytes(w', i)
  {
    var i :| 0 <= i < w.sent && b == ChunkBytes(w, i);
    assert ChunkBytes(w', i) == b;
  }

  lemma FrameSent(w: World, frames: seq<Frame>, w': World, b: seq<Byte>)
    requires Step(w, Transmits(frames), w') && b in w'.net && b !in w.net
    ensures exists i :: 0 <= i < w'.sent && i < |w'.tx.chunks| && b == ChunkBytes(w', i)
  {
    var f :| f in frames && b == WireBytes(Wire(w.id, f), w.full);
    var i :| 0 <= i < w'.sent && f == FrameOf(w'.tx.chunks[i]);
    assert b == ChunkBytes(w', i);
  }

  lemma StepSending(w: World, e: Event, w': World)
    requires Sending(w) && Step(w, e, w')
    ensures Sending(w') && Grows(w, w')
  {
    StepGrows(w, e, w');
    forall b | b in w'.net ensures exists i :: 0 <= i < w'.sent && b == ChunkBytes(w', i) {
      if b in w.net { NetGrows(w, w', b); } else { FrameSent(w, e.frames, w', b); }
    }
  }

  // ----- the receiver

  /** decv gives back the offset of every frame sent.  It does below 2^48. */
  ghost predicate PlainOffsets(w: World)
  {
    w.sent <= |w.tx.chunks| && forall i :: 0 <= i < w.sent ==> Plain(w.tx.chunks[i].off)
  }

  ghost predicate Safe(w: World)
  {
    Sending(w) && Sound(w.rx, Written(w.tx.chunks), Ended(w.tx.chunks))
  }

  lemma ChunkFramable(w: World, i: nat)
    requires Sending(w) && i < w.sent && w.tx.chunks[i].off < VARINT_LIMIT
    ensures Encodable(Wire(w.id, FrameOf(w.tx.chunks[i])), w.full)
  {
  }

  /** A frame with a plain offset is received as it was sent, or belongs to another stream
      by mistake. */
  lemma ArriveExact(w: World, i: nat)
    requires Sending(w) && i < w.sent && Plain(w.tx.chunks[i].off)
    ensures Arrive(w, ChunkBytes(w, i)) == Receive(w.rx, FrameOf(w.tx.chunks[i])) || Arrive(w, ChunkBytes(w, i)) == w.rx
  {
    var x := Wire(w.id, FrameOf(w.tx.chunks[i]));
    ChunkFramable(w, i);
    ParseAlone(x, w.full, ChunkBytes(w, i));
  }

  lemma DeliverSafe(w: World, b: seq<Byte>, w': World)
    requires Safe(w) && PlainOffsets(w) && Step(w, Delivers(b), w')
    ensures Safe(w') && w.rx.off <= w'.rx.off
  {
    StepSending(w, Delivers(b), w');
    var i :| 0 <= i < w.sent && b == ChunkBytes(w, i);
    ArriveExact(w, i);
    FrameIsPiece(w.tx, w.sent, i);
    ReceiveOk(w.rx, FrameOf(w.tx.chunks[i]), Written(w.tx.chunks), Ended(w.tx.chunks));
  }

  lemma WriteSafe(w: World, data: seq<Byte>, fin: bool, w': World)
    requires Safe(w) && Step(w, Writes(data, fin), w')
    ensures Safe(w')
  {
    StepSending(w, Writes(data, fin), w');
    WriteGrows(w, data, fin, w');
    SoundGrows(w.rx, Written(w.tx.chunks), false, data, fin);
  }

  lemma SameSafe(w: World, e: Event, w': World)
    requires Safe(w) && Step(w, e, w') && !e.Writes? && !e.Delivers?
    ensures Safe(w') && w'.rx == w.rx
  {
    StepSending(w, e, w');
    if e.IsAcked? || e.IsLost? { MarkKeeps(w.tx, w.sent, e.i); }
    if !e.Advances? { SameStream(w'.tx.chunks, w.tx.chunks); }
  }

  lemma StepSafe(w: World, e: Event, w': World)
    requires Safe(w) && PlainOffsets(w) && Step(w, e, w')
    ensures Safe(w') && Grows(w, w') && w.rx.off <= w'.rx.off
  {
    StepSending(w, e, w');
    if e.Writes? {
      WriteSafe(w, e.data, e.fin, w');
    } else if e.Delivers? {
      DeliverSafe(w, e.bytes, w');
    } else {
      SameSafe(w, e, w');
    }
  }

  // ----- runs

  lemma {:induction false} RunSending(run: seq<World>, events: seq<Event>, i: nat)
    requires Run(run, events) && i < |run|
    ensures Sending(run[i])
  {
    if i > 0 {
      RunSending(run, events, i - 1);
      StepSending(run[i - 1], events[i - 1], run[i]);
    }
  }

  lemma {:induction false} GrowsThrough(run: seq<World>, i: nat, j: nat)
    requires i <= j < |run| && run[i].sent <= |run[i].tx.chunks|
    requires forall n: nat :: n < |run| - 1 ==> Grows(run[n], run[n + 1])
    ensures Grows(run[i], run[j])
    decreases j
  {
    if i < j {
      GrowsThrough(run, i, j - 1);
      assert Grows(run[j - 1], run[j - 1 + 1]);
    }
  }

  /** Transmitted frames stay, and what has been written only ever grows. */
  lemma RunGrows(run: seq<World>, events: seq<Event>, i: nat, j: nat)
    requires Run(run, events) && i <= j < |run|
    ensures Grows(run[i], run[j]) && (PlainOffsets(run[j]) ==> PlainOffsets(run[i]))
  {
    forall n: nat | n < |run| - 1 ensures Grows(run[n], run[n + 1]) {
      RunSending(run, events, n);
      StepSending(run[n], events[n], run[n + 1]);
    }
    RunSending(run, events, i);
    GrowsThrough(run, i, j);
    if PlainOffsets(run[j]) { PlainBefore(run[i], run[j]); }
  }

  lemma PlainBefore(w: World, w': World)
    requires Grows(w, w') && PlainOffsets(w')
    ensures PlainOffsets(w)
  {
    forall i | 0 <= i < w.sent ensures Plain(w.tx.chunks[i].off) {
      assert FrameOf(w'.tx.chunks[i]) == FrameOf(w.tx.chunks[i]);
    }
  }

  lemma {:induction false} RunSafe(run: seq<World>, events: seq<Event>, i: nat)
    requires Run(run, events) && i < |run| && PlainOffsets(run[i])
    ensures Safe(run[i])
  {
    if i > 0 {
      RunGrows(run, events, i - 1, i);
      RunSafe(run, events, i - 1);
      StepSafe(run[i - 1], events[i - 1], run[i]);
    }
  }

  /** What the receiver holds is what the sender wrote. */
  ghost predicate Faithful(w: World)
  {
    var s, rx := Written(w.tx.chunks), w.rx;
    && rx.off <= |s| && Bytes(rx.queued) == s[..rx.off]
    && (forall j :: 0 <= j < |rx.ooo| ==> rx.ooo[j].off > rx.off && Piece(rx.ooo[j], s, Ended(w.tx.chunks)))
    && (forall j, m :: 0 <= j < m < |rx.ooo| ==> Edge(rx.ooo[j]) < rx.ooo[m].off)
    && (rx.closed ==> Ended(w.tx.chunks) && Bytes(rx.queued) == s)
  }

  /** End to end: in every state of every run in which the offsets sent are plain, the
      bytes the receiver has queued are exactly the first in_data_off bytes the sender has
      written, parked frames are pairwise disjoint, above that offset and carry bytes of the
      stream, and a closed receiver has all of it. */
  lemma Delivered(run: seq<World>, events: seq<Event>, i: nat)
    requires Run(run, events) && i < |run| && PlainOffsets(run[i])
    ensures Faithful(run[i])
  {
    RunSafe(run, events, i);
    var s := Written(run[i].tx.chunks);
    assert s[..|s|] == s;
  }

  /** Streams shorter than 2^48 have plain offsets only. */
  lemma ShortIsPlain(run: seq<World>, events: seq<Event>, i: nat)
    requires Run(run, events) && i < |run| && |Written(run[i].tx.chunks)| < 0x1_0000_0000_0000
    ensures PlainOffsets(run[i])
  {
    var w := run[i];
    RunSending(run, events, i);
    forall j | 0 <= j < w.sent ensures Plain(w.tx.chunks[j].off) {
      SentChunk(w.tx, w.sent, j);
      WrittenAt(w.tx.chunks, j);
      BelowIsPlain(w.tx.chunks[j].off);
    }
  }

  /** What has been delivered is never taken back. */
  lemma DeliveredStays(run: seq<World>, events: seq<Event>, i: nat, j: nat)
    requires Run(run, events) && i <= j < |run| && PlainOffsets(run[j])
    ensures Bytes(run[i].rx.queued) <= Bytes(run[j].rx.queued)
  {
    RunGrows(run, events, i, j);
    Delivered(run, events, i);
    Delivered(run, events, j);
    OffsetGrows(run, events, i, j);
  }

  ghost predicate Onward(w: World, w': World)
  {
    w.rx.off <= w'.rx.off
  }

  lemma {:induction false} OnwardThrough(run: seq<World>, i: nat, j: nat)
    requires i <= j < |run| && forall n: nat :: n < j ==> Onward(run[n], run[n + 1])
    ensures Onward(run[i], run[j])
    decreases j
  {
    if i < j {
      OnwardThrough(run, i, j - 1);
      assert Onward(run[j - 1], run[j - 1 + 1]);
    }
  }

  lemma OffsetGrows(run: seq<World>, events: seq<Event>, i: nat, j: nat)
    requires Run(run, events) && i <= j < |run| && PlainOffsets(run[j])
    ensures Onward(run[i], run[j])
  {
    forall n: nat | n < j ensures Onward(run[n], run[n + 1]) {
      RunGrows(run, events, n, j);
      OffsetStep(run, events, n);
    }
    OnwardThrough(run, i, j);
  }

  lemma OffsetStep(run: seq<World>, events: seq<Event>, i: nat)
    requires Run(run, events) && i < |events| && PlainOffsets(run[i])
    ensures run[i].rx.off <= run[i + 1].rx.off
  {
    RunSafe(run, events, i);
    StepSafe(run[i], events[i], run[i + 1]);
  }

  // ----- without plain offsets

  /** In every safe state, a frame whose offset is read as one beyond all that was written
      breaks this on arrival: it is parked where the stream has no such bytes. */
  lemma MisplacedBreaks(w: World, i: nat, w': World)
    requires Safe(w) && i < w.sent && w.tx.chunks[i].off < VARINT_LIMIT && !w.rx.closed
    requires w.id.Some? ==> Plain(w.id.value)
    requires Useful(FrameOf(w.tx.chunks[i])) && Seen(w.tx.chunks[i].off) > |Written(w.tx.chunks)|
    requires Step(w, Delivers(ChunkBytes(w, i)), w')
    ensures !Faithful(w')
  {
    var f := FrameOf(w.tx.chunks[i]);
    ArriveSeen(w, i, f);
    ParkedBeyond(w.rx, f.(off := Seen(f.off)), w');
  }

  lemma ArriveSeen(w: World, i: nat, f: Frame)
    requires Sending(w) && i < w.sent && f == FrameOf(w.tx.chunks[i]) && f.off < VARINT_LIMIT
    requires w.id.Some? ==> Plain(w.id.value)
    ensures Arrive(w, ChunkBytes(w, i)) == Receive(w.rx, f.(off := Seen(f.off)))
  {
    ChunkFramable(w, i);
    ParseAlone(Wire(w.id, f), w.full, ChunkBytes(w, i));
    assert SeenWire(Wire(w.id, f)) == Wire(w.id, f.(off := Seen(f.off)));
  }

  lemma ParkedBeyond(r: Receiver, g: Frame, w': World)
    requires Sound(r, Written(w'.tx.chunks), Ended(w'.tx.chunks)) && w'.rx == Receive(r, g)
    requires Useful(g) && g.off > |Written(w'.tx.chunks)| && !r.closed
    ensures !Faithful(w')
  {
    NoneReaches(r, g, Written(w'.tx.chunks), Ended(w'.tx.chunks));
    ParkMembers(r.ooo, g);
    assert g in w'.rx.ooo;
    var j :| 0 <= j < |w'.rx.ooo| && w'.rx.ooo[j] == g;
    assert !Piece(w'.rx.ooo[j], Written(w'.tx.chunks), Ended(w'.tx.chunks));
  }

  /** Nothing parked reaches beyond the end of the stream. */
  lemma NoneReaches(r: Receiver, g: Frame, s: seq<Byte>, ended: bool)
    requires Sound(r, s, ended) && Useful(g) && g.off > |s| && !r.closed
    ensures Receive(r, g) == r.(ooo := Park(r.ooo, g), data := r.data + |g.data|)
  {
    forall i | 0 <= i < |r.ooo| ensures Edge(r.ooo[i]) < g.off { assert Piece(r.ooo[i], s, ended); }
  }
}
