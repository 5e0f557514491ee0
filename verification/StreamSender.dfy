/** The sending half of a stream: concat_out and track_bytes_out in lib/src/stream.c,
    tx_stream in lib/src/conn.c, enc_stream_or_crypto_frame in lib/src/frame.c. */
module StreamSender {
  import opened Varint
  import opened Streams
  import opened Partition

  const BURST_LEN: nat := 16

  /** A buffer of the out queue with the flags of its packet. */
  datatype Chunk = Chunk(data: seq<Byte>, fin: bool, txed: bool, acked: bool, lost: bool, off: nat)

  /** The out queue, the indices of out_una (the length if everything is acked) and
      out_last (-1 if unset), and out_data. */
  datatype Sender = Sender(chunks: seq<Chunk>, una: nat, last: int, data: nat)

  const NEW_SENDER := Sender([], 0, -1, 0)

  /** Where chunk `i` starts in the stream. */
  function Start(chunks: seq<Chunk>, i: nat): (r: nat)
    requires i <= |chunks|
  {
    if i == 0 then 0 else Start(chunks, i - 1) + |chunks[i - 1].data|
  }

  /** The bytes written to the stream. */
  function Written(chunks: seq<Chunk>): (r: seq<Byte>)
  {
    if chunks == [] then [] else Written(chunks[..|chunks| - 1]) + chunks[|chunks| - 1].data
  }

  /** FIN has been written: nothing may follow. */
  predicate Ended(chunks: seq<Chunk>)
  {
    chunks != [] && chunks[|chunks| - 1].fin
  }

  function FrameOf(c: Chunk): (r: Frame)
  {
    Frame(c.off, c.data, c.fin)
  }

  // ----- operations

  /** The application writes a chunk: concat_out. */
  function Write(s: Sender, data: seq<Byte>, fin: bool): (r: Sender)
  {
    s.(chunks := s.chunks + [Chunk(data, fin, false, false, false, 0)])
  }

  /** Chunk `i` is transmitted: the first time at the current offset, later again at
      the offset it has. */
  function Transmit(s: Sender, i: nat): (r: Sender)
    requires i < |s.chunks|
  {
    var c := s.chunks[i];
    if c.txed then s.(chunks := s.chunks[i := c.(lost := false)], last := i)
    else s.(chunks := s.chunks[i := c.(txed := true, off := s.data)], data := s.data + |c.data|, last := i)
  }

  /** Marks set by on_pkt_acked and on_pkt_lost. */
  function MarkAcked(s: Sender, i: nat): (r: Sender)
    requires i < |s.chunks|
  {
    s.(chunks := s.chunks[i := s.chunks[i].(acked := true)])
  }

  function MarkLost(s: Sender, i: nat): (r: Sender)
    requires i < |s.chunks|
  {
    s.(chunks := s.chunks[i := s.chunks[i].(lost := true)], last := -1)
  }

  /** out_una moves past acked chunks. */
  function Advance(s: Sender, una: nat): (r: Sender)
  {
    s.(una := una)
  }

  // ----- what the sender keeps

  /** The first `k` chunks have been transmitted, each at the place of its bytes in
      the stream; out_data is where the next one goes. */
  ghost predicate Sent(s: Sender, k: nat)
  {
    Placed(s, k) && Untouched(s, k) && AckedUpTo(s) && -1 <= s.last < k && FinLast(s.chunks)
  }

  ghost predicate Placed(s: Sender, k: nat)
  {
    && k <= |s.chunks| && s.data == Start(s.chunks, k)
    && forall i :: 0 <= i < k ==> s.chunks[i].txed && s.chunks[i].off == Start(s.chunks, i)
  }

  ghost predicate Untouched(s: Sender, k: nat)
  {
    forall i :: k <= i < |s.chunks| ==> !s.chunks[i].txed && !s.chunks[i].acked && !s.chunks[i].lost
  }

  ghost predicate AckedUpTo(s: Sender)
  {
    s.una <= |s.chunks| && forall i :: 0 <= i < s.una ==> s.chunks[i].acked
  }

  ghost predicate FinLast(chunks: seq<Chunk>)
  {
    forall i :: 0 <= i < |chunks| - 1 ==> !chunks[i].fin
  }

  lemma {:induction false} StartSame(a: seq<Chunk>, b: seq<Chunk>, i: nat)
    requires i <= |a| && i <= |b| && forall j :: 0 <= j < i ==> |a[j].data| == |b[j].data|
    ensures Start(a, i) == Start(b, i)
  {
    if i > 0 { StartSame(a, b, i - 1); }
  }

  /** The same bytes and FIN flags, whatever the marks. */
  ghost predicate SameContent(a: seq<Chunk>, b: seq<Chunk>)
  {
    && |a| == |b|
    && (forall i :: 0 <= i < |a| ==> a[i].data == b[i].data && a[i].fin == b[i].fin)
    && (forall i :: 0 <= i <= |a| ==> Start(a, i) == Start(b, i))
  }

  lemma RemarkedContent(a: seq<Chunk>, i: nat, c: Chunk)
    requires i < |a| && c.data == a[i].data && c.fin == a[i].fin
    ensures SameContent(a[i := c], a)
  {
    forall j | 0 <= j <= |a| ensures Start(a[i := c], j) == Start(a, j) { StartSame(a[i := c], a, j); }
  }

  lemma FirstTransmitKeeps(s: Sender, k: nat)
    requires Sent(s, k) && k < |s.chunks|
    ensures Sent(Transmit(s, k), k + 1)
  {
    RemarkedContent(s.chunks, k, Transmit(s, k).chunks[k]);
    assert Start(s.chunks, k + 1) == Start(s.chunks, k) + |s.chunks[k].data|;
  }

  lemma RetransmitKeeps(s: Sender, k: nat, i: nat)
    requires Sent(s, k) && i < k
    ensures Sent(Transmit(s, i), k)
  {
    RemarkedContent(s.chunks, i, Transmit(s, i).chunks[i]);
  }

  /** Transmitting the next chunk, or one before it again, keeps the offsets right. */
  lemma TransmitKeeps(s: Sender, k: nat, i: nat)
    requires Sent(s, k) && i <= k && i < |s.chunks|
    ensures Sent(Transmit(s, i), if i == k then k + 1 else k)
    ensures SameContent(Transmit(s, i).chunks, s.chunks) && Transmit(s, i).chunks[i].off == Start(s.chunks, i)
    ensures var s' := Transmit(s, i);
            && s'.chunks[i].txed && !s'.chunks[i].lost && s'.chunks[i].acked == s.chunks[i].acked
            && s'.last == i && s'.una == s.una && forall j :: 0 <= j < |s.chunks| && j != i ==> s'.chunks[j] == s.chunks[j]
  {
    if i == k { FirstTransmitKeeps(s, k); } else { RetransmitKeeps(s, k, i); }
    RemarkedContent(s.chunks, i, Transmit(s, i).chunks[i]);
  }

  lemma WriteKeeps(s: Sender, k: nat, data: seq<Byte>, fin: bool)
    requires Sent(s, k) && !Ended(s.chunks)
    ensures Sent(Write(s, data, fin), k)
  {
    var t := Write(s, data, fin).chunks;
    forall i | 0 <= i < |s.chunks| ensures t[i] == s.chunks[i] {}
    LongerSent(s, k, t);
  }

  /** A new chunk behind the others, neither transmitted nor marked. */
  lemma LongerSent(s: Sender, k: nat, t: seq<Chunk>)
    requires Sent(s, k) && !Ended(s.chunks) && |t| == |s.chunks| + 1
    requires forall i :: 0 <= i < |s.chunks| ==> t[i] == s.chunks[i]
    requires var c := t[|s.chunks|]; !c.txed && !c.acked && !c.lost
    ensures Sent(s.(chunks := t), k)
  {
    LongerPlaced(s, k, t);
    LongerMarks(s, k, t);
  }

  lemma LongerMarks(s: Sender, k: nat, t: seq<Chunk>)
    requires k <= |s.chunks| && Untouched(s, k) && AckedUpTo(s) && FinLast(s.chunks) && !Ended(s.chunks)
    requires |t| == |s.chunks| + 1 && forall i :: 0 <= i < |s.chunks| ==> t[i] == s.chunks[i]
    requires var c := t[|s.chunks|]; !c.txed && !c.acked && !c.lost
    ensures Untouched(s.(chunks := t), k) && AckedUpTo(s.(chunks := t)) && FinLast(t)
  {
  }

  lemma LongerPlaced(s: Sender, k: nat, t: seq<Chunk>)
    requires Placed(s, k) && |t| == |s.chunks| + 1 && forall i :: 0 <= i < |s.chunks| ==> t[i] == s.chunks[i]
    ensures Placed(s.(chunks := t), k)
  {
    StartSame(t, s.chunks, k);
    forall i | 0 <= i < k ensures t[i].txed && t[i].off == Start(t, i) { StartSame(t, s.chunks, i); }
  }

  lemma MarkKeeps(s: Sender, k: nat, i: nat)
    requires Sent(s, k) && i < k
    ensures Sent(MarkAcked(s, i), k) && Sent(MarkLost(s, i), k)
    ensures SameContent(MarkAcked(s, i).chunks, s.chunks) && SameContent(MarkLost(s, i).chunks, s.chunks)
  {
    RemarkKeeps(s, k, i, MarkAcked(s, i));
    RemarkKeeps(s, k, i, MarkLost(s, i));
  }

  lemma RemarkKeeps(s: Sender, k: nat, i: nat, s': Sender)
    requires Sent(s, k) && i < k && s'.una == s.una && s'.data == s.data && (s'.last == s.last || s'.last == -1)
    requires |s'.chunks| == |s.chunks| && s'.chunks == s.chunks[i := s'.chunks[i]]
    requires var c, d := s.chunks[i], s'.chunks[i];
             c.data == d.data && c.fin == d.fin && c.txed == d.txed && c.off == d.off && (c.acked ==> d.acked)
    ensures Sent(s', k) && SameContent(s'.chunks, s.chunks)
  {
    RemarkedContent(s.chunks, i, s'.chunks[i]);
  }

  // ----- the frames are pieces of what was written

  lemma {:induction false} WrittenLength(chunks: seq<Chunk>)
    ensures |Written(chunks)| == Start(chunks, |chunks|)
  {
    if chunks != [] {
      var n := |chunks| - 1;
      WrittenLength(chunks[..n]);
      StartSame(chunks[..n], chunks, n);
    }
  }

  lemma {:induction false} WrittenAt(chunks: seq<Chunk>, i: nat)
    requires i < |chunks|
    ensures Start(chunks, i) + |chunks[i].data| <= |Written(chunks)|
    ensures Written(chunks)[Start(chunks, i)..Start(chunks, i) + |chunks[i].data|] == chunks[i].data
    ensures i == |chunks| - 1 ==> Start(chunks, i) + |chunks[i].data| == |Written(chunks)|
    decreases |chunks|
  {
    var n := |chunks| - 1;
    WrittenLength(chunks);
    WrittenLength(chunks[..n]);
    StartSame(chunks[..n], chunks, n);
    if i < n {
      WrittenAt(chunks[..n], i);
      StartSame(chunks[..n], chunks, i);
    }
  }

  /** Every transmitted frame carries the bytes of the stream at its offset. */
  lemma FrameIsPiece(s: Sender, k: nat, i: nat)
    requires Sent(s, k) && i < k
    ensures Piece(FrameOf(s.chunks[i]), Written(s.chunks), Ended(s.chunks))
  {
    SentChunk(s, k, i);
    ChunkIsPiece(s.chunks, i);
  }

  lemma SentChunk(s: Sender, k: nat, i: nat)
    requires Sent(s, k) && i < k
    ensures s.chunks[i].off == Start(s.chunks, i) && (s.chunks[i].fin ==> i == |s.chunks| - 1)
  {
  }

  lemma ChunkIsPiece(chunks: seq<Chunk>, i: nat)
    requires i < |chunks| && chunks[i].off == Start(chunks, i) && (chunks[i].fin ==> i == |chunks| - 1)
    ensures Piece(FrameOf(chunks[i]), Written(chunks), Ended(chunks))
  {
    WrittenAt(chunks, i);
  }

  lemma {:induction false} SameWritten(a: seq<Chunk>, b: seq<Chunk>)
    requires |a| == |b| && forall i :: 0 <= i < |a| ==> a[i].data == b[i].data
    ensures Written(a) == Written(b)
  {
    if a != [] { SameWritten(a[..|a| - 1], b[..|b| - 1]); }
  }

  function Frames(chunks: seq<Chunk>): (r: seq<Frame>)
    ensures |r| == |chunks| && forall i :: 0 <= i < |r| ==> r[i] == FrameOf(chunks[i])
  {
    seq(|chunks|, i requires 0 <= i < |chunks| => FrameOf(chunks[i]))
  }

  /** Chunk `i` starts where the one before ends. */
  ghost predicate Follows(chunks: seq<Chunk>, i: nat)
    requires 0 < i < |chunks|
  {
    chunks[i].off == chunks[i - 1].off + |chunks[i - 1].data| && !chunks[i - 1].fin
  }

  lemma NextChunk(s: Sender, i: nat)
    requires Sent(s, |s.chunks|) && 0 < i < |s.chunks|
    ensures Follows(s.chunks, i)
  {
    SentChunk(s, |s.chunks|, i);
    SentChunk(s, |s.chunks|, i - 1);
  }

  /** The frames of all chunks, once transmitted, partition the stream. */
  lemma FramesAreChain(s: Sender)
    requires Sent(s, |s.chunks|) && forall i :: 0 <= i < |s.chunks| ==> |s.chunks[i].data| > 0 || s.chunks[i].fin
    ensures Chain(Frames(s.chunks))
  {
    forall i | 0 < i < |s.chunks| ensures Follows(s.chunks, i) { NextChunk(s, i); }
    ChainOfChunks(s.chunks);
  }

  lemma ChainOfChunks(chunks: seq<Chunk>)
    requires chunks != [] ==> chunks[0].off == 0
    requires forall i :: 0 < i < |chunks| ==> Follows(chunks, i)
    requires forall i :: 0 <= i < |chunks| ==> |chunks[i].data| > 0 || chunks[i].fin
    ensures Chain(Frames(chunks))
  {
    var ps := Frames(chunks);
    forall i | 0 < i < |ps| ensures ps[i].off == ps[i - 1].off + |ps[i - 1].data| { assert Follows(chunks, i); }
    forall i | 0 <= i < |ps| - 1 ensures |ps[i].data| > 0 && !ps[i].fin { assert Follows(chunks, i + 1); }
  }
}
