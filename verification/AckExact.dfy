/** Exactly when track_acked_pkts (lib/src/recovery.c) reads back the intervals of the ACK
    frame that enc_ack_frame (lib/src/frame.c) wrote, although decv misreads some fields. */
module AckExact {
  import opened Ivals
  import opened Varint
  import opened RemoveRange
  import opened AckCodec

  /** decv gives back the largest number, the count, and every range and gap. */
  ghost predicate RangesPlain(v: seq<Iv>)
    requires Canonical(v) && v != []
  {
    Plain(v[|v| - 1].hi) && Plain(|v| - 1) && AllPlain(FromRange(v))
  }

  function SeenEcn(ecn: Ecn): (r: Ecn)
  {
    match ecn
    case NoEcn => NoEcn
    case Counts(ect0, ect1, ce) => Counts(Seen(ect0), Seen(ect1), Seen(ce))
  }

  /** The fields of a frame as decv sees them. */
  ghost function SeenFields(v: seq<Iv>, delay: nat, ecn: Ecn): (r: seq<nat>)
    requires Canonical(v) && v != []
  {
    [Seen(v[|v| - 1].hi), Seen(delay), Seen(|v| - 1)] + (SeenAll(FromRange(v)) + EcnFields(SeenEcn(ecn)))
  }

  lemma ThreeSeen(x: nat, y: nat, z: nat)
    ensures SeenAll([x, y, z]) == [Seen(x), Seen(y), Seen(z)]
  {
  }

  lemma SeenFrame(v: seq<Iv>, delay: nat, ecn: Ecn)
    requires Canonical(v) && v != []
    ensures SeenAll(AckFields(v, delay, ecn)) == SeenFields(v, delay, ecn)
    ensures RangesPlain(v) ==> SeenFields(v, delay, ecn) == AckFields(v, Seen(delay), SeenEcn(ecn))
  {
    var head := [v[|v| - 1].hi, delay, |v| - 1];
    SeenParts(head, FromRange(v) + EcnFields(ecn));
    SeenParts(FromRange(v), EcnFields(ecn));
    ThreeSeen(v[|v| - 1].hi, delay, |v| - 1);
    if ecn.Counts? { ThreeSeen(ecn.ect0, ecn.ect1, ecn.ce); }
    if RangesPlain(v) { PlainSeen(FromRange(v)); }
  }

  lemma HeadRead(read: Reader, pos: nat, hi: nat, delay: nat, cnt: nat, tail: seq<nat>, end: nat)
    requires Reads(read, pos, [hi, delay, cnt] + tail, end)
    ensures var lg := ReadOrZero(read, pos);
            var c := ReadOrZero(read, ReadOrZero(read, lg.1).1);
            lg.0 == hi && c.0 == cnt && Reads(read, c.1, tail, end)
  {
    assert [hi, delay, cnt] + tail == [hi] + ([delay] + ([cnt] + tail));
    ReadsCons(read, pos, hi, [delay] + ([cnt] + tail), end);
    var p := read(pos).value.1;
    ReadsCons(read, p, delay, [cnt] + tail, end);
    ReadsCons(read, read(p).value.1, cnt, tail, end);
  }

  lemma {:induction false} TrackRangesLength(read: Reader, pos: nat, n: nat, lg: nat)
    ensures |TrackRanges(read, pos, n, lg)| == n
    ensures n > 0 ==> TrackRanges(read, pos, n, lg)[0] == (Minus(lg, ReadOrZero(read, pos).0), lg)
    decreases n
  {
    if n > 0 {
      var rng := ReadOrZero(read, pos);
      var gap := if n > 1 then ReadOrZero(read, rng.1) else (0, rng.1);
      TrackRangesLength(read, gap.1, n - 1, Minus(lg, rng.0 + gap.0 + 2));
    }
  }

  lemma {:induction false} ReversedLength(v: seq<Iv>)
    ensures |Reversed(v)| == |v| && (v != [] ==> Reversed(v)[0] == (v[|v| - 1].lo, v[|v| - 1].hi))
  {
    if v != [] { ReversedLength(v[..|v| - 1]); }
  }

  /** A difference comes out right only if what was subtracted was read right. */
  lemma MinusSeen(a: nat, b: nat, x: nat, y: nat)
    requires b + x <= a < VARINT_LIMIT && y <= x + 2 * 0x100_0000_0000_0000 && Minus(a, y) == b
    ensures a - y == b
  {
    assert (a - y) % (UINT_T_MAX + 1) == if y <= a then a - y else a - y + (UINT_T_MAX + 1);
  }

  lemma SeenBounds(x: nat)
    requires x < VARINT_LIMIT
    ensures x <= Seen(x) <= x + 0x100_0000_0000_0000 && (Plain(x) <==> Seen(x) == x)
  {
  }

  lemma TrackUnfold(read: Reader, pos: nat, n: nat, lg: nat, x: nat, p: nat, gap: nat, g: nat)
    requires n > 1 && read(pos) == Some((x, p)) && read(p) == Some((gap, g))
    ensures TrackRanges(read, pos, n, lg)[1..] == TrackRanges(read, g, n - 1, Minus(lg, x + gap + 2))
  {
  }

  /** The highest range, then `p`, and the gap below it, then `g`, as they are read. */
  ghost predicate FirstSeen(read: Reader, pos: nat, v: seq<Iv>, rest: seq<nat>, end: nat, p: nat, g: nat)
    requires Canonical(v) && v != []
  {
    var b, w := v[|v| - 1], v[..|v| - 1];
    && read(pos) == Some((Seen(b.hi - b.lo), p))
    && (w != [] ==>
          && w[|w| - 1].hi + 2 <= b.lo && read(p) == Some((Seen(b.lo - w[|w| - 1].hi - 2), g))
          && Reads(read, g, SeenAll(FromRange(w)) + rest, end))
  }

  lemma PairSeen(read: Reader, pos: nat, x: nat, y: nat, ys: seq<nat>, rest: seq<nat>, end: nat)
    returns (p: nat, g: nat)
    requires Reads(read, pos, SeenAll([x] + ([y] + ys)) + rest, end)
    ensures read(pos) == Some((Seen(x), p)) && read(p) == Some((Seen(y), g)) && Reads(read, g, SeenAll(ys) + rest, end)
  {
    SeenTwo(x, y, ys);
    p, g := ReadsTwo(read, pos, Seen(x), Seen(y), SeenAll(ys), rest, end);
  }

  lemma RangeSeen(read: Reader, pos: nat, v: seq<Iv>, rest: seq<nat>, end: nat) returns (p: nat, g: nat)
    requires Canonical(v) && v != [] && Reads(read, pos, SeenAll(FromRange(v)) + rest, end)
    ensures FirstSeen(read, pos, v, rest, end, p, g)
  {
    var b, w := v[|v| - 1], v[..|v| - 1];
    RangeParts(v, w);
    g := 0;
    if w == [] {
      OneSeenAll(b.hi - b.lo);
      p := ReadsOne(read, pos, Seen(b.hi - b.lo), rest, end);
    } else {
      p, g := PairSeen(read, pos, b.hi - b.lo, b.lo - w[|w| - 1].hi - 2, FromRange(w), rest, end);
    }
  }

  lemma SeenTwo(x: nat, y: nat, ys: seq<nat>)
    ensures SeenAll([x] + ([y] + ys)) == [Seen(x)] + ([Seen(y)] + SeenAll(ys))
    ensures AllPlain([x] + ([y] + ys)) <==> Plain(x) && Plain(y) && AllPlain(ys)
  {
    SeenParts([x], [y] + ys);
    SeenParts([y], ys);
    OneSeenAll(x);
    OneSeenAll(y);
  }

  lemma OneSeenAll(x: nat)
    ensures SeenAll([x]) == [Seen(x)] && (AllPlain([x]) <==> Plain(x))
  {
    assert [x][0] == x;
  }

  lemma FirstPlain(read: Reader, pos: nat, v: seq<Iv>, p: nat)
    requires Canonical(v) && v != [] && v[|v| - 1].hi < VARINT_LIMIT
    requires read(pos) == Some((Seen(v[|v| - 1].hi - v[|v| - 1].lo), p))
    requires TrackRanges(read, pos, |v|, v[|v| - 1].hi) == Reversed(v)
    ensures Plain(v[|v| - 1].hi - v[|v| - 1].lo)
  {
    var b := v[|v| - 1];
    TrackRangesLength(read, pos, |v|, b.hi);
    ReversedLength(v);
    SeenBounds(b.hi - b.lo);
    MinusSeen(b.hi, b.lo, b.hi - b.lo, Seen(b.hi - b.lo));
  }

  /** If the ranges come out right, every length and gap was read right. */
  lemma {:induction false} TrackOnlyPlain(read: Reader, pos: nat, v: seq<Iv>, rest: seq<nat>, end: nat)
    requires Canonical(v) && v != [] && v[|v| - 1].hi < VARINT_LIMIT
    requires Reads(read, pos, SeenAll(FromRange(v)) + rest, end)
    requires TrackRanges(read, pos, |v|, v[|v| - 1].hi) == Reversed(v)
    ensures AllPlain(FromRange(v))
    decreases |v|
  {
    var w := v[..|v| - 1];
    var p, g := RangeSeen(read, pos, v, rest, end);
    FirstPlain(read, pos, v, p);
    if w != [] {
      NextPlain(read, pos, v, w, rest, end, p, g);
      TrackOnlyPlain(read, g, w, rest, end);
    }
    PartsPlain(v, w);
  }

  /** A list of fields is plain if its first range and gap and the rest are. */
  lemma PartsPlain(v: seq<Iv>, w: seq<Iv>)
    requires Canonical(v) && v != [] && w == v[..|v| - 1] && Plain(v[|v| - 1].hi - v[|v| - 1].lo)
    requires w != [] ==> v[|v| - 1].lo >= w[|w| - 1].hi + 2
    requires w != [] ==> Plain(v[|v| - 1].lo - w[|w| - 1].hi - 2) && AllPlain(FromRange(w))
    ensures AllPlain(FromRange(v))
  {
    RangeParts(v, w);
    if w == [] {
      OneSeenAll(v[|v| - 1].hi - v[|v| - 1].lo);
    } else {
      SeenTwo(v[|v| - 1].hi - v[|v| - 1].lo, v[|v| - 1].lo - w[|w| - 1].hi - 2, FromRange(w));
    }
  }

  lemma NextPlain(read: Reader, pos: nat, v: seq<Iv>, w: seq<Iv>, rest: seq<nat>, end: nat, p: nat, g: nat)
    requires Canonical(v) && |v| > 1 && w == v[..|v| - 1] && v[|v| - 1].hi < VARINT_LIMIT
    requires FirstSeen(read, pos, v, rest, end, p, g) && Plain(v[|v| - 1].hi - v[|v| - 1].lo)
    requires TrackRanges(read, pos, |v|, v[|v| - 1].hi) == Reversed(v)
    ensures Plain(v[|v| - 1].lo - w[|w| - 1].hi - 2) && TrackRanges(read, g, |w|, w[|w| - 1].hi) == Reversed(w)
  {
    var b := v[|v| - 1];
    var gap := b.lo - w[|w| - 1].hi - 2;
    TrackedTail(read, pos, v, w, b.hi, b.hi - b.lo, p, Seen(gap), g);
    GapPlain(b, w[|w| - 1].hi, b.hi - b.lo, gap);
  }

  lemma GapPlain(b: Iv, top: nat, x: nat, gap: nat)
    requires top + 2 <= b.lo <= b.hi < VARINT_LIMIT && x == b.hi - b.lo && gap == b.lo - top - 2
    requires Minus(b.hi, x + Seen(gap) + 2) == top
    ensures Plain(gap)
  {
    SeenBounds(gap);
    MinusSeen(b.hi, top, x + gap + 2, x + Seen(gap) + 2);
  }

  lemma TrackedTail(read: Reader, pos: nat, v: seq<Iv>, w: seq<Iv>, lg: nat, x: nat, p: nat, gap: nat, g: nat)
    requires |v| > 1 && w == v[..|v| - 1] && read(pos) == Some((x, p)) && read(p) == Some((gap, g))
    requires TrackRanges(read, pos, |v|, lg) == Reversed(v)
    ensures Minus(lg, x + gap + 2) == w[|w| - 1].hi
    ensures TrackRanges(read, g, |w|, w[|w| - 1].hi) == Reversed(w)
  {
    TrackUnfold(read, pos, |v|, lg, x, p, gap, g);
    ReversedStep(v);
    assert Reversed(v)[1..] == Reversed(w);
    TrackRangesLength(read, g, |w|, Minus(lg, x + gap + 2));
    ReversedLength(w);
  }

  /** track_acked_pkts reads the intervals of a frame it finds in a packet if and only if
      the largest number, the count, the ranges and the gaps are plain.  It skips the
      delay and never reaches the ECN counts, so those do not matter. */
  lemma TrackExact(v: seq<Iv>, delay: nat, ecn: Ecn, s: seq<Byte>, pos: nat, end: nat)
    requires Canonical(v) && v != [] && Encodable(v, delay, ecn)
    requires At(s, pos, AckBytes(v, delay, ecn)) && pos + |AckBytes(v, delay, ecn)| <= end <= |s|
    ensures TrackAcked(Decoder(s, end), pos + 1) == Reversed(v) <==> RangesPlain(v)
  {
    FrameSeen(v, delay, ecn, s, pos, end);
    TrackSeen(v, delay, ecn, Decoder(s, end), pos + 1, pos + |AckBytes(v, delay, ecn)|);
  }

  lemma TrackSeen(v: seq<Iv>, delay: nat, ecn: Ecn, read: Reader, pos: nat, last: nat)
    requires Canonical(v) && v != [] && Encodable(v, delay, ecn) && Reads(read, pos, SeenFields(v, delay, ecn), last)
    ensures TrackAcked(read, pos) == Reversed(v) <==> RangesPlain(v)
  {
    if RangesPlain(v) {
      SeenFrame(v, delay, ecn);
      FrameBack(read, pos, v, Seen(delay), SeenEcn(ecn), last);
    } else if TrackAcked(read, pos) == Reversed(v) {
      TrackedPlain(v, Seen(delay), EcnFields(SeenEcn(ecn)), read, pos, last);
    }
  }

  lemma FrameSeen(v: seq<Iv>, delay: nat, ecn: Ecn, s: seq<Byte>, pos: nat, end: nat)
    requires Canonical(v) && v != [] && Encodable(v, delay, ecn)
    requires At(s, pos, AckBytes(v, delay, ecn)) && pos + |AckBytes(v, delay, ecn)| <= end <= |s|
    ensures Reads(Decoder(s, end), pos + 1, SeenFields(v, delay, ecn), pos + |AckBytes(v, delay, ecn)|)
  {
    var xs := AckFields(v, delay, ecn);
    EncodableFields(v, delay, ecn);
    SeenBehind(s, pos, FrameType(ecn), xs, end);
    SeenFrame(v, delay, ecn);
  }

  lemma SeenBehind(s: seq<Byte>, pos: nat, t: Byte, xs: seq<nat>, end: nat)
    requires AllBelow(xs, VARINT_LIMIT) && At(s, pos, [t] + FieldBytes(xs)) && pos + 1 + |FieldBytes(xs)| <= end <= |s|
    ensures Reads(Decoder(s, end), pos + 1, SeenAll(xs), pos + 1 + |FieldBytes(xs)|)
  {
    AtSplit(s, pos, [t], FieldBytes(xs));
    FieldsSeen(s, pos + 1, xs, end);
  }

  lemma EncodableFields(v: seq<Iv>, delay: nat, ecn: Ecn)
    requires Canonical(v) && v != [] && Encodable(v, delay, ecn)
    ensures AllBelow(AckFields(v, delay, ecn), VARINT_LIMIT)
  {
    SmallRanges(v, VARINT_LIMIT);
    var xs := AckFields(v, delay, ecn);
    forall i | 0 <= i < |xs| ensures xs[i] < VARINT_LIMIT {
      if i >= 3 { assert xs[i] == (FromRange(v) + EcnFields(ecn))[i - 3]; }
    }
  }

  lemma TrackedPlain(v: seq<Iv>, delay: nat, rest: seq<nat>, read: Reader, pos: nat, last: nat)
    requires Canonical(v) && v != [] && v[|v| - 1].hi < VARINT_LIMIT && |v| <= VARINT_LIMIT
    requires Reads(read, pos, [Seen(v[|v| - 1].hi), delay, Seen(|v| - 1)] + (SeenAll(FromRange(v)) + rest), last)
    requires TrackAcked(read, pos) == Reversed(v)
    ensures RangesPlain(v)
  {
    var p := TrackedHead(read, pos, Seen(v[|v| - 1].hi), delay, Seen(|v| - 1), SeenAll(FromRange(v)) + rest, last);
    TailPlain(v, read, p, rest, last);
  }

  lemma TailPlain(v: seq<Iv>, read: Reader, p: nat, rest: seq<nat>, last: nat)
    requires Canonical(v) && v != [] && v[|v| - 1].hi < VARINT_LIMIT && |v| <= VARINT_LIMIT
    requires Reads(read, p, SeenAll(FromRange(v)) + rest, last)
    requires TrackRanges(read, p, Seen(|v| - 1) + 1, Seen(v[|v| - 1].hi)) == Reversed(v)
    ensures RangesPlain(v)
  {
    HeadPlain(v, read, p);
    TrackOnlyPlain(read, p, v, rest, last);
  }

  lemma TrackedHead(read: Reader, pos: nat, hi: nat, delay: nat, cnt: nat, tail: seq<nat>, last: nat) returns (p: nat)
    requires Reads(read, pos, [hi, delay, cnt] + tail, last)
    ensures Reads(read, p, tail, last) && TrackAcked(read, pos) == TrackRanges(read, p, cnt + 1, hi)
  {
    HeadRead(read, pos, hi, delay, cnt, tail, last);
    p := ReadOrZero(read, ReadOrZero(read, ReadOrZero(read, pos).1).1).1;
  }

  lemma HeadPlain(v: seq<Iv>, read: Reader, p: nat)
    requires v != [] && v[|v| - 1].hi < VARINT_LIMIT && |v| <= VARINT_LIMIT
    requires TrackRanges(read, p, Seen(|v| - 1) + 1, Seen(v[|v| - 1].hi)) == Reversed(v)
    ensures Plain(v[|v| - 1].hi) && Plain(|v| - 1)
  {
    TrackRangesLength(read, p, Seen(|v| - 1) + 1, Seen(v[|v| - 1].hi));
    ReversedLength(v);
    SeenBounds(v[|v| - 1].hi);
    SeenBounds(|v| - 1);
  }

  /** When all numbers are below 2^48 the ranges are plain. */
  lemma SmallRangesPlain(v: seq<Iv>)
    requires Canonical(v) && v != [] && v[|v| - 1].hi < 0x1_0000_0000_0000
    ensures RangesPlain(v)
  {
    FewIntervals(v);
    SmallRanges(v, 0x1_0000_0000_0000);
    BelowIsPlain(v[|v| - 1].hi);
    BelowIsPlain(|v| - 1);
    forall i | 0 <= i < |FromRange(v)| ensures Plain(FromRange(v)[i]) { BelowIsPlain(FromRange(v)[i]); }
  }

  /** The frame for a single number is read as one for the number that decv makes of it. */
  lemma OneTracked(n: nat, v: seq<Iv>, delay: nat, s: seq<Byte>, pos: nat)
    requires n < VARINT_LIMIT && delay < VARINT_LIMIT && v == [Iv(n, n, 0)] && At(s, pos, AckBytes(v, delay, NoEcn))
    ensures TrackAcked(Decoder(s, |s|), pos + 1) == [(Seen(n), Seen(n))]
  {
    FrameSeen(v, delay, NoEcn, s, pos, |s|);
    OneSeen(n, v, delay);
    OneRead(Decoder(s, |s|), pos + 1, Seen(n), Seen(delay), pos + |AckBytes(v, delay, NoEcn)|);
  }

  /** So the frame for 2^48 is read as one for 2^49. */
  lemma MisreadExample(n: nat, delay: nat, s: seq<Byte>, pos: nat)
    requires n == 0x1_0000_0000_0000 && delay < VARINT_LIMIT && At(s, pos, AckBytes([Iv(n, n, 0)], delay, NoEcn))
    ensures TrackAcked(Decoder(s, |s|), pos + 1) == [(0x2_0000_0000_0000, 0x2_0000_0000_0000)]
  {
    OneTracked(n, [Iv(n, n, 0)], delay, s, pos);
    RepeatedBit();
  }

  lemma OneSeen(n: nat, v: seq<Iv>, delay: nat)
    requires v == [Iv(n, n, 0)]
    ensures SeenFields(v, delay, NoEcn) == [Seen(n), Seen(delay), 0] + ([0] + [])
  {
    BelowIsPlain(0);
    assert v[..0] == [];
    RangeParts(v, []);
    OneSeenAll(0);
  }

  lemma OneRead(read: Reader, pos: nat, n: nat, delay: nat, last: nat)
    requires Reads(read, pos, [n, delay, 0] + ([0] + []), last)
    ensures TrackAcked(read, pos) == [(n, n)]
  {
    var p := TrackedHead(read, pos, n, delay, 0, [0] + [], last);
    ReadsCons(read, p, 0, [], last);
    TrackLast(read, p, n);
  }
}
