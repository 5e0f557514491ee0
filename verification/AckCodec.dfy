/** The ACK frame of lib/src/frame.c and its two decoders (section 19.3 of
    RFC 9000): ranges in descending order, as lengths and gaps. */
module AckCodec {
  import opened Ivals
  import opened Varint
  import opened RemoveRange

  const FRM_ACK: Byte := 0x02
  const FRM_ACE: Byte := 0x03
  /** dec_ack_frame refuses longer ranges: UINT16_MAX << 4. */
  const ACK_RNG_MAX: nat := 0xffff * 16

  // ----- encoding

  /** Fields for the intervals of `v`, highest first: the length of the highest, and
      then for each interval below the gap to it and its length. */
  ghost function FromRange(v: seq<Iv>): (r: seq<nat>)
    requires Canonical(v) && v != []
    decreases |v|, 0
  {
    var b := v[|v| - 1];
    [b.hi - b.lo] + FromGap(v[..|v| - 1], b.lo)
  }

  ghost function FromGap(v: seq<Iv>, prevLo: nat): (r: seq<nat>)
    requires Canonical(v) && (v != [] ==> v[|v| - 1].hi + 1 < prevLo)
    decreases |v|, 1
  {
    if v == [] then [] else [prevLo - v[|v| - 1].hi - 2] + FromRange(v)
  }

  /** ECN counts are sent when there are any. */
  datatype Ecn = NoEcn | Counts(ect0: nat, ect1: nat, ce: nat)

  function EcnFields(ecn: Ecn): (r: seq<nat>)
  {
    match ecn
    case NoEcn => []
    case Counts(ect0, ect1, ce) => [ect0, ect1, ce]
  }

  ghost function AckFields(v: seq<Iv>, delay: nat, ecn: Ecn): (r: seq<nat>)
    requires Canonical(v) && v != []
  {
    [v[|v| - 1].hi, delay, |v| - 1] + (FromRange(v) + EcnFields(ecn))
  }

  function FieldBytes(xs: seq<nat>): (r: seq<Byte>)
  {
    if xs == [] then [] else EncodeV(xs[0]) + FieldBytes(xs[1..])
  }

  function FrameType(ecn: Ecn): (r: Byte)
  {
    if ecn.NoEcn? then FRM_ACK else FRM_ACE
  }

  /** The ACK frame for the receive set `v`. */
  ghost function AckBytes(v: seq<Iv>, delay: nat, ecn: Ecn): (r: seq<Byte>)
    requires Canonical(v) && v != []
  {
    [FrameType(ecn)] + FieldBytes(AckFields(v, delay, ecn))
  }

  // ----- decoding

  datatype AckError = Malformed | RangeTooLong | Illegal | NeverSent
  datatype Parsed<T> = Good(value: T) | Bad(error: AckError)

  /** The ranges that dec_ack_frame goes through, `n` of them from the one ending at
      `lg`, with its checks, and the position behind them. */
  function ParseRanges(read: Reader, pos: nat, n: nat, lg: nat): (r: Parsed<(seq<(nat, nat)>, nat)>)
    requires n > 0
    decreases n
  {
    var rng := read(pos);
    if rng.None? then Bad(Malformed)
    else if rng.value.0 > ACK_RNG_MAX then Bad(RangeTooLong)
    else if rng.value.0 > lg then Bad(Malformed)
    else
      var lo := lg - rng.value.0;
      if n == 1 then Good(([(lo, lg)], rng.value.1))
      else
        var gap := read(rng.value.1);
        if gap.None? then Bad(Malformed)
        else if lo < gap.value.0 + 2 then Bad(Illegal)
        else
          var rest := ParseRanges(read, gap.value.1, n - 1, lo - gap.value.0 - 2);
          if rest.Bad? then rest else Good(([(lo, lg)] + rest.value.0, rest.value.1))
  }

  /** The frame behind its type byte: largest acked number, delay, ranges. */
  function ParseAck(read: Reader, pos: nat): (r: Parsed<(nat, nat, seq<(nat, nat)>, nat)>)
  {
    var lg := read(pos);
    if lg.None? then Bad(Malformed)
    else
      var delay := read(lg.value.1);
      if delay.None? then Bad(Malformed)
      else
        var cnt := read(delay.value.1);
        if cnt.None? then Bad(Malformed)
        else
          var rs := ParseRanges(read, cnt.value.1, cnt.value.0 + 1, lg.value.0);
          if rs.Bad? then Bad(rs.error) else Good((lg.value.0, delay.value.0, rs.value.0, rs.value.1))
  }

  /** Ranges from the highest down, none longer than is accepted, and at least one number
      between each and the next. */
  ghost predicate Descending(rs: seq<(nat, nat)>)
  {
    && (forall i :: 0 <= i < |rs| ==> rs[i].0 <= rs[i].1 <= rs[i].0 + 0xffff0)
    && forall i :: 0 < i < |rs| ==> rs[i].1 + 2 <= rs[i - 1].0
  }

  /** Whatever the bytes, what is accepted has as many ranges as announced, in order. */
  lemma {:induction false} ParsedDescends(read: Reader, pos: nat, n: nat, lg: nat)
    requires n > 0 && ParseRanges(read, pos, n, lg).Good?
    ensures var rs := ParseRanges(read, pos, n, lg).value.0; |rs| == n && rs[0].1 == lg && Descending(rs)
    decreases n
  {
    if n > 1 {
      var rng := read(pos).value;
      var gap := read(rng.1).value;
      var lo := lg - rng.0;
      ParsedDescends(read, gap.1, n - 1, lo - gap.0 - 2);
      var rest := ParseRanges(read, gap.1, n - 1, lo - gap.0 - 2).value.0;
      DescendsMore((lo, lg), rest);
    }
  }

  lemma DescendsMore(r: (nat, nat), rest: seq<(nat, nat)>)
    requires Descending(rest) && r.0 <= r.1 <= r.0 + 0xffff0 && (rest != [] ==> rest[0].1 + 2 <= r.0)
    ensures Descending([r] + rest)
  {
    var rs := [r] + rest;
    forall i | 0 < i < |rs| ensures rs[i].1 + 2 <= rs[i - 1].0 {
      assert rs[i] == rest[i - 1] && (i > 1 ==> rs[i - 1] == rest[i - 2]);
    }
  }

  /** Unsigned 64-bit subtraction. */
  function Minus(a: nat, b: nat): (r: nat)
  {
    if a >= b then a - b else (a - b) % (UINT_T_MAX + 1)
  }

  /** A failed read leaves the value 0 and is not noticed. */
  function ReadOrZero(read: Reader, pos: nat): (r: (nat, nat))
  {
    if read(pos).None? then (0, pos) else read(pos).value
  }

  /** The ranges that track_acked_pkts goes through, unchecked. */
  function TrackRanges(read: Reader, pos: nat, n: nat, lg: nat): (r: seq<(nat, nat)>)
    decreases n
  {
    if n == 0 then []
    else
      var rng := ReadOrZero(read, pos);
      var gap := if n > 1 then ReadOrZero(read, rng.1) else (0, rng.1);
      [(Minus(lg, rng.0), lg)] + TrackRanges(read, gap.1, n - 1, Minus(lg, rng.0 + gap.0 + 2))
  }

  function TrackAcked(read: Reader, pos: nat): (r: seq<(nat, nat)>)
  {
    var lg := ReadOrZero(read, pos);
    var delay := ReadOrZero(read, lg.1);
    var cnt := ReadOrZero(read, delay.1);
    TrackRanges(read, cnt.1, cnt.0 + 1, lg.0)
  }

  // ----- round trip on fields

  /** From `pos` on, `read` yields the fields `xs` and arrives at `end`. */
  ghost predicate Reads(read: Reader, pos: nat, xs: seq<nat>, end: nat)
    decreases |xs|
  {
    if xs == [] then end == pos
    else read(pos).Some? && read(pos).value.0 == xs[0] && Reads(read, read(pos).value.1, xs[1..], end)
  }

  /** The intervals of `v`, highest first. */
  function Reversed(v: seq<Iv>): (r: seq<(nat, nat)>)
  {
    if v == [] then [] else [(v[|v| - 1].lo, v[|v| - 1].hi)] + Reversed(v[..|v| - 1])
  }

  /** No range is longer than dec_ack_frame accepts. */
  ghost predicate ShortRanges(v: seq<Iv>)
  {
    forall i :: 0 <= i < |v| ==> v[i].hi - v[i].lo <= ACK_RNG_MAX
  }

  lemma ReadsCons(read: Reader, pos: nat, x: nat, xs: seq<nat>, end: nat)
    requires Reads(read, pos, [x] + xs, end)
    ensures read(pos).Some? && read(pos).value.0 == x && Reads(read, read(pos).value.1, xs, end)
  {
    assert ([x] + xs)[1..] == xs;
  }

  /** The fields of `v`: the length of the highest interval and, if there are more, the gap
      to the next and the fields of the others. */
  lemma RangeParts(v: seq<Iv>, w: seq<Iv>)
    requires Canonical(v) && v != [] && w == v[..|v| - 1]
    ensures Canonical(w)
    ensures w == [] ==> FromRange(v) == [v[|v| - 1].hi - v[|v| - 1].lo]
    ensures w != [] ==>
      && w[|w| - 1].hi + 2 <= v[|v| - 1].lo
      && FromRange(v) ==
         [v[|v| - 1].hi - v[|v| - 1].lo] + ([v[|v| - 1].lo - w[|w| - 1].hi - 2] + FromRange(w))
  {
    RangeUnfold(v, w);
    GapUnfold(w, v[|v| - 1].lo);
  }

  lemma RangeUnfold(v: seq<Iv>, w: seq<Iv>)
    requires Canonical(v) && v != [] && w == v[..|v| - 1]
    ensures Canonical(w) && (w != [] ==> w[|w| - 1].hi + 1 < v[|v| - 1].lo)
    ensures FromRange(v) == [v[|v| - 1].hi - v[|v| - 1].lo] + FromGap(w, v[|v| - 1].lo)
  {
  }

  lemma GapUnfold(w: seq<Iv>, prevLo: nat)
    requires Canonical(w) && (w != [] ==> w[|w| - 1].hi + 1 < prevLo)
    ensures FromGap(w, prevLo) == if w == [] then [] else [prevLo - w[|w| - 1].hi - 2] + FromRange(w)
  {
  }

  lemma ReadsOne(read: Reader, pos: nat, x: nat, rest: seq<nat>, end: nat) returns (p: nat)
    requires Reads(read, pos, [x] + rest, end)
    ensures read(pos) == Some((x, p)) && Reads(read, p, rest, end)
  {
    ReadsCons(read, pos, x, rest, end);
    p := read(pos).value.1;
  }

  lemma ReadsTwo(read: Reader, pos: nat, x: nat, y: nat, ys: seq<nat>, rest: seq<nat>, end: nat) returns (p: nat, g: nat)
    requires Reads(read, pos, ([x] + ([y] + ys)) + rest, end)
    ensures read(pos) == Some((x, p)) && read(p) == Some((y, g)) && Reads(read, g, ys + rest, end)
  {
    assert ([x] + ([y] + ys)) + rest == [x] + ([y] + (ys + rest));
    p := ReadsOne(read, pos, x, [y] + (ys + rest), end);
    g := ReadsOne(read, p, y, ys + rest, end);
  }

  /** What both decoders find at the start of the fields of `v`: the length of the
      highest interval, then `p`; if there are more, the gap to the next, then `g`. */
  ghost predicate FirstRange(read: Reader, pos: nat, v: seq<Iv>, rest: seq<nat>, end: nat, p: nat, g: nat)
    requires Canonical(v) && v != []
  {
    var b, w := v[|v| - 1], v[..|v| - 1];
    && read(pos) == Some((b.hi - b.lo, p))
    && (w == [] ==> Reads(read, p, rest, end))
    && (w != [] ==>
          && w[|w| - 1].hi + 2 <= b.lo && read(p) == Some((b.lo - w[|w| - 1].hi - 2, g))
          && Reads(read, g, FromRange(w) + rest, end))
  }

  lemma RangeStep(read: Reader, pos: nat, v: seq<Iv>, rest: seq<nat>, end: nat) returns (p: nat, g: nat)
    requires Canonical(v) && v != [] && Reads(read, pos, FromRange(v) + rest, end)
    ensures FirstRange(read, pos, v, rest, end, p, g)
  {
    var b, w := v[|v| - 1], v[..|v| - 1];
    RangeParts(v, w);
    g := 0;
    if w == [] {
      p := ReadsOne(read, pos, b.hi - b.lo, rest, end);
    } else {
      p, g := ReadsTwo(read, pos, b.hi - b.lo, b.lo - w[|w| - 1].hi - 2, FromRange(w), rest, end);
    }
  }

  lemma ParseStep(read: Reader, pos: nat, n: nat, lg: nat, x: nat, p: nat, gap: nat, g: nat)
    requires n > 1 && read(pos) == Some((x, p)) && x <= ACK_RNG_MAX && x <= lg
    requires read(p) == Some((gap, g)) && lg - x >= gap + 2
    ensures var rest := ParseRanges(read, g, n - 1, lg - x - gap - 2);
            ParseRanges(read, pos, n, lg) ==
            if rest.Bad? then rest else Good(([(lg - x, lg)] + rest.value.0, rest.value.1))
  {
  }

  lemma ParseTooLong(read: Reader, pos: nat, n: nat, lg: nat, x: nat, p: nat)
    requires n > 0 && read(pos) == Some((x, p)) && x > ACK_RNG_MAX
    ensures ParseRanges(read, pos, n, lg) == Bad(RangeTooLong)
  {
  }

  lemma ParseLast(read: Reader, pos: nat, lg: nat, x: nat, p: nat)
    requires read(pos) == Some((x, p)) && x <= ACK_RNG_MAX && x <= lg
    ensures ParseRanges(read, pos, 1, lg) == Good(([(lg - x, lg)], p))
  {
  }

  lemma TrackStep(read: Reader, pos: nat, n: nat, lg: nat, x: nat, p: nat, gap: nat, g: nat)
    requires n > 1 && read(pos) == Some((x, p)) && read(p) == Some((gap, g)) && lg >= x + gap + 2
    ensures TrackRanges(read, pos, n, lg) == [(lg - x, lg)] + TrackRanges(read, g, n - 1, lg - x - gap - 2)
  {
  }

  lemma TrackLast(read: Reader, pos: nat, lg: nat)
    requires read(pos).Some? && lg >= read(pos).value.0
    ensures TrackRanges(read, pos, 1, lg) == [(lg - read(pos).value.0, lg)]
  {
    assert TrackRanges(read, read(pos).value.1, 0, Minus(lg, read(pos).value.0 + 2)) == [];
  }

  lemma ReversedStep(v: seq<Iv>)
    requires v != []
    ensures Reversed(v) == [(v[|v| - 1].lo, v[|v| - 1].hi)] + Reversed(v[..|v| - 1])
    ensures |v| == 1 ==> Reversed(v) == [(v[0].lo, v[0].hi)]
  {
  }

  /** The strict decoder gives back exactly the intervals, or refuses the frame, if
      and only if one of them is too long. */
  lemma {:induction false} ParseBack(read: Reader, pos: nat, v: seq<Iv>, rest: seq<nat>, end: nat)
    requires Canonical(v) && v != [] && Reads(read, pos, FromRange(v) + rest, end)
    ensures var r := ParseRanges(read, pos, |v|, v[|v| - 1].hi);
            if ShortRanges(v) then r.Good? && r.value.0 == Reversed(v) && Reads(read, r.value.1, rest, end)
            else r == Bad(RangeTooLong)
    decreases |v|
  {
    var b, w := v[|v| - 1], v[..|v| - 1];
    var p, g := RangeStep(read, pos, v, rest, end);
    ShortParts(v, w);
    ReversedStep(v);
    if b.hi - b.lo > ACK_RNG_MAX {
      ParseTooLong(read, pos, |v|, b.hi, b.hi - b.lo, p);
    } else if w != [] {
      ParseBack(read, g, w, rest, end);
      ParseBackStep(read, pos, v, w, p, g);
    } else {
      ParseLast(read, pos, b.hi, b.hi - b.lo, p);
    }
  }

  lemma ParseBackStep(read: Reader, pos: nat, v: seq<Iv>, w: seq<Iv>, p: nat, g: nat)
    requires |v| > 1 && w == v[..|v| - 1] && v[|v| - 1].lo <= v[|v| - 1].hi && w[|w| - 1].hi + 2 <= v[|v| - 1].lo
    requires v[|v| - 1].hi - v[|v| - 1].lo <= ACK_RNG_MAX
    requires read(pos) == Some((v[|v| - 1].hi - v[|v| - 1].lo, p))
    requires read(p) == Some((v[|v| - 1].lo - w[|w| - 1].hi - 2, g))
    ensures var r := ParseRanges(read, g, |w|, w[|w| - 1].hi);
            ParseRanges(read, pos, |v|, v[|v| - 1].hi) ==
            if r.Bad? then r else Good(([(v[|v| - 1].lo, v[|v| - 1].hi)] + r.value.0, r.value.1))
  {
    var b := v[|v| - 1];
    ParseStep(read, pos, |v|, b.hi, b.hi - b.lo, p, b.lo - w[|w| - 1].hi - 2, g);
  }

  lemma ShortParts(v: seq<Iv>, w: seq<Iv>)
    requires v != [] && w == v[..|v| - 1]
    ensures ShortRanges(v) <==> ShortRanges(w) && v[|v| - 1].hi - v[|v| - 1].lo <= ACK_RNG_MAX
  {
    forall i | 0 <= i < |w| ensures w[i] == v[i] {}
  }

  /** The unchecked decoder gives them back too. */
  lemma {:induction false} TrackBack(read: Reader, pos: nat, v: seq<Iv>, rest: seq<nat>, end: nat)
    requires Canonical(v) && v != [] && Reads(read, pos, FromRange(v) + rest, end)
    ensures TrackRanges(read, pos, |v|, v[|v| - 1].hi) == Reversed(v)
    decreases |v|
  {
    var b, w := v[|v| - 1], v[..|v| - 1];
    var p, g := RangeStep(read, pos, v, rest, end);
    ReversedStep(v);
    if |v| > 1 {
      TrackBack(read, g, w, rest, end);
      TrackBackStep(read, pos, v, w, p, g);
    } else {
      TrackLast(read, pos, b.hi);
    }
  }

  lemma TrackBackStep(read: Reader, pos: nat, v: seq<Iv>, w: seq<Iv>, p: nat, g: nat)
    requires |v| > 1 && w == v[..|v| - 1] && v[|v| - 1].lo <= v[|v| - 1].hi && w[|w| - 1].hi + 2 <= v[|v| - 1].lo
    requires read(pos) == Some((v[|v| - 1].hi - v[|v| - 1].lo, p))
    requires read(p) == Some((v[|v| - 1].lo - w[|w| - 1].hi - 2, g))
    requires TrackRanges(read, g, |w|, w[|w| - 1].hi) == Reversed(w)
    ensures TrackRanges(read, pos, |v|, v[|v| - 1].hi) == Reversed(v)
  {
    var b := v[|v| - 1];
    ReversedStep(v);
    TrackStep(read, pos, |v|, b.hi, b.hi - b.lo, p, b.lo - w[|w| - 1].hi - 2, g);
  }

  /** Round trip of the ACK frame on fields. */
  lemma FrameBack(read: Reader, pos: nat, v: seq<Iv>, delay: nat, ecn: Ecn, end: nat)
    requires Canonical(v) && v != [] && Reads(read, pos, AckFields(v, delay, ecn), end)
    ensures TrackAcked(read, pos) == Reversed(v)
    ensures var r := ParseAck(read, pos);
            if ShortRanges(v) then
              && r.Good? && r.value.0 == v[|v| - 1].hi && r.value.1 == delay && r.value.2 == Reversed(v)
              && Reads(read, r.value.3, EcnFields(ecn), end)
            else r == Bad(RangeTooLong)
  {
    var hi, cnt := v[|v| - 1].hi, |v| - 1;
    var tail := FromRange(v) + EcnFields(ecn);
    assert AckFields(v, delay, ecn) == [hi] + ([delay] + ([cnt] + tail));
    ReadsCons(read, pos, hi, [delay] + ([cnt] + tail), end);
    var p := read(pos).value.1;
    ReadsCons(read, p, delay, [cnt] + tail, end);
    var q := read(p).value.1;
    ReadsCons(read, q, cnt, tail, end);
    ParseBack(read, read(q).value.1, v, EcnFields(ecn), end);
    TrackBack(read, read(q).value.1, v, EcnFields(ecn), end);
  }

  // ----- round trip on bytes

  ghost predicate AllPlain(xs: seq<nat>)
  {
    forall i :: 0 <= i < |xs| ==> Plain(xs[i])
  }

  lemma ReadsMore(read: Reader, pos: nat, x: nat, xs: seq<nat>, next: nat, end: nat)
    requires read(pos) == Some((x, next)) && Reads(read, next, xs, end)
    ensures Reads(read, pos, [x] + xs, end)
  {
    assert ([x] + xs)[1..] == xs;
  }

  /** What decv makes of the fields `xs`. */
  function SeenAll(xs: seq<nat>): (r: seq<nat>)
    ensures |r| == |xs| && forall i :: 0 <= i < |xs| ==> r[i] == Seen(xs[i])
  {
    seq(|xs|, i requires 0 <= i < |xs| => Seen(xs[i]))
  }

  lemma SeenParts(xs: seq<nat>, ys: seq<nat>)
    ensures SeenAll(xs + ys) == SeenAll(xs) + SeenAll(ys)
    ensures AllPlain(xs + ys) <==> AllPlain(xs) && AllPlain(ys)
  {
    var all := xs + ys;
    forall i | 0 <= i < |xs| ensures all[i] == xs[i] {}
    forall i | 0 <= i < |ys| ensures all[|xs| + i] == ys[i] {}
  }

  lemma SeenCons(xs: seq<nat>)
    requires xs != []
    ensures SeenAll(xs) == [Seen(xs[0])] + SeenAll(xs[1..])
  {
  }

  lemma PlainSeen(xs: seq<nat>)
    requires AllPlain(xs)
    ensures SeenAll(xs) == xs
  {
  }

  ghost predicate AllBelow(xs: seq<nat>, limit: nat)
  {
    forall i :: 0 <= i < |xs| ==> xs[i] < limit
  }

  /** The fields `xs` are in `s` one after the other from `pos` to `stop`. */
  ghost predicate Laid(s: seq<Byte>, pos: nat, xs: seq<nat>, stop: nat)
    decreases |xs|
  {
    if xs == [] then stop == pos
    else At(s, pos, EncodeV(xs[0])) && Laid(s, pos + |EncodeV(xs[0])|, xs[1..], stop)
  }

  lemma {:induction false} FieldsLaid(s: seq<Byte>, pos: nat, xs: seq<nat>)
    requires At(s, pos, FieldBytes(xs))
    ensures Laid(s, pos, xs, pos + |FieldBytes(xs)|)
    decreases |xs|
  {
    if xs != [] {
      AtSplit(s, pos, EncodeV(xs[0]), FieldBytes(xs[1..]));
      FieldsLaid(s, pos + |EncodeV(xs[0])|, xs[1..]);
    }
  }

  lemma {:induction false} LaidWithin(s: seq<Byte>, pos: nat, xs: seq<nat>, stop: nat)
    requires Laid(s, pos, xs, stop)
    ensures pos <= stop && (xs != [] ==> pos + |EncodeV(xs[0])| <= stop)
    decreases |xs|
  {
    if xs != [] { LaidWithin(s, pos + |EncodeV(xs[0])|, xs[1..], stop); }
  }

  lemma SeenFirst(read: Reader, pos: nat, xs: seq<nat>, next: nat, stop: nat)
    requires xs != [] && read(pos) == Some((Seen(xs[0]), next)) && Reads(read, next, SeenAll(xs[1..]), stop)
    ensures Reads(read, pos, SeenAll(xs), stop)
  {
    SeenCons(xs);
    ReadsMore(read, pos, Seen(xs[0]), SeenAll(xs[1..]), next, stop);
  }

  lemma {:induction false} LaidSeen(s: seq<Byte>, pos: nat, xs: seq<nat>, stop: nat, end: nat)
    requires AllBelow(xs, VARINT_LIMIT) && Laid(s, pos, xs, stop) && stop <= end <= |s|
    ensures Reads(Decoder(s, end), pos, SeenAll(xs), stop)
    decreases |xs|
  {
    if xs != [] {
      var next := pos + |EncodeV(xs[0])|;
      LaidWithin(s, pos, xs, stop);
      Finds(s, pos, xs[0], end);
      LaidSeen(s, next, xs[1..], stop, end);
      SeenFirst(Decoder(s, end), pos, xs, next, stop);
    }
  }

  lemma FieldsSeen(s: seq<Byte>, pos: nat, xs: seq<nat>, end: nat)
    requires AllBelow(xs, VARINT_LIMIT) && At(s, pos, FieldBytes(xs)) && pos + |FieldBytes(xs)| <= end <= |s|
    ensures Reads(Decoder(s, end), pos, SeenAll(xs), pos + |FieldBytes(xs)|)
  {
    FieldsLaid(s, pos, xs);
    LaidSeen(s, pos, xs, pos + |FieldBytes(xs)|, end);
  }

  lemma FieldsRead(s: seq<Byte>, pos: nat, xs: seq<nat>, end: nat)
    requires AllPlain(xs) && At(s, pos, FieldBytes(xs)) && pos + |FieldBytes(xs)| <= end <= |s|
    ensures Reads(Decoder(s, end), pos, xs, pos + |FieldBytes(xs)|)
  {
    FieldsSeen(s, pos, xs, end);
    PlainSeen(xs);
  }

  /** What follows the ranges, and the type byte that tells. */
  lemma TypeTells(ecn: Ecn)
    ensures FrameType(ecn) == if EcnFields(ecn) == [] then 0x02 else 0x03
    ensures EcnFields(ecn) == if ecn.NoEcn? then [] else [ecn.ect0, ecn.ect1, ecn.ce]
  {
  }

  lemma TypeFirst(v: seq<Iv>, delay: nat, ecn: Ecn, s: seq<Byte>, pos: nat)
    requires Canonical(v) && v != [] && At(s, pos, AckBytes(v, delay, ecn))
    ensures pos < |s| && s[pos] == if ecn.NoEcn? then 0x02 else 0x03
  {
    AtSplit(s, pos, [FrameType(ecn)], FieldBytes(AckFields(v, delay, ecn)));
    assert s[pos..pos + 1][0] == s[pos];
  }

  lemma ShortMeans(v: seq<Iv>)
    ensures ShortRanges(v) <==> forall i :: 0 <= i < |v| ==> v[i].hi - v[i].lo <= 0xffff0
  {
  }

  /** Round trip of the ACK frame, for every non-empty receive set whose fields decv
      gives back: track_acked_pkts recovers exactly the intervals, and so does
      dec_ack_frame, unless a range is longer than it accepts.  The type byte is 0x02 if
      nothing follows the ranges, and 0x03 if the three ECN counts do. */
  lemma AckRoundTrip(v: seq<Iv>, delay: nat, ecn: Ecn, s: seq<Byte>, pos: nat, end: nat)
    requires Canonical(v) && v != [] && AllPlain(AckFields(v, delay, ecn))
    requires At(s, pos, AckBytes(v, delay, ecn)) && pos + |AckBytes(v, delay, ecn)| <= end <= |s|
    ensures s[pos] == if ecn.NoEcn? then 0x02 else 0x03
    ensures TrackAcked(Decoder(s, end), pos + 1) == Reversed(v)
    ensures var r := ParseAck(Decoder(s, end), pos + 1);
            var counts := if ecn.NoEcn? then [] else [ecn.ect0, ecn.ect1, ecn.ce];
            if forall i :: 0 <= i < |v| ==> v[i].hi - v[i].lo <= 0xffff0 then
              && r.Good? && r.value.0 == v[|v| - 1].hi && r.value.1 == delay && r.value.2 == Reversed(v)
              && Reads(Decoder(s, end), r.value.3, counts, pos + |AckBytes(v, delay, ecn)|)
            else r == Bad(RangeTooLong)
  {
    TypeFirst(v, delay, ecn, s, pos);
    TypeTells(ecn);
    ShortMeans(v);
    var xs := AckFields(v, delay, ecn);
    AtSplit(s, pos, [FrameType(ecn)], FieldBytes(xs));
    FieldsRead(s, pos + 1, xs, end);
    FrameBack(Decoder(s, end), pos + 1, v, delay, ecn, pos + |AckBytes(v, delay, ecn)|);
  }

  // ----- all fields below 2^48

  /** A canonical list has no more intervals than numbers up to its end. */
  lemma {:induction false} FewIntervals(v: seq<Iv>)
    requires Canonical(v) && v != []
    ensures |v| - 1 <= v[|v| - 1].hi
    decreases |v|
  {
    if |v| > 1 {
      FewIntervals(v[..|v| - 1]);
      assert v[|v| - 2].hi + 1 < v[|v| - 1].lo;
    }
  }

  lemma {:induction false} SmallRanges(v: seq<Iv>, limit: nat)
    requires Canonical(v) && v != [] && v[|v| - 1].hi < limit
    ensures forall i :: 0 <= i < |FromRange(v)| ==> FromRange(v)[i] < limit
    decreases |v|
  {
    var b, w := v[|v| - 1], v[..|v| - 1];
    if w != [] {
      assert w[|w| - 1] == v[|v| - 2];
      SmallRanges(w, limit);
      assert FromRange(v) == [b.hi - b.lo] + ([b.lo - w[|w| - 1].hi - 2] + FromRange(w));
    } else {
      assert FromRange(v) == [b.hi - b.lo];
    }
  }

  /** If the largest number, the delay and the ECN counts are below 2^48, decv gives
      back every field of the frame. */
  lemma SmallIsPlain(v: seq<Iv>, delay: nat, ecn: Ecn)
    requires Canonical(v) && v != [] && v[|v| - 1].hi < 0x1_0000_0000_0000 && delay < 0x1_0000_0000_0000
    requires ecn.Counts? ==> ecn.ect0 < 0x1_0000_0000_0000 && ecn.ect1 < 0x1_0000_0000_0000 && ecn.ce < 0x1_0000_0000_0000
    ensures AllPlain(AckFields(v, delay, ecn))
  {
    FewIntervals(v);
    SmallRanges(v, 0x1_0000_0000_0000);
    var xs := AckFields(v, delay, ecn);
    forall i | 0 <= i < |xs| ensures Plain(xs[i]) {
      assert i >= 3 ==> xs[i] == (FromRange(v) + EcnFields(ecn))[i - 3];
      BelowIsPlain(xs[i]);
    }
  }

  // ----- the encoder, through a moving position

  /** `s` is `s0` with a frame of type `t` and fields `done` written at `pos`. */
  ghost predicate Written(s0: seq<Byte>, s: seq<Byte>, pos: nat, t: Byte, done: seq<nat>, cur: nat)
  {
    && cur == pos + 1 + |FieldBytes(done)| <= |s0|
    && s == s0[..pos] + ([t] + FieldBytes(done)) + s0[cur..]
  }

  lemma Associate(a: seq<Byte>, b: seq<Byte>, c: seq<Byte>)
    ensures a + (b + c) == (a + b) + c
  {
  }

  lemma {:induction false} FieldBytesMore(xs: seq<nat>, ys: seq<nat>)
    ensures FieldBytes(xs + ys) == FieldBytes(xs) + FieldBytes(ys)
  {
    if xs == [] {
      assert xs + ys == ys;
    } else {
      FieldBytesMore(xs[1..], ys);
      assert (xs + ys)[1..] == xs[1..] + ys && (xs + ys)[0] == xs[0];
      Associate(EncodeV(xs[0]), FieldBytes(xs[1..]), FieldBytes(ys));
    }
  }

  lemma FieldBytesOne(xs: seq<nat>, x: nat)
    ensures FieldBytes(xs + [x]) == FieldBytes(xs) + EncodeV(x)
  {
    FieldBytesMore(xs, [x]);
    assert FieldBytes([x]) == EncodeV(x) + FieldBytes([]);
  }

  lemma WrittenMore(s0: seq<Byte>, s: seq<Byte>, s': seq<Byte>, pos: nat, t: Byte, done: seq<nat>, cur: nat, x: nat, next: nat)
    requires Written(s0, s, pos, t, done, cur) && next == cur + |EncodeV(x)| <= |s0|
    requires s' == s[..cur] + EncodeV(x) + s[next..]
    ensures Written(s0, s', pos, t, done + [x], next)
  {
    FieldBytesOne(done, x);
    assert s[..cur] == s0[..pos] + ([t] + FieldBytes(done));
    assert s[next..] == s0[next..];
  }

  /** encv_chk: write one more field unless it would pass `end`. */
  method PutField(buf: array<Byte>, ghost s0: seq<Byte>, ghost pos: nat, ghost t: Byte, ghost done: seq<nat>,
                  cur: nat, end: nat, x: nat)
    returns (ok: bool, next: nat)
    requires end <= buf.Length && x < VARINT_LIMIT && |s0| == buf.Length && Written(s0, buf[..], pos, t, done, cur)
    modifies buf
    ensures ok <==> cur + |EncodeV(x)| <= end
    ensures ok ==> next <= end && Written(s0, buf[..], pos, t, done + [x], next)
    ensures !ok ==> buf[..] == old(buf[..])
  {
    ok, next := cur + VarintSize(x) <= end, cur;
    if ok {
      ghost var s := buf[..];
      next := EncV(buf, cur, x);
      WrittenMore(s0, s, buf[..], pos, t, done, cur, x, next);
    }
  }

  /** Every field of the frame can be encoded. */
  ghost predicate Encodable(v: seq<Iv>, delay: nat, ecn: Ecn)
  {
    && (forall i :: 0 <= i < |v| ==> v[i].hi < VARINT_LIMIT) && delay < VARINT_LIMIT && |v| <= VARINT_LIMIT
    && (ecn.Counts? ==> ecn.ect0 < VARINT_LIMIT && ecn.ect1 < VARINT_LIMIT && ecn.ce < VARINT_LIMIT)
  }

  /** A field that does not fit means that the frame does not fit. */
  lemma DoesNotFit(all: seq<nat>, done: seq<nat>, x: nat, more: seq<nat>, pos: nat, end: nat)
    requires all == done + ([x] + more) && pos + 1 + |FieldBytes(done)| + |EncodeV(x)| > end
    ensures pos + 1 + |FieldBytes(all)| > end
  {
    FieldBytesOne(done, x);
    FieldBytesMore(done + [x], more);
    Regroup(done, x, more);
  }

  lemma Regroup(done: seq<nat>, x: nat, more: seq<nat>)
    ensures done + ([x] + more) == (done + [x]) + more
  {
  }

  lemma SplitFields(done: seq<nat>, xs: seq<nat>, more: seq<nat>, i: nat)
    requires i < |xs|
    ensures done + (xs + more) == (done + xs[..i]) + ([xs[i]] + (xs[i + 1..] + more))
    ensures done + xs[..i] + [xs[i]] == done + xs[..i + 1]
  {
    assert xs == xs[..i] + ([xs[i]] + xs[i + 1..]);
  }

  /** A row of encv_chk: writes the fields `xs` unless one would pass `end`. */
  method PutFields(buf: array<Byte>, ghost s0: seq<Byte>, ghost pos: nat, ghost t: Byte, ghost done: seq<nat>,
                   cur0: nat, end: nat, xs: seq<nat>, ghost more: seq<nat>)
    returns (ok: bool, cur: nat)
    requires forall i :: 0 <= i < |xs| ==> xs[i] < VARINT_LIMIT
    requires end <= buf.Length && |s0| == buf.Length && cur0 <= end && Written(s0, buf[..], pos, t, done, cur0)
    modifies buf
    ensures ok ==> cur <= end && Written(s0, buf[..], pos, t, done + xs, cur)
    ensures !ok ==> pos + 1 + |FieldBytes(done + (xs + more))| > end
    ensures buf[..][..pos] == s0[..pos] && buf[..][end..] == s0[end..]
  {
    ok, cur := true, cur0;
    var i := 0;
    assert done + xs[..0] == done;
    while i < |xs|
      invariant 0 <= i <= |xs| && cur <= end && Written(s0, buf[..], pos, t, done + xs[..i], cur)
    {
      SplitFields(done, xs, more, i);
      WrittenAround(s0, buf[..], pos, t, done + xs[..i], cur, end);
      ok, cur := PutField(buf, s0, pos, t, done + xs[..i], cur, end, xs[i]);
      if !ok {
        DoesNotFit(done + (xs + more), done + xs[..i], xs[i], xs[i + 1..] + more, pos, end);
        return;
      }
      i := i + 1;
    }
    assert done + xs[..i] == done + xs;
  }

  /** The fields for one interval: the gap below `prevLo`, if there is one, and the
      length. */
  function IntervalFields(b: Iv, prevLo: nat): (r: seq<nat>)
    requires b.lo <= b.hi && (prevLo != 0 ==> b.hi + 2 <= prevLo)
  {
    (if prevLo != 0 then [prevLo - b.hi - 2] else []) + [b.hi - b.lo]
  }

  /** The start of the interval written before the highest of the first `k`. */
  function PrevLo(v: seq<Iv>, k: nat): (r: nat)
  {
    if k < |v| then v[k].lo else 0
  }

  /** What is left to write when the intervals from `k` on are done. */
  ghost function Left(v: seq<Iv>, k: nat): (r: seq<nat>)
    requires Canonical(v) && k <= |v|
  {
    if k == 0 then []
    else if k == |v| then FromRange(v)
    else assert v[k - 1].hi + 1 < v[k].lo && v[..k][k - 1] == v[k - 1]; FromGap(v[..k], v[k].lo)
  }

  lemma LeftIsGap(v: seq<Iv>, k: nat)
    requires Canonical(v) && 0 < k < |v|
    ensures v[k].lo != 0 && v[k - 1].hi + 2 <= v[k].lo
    ensures Left(v, k) == [v[k].lo - v[k - 1].hi - 2] + FromRange(v[..k])
  {
    assert v[..k][k - 1] == v[k - 1];
  }

  lemma RangeIsLeft(v: seq<Iv>, k: nat)
    requires Canonical(v) && 0 < k <= |v|
    ensures FromRange(v[..k]) == [v[k - 1].hi - v[k - 1].lo] + Left(v, k - 1)
  {
    var w := v[..k];
    assert w[..k - 1] == v[..k - 1] && w[k - 1] == v[k - 1];
    if k > 1 { LeftIsGap(v, k - 1); }
  }

  lemma TwoMore(a: nat, b: nat, s: seq<nat>)
    ensures [a] + ([b] + s) == ([a] + [b]) + s
  {
  }

  lemma LeftStep(v: seq<Iv>, k: nat)
    requires Canonical(v) && 0 < k <= |v|
    ensures PrevLo(v, k) != 0 ==> v[k - 1].hi + 2 <= PrevLo(v, k)
    ensures Left(v, k) == IntervalFields(v[k - 1], PrevLo(v, k)) + Left(v, k - 1)
  {
    RangeIsLeft(v, k);
    if k < |v| {
      LeftIsGap(v, k);
      LeftLower(v, k, Left(v, k), Left(v, k - 1));
    } else {
      assert v[..k] == v;
      assert IntervalFields(v[k - 1], 0) == [v[k - 1].hi - v[k - 1].lo];
    }
  }

  lemma LeftLower(v: seq<Iv>, k: nat, left: seq<nat>, left': seq<nat>)
    requires Canonical(v) && 0 < k < |v| && v[k].lo != 0 && v[k - 1].hi + 2 <= v[k].lo
    requires left == [v[k].lo - v[k - 1].hi - 2] + ([v[k - 1].hi - v[k - 1].lo] + left')
    ensures left == IntervalFields(v[k - 1], PrevLo(v, k)) + left'
  {
    TwoMore(v[k].lo - v[k - 1].hi - 2, v[k - 1].hi - v[k - 1].lo, left');
  }

  lemma RoundFacts(v: seq<Iv>, k: nat, all: seq<nat>, done: seq<nat>, more: seq<nat>)
    requires Canonical(v) && 0 < k <= |v| && all == done + (Left(v, k) + more)
    ensures PrevLo(v, k) != 0 ==> v[k - 1].hi + 2 <= PrevLo(v, k)
    ensures var fs := IntervalFields(v[k - 1], PrevLo(v, k));
            && all == done + (fs + (Left(v, k - 1) + more))
            && all == (done + fs) + (Left(v, k - 1) + more)
    ensures PrevLo(v, k - 1) == v[k - 1].lo
  {
    LeftStep(v, k);
    var fs := IntervalFields(v[k - 1], PrevLo(v, k));
    assert Left(v, k) + more == fs + (Left(v, k - 1) + more);
  }

  /** One round of the loop of enc_ack_frame: the gap and the length for interval `k - 1`. */
  method PutRange(buf: array<Byte>, ghost s0: seq<Byte>, ghost pos: nat, ghost t: Byte, ghost done: seq<nat>,
                  cur: nat, end: nat, v: seq<Iv>, k: nat, prevLo: nat, ghost all: seq<nat>, ghost more: seq<nat>)
    returns (ok: bool, next: nat, ghost done': seq<nat>)
    requires 0 < k && ToDo(v, k, prevLo, done, all, more) && Encodable(v, 0, NoEcn)
    requires end <= buf.Length && |s0| == buf.Length && cur <= end && Written(s0, buf[..], pos, t, done, cur)
    modifies buf
    ensures ok ==> next <= end && Written(s0, buf[..], pos, t, done', next)
    ensures ok ==> ToDo(v, k - 1, v[k - 1].lo, done', all, more)
    ensures !ok ==> pos + 1 + |FieldBytes(all)| > end
    ensures buf[..][..pos] == s0[..pos] && buf[..][end..] == s0[end..]
  {
    RoundFacts(v, k, all, done, more);
    ghost var left := Left(v, k - 1) + more;
    done' := done + IntervalFields(v[k - 1], prevLo);
    ok, next := PutFields(buf, s0, pos, t, done, cur, end, IntervalFields(v[k - 1], prevLo), left);
  }

  /** The loop of enc_ack_frame over the intervals, highest first. */
  method PutRanges(buf: array<Byte>, ghost s0: seq<Byte>, ghost pos: nat, ghost t: Byte, ghost done0: seq<nat>,
                   cur0: nat, end: nat, v: seq<Iv>, ghost all: seq<nat>, ghost more: seq<nat>)
    returns (ok: bool, cur: nat, ghost done: seq<nat>)
    requires Canonical(v) && v != [] && Encodable(v, 0, NoEcn)
    requires end <= buf.Length && |s0| == buf.Length && cur0 <= end && Written(s0, buf[..], pos, t, done0, cur0)
    requires all == done0 + (FromRange(v) + more)
    modifies buf
    ensures ok ==> cur <= end && Written(s0, buf[..], pos, t, done, cur) && all == done + more
    ensures !ok ==> pos + 1 + |FieldBytes(all)| > end
    ensures buf[..][..pos] == s0[..pos] && buf[..][end..] == s0[end..]
  {
    ok, cur, done := true, cur0, done0;
    var k, prevLo := |v|, 0;
    while k > 0
      invariant 0 <= k && ToDo(v, k, prevLo, done, all, more)
      invariant cur <= end && Written(s0, buf[..], pos, t, done, cur)
    {
      ok, cur, done := PutRange(buf, s0, pos, t, done, cur, end, v, k, prevLo, all, more);
      if !ok {
        return;
      }
      k, prevLo := k - 1, v[k - 1].lo;
    }
    ToDoEnd(v, prevLo, done, all, more);
    WrittenAround(s0, buf[..], pos, t, done, cur, end);
  }

  /** Of the fields `all`, `done` have been written, and next are those of interval `k - 1`. */
  ghost predicate ToDo(v: seq<Iv>, k: nat, prevLo: nat, done: seq<nat>, all: seq<nat>, more: seq<nat>)
  {
    Canonical(v) && k <= |v| && prevLo == PrevLo(v, k) && all == done + (Left(v, k) + more)
  }

  lemma ToDoEnd(v: seq<Iv>, prevLo: nat, done: seq<nat>, all: seq<nat>, more: seq<nat>)
    requires ToDo(v, 0, prevLo, done, all, more)
    ensures all == done + more
  {
    assert Left(v, 0) + more == more;
  }

  lemma WrittenAround(s0: seq<Byte>, s: seq<Byte>, pos: nat, t: Byte, done: seq<nat>, cur: nat, end: nat)
    requires Written(s0, s, pos, t, done, cur) && cur <= end <= |s0|
    ensures |s| == |s0| && s[..pos] == s0[..pos] && s[end..] == s0[end..]
  {
  }

  /** enc_ack_frame: writes the frame if it fits, else restores the position and
      leaves everything before it and from `end` on alone. */
  method EncAckFrame(buf: array<Byte>, pos: nat, end: nat, v: seq<Iv>, delay: nat, ecn: Ecn)
    returns (ok: bool, next: nat)
    requires pos <= end <= buf.Length && Canonical(v) && Encodable(v, delay, ecn)
    modifies buf
    ensures ok <==> v != [] && pos + |AckBytes(v, delay, ecn)| <= end
    ensures ok ==> next == pos + |AckBytes(v, delay, ecn)|
    ensures ok ==> buf[..] == old(buf[..pos]) + AckBytes(v, delay, ecn) + old(buf[next..])
    ensures !ok ==> next == pos && buf[..pos] == old(buf[..pos]) && buf[end..] == old(buf[end..])
  {
    ghost var s0 := buf[..];
    ok, next := false, pos;
    if pos + 1 > end {
      return;
    }
    var t := FrameType(ecn);
    buf[pos] := t;
    if v == [] {
      return;
    }
    ghost var all := AckFields(v, delay, ecn);
    ghost var rest := FromRange(v) + EcnFields(ecn);
    assert Written(s0, buf[..], pos, t, [], pos + 1);
    var head := [v[|v| - 1].hi, delay, |v| - 1];
    assert [] + (head + rest) == all && [] + head == head;
    var fits, cur := PutFields(buf, s0, pos, t, [], pos + 1, end, head, rest);
    if !fits {
      return;
    }
    ghost var done;
    fits, cur, done := PutRanges(buf, s0, pos, t, head, cur, end, v, all, EcnFields(ecn));
    if !fits {
      return;
    }
    assert done + (EcnFields(ecn) + []) == all;
    fits, cur := PutFields(buf, s0, pos, t, done, cur, end, EcnFields(ecn), []);
    if !fits {
      return;
    }
    ok, next := true, cur;
  }
}
