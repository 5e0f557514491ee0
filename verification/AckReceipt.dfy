/** dec_ack_frame in lib/src/frame.c: reads an ACK frame and settles its numbers in
    the books while reading. */
module AckReceipt {
  import opened Ledger
  import opened Recovery
  import opened Balance
  import opened Runs
  import opened Ivals
  import opened Varint
  import opened AckCodec
  import opened AckProcessing
  import opened Bookkeeping

  lemma ReadyToAck(c: Conn, p: nat, ack: nat)
    requires Inv(c) && p < SPACES && ack in c.sp[p].sent
    ensures Outstanding(c, c.sp[p].sent[ack]) && Known(c, c.sp[p].sent[ack])
  {
    assert SpaceOk(c, p);
  }

  /** An outstanding number is acknowledged. */
  method AckNumber(b: Books, p: nat, ack: nat, largest: bool)
    requires Inv(b.State()) && p < SPACES && ack in b.sp[p].sent
    modifies b
    ensures Enabled(old(b.State()), Ack(p, ack, largest)) && b.State() == Next(old(b.State()), Ack(p, ack, largest))
  {
    var id := b.sp[p].sent[ack];
    ReadyToAck(b.State(), p, ack);
    if largest {
      RaiseKeeps(b.State(), p, ack);
      b.RaiseLgAcked(p, ack);
    }
    b.OnPktAcked(id);
  }

  /** One round of the inner loop. */
  method AckStep(b: Books, p: nat, cum: int, lgInFrm: nat, ack: nat, ghost lo: nat)
    returns (stop: bool, error: Option<AckError>)
    requires Inv(b.State()) && p < SPACES && !b.sp[p].abandoned && lo <= ack
    modifies b
    ensures Inv(b.State()) && !b.sp[p].abandoned
    ensures var r := AckDown(old(b.State()), p, cum, lgInFrm, ack, lo);
            if stop then r == Outcome(b.State(), error)
            else error.None? && r == AckDown(b.State(), p, cum, lgInFrm, ack - 1, lo)
  {
    stop, error := true, None;
    if cum >= 0 && ack <= cum {
      return;
    }
    if ack !in b.sp[p].resolved {
      if ack !in b.sp[p].sent {
        return true, Some(NeverSent);
      }
      ghost var d := AckDownSent(b.State(), p, cum, lgInFrm, ack, lo);
      AckNumber(b, p, ack, ack == lgInFrm);
    }
    stop := false;
  }

  /** The inner loop, over the numbers of one range from `lgAck` down. */
  method AckRange(b: Books, p: nat, cum: int, lgInFrm: nat, lgAck: nat, ackRng: nat) returns (error: Option<AckError>)
    requires Inv(b.State()) && p < SPACES && !b.sp[p].abandoned && ackRng <= lgAck
    modifies b
    ensures Outcome(b.State(), error) == AckDown(old(b.State()), p, cum, lgInFrm, lgAck, lgAck - ackRng)
    ensures Inv(b.State()) && !b.sp[p].abandoned
  {
    ghost var c, lo := b.State(), lgAck - ackRng;
    var ack := lgAck;
    while ackRng >= lgAck - ack
      invariant ack <= lgAck && Inv(b.State()) && !b.sp[p].abandoned
      invariant AckDown(c, p, cum, lgInFrm, lgAck, lo) == AckDown(b.State(), p, cum, lgInFrm, ack, lo)
      decreases ack
    {
      var stop;
      stop, error := AckStep(b, p, cum, lgInFrm, ack, lo);
      if stop {
        return;
      }
      if ack == 0 {
        break;
      }
      ack := ack - 1;
    }
    error := None;
  }

  // ----- the ranges

  /** The result of parsing, after the ranges `done`. */
  function After(done: seq<(nat, nat)>, r: Parsed<(seq<(nat, nat)>, nat)>): (res: Parsed<(seq<(nat, nat)>, nat)>)
  {
    if r.Bad? then r else Good((done + r.value.0, r.value.1))
  }

  lemma {:induction false} AckRangesAppend(c: Conn, p: nat, cum: int, lgInFrm: nat, done: seq<(nat, nat)>, more: seq<(nat, nat)>)
    requires AckRanges(c, p, cum, lgInFrm, done).error.None?
    ensures AckRanges(c, p, cum, lgInFrm, done + more) ==
            AckRanges(AckRanges(c, p, cum, lgInFrm, done).state, p, cum, lgInFrm, more)
    decreases |done|
  {
    if done == [] {
      assert done + more == more;
    } else if p < |c.sp| {
      assert (done + more)[0] == done[0] && (done + more)[1..] == done[1..] + more;
      AckRangesAppend(AckDown(c, p, cum, lgInFrm, done[0].1, done[0].0).state, p, cum, lgInFrm, done[1..], more);
    }
  }

  lemma AckRangesOne(c: Conn, p: nat, cum: int, lgInFrm: nat, lo: nat, hi: nat)
    requires p < |c.sp|
    ensures AckRanges(c, p, cum, lgInFrm, [(lo, hi)]) == AckDown(c, p, cum, lgInFrm, hi, lo)
  {
    var r := AckDown(c, p, cum, lgInFrm, hi, lo);
    assert [(lo, hi)][1..] == [];
    assert AckRanges(r.state, p, cum, lgInFrm, []) == Outcome(r.state, None);
  }

  /** What the frame comes to: its ranges settled in order if they parse, an error
      otherwise. */
  ghost predicate Settled(c: Conn, p: nat, cum: int, lgInFrm: nat, parsed: Parsed<(seq<(nat, nat)>, nat)>,
                          d: Conn, error: Option<AckError>, next: nat)
  {
    match parsed
    case Good((ranges, end)) =>
      Outcome(d, error) == AckRanges(c, p, cum, lgInFrm, ranges) && (error.None? ==> next == end)
    case Bad(_) => error.Some?
  }

  /** A round of the outer loop settles one more range. */
  lemma OneMore(c: Conn, p: nat, cum: int, lgInFrm: nat, done: seq<(nat, nat)>, d: Conn, lo: nat, hi: nat, e: Outcome)
    requires AckRanges(c, p, cum, lgInFrm, done) == Outcome(d, None) && p < |d.sp|
    requires e == AckDown(d, p, cum, lgInFrm, hi, lo)
    ensures AckRanges(c, p, cum, lgInFrm, done + [(lo, hi)]) == e
  {
    AckRangesAppend(c, p, cum, lgInFrm, done, [(lo, hi)]);
    AckRangesOne(d, p, cum, lgInFrm, lo, hi);
  }

  /** After a range that fails, the rest does not matter. */
  lemma {:induction false} FailsEarly(c: Conn, p: nat, cum: int, lgInFrm: nat, done: seq<(nat, nat)>, more: seq<(nat, nat)>)
    requires AckRanges(c, p, cum, lgInFrm, done).error.Some?
    ensures AckRanges(c, p, cum, lgInFrm, done + more) == AckRanges(c, p, cum, lgInFrm, done)
    decreases |done|
  {
    if done != [] && p < |c.sp| {
      assert (done + more)[0] == done[0] && (done + more)[1..] == done[1..] + more;
      var r := AckDown(c, p, cum, lgInFrm, done[0].1, done[0].0);
      if r.error.None? { FailsEarly(r.state, p, cum, lgInFrm, done[1..], more); }
    }
  }

  /** Parsing from `next` on continues parsing from `pos` with the range (lo, lg). */
  ghost predicate Continues(read: Reader, pos: nat, n: nat, lg: nat, lo: nat, next: nat, lg': nat)
    requires n > 0
  {
    ParseRanges(read, pos, n, lg) ==
    if n == 1 then Good(([(lo, lg)], next)) else After([(lo, lg)], ParseRanges(read, next, n - 1, lg'))
  }

  /** If the ranges can be parsed, the first is (lo, hi). */
  predicate Begins(parsed: Parsed<(seq<(nat, nat)>, nat)>, lo: nat, hi: nat)
  {
    parsed.Good? ==> parsed.value.0 != [] && parsed.value.0[0] == (lo, hi)
  }

  /** The checks on a range length. */
  predicate BadRange(read: Reader, pos: nat, lg: nat)
  {
    read(pos).None? || read(pos).value.0 > ACK_RNG_MAX || read(pos).value.0 > lg
  }

  /** The checks on a gap below `lo`. */
  predicate BadGap(read: Reader, pos: nat, lo: nat)
  {
    read(pos).None? || lo < read(pos).value.0 + 2
  }

  lemma BadRangeRefused(read: Reader, pos: nat, n: nat, lg: nat)
    requires n > 0 && BadRange(read, pos, lg)
    ensures ParseRanges(read, pos, n, lg).Bad?
  {
  }

  lemma BadGapRefused(read: Reader, pos: nat, n: nat, lg: nat, x: nat, p: nat)
    requires n > 1 && read(pos) == Some((x, p)) && !BadRange(read, pos, lg) && BadGap(read, p, lg - x)
    ensures ParseRanges(read, pos, n, lg).Bad?
  {
  }

  lemma GoodStart(read: Reader, pos: nat, n: nat, lg: nat, x: nat, p: nat)
    requires n > 0 && read(pos) == Some((x, p)) && !BadRange(read, pos, lg)
    ensures Begins(ParseRanges(read, pos, n, lg), lg - x, lg)
  {
  }

  lemma ContinuesLast(read: Reader, pos: nat, lg: nat, x: nat, p: nat)
    requires read(pos) == Some((x, p)) && !BadRange(read, pos, lg)
    ensures Continues(read, pos, 1, lg, lg - x, p, lg)
  {
    ParseLast(read, pos, lg, x, p);
  }

  lemma ContinuesMore(read: Reader, pos: nat, n: nat, lg: nat, x: nat, p: nat, gap: nat, g: nat)
    requires n > 1 && read(pos) == Some((x, p)) && !BadRange(read, pos, lg)
    requires read(p) == Some((gap, g)) && !BadGap(read, p, lg - x)
    ensures Continues(read, pos, n, lg, lg - x, g, lg - (x + gap + 2))
  {
    ParseStep(read, pos, n, lg, x, p, gap, g);
  }

  method ReadRange(read: Reader, pos: nat, lg: nat) returns (error: Option<AckError>, x: nat, next: nat)
    ensures error.Some? <==> BadRange(read, pos, lg)
    ensures error.None? ==> read(pos) == Some((x, next))
  {
    var rng := read(pos);
    if rng.None? {
      return Some(Malformed), 0, pos;
    }
    if rng.value.0 > ACK_RNG_MAX {
      return Some(RangeTooLong), 0, pos;
    }
    if rng.value.0 > lg {
      return Some(Malformed), 0, pos;
    }
    return None, rng.value.0, rng.value.1;
  }

  method ReadGap(read: Reader, pos: nat, lo: nat) returns (error: Option<AckError>, gap: nat, next: nat)
    ensures error.Some? <==> BadGap(read, pos, lo)
    ensures error.None? ==> read(pos) == Some((gap, next))
  {
    var r := read(pos);
    if r.None? {
      return Some(Malformed), 0, pos;
    }
    if lo < r.value.0 + 2 {
      return Some(Illegal), 0, pos;
    }
    return None, r.value.0, r.value.1;
  }

  /** The gap behind a range, unless it is the last. */
  method NextGap(read: Reader, ghost pos: nat, n: nat, lg: nat, x: nat, p: nat)
    returns (error: Option<AckError>, next: nat, lg': nat)
    requires n > 0 && read(pos) == Some((x, p)) && !BadRange(read, pos, lg)
    ensures if error.Some? then ParseRanges(read, pos, n, lg).Bad? else Continues(read, pos, n, lg, lg - x, next, lg')
  {
    error, next, lg' := None, p, lg;
    if n > 1 {
      var gap;
      error, gap, next := ReadGap(read, p, lg - x);
      if error.Some? {
        BadGapRefused(read, pos, n, lg, x, p);
        return;
      }
      lg' := lg - (x + gap + 2);
      ContinuesMore(read, pos, n, lg, x, p, gap, next);
    } else {
      ContinuesLast(read, pos, lg, x, p);
    }
  }

  /** One round of the outer loop: read and settle a range, read the gap. */
  method DecRange(b: Books, p: nat, cum: int, lgInFrm: nat, read: Reader, pos: nat, n: nat, lg: nat)
    returns (error: Option<AckError>, next: nat, lg': nat, ghost lo: nat, ghost refused: bool)
    requires Inv(b.State()) && p < SPACES && !b.sp[p].abandoned && n > 0
    modifies b
    ensures Inv(b.State()) && !b.sp[p].abandoned
    ensures refused ==> ParseRanges(read, pos, n, lg).Bad? && error.Some?
    ensures !refused ==> Outcome(b.State(), error) == AckDown(old(b.State()), p, cum, lgInFrm, lg, lo)
    ensures !refused ==> Begins(ParseRanges(read, pos, n, lg), lo, lg)
    ensures error.None? ==> !refused && Continues(read, pos, n, lg, lo, next, lg')
  {
    next, lg', lo, refused := pos, lg, 0, true;
    var x;
    error, x, next := ReadRange(read, pos, lg);
    if error.Some? {
      BadRangeRefused(read, pos, n, lg);
      return;
    }
    lo := lg - x;
    GoodStart(read, pos, n, lg, x, next);
    error := AckRange(b, p, cum, lgInFrm, lg, x);
    if error.Some? {
      refused := false;
      return;
    }
    error, next, lg' := NextGap(read, pos, n, lg, x, next);
    refused := error.Some?;
  }

  /** The outer loop, over `cnt` ranges from the one ending at `lg`. */
  method DecRanges(b: Books, p: nat, cum: int, lgInFrm: nat, read: Reader, pos: nat, cnt: nat, lg: nat)
    returns (error: Option<AckError>, next: nat)
    requires Inv(b.State()) && p < SPACES && !b.sp[p].abandoned && cnt > 0
    modifies b
    ensures Inv(b.State())
    ensures Settled(old(b.State()), p, cum, lgInFrm, ParseRanges(read, pos, cnt, lg), b.State(), error, next)
  {
    ghost var c := b.State();
    ghost var parsed := ParseRanges(read, pos, cnt, lg);
    ghost var done: seq<(nat, nat)> := [];
    var n, lgAck: nat := cnt, lg;
    next, error := pos, None;
    AfterNothing(parsed);
    while n > 0
      invariant Inv(b.State()) && !b.sp[p].abandoned && error.None?
      invariant AckRanges(c, p, cum, lgInFrm, done) == Outcome(b.State(), None)
      invariant if n > 0 then parsed == After(done, ParseRanges(read, next, n, lgAck)) else parsed == Good((done, next))
    {
      ghost var d, at, hi := b.State(), next, lgAck;
      ghost var lo, refused;
      error, next, lgAck, lo, refused := DecRange(b, p, cum, lgInFrm, read, next, n, lgAck);
      if error.Some? {
        if parsed.Good? {
          OneMore(c, p, cum, lgInFrm, done, d, lo, hi, Outcome(b.State(), error));
          RestIgnored(c, p, cum, lgInFrm, read, at, n, hi, done, lo, parsed);
        }
        return;
      }
      OneMore(c, p, cum, lgInFrm, done, d, lo, hi, Outcome(b.State(), error));
      AfterMore(read, at, n, hi, done, lo, next, lgAck, parsed);
      done := done + [(lo, hi)];
      n := n - 1;
    }
  }

  lemma AfterNothing(r: Parsed<(seq<(nat, nat)>, nat)>)
    ensures After([], r) == r
  {
    if r.Good? { assert [] + r.value.0 == r.value.0; }
  }

  lemma AfterMore(read: Reader, pos: nat, n: nat, lg: nat, done: seq<(nat, nat)>, lo: nat, next: nat, lg': nat,
                  parsed: Parsed<(seq<(nat, nat)>, nat)>)
    requires n > 0 && parsed == After(done, ParseRanges(read, pos, n, lg)) && Continues(read, pos, n, lg, lo, next, lg')
    ensures if n > 1 then parsed == After(done + [(lo, lg)], ParseRanges(read, next, n - 1, lg'))
            else parsed == Good((done + [(lo, lg)], next))
  {
    if n > 1 {
      var r := ParseRanges(read, next, n - 1, lg');
      if r.Good? { assert done + ([(lo, lg)] + r.value.0) == (done + [(lo, lg)]) + r.value.0; }
    }
  }

  /** A range that fails is the last one settled. */
  lemma RestIgnored(c: Conn, p: nat, cum: int, lgInFrm: nat, read: Reader, pos: nat, n: nat, lg: nat,
                    done: seq<(nat, nat)>, lo: nat, parsed: Parsed<(seq<(nat, nat)>, nat)>)
    requires n > 0 && parsed == After(done, ParseRanges(read, pos, n, lg)) && parsed.Good?
    requires var rs := ParseRanges(read, pos, n, lg).value.0; rs != [] && rs[0] == (lo, lg)
    requires AckRanges(c, p, cum, lgInFrm, done + [(lo, lg)]).error.Some?
    ensures AckRanges(c, p, cum, lgInFrm, parsed.value.0) == AckRanges(c, p, cum, lgInFrm, done + [(lo, lg)])
  {
    var rs := ParseRanges(read, pos, n, lg).value.0;
    assert parsed.value.0 == (done + [(lo, lg)]) + rs[1..];
    FailsEarly(c, p, cum, lgInFrm, done + [(lo, lg)], rs[1..]);
  }

  /** Every number in the ranges is in acked_or_lost. */
  ghost predicate AllSettled(c: Conn, p: nat, ranges: seq<(nat, nat)>)
  {
    p < |c.sp| && forall n: nat :: Covers(ranges, n) ==> n in c.sp[p].resolved
  }

  lemma FrameSettles(c: Conn, p: nat, v: seq<Iv>, lg: nat, ranges: seq<(nat, nat)>, d: Conn)
    requires Inv(c) && p < SPACES && !c.sp[p].abandoned
    requires Canonical(v) && forall n: int :: Has(v, n) <==> n in c.sp[p].resolved
    requires Outcome(d, None) == AckRanges(c, p, CumAck(v), lg, ranges)
    ensures v == [] || v[0].lo == 0 ==> AllSettled(d, p, ranges)
  {
    if v == [] || v[0].lo == 0 { AckCompleteFromFirst(c, p, v, lg, ranges); }
  }

  /** What dec_ack_frame must come to, by what the fields of the frame parse to. */
  ghost predicate FrameDone(c: Conn, p: nat, v: seq<Iv>, parsed: Parsed<(nat, nat, seq<(nat, nat)>, nat)>,
                            d: Conn, error: Option<AckError>, next: nat)
  {
    match parsed
    case Good((lg, delay, ranges, last)) =>
      && Outcome(d, error) == AckRanges(c, p, CumAck(v), lg, ranges)
      && (error.None? ==> next == last)
      && (error.None? && (v == [] || v[0].lo == 0) ==> AllSettled(d, p, ranges))
      && LgDone(c, p, lg, lg > CumAck(v), Outcome(d, error))
    case Bad(_) => error.Some?
  }

  lemma ParseAckHead(read: Reader, pos: nat, lg: (nat, nat), delay: (nat, nat), cnt: (nat, nat))
    requires read(pos) == Some(lg) && read(lg.1) == Some(delay) && read(delay.1) == Some(cnt)
    ensures var rs := ParseRanges(read, cnt.1, cnt.0 + 1, lg.0);
            ParseAck(read, pos) == if rs.Bad? then Bad(rs.error) else Good((lg.0, delay.0, rs.value.0, rs.value.1))
  {
  }

  lemma RangesDone(c: Conn, p: nat, v: seq<Iv>, lg: nat, delay: nat, rs: Parsed<(seq<(nat, nat)>, nat)>,
                   d: Conn, error: Option<AckError>, next: nat)
    requires Inv(c) && p < SPACES && !c.sp[p].abandoned
    requires Canonical(v) && forall n: int :: Has(v, n) <==> n in c.sp[p].resolved
    requires Settled(c, p, CumAck(v), lg, rs, d, error, next) && (rs.Good? ==> Covers(rs.value.0, lg))
    ensures FrameDone(c, p, v, if rs.Bad? then Bad(rs.error) else Good((lg, delay, rs.value.0, rs.value.1)), d, error, next)
  {
    if rs.Good? {
      AckRangesLg(c, p, CumAck(v), lg, rs.value.0);
      if error.None? { FrameSettles(c, p, v, lg, rs.value.0, d); }
    }
  }

  /** The first range of a frame that parses ends at its largest number. */
  lemma LargestCovered(read: Reader, pos: nat, n: nat, lg: nat)
    requires n > 0
    ensures ParseRanges(read, pos, n, lg).Good? ==> Covers(ParseRanges(read, pos, n, lg).value.0, lg)
  {
    if ParseRanges(read, pos, n, lg).Good? {
      ParsedDescends(read, pos, n, lg);
      var rs := ParseRanges(read, pos, n, lg).value.0;
      assert rs[0].0 <= lg <= rs[0].1;
    }
  }

  /** dec_ack_frame, reading the fields through `read`. */
  method DecFields(b: Books, p: nat, v: seq<Iv>, read: Reader, pos: nat) returns (error: Option<AckError>, next: nat)
    requires Inv(b.State()) && p < SPACES && !b.sp[p].abandoned
    requires Canonical(v) && forall n: int :: Has(v, n) <==> n in b.sp[p].resolved
    modifies b
    ensures Inv(b.State()) && FrameDone(old(b.State()), p, v, ParseAck(read, pos), b.State(), error, next)
  {
    next := pos;
    var lg := read(pos);
    if lg.None? {
      return Some(Malformed), next;
    }
    var delay := read(lg.value.1);
    if delay.None? {
      return Some(Malformed), next;
    }
    var cnt := read(delay.value.1);
    if cnt.None? {
      return Some(Malformed), next;
    }
    ghost var c := b.State();
    ParseAckHead(read, pos, lg.value, delay.value, cnt.value);
    LargestCovered(read, cnt.value.1, cnt.value.0 + 1, lg.value.0);
    error, next := DecRanges(b, p, CumAck(v), lg.value.0, read, cnt.value.1, cnt.value.0 + 1, lg.value.0);
    RangesDone(c, p, v, lg.value.0, delay.value.0, ParseRanges(read, cnt.value.1, cnt.value.0 + 1, lg.value.0),
               b.State(), error, next);
  }

  /** dec_ack_frame, from behind the type byte to the end of the ranges; `v` lists the
      intervals of acked_or_lost. */
  method DecAckFrame(b: Books, p: nat, v: seq<Iv>, s: seq<Byte>, pos: nat, end: nat)
    returns (error: Option<AckError>, next: nat)
    requires Inv(b.State()) && p < SPACES && !b.sp[p].abandoned && end <= |s|
    requires Canonical(v) && forall n: int :: Has(v, n) <==> n in b.sp[p].resolved
    modifies b
    ensures Inv(b.State())
    ensures FrameDone(old(b.State()), p, v, ParseAck(Decoder(s, end), pos), b.State(), error, next)
  {
    error, next := DecFields(b, p, v, Decoder(s, end), pos);
  }
}
