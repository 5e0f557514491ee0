/** Coalescing of packets into datagrams: coalesce and can_coalesce_pkt_types in
    lib/src/pkt.c (section 12.2 of RFC 9000). */
module Coalescing {
  import opened Varint

  const MIN_INI_LEN: nat := 1200
  const LH_INIT: nat := 0x00
  const LH_0RTT: nat := 0x10
  const LH_HSHK: nat := 0x20
  const SH: nat := 0x40

  predicate IsLh(flags: Byte)
  {
    flags >= 0x80
  }

  /** pkt_type */
  function PktType(flags: Byte): (r: nat)
  {
    if IsLh(flags) then flags / 16 % 4 * 16 else SH
  }

  /** A protected packet of the queue; `nr` is its place in the queue. */
  datatype Pkt = Pkt(nr: nat, bytes: seq<Byte>)

  function Type(p: Pkt): (r: nat)
  {
    if p.bytes == [] then SH else PktType(p.bytes[0])
  }

  function Len(ps: seq<Pkt>): (r: nat)
  {
    if ps == [] then 0 else Len(ps[..|ps| - 1]) + |ps[|ps| - 1].bytes|
  }

  /** Packets sent together, and what follows them. */
  datatype Datagram = Datagram(pkts: seq<Pkt>, pad: seq<Byte>)

  predicate CanCoalesce(a: nat, b: nat)
  {
    || (a == LH_INIT && (b == LH_0RTT || b == LH_HSHK || b == SH))
    || (a == LH_HSHK && (b == LH_HSHK || b == SH))
    || (a == LH_0RTT && b == LH_HSHK)
  }

  /** The bits of skipped_types. */
  datatype Bits = Bits(b10: bool, b20: bool, b40: bool)

  const NO_BITS := Bits(false, false, false)

  function TypeBits(t: nat): (r: Bits)
  {
    Bits(t == LH_0RTT || t == 0x30, t == LH_HSHK || t == 0x30, t == SH)
  }

  function Or(a: Bits, b: Bits): (r: Bits)
  {
    Bits(a.b10 || b.b10, a.b20 || b.b20, a.b40 || b.b40)
  }

  predicate Meet(a: Bits, b: Bits)
  {
    (a.b10 && b.b10) || (a.b20 && b.b20) || (a.b40 && b.b40)
  }

  function Num(a: Bits): (r: nat)
  {
    (if a.b10 then 0x10 else 0) + (if a.b20 then 0x20 else 0) + (if a.b40 then 0x40 else 0)
  }

  /** May `next` go behind the packets `v`, the last of type `inner`? */
  predicate Fits(v: seq<Pkt>, inner: nat, skipped: Bits, next: Pkt, maxUps: nat, doPmtud: bool)
    requires v != []
  {
    && Len(v) + |next.bytes| <= maxUps
    && CanCoalesce(inner, Type(next))
    && !Meet(skipped, TypeBits(Type(next)))
    && !(skipped != NO_BITS && Num(skipped) < Type(next))
    && !(Type(next) == SH && doPmtud)
    && !(Type(next) == SH && Type(v[0]) == LH_INIT)
  }

  /** Only a packet that is too long is remembered as skipped. */
  function Skip(v: seq<Pkt>, skipped: Bits, next: Pkt, maxUps: nat): (r: Bits)
  {
    if Len(v) + |next.bytes| > maxUps then Or(skipped, TypeBits(Type(next))) else skipped
  }

  /** The inner loop: what of `rest` joins `v`, and what stays in the queue. */
  function Fill(v: seq<Pkt>, inner: nat, skipped: Bits, rest: seq<Pkt>, maxUps: nat, doPmtud: bool): (r: (seq<Pkt>, seq<Pkt>))
    requires v != []
    ensures |r.1| <= |rest|
    decreases |rest|
  {
    if rest == [] then (v, [])
    else if Fits(v, inner, skipped, rest[0], maxUps, doPmtud) then
      Fill(v + [rest[0]], Type(rest[0]), skipped, rest[1..], maxUps, doPmtud)
    else
      var r := Fill(v, inner, Skip(v, skipped, rest[0], maxUps), rest[1..], maxUps, doPmtud);
      (r.0, [rest[0]] + r.1)
  }

  /** pad_with_rand: random bytes, the first without the header bits. */
  function Padding(n: nat, rand: nat -> Byte): (r: seq<Byte>)
    ensures |r| == n && (n > 0 ==> r[0] < 0x40)
  {
    if n == 0 then [] else [rand(0) % 0x40] + seq(n - 1, (i: nat) => rand(i + 1))
  }

  /** The padding of a datagram: up to max_ups once when probing the path, else
      Initial-led ones up to 1200 bytes. */
  function PadFor(v: seq<Pkt>, maxUps: nat, probe: bool, rand: nat -> Byte): (r: seq<Byte>)
    requires v != []
  {
    if probe && Len(v) < maxUps then Padding(maxUps - Len(v), rand)
    else if Type(v[0]) == LH_INIT && Len(v) < MIN_INI_LEN then Padding(MIN_INI_LEN - Len(v), rand)
    else []
  }

  /** The outer loop. */
  function Coalesce(q: seq<Pkt>, maxUps: nat, doPmtud: bool, probe: bool, rand: nat -> Byte): (r: seq<Datagram>)
    decreases |q|
  {
    if q == [] then []
    else
      var f := Fill([q[0]], Type(q[0]), NO_BITS, q[1..], maxUps, doPmtud);
      FillNotEmpty([q[0]], Type(q[0]), NO_BITS, q[1..], maxUps, doPmtud);
      [Datagram(f.0, PadFor(f.0, maxUps, probe, rand))]
      + Coalesce(f.1, maxUps, doPmtud, probe && Len(f.0) >= maxUps, rand)
  }

  lemma {:induction false} FillNotEmpty(v: seq<Pkt>, inner: nat, skipped: Bits, rest: seq<Pkt>, maxUps: nat, doPmtud: bool)
    requires v != []
    ensures Fill(v, inner, skipped, rest, maxUps, doPmtud).0 != []
    ensures Fill(v, inner, skipped, rest, maxUps, doPmtud).0[0] == v[0]
    decreases |rest|
  {
    if rest != [] {
      if Fits(v, inner, skipped, rest[0], maxUps, doPmtud) {
        FillNotEmpty(v + [rest[0]], Type(rest[0]), skipped, rest[1..], maxUps, doPmtud);
      } else {
        FillNotEmpty(v, inner, Skip(v, skipped, rest[0], maxUps), rest[1..], maxUps, doPmtud);
      }
    }
  }

  // ----- shape of a datagram

  lemma LenMore(v: seq<Pkt>, p: Pkt)
    ensures Len(v + [p]) == Len(v) + |p.bytes|
  {
    assert (v + [p])[..|v|] == v;
  }

  /** What the inner loop keeps: within the limit, the types of neighbours match, and
      no short header behind an Initial. */
  ghost predicate Shape(v: seq<Pkt>, inner: nat, maxUps: nat)
  {
    && v != [] && Len(v) <= maxUps && inner == Type(v[|v| - 1])
    && (forall i :: 0 <= i < |v| - 1 ==> Type(v[i]) != SH)
    && (Type(v[0]) == LH_INIT ==> inner != SH)
  }

  lemma ShapeMore(v: seq<Pkt>, inner: nat, skipped: Bits, next: Pkt, maxUps: nat, doPmtud: bool)
    requires Shape(v, inner, maxUps) && Fits(v, inner, skipped, next, maxUps, doPmtud)
    ensures Shape(v + [next], Type(next), maxUps)
  {
    LenMore(v, next);
    assert inner != SH;
  }

  ghost predicate Filled(v: seq<Pkt>, maxUps: nat)
  {
    v != [] && Shape(v, Type(v[|v| - 1]), maxUps)
  }

  lemma {:induction false} FillShape(v: seq<Pkt>, inner: nat, skipped: Bits, rest: seq<Pkt>, maxUps: nat, doPmtud: bool)
    requires Shape(v, inner, maxUps)
    ensures Filled(Fill(v, inner, skipped, rest, maxUps, doPmtud).0, maxUps)
    decreases |rest|
  {
    if rest != [] {
      if Fits(v, inner, skipped, rest[0], maxUps, doPmtud) {
        ShapeMore(v, inner, skipped, rest[0], maxUps, doPmtud);
        FillShape(v + [rest[0]], Type(rest[0]), skipped, rest[1..], maxUps, doPmtud);
      } else {
        FillShape(v, inner, Skip(v, skipped, rest[0], maxUps), rest[1..], maxUps, doPmtud);
      }
    }
  }

  /** A datagram as section 12.2 of RFC 9000 wants it: within the limit, a short-header
      packet only at its end and never before padding, Initial-led ones at least 1200
      bytes long, and padding that cannot be taken for a long-header packet. */
  ghost predicate WellFormed(d: Datagram, maxUps: nat)
  {
    && d.pkts != [] && Len(d.pkts) + |d.pad| <= maxUps
    && (forall i :: 0 <= i < |d.pkts| - 1 ==> Type(d.pkts[i]) != SH)
    && (d.pad != [] ==> Type(d.pkts[|d.pkts| - 1]) != SH && d.pad[0] < 0x40)
    && (Type(d.pkts[0]) == LH_INIT ==> Len(d.pkts) + |d.pad| >= MIN_INI_LEN)
  }

  lemma OneLen(p: Pkt)
    ensures Len([p]) == |p.bytes|
  {
    assert [p][..0] == [];
  }

  lemma FirstWellFormed(q: seq<Pkt>, maxUps: nat, rand: nat -> Byte)
    requires q != [] && |q[0].bytes| <= maxUps && maxUps >= MIN_INI_LEN
    ensures var f := Fill([q[0]], Type(q[0]), NO_BITS, q[1..], maxUps, false);
            f.0 != [] && WellFormed(Datagram(f.0, PadFor(f.0, maxUps, false, rand)), maxUps)
  {
    OneLen(q[0]);
    FillShape([q[0]], Type(q[0]), NO_BITS, q[1..], maxUps, false);
  }

  lemma {:induction false} FillKeepsRest(v: seq<Pkt>, inner: nat, skipped: Bits, rest: seq<Pkt>, maxUps: nat, doPmtud: bool)
    requires v != []
    ensures forall p :: p in Fill(v, inner, skipped, rest, maxUps, doPmtud).1 ==> p in rest
    decreases |rest|
  {
    if rest != [] {
      if Fits(v, inner, skipped, rest[0], maxUps, doPmtud) {
        FillKeepsRest(v + [rest[0]], Type(rest[0]), skipped, rest[1..], maxUps, doPmtud);
      } else {
        FillKeepsRest(v, inner, Skip(v, skipped, rest[0], maxUps), rest[1..], maxUps, doPmtud);
      }
    }
  }

  /** All datagrams are well formed, when the path is not being probed. */
  lemma {:induction false} AllWellFormed(q: seq<Pkt>, maxUps: nat, rand: nat -> Byte)
    requires maxUps >= MIN_INI_LEN && forall i :: 0 <= i < |q| ==> |q[i].bytes| <= maxUps
    ensures forall d :: d in Coalesce(q, maxUps, false, false, rand) ==> WellFormed(d, maxUps)
    decreases |q|
  {
    if q != [] {
      FirstWellFormed(q, maxUps, rand);
      FillKeepsRest([q[0]], Type(q[0]), NO_BITS, q[1..], maxUps, false);
      var rest := Fill([q[0]], Type(q[0]), NO_BITS, q[1..], maxUps, false).1;
      forall i | 0 <= i < |rest| ensures |rest[i].bytes| <= maxUps { assert rest[i] in rest; }
      AllWellFormed(rest, maxUps, rand);
    }
  }

  // ----- what goes together

  /** The first byte of an Initial, 0-RTT or Handshake packet (section 17.2 of RFC 9000),
      or of a packet with a short header. */
  predicate IsInitial(b: Byte) { 0x80 <= b && b % 0x40 < 0x10 }
  predicate IsZeroRtt(b: Byte) { 0x80 <= b && 0x10 <= b % 0x40 < 0x20 }
  predicate IsHandshake(b: Byte) { 0x80 <= b && 0x20 <= b % 0x40 < 0x30 }
  predicate IsShort(b: Byte) { b < 0x80 }

  /** Packet `next` may follow `prev` in a datagram that starts with `first`. */
  ghost predicate GoTogether(first: Byte, prev: Byte, next: Byte, doPmtud: bool)
  {
    || (IsZeroRtt(next) && IsInitial(prev))
    || (IsHandshake(next) && (IsInitial(prev) || IsZeroRtt(prev) || IsHandshake(prev)))
    || (IsShort(next) && (IsInitial(prev) || IsHandshake(prev)) && !IsInitial(first) && !doPmtud)
  }

  lemma TypeIs(p: Pkt)
    requires p.bytes != []
    ensures Type(p) == LH_INIT <==> IsInitial(p.bytes[0])
    ensures Type(p) == LH_0RTT <==> IsZeroRtt(p.bytes[0])
    ensures Type(p) == LH_HSHK <==> IsHandshake(p.bytes[0])
    ensures Type(p) == SH <==> IsShort(p.bytes[0])
  {
  }

  /** Packets left out as too long hold back a later one: its own type does, any type does
      for a short header, and a 0-RTT packet with no short one for a Handshake packet. */
  ghost predicate HeldBack(skipped: Bits, next: Byte)
  {
    || (IsZeroRtt(next) && skipped.b10)
    || (IsHandshake(next) && (skipped.b20 || (skipped.b10 && !skipped.b40)))
    || (IsShort(next) && (skipped.b10 || skipped.b20 || skipped.b40))
  }

  /** What fits, goes together and is not held back joins. */
  lemma FitsMeans(v: seq<Pkt>, skipped: Bits, next: Pkt, maxUps: nat, doPmtud: bool)
    requires v != [] && v[0].bytes != [] && v[|v| - 1].bytes != [] && next.bytes != []
    ensures Fits(v, Type(v[|v| - 1]), skipped, next, maxUps, doPmtud) <==>
      && Len(v) + |next.bytes| <= maxUps
      && GoTogether(v[0].bytes[0], v[|v| - 1].bytes[0], next.bytes[0], doPmtud)
      && !HeldBack(skipped, next.bytes[0])
  {
    TypeIs(v[0]);
    TypeIs(v[|v| - 1]);
    TypeIs(next);
  }

  /** The first `k` packets of the queue fit in one datagram and go together. */
  ghost predicate Run(q: seq<Pkt>, k: nat, maxUps: nat, doPmtud: bool)
    requires forall p :: p in q ==> p.bytes != []
  {
    && 0 < k <= |q|
    && forall i :: 0 < i < k ==>
         Len(q[..i]) + |q[i].bytes| <= maxUps && GoTogether(q[0].bytes[0], q[i - 1].bytes[0], q[i].bytes[0], doPmtud)
  }

  lemma {:induction false} FillBegins(v: seq<Pkt>, inner: nat, skipped: Bits, rest: seq<Pkt>, maxUps: nat, doPmtud: bool)
    requires v != []
    ensures v <= Fill(v, inner, skipped, rest, maxUps, doPmtud).0
    decreases |rest|
  {
    if rest != [] {
      if Fits(v, inner, skipped, rest[0], maxUps, doPmtud) {
        FillBegins(v + [rest[0]], Type(rest[0]), skipped, rest[1..], maxUps, doPmtud);
      } else {
        FillBegins(v, inner, Skip(v, skipped, rest[0], maxUps), rest[1..], maxUps, doPmtud);
      }
    }
  }

  lemma FillOneMore(q: seq<Pkt>, j: nat, maxUps: nat, doPmtud: bool)
    requires (forall p :: p in q ==> p.bytes != []) && 0 < j < |q| && Len(q[..j]) + |q[j].bytes| <= maxUps
    requires q[0].bytes != [] && q[j - 1].bytes != [] && q[j].bytes != []
    requires GoTogether(q[0].bytes[0], q[j - 1].bytes[0], q[j].bytes[0], doPmtud)
    ensures Fill(q[..j], Type(q[j - 1]), NO_BITS, q[j..], maxUps, doPmtud)
         == Fill(q[..j + 1], Type(q[j]), NO_BITS, q[j + 1..], maxUps, doPmtud)
  {
    FitsMeans(q[..j], NO_BITS, q[j], maxUps, doPmtud);
    assert q[j..][0] == q[j] && q[j..][1..] == q[j + 1..] && q[..j] + [q[j]] == q[..j + 1];
  }

  /** The state of the inner loop after the packets before `i` have all joined. */
  lemma {:induction false} FillRun(q: seq<Pkt>, i: nat, k: nat, maxUps: nat, doPmtud: bool)
    requires (forall p :: p in q ==> p.bytes != []) && Run(q, k, maxUps, doPmtud) && 0 < i <= k
    ensures Fill([q[0]], Type(q[0]), NO_BITS, q[1..], maxUps, doPmtud)
         == Fill(q[..i], Type(q[i - 1]), NO_BITS, q[i..], maxUps, doPmtud)
    decreases i
  {
    if i == 1 {
      assert q[..1] == [q[0]];
    } else {
      FillRun(q, i - 1, k, maxUps, doPmtud);
      assert q[0] in q && q[i - 2] in q && q[i - 1] in q;
      FillOneMore(q, i - 1, maxUps, doPmtud);
    }
  }

  /** The first datagram begins with all the packets at the head of the queue that fit and
      go together; the next one stays behind. */
  lemma LongestRun(q: seq<Pkt>, k: nat, maxUps: nat, doPmtud: bool)
    requires (forall p :: p in q ==> p.bytes != []) && Run(q, k, maxUps, doPmtud)
    ensures var f := Fill([q[0]], Type(q[0]), NO_BITS, q[1..], maxUps, doPmtud);
            && q[..k] <= f.0
            && (k < |q| && !Run(q, k + 1, maxUps, doPmtud) ==> f.1 != [] && f.1[0] == q[k])
  {
    FillRun(q, k, k, maxUps, doPmtud);
    FillBegins(q[..k], Type(q[k - 1]), NO_BITS, q[k..], maxUps, doPmtud);
    if k < |q| && !Run(q, k + 1, maxUps, doPmtud) {
      var v := q[..k];
      assert v[0] in q && v[|v| - 1] in q && q[k] in q && q[k..][0] == q[k];
      FitsMeans(v, NO_BITS, q[k], maxUps, doPmtud);
    }
  }

  /** Two packets share a datagram if and only if they fit and go together. */
  lemma PairShares(a: Pkt, b: Pkt, maxUps: nat, doPmtud: bool)
    requires a.bytes != [] && b.bytes != []
    ensures var f := Fill([a], Type(a), NO_BITS, [b], maxUps, doPmtud);
            if |a.bytes| + |b.bytes| <= maxUps && GoTogether(a.bytes[0], a.bytes[0], b.bytes[0], doPmtud) then f == ([a, b], [])
            else f == ([a], [b])
  {
    OneLen(a);
    FitsMeans([a], NO_BITS, b, maxUps, doPmtud);
    assert [a] + [b] == [a, b] && [b][1..] == [] && [b] + [] == [b];
  }

  /** Type `t` is among the skipped ones. */
  predicate Recorded(a: Bits, t: nat)
  {
    (t == LH_0RTT && a.b10) || (t == LH_HSHK && a.b20) || (t == SH && a.b40)
  }

  lemma {:induction false} NoneOf(v: seq<Pkt>, inner: nat, skipped: Bits, rest: seq<Pkt>, maxUps: nat, doPmtud: bool, t: nat)
    requires v != [] && Recorded(skipped, t)
    ensures forall p :: p in Fill(v, inner, skipped, rest, maxUps, doPmtud).0 && p !in v ==> Type(p) != t && Type(p) != SH
    decreases |rest|
  {
    if rest != [] {
      if Fits(v, inner, skipped, rest[0], maxUps, doPmtud) {
        NoneOf(v + [rest[0]], Type(rest[0]), skipped, rest[1..], maxUps, doPmtud, t);
        forall p | p in Fill(v, inner, skipped, rest, maxUps, doPmtud).0 && p !in v
          ensures Type(p) != t && Type(p) != SH
        {
          if p !in v + [rest[0]] {} else { assert p == rest[0]; }
        }
      } else {
        NoneOf(v, inner, Skip(v, skipped, rest[0], maxUps), rest[1..], maxUps, doPmtud, t);
      }
    }
  }

  /** A packet that is too long holds back all later ones of its type, so that they keep
      their order, and all with a short header. */
  lemma TooLongHolds(v: seq<Pkt>, inner: nat, skipped: Bits, next: Pkt, rest: seq<Pkt>, maxUps: nat, doPmtud: bool)
    requires v != [] && next.bytes != [] && Len(v) + |next.bytes| > maxUps && !IsInitial(next.bytes[0])
    requires IsZeroRtt(next.bytes[0]) || IsHandshake(next.bytes[0]) || IsShort(next.bytes[0])
    ensures var f := Fill(v, inner, skipped, [next] + rest, maxUps, doPmtud);
            f.1 != [] && f.1[0] == next && forall p :: p in f.0 && p !in v ==> Type(p) != Type(next) && Type(p) != SH
  {
    TypeIs(next);
    assert ([next] + rest)[1..] == rest;
    NoneOf(v, inner, Skip(v, skipped, next, maxUps), rest, maxUps, doPmtud, Type(next));
  }

  /** How long the padding is: when probing, up to the limit; else only behind Initials,
      up to 1200 bytes. */
  lemma PadLength(v: seq<Pkt>, maxUps: nat, probe: bool, rand: nat -> Byte)
    requires v != [] && v[0].bytes != []
    ensures Len(v) + |PadFor(v, maxUps, probe, rand)| ==
      if probe && Len(v) < maxUps then maxUps
      else if IsInitial(v[0].bytes[0]) && Len(v) < 1200 then 1200
      else Len(v)
  {
    TypeIs(v[0]);
  }

  // ----- the datagrams partition the queue

  ghost predicate Ordered(ps: seq<Pkt>)
  {
    forall i, j :: 0 <= i < j < |ps| ==> ps[i].nr < ps[j].nr
  }

  function Flatten(ds: seq<Datagram>): (r: seq<Pkt>)
  {
    if ds == [] then [] else ds[0].pkts + Flatten(ds[1..])
  }

  lemma AddBoth(a: multiset<Pkt>, b: multiset<Pkt>, c: multiset<Pkt>, d: multiset<Pkt>, x: multiset<Pkt>)
    requires a + b == c + d
    ensures a + (x + b) == c + (x + d)
  {
    assert a + (x + b) == x + (a + b) && c + (x + d) == x + (c + d);
  }

  /** Each packet of the rest joins or stays, and the order is kept on both sides. */
  lemma {:induction false} FillPartitions(v: seq<Pkt>, inner: nat, skipped: Bits, rest: seq<Pkt>, maxUps: nat, doPmtud: bool)
    requires v != []
    ensures var f := Fill(v, inner, skipped, rest, maxUps, doPmtud);
            multiset(f.0) + multiset(f.1) == multiset(v) + multiset(rest)
    decreases |rest|
  {
    if rest != [] {
      assert rest == [rest[0]] + rest[1..];
      if Fits(v, inner, skipped, rest[0], maxUps, doPmtud) {
        FillPartitions(v + [rest[0]], Type(rest[0]), skipped, rest[1..], maxUps, doPmtud);
      } else {
        var next := Skip(v, skipped, rest[0], maxUps);
        FillPartitions(v, inner, next, rest[1..], maxUps, doPmtud);
        var r := Fill(v, inner, next, rest[1..], maxUps, doPmtud);
        assert Fill(v, inner, skipped, rest, maxUps, doPmtud) == (r.0, [rest[0]] + r.1);
        assert multiset([rest[0]] + r.1) == multiset{rest[0]} + multiset(r.1);
        assert multiset(rest) == multiset{rest[0]} + multiset(rest[1..]);
        AddBoth(multiset(r.0), multiset(r.1), multiset(v), multiset(rest[1..]), multiset{rest[0]});
      }
    }
  }

  /** Everything in `a` comes before everything in `b`. */
  ghost predicate Before(a: seq<Pkt>, b: seq<Pkt>)
  {
    forall p, q :: p in a && q in b ==> p.nr < q.nr
  }

  lemma ConsOrdered(p: Pkt, ps: seq<Pkt>)
    requires Ordered(ps) && Before([p], ps)
    ensures Ordered([p] + ps)
  {
    assert p in [p];
    forall i, j | 0 <= i < j < |ps| + 1 ensures ([p] + ps)[i].nr < ([p] + ps)[j].nr {
      assert ([p] + ps)[j] in ps;
    }
  }

  lemma SnocOrdered(ps: seq<Pkt>, p: Pkt)
    requires Ordered(ps) && Before(ps, [p])
    ensures Ordered(ps + [p])
  {
    assert p in [p];
    forall i, j | 0 <= i < j < |ps| + 1 ensures (ps + [p])[i].nr < (ps + [p])[j].nr {
      assert (ps + [p])[i] in ps;
    }
  }

  lemma TailOrdered(rest: seq<Pkt>)
    requires Ordered(rest) && rest != []
    ensures Ordered(rest[1..]) && Before([rest[0]], rest[1..])
  {
  }

  lemma {:induction false} FillOrdered(v: seq<Pkt>, inner: nat, skipped: Bits, rest: seq<Pkt>, maxUps: nat, doPmtud: bool)
    requires v != [] && Ordered(v) && Ordered(rest) && Before(v, rest)
    ensures var f := Fill(v, inner, skipped, rest, maxUps, doPmtud); Ordered(f.0) && Ordered(f.1)
    decreases |rest|
  {
    if rest != [] {
      TailOrdered(rest);
      if Fits(v, inner, skipped, rest[0], maxUps, doPmtud) {
        SnocOrdered(v, rest[0]);
        FillOrdered(v + [rest[0]], Type(rest[0]), skipped, rest[1..], maxUps, doPmtud);
      } else {
        var next := Skip(v, skipped, rest[0], maxUps);
        FillOrdered(v, inner, next, rest[1..], maxUps, doPmtud);
        FillKeepsRest(v, inner, next, rest[1..], maxUps, doPmtud);
        ConsOrdered(rest[0], Fill(v, inner, next, rest[1..], maxUps, doPmtud).1);
      }
    }
  }

  /** Every packet of the queue is in exactly one datagram. */
  lemma {:induction false} CoalescePartitions(q: seq<Pkt>, maxUps: nat, doPmtud: bool, probe: bool, rand: nat -> Byte)
    ensures multiset(Flatten(Coalesce(q, maxUps, doPmtud, probe, rand))) == multiset(q)
    decreases |q|
  {
    if q != [] {
      var f := Fill([q[0]], Type(q[0]), NO_BITS, q[1..], maxUps, doPmtud);
      FillPartitions([q[0]], Type(q[0]), NO_BITS, q[1..], maxUps, doPmtud);
      FillNotEmpty([q[0]], Type(q[0]), NO_BITS, q[1..], maxUps, doPmtud);
      var probe' := probe && Len(f.0) >= maxUps;
      CoalescePartitions(f.1, maxUps, doPmtud, probe', rand);
      var d := Datagram(f.0, PadFor(f.0, maxUps, probe, rand));
      assert Coalesce(q, maxUps, doPmtud, probe, rand)[1..] == Coalesce(f.1, maxUps, doPmtud, probe', rand);
      assert q == [q[0]] + q[1..];
    }
  }

  lemma {:induction false} CoalesceSubset(q: seq<Pkt>, maxUps: nat, doPmtud: bool, probe: bool, rand: nat -> Byte)
    ensures forall d :: d in Coalesce(q, maxUps, doPmtud, probe, rand) ==> d.pkts != [] && d.pkts[0] in q
    decreases |q|
  {
    if q != [] {
      var f := Fill([q[0]], Type(q[0]), NO_BITS, q[1..], maxUps, doPmtud);
      FillNotEmpty([q[0]], Type(q[0]), NO_BITS, q[1..], maxUps, doPmtud);
      FillKeepsRest([q[0]], Type(q[0]), NO_BITS, q[1..], maxUps, doPmtud);
      CoalesceSubset(f.1, maxUps, doPmtud, probe && Len(f.0) >= maxUps, rand);
    }
  }

  /** Queue order is kept within each datagram and between the first packets of the
      datagrams. */
  lemma {:induction false} CoalesceOrdered(q: seq<Pkt>, maxUps: nat, doPmtud: bool, probe: bool, rand: nat -> Byte)
    requires Ordered(q)
    ensures var ds := Coalesce(q, maxUps, doPmtud, probe, rand);
            && (forall d :: d in ds ==> d.pkts != [] && Ordered(d.pkts))
            && (forall i, j :: 0 <= i < j < |ds| ==> ds[i].pkts[0].nr < ds[j].pkts[0].nr)
    decreases |q|
  {
    if q != [] {
      var f := Fill([q[0]], Type(q[0]), NO_BITS, q[1..], maxUps, doPmtud);
      var probe' := probe && Len(f.0) >= maxUps;
      TailOrdered(q);
      FillOrdered([q[0]], Type(q[0]), NO_BITS, q[1..], maxUps, doPmtud);
      FillNotEmpty([q[0]], Type(q[0]), NO_BITS, q[1..], maxUps, doPmtud);
      FillKeepsRest([q[0]], Type(q[0]), NO_BITS, q[1..], maxUps, doPmtud);
      CoalesceOrdered(f.1, maxUps, doPmtud, probe', rand);
      CoalesceSubset(f.1, maxUps, doPmtud, probe', rand);
      var ds, rest := Coalesce(q, maxUps, doPmtud, probe, rand), Coalesce(f.1, maxUps, doPmtud, probe', rand);
      HeadsOrdered(q[0], ds[0], rest);
    }
  }

  lemma HeadsOrdered(p: Pkt, d: Datagram, rest: seq<Datagram>)
    requires d.pkts != [] && d.pkts[0] == p && forall e :: e in rest ==> e.pkts != [] && p.nr < e.pkts[0].nr
    requires forall i, j :: 0 <= i < j < |rest| ==> rest[i].pkts[0].nr < rest[j].pkts[0].nr
    ensures forall i, j :: 0 <= i < j < |rest| + 1 ==> ([d] + rest)[i].pkts[0].nr < ([d] + rest)[j].pkts[0].nr
  {
    forall i, j | 0 <= i < j < |rest| + 1 ensures ([d] + rest)[i].pkts[0].nr < ([d] + rest)[j].pkts[0].nr {
      assert ([d] + rest)[j] in rest;
    }
  }

  // ----- in place

  /** The inner loop of coalesce over the packets behind `first`. */
  method FillDatagram(first: Pkt, rest: seq<Pkt>, maxUps: nat, doPmtud: bool) returns (v: seq<Pkt>, kept: seq<Pkt>)
    ensures (v, kept) == Fill([first], Type(first), NO_BITS, rest, maxUps, doPmtud)
  {
    v, kept := [first], [];
    var len, inner, skipped := |first.bytes|, Type(first), NO_BITS;
    OneLen(first);
    ghost var all := Fill([first], Type(first), NO_BITS, rest, maxUps, doPmtud);
    var i := 0;
    assert rest[0..] == rest && [] + all.1 == all.1;
    while i < |rest|
      invariant 0 <= i <= |rest| && v != [] && v[0] == first && len == Len(v)
      invariant var r := Fill(v, inner, skipped, rest[i..], maxUps, doPmtud); all == (r.0, kept + r.1)
    {
      var next := rest[i];
      FillStep(v, inner, skipped, rest, i, maxUps, doPmtud, kept);
      if len + |next.bytes| > maxUps {
        skipped := Or(skipped, TypeBits(Type(next)));
        kept := kept + [next];
      } else if !CanCoalesce(inner, Type(next)) {
        kept := kept + [next];
      } else if Meet(skipped, TypeBits(Type(next))) {
        kept := kept + [next];
      } else if skipped != NO_BITS && Num(skipped) < Type(next) {
        kept := kept + [next];
      } else if Type(next) == SH && doPmtud {
        kept := kept + [next];
      } else if Type(next) == SH && Type(first) == LH_INIT {
        kept := kept + [next];
      } else {
        LenMore(v, next);
        inner, v, len := Type(next), v + [next], len + |next.bytes|;
      }
      i := i + 1;
    }
    assert rest[i..] == [];
    assert kept + [] == kept;
  }

  lemma FillStep(v: seq<Pkt>, inner: nat, skipped: Bits, rest: seq<Pkt>, i: nat, maxUps: nat, doPmtud: bool, kept: seq<Pkt>)
    requires v != [] && i < |rest|
    ensures var r := Fill(v, inner, skipped, rest[i..], maxUps, doPmtud);
            if Fits(v, inner, skipped, rest[i], maxUps, doPmtud) then
              r == Fill(v + [rest[i]], Type(rest[i]), skipped, rest[i + 1..], maxUps, doPmtud)
            else
              var t := Fill(v, inner, Skip(v, skipped, rest[i], maxUps), rest[i + 1..], maxUps, doPmtud);
              (r.0, kept + r.1) == (t.0, (kept + [rest[i]]) + t.1)
  {
    assert rest[i..][0] == rest[i] && rest[i..][1..] == rest[i + 1..];
    if !Fits(v, inner, skipped, rest[i], maxUps, doPmtud) {
      var t := Fill(v, inner, Skip(v, skipped, rest[i], maxUps), rest[i + 1..], maxUps, doPmtud);
      assert kept + ([rest[i]] + t.1) == (kept + [rest[i]]) + t.1;
    }
  }

  lemma CoalesceStep(q: seq<Pkt>, v: seq<Pkt>, kept: seq<Pkt>, ds: seq<Datagram>, maxUps: nat, doPmtud: bool, probe: bool,
                     rand: nat -> Byte)
    requires q != [] && (v, kept) == Fill([q[0]], Type(q[0]), NO_BITS, q[1..], maxUps, doPmtud)
    ensures v != [] && ds + Coalesce(q, maxUps, doPmtud, probe, rand) ==
            (ds + [Datagram(v, PadFor(v, maxUps, probe, rand))])
            + Coalesce(kept, maxUps, doPmtud, probe && Len(v) >= maxUps, rand)
  {
    FillNotEmpty([q[0]], Type(q[0]), NO_BITS, q[1..], maxUps, doPmtud);
  }

  /** coalesce: the queue is consumed datagram by datagram. */
  method CoalesceQueue(q: seq<Pkt>, maxUps: nat, doPmtud: bool, rand: nat -> Byte) returns (ds: seq<Datagram>)
    ensures ds == Coalesce(q, maxUps, doPmtud, doPmtud, rand)
  {
    ds := [];
    var left, probe := q, doPmtud;
    while left != []
      invariant Coalesce(q, maxUps, doPmtud, doPmtud, rand) == ds + Coalesce(left, maxUps, doPmtud, probe, rand)
      decreases |left|
    {
      var v, kept := FillDatagram(left[0], left[1..], maxUps, doPmtud);
      CoalesceStep(left, v, kept, ds, maxUps, doPmtud, probe, rand);
      ds := ds + [Datagram(v, PadFor(v, maxUps, probe, rand))];
      probe := probe && Len(v) >= maxUps;
      left := kept;
    }
  }
}
