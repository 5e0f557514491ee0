/** Header protection in lib/src/pkt.c (section 5.4 of RFC 9001): masking the flags
    and the packet number, and undoing it. */
module HeaderProtection {
  import opened Ivals
  import opened Varint
  import opened PacketNumber

  const MAX_PKT_NR_LEN: nat := 4
  const AEAD_LEN: nat := 16

  /** A byte as its bits, least significant first. */
  datatype Octet = Octet(b0: bool, b1: bool, b2: bool, b3: bool, b4: bool, b5: bool, b6: bool, b7: bool)

  function Xor(a: Octet, b: Octet): (r: Octet)
  {
    Octet(a.b0 != b.b0, a.b1 != b.b1, a.b2 != b.b2, a.b3 != b.b3,
          a.b4 != b.b4, a.b5 != b.b5, a.b6 != b.b6, a.b7 != b.b7)
  }

  function And(a: Octet, b: Octet): (r: Octet)
  {
    Octet(a.b0 && b.b0, a.b1 && b.b1, a.b2 && b.b2, a.b3 && b.b3,
          a.b4 && b.b4, a.b5 && b.b5, a.b6 && b.b6, a.b7 && b.b7)
  }

  /** Five bytes, an arbitrary function of the sample of the ciphertext. */
  type Mask = (Octet, Octet, Octet, Octet, Octet)
  type Masker = seq<Octet> -> Mask

  const BITS_0F := Octet(true, true, true, true, false, false, false, false)
  const BITS_1F := Octet(true, true, true, true, true, false, false, false)

  predicate IsLh(flags: Octet)
  {
    flags.b7
  }

  /** The bits of the first byte that are masked. */
  function FlagBits(flags: Octet): (r: Octet)
  {
    if IsLh(flags) then BITS_0F else BITS_1F
  }

  /** The first byte under the mask. */
  function Flip(flags: Octet, m: Octet): (r: Octet)
  {
    Xor(flags, And(m, FlagBits(flags)))
  }

  function Num(b: bool): (r: nat)
  {
    if b then 1 else 0
  }

  /** pkt_nr_len */
  function PktNrLen(flags: Octet): (r: nat)
    ensures 1 <= r <= 4
  {
    1 + Num(flags.b0) + 2 * Num(flags.b1)
  }

  function MaskByte(mask: Mask, i: nat): (r: Octet)
  {
    if i == 0 then mask.0 else if i == 1 then mask.1 else if i == 2 then mask.2 else if i == 3 then mask.3 else mask.4
  }

  /** Where the sample is taken: as if the packet number were four bytes long. */
  function Sample(s: seq<Octet>, pos: nat): (r: seq<Octet>)
    requires pos + MAX_PKT_NR_LEN + AEAD_LEN <= |s|
  {
    s[pos + MAX_PKT_NR_LEN..pos + MAX_PKT_NR_LEN + AEAD_LEN]
  }

  /** xor_hp with a mask, on a packet whose number field starts at `pos` and is `len`
      bytes long. */
  function Xored(s: seq<Octet>, pos: nat, mask: Mask, len: nat): (r: seq<Octet>)
    requires 0 < pos && pos + len <= |s|
    ensures |r| == |s|
  {
    seq(|s|, i requires 0 <= i < |s| =>
      if i == 0 then Flip(s[0], mask.0)
      else if pos <= i < pos + len then Xor(s[i], MaskByte(mask, 1 + i - pos))
      else s[i])
  }

  /** Protecting: the length is that of the plain flags. */
  function Protect(s: seq<Octet>, pos: nat, masker: Masker): (r: seq<Octet>)
    requires 0 < pos && pos + MAX_PKT_NR_LEN + AEAD_LEN <= |s|
  {
    Xored(s, pos, masker(Sample(s, pos)), PktNrLen(s[0]))
  }

  /** Unprotecting: `len` is the end of the packet; the number length is known once
      the flags are unmasked. */
  function Unprotect(s: seq<Octet>, pos: nat, len: nat, masker: Masker): (r: Option<seq<Octet>>)
    requires 0 < pos && len <= |s|
  {
    if pos + MAX_PKT_NR_LEN + AEAD_LEN > len then None
    else
      var mask := masker(Sample(s, pos));
      Some(Xored(s, pos, mask, PktNrLen(Flip(s[0], mask.0))))
  }

  lemma XorTwice(x: Octet, m: Octet)
    ensures Xor(Xor(x, m), m) == x
  {
  }

  /** The header form is not masked, so both sides mask the same bits. */
  lemma FormSurvives(x: Octet, m: Octet)
    ensures FlagBits(Flip(x, m)) == FlagBits(x) && Flip(Flip(x, m), m) == x
  {
  }

  lemma XoredTwice(s: seq<Octet>, pos: nat, mask: Mask, len: nat)
    requires 0 < pos && pos + len <= |s|
    ensures Xored(Xored(s, pos, mask, len), pos, mask, len) == s
  {
    var t := Xored(s, pos, mask, len);
    FormSurvives(s[0], mask.0);
    forall i | 0 <= i < |s| ensures Xored(t, pos, mask, len)[i] == s[i] {
      if pos <= i < pos + len { XorTwice(s[i], MaskByte(mask, 1 + i - pos)); }
    }
  }

  /** The sample lies behind everything that is masked. */
  lemma SampleUntouched(s: seq<Octet>, pos: nat, mask: Mask, len: nat)
    requires 0 < pos && pos + MAX_PKT_NR_LEN + AEAD_LEN <= |s| && len <= MAX_PKT_NR_LEN
    ensures Sample(Xored(s, pos, mask, len), pos) == Sample(s, pos)
  {
    var t := Xored(s, pos, mask, len);
    forall i | pos + MAX_PKT_NR_LEN <= i < pos + MAX_PKT_NR_LEN + AEAD_LEN ensures t[i] == s[i] {}
  }

  /** Unprotecting undoes protecting, whatever the mask function. */
  lemma ProtectRoundTrip(s: seq<Octet>, pos: nat, len: nat, masker: Masker)
    requires 0 < pos && pos + MAX_PKT_NR_LEN + AEAD_LEN <= len <= |s|
    ensures Unprotect(Protect(s, pos, masker), pos, len, masker) == Some(s)
  {
    var mask := masker(Sample(s, pos));
    SampleUntouched(s, pos, mask, PktNrLen(s[0]));
    FormSurvives(s[0], mask.0);
    XoredTwice(s, pos, mask, PktNrLen(s[0]));
  }

  /** And the other way round: protecting undoes unprotecting. */
  lemma UnprotectRoundTrip(s: seq<Octet>, pos: nat, len: nat, masker: Masker)
    requires 0 < pos && pos + MAX_PKT_NR_LEN + AEAD_LEN <= len <= |s|
    ensures var r := Unprotect(s, pos, len, masker); r.Some? && |r.value| == |s| && Protect(r.value, pos, masker) == s
  {
    var mask := masker(Sample(s, pos));
    var n := PktNrLen(Flip(s[0], mask.0));
    SampleUntouched(s, pos, mask, n);
    FormSurvives(s[0], mask.0);
    XoredTwice(s, pos, mask, n);
  }

  /** xor_hp in place, with the mask already computed; `applying` says whether the
      flags before or after unmasking tell the number length. */
  method XorHp(buf: array<Octet>, pos: nat, mask: Mask, applying: bool) returns (pnl: nat)
    requires 0 < pos && pos + MAX_PKT_NR_LEN <= buf.Length
    modifies buf
    ensures pnl == PktNrLen(if applying then old(buf[0]) else Flip(old(buf[0]), mask.0))
    ensures buf[..] == Xored(old(buf[..]), pos, mask, pnl)
    ensures pnl <= 4 && Masked(old(buf[..]), buf[..], pos, pnl, mask)
    ensures var first := if applying then old(buf[0]) else buf[0];
            pnl == 1 + (if Bit(first, 0) then 1 else 0) + (if Bit(first, 1) then 2 else 0)
  {
    ghost var s := buf[..];
    var orig, first := XorFlags(buf, pos, mask);
    pnl := PktNrLen(if applying then orig else first);
    XorNumber(buf, pos, mask, pnl, s);
    XoredBits(s, pos, mask, pnl);
    NrLenBits(if applying then orig else first);
    assert buf[0] == buf[..][0] == first;
  }

  /** The flags before and after. */
  method XorFlags(buf: array<Octet>, ghost pos: nat, mask: Mask) returns (orig: Octet, first: Octet)
    requires 0 < pos <= buf.Length
    modifies buf
    ensures orig == old(buf[0]) && first == Flip(orig, mask.0)
    ensures buf[..] == Xored(old(buf[..]), pos, mask, 0)
  {
    ghost var s := buf[..];
    orig := buf[0];
    first := Flip(orig, mask.0);
    buf[0] := first;
    assert buf[..] == s[0 := first];
    XoredNone(s, pos, mask, first, buf[..]);
  }

  lemma XoredNone(s: seq<Octet>, pos: nat, mask: Mask, first: Octet, t: seq<Octet>)
    requires 0 < pos <= |s| && first == Flip(s[0], mask.0) && t == s[0 := first]
    ensures t == Xored(s, pos, mask, 0)
  {
  }

  /** The loop over the bytes of the number. */
  method XorNumber(buf: array<Octet>, pos: nat, mask: Mask, pnl: nat, ghost s: seq<Octet>)
    requires 0 < pos && pos + pnl <= buf.Length == |s| && buf[..] == Xored(s, pos, mask, 0)
    modifies buf
    ensures buf[..] == Xored(s, pos, mask, pnl)
  {
    var i := 0;
    while i < pnl
      invariant 0 <= i <= pnl && buf[..] == Xored(s, pos, mask, i)
    {
      ghost var t := buf[..];
      var b := Xor(buf[pos + i], MaskByte(mask, 1 + i));
      buf[pos + i] := b;
      assert buf[..] == t[pos + i := b];
      XoredMore(s, pos, mask, i, t, b, buf[..]);
      i := i + 1;
    }
  }

  lemma XoredMore(s: seq<Octet>, pos: nat, mask: Mask, i: nat, t: seq<Octet>, b: Octet, t': seq<Octet>)
    requires 0 < pos && pos + i < |s| && t == Xored(s, pos, mask, i)
    requires b == Xor(t[pos + i], MaskByte(mask, 1 + i)) && t' == t[pos + i := b]
    ensures t' == Xored(s, pos, mask, i + 1)
  {
  }

  // ----- bit by bit

  /** Bit `b` of a byte, counted from the least significant. */
  predicate Bit(o: Octet, b: nat)
    requires b < 8
  {
    match b
    case 0 => o.b0 case 1 => o.b1 case 2 => o.b2 case 3 => o.b3
    case 4 => o.b4 case 5 => o.b5 case 6 => o.b6 case _ => o.b7
  }

  /** Bit `b` of byte `i` is hidden by section 5.4.1 of RFC 9001: in the first byte the low
      four bits of a long or the low five of a short header, where the first mask byte is
      set; in the `pnl` bytes of the number, where the mask bytes that follow are. */
  ghost predicate Hidden(first: Octet, pos: nat, pnl: nat, mask: Mask, i: nat, b: nat)
    requires b < 8 && pnl <= 4
  {
    || (i == 0 && b < (if Bit(first, 7) then 4 else 5) && Bit(mask.0, b))
    || (pos <= i < pos + pnl && Bit([mask.1, mask.2, mask.3, mask.4][i - pos], b))
  }

  /** The packets differ in the hidden bits and nowhere else. */
  ghost predicate Masked(s: seq<Octet>, t: seq<Octet>, pos: nat, pnl: nat, mask: Mask)
    requires s != [] && pnl <= 4
  {
    && |t| == |s|
    && forall i, b :: 0 <= i < |s| && 0 <= b < 8 ==> (Bit(t[i], b) != Bit(s[i], b) <==> Hidden(s[0], pos, pnl, mask, i, b))
  }

  lemma XorBits(x: Octet, m: Octet, b: nat, r: Octet)
    requires b < 8 && r == Xor(x, m)
    ensures Bit(r, b) == (Bit(x, b) != Bit(m, b))
  {
    match b
    case 0 => assert r.b0 == (x.b0 != m.b0);
    case 1 => assert r.b1 == (x.b1 != m.b1);
    case 2 => assert r.b2 == (x.b2 != m.b2);
    case 3 => assert r.b3 == (x.b3 != m.b3);
    case 4 => assert r.b4 == (x.b4 != m.b4);
    case 5 => assert r.b5 == (x.b5 != m.b5);
    case 6 => assert r.b6 == (x.b6 != m.b6);
    case _ => assert r.b7 == (x.b7 != m.b7);
  }

  lemma AndBits(x: Octet, m: Octet, b: nat, r: Octet)
    requires b < 8 && r == And(x, m)
    ensures Bit(r, b) == (Bit(x, b) && Bit(m, b))
  {
    match b
    case 0 => assert r.b0 == (x.b0 && m.b0);
    case 1 => assert r.b1 == (x.b1 && m.b1);
    case 2 => assert r.b2 == (x.b2 && m.b2);
    case 3 => assert r.b3 == (x.b3 && m.b3);
    case 4 => assert r.b4 == (x.b4 && m.b4);
    case 5 => assert r.b5 == (x.b5 && m.b5);
    case 6 => assert r.b6 == (x.b6 && m.b6);
    case _ => assert r.b7 == (x.b7 && m.b7);
  }

  lemma FlagBit(x: Octet, b: nat, r: Octet)
    requires b < 8 && r == FlagBits(x)
    ensures Bit(r, b) <==> b < if Bit(x, 7) then 4 else 5
  {
  }

  lemma FlipBits(x: Octet, m: Octet, b: nat, f: Octet, a: Octet, r: Octet)
    requires b < 8 && f == FlagBits(x) && a == And(m, f) && r == Xor(x, a)
    ensures Bit(r, b) != Bit(x, b) <==> b < (if Bit(x, 7) then 4 else 5) && Bit(m, b)
  {
    FlagBit(x, b, f);
    AndBits(m, f, b, a);
    XorBits(x, a, b, r);
  }

  lemma XoredBits(s: seq<Octet>, pos: nat, mask: Mask, pnl: nat)
    requires 0 < pos && pos + pnl <= |s| && pnl <= 4
    ensures Masked(s, Xored(s, pos, mask, pnl), pos, pnl, mask)
  {
    var t := Xored(s, pos, mask, pnl);
    forall i, b | 0 <= i < |s| && 0 <= b < 8
      ensures Bit(t[i], b) != Bit(s[i], b) <==> Hidden(s[0], pos, pnl, mask, i, b)
    {
      if i == 0 {
        FlipBits(s[0], mask.0, b, FlagBits(s[0]), And(mask.0, FlagBits(s[0])), t[0]);
      } else if pos <= i < pos + pnl {
        XorBits(s[i], MaskByte(mask, 1 + i - pos), b, t[i]);
      }
    }
  }

  /** The length that the two low bits of the first byte tell. */
  lemma NrLenBits(flags: Octet)
    ensures PktNrLen(flags) == 1 + (if Bit(flags, 0) then 1 else 0) + (if Bit(flags, 1) then 2 else 0)
  {
  }

  /** Protecting hides the bits that it should, under the mask of the sixteen bytes from
      the fifth byte after the start of the number. */
  lemma ProtectHides(s: seq<Octet>, pos: nat, masker: Masker)
    requires 0 < pos && pos + 20 <= |s|
    ensures var pnl := 1 + (if Bit(s[0], 0) then 1 else 0) + (if Bit(s[0], 1) then 2 else 0);
            Masked(s, Protect(s, pos, masker), pos, pnl, masker(s[pos + 4..pos + 20]))
  {
    NrLenBits(s[0]);
    XoredBits(s, pos, masker(Sample(s, pos)), PktNrLen(s[0]));
  }

  // ----- the packet number under protection

  /** The bits of a byte value. */
  function ToBits(x: Byte): (r: Octet)
  {
    var h1 := x / 2; var h2 := h1 / 2; var h3 := h2 / 2; var h4 := h3 / 2;
    var h5 := h4 / 2; var h6 := h5 / 2; var h7 := h6 / 2;
    Octet(x % 2 == 1, h1 % 2 == 1, h2 % 2 == 1, h3 % 2 == 1, h4 % 2 == 1, h5 % 2 == 1, h6 % 2 == 1, h7 % 2 == 1)
  }

  /** The value of eight bits. */
  function FromBits(b: Octet): (r: Byte)
  {
    Num(b.b0) + 2 * Num(b.b1) + 4 * Num(b.b2) + 8 * Num(b.b3)
    + 16 * Num(b.b4) + 32 * Num(b.b5) + 64 * Num(b.b6) + 128 * Num(b.b7)
  }

  lemma Binary(x: Byte)
    ensures var h1 := x / 2; var h2 := h1 / 2; var h3 := h2 / 2; var h4 := h3 / 2;
            var h5 := h4 / 2; var h6 := h5 / 2; var h7 := h6 / 2;
            x == x % 2 + 2 * (h1 % 2) + 4 * (h2 % 2) + 8 * (h3 % 2)
                 + 16 * (h4 % 2) + 32 * (h5 % 2) + 64 * (h6 % 2) + 128 * (h7 % 2)
  {
  }

  lemma BitIs(o: Octet, p: nat, q: nat, r: nat, s: nat, t: nat, u: nat, v: nat, w: nat)
    requires p < 2 && q < 2 && r < 2 && s < 2 && t < 2 && u < 2 && v < 2 && w < 2
    requires o == Octet(p == 1, q == 1, r == 1, s == 1, t == 1, u == 1, v == 1, w == 1)
    ensures FromBits(o) == p + 2 * q + 4 * r + 8 * s + 16 * t + 32 * u + 64 * v + 128 * w
  {
    assert Num(o.b0) == p && Num(o.b1) == q && Num(o.b2) == r && Num(o.b3) == s;
    assert Num(o.b4) == t && Num(o.b5) == u && Num(o.b6) == v && Num(o.b7) == w;
  }

  lemma BitsBack(x: Byte)
    ensures FromBits(ToBits(x)) == x
  {
    var h1 := x / 2; var h2 := h1 / 2; var h3 := h2 / 2; var h4 := h3 / 2;
    var h5 := h4 / 2; var h6 := h5 / 2; var h7 := h6 / 2;
    Binary(x);
    BitIs(ToBits(x), x % 2, h1 % 2, h2 % 2, h3 % 2, h4 % 2, h5 % 2, h6 % 2, h7 % 2);
  }

  /** The number field. */
  function Field(s: seq<Octet>, pos: nat, len: nat): (r: seq<Byte>)
    requires pos + len <= |s|
    ensures |r| == len && forall i :: 0 <= i < len ==> r[i] == FromBits(s[pos + i])
  {
    if len == 0 then [] else Field(s, pos, len - 1) + [FromBits(s[pos + len - 1])]
  }

  /** The header of packet `n` as enc_pkt writes it: its low bytes at `pos`, and their
      count in the flags. */
  ghost predicate CarriesNumber(s: seq<Octet>, pos: nat, n: nat, len: nat)
  {
    && pos + len <= |s| && 0 < pos && PktNrLen(s[0]) == len
    && forall i :: 0 <= i < len ==> s[pos + i] == ToBits(Truncate(n, len)[i])
  }

  /** undo_hp: the unprotected packet and its full number, or None if it is too short
      to be sampled. */
  function UndoHp(s: seq<Octet>, pos: nat, len: nat, masker: Masker, expected: nat): (r: Option<(seq<Octet>, int)>)
    requires 0 < pos && len <= |s|
  {
    var u := Unprotect(s, pos, len, masker);
    if u.None? then None
    else
      var pnl := PktNrLen(u.value[0]);
      Some((u.value, Expand(expected, pnl, Value(Field(u.value, pos, pnl)))))
  }

  lemma FieldIsNumber(s: seq<Octet>, pos: nat, n: nat, len: nat)
    requires CarriesNumber(s, pos, n, len)
    ensures Field(s, pos, len) == Truncate(n, len)
  {
    forall i | 0 <= i < len ensures Field(s, pos, len)[i] == Truncate(n, len)[i] { BitsBack(Truncate(n, len)[i]); }
  }

  /** Packet number and header protection together: undo_hp gives back the packet and
      its full number for every mask function, when the receiver's largest number is at
      least the sender's largest acked one, the packet is less than 2^31 ahead of that
      and less than half a window behind the expected number. */
  lemma NumberRoundTrip(s: seq<Octet>, pos: nat, len: nat, masker: Masker, lgAcked: int, n: nat, expected: nat)
    requires lgAcked <= n < PKT_NR_LIMIT && n - (if lgAcked < 0 then 0 else lgAcked) < 0x8000_0000
    requires CarriesNumber(s, pos, n, NeededPktNrLen(lgAcked, n))
    requires pos + MAX_PKT_NR_LEN + AEAD_LEN <= len <= |s|
    requires lgAcked < expected && expected < n + Pow256(NeededPktNrLen(lgAcked, n)) / 2
    ensures UndoHp(Protect(s, pos, masker), pos, len, masker, expected) == Some((s, n))
  {
    ProtectRoundTrip(s, pos, len, masker);
    FieldIsNumber(s, pos, n, NeededPktNrLen(lgAcked, n));
    RecoversNumber(lgAcked, n, expected);
  }
}
