/** Splitting datagrams by the length field: dec_pkt_hdr_beginning in lib/src/pkt.c,
    and the headers enc_pkt writes. */
module Splitting {
  import opened Ivals
  import opened Varint
  import opened Coalescing
  import opened AckCodec

  const CID_LEN_MAX: nat := 20
  const MAX_TOK_LEN: nat := 166
  const RIT_LEN: nat := 16
  const LH_RTRY: nat := 0x30

  // ----- the long header as enc_pkt writes it

  /** `body` is the packet number and the protected payload; Initials carry a token. */
  datatype Long = Long(flags: Byte, vers: seq<Byte>, dcid: seq<Byte>, scid: seq<Byte>, token: seq<Byte>, body: seq<Byte>)

  ghost predicate Proper(h: Long)
  {
    && IsLh(h.flags) && PktType(h.flags) != LH_RTRY && |h.vers| == 4 && h.vers != [0, 0, 0, 0]
    && |h.dcid| <= CID_LEN_MAX && |h.scid| <= CID_LEN_MAX && |h.token| < MAX_TOK_LEN
    && (PktType(h.flags) != LH_INIT ==> h.token == []) && |h.body| < 0x4000
  }

  function Front(h: Long): (r: seq<Byte>)
    requires |h.dcid| < 256 && |h.scid| < 256
  {
    [h.flags] + h.vers + [|h.dcid|] + h.dcid + [|h.scid|] + h.scid
  }

  function Token(h: Long): (r: seq<Byte>)
  {
    if PktType(h.flags) == LH_INIT then EncodeV(|h.token|) + h.token else []
  }

  /** The length field always has two bytes. */
  function Encoded(h: Long): (r: seq<Byte>)
    requires |h.dcid| < 256 && |h.scid| < 256 && |h.body| < 0x4000
  {
    Front(h) + Token(h) + EncodeVl(|h.body|, 2) + h.body
  }

  // ----- parsing

  /** Position behind the connection IDs, or None. */
  function SkipCids(s: seq<Byte>): (r: Option<nat>)
  {
    if |s| < 6 || s[5] > CID_LEN_MAX || 6 + s[5] >= |s| then None
    else
      var p := 6 + s[5];
      if s[p] > CID_LEN_MAX || p + 1 + s[p] > |s| then None else Some(p + 1 + s[p])
  }

  /** Position behind the token of an Initial, or None. */
  function SkipToken(s: seq<Byte>, read: Reader, p: nat, isClnt: bool): (r: Option<nat>)
    requires s != []
  {
    if PktType(s[0]) != LH_INIT then Some(p)
    else
      var t := read(p);
      if t.None? then None
      else
        var len := t.value.0 % 0x1_0000;
        if len == 0 then Some(t.value.1)
        else if isClnt || len >= MAX_TOK_LEN || len > |s| || t.value.1 + len > |s| then None
        else Some(t.value.1 + len)
  }

  /** hdr_len plus the length field of a long-header packet. */
  function PktLen(s: seq<Byte>, isClnt: bool): (r: Option<nat>)
    requires s != []
  {
    PktLenVia(s, Decoder(s, |s|), isClnt)
  }

  function PktLenVia(s: seq<Byte>, read: Reader, isClnt: bool): (r: Option<nat>)
    requires s != []
  {
    var c := SkipCids(s);
    if c.None? then None
    else
      var t := SkipToken(s, read, c.value, isClnt);
      if t.None? then None
      else
        var l := read(t.value);
        if l.None? then None
        else
          var len := l.value.0 % 0x1_0000;
          if len > |s| then None else Some(l.value.1 + len)
  }

  /** The packets of a datagram, split off one by one; a short-header packet takes the
      rest, and so does one with version 0 or of type Retry.  A packet that cannot be read
      is dropped with all that follows; one with a short header needs the `dcidLen` bytes of
      the local connection ID. */
  function Split(s: seq<Byte>, isClnt: bool, dcidLen: nat): (r: seq<seq<Byte>>)
    decreases |s|
  {
    if s == [] then []
    else if !IsLh(s[0]) then Last(s, dcidLen)
    else
      var c := SkipCids(s);
      if c.None? then []
      else if s[1..5] == [0, 0, 0, 0] then [s]
      else if PktType(s[0]) == LH_RTRY then if RIT_LEN < |s| - c.value < RIT_LEN + MAX_TOK_LEN then [s] else []
      else
        var n := PktLen(s, isClnt);
        if n.None? then []
        else if 0 < n.value < |s| then [s[..n.value]] + Split(s[n.value..], isClnt, dcidLen)
        else [s]
  }

  function Last(s: seq<Byte>, dcidLen: nat): (r: seq<seq<Byte>>)
  {
    if |s| > dcidLen then [s] else []
  }

  // ----- a header parses back to its own length

  /** Behind the bytes `f` a parser has the flags and the version of `h` and has passed
      the connection IDs. */
  ghost predicate Heads(f: seq<Byte>, h: Long)
  {
    forall s :: At(s, 0, f) ==> |s| >= 5 && s[0] == h.flags && s[1..5] == h.vers && SkipCids(s) == Some(|f|)
  }

  lemma FrontHeads(h: Long)
    requires Proper(h)
    ensures Heads(Front(h), h)
  {
    var f := Front(h);
    assert f == [h.flags] + (h.vers + ([|h.dcid|] + (h.dcid + ([|h.scid|] + h.scid))));
    assert f[1..5] == h.vers && f[5] == |h.dcid| && f[6 + |h.dcid|] == |h.scid|;
    forall s | At(s, 0, f)
      ensures |s| >= 5 && s[0] == h.flags && s[1..5] == h.vers && SkipCids(s) == Some(|f|)
    {
      forall i | 0 <= i < |f| ensures s[i] == f[i] { assert s[0..|f|][i] == s[i]; }
    }
  }

  lemma FieldAt(s: seq<Byte>, p: nat, x: nat)
    requires x < 0x1_0000_0000_0000 && At(s, p, EncodeV(x))
    ensures Decoder(s, |s|)(p) == Some((x, p + |EncodeV(x)|))
  {
    Finds(s, p, x, |s|);
    BelowIsPlain(x);
  }

  lemma TokenAt(h: Long, p: nat, isClnt: bool, s: seq<Byte>)
    requires Proper(h) && (isClnt ==> h.token == []) && s != [] && s[0] == h.flags && At(s, p, Token(h))
    ensures SkipToken(s, Decoder(s, |s|), p, isClnt) == Some(p + |Token(h)|)
  {
    if PktType(h.flags) == LH_INIT {
      AtSplit(s, p, EncodeV(|h.token|), h.token);
      FieldAt(s, p, |h.token|);
      SkipTokenIs(s, Decoder(s, |s|), p, |h.token|, p + |EncodeV(|h.token|)|, isClnt);
    }
  }

  lemma SkipTokenIs(s: seq<Byte>, read: Reader, p: nat, n: nat, q: nat, isClnt: bool)
    requires s != [] && PktType(s[0]) == LH_INIT && read(p) == Some((n, q)) && n < MAX_TOK_LEN
    requires q + n <= |s| && (isClnt ==> n == 0)
    ensures SkipToken(s, read, p, isClnt) == Some(q + n)
  {
  }

  lemma LengthAt(s: seq<Byte>, p: nat, n: nat)
    requires n < 0x4000 && At(s, p, EncodeVl(n, 2))
    ensures Decoder(s, |s|)(p) == Some((n, p + 2))
  {
    assert s == s[..p] + EncodeVl(n, 2) + s[p + 2..];
    RoundTrip(n, 2, s[..p], s[p + 2..], |s|);
    BelowIsPlain(n);
  }

  lemma PktLenIs(s: seq<Byte>, read: Reader, c: nat, t: nat, n: nat, isClnt: bool)
    requires s != [] && SkipCids(s) == Some(c) && SkipToken(s, read, c, isClnt) == Some(t)
    requires read(t) == Some((n, t + 2)) && n < 0x1_0000 && n <= |s|
    ensures PktLenVia(s, read, isClnt) == Some(t + 2 + n)
  {
  }

  /** Behind the packet `p`, whatever the `rest`, the next one is found. */
  ghost predicate Announces(p: seq<Byte>, rest: seq<Byte>, isClnt: bool)
  {
    && |p| >= 5 && IsLh(p[0]) && PktType(p[0]) != LH_RTRY && p[1..5] != [0, 0, 0, 0]
    && PktLen(p + rest, isClnt) == Some(|p|)
  }

  lemma FieldsAt(f: seq<Byte>, t: seq<Byte>, l: seq<Byte>, b: seq<Byte>, rest: seq<Byte>, s: seq<Byte>)
    requires s == f + t + l + b + rest
    ensures At(s, 0, f) && At(s, |f|, t) && At(s, |f| + |t|, l)
  {
    assert At(s, 0, f + t + l + b);
    AtSplit(s, 0, f + t + l, b);
    AtSplit(s, 0, f + t, l);
    AtSplit(s, 0, f, t);
  }

  lemma FrontOf(h: Long, p: seq<Byte>, rest: seq<Byte>, s: seq<Byte>)
    requires Proper(h) && p == Encoded(h) && s == p + rest
    ensures |p| >= 5 && p[0] == s[0] == h.flags && p[1..5] == h.vers && SkipCids(s) == Some(|Front(h)|)
  {
    FieldsAt(Front(h), Token(h), EncodeVl(|h.body|, 2), h.body, rest, s);
    FrontHeads(h);
    SameStart(p, rest);
  }

  lemma SameStart(p: seq<Byte>, rest: seq<Byte>)
    requires |p| >= 5
    ensures (p + rest)[0] == p[0] && (p + rest)[1..5] == p[1..5]
  {
  }

  lemma TokenOf(h: Long, rest: seq<Byte>, s: seq<Byte>, isClnt: bool)
    requires Proper(h) && (isClnt ==> h.token == []) && s == Encoded(h) + rest && s != [] && s[0] == h.flags
    ensures SkipToken(s, Decoder(s, |s|), |Front(h)|, isClnt) == Some(|Front(h)| + |Token(h)|)
  {
    FieldsAt(Front(h), Token(h), EncodeVl(|h.body|, 2), h.body, rest, s);
    TokenAt(h, |Front(h)|, isClnt, s);
  }

  lemma LengthOf(h: Long, rest: seq<Byte>, s: seq<Byte>)
    requires Proper(h) && s == Encoded(h) + rest
    ensures Decoder(s, |s|)(|Front(h)| + |Token(h)|) == Some((|h.body|, |Front(h)| + |Token(h)| + 2))
  {
    FieldsAt(Front(h), Token(h), EncodeVl(|h.body|, 2), h.body, rest, s);
    LengthAt(s, |Front(h)| + |Token(h)|, |h.body|);
  }

  lemma EncodedLen(h: Long)
    requires Proper(h)
    ensures |Encoded(h)| == |Front(h)| + |Token(h)| + 2 + |h.body|
  {
  }

  /** Where a parser finds the fields of a packet. */
  lemma Parses(h: Long, p: seq<Byte>, rest: seq<Byte>, s: seq<Byte>, isClnt: bool) returns (c: nat, t: nat)
    requires Proper(h) && (isClnt ==> h.token == []) && p == Encoded(h) && s == p + rest
    ensures |p| >= 5 && p[0] == h.flags && p[1..5] == h.vers && SkipCids(s) == Some(c)
    ensures |p| <= |s| && SkipToken(s, Decoder(s, |s|), c, isClnt) == Some(t)
    ensures |p| == t + 2 + |h.body| && Decoder(s, |s|)(t) == Some((|h.body|, t + 2))
  {
    c, t := |Front(h)|, |Front(h)| + |Token(h)|;
    EncodedLen(h);
    FrontOf(h, p, rest, s);
    TokenOf(h, rest, s, isClnt);
    LengthOf(h, rest, s);
  }

  lemma ParsedAnnounces(p: seq<Byte>, rest: seq<Byte>, s: seq<Byte>, c: nat, t: nat, n: nat, isClnt: bool)
    requires |p| >= 5 && IsLh(p[0]) && PktType(p[0]) != LH_RTRY && p[1..5] != [0, 0, 0, 0] && s == p + rest
    requires SkipCids(s) == Some(c) && SkipToken(s, Decoder(s, |s|), c, isClnt) == Some(t)
    requires |p| == t + 2 + n && n < 0x4000 && Decoder(s, |s|)(t) == Some((n, t + 2))
    ensures Announces(p, rest, isClnt)
  {
    PktLenIs(s, Decoder(s, |s|), c, t, n, isClnt);
  }

  /** A long-header packet says how long it is. */
  lemma LengthBack(h: Long, p: seq<Byte>, rest: seq<Byte>, isClnt: bool)
    requires Proper(h) && (isClnt ==> h.token == []) && p == Encoded(h)
    ensures Announces(p, rest, isClnt)
  {
    var c, t := Parses(h, p, rest, p + rest, isClnt);
    ParsedAnnounces(p, rest, p + rest, c, t, |h.body|, isClnt);
  }

  // ----- which packets are refused

  /** Any beginning of a long header that can be written down, */
  ghost predicate Begun(h: Long)
  {
    IsLh(h.flags) && |h.vers| == 4 && |h.dcid| < 256 && |h.scid| < 256
  }

  /** and any packet with a length field. */
  ghost predicate Formed(h: Long)
  {
    && Begun(h) && PktType(h.flags) != LH_RTRY && h.vers != [0, 0, 0, 0] && |h.token| < 0x1_0000
    && (PktType(h.flags) != LH_INIT ==> h.token == []) && |h.body| < 0x4000
  }

  /** Connection IDs of at most 20 bytes, and a token only from a client, of at most 165. */
  ghost predicate Acceptable(h: Long, isClnt: bool)
  {
    |h.dcid| <= 20 && |h.scid| <= 20 && (h.token == [] || (!isClnt && |h.token| <= 165))
  }

  lemma FrontBytes(h: Long, s: seq<Byte>)
    requires Begun(h) && At(s, 0, Front(h))
    ensures |s| >= |Front(h)| == 7 + |h.dcid| + |h.scid| && s[0] == h.flags && s[1..5] == h.vers
    ensures s[5] == |h.dcid| && s[6 + |h.dcid|] == |h.scid|
  {
    var f := Front(h);
    assert f == [h.flags] + (h.vers + ([|h.dcid|] + (h.dcid + ([|h.scid|] + h.scid))));
    assert f[1..5] == h.vers && f[5] == |h.dcid| && f[6 + |h.dcid|] == |h.scid|;
    forall i | 0 <= i < |f| ensures s[i] == f[i] { assert s[0..|f|][i] == s[i]; }
  }

  lemma TokenRefused(h: Long, s: seq<Byte>, isClnt: bool)
    requires Formed(h) && h.token != [] && (isClnt || |h.token| > 165)
    requires s != [] && s[0] == h.flags && At(s, |Front(h)|, Token(h))
    ensures SkipToken(s, Decoder(s, |s|), |Front(h)|, isClnt) == None
  {
    AtSplit(s, |Front(h)|, EncodeV(|h.token|), h.token);
    FieldAt(s, |Front(h)|, |h.token|);
    LongToken(s, Decoder(s, |s|), |Front(h)|, |h.token|, |Front(h)| + |EncodeV(|h.token|)|, isClnt);
  }

  lemma LongToken(s: seq<Byte>, read: Reader, p: nat, n: nat, q: nat, isClnt: bool)
    requires s != [] && PktType(s[0]) == LH_INIT && read(p) == Some((n, q)) && 0 < n < 0x1_0000 && (isClnt || n > 165)
    ensures SkipToken(s, read, p, isClnt) == None
  {
  }

  lemma CidsRead(h: Long, s: seq<Byte>)
    requires Begun(h) && At(s, 0, Front(h))
    ensures SkipCids(s) == if |h.dcid| <= 20 && |h.scid| <= 20 then Some(|Front(h)|) else None
  {
    FrontBytes(h, s);
  }

  lemma NoLength(s: seq<Byte>, read: Reader, isClnt: bool)
    requires s != [] && (SkipCids(s).None? || SkipToken(s, read, SkipCids(s).value, isClnt).None?)
    ensures PktLenVia(s, read, isClnt) == None
  {
  }

  lemma Refused(h: Long, rest: seq<Byte>, s: seq<Byte>, isClnt: bool)
    requires Formed(h) && s == Encoded(h) + rest && !Acceptable(h, isClnt)
    ensures s != [] && PktLen(s, isClnt) == None
  {
    FieldsAt(Front(h), Token(h), EncodeVl(|h.body|, 2), h.body, rest, s);
    FrontBytes(h, s);
    CidsRead(h, s);
    if |h.dcid| <= 20 && |h.scid| <= 20 { TokenRefused(h, s, isClnt); }
    NoLength(s, Decoder(s, |s|), isClnt);
  }

  /** A long-header packet is split off if and only if it is acceptable; if it is not, the
      rest of the datagram is dropped with it. */
  lemma SplitExact(h: Long, rest: seq<Byte>, isClnt: bool, dcidLen: nat)
    requires Formed(h)
    ensures var p := Encoded(h);
            Split(p + rest, isClnt, dcidLen) == if Acceptable(h, isClnt) then [p] + Split(rest, isClnt, dcidLen) else []
  {
    var p := Encoded(h);
    var s := p + rest;
    if Acceptable(h, isClnt) {
      LengthBack(h, p, rest, isClnt);
      SplitLong(p, rest, isClnt, dcidLen);
    } else {
      Refused(h, rest, s, isClnt);
      FieldsAt(Front(h), Token(h), EncodeVl(|h.body|, 2), h.body, rest, s);
      FrontBytes(h, s);
    }
  }

  /** Packets without a length field take the rest of the datagram: version negotiation, and
      a Retry with a token of 1 to 165 bytes and its 16-byte tag.  The others are dropped. */
  lemma LengthlessExact(h: Long, tail: seq<Byte>, isClnt: bool, dcidLen: nat)
    requires Begun(h) && (h.vers == [0, 0, 0, 0] || h.flags % 0x40 >= 0x30)
    ensures var s := Front(h) + tail;
            Split(s, isClnt, dcidLen) ==
            if |h.dcid| <= 20 && |h.scid| <= 20 && (h.vers == [0, 0, 0, 0] || 17 <= |tail| <= 181) then [s] else []
  {
    var s := Front(h) + tail;
    assert At(s, 0, Front(h));
    FrontBytes(h, s);
    CidsRead(h, s);
    var cids := SkipCids(s);
    if cids.None? {
      NoCids(s, isClnt, dcidLen);
    } else if h.vers == [0, 0, 0, 0] {
      Negotiation(s, isClnt, dcidLen);
    } else {
      Retry(s, isClnt, dcidLen, |Front(h)|);
    }
  }

  lemma NoCids(s: seq<Byte>, isClnt: bool, dcidLen: nat)
    requires s != [] && s[0] >= 0x80 && SkipCids(s) == None
    ensures Split(s, isClnt, dcidLen) == []
  {
  }

  lemma Negotiation(s: seq<Byte>, isClnt: bool, dcidLen: nat)
    requires |s| >= 6 && s[0] >= 0x80 && SkipCids(s).Some? && s[1..5] == [0, 0, 0, 0]
    ensures Split(s, isClnt, dcidLen) == [s]
  {
  }

  lemma Retry(s: seq<Byte>, isClnt: bool, dcidLen: nat, c: nat)
    requires |s| >= 6 && s[0] >= 0x80 && SkipCids(s) == Some(c) && s[1..5] != [0, 0, 0, 0] && s[0] % 0x40 >= 0x30
    ensures Split(s, isClnt, dcidLen) == if 17 <= |s| - c <= 181 then [s] else []
  {
    assert PktType(s[0]) == LH_RTRY;
  }

  /** Whatever arrives, the parts are stretches of it, one behind the other, none empty. */
  lemma {:induction false} SplitPrefix(s: seq<Byte>, isClnt: bool, dcidLen: nat)
    ensures Bytes(Split(s, isClnt, dcidLen)) <= s && [] !in Split(s, isClnt, dcidLen)
    decreases |s|
  {
    assert s != [] ==> Bytes([s]) == s + Bytes([]);
    var n := SplitCases(s, isClnt, dcidLen);
    if 0 < n < |s| {
      var rest := s[n..];
      SplitPrefix(rest, isClnt, dcidLen);
      PrefixMore(s, n, Split(rest, isClnt, dcidLen));
    }
  }

  lemma SplitCases(s: seq<Byte>, isClnt: bool, dcidLen: nat) returns (n: nat)
    ensures if 0 < n < |s| then Split(s, isClnt, dcidLen) == [s[..n]] + Split(s[n..], isClnt, dcidLen)
            else Split(s, isClnt, dcidLen) == [] || (s != [] && Split(s, isClnt, dcidLen) == [s])
  {
    n := 0;
    if s != [] && s[0] >= 0x80 && SkipCids(s).Some? && s[1..5] != [0, 0, 0, 0] && PktType(s[0]) != LH_RTRY {
      n := if PktLen(s, isClnt).Some? then PktLen(s, isClnt).value else 0;
    }
  }

  lemma PrefixMore(s: seq<Byte>, n: nat, ps: seq<seq<Byte>>)
    requires 0 < n < |s| && Bytes(ps) <= s[n..]
    ensures Bytes([s[..n]] + ps) <= s && s[..n] != []
  {
    assert ([s[..n]] + ps)[1..] == ps;
    var b := Bytes(ps);
    assert Bytes([s[..n]] + ps) == s[..n] + b;
    assert s == s[..n] + s[n..];
    assert forall i :: 0 <= i < |b| ==> b[i] == s[n..][i];
  }

  // ----- a coalesced datagram splits back into its packets

  /** The bytes of a datagram. */
  function Bytes(ps: seq<seq<Byte>>): (r: seq<Byte>)
  {
    if ps == [] then [] else ps[0] + Bytes(ps[1..])
  }

  /** A long-header packet that the receiver accepts. */
  ghost predicate IsLong(p: seq<Byte>, isClnt: bool)
  {
    exists h :: Proper(h) && (isClnt ==> h.token == []) && p == Encoded(h)
  }

  lemma SplitLong(p: seq<Byte>, rest: seq<Byte>, isClnt: bool, dcidLen: nat)
    requires Announces(p, rest, isClnt)
    ensures Split(p + rest, isClnt, dcidLen) == [p] + Split(rest, isClnt, dcidLen)
  {
    var s := p + rest;
    assert s[0] == p[0] && s[1..5] == p[1..5];
    if rest == [] {
      assert s == p && [p] + Split([], isClnt, dcidLen) == [p];
    } else {
      assert s[..|p|] == p && s[|p|..] == rest;
    }
  }

  lemma SplitFirst(p: seq<Byte>, rest: seq<Byte>, isClnt: bool, dcidLen: nat)
    requires IsLong(p, isClnt)
    ensures Split(p + rest, isClnt, dcidLen) == [p] + Split(rest, isClnt, dcidLen)
  {
    var h :| Proper(h) && (isClnt ==> h.token == []) && p == Encoded(h);
    LengthBack(h, p, rest, isClnt);
    SplitLong(p, rest, isClnt, dcidLen);
  }

  /** Splitting gives the long-header packets back, in order, and then what follows them: a
      short-header packet or padding, if it is longer than a connection ID. */
  lemma {:induction false} SplitBack(ps: seq<seq<Byte>>, tail: seq<Byte>, isClnt: bool, dcidLen: nat)
    requires (forall i :: 0 <= i < |ps| ==> IsLong(ps[i], isClnt)) && (tail != [] ==> tail[0] < 0x80)
    ensures Split(Bytes(ps) + tail, isClnt, dcidLen) == ps + Last(tail, dcidLen)
    decreases |ps|
  {
    if ps == [] {
      SplitTail(tail, isClnt, dcidLen);
      Alone(tail, Last(tail, dcidLen));
    } else {
      SplitBack(ps[1..], tail, isClnt, dcidLen);
      var rest := Bytes(ps[1..]) + tail;
      SplitFirst(ps[0], rest, isClnt, dcidLen);
      Ahead(ps, tail, rest, Last(tail, dcidLen));
    }
  }

  lemma SplitTail(tail: seq<Byte>, isClnt: bool, dcidLen: nat)
    requires tail != [] ==> tail[0] < 0x80
    ensures Split(tail, isClnt, dcidLen) == Last(tail, dcidLen)
  {
  }

  lemma Alone(tail: seq<Byte>, last: seq<seq<Byte>>)
    ensures Bytes([]) + tail == tail && [] + last == last
  {
  }

  lemma Ahead(ps: seq<seq<Byte>>, tail: seq<Byte>, rest: seq<Byte>, last: seq<seq<Byte>>)
    requires ps != [] && rest == Bytes(ps[1..]) + tail
    ensures Bytes(ps) + tail == ps[0] + rest && [ps[0]] + (ps[1..] + last) == ps + last
  {
    Joined(ps[0], Bytes(ps[1..]), tail);
    assert ps == [ps[0]] + ps[1..];
    Joined([ps[0]], ps[1..], last);
  }

  lemma Joined<T>(a: seq<T>, b: seq<T>, c: seq<T>)
    ensures (a + b) + c == a + (b + c)
  {
  }

  // ----- together with coalescing

  function PktBytes(ps: seq<Pkt>): (r: seq<seq<Byte>>)
    ensures |r| == |ps| && forall i :: 0 <= i < |ps| ==> r[i] == ps[i].bytes
  {
    if ps == [] then [] else [ps[0].bytes] + PktBytes(ps[1..])
  }

  /** The bytes of a datagram. */
  function Whole(d: Datagram): (r: seq<Byte>)
  {
    Bytes(PktBytes(d.pkts)) + d.pad
  }

  /** A packet that splitting gives back. */
  ghost predicate Readable(p: Pkt, isClnt: bool, dcidLen: nat)
  {
    IsLong(p.bytes, isClnt) || (|p.bytes| > dcidLen && p.bytes[0] < 0x80)
  }

  lemma {:induction false} BytesApart(ps: seq<seq<Byte>>, p: seq<Byte>)
    ensures Bytes(ps + [p]) == Bytes(ps) + p
    decreases |ps|
  {
    if ps == [] {
      assert [] + [p] == [p] && Bytes([p]) == p + Bytes([]);
    } else {
      assert (ps + [p])[1..] == ps[1..] + [p];
      BytesApart(ps[1..], p);
    }
  }

  /** A well-formed datagram of long- and short-header packets splits back into its
      packets, followed by the padding if that is longer than a connection ID. */
  lemma DatagramSplits(d: Datagram, maxUps: nat, isClnt: bool, dcidLen: nat)
    requires WellFormed(d, maxUps) && forall i :: 0 <= i < |d.pkts| ==> Readable(d.pkts[i], isClnt, dcidLen)
    ensures Split(Whole(d), isClnt, dcidLen) == PktBytes(d.pkts) + Last(d.pad, dcidLen)
  {
    var ps, k := PktBytes(d.pkts), |d.pkts| - 1;
    forall i | 0 <= i < |ps| ensures IsLong(ps[i], isClnt) || (i == k && |ps[i]| > dcidLen && ps[i][0] < 0x80) {
      assert Readable(d.pkts[i], isClnt, dcidLen);
    }
    if IsLong(ps[k], isClnt) {
      SplitBack(ps, d.pad, isClnt, dcidLen);
    } else {
      ShortLast(ps, k, isClnt, dcidLen);
      assert d.pad == [];
      Unpadded(Bytes(ps), ps, dcidLen);
    }
  }

  lemma ShortLast(ps: seq<seq<Byte>>, k: nat, isClnt: bool, dcidLen: nat)
    requires k + 1 == |ps| && |ps[k]| > dcidLen && ps[k][0] < 0x80
    requires forall i :: 0 <= i < k ==> IsLong(ps[i], isClnt)
    ensures Split(Bytes(ps), isClnt, dcidLen) == ps
  {
    var front, last := ps[..k], ps[k];
    assert ps == front + [last];
    BytesApart(front, last);
    SplitBack(front, last, isClnt, dcidLen);
  }

  lemma Unpadded(b: seq<Byte>, ps: seq<seq<Byte>>, dcidLen: nat)
    ensures b + [] == b && ps + Last([], dcidLen) == ps
  {
  }

  /** Coalescing and splitting together: every datagram made from a queue of packets that
      fit splits into packets of the queue, and padding; and all packets come out, each
      once. */
  lemma CoalescedSplits(q: seq<Pkt>, maxUps: nat, rand: nat -> Byte, isClnt: bool, dcidLen: nat)
    requires maxUps >= MIN_INI_LEN && forall i :: 0 <= i < |q| ==> |q[i].bytes| <= maxUps
    requires forall p :: p in q ==> Readable(p, isClnt, dcidLen)
    ensures var ds := Coalesce(q, maxUps, false, false, rand);
            && (forall d :: d in ds ==> SplitsBack(d, q, isClnt, dcidLen))
            && multiset(Flatten(ds)) == multiset(q)
  {
    var ds := Coalesce(q, maxUps, false, false, rand);
    AllWellFormed(q, maxUps, rand);
    CoalescePartitions(q, maxUps, false, false, rand);
    forall d | d in ds ensures SplitsBack(d, q, isClnt, dcidLen) {
      forall p | p in d.pkts ensures p in q {
        FlattenHas(ds, d, p);
        assert p in multiset(q);
      }
      forall i | 0 <= i < |d.pkts| ensures Readable(d.pkts[i], isClnt, dcidLen) { assert d.pkts[i] in d.pkts; }
      DatagramSplits(d, maxUps, isClnt, dcidLen);
    }
  }

  ghost predicate SplitsBack(d: Datagram, q: seq<Pkt>, isClnt: bool, dcidLen: nat)
  {
    && (forall p :: p in d.pkts ==> p in q)
    && Split(Whole(d), isClnt, dcidLen) == PktBytes(d.pkts) + Last(d.pad, dcidLen)
  }

  lemma {:induction false} FlattenHas(ds: seq<Datagram>, d: Datagram, p: Pkt)
    requires d in ds && p in d.pkts
    ensures p in Flatten(ds) && p in multiset(Flatten(ds))
    decreases |ds|
  {
    if d != ds[0] {
      assert d in ds[1..];
      FlattenHas(ds[1..], d, p);
    }
  }
}
